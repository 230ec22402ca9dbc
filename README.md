# Erebot admin module, modelled in Dafny

Erebot is an IRC bot written in PHP. Its admin module gives the bot's administrators these chat commands:

- leave a channel (PART) or join one (JOIN);
- disconnect (QUIT);
- grant or take channel privileges (voice, half-op, op, protect, owner);
- reload the bot.

The repository holds two revisions of the module:

- `src/Admin.php`: the namespaced class `Erebot\Module\Admin`, the current revision.
- `src/Erebot/Module/Admin.php`: the PEAR-style class `Erebot_Module_Admin`, the older revision.

This project models both revisions and proves properties of the model.

Modules:

- `PhpText` (`php_text.dfy`): the PHP string built-ins the module uses (`explode`, `implode`, `trim`, `rtrim`, `str_replace`, `array_filter`, `substr`). It also gives the word access of a text message:
  - the text is cut at every single space;
  - `getTokens(start[, len])` re-joins a slice of the words with single spaces;
  - `text[i]` is the i-th word and `count(text)` the number of words.
- `Types` (`types.dfy`): the module's values:
  - the fourteen commands;
  - the identities and text events it receives;
  - the answers of its collaborators;
  - an `Effect` for each call it makes on the connection, the trigger registry or the bot.
- `Directory` (`directory.dfy`): the `admins` setting read into a list of masks, and the administrator test.
- `Commands` (`commands.dfy`): the protocol lines built from a request, and the privilege check before a mode change.
  - The lines are those of RFC 1459: section 4.2.2 PART, section 4.2.1 JOIN, section 4.1.6 QUIT, section 4.2.3 MODE.
  - The fallback to the letters `o` and `v` follows the channel modes of RFC 1459 section 4.2.3.1.
- `Bindings` (`bindings.dfy`): what a reload does to the two tables:
  - `triggers` maps a command to its registration token;
  - `handlers` maps a command to its event handler.
  - The functions that define a reload are `Teardown` (the release calls) and `Registration` (the registration pass).
- `Admin` (`admin.dfy`) and `PearAdmin` (`pear_admin.dfy`): one class per revision.
  - Fields: `triggers`, `handlers`, `admins`, and `effects`, the calls made so far, in order.
  - Every method states the new state and the calls it appends, in terms of the functions above.
- `Scenarios` (`scenarios.dfy`): the expectations of `tests/AdminTest.php`, stated as facts about the model.

Collaborators are parameters:

- the trigger registry: a function from a phrase to a token or null;
- the capabilities module: a four-way answer `Probe`;
- the channel-name test and the identity's mask match: predicates;
- whether a listener prevented the disconnection: a boolean;
- the configuration: a map from setting names to strings.

Three behaviours of the code are worth stating plainly:

- **A failed registration is not rolled back.** Both revisions keep every binding made before the failure, and also the null token of the command that failed. `FailedAt`, `RegistrationFails` and `TeardownAfterFailedPass` state this.
- **An empty admin list denies everyone.** Both revisions do this (`BlankSettingDeniesAll`, `AdminModule.IsAdmin`).
- **The admin list is split as follows.** Both revisions:
  - trim the setting;
  - turn commas into spaces;
  - split only at single spaces;
  - drop the pieces `""` and `"0"`;
  - keep duplicates and order.

  So masks separated by any non-empty run of spaces and commas, such as `"admin1, admin2"` or `"a,,b"`, are read back exactly (`ParseAdminsSeparated`).

## Model

| member | source | states |
|---|---|---|
| `PhpText.Explode` | tests/AdminTest.php:44-47 | splitting at single spaces gives at least one piece, and no piece contains a space |
| `PhpText.ExplodeAppend` | tests/AdminTest.php:44-47 | a space separates the pieces on its two sides: the pieces of `a + " " + b` are those of `a` followed by those of `b` |
| `PhpText.ExplodeWord` | tests/AdminTest.php:44-47 | a word without spaces is a single piece |
| `PhpText.ImplodeExplode` | tests/AdminTest.php:49-52 | re-joining the pieces with single spaces gives back the text: the wrapper's string form is the original text |
| `PhpText.ExplodeImplode` | tests/AdminTest.php:54-59 | words without spaces, joined with single spaces, split back into the same words |
| `PhpText.ExplodeSpaces` | src/Admin.php:171-176 | a string of spaces only splits into empty pieces |
| `PhpText.ExplodeAvoids` | src/Admin.php:171-176 | a character absent from the text is absent from every piece |
| `PhpText.TrimEnd` | src/Admin.php:337 | rtrim gives a prefix of the input that does not end in a blank, and everything it cut off is blank |
| `PhpText.TrimStart` | src/Admin.php:174 | the left half of trim gives a suffix of the input that does not start with a blank, and everything it cut off is blank |
| `PhpText.TrimEndEmpty` | src/Admin.php:337-339 | rtrim gives the empty string exactly when the input is all blanks |
| `PhpText.ReplaceChar` | src/Admin.php:174 | str_replace of one character by another keeps the length, puts the new character exactly where the old one stood and leaves every other character in place |
| `PhpText.ReplaceAppend` | src/Admin.php:174 | str_replace works character by character: replacing in `a + b` is replacing in `a` then in `b` |
| `PhpText.ReplaceAbsent` | src/Admin.php:174 | str_replace leaves a text without the searched character unchanged |
| `PhpText.DropFalsy` | src/Admin.php:171 | array_filter keeps only elements of the input that are neither `""` nor `"0"`, and keeps a list that has no such element unchanged |
| `PhpText.DropFalsyAppend` | src/Admin.php:171 | array_filter works element by element: filtering `a + b` gives the filtered `a` followed by the filtered `b` |
| `PhpText.DropFalsyOne` | src/Admin.php:171 | array_filter drops a single element exactly when it is `""` or `"0"`; with `DropFalsyAppend`, every other element is kept, in order |
| `PhpText.FirstChar` | src/Admin.php:293 | substr(s, 0, 1) is the one-character prefix of s, or `""` for the empty string |
| `Types.AllCommandNames` | src/Admin.php:68-81 | the reload registers fourteen commands, named part, quit, voice … deowner, join, reload in this order |
| `Types.AllCommandsComplete` | src/Admin.php:68-147 | every command of the module is among the fourteen a reload registers |
| `Types.AllCommandsDistinct` | src/Admin.php:68-81 | no command is registered twice in one pass |
| `Types.HandlerModes` | src/Admin.php:464-647 | the ten handlers pass `+v -v +h -h +o -o +a -a +q -q` respectively |
| `Directory.ParseAdmins` | src/Admin.php:171-176 | every mask read from the setting is non-empty, is not `"0"`, and contains neither a space nor a comma |
| `Directory.ParseAdminsRoundTrip` | src/Admin.php:171-176 | masks written with one comma or one space between them are read back as exactly that list |
| `Directory.ParseAdminsSeparated` | src/Admin.php:171-176 | masks separated by any non-empty runs of spaces and commas, with any such run before the first and after the last, are read back as exactly that list (`"admin1, admin2"`, `"a,,b"`) |
| `Directory.BlankSettingDeniesAll` | src/Admin.php:240-258 | a setting of spaces and commas only gives no masks, so nobody is an administrator |
| `Commands.WordsAfterTrigger` | tests/AdminTest.php:44-47 | the words of "trigger text" are the trigger followed by the words of the text |
| `Commands.ParsePart` | src/Admin.php:287-298 | handlePart's three cases: the target is `0`, a channel-like first word, or the request's channel, and the message is the words after the trigger or after the first argument; the exact cases are stated by `PartEverywhere`, `PartNamedChannel`, `PartCurrentChannel`, `PartCurrentWithMessage` and `PartBare` |
| `Commands.PartEverywhere` | src/Admin.php:287-292 | "trigger *" and "trigger * message" leave every channel (target `0`) with that message |
| `Commands.PartNamedChannel` | src/Admin.php:287-294 | a first word that starts like a channel name is the channel to leave, and the rest is the message |
| `Commands.PartCurrentChannel` | src/Admin.php:295-298 | otherwise the request's channel is left, with all the text after the trigger as the message |
| `Commands.PartCurrentWithMessage` | src/Admin.php:295-298 | a message whose first word is neither `*` nor a channel name is kept whole, for the current channel |
| `Commands.PartBare` | src/Admin.php:287-298 | the trigger alone leaves the current channel with an empty message |
| `Commands.JoinLine` | src/Admin.php:669-671 | handleJoin's line starts with `JOIN `; `JoinVerbatim` states that the arguments follow verbatim |
| `Commands.JoinVerbatim` | src/Admin.php:669-671 | the arguments of a join request reach the JOIN line verbatim |
| `Commands.QuitMessage` | src/Admin.php:335-339 | handleQuit's message is absent or contains a non-blank character; `QuitMessageOf` states which |
| `Commands.QuitMessageOf` | src/Admin.php:335-339 | the bare trigger and an all-blank message give no quit message; any other message is kept verbatim |
| `Commands.CheckPrivilege` | src/Admin.php:386-408 | a mode change proceeds exactly when the capabilities module supports the letter, or is absent and the letter is `o` or `v`; it aborts exactly when the module calls the letter invalid |
| `Commands.ModeEffects` | src/Admin.php:386-449 | setMode's decision and fan-out: an allowed change sends at least one command and only MODE commands, a refused one at most one message and no MODE command; `CheckPrivilege`, `ModeFanOut` and `ModeRefused` state the exact effects |
| `Commands.ModeFanOut` | src/Admin.php:410-449 | an allowed change sends one `MODE chan mode :nick` per nick after the trigger, in order and no more; with no nick, exactly one for the sender |
| `Commands.ModeRefused` | src/Admin.php:386-408 | a refused or aborted change sends no MODE line: an abort sends nothing, a refusal sends exactly the "not supported" message to the channel when notifying (the current revision) and nothing otherwise (the older one) |
| `Bindings.Phrase` | src/Admin.php:85 | the trigger phrase is the configured `trigger_<name>` when that setting is present, and the command's name otherwise; so it is always the name or a configured value |
| `Bindings.Teardown` | src/Admin.php:57-64 | the teardown loop makes an even number of calls, at most two per command; `TeardownReleasesAll` and `TeardownCoversTable` state which |
| `Bindings.Registration` | src/Admin.php:84-170 | the registration loop makes at most two calls per command; `RegistrationSucceeds`, `RegistrationFails`, `RegistrationFailsIff` and `RegistrationConsistent` state its outcome |
| `Bindings.RegistrationConsistent` | src/Admin.php:84-170 | after any pass over distinct commands, a command has a handler exactly when its stored token is not null, each handler belongs to its command, and only commands of the pass have entries |
| `Bindings.StepConsistent` | src/Admin.php:86-100 | one iteration on a command without an entry keeps that agreement and adds only that command's entry |
| `Bindings.RegistrationOnlyAcquires` | src/Admin.php:84-170 | a registration pass makes only registration and handler-installation calls |
| `Bindings.RegistrationSucceeds` | src/Admin.php:84-170 | when every phrase registers, each command has its registry token and its handler, and two calls per command are made |
| `Bindings.RegistrationFailsIff` | src/Admin.php:86-95 | a pass fails exactly when some phrase does not register |
| `Bindings.RegistrationFails` | src/Admin.php:86-95 | a failed pass stopped at the first phrase that did not register; the entries and handlers made before it remain, and it keeps a null entry with no handler |
| `Bindings.RegistrationStopped` | src/Admin.php:88-95 | nothing after the failing command is attempted |
| `Bindings.TeardownReleasesAll` | src/Admin.php:57-64 | the teardown removes the handler and frees the token of every entry, two calls per entry, and makes no registration call |
| `Bindings.TeardownLength` | src/Admin.php:57-64 | over distinct commands, the teardown makes exactly two calls per command that has an entry |
| `Bindings.TeardownOnlyReleases` | src/Admin.php:57-64 | every call of the teardown is a handler removal or a token release |
| `Bindings.TeardownVisits` | src/Admin.php:57-64 | for every command of the list with an entry, the teardown removes its handler and frees its token |
| `Bindings.TeardownCoversTable` | src/Admin.php:57-64 | over the fourteen commands, the teardown makes two calls per entry of the whole table |
| `Bindings.ReleasesPrecedeRegistrations` | src/Admin.php:57-66 | in a reload, every release call comes before every registration call, and the teardown makes two calls per table entry |
| `Bindings.ReloadBindsEveryCommand` | src/Admin.php:68-170 | when every phrase registers, exactly fourteen entries and fourteen handlers are left, one live pair per command |
| `Bindings.ReloadConsistent` | src/Admin.php:84-170 | whatever the registry answers, a reload's pass leaves a handler exactly for the commands with a live token |
| `Bindings.ReloadBound` | src/Admin.php:84-170 | a reload's pass that did not fail has a live token and a handler for each of the fourteen commands, and no other entry |
| `Bindings.TeardownAfterFailedPass` | src/Admin.php:57-64 | after a failed pass, the next teardown removes a null handler and frees a null token for the command that failed |
| `Admin.AdminModule.constructor` | src/Admin.php:28-35 | a module not yet loaded has empty tables, no administrators and has made no calls |
| `Admin.AdminModule.Reload` | src/Admin.php:49-178 | without the handlers flag nothing changes. Otherwise: the teardown (skipped on the first load), then the registration pass, appended to the calls. The tables become those of the pass and stay consistent. On success all fourteen commands are bound and the masks are re-read; on failure the status names the failing command and the masks are kept |
| `Admin.AdminModule.ReleaseAll` | src/Admin.php:57-64 | the teardown loop appends exactly the teardown's calls |
| `Admin.AdminModule.RegisterAll` | src/Admin.php:84-170 | the registration loop leaves the tables, calls and failure of the registration pass |
| `Admin.AdminModule.IsAdmin` | src/Admin.php:229-259 | true exactly when some stored mask matches the sender; false for an empty list |
| `Admin.AdminModule.GetHelp` | src/Admin.php:192-216 | answers false without a word when the first word is not the class name. With the class name alone, one help message to the sender of a private message or to the channel, and answers true. Otherwise no answer and nothing sent |
| `Admin.AdminModule.HandlePart` | src/Admin.php:280-311 | an administrator's request appends exactly one PART line; anyone else's appends nothing and nothing else changes |
| `Admin.AdminModule.HandleQuit` | src/Admin.php:328-354 | for an administrator, the disconnection event is dispatched and, unless prevented, the bot disconnects with the quit message; for anyone else nothing happens |
| `Admin.AdminModule.SetMode` | src/Admin.php:368-450 | for an administrator, the privilege check and then one MODE line per target, or the "not supported" notice to the channel; for anyone else nothing |
| `Admin.AdminModule.HandleMode` | src/Admin.php:464-647 | each mode handler is setMode with its fixed mode |
| `Admin.AdminModule.HandleJoin` | src/Admin.php:661-672 | an administrator's request appends one JOIN line with the words after the trigger; anyone else's nothing |
| `Admin.AdminModule.HandleReload` | src/Admin.php:685-695 | an administrator's request asks the bot to reload; anyone else's does nothing |
| `PearAdmin.AdminModule.constructor` | src/Erebot/Module/Admin.php:27-31 | a module not yet loaded has empty tables, no administrators and has made no calls |
| `PearAdmin.AdminModule.Reload` | src/Erebot/Module/Admin.php:46-178 | as in the current revision: teardown unless first load, then the registration pass; consistent tables; masks re-read only on success |
| `PearAdmin.AdminModule.ReleaseAll` | src/Erebot/Module/Admin.php:54-61 | the teardown loop appends exactly the teardown's calls |
| `PearAdmin.AdminModule.RegisterAll` | src/Erebot/Module/Admin.php:81-167 | the registration loop leaves the tables, calls and failure of the registration pass |
| `PearAdmin.AdminModule.IsAdmin` | src/Erebot/Module/Admin.php:191-198 | true exactly when some stored mask matches the sender; false for an empty list |
| `PearAdmin.AdminModule.HandlePart` | src/Erebot/Module/Admin.php:219-240 | an administrator's request appends exactly one PART line; anyone else's nothing |
| `PearAdmin.AdminModule.HandleQuit` | src/Erebot/Module/Admin.php:257-274 | for an administrator, dispatch then disconnect unless prevented; for anyone else nothing |
| `PearAdmin.AdminModule.SetMode` | src/Erebot/Module/Admin.php:288-329 | for an administrator, the privilege check and then one MODE line per target; a refused or aborted change sends nothing at all |
| `PearAdmin.AdminModule.HandleMode` | src/Erebot/Module/Admin.php:343-530 | each mode handler is _setMode with its fixed mode |
| `PearAdmin.AdminModule.HandleJoin` | src/Erebot/Module/Admin.php:544-555 | an administrator's request appends one JOIN line with the words after the trigger; anyone else's nothing |
| `PearAdmin.AdminModule.HandleReload` | src/Erebot/Module/Admin.php:568-578 | an administrator's request asks the bot to reload; anyone else's does nothing |
| `Scenarios.SuiteGate` | tests/AdminTest.php:144-152 | with the suite's mask list, "admin" is an administrator and "foo" is not |
| `Scenarios.SuitePartBare` | tests/AdminTest.php:180 | `!part` gives `PART #test :` |
| `Scenarios.SuitePartCurrent` | tests/AdminTest.php:181-185 | `!part Part message` gives `PART #test :Part message` |
| `Scenarios.SuitePartNamed` | tests/AdminTest.php:187 | `!part #test` gives `PART #test :` |
| `Scenarios.SuitePartNamedMessage` | tests/AdminTest.php:188-192 | `!part #test Part message` gives `PART #test :Part message` |
| `Scenarios.SuitePartEverywhere` | tests/AdminTest.php:194 | `!part *` gives `PART 0 :` |
| `Scenarios.SuitePartEverywhereMessage` | tests/AdminTest.php:195-199 | `!part * Part message` gives `PART 0 :Part message` |
| `Scenarios.SuiteQuit` | tests/AdminTest.php:219-223 | `!quit Quit message` disconnects with `Quit message` |
| `Scenarios.SuiteJoin` | tests/AdminTest.php:289 | `!join #foo bar` gives `JOIN #foo bar` |
| `Scenarios.SuiteVoiceSelf` | tests/AdminTest.php:229 | `!voice` without the capabilities module gives `MODE #test +v :admin` |
| `Scenarios.SuiteVoiceTwo` | tests/AdminTest.php:231-238 | `!voice bar baz` gives `MODE #test +v :bar` then `MODE #test +v :baz` |

## Left out

- Logging, styling and translation (`logger`, `Styling`, `getFormatter`) are side channels only. Their wording is not modelled: the "not supported" notice and the help text are the two `Notice` values.
- The event matchers (`Match\All`, `Any`, `Type`, `TextStatic`, `TextWildcard`) are not modelled. A handler's filter is kept as data (`Filter`), not as a matching function.
  - The JOIN filter is recorded as intended, "the phrase and at least one argument". The concatenation `' & *'.true` at src/Admin.php:138 and src/Erebot/Module/Admin.php:135 is not reproduced.
  - The registry's `MATCH_ANY` flag is not recorded.
- `Admin.AdminModule.Reload` and `PearAdmin.AdminModule.Reload` run the twelve-entry loop and the separate join and reload blocks as one loop over the fourteen commands. The order and the per-command steps are the same.
- In the current revision, the join and reload blocks throw `Exception` inside `namespace Erebot\Module`. The name resolves to `Erebot\Module\Exception` instead of `\Exception`, so the throw does not raise the exception the code names. Both outcomes end the reload at the same point; the model returns `CouldNotRegister` for both.
- The trigger registry is a pure function from phrase to token. Its internal state is not part of this model. Neither is the failure to find the registry module.
  - So two commands configured with the same phrase (for example `trigger_op=voice`) get the same answer. A registry that keeps state might refuse the second registration.
- After a failed pass, the next reload releases the failed command with a null handler and a null token (src/Admin.php:58-62, src/Erebot/Module/Admin.php:55-59). The model assumes `removeEventHandler(null)` and `freeTriggers(null)` return normally. The connection and the registry are not part of this model, so whether they accept null is not shown.
- The disconnection listeners are not modelled. Whether one prevented the disconnection is a parameter of `HandleQuit`.
- Identity masks, the collator, `getMask` and `isChannel` are not modelled: `Identity.matches` and the `isChannel` parameter stand for them.
- The text wrapper is modelled by the semantics of its test double in tests/AdminTest.php:39-70. The real `TextWrapper` is not part of this model.
- `Admin.AdminModule.SetMode`, `Admin.AdminModule.HandlePart`, `PearAdmin.AdminModule.SetMode` and `PearAdmin.AdminModule.HandlePart` require a channel message.
  - These handlers are registered for channel messages only.
  - setMode's private-message branch builds its MODE line from `getChan()`, which a private message does not have.
- `Admin.AdminModule.SetMode` and `PearAdmin.AdminModule.SetMode` do not model setMode's return value: `false` after an invalid letter, nothing otherwise. The mode handlers ignore it.
- The code after `return` in `handleReload` (src/Admin.php:697-761, src/Erebot/Module/Admin.php:580-663) is dead. It is not modelled.
- `docs/conf.py` and `docs/src/conf.py` are documentation build scripts and are not modelled.
- PHP strings are byte strings. They are modelled as sequences of characters; only single characters from the ASCII range are ever compared.
- The mask list starts empty. In PHP the field starts as null, and the administrator test treats it the same way.
