/**
  The administrators' directory: the masks read from the "admins" setting
  and the test that grants a sender administrator access.
 */
module Directory {
  import opened PhpText
  import opened Types

  /**
    The "admins" setting as a list of masks: trimmed, commas turned into
    spaces, cut at single spaces, and the pieces PHP reads as false ("" and
    "0") dropped.
   */
  function ParseAdmins(raw: string): (admins: seq<string>)
    ensures forall i :: 0 <= i < |admins| ==>
      admins[i] != "" && admins[i] != "0" && ' ' !in admins[i] && ',' !in admins[i]
  {
    var spaced := ReplaceChar(Trim(raw), ',', ' ');
    assert ',' !in spaced;
    ExplodeAvoids(spaced, ',');
    DropFalsy(Explode(spaced))
  }

  /** The "admins" setting, "" when it is not set. */
  function AdminsSetting(config: map<string, string>): string
  {
    if "admins" in config then config["admins"] else ""
  }

  /** The sender is an administrator when one of the masks matches it. */
  predicate Authorized(admins: seq<string>, who: Identity)
  {
    exists i :: 0 <= i < |admins| && who.matches(admins[i])
  }

  /** A mask list written with one comma or one space between masks reads back as the same list. */
  lemma ParseAdminsRoundTrip(masks: seq<string>, sep: char)
    requires sep == ',' || sep == ' '
    requires forall i :: 0 <= i < |masks| ==> masks[i] != "" && masks[i] != "0"
    requires forall i :: 0 <= i < |masks| ==> ',' !in masks[i] && forall k :: 0 <= k < |masks[i]| ==> !IsBlank(masks[i][k])
    ensures ParseAdmins(Implode(masks, sep)) == masks
  {
    var s := Implode(masks, sep);
    ImplodeOnlySpaceBlank(masks, sep);
    TrimPieces(s);
    ReplaceImplode(masks, sep);
    if masks == [] {
      assert Explode(ReplaceChar(s, ',', ' ')) == [""];
      DropFalsyOne("");
    } else {
      forall i | 0 <= i < |masks| ensures ' ' !in masks[i] {
        NoBlankNoSpace(masks[i]);
      }
      ExplodeImplode(masks);
    }
  }

  lemma NoBlankNoSpace(w: string)
    requires forall k :: 0 <= k < |w| ==> !IsBlank(w[k])
    ensures ' ' !in w
  {
  }

  lemma {:induction false} ImplodeOnlySpaceBlank(ws: seq<string>, sep: char)
    requires sep == ',' || sep == ' '
    requires forall i :: 0 <= i < |ws| ==> forall k :: 0 <= k < |ws[i]| ==> !IsBlank(ws[i][k])
    ensures OnlySpaceBlank(Implode(ws, sep))
  {
    if |ws| == 1 {
      assert OnlySpaceBlank(ws[0]);
    } else if |ws| > 1 {
      ImplodeOnlySpaceBlank(ws[1..], sep);
      assert OnlySpaceBlank(ws[0]);
      OnlySpaceBlankAppend(ws[0], [sep]);
      OnlySpaceBlankAppend(ws[0] + [sep], Implode(ws[1..], sep));
    }
  }

  /**
    The text sep[0] + ms[0] + sep[1] + ... + ms[n-1] + sep[n]: the masks
    with a separator before, between and after them.
   */
  function Separated(ms: seq<string>, seps: seq<string>): string
    requires |seps| == |ms| + 1
  {
    if ms == [] then seps[0] else seps[0] + ms[0] + Separated(ms[1..], seps[1..])
  }

  predicate AllSpaces(s: string)
  {
    forall k :: 0 <= k < |s| ==> s[k] == ' '
  }

  predicate SpacesAndCommas(s: string)
  {
    forall i :: 0 <= i < |s| ==> s[i] == ' ' || s[i] == ','
  }

  /** What the administrators' setting may hold as masks: no blank, no comma, and not a piece array_filter drops. */
  predicate IsMask(m: string)
  {
    m != "" && m != "0" && ',' !in m && forall k :: 0 <= k < |m| ==> !IsBlank(m[k])
  }

  /**
    Masks separated by any runs of spaces and commas (at least one character
    between two masks, possibly none before the first or after the last)
    are read back as exactly those masks, in order, duplicates kept.
   */
  lemma ParseAdminsSeparated(ms: seq<string>, seps: seq<string>)
    requires |seps| == |ms| + 1
    requires forall i :: 0 <= i < |ms| ==> IsMask(ms[i])
    requires forall i :: 0 <= i < |seps| ==> SpacesAndCommas(seps[i])
    requires forall i :: 0 < i < |ms| ==> seps[i] != ""
    ensures ParseAdmins(Separated(ms, seps)) == ms
  {
    var s := Separated(ms, seps);
    SeparatedOnlySpaceBlank(ms, seps);
    TrimPieces(s);
    var spaced := seq(|seps|, i requires 0 <= i < |seps| => ReplaceChar(seps[i], ',', ' '));
    ReplaceSeparated(ms, seps, spaced);
    SpacedPieces(ms, spaced);
  }

  /** The only blank character of s, if any, is the space. */
  predicate OnlySpaceBlank(s: string)
  {
    forall k :: 0 <= k < |s| && IsBlank(s[k]) ==> s[k] == ' '
  }

  lemma OnlySpaceBlankAppend(a: string, b: string)
    requires OnlySpaceBlank(a) && OnlySpaceBlank(b)
    ensures OnlySpaceBlank(a + b)
  {
    forall k | 0 <= k < |a + b| && IsBlank((a + b)[k]) ensures (a + b)[k] == ' ' {
      if k >= |a| {
        assert (a + b)[k] == b[k - |a|];
      }
    }
  }

  lemma {:induction false} SeparatedOnlySpaceBlank(ms: seq<string>, seps: seq<string>)
    requires |seps| == |ms| + 1
    requires forall i :: 0 <= i < |ms| ==> IsMask(ms[i])
    requires forall i :: 0 <= i < |seps| ==> SpacesAndCommas(seps[i])
    ensures OnlySpaceBlank(Separated(ms, seps))
  {
    assert OnlySpaceBlank(seps[0]) by {
      assert SpacesAndCommas(seps[0]);
    }
    if ms != [] {
      assert OnlySpaceBlank(ms[0]) by {
        assert IsMask(ms[0]);
      }
      SeparatedOnlySpaceBlank(ms[1..], seps[1..]);
      OnlySpaceBlankAppend(seps[0], ms[0]);
      OnlySpaceBlankAppend(seps[0] + ms[0], Separated(ms[1..], seps[1..]));
    }
  }

  /** When the space is the only blank, trimming before the split removes only empty pieces. */
  lemma TrimPieces(s: string)
    requires OnlySpaceBlank(s)
    ensures DropFalsy(Explode(ReplaceChar(Trim(s), ',', ' '))) == DropFalsy(Explode(ReplaceChar(s, ',', ' ')))
  {
    var pre, post := TrimParts(s);
    var rt := ReplaceChar(Trim(s), ',', ' ');
    ReplaceAround(pre, Trim(s), post);
    SpacesThen(pre, rt + post);
    ThenSpaces(rt, post);
  }

  /** With the space as the only blank, trim cuts off runs of spaces. */
  lemma TrimParts(s: string) returns (pre: string, post: string)
    requires OnlySpaceBlank(s)
    ensures s == pre + Trim(s) + post && AllSpaces(pre) && AllSpaces(post)
  {
    var e := TrimEnd(s);
    post := s[|e|..];
    assert s == e + post;
    assert AllSpaces(post) by {
      forall k | 0 <= k < |post| ensures post[k] == ' ' {
        assert post[k] == s[|e| + k];
      }
    }
    var t := TrimStart(e);
    pre := e[..|e| - |t|];
    assert e == pre + t;
    assert AllSpaces(pre) by {
      forall k | 0 <= k < |pre| ensures pre[k] == ' ' {
        assert pre[k] == s[k];
      }
    }
  }

  /** Replacing commas leaves the runs of spaces around a text alone. */
  lemma ReplaceAround(pre: string, t: string, post: string)
    requires AllSpaces(pre) && AllSpaces(post)
    ensures ReplaceChar(pre + t + post, ',', ' ') == pre + (ReplaceChar(t, ',', ' ') + post)
  {
    ReplaceAppend(pre + t, post, ',', ' ');
    ReplaceAppend(pre, t, ',', ' ');
    SpacesKeep(pre);
    SpacesKeep(post);
  }

  /** A run of spaces holds no comma to replace. */
  lemma SpacesKeep(sp: string)
    requires AllSpaces(sp)
    ensures ReplaceChar(sp, ',', ' ') == sp
  {
    assert ',' !in sp by {
      forall k | 0 <= k < |sp| ensures sp[k] != ',' { }
    }
    ReplaceAbsent(sp, ',', ' ');
  }

  /** Turning commas into spaces in the separators only, since the masks have no comma. */
  lemma {:induction false} ReplaceSeparated(ms: seq<string>, seps: seq<string>, spaced: seq<string>)
    requires |seps| == |ms| + 1 && |spaced| == |seps|
    requires forall i :: 0 <= i < |ms| ==> IsMask(ms[i])
    requires forall i :: 0 <= i < |seps| ==> spaced[i] == ReplaceChar(seps[i], ',', ' ')
    ensures ReplaceChar(Separated(ms, seps), ',', ' ') == Separated(ms, spaced)
  {
    if ms != [] {
      ReplaceSeparated(ms[1..], seps[1..], spaced[1..]);
      var tail := Separated(ms[1..], seps[1..]);
      ReplaceAppend(seps[0] + ms[0], tail, ',', ' ');
      ReplaceAppend(seps[0], ms[0], ',', ' ');
      assert IsMask(ms[0]);
      ReplaceAbsent(ms[0], ',', ' ');
    }
  }

  /** Words separated by runs of spaces are read back as those words. */
  lemma {:induction false} SpacedPieces(ms: seq<string>, seps: seq<string>)
    requires |seps| == |ms| + 1
    requires forall i :: 0 <= i < |ms| ==> ms[i] != "" && ms[i] != "0" && ' ' !in ms[i]
    requires forall i :: 0 <= i < |seps| ==> AllSpaces(seps[i])
    requires forall i :: 0 < i < |ms| ==> seps[i] != ""
    ensures DropFalsy(Explode(Separated(ms, seps))) == ms
  {
    if ms == [] {
      SpacesThen(seps[0], "");
      assert seps[0] + "" == seps[0];
      DropFalsyOne("");
    } else {
      var tail := Separated(ms[1..], seps[1..]);
      assert Separated(ms, seps) == seps[0] + (ms[0] + tail);
      SpacesThen(seps[0], ms[0] + tail);
      MaskPiece(ms[0]);
      if |ms| == 1 {
        ThenSpaces(ms[0], seps[1]);
      } else {
        SpacedPieces(ms[1..], seps[1..]);
        SeparatedStartsWithSpace(ms[1..], seps[1..]);
        PieceThenSpace(ms[0], tail);
        assert [ms[0]] + ms[1..] == ms;
      }
    }
  }

  /** A text whose leading separator is not empty starts with a space. */
  lemma SeparatedStartsWithSpace(ms: seq<string>, seps: seq<string>)
    requires |seps| == |ms| + 1
    requires AllSpaces(seps[0]) && seps[0] != ""
    ensures |Separated(ms, seps)| >= 1 && Separated(ms, seps)[0] == ' '
  {
  }

  /** A space at the front of b separates a from b. */
  lemma PieceThenSpace(a: string, b: string)
    requires |b| >= 1 && b[0] == ' '
    ensures DropFalsy(Explode(a + b)) == DropFalsy(Explode(a)) + DropFalsy(Explode(b))
  {
    var rest := b[1..];
    assert a + b == a + " " + rest;
    assert b == " " + rest;
    ExplodeAppend(a, rest);
    DropFalsyAppend(Explode(a), Explode(rest));
    SpacesThen(" ", rest);
  }

  /** A word that array_filter keeps and that has no space is one kept piece. */
  lemma MaskPiece(m: string)
    requires m != "" && m != "0" && ' ' !in m
    ensures DropFalsy(Explode(m)) == [m]
  {
    ExplodeWord(m);
    DropFalsyOne(m);
  }

  /** Leading spaces only add empty pieces, which array_filter drops. */
  lemma {:induction false} SpacesThen(sp: string, b: string)
    requires AllSpaces(sp)
    ensures DropFalsy(Explode(sp + b)) == DropFalsy(Explode(b))
  {
    if sp == [] {
      assert sp + b == b;
    } else {
      var rest := sp[1..];
      assert sp + b == "" + " " + (rest + b);
      ExplodeAppend("", rest + b);
      DropFalsyAppend([""], Explode(rest + b));
      DropFalsyOne("");
      SpacesThen(rest, b);
    }
  }

  /** Trailing spaces only add empty pieces, which array_filter drops. */
  lemma ThenSpaces(a: string, sp: string)
    requires AllSpaces(sp)
    ensures DropFalsy(Explode(a + sp)) == DropFalsy(Explode(a))
  {
    if sp == [] {
      assert a + sp == a;
    } else {
      var rest := sp[1..];
      assert a + sp == a + " " + rest;
      ExplodeAppend(a, rest);
      DropFalsyAppend(Explode(a), Explode(rest));
      ExplodeSpaces(rest);
      DropFalsyOfEmpties(Explode(rest));
    }
  }

  /** A setting made of spaces and commas only grants nobody access. */
  lemma BlankSettingDeniesAll(raw: string, who: Identity)
    requires forall i :: 0 <= i < |raw| ==> raw[i] == ' ' || raw[i] == ','
    ensures ParseAdmins(raw) == []
    ensures !Authorized(ParseAdmins(raw), who)
  {
    assert SpacesAndCommas(raw);
    TrimKeepsSpacesAndCommas(raw);
    var spaced := ReplaceChar(Trim(raw), ',', ' ');
    ExplodeSpaces(spaced);
    DropFalsyOfEmpties(Explode(spaced));
  }

  /** Trimming a string of spaces and commas leaves spaces and commas. */
  lemma TrimKeepsSpacesAndCommas(s: string)
    requires SpacesAndCommas(s)
    ensures SpacesAndCommas(Trim(s))
  {
    var e := TrimEnd(s);
    assert SpacesAndCommas(e) by {
      forall i | 0 <= i < |e| ensures e[i] == ' ' || e[i] == ',' {
        assert e[i] == s[i];
      }
    }
    var t := TrimStart(e);
    forall i | 0 <= i < |t| ensures t[i] == ' ' || t[i] == ',' {
      assert t[i] == e[|e| - |t| + i];
    }
  }

  /** array_filter drops a list of empty strings entirely. */
  lemma {:induction false} DropFalsyOfEmpties(ws: seq<string>)
    requires forall i :: 0 <= i < |ws| ==> ws[i] == ""
    ensures DropFalsy(ws) == []
  {
    if ws != [] {
      DropFalsyOfEmpties(ws[1..]);
    }
  }

  /** Turning commas into spaces turns a comma-joined list into a space-joined one. */
  lemma {:induction false} ReplaceImplode(ws: seq<string>, sep: char)
    requires sep == ',' || sep == ' '
    requires forall i :: 0 <= i < |ws| ==> ',' !in ws[i]
    ensures ReplaceChar(Implode(ws, sep), ',', ' ') == Implode(ws, ' ')
  {
    if |ws| == 1 {
      assert ReplaceChar(ws[0], ',', ' ') == ws[0];
    } else if |ws| > 1 {
      ReplaceImplode(ws[1..], sep);
      var tail := Implode(ws[1..], sep);
      assert Implode(ws, sep) == ws[0] + [sep] + tail;
      assert ReplaceChar(ws[0] + [sep] + tail, ',', ' ') == ws[0] + [' '] + ReplaceChar(tail, ',', ' ');
    }
  }
}
