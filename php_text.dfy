/**
  The PHP string built-ins the admin module relies on (explode, implode,
  trim, rtrim, str_replace, array_filter), and the word access of the
  module's text wrapper: the text is cut at every single space; getTokens
  slices those words and re-joins them with single spaces; text[i] is the
  i-th word and count(text) the number of words.
 */
module PhpText {

  /** The characters PHP's trim() and rtrim() strip by default. */
  predicate IsBlank(c: char) {
    c == ' ' || c == '\t' || c == '\n' || c == '\r' || c == '\0' || c == '\U{000B}'
  }

  /** explode(' ', s): the pieces of s between single spaces, in order. */
  function Explode(s: string): (r: seq<string>)
    ensures |r| >= 1
    ensures forall i :: 0 <= i < |r| ==> ' ' !in r[i]
  {
    if s == [] then [""]
    else
      var rest := Explode(s[1..]);
      if s[0] == ' ' then [""] + rest
      else [[s[0]] + rest[0]] + rest[1..]
  }

  /** implode(sep, ws): the words with one separator between neighbours. */
  function Implode(ws: seq<string>, sep: char): string
  {
    if |ws| == 0 then ""
    else if |ws| == 1 then ws[0]
    else ws[0] + [sep] + Implode(ws[1..], sep)
  }

  /** A space separates the pieces on its two sides. */
  lemma {:induction false} ExplodeAppend(a: string, b: string)
    ensures Explode(a + " " + b) == Explode(a) + Explode(b)
  {
    if a == [] {
      assert a + " " + b == [' '] + b;
      assert (a + " " + b)[1..] == b;
    } else {
      assert (a + " " + b)[0] == a[0];
      assert (a + " " + b)[1..] == a[1..] + " " + b;
      ExplodeAppend(a[1..], b);
    }
  }

  /** A word without spaces is one piece. */
  lemma {:induction false} ExplodeWord(w: string)
    requires ' ' !in w
    ensures Explode(w) == [w]
  {
    if w != [] {
      assert ' ' !in w[1..] by {
        forall i | 0 <= i < |w[1..]| ensures w[1..][i] != ' ' { assert w[1..][i] == w[i + 1]; }
      }
      ExplodeWord(w[1..]);
      assert [w[0]] + w[1..] == w;
    }
  }

  /** implode(' ', explode(' ', s)) == s: splitting loses nothing. */
  lemma {:induction false} ImplodeExplode(s: string)
    ensures Implode(Explode(s), ' ') == s
  {
    if s != [] {
      var rest := Explode(s[1..]);
      ImplodeExplode(s[1..]);
      if s[0] == ' ' {
        assert ([""] + rest)[1..] == rest;
        assert [s[0]] + s[1..] == s;
      } else if |rest| == 1 {
        assert [s[0]] + s[1..] == s;
      } else {
        var r := [[s[0]] + rest[0]] + rest[1..];
        assert r[1..] == rest[1..];
        assert Implode(rest, ' ') == rest[0] + [' '] + Implode(rest[1..], ' ');
        assert [s[0]] + s[1..] == s;
      }
    }
  }

  /** explode(' ', implode(' ', ws)) == ws for words without spaces. */
  lemma {:induction false} ExplodeImplode(ws: seq<string>)
    requires |ws| >= 1
    requires forall i :: 0 <= i < |ws| ==> ' ' !in ws[i]
    ensures Explode(Implode(ws, ' ')) == ws
  {
    ExplodeWord(ws[0]);
    if |ws| > 1 {
      ExplodeImplode(ws[1..]);
      ExplodeAppend(ws[0], Implode(ws[1..], ' '));
      assert [ws[0]] + ws[1..] == ws;
    }
  }

  /** A string made only of spaces splits into empty pieces. */
  lemma {:induction false} ExplodeSpaces(s: string)
    requires forall i :: 0 <= i < |s| ==> s[i] == ' '
    ensures forall i :: 0 <= i < |Explode(s)| ==> Explode(s)[i] == ""
  {
    if s != [] {
      ExplodeSpaces(s[1..]);
    }
  }

  /** A character absent from s is absent from each of its pieces. */
  lemma {:induction false} ExplodeAvoids(s: string, c: char)
    requires c !in s
    ensures forall i :: 0 <= i < |Explode(s)| ==> c !in Explode(s)[i]
  {
    if s != [] {
      assert c !in s[1..];
      ExplodeAvoids(s[1..], c);
    }
  }

  /** rtrim(s): s without its trailing blanks. */
  function TrimEnd(s: string): (r: string)
    ensures r <= s
    ensures r == [] || !IsBlank(r[|r| - 1])
    ensures forall i :: |r| <= i < |s| ==> IsBlank(s[i])
  {
    if s != [] && IsBlank(s[|s| - 1]) then TrimEnd(s[..|s| - 1]) else s
  }

  /** ltrim(s): s without its leading blanks. */
  function TrimStart(s: string): (r: string)
    ensures |r| <= |s| && r == s[|s| - |r|..]
    ensures r == [] || !IsBlank(r[0])
    ensures forall i :: 0 <= i < |s| - |r| ==> IsBlank(s[i])
  {
    if s != [] && IsBlank(s[0]) then TrimStart(s[1..]) else s
  }

  /** trim(s): s without blanks at either end. */
  function Trim(s: string): string
  {
    TrimStart(TrimEnd(s))
  }

  /** rtrim(s) is empty exactly when s is made only of blanks. */
  lemma TrimEndEmpty(s: string)
    ensures TrimEnd(s) == "" <==> forall i :: 0 <= i < |s| ==> IsBlank(s[i])
  {
    var r := TrimEnd(s);
    if r != "" {
      assert s[|r| - 1] == r[|r| - 1];
    }
  }

  /**
    str_replace(from, to, s) for single characters, one character at a
    time: every occurrence of from becomes to, and nothing else changes.
   */
  function ReplaceChar(s: string, from: char, to: char): (r: string)
    ensures |r| == |s|
    ensures forall i :: 0 <= i < |s| ==> r[i] == if s[i] == from then to else s[i]
  {
    if s == [] then []
    else [if s[0] == from then to else s[0]] + ReplaceChar(s[1..], from, to)
  }

  /** Replacing in two halves is replacing in the whole. */
  lemma ReplaceAppend(a: string, b: string, from: char, to: char)
    ensures ReplaceChar(a + b, from, to) == ReplaceChar(a, from, to) + ReplaceChar(b, from, to)
  {
    var l := ReplaceChar(a + b, from, to);
    var r := ReplaceChar(a, from, to) + ReplaceChar(b, from, to);
    forall i | 0 <= i < |l| ensures l[i] == r[i] {
      if i >= |a| {
        assert (a + b)[i] == b[i - |a|];
      }
    }
  }

  /** A string without the character is left unchanged. */
  lemma ReplaceAbsent(s: string, from: char, to: char)
    requires from !in s
    ensures ReplaceChar(s, from, to) == s
  {
    var r := ReplaceChar(s, from, to);
    forall i | 0 <= i < |s| ensures r[i] == s[i] {
      assert s[i] in s;
    }
  }

  /** array_filter(ws): drops the words PHP reads as false, "" and "0". */
  function DropFalsy(ws: seq<string>): (r: seq<string>)
    ensures |r| <= |ws|
    ensures forall i :: 0 <= i < |r| ==> r[i] in ws && r[i] != "" && r[i] != "0"
    ensures (forall i :: 0 <= i < |ws| ==> ws[i] != "" && ws[i] != "0") ==> r == ws
  {
    if ws == [] then []
    else if ws[0] == "" || ws[0] == "0" then DropFalsy(ws[1..])
    else [ws[0]] + DropFalsy(ws[1..])
  }

  /** array_filter keeps or drops each element on its own: filtering a concatenation filters each part. */
  lemma {:induction false} DropFalsyAppend(a: seq<string>, b: seq<string>)
    ensures DropFalsy(a + b) == DropFalsy(a) + DropFalsy(b)
  {
    if a == [] {
      assert a + b == b;
    } else {
      var rest := a[1..];
      var head := if a[0] == "" || a[0] == "0" then [] else [a[0]];
      calc {
        DropFalsy(a + b);
        { assert (a + b)[0] == a[0] && (a + b)[1..] == rest + b; }
        head + DropFalsy(rest + b);
        { DropFalsyAppend(rest, b); }
        head + (DropFalsy(rest) + DropFalsy(b));
        (head + DropFalsy(rest)) + DropFalsy(b);
        DropFalsy(a) + DropFalsy(b);
      }
    }
  }

  /** array_filter on one element: "" and "0" are dropped, any other string is kept. */
  lemma DropFalsyOne(w: string)
    ensures DropFalsy([w]) == if w == "" || w == "0" then [] else [w]
  {
    assert [w][1..] == [];
  }

  /** getTokens(start): the words from index start on, re-joined with single spaces. */
  function TokensFrom(words: seq<string>, start: nat): string
  {
    if start >= |words| then "" else Implode(words[start..], ' ')
  }

  /** getTokens(start, len) for len > 0: at most len words from index start on. */
  function TokenRange(words: seq<string>, start: nat, len: nat): string
  {
    var lo := if start <= |words| then start else |words|;
    var hi := if start + len <= |words| then start + len else |words|;
    Implode(words[lo..hi], ' ')
  }

  /** substr(s, 0, 1): the first character of s, or "" for the empty string. */
  function FirstChar(s: string): (r: string)
    ensures |r| == if s == [] then 0 else 1
    ensures r <= s
  {
    if s == [] then "" else s[..1]
  }
}
