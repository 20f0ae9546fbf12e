/**
 * The handful of Python string and file-text operations that the baseline
 * file format relies on: `str.endswith`, `str.strip`, `str.split`, and the
 * way a text-mode file is cut into lines by `readlines()`.
 */
module Text {

  /** Python's `s.endswith(suffix)`. */
  predicate EndsWith(s: string, suffix: string) {
    |suffix| <= |s| && s[|s| - |suffix|..] == suffix
  }

  /** Python's `str.isspace()` for one character: the characters `strip()` removes. */
  predicate IsSpace(c: char) {
    || c == ' '
    || ('\t' <= c <= '\r')
    || ('\U{1C}' <= c <= '\U{1F}')
    || c == '\U{85}' || c == '\U{A0}' || c == '\U{1680}'
    || ('\U{2000}' <= c <= '\U{200A}')
    || c == '\U{2028}' || c == '\U{2029}' || c == '\U{202F}' || c == '\U{205F}' || c == '\U{3000}'
  }

  /** Python's `s.lstrip()`. */
  function TrimLeft(s: string): string {
    if s != [] && IsSpace(s[0]) then TrimLeft(s[1..]) else s
  }

  /** Python's `s.rstrip()`. */
  function TrimRight(s: string): string {
    if s != [] && IsSpace(s[|s| - 1]) then TrimRight(s[..|s| - 1]) else s
  }

  /** Python's `s.strip()`. */
  function Strip(s: string): string {
    TrimRight(TrimLeft(s))
  }

  /** `lstrip()` yields the longest suffix that does not start with whitespace:
    * everything it drops is whitespace. */
  lemma TrimLeftShape(s: string)
    ensures var r := TrimLeft(s);
      && |r| <= |s| && r == s[|s| - |r|..]
      && (forall i :: 0 <= i < |s| - |r| ==> IsSpace(s[i]))
      && (r == [] || !IsSpace(r[0]))
  {
    TrimLeftSuffix(s);
    TrimLeftDropsSpaces(s);
    TrimLeftStartsSolid(s);
  }

  lemma {:induction false} TrimLeftSuffix(s: string)
    ensures |TrimLeft(s)| <= |s| && TrimLeft(s) == s[|s| - |TrimLeft(s)|..]
  {
    if s != [] && IsSpace(s[0]) {
      TrimLeftSuffix(s[1..]);
      var t, r := s[1..], TrimLeft(s[1..]);
      assert t[|t| - |r|..] == s[|s| - |r|..];
    }
  }

  lemma {:induction false} TrimLeftDropsSpaces(s: string)
    ensures forall i :: 0 <= i < |s| - |TrimLeft(s)| ==> IsSpace(s[i])
  {
    if s != [] && IsSpace(s[0]) {
      var t := s[1..];
      TrimLeftDropsSpaces(t);
      forall i | 1 <= i < |s| - |TrimLeft(s)| ensures IsSpace(s[i]) {
        assert s[i] == t[i - 1];
      }
    }
  }

  lemma {:induction false} TrimLeftStartsSolid(s: string)
    ensures TrimLeft(s) == [] || !IsSpace(TrimLeft(s)[0])
  {
    if s != [] && IsSpace(s[0]) {
      TrimLeftStartsSolid(s[1..]);
    }
  }

  /** `rstrip()` yields the longest prefix that does not end with whitespace:
    * everything it drops is whitespace. */
  lemma {:induction false} TrimRightShape(s: string)
    ensures var r := TrimRight(s);
      && |r| <= |s| && r == s[..|r|]
      && (forall i :: |r| <= i < |s| ==> IsSpace(s[i]))
      && (r == [] || !IsSpace(r[|r| - 1]))
  {
    if s != [] && IsSpace(s[|s| - 1]) {
      var t := s[..|s| - 1];
      var r := TrimRight(t);
      TrimRightShape(t);
      assert TrimRight(s) == r;
      assert t[..|r|] == s[..|r|];
      forall i | |r| <= i < |s| ensures IsSpace(s[i]) {
        if i < |t| {
          assert s[i] == t[i];
        }
      }
    }
  }

  /** A string that starts and ends with a non-space character is left alone by
    * `strip()` even when whitespace is appended to it. */
  lemma StripFramed(s: string, tail: string)
    requires s != [] && !IsSpace(s[0]) && !IsSpace(s[|s| - 1])
    requires forall i :: 0 <= i < |tail| ==> IsSpace(tail[i])
    ensures Strip(s + tail) == s
  {
    var l := TrimLeft(s + tail);
    TrimLeftShape(s + tail);
    assert l == s + tail;
    var r := TrimRight(l);
    TrimRightShape(l);
    assert !IsSpace(l[|s| - 1]);
    assert forall i :: |s| <= i < |l| ==> IsSpace(l[i]);
  }

  /** The inverse of `Split`: Python's `sep.join(fields)`. */
  function Join(fields: seq<string>, sep: char): string {
    if fields == [] then []
    else if |fields| == 1 then fields[0]
    else fields[0] + [sep] + Join(fields[1..], sep)
  }

  /** Python's `s.split(sep)` for a one-character separator: the fields between
    * the separators, at least one, none of them containing `sep`; joining them
    * again gives back `s`, and there is more than one exactly when `s` holds `sep`. */
  function Split(s: string, sep: char): (r: seq<string>)
    ensures |r| >= 1
    ensures Join(r, sep) == s
    ensures forall i :: 0 <= i < |r| ==> sep !in r[i]
    ensures (|r| == 1) == (sep !in s)
  {
    if s == [] then [[]]
    else
      var rest := Split(s[1..], sep);
      SplitOneMore(s, sep);
      if s[0] == sep then
        JoinCons([], rest, sep);
        [[]] + rest
      else
        JoinWiden(s[0], rest, sep);
        [[s[0]] + rest[0]] + rest[1..]
  }

  /** `s` holds `sep` exactly when its head is `sep` or its tail holds it. */
  lemma SplitOneMore(s: string, sep: char)
    requires s != []
    ensures sep in s <==> s[0] == sep || sep in s[1..]
  {
    assert s == [s[0]] + s[1..];
  }

  /** Joining a field in front of more fields. */
  lemma JoinCons(f: string, fields: seq<string>, sep: char)
    requires fields != []
    ensures Join([f] + fields, sep) == f + [sep] + Join(fields, sep)
  {
    assert ([f] + fields)[1..] == fields;
  }

  /** Putting a character in front of the first field puts it in front of the join. */
  lemma JoinWiden(c: char, fields: seq<string>, sep: char)
    requires fields != []
    ensures Join([[c] + fields[0]] + fields[1..], sep) == [c] + Join(fields, sep)
  {
    var g := [[c] + fields[0]] + fields[1..];
    if |fields| > 1 {
      assert g[1..] == fields[1..];
      assert Join(g, sep) == ([c] + fields[0]) + [sep] + Join(fields[1..], sep);
      assert Join(fields, sep) == fields[0] + [sep] + Join(fields[1..], sep);
    }
  }

  /** A field free of the separator ends at the first separator. */
  lemma {:induction false} SplitAfterField(a: string, b: string, sep: char)
    requires sep !in a
    ensures Split(a + [sep] + b, sep) == [a] + Split(b, sep)
  {
    var s := a + [sep] + b;
    if a == [] {
      assert s == [sep] + b;
      assert s[1..] == b;
    } else {
      assert s[0] == a[0];
      assert s[1..] == a[1..] + [sep] + b;
      SplitAfterField(a[1..], b, sep);
      var rest := Split(s[1..], sep);
      assert rest[0] == a[1..] && rest[1..] == Split(b, sep);
      assert [a[0]] + a[1..] == a;
    }
  }

  /** `split` on a string without the separator yields that string alone. */
  lemma SplitWhole(s: string, sep: char)
    requires sep !in s
    ensures Split(s, sep) == [s]
  {
  }

  /** Two separator-free fields joined by one separator split back into those two fields. */
  lemma SplitPair(a: string, b: string, sep: char)
    requires sep !in a && sep !in b
    ensures Split(a + [sep] + b, sep) == [a, b]
  {
    SplitAfterField(a, b, sep);
    SplitWhole(b, sep);
  }

  /** The concatenation of a sequence of strings. */
  function Concat(parts: seq<string>): string {
    if parts == [] then [] else parts[0] + Concat(parts[1..])
  }

  lemma {:induction false} ConcatAppend(a: seq<string>, b: seq<string>)
    ensures Concat(a + b) == Concat(a) + Concat(b)
  {
    if a == [] {
      assert a + b == b;
    } else {
      assert (a + b)[1..] == a[1..] + b;
      ConcatAppend(a[1..], b);
    }
  }

  /** The length of the first line of `s`: up to and including its first `\n`,
    * or all of `s` when it has none. */
  function LineLength(s: string): (k: nat)
    requires s != []
    ensures 1 <= k <= |s|
    ensures '\n' !in s[..k - 1]
    ensures k < |s| ==> s[k - 1] == '\n'
  {
    if s[0] == '\n' || |s| == 1 then 1
    else
      var k := 1 + LineLength(s[1..]);
      assert s[..k - 1] == [s[0]] + s[1..][..k - 2];
      k
  }

  /**
   * What `readlines()` does to the text it reads (after newline translation):
   * cut it after every `\n`. The lines concatenate back to the text.
   */
  function SplitLines(s: string): (r: seq<string>)
    ensures Concat(r) == s
    decreases |s|
  {
    if s == [] then []
    else
      var k := LineLength(s);
      assert s[..k] + s[k..] == s;
      [s[..k]] + SplitLines(s[k..])
  }

  /** Each line `readlines()` returns is non-empty, every line but possibly the
    * last ends with `\n`, and no line holds a `\n` anywhere else. */
  lemma SplitLinesShape(s: string)
    ensures forall i :: 0 <= i < |SplitLines(s)| ==> SplitLines(s)[i] != []
    ensures forall i :: 0 <= i < |SplitLines(s)| - 1 ==> SplitLines(s)[i][|SplitLines(s)[i]| - 1] == '\n'
    ensures forall i :: 0 <= i < |SplitLines(s)| ==> '\n' !in SplitLines(s)[i][..|SplitLines(s)[i]| - 1]
  {
    forall i | 0 <= i < |SplitLines(s)|
      ensures SplitLines(s)[i] != []
      ensures i < |SplitLines(s)| - 1 ==> SplitLines(s)[i][|SplitLines(s)[i]| - 1] == '\n'
      ensures '\n' !in SplitLines(s)[i][..|SplitLines(s)[i]| - 1]
    {
      SplitLineAt(s, i);
    }
  }

  /** The shape of line `i` of the text. */
  lemma {:induction false} SplitLineAt(s: string, i: nat)
    requires i < |SplitLines(s)|
    ensures var line := SplitLines(s)[i];
      && line != []
      && (i < |SplitLines(s)| - 1 ==> line[|line| - 1] == '\n')
      && '\n' !in line[..|line| - 1]
    decreases |s|
  {
    if i == 0 {
      FirstLine(s);
    } else {
      var t := s[LineLength(s)..];
      LaterLine(s, i);
      SplitLineAt(t, i - 1);
      assert SplitLines(s)[i] == SplitLines(t)[i - 1];
      assert |SplitLines(s)| - 1 == |SplitLines(t)|;
    }
  }

  /** Line `i > 0` of the text is line `i - 1` of what follows the first line. */
  lemma LaterLine(s: string, i: nat)
    requires 0 < i < |SplitLines(s)|
    ensures var rest := SplitLines(s[LineLength(s)..]);
      && |SplitLines(s)| == |rest| + 1 && SplitLines(s)[i] == rest[i - 1]
  {
    SplitLinesCons(s);
  }

  /** The first line is the text up to and including its first `\n`. */
  lemma FirstLine(s: string)
    requires s != []
    ensures var lines, line := SplitLines(s), SplitLines(s)[0];
      && line != []
      && (|lines| > 1 ==> line[|line| - 1] == '\n')
      && '\n' !in line[..|line| - 1]
  {
    var k := LineLength(s);
    var line := s[..k];
    SplitLinesCons(s);
    assert line[..k - 1] == s[..k - 1];
    if k == |s| {
      assert s[k..] == [];
    } else {
      assert line[k - 1] == s[k - 1];
    }
  }

  lemma SplitLinesCons(s: string)
    requires s != []
    ensures SplitLines(s) == [s[..LineLength(s)]] + SplitLines(s[LineLength(s)..])
  {
  }

  /** The first line ends at the first `\n`, however the text goes on after it. */
  lemma {:induction false} LineLengthAppend(a: string, b: string)
    requires a != [] && a[|a| - 1] == '\n'
    ensures LineLength(a + b) == LineLength(a)
  {
    if a[0] != '\n' {
      assert (a + b)[1..] == a[1..] + b;
      LineLengthAppend(a[1..], b);
    }
  }

  /** A text cut after a line break splits into the lines of each part. */
  lemma {:induction false} SplitLinesAppend(a: string, b: string)
    requires a == [] || a[|a| - 1] == '\n'
    ensures SplitLines(a + b) == SplitLines(a) + SplitLines(b)
    decreases |a|
  {
    if a == [] {
      assert a + b == b;
    } else {
      var k := LineLength(a);
      var ab, rest := a + b, a[k..];
      LineLengthAppend(a, b);
      assert ab[..k] == a[..k];
      assert ab[k..] == rest + b;
      SplitLinesAppend(rest, b);
      SplitLinesCons(ab);
      SplitLinesCons(a);
      ConsAssoc(a[..k], SplitLines(rest), SplitLines(b));
    }
  }

  lemma ConsAssoc<T>(x: T, p: seq<T>, q: seq<T>)
    ensures [x] + (p + q) == ([x] + p) + q
  {
  }

  /** A single line ending in its only `\n` is read back as that one line. */
  lemma SplitOneLine(line: string)
    requires line != [] && line[|line| - 1] == '\n'
    requires '\n' !in line[..|line| - 1]
    ensures SplitLines(line) == [line]
  {
    var k := LineLength(line);
    assert k == |line|;
    assert line[..k] == line && line[k..] == [];
    assert SplitLines(line) == [line[..k]] + SplitLines(line[k..]);
  }

  /** Text made of complete lines is read back as exactly those lines. */
  lemma {:induction false} SplitLinesConcat(lines: seq<string>)
    requires forall i :: 0 <= i < |lines| ==> lines[i] != [] && lines[i][|lines[i]| - 1] == '\n'
    requires forall i :: 0 <= i < |lines| ==> '\n' !in lines[i][..|lines[i]| - 1]
    ensures SplitLines(Concat(lines)) == lines
  {
    if lines != [] {
      SplitLinesConcat(lines[1..]);
      SplitLinesAppend(lines[0], Concat(lines[1..]));
      SplitOneLine(lines[0]);
    }
  }

  /** A character that no part holds is not in their concatenation. */
  lemma {:induction false} ConcatLacks(parts: seq<string>, c: char)
    requires forall i :: 0 <= i < |parts| ==> c !in parts[i]
    ensures c !in Concat(parts)
  {
    if parts != [] {
      ConcatLacks(parts[1..], c);
    }
  }

  /**
   * Universal-newline translation, which Python applies to a file opened for
   * reading in text mode: `\r\n` and a lone `\r` both become `\n`. The result
   * holds no `\r`, and text without `\r` passes through unchanged.
   */
  function UniversalNewlines(s: string): (r: string)
    ensures '\r' !in r
    ensures '\r' !in s ==> r == s
  {
    if s == [] then []
    else if s[0] == '\r' then
      ['\n'] + UniversalNewlines(if |s| > 1 && s[1] == '\n' then s[2..] else s[1..])
    else
      [s[0]] + UniversalNewlines(s[1..])
  }

  /** `open(name, 'r').readlines()` on a file whose content is `text`. */
  function ReadLines(text: string): seq<string> {
    SplitLines(UniversalNewlines(text))
  }
}
