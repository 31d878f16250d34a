/** The string operations of the Java and Python standard libraries that the
    services rely on, over `seq<char>`. Case folding is ASCII-only. */
module Strings {
  import opened Common

  /** Whitespace in the sense of Java's regex class `\s`, which `split("\\s+")`
      splits on. */
  predicate IsSpace(c: char) {
    c == ' ' || c == '\t' || c == '\n' || c == '\r' || c == '\U{000B}' || c == '\U{000C}'
  }

  /** Java's `Character.isWhitespace` (Unicode 13, as in Java 17): the space,
      line and paragraph separators other than the non-breaking ones
      (U+00A0, U+2007, U+202F), and the controls U+0009-U+000D and
      U+001C-U+001F. No character outside the Basic Multilingual Plane is
      whitespace. */
  predicate IsWhitespace(c: char) {
    || '\U{0009}' <= c <= '\U{000D}'
    || '\U{001C}' <= c <= '\U{0020}'
    || c == '\U{1680}'
    || '\U{2000}' <= c <= '\U{2006}'
    || '\U{2008}' <= c <= '\U{200A}'
    || c == '\U{2028}' || c == '\U{2029}' || c == '\U{205F}' || c == '\U{3000}'
  }

  /** The characters `String.trim` strips: every code point up to U+0020. */
  predicate IsTrimmed(c: char) {
    c <= ' '
  }

  /** Every `\s` character is whitespace and is stripped by `trim`. */
  lemma SpaceIsWhitespace(c: char)
    requires IsSpace(c)
    ensures IsWhitespace(c) && IsTrimmed(c)
  {
  }

  /** Spring `StringUtils.hasText`: the string has a character that is not
      `Character.isWhitespace`. */
  predicate HasText(s: string) {
    exists i :: 0 <= i < |s| && !IsWhitespace(s[i])
  }

  /** `hasText` of a possibly-null string; null has no text. */
  predicate HasTextOpt(s: Option<string>) {
    s.Some? && HasText(s.value)
  }

  /** The first index from `i` on that `trim` keeps, or `|s|`: the loop
      `while (st < len && val[st] <= ' ') st++`. */
  function TrimFrom(s: string, i: nat): (k: nat)
    requires i <= |s|
    ensures i <= k <= |s|
    ensures forall j :: i <= j < k ==> IsTrimmed(s[j])
    ensures k < |s| ==> !IsTrimmed(s[k])
    decreases |s| - i
  {
    if i < |s| && IsTrimmed(s[i]) then TrimFrom(s, i + 1) else i
  }

  /** The end left after cutting from `e` down to `st`: the loop
      `while (st < len && val[len - 1] <= ' ') len--`. */
  function TrimTo(s: string, st: nat, e: nat): (k: nat)
    requires st <= e <= |s|
    ensures st <= k <= e
    ensures forall j :: k <= j < e ==> IsTrimmed(s[j])
    ensures k > st ==> !IsTrimmed(s[k - 1])
    decreases e
  {
    if st < e && IsTrimmed(s[e - 1]) then TrimTo(s, st, e - 1) else e
  }

  /** `r` is the infix of `s` at `k`, and every character cut off on either
      side is one that `trim` strips. */
  predicate TrimCut(s: string, r: string, k: int) {
    && 0 <= k <= |s| - |r| && r == s[k..k + |r|]
    && (forall i :: 0 <= i < k ==> IsTrimmed(s[i]))
    && (forall i :: k + |r| <= i < |s| ==> IsTrimmed(s[i]))
  }

  /** Java `String.trim`: the infix left after cutting characters up to U+0020
      from both ends, and it neither starts nor ends with one. */
  function Trim(s: string): (r: string)
    ensures r == [] || (!IsTrimmed(r[0]) && !IsTrimmed(r[|r| - 1]))
    ensures exists k :: TrimCut(s, r, k)
    ensures r == [] <==> forall i :: 0 <= i < |s| ==> IsTrimmed(s[i])
  {
    var st := TrimFrom(s, 0);
    var len := TrimTo(s, st, |s|);
    assert TrimCut(s, s[st..len], st);
    assert st < len ==> s[st..len][0] == s[st] && s[st..len][len - st - 1] == s[len - 1];
    s[st..len]
  }

  /** The three notions of blank differ: U+3000 is whitespace yet survives
      `trim` and is no `\s`; U+0001 is stripped by `trim` yet counts as text. */
  lemma BlanksDiffer()
    ensures !HasText("\U{3000}") && Trim("\U{3000}") == "\U{3000}" && Tokens("\U{3000}") == ["\U{3000}"]
    ensures HasText("\U{0001}x") && Trim("\U{0001}x") == "x"
  {
    var w := "\U{3000}";
    assert TrimFrom(w, 0) == 0 && TrimTo(w, 0, 1) == 1;
    assert RunLength(w[1..]) == 0;
    assert RunLength(w) == 1;
    assert Tokens(w[1..]) == [];
    var t := "\U{0001}x";
    assert !IsWhitespace(t[0]);
    assert t[1..] == "x";
    assert TrimFrom(t, 0) == 1 && TrimTo(t, 1, 2) == 2;
  }

  function LowerChar(c: char): (d: char)
    ensures 'A' <= c <= 'Z' ==> 'a' <= d <= 'z'
    ensures !('A' <= c <= 'Z') ==> d == c
  {
    if 'A' <= c <= 'Z' then (c as int + 32) as char else c
  }

  /** `toLowerCase()` / `lower()` restricted to ASCII letters. */
  function Lower(s: string): (r: string)
    ensures |r| == |s|
    ensures forall i :: 0 <= i < |s| ==> r[i] == LowerChar(s[i])
  {
    seq(|s|, i requires 0 <= i < |s| => LowerChar(s[i]))
  }

  /** Java `equalsIgnoreCase` (ASCII). */
  predicate EqualsIgnoreCase(a: string, b: string) {
    Lower(a) == Lower(b)
  }

  predicate StartsWith(s: string, prefix: string) {
    |prefix| <= |s| && s[..|prefix|] == prefix
  }

  predicate EndsWith(s: string, suffix: string) {
    |suffix| <= |s| && s[|s| - |suffix|..] == suffix
  }

  /** `part` occurs in `s` starting at index `i`. */
  predicate OccursAt(s: string, part: string, i: int) {
    0 <= i && i + |part| <= |s| && s[i..i + |part|] == part
  }

  /** `part` occurs in `s` as a contiguous substring. */
  predicate Contains(s: string, part: string) {
    exists i | 0 <= i <= |s| - |part| :: OccursAt(s, part, i)
  }

  /** Java `lastIndexOf(char)`: -1 when absent. */
  function LastIndexOf(s: string, c: char): (r: int)
    ensures -1 <= r < |s|
    ensures r == -1 <==> c !in s
    ensures r >= 0 ==> s[r] == c && c !in s[r + 1..]
  {
    if |s| == 0 then -1
    else if s[|s| - 1] == c then |s| - 1
    else
      var init := s[..|s| - 1];
      var r := LastIndexOf(init, c);
      assert s == init + [s[|s| - 1]];
      assert c in s <==> c in init;
      assert r >= 0 ==> s[r] == init[r] && s[r + 1..] == init[r + 1..] + [s[|s| - 1]];
      r
  }

  /** Parts joined by a separator. */
  function Join(parts: seq<string>, sep: string): string {
    if |parts| == 0 then ""
    else if |parts| == 1 then parts[0]
    else parts[0] + sep + Join(parts[1..], sep)
  }

  /** The pieces between the occurrences of `sep`, all of them kept, so that
      joining them with `sep` gives the input back. */
  function Pieces(s: string, sep: char): (r: seq<string>)
    ensures |r| >= 1
    ensures forall i :: 0 <= i < |r| ==> sep !in r[i]
    ensures Join(r, [sep]) == s
  {
    if |s| == 0 then [""]
    else
      var rest := Pieces(s[1..], sep);
      if s[0] == sep then
        assert s == [sep] + s[1..];
        [""] + rest
      else
        var r := [[s[0]] + rest[0]] + rest[1..];
        assert r[1..] == rest[1..];
        assert s == [s[0]] + s[1..];
        r
  }

  /** Java removes trailing empty strings from the result of `split`. */
  function DropTrailingEmpty(ps: seq<string>): (r: seq<string>)
    ensures |r| <= |ps| && r == ps[..|r|]
    ensures r == [] || r[|r| - 1] != ""
    ensures forall i :: |r| <= i < |ps| ==> ps[i] == ""
  {
    if |ps| > 0 && ps[|ps| - 1] == "" then DropTrailingEmpty(ps[..|ps| - 1]) else ps
  }

  /** Java `s.split(sep)` for a one-character, non-regex separator: the pieces
      with trailing empty pieces removed, except that "" splits to [""]. */
  function Split(s: string, sep: char): (r: seq<string>)
    ensures forall i :: 0 <= i < |r| ==> sep !in r[i]
    ensures sep !in s ==> r == [s]
  {
    if |s| == 0 then [""]
    else
      if sep !in s then
        assert Pieces(s, sep) == [s] by { PiecesNoSeparator(s, sep); }
        DropTrailingEmpty(Pieces(s, sep))
      else
        DropTrailingEmpty(Pieces(s, sep))
  }

  lemma PiecesNoSeparator(s: string, sep: char)
    requires sep !in s
    ensures Pieces(s, sep) == [s]
  {
    if |s| > 0 {
      assert sep !in s[1..];
      PiecesNoSeparator(s[1..], sep);
    }
  }

  /** Prepending a separator-free piece and a separator adds exactly one piece. */
  lemma {:induction false} PiecesOfJoinStep(p: string, rest: string, sep: char)
    requires sep !in p
    ensures Pieces(p + [sep] + rest, sep) == [p] + Pieces(rest, sep)
    decreases |p|
  {
    var s := p + [sep] + rest;
    if |p| == 0 {
      assert s == [sep] + rest;
      assert s[1..] == rest;
    } else {
      assert s[1..] == p[1..] + [sep] + rest;
      assert sep !in p[1..];
      PiecesOfJoinStep(p[1..], rest, sep);
      assert [p[0]] + p[1..] == p;
    }
  }

  /** Splitting what was joined recovers the parts, when no part holds the separator. */
  lemma {:induction false} PiecesOfJoin(parts: seq<string>, sep: char)
    requires |parts| >= 1
    requires forall i :: 0 <= i < |parts| ==> sep !in parts[i]
    ensures Pieces(Join(parts, [sep]), sep) == parts
  {
    if |parts| == 1 {
      PiecesNoSeparator(parts[0], sep);
    } else {
      PiecesOfJoin(parts[1..], sep);
      PiecesOfJoinStep(parts[0], Join(parts[1..], [sep]), sep);
      assert parts == [parts[0]] + parts[1..];
    }
  }

  /** Length of the leading run of non-whitespace characters. */
  function RunLength(s: string): (n: nat)
    ensures n <= |s|
    ensures forall i :: 0 <= i < n ==> !IsSpace(s[i])
    ensures n < |s| ==> IsSpace(s[n])
  {
    if |s| == 0 || IsSpace(s[0]) then 0 else 1 + RunLength(s[1..])
  }

  /** The non-empty pieces of Java's `s.split("\\s+")`: the maximal runs of
      characters outside `\s`, left to right. */
  function Tokens(s: string): (r: seq<string>)
    ensures forall i :: 0 <= i < |r| ==> r[i] != []
    ensures forall i, j :: 0 <= i < |r| && 0 <= j < |r[i]| ==> !IsSpace(r[i][j])
    decreases |s|
  {
    if |s| == 0 then []
    else if IsSpace(s[0]) then Tokens(s[1..])
    else
      var n := RunLength(s);
      [s[..n]] + Tokens(s[n..])
  }

  function DigitChar(d: int): (c: char)
    requires 0 <= d < 10
    ensures '0' <= c <= '9'
  {
    "0123456789"[d]
  }

  /** Decimal rendering of a natural number, as `String.valueOf` / `str` print it. */
  function NatToString(n: nat): (r: string)
    ensures |r| >= 1
    ensures forall i :: 0 <= i < |r| ==> '0' <= r[i] <= '9'
  {
    if n < 10 then [DigitChar(n)] else NatToString(n / 10) + [DigitChar(n % 10)]
  }

  /** Decimal rendering of an integer, with a leading '-' when negative. */
  function IntToString(i: int): (r: string)
    ensures |r| >= 1
    ensures r[0] == '-' <==> i < 0
  {
    if i < 0 then "-" + NatToString(-i) else NatToString(i)
  }
}
