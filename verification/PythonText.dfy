/** The parts of Python's `str` the gates rely on. */
module PythonText {

  /** The line boundaries of `str.splitlines`. */
  predicate IsBreak(c: char) {
    '\n' <= c <= '\r' || '\U{1C}' <= c <= '\U{1E}' || c == '\U{85}' || '\U{2028}' <= c <= '\U{2029}'
  }

  /** The first line boundary at or after `i`, or the end of the text. */
  function LineEnd(text: string, i: nat): (e: nat)
    requires i <= |text|
    ensures i <= e <= |text|
    ensures e < |text| ==> IsBreak(text[e])
    ensures forall k | i <= k < e :: !IsBreak(text[k])
    decreases |text| - i
  {
    if i == |text| || IsBreak(text[i]) then i else LineEnd(text, i + 1)
  }

  /** The start of the line after the boundary at `e`; `\r\n` is one boundary. */
  function NextLine(text: string, e: nat): (i: nat)
    requires e < |text|
    ensures e < i <= |text|
  {
    if text[e] == '\r' && e + 1 < |text| && text[e + 1] == '\n' then e + 2 else e + 1
  }

  function LinesFrom(text: string, i: nat): seq<string>
    requires i <= |text|
    decreases |text| - i
  {
    if i == |text| then []
    else
      var e := LineEnd(text, i);
      [text[i..e]] + if e == |text| then [] else LinesFrom(text, NextLine(text, e))
  }

  /** `str.splitlines` */
  function SplitLines(text: string): seq<string> {
    LinesFrom(text, 0)
  }

  /** The only line boundaries in the text are newlines. */
  predicate NewlinesOnly(text: string) {
    forall k | 0 <= k < |text| :: IsBreak(text[k]) ==> text[k] == '\n'
  }

  /** `str.isspace` for one character. */
  predicate IsSpace(c: char) {
    || '\t' <= c <= '\r' || '\U{1C}' <= c <= '\U{20}' || c == '\U{85}' || c == '\U{A0}' || c == '\U{1680}'
    || '\U{2000}' <= c <= '\U{200A}' || '\U{2028}' <= c <= '\U{2029}'
    || c == '\U{202F}' || c == '\U{205F}' || c == '\U{3000}'
  }

  /** `str.lstrip` */
  function TrimLeft(s: string): string {
    if s != "" && IsSpace(s[0]) then TrimLeft(s[1..]) else s
  }

  predicate OccursAt(text: string, pattern: string, k: nat) {
    k + |pattern| <= |text| && text[k..k + |pattern|] == pattern
  }

  /** `pattern in text` */
  predicate Contains(text: string, pattern: string) {
    exists k: nat | k <= |text| :: OccursAt(text, pattern, k)
  }

  // ---- order ---------------------------------------------------------------------------------

  /** `a <= b` on `str`: character by character, a prefix first. */
  predicate AtMost(a: string, b: string) {
    a == "" || (b != "" && (a[0] < b[0] || (a[0] == b[0] && AtMost(a[1..], b[1..]))))
  }

  predicate Precedes(a: string, b: string) {
    AtMost(a, b) && a != b
  }

  lemma {:induction false} AtMostIsTotal(a: string, b: string)
    ensures AtMost(a, b) || AtMost(b, a)
    ensures AtMost(a, b) && AtMost(b, a) ==> a == b
    ensures AtMost(a, a)
  {
    if a != "" { AtMostIsTotal(a[1..], if b != "" then b[1..] else ""); }
    if a != "" && b != "" && a[0] == b[0] && a[1..] == b[1..] {
      assert a == [a[0]] + a[1..] == b;
    }
  }

  lemma {:induction false} AtMostIsTransitive(a: string, b: string, c: string)
    requires AtMost(a, b) && AtMost(b, c)
    ensures AtMost(a, c)
  {
    if a != "" && a[0] == b[0] == c[0] { AtMostIsTransitive(a[1..], b[1..], c[1..]); }
  }

  lemma PrecedesIsTransitive(a: string, b: string, c: string)
    requires AtMost(a, b) && AtMost(b, c) && (a != b || b != c)
    ensures Precedes(a, c)
  {
    AtMostIsTransitive(a, b, c);
    AtMostIsTotal(a, b);
  }

  /** In order, each once: `sorted` of a set. */
  predicate IsSorted(s: seq<string>) {
    forall i, j | 0 <= i < j < |s| :: Precedes(s[i], s[j])
  }

  /** Put a string where it belongs, unless it is there. */
  function Insert(s: seq<string>, x: string): seq<string> {
    if s == [] then [x]
    else if s[0] == x then s
    else if AtMost(x, s[0]) then [x] + s
    else [s[0]] + Insert(s[1..], x)
  }

  lemma {:induction false} InsertSorts(s: seq<string>, x: string)
    requires IsSorted(s)
    ensures IsSorted(Insert(s, x))
    ensures forall y :: y in Insert(s, x) <==> y == x || y in s
  {
    hide AtMost;
    if s == [] {
    } else {
      assert s == [s[0]] + s[1..];
      AtMostIsTotal(x, s[0]);
      if s[0] != x && AtMost(x, s[0]) {
        forall j | 0 <= j < |s| ensures Precedes(x, s[j]) {
          if j > 0 { PrecedesIsTransitive(x, s[0], s[j]); }
        }
      } else if s[0] != x {
        InsertSorts(s[1..], x);
        var rest := Insert(s[1..], x);
        forall j | 0 <= j < |rest| ensures Precedes(s[0], rest[j]) {
          assert rest[j] in rest;
          if rest[j] != x {
            var k :| 0 <= k < |s[1..]| && s[1..][k] == rest[j];
            assert s[k + 1] == rest[j];
          }
        }
        hide Insert;
        AheadStaysSorted(s[0], rest);
      }
    }
  }

  /** `sorted(set(s))` */
  function SortedSet(s: seq<string>): seq<string> {
    if s == [] then [] else Insert(SortedSet(s[..|s| - 1]), s[|s| - 1])
  }

  lemma {:induction false} SortedSetSorts(s: seq<string>)
    ensures IsSorted(SortedSet(s))
    ensures forall x :: x in SortedSet(s) <==> x in s
  {
    if s == [] {
    } else {
      var rest := s[..|s| - 1];
      SortedSetSorts(rest);
      assert s == rest + [s[|s| - 1]];
      hide Insert, IsSorted;
      InsertSorts(SortedSet(rest), s[|s| - 1]);
    }
  }

  lemma AheadStaysSorted(x: string, rest: seq<string>)
    requires IsSorted(rest) && forall j | 0 <= j < |rest| :: Precedes(x, rest[j])
    ensures IsSorted([x] + rest)
  {
    var s := [x] + rest;
    forall i, j | 0 <= i < j < |s| ensures Precedes(s[i], s[j]) {
      assert s[j] == rest[j - 1];
      if i > 0 { assert s[i] == rest[i - 1]; }
    }
  }
}
