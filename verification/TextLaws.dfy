/** What the parts of `str` the gates rely on do, on characters: lines, order, containment, white space. */
module TextLaws {
  import opened PythonText

  /** The characters a line ends at. */
  predicate EndsALine(c: char) {
    || c == '\n' || c == '\r' || c == '\U{B}' || c == '\U{C}' || c == '\U{1C}' || c == '\U{1D}' || c == '\U{1E}'
    || c == '\U{85}' || c == '\U{2028}' || c == '\U{2029}'
  }

  predicate IsLine(s: string) {
    forall k | 0 <= k < |s| :: !EndsALine(s[k])
  }

  lemma BreaksAre(c: char)
    ensures IsBreak(c) <==> EndsALine(c)
  {
  }

  lemma {:induction false} LineEndShift(pre: string, s: string, i: nat)
    requires i <= |s|
    ensures LineEnd(pre + s, |pre| + i) == |pre| + LineEnd(s, i)
    decreases |s| - i
  {
    hide IsBreak;
    if i == |s| {
    } else {
      assert (pre + s)[|pre| + i] == s[i];
      if !IsBreak(s[i]) { LineEndShift(pre, s, i + 1); }
    }
  }

  lemma NextLineShift(pre: string, s: string, e: nat)
    requires e < |s|
    ensures NextLine(pre + s, |pre| + e) == |pre| + NextLine(s, e)
  {
    assert (pre + s)[|pre| + e] == s[e] && (e + 1 < |s| ==> (pre + s)[|pre| + e + 1] == s[e + 1]);
  }

  lemma LinesNext(text: string, i: nat)
    requires i < |text|
    ensures var e := LineEnd(text, i);
            LinesFrom(text, i) == [text[i..e]] + if e == |text| then [] else LinesFrom(text, NextLine(text, e))
  {
  }

  lemma {:induction false} LinesShift(pre: string, s: string, i: nat)
    requires i <= |s|
    ensures LinesFrom(pre + s, |pre| + i) == LinesFrom(s, i)
    decreases |s| - i
  {
    hide LineEnd, LinesFrom, NextLine, IsBreak;
    var text := pre + s;
    if i == |s| {
      NoLinesAtEnd(s);
      NoLinesAtEnd(text);
    } else {
      var e := LineEnd(s, i);
      LineEndShift(pre, s, i);
      LinesNext(s, i);
      LinesNext(text, |pre| + i);
      SliceShift(pre, s, i, e);
      if e < |s| {
        NextLineShift(pre, s, e);
        LinesShift(pre, s, NextLine(s, e));
      }
    }
  }

  lemma NoLinesAtEnd(text: string)
    ensures LinesFrom(text, |text|) == []
  {
  }

  lemma SliceShift(pre: string, s: string, i: nat, e: nat)
    requires i <= e <= |s|
    ensures (pre + s)[|pre| + i..|pre| + e] == s[i..e]
  {
  }

  /** A line ends at the first such character; a carriage return and a newline count as one. */
  lemma SplitAtBreak(line: string, c: char, rest: string)
    requires IsLine(line) && EndsALine(c)
    ensures SplitLines(line + [c] + rest) ==
            [line] + SplitLines(if c == '\r' && rest != "" && rest[0] == '\n' then rest[1..] else rest)
  {
    var text, e := line + [c] + rest, |line|;
    forall k | 0 <= k < e ensures !IsBreak(text[k]) {
      assert text[k] == line[k];
      BreaksAre(text[k]);
    }
    BreaksAre(c);
    assert text[e] == c && LineEnd(text, 0) == e && text[0..e] == line;
    assert rest != "" ==> text[e + 1] == rest[0];
    var next := NextLine(text, e);
    if c == '\r' && rest != "" && rest[0] == '\n' {
      assert text == (line + [c, '\n']) + rest[1..];
      LinesShift(line + [c, '\n'], rest[1..], 0);
    } else {
      assert text == (line + [c]) + rest;
      LinesShift(line + [c], rest, 0);
    }
  }

  /** What does not end is the last line, if there is anything of it. */
  lemma SplitLast(line: string)
    requires IsLine(line)
    ensures SplitLines(line) == if line == "" then [] else [line]
  {
    forall k | 0 <= k < |line| ensures !IsBreak(line[k]) { BreaksAre(line[k]); }
    assert LineEnd(line, 0) == |line| && line[0..|line|] == line;
  }

  /** `p in text` */
  lemma ContainsIff(text: string, p: string)
    ensures Contains(text, p) <==> exists a: string, b: string :: text == a + p + b
  {
    if Contains(text, p) {
      var k: nat :| k <= |text| && OccursAt(text, p, k);
      assert text == text[..k] + p + text[k + |p|..];
    }
    if exists a: string, b: string :: text == a + p + b {
      var a: string, b: string :| text == a + p + b;
      assert OccursAt(text, p, |a|);
    }
  }

  /** `a <= b`: where they first differ `a` has the smaller character, or `a` is a beginning of `b`. */
  lemma {:induction false} AtMostIff(a: string, b: string)
    ensures AtMost(a, b) <==>
            a <= b || exists k | 0 <= k < |a| && k < |b| :: a[..k] == b[..k] && a[k] < b[k]
  {
    if a == "" || b == "" || a[0] != b[0] {
      if a != "" && b != "" {
        if a[0] < b[0] { assert a[..0] == b[..0]; }
        forall k | 0 < k < |a| && k < |b| ensures a[..k] != b[..k] { assert a[..k][0] != b[..k][0]; }
      }
    } else {
      AtMostIff(a[1..], b[1..]);
      assert a <= b <==> a[1..] <= b[1..] by {
        assert a == [a[0]] + a[1..] && b == [b[0]] + b[1..];
      }
      FirstDifference(a, b);
    }
  }

  lemma FirstDifference(a: string, b: string)
    requires a != "" && b != "" && a[0] == b[0]
    ensures (exists k | 0 <= k < |a| && k < |b| :: a[..k] == b[..k] && a[k] < b[k]) <==>
            exists k | 0 <= k < |a[1..]| && k < |b[1..]| :: a[1..][..k] == b[1..][..k] && a[1..][k] < b[1..][k]
  {
    if exists k | 0 <= k < |a| && k < |b| :: a[..k] == b[..k] && a[k] < b[k] {
      var k :| 0 <= k < |a| && k < |b| && a[..k] == b[..k] && a[k] < b[k];
      assert k > 0;
      assert a[1..][..k - 1] == a[..k][1..] == b[..k][1..] == b[1..][..k - 1];
      assert a[1..][k - 1] == a[k];
    }
    if exists k | 0 <= k < |a[1..]| && k < |b[1..]| :: a[1..][..k] == b[1..][..k] && a[1..][k] < b[1..][k] {
      var k :| 0 <= k < |a[1..]| && k < |b[1..]| && a[1..][..k] == b[1..][..k] && a[1..][k] < b[1..][k];
      assert a[..k + 1] == [a[0]] + a[1..][..k] && b[..k + 1] == [b[0]] + b[1..][..k];
      assert a[k + 1] < b[k + 1];
    }
  }

  /** White space, as `str.lstrip` takes it off. */
  predicate IsWhite(c: char) {
    || '\t' <= c <= '\r' || '\U{1C}' <= c <= ' ' || c == '\U{85}' || c == '\U{A0}' || c == '\U{1680}'
    || '\U{2000}' <= c <= '\U{200A}' || c == '\U{2028}' || c == '\U{2029}' || c == '\U{202F}' || c == '\U{205F}'
    || c == '\U{3000}'
  }

  lemma {:induction false} TrimmedIs(white: string, s: string)
    requires (forall k | 0 <= k < |white| :: IsWhite(white[k])) && (s == "" || !IsWhite(s[0]))
    ensures TrimLeft(white + s) == s
  {
    if white == "" {
      assert white + s == s;
    } else {
      assert (white + s)[1..] == white[1..] + s;
      TrimmedIs(white[1..], s);
    }
  }
}
