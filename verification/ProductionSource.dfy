/** `production_source`: the lines of a Rust file outside its test regions. */
module ProductionSource {
  import opened Sequences
  import opened PythonText
  import opened BraceScan
  import opened LexerEquivalence
  import StripNoncode

  /** A prefix of the line that is not followed by a word character. */
  predicate StartsWithWord(s: string, prefix: string, wide: set<char>) {
    prefix <= s && (|s| == |prefix| || !(IsAlnum(s[|prefix|], wide) || s[|prefix|] == '_'))
  }

  /** `TEST_ATTR` matches the line once its leading white space is gone. */
  predicate IsTestAttr(line: string, wide: set<char>) {
    var s := TrimLeft(line);
    StartsWithWord(s, "#[cfg(test", wide) || StartsWithWord(s, "#[cfg(all(test", wide)
  }

  function Count(s: string, c: char): nat {
    if s == "" then 0 else (if s[0] == c then 1 else 0) + Count(s[1..], c)
  }

  /** What the inner loop carries from line to line of one test region. */
  datatype Region = Region(scan: State, depth: int, open: bool)

  const FRESH := Region(START, 0, false)

  function Read(region: Region, line: string, wide: set<char>): (r: (Region, string)) {
    var (scan, code) := FeedFrom(region.scan, line, 0, wide);
    (Region(scan, region.depth + Count(code, '{') - Count(code, '}'), region.open || '{' in code), code)
  }

  /** The item the attribute introduced ends with this line. */
  predicate Ends(region: Region, line: string, wide: set<char>) {
    var (after, code) := Read(region, line, wide);
    after.depth <= 0 && (after.open || ';' in code)
  }

  /** Between two lines a file is in production code or inside a test region. */
  datatype Where = Production | Test(region: Region)

  function Inside(region: Region, line: string, wide: set<char>): Where {
    if Ends(region, line, wide) then Production else Test(Read(region, line, wide).0)
  }

  /** One line read as a single pass would: does it count, and where does it leave the file? */
  function Next(at: Where, line: string, wide: set<char>): Where {
    match at
    case Test(region) => Inside(region, line, wide)
    case Production => if IsTestAttr(line, wide) then Inside(FRESH, line, wide) else Production
  }

  predicate Counts(at: Where, line: string, wide: set<char>) {
    at.Production? && !IsTestAttr(line, wide)
  }

  function EndOf(at: Where, lines: seq<string>, wide: set<char>): Where
    decreases lines
  {
    if lines == [] then at else EndOf(Next(at, lines[0], wide), lines[1..], wide)
  }

  function Kept(at: Where, lines: seq<string>, wide: set<char>): seq<string>
    decreases lines
  {
    if lines == [] then []
    else (if Counts(at, lines[0], wide) then [lines[0]] else []) + Kept(Next(at, lines[0], wide), lines[1..], wide)
  }

  /** `production_lines` of a whole text. */
  function ProductionLines(text: string, wide: set<char>): nat {
    |Kept(Production, SplitLines(text), wide)|
  }

  method CountOf(s: string, c: char) returns (n: nat)
    ensures n == Count(s, c)
  {
    n := 0;
    for i := 0 to |s|
      invariant n + Count(s[i..], c) == Count(s, c)
    {
      if s[i] == c { n := n + 1; }
    }
  }

  /** The inner loop of `production_source`, entered at an attribute: it swallows the test region
      with a lexer of its own and returns the index of the line after it. */
  method SwallowRegion(lines: seq<string>, start: nat, wide: set<char>) returns (i: nat)
    requires start < |lines| && IsTestAttr(lines[start], wide)
    ensures start < i <= |lines|
    ensures Kept(Production, lines[i..], wide) == Kept(Production, lines[start..], wide)
  {
    hide IsTestAttr, FeedFrom, Count;
    var scan := new Scanner(wide);
    var depth: int, open := 0, false;
    ghost var at := Production;
    i := start;
    while i < |lines|
      invariant start <= i <= |lines| && (at.Production? <==> i == start)
      invariant Region(scan.Now(), depth, open) == if at.Test? then at.region else FRESH
      invariant Kept(at, lines[i..], wide) == Kept(Production, lines[start..], wide)
    {
      ghost var before, line := Region(scan.Now(), depth, open), lines[i];
      SwallowLine(at, before, lines[i..], wide);
      assert lines[i..][1..] == lines[i + 1..];
      var code := scan.Feed(lines[i]);
      var opening := CountOf(code, '{');
      var closing := CountOf(code, '}');
      depth := depth + opening - closing;
      if '{' in code { open := true; }
      i := i + 1;
      at := Inside(before, line, wide);
      if open && depth <= 0 { break; }
      if !open && depth <= 0 && ';' in code { break; }
    }
    assert at.Test? ==> lines[i..] == [];
  }

  /** A line read at an attribute or inside a region does not count. */
  lemma SwallowLine(at: Where, region: Region, lines: seq<string>, wide: set<char>)
    requires lines != [] && (at.Production? ==> IsTestAttr(lines[0], wide) && region == FRESH)
    requires at.Test? ==> at.region == region
    ensures Kept(at, lines, wide) == Kept(Inside(region, lines[0], wide), lines[1..], wide)
  {
    hide Inside, IsTestAttr;
  }

  /** `production_source` over the lines of a file. */
  method ProductionSource(lines: seq<string>, wide: set<char>) returns (kept: seq<string>)
    ensures kept == Kept(Production, lines, wide)
  {
    hide IsTestAttr, Inside;
    kept := [];
    var i := 0;
    while i < |lines|
      invariant 0 <= i <= |lines|
      invariant kept + Kept(Production, lines[i..], wide) == Kept(Production, lines, wide)
    {
      if IsTestAttr(lines[i], wide) {
        i := SwallowRegion(lines, i, wide);
        continue;
      }
      assert lines[i..][1..] == lines[i + 1..];
      kept := kept + [lines[i]];
      i := i + 1;
    }
  }

  // ---- regions compose --------------------------------------------------------------------------

  lemma {:induction false} Append(at: Where, a: seq<string>, b: seq<string>, wide: set<char>)
    ensures Kept(at, a + b, wide) == Kept(at, a, wide) + Kept(EndOf(at, a, wide), b, wide)
    ensures EndOf(at, a + b, wide) == EndOf(EndOf(at, a, wide), b, wide)
    decreases a
  {
    hide Next, Counts;
    if a == [] {
      assert a + b == b;
    } else {
      assert (a + b)[0] == a[0] && (a + b)[1..] == a[1..] + b;
      var first, next := if Counts(at, a[0], wide) then [a[0]] else [], Next(at, a[0], wide);
      Append(next, a[1..], b, wide);
      Regroup(first, Kept(next, a[1..], wide), Kept(EndOf(next, a[1..], wide), b, wide));
    }
  }

  /** Every region the lines open, they close. */
  predicate LeavesNoneOpen(lines: seq<string>, wide: set<char>) {
    EndOf(Production, lines, wide).Production?
  }

  /** The item under way ends with the last of these lines, and not before. */
  predicate Closes(region: Region, lines: seq<string>, wide: set<char>)
    decreases lines
  {
    lines != [] &&
    if Ends(region, lines[0], wide) then |lines| == 1 else Closes(Read(region, lines[0], wide).0, lines[1..], wide)
  }

  /** The lines are one closed test region: an attribute, and the item it introduces. */
  predicate IsClosedRegion(lines: seq<string>, wide: set<char>) {
    lines != [] && IsTestAttr(lines[0], wide) && Closes(FRESH, lines, wide)
  }

  lemma {:induction false} RegionIsSwallowed(at: Where, region: Region, lines: seq<string>, wide: set<char>)
    requires Closes(region, lines, wide)
    requires if at.Test? then at.region == region else region == FRESH && IsTestAttr(lines[0], wide)
    ensures Kept(at, lines, wide) == [] && EndOf(at, lines, wide) == Production
    decreases lines
  {
    hide IsTestAttr, Ends, Read;
    SwallowLine(at, region, lines, wide);
    if Ends(region, lines[0], wide) {
      assert lines[1..] == [];
    } else {
      var after := Read(region, lines[0], wide).0;
      RegionIsSwallowed(Test(after), after, lines[1..], wide);
    }
  }

  /** Production counting is compositional: a closed test region may stand anywhere no region is
      open, and neither the lines above it nor those below it are counted differently. */
  lemma TestRegionsDoNotCount(a: seq<string>, r: seq<string>, b: seq<string>, wide: set<char>)
    requires LeavesNoneOpen(a, wide) && IsClosedRegion(r, wide)
    ensures Kept(Production, a + r + b, wide) == Kept(Production, a, wide) + Kept(Production, b, wide)
    ensures Kept(Production, a + b, wide) == Kept(Production, a, wide) + Kept(Production, b, wide)
    ensures EndOf(Production, a + r + b, wide) == EndOf(Production, a + b, wide)
  {
    hide Kept, EndOf, IsTestAttr, Closes;
    RegionIsSwallowed(Production, FRESH, r, wide);
    Append(Production, a + r, b, wide);
    Append(Production, a, r, wide);
    Append(Production, a, b, wide);
  }

  // ---- either lexer finds the same regions ------------------------------------------------------

  /** The end of the item, decided on lines whose literals and comments are already gone. */
  predicate ClosesOn(depth: int, open: bool, codes: seq<string>)
    decreases codes
  {
    codes != [] &&
    var depth' := depth + Count(codes[0], '{') - Count(codes[0], '}');
    var open' := open || '{' in codes[0];
    if depth' <= 0 && (open' || ';' in codes[0]) then |codes| == 1 else ClosesOn(depth', open', codes[1..])
  }

  lemma {:induction false} ClosesOnFed(region: Region, lines: seq<string>, wide: set<char>)
    ensures Closes(region, lines, wide) <==> ClosesOn(region.depth, region.open, FeedAll(region.scan, lines, wide))
    decreases lines
  {
    hide FeedFrom, Count;
    if lines == [] {
    } else {
      var scan := FeedFrom(region.scan, lines[0], 0, wide).0;
      assert FeedAll(region.scan, lines, wide)[1..] == FeedAll(scan, lines[1..], wide);
      ClosesOnFed(Read(region, lines[0], wide).0, lines[1..], wide);
    }
  }

  lemma {:induction false} CountOfMarks(s: string, c: char)
    requires IsMark(c)
    ensures Count(Marks(s), c) == Count(s, c)
    ensures Count(s, c) > 0 <==> c in s
  {
    if s == "" {
    } else {
      CountOfMarks(s[1..], c);
      assert s == [s[0]] + s[1..];
      if IsMark(s[0]) { assert Marks(s)[1..] == Marks(s[1..]); }
    }
  }

  lemma {:induction false} ClosesOnMarks(depth: int, open: bool, fed: seq<string>, stripped: seq<string>)
    requires SameMarks(fed, stripped)
    ensures ClosesOn(depth, open, fed) <==> ClosesOn(depth, open, stripped)
    decreases fed
  {
    hide Count, Marks;
    if fed == [] {
    } else {
      MarksDecide(fed[0], stripped[0]);
      ClosesOnMarks(depth + Count(fed[0], '{') - Count(fed[0], '}'), open || '{' in fed[0], fed[1..], stripped[1..]);
    }
  }

  lemma MarksDecide(s: string, t: string)
    requires Marks(s) == Marks(t)
    ensures Count(s, '{') == Count(t, '{') && Count(s, '}') == Count(t, '}')
    ensures ('{' in s <==> '{' in t) && (';' in s <==> ';' in t)
  {
    hide Count, Marks;
    CountOfMarks(s, '{');
    CountOfMarks(t, '{');
    CountOfMarks(s, '}');
    CountOfMarks(t, '}');
    CountOfMarks(s, ';');
    CountOfMarks(t, ';');
  }

  /** The size gate's idea of where a test region ends is the one the sources gate's lexer gives. */
  lemma EitherLexerEndsTheRegion(text: string, wide: set<char>)
    requires NewlinesOnly(text) && Comparable(text, wide)
    ensures Closes(FRESH, SplitLines(text), wide) <==> ClosesOn(0, false, SplitLines(StripNoncode.Strip(text)))
  {
    hide *;
    StreamingRefinesWholeText(text, wide);
    FreshCloses(SplitLines(text), wide);
    ClosesOnMarks(0, false, FeedAll(START, SplitLines(text), wide), SplitLines(StripNoncode.Strip(text)));
  }

  lemma FreshCloses(lines: seq<string>, wide: set<char>)
    ensures Closes(FRESH, lines, wide) <==> ClosesOn(0, false, FeedAll(START, lines, wide))
  {
    ClosesOnFed(FRESH, lines, wide);
  }
}
