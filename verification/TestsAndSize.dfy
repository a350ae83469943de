/** The size gate with its own counting rule: test regions do not change its answer. */
module TestsAndSize {
  import opened Wrappers
  import opened PythonText
  import opened SizeRatchet
  import opened SizeHistory
  import ProductionSource

  /** The counting rule: the production lines of the decoded file. */
  ghost predicate CountsProduction(count: Bytes -> nat, decode: Bytes -> string, wide: set<char>) {
    forall bytes :: count(bytes) == ProductionSource.ProductionLines(decode(bytes), wide)
  }

  /** The second text is the first with a closed test region put in where no region was open. */
  ghost predicate AddsATest(before: string, after: string, wide: set<char>) {
    exists a: seq<string>, r: seq<string>, b: seq<string> ::
      && SplitLines(before) == a + b && SplitLines(after) == a + r + b
      && ProductionSource.LeavesNoneOpen(a, wide) && ProductionSource.IsClosedRegion(r, wide)
  }

  lemma TestsAreNotCounted(before: string, after: string, wide: set<char>)
    requires AddsATest(before, after, wide)
    ensures ProductionSource.ProductionLines(after, wide) == ProductionSource.ProductionLines(before, wide)
  {
    var a: seq<string>, r: seq<string>, b: seq<string> :|
      && SplitLines(before) == a + b && SplitLines(after) == a + r + b
      && ProductionSource.LeavesNoneOpen(a, wide) && ProductionSource.IsClosedRegion(r, wide);
    ProductionSource.TestRegionsDoNotCount(a, r, b, wide);
  }

  /** What the gate's exit status 0 means. */
  ghost predicate Passes(base: Option<Tree>, tree: Tree, count: Bytes -> nat) {
    TreeOk(tree, count) && (base.Some? ==> TransitionsOk(base.value, tree, count))
  }

  /** Over a base that passed, a file's bytes have no say in whether its growth is in order: only a measurement
      correction asks for them, and there is none. */
  lemma BytesHaveNoSay(
    base: Tree, rel: string, e: Entry, actual: nat, docs: map<string, string>, same: bool, count: Bytes -> nat
  )
    requires CheckOk(base, count)
    requires same && rel in base.sources ==> actual == count(base.sources[rel])
    ensures GrowthOk(rel, e, Get(base.registry, rel), Some(actual), docs, same) ==>
            GrowthOk(rel, e, Get(base.registry, rel), Some(actual), docs, false)
  {
    hide Contains, AuthorizationLine;
    if rel in base.registry { assert SourceOk(count(base.sources[rel]), Get(base.registry, rel)); }
  }

  lemma MoreBytesHaveNoSay(rel: string, e: Entry, before: Option<Entry>, actual: Option<nat>, docs: map<string, string>)
    ensures GrowthOk(rel, e, before, actual, docs, false) ==> GrowthOk(rel, e, before, actual, docs, true)
  {
    hide Contains, AuthorizationLine;
  }

  /** The same sizes, the same answer. */
  lemma SameSizesPass(base: Option<Tree>, tree: Tree, other: Tree, count: Bytes -> nat)
    requires base.Some? ==> CheckOk(base.value, count)
    requires other == tree.(sources := other.sources) && other.sources.Keys == tree.sources.Keys
    requires forall rel | rel in tree.sources :: count(other.sources[rel]) == count(tree.sources[rel])
    requires Passes(base, tree, count)
    ensures Passes(base, other, count)
  {
    assert tree.sources != map[] ==> other.sources != map[] by {
      assert tree.sources != map[] ==> tree.sources.Keys != {};
    }
    assert Measured(other.sources, count) == Measured(tree.sources, count);
    if base.Some? {
      forall rel | rel in tree.registry
        ensures GrowthOk(rel, tree.registry[rel], Get(base.value.registry, rel),
                         Get(Measured(other.sources, count), rel), tree.docs, Untouched(base.value, other, rel))
      {
        var e, actual := tree.registry[rel], count(tree.sources[rel]);
        hide GrowthOk, ValidEntry;
        assert Get(Measured(other.sources, count), rel) == Some(actual);
        assert GrowthOk(rel, e, Get(base.value.registry, rel), Some(actual), tree.docs,
            Untouched(base.value, tree, rel));
        BytesHaveNoSay(base.value, rel, e, actual, tree.docs, Untouched(base.value, tree, rel), count);
        MoreBytesHaveNoSay(rel, e, Get(base.value.registry, rel), Some(actual), tree.docs);
      }
    }
  }

  /** Adding a test region to a source, or taking one out, never changes the size gate's answer. */
  lemma TestsAreFree(
    base: Option<Tree>, tree: Tree, rel: string, bytes: Bytes, count: Bytes -> nat, decode: Bytes -> string,
    wide: set<char>
  )
    requires CountsProduction(count, decode, wide) && rel in tree.sources
    requires AddsATest(decode(tree.sources[rel]), decode(bytes), wide)
    requires base.Some? ==> CheckOk(base.value, count)
    ensures Passes(base, tree.(sources := tree.sources[rel := bytes]), count) <==> Passes(base, tree, count)
  {
    hide Passes, AddsATest;
    var other := tree.(sources := tree.sources[rel := bytes]);
    TestsAreNotCounted(decode(tree.sources[rel]), decode(bytes), wide);
    assert count(bytes) == count(tree.sources[rel]);
    assert other.sources.Keys == tree.sources.Keys;
    if Passes(base, tree, count) { SameSizesPass(base, tree, other, count); }
    if Passes(base, other, count) { SameSizesPass(base, other, tree, count); }
  }

  // ---- a rise bought twice, in production lines --------------------------------------------------------------

  /** A text of `n` ordinary lines. */
  function OrdinaryText(n: nat): string {
    seq(2 * n, i => if i % 2 == 0 then 'x' else '\n')
  }

  lemma OrdinaryAt(n: nat, j: nat)
    requires j < n
    ensures |OrdinaryText(n)| == 2 * n && OrdinaryText(n)[2 * j] == 'x' && OrdinaryText(n)[2 * j + 1] == '\n'
  {
    assert (2 * j) % 2 == 0 && (2 * j + 1) % 2 == 1;
  }

  lemma OrdinaryLine(text: string, i: nat)
    requires i + 2 <= |text| && text[i] == 'x' && text[i + 1] == '\n'
    ensures LinesFrom(text, i) == ["x"] + LinesFrom(text, i + 2)
  {
    assert LineEnd(text, i) == i + 1 && NextLine(text, i + 1) == i + 2;
    assert text[i..i + 1] == "x";
  }

  lemma NoLinesLeft(text: string, wide: set<char>)
    ensures LinesFrom(text, |text|) == [] && ProductionSource.Kept(ProductionSource.Production, [], wide) == []
  {
  }

  lemma {:induction false} OrdinaryLines(n: nat, i: nat, wide: set<char>)
    requires i <= n && |OrdinaryText(n)| == 2 * n
    ensures |ProductionSource.Kept(ProductionSource.Production, LinesFrom(OrdinaryText(n), 2 * i), wide)| == n - i
    decreases n - i
  {
    hide *;
    if i == n {
      NoLinesLeft(OrdinaryText(n), wide);
    } else {
      OrdinaryLines(n, i + 1, wide);
      OrdinaryAt(n, i);
      OrdinaryLine(OrdinaryText(n), 2 * i);
      OrdinaryFirst(LinesFrom(OrdinaryText(n), 2 * (i + 1)), wide);
    }
  }

  lemma OrdinaryFirst(rest: seq<string>, wide: set<char>)
    ensures ProductionSource.Kept(ProductionSource.Production, ["x"] + rest, wide) ==
            ["x"] + ProductionSource.Kept(ProductionSource.Production, rest, wide)
  {
    assert TrimLeft("x") == "x";
    assert !ProductionSource.IsTestAttr("x", wide);
    assert (["x"] + rest)[1..] == rest;
  }

  lemma OrdinaryMeasures(n: nat, wide: set<char>)
    ensures ProductionSource.ProductionLines(OrdinaryText(n), wide) == n
  {
    OrdinaryLines(n, 0, wide);
  }

  /** Under the gate's own counting rule too one record buys one rise twice: a file of ordinary lines grows, shrinks
      and grows again. */
  lemma ProductionRiseBuysAgain(
    rel: string, was: nat, now: nat, small: Bytes, large: Bytes, count: Bytes -> nat, decode: Bytes -> string,
    wide: set<char>
  )
    returns (states: seq<Tree>)
    requires CountsProduction(count, decode, wide) && THRESHOLD < was < now
    requires decode(small) == OrdinaryText(was) && decode(large) == OrdinaryText(now)
    ensures |states| == 4 && History(states, count) && Throughout(states, rel, 0, 3) && states[1] == states[3]
    ensures Baseline(states[0], rel) == Baseline(states[2], rel) == was && Baseline(states[1], rel) == now
    ensures RaisedOnRecord(states[0], states[1], rel, count) && RaisedOnRecord(states[2], states[3], rel, count)
  {
    OrdinaryMeasures(was, wide);
    OrdinaryMeasures(now, wide);
    states := SpentAuthorizationBuysAgain(rel, small, large, count);
  }
}
