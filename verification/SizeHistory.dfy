/** What the module-size ratchet guarantees over a history of accepted merges. */
module SizeHistory {
  import opened Wrappers
  import opened PythonText
  import opened SizeRatchet

  function Baseline(tree: Tree, rel: string): int {
    if rel in tree.registry && tree.registry[rel].baseline.Some? then tree.registry[rel].baseline.value else 0
  }

  function Size(tree: Tree, rel: string, count: Bytes -> nat): nat {
    if rel in tree.sources then count(tree.sources[rel]) else 0
  }

  /** The merge raised the file's baseline, and a record of the tree says it may: this path, from exactly
      the old baseline to exactly the new one, which is what the file now measures. */
  ghost predicate RaisedOnRecord(prev: Tree, tree: Tree, rel: string, count: Bytes -> nat) {
    && rel in prev.registry && rel in tree.registry
    && Baseline(prev, rel) < Baseline(tree, rel) == Size(tree, rel, count)
    && tree.registry[rel].status == Some(EXCEPTION)
    && tree.registry[rel].growthFrom == Some(Baseline(prev, rel))
    && tree.registry[rel].growthRef.Some?
    && exists d | d in tree.registry[rel].growthRef.value.docs ::
         d in tree.docs && Contains(tree.docs[d], AuthorizationLine(rel, Baseline(prev, rel), Baseline(tree, rel)))
  }

  /** A measurement correction never happens while the counting rule stays: the unchanged file cannot
      measure above the baseline that already bounded it. */
  lemma CorrectionNeedsNewRule(prev: Tree, tree: Tree, rel: string, before: Bytes -> nat, after: Bytes -> nat)
    requires CheckOk(prev, before) && StepOk(prev, tree, after)
    requires rel in prev.registry && rel in tree.registry && Baseline(prev, rel) < Baseline(tree, rel)
    requires Corrected(tree.registry[rel], Get(Measured(tree.sources, after), rel), Untouched(prev, tree, rel))
    ensures rel in tree.sources && after(tree.sources[rel]) > before(tree.sources[rel])
  {
    assert SourceOk(before(prev.sources[rel]), Get(prev.registry, rel));
  }

  lemma RiseIsOnRecord(prev: Tree, tree: Tree, rel: string, count: Bytes -> nat)
    requires CheckOk(prev, count) && StepOk(prev, tree, count)
    requires rel in prev.registry && rel in tree.registry && Baseline(prev, rel) < Baseline(tree, rel)
    ensures RaisedOnRecord(prev, tree, rel, count)
  {
    hide Contains, AuthorizationLine;
    var e, actual := tree.registry[rel], Get(Measured(tree.sources, count), rel);
    assert GrowthOk(rel, e, Get(prev.registry, rel), actual, tree.docs, Untouched(prev, tree, rel));
    if Corrected(e, actual, Untouched(prev, tree, rel)) {
      CorrectionNeedsNewRule(prev, tree, rel, count, count);
    }
  }

  /** A history: every revision was merged over the one before it. */
  ghost predicate History(states: seq<Tree>, count: Bytes -> nat) {
    && states != [] && CheckOk(states[0], count)
    && forall k | 0 <= k < |states| - 1 :: MergedAt(states, k, count)
  }

  ghost predicate MergedAt(states: seq<Tree>, k: nat, count: Bytes -> nat)
    requires k + 1 < |states|
  {
    StepOk(states[k], states[k + 1], count)
  }

  /** The file is registered in every revision from `i` to `j`. */
  predicate Throughout(states: seq<Tree>, rel: string, i: nat, j: nat) {
    i <= j < |states| && forall k | i <= k <= j :: rel in states[k].registry
  }

  lemma HistoryOk(states: seq<Tree>, k: nat, count: Bytes -> nat)
    requires History(states, count) && k < |states|
    ensures CheckOk(states[k], count)
    ensures k > 0 ==> TreeOk(states[k], count)
  {
    if k > 0 { assert MergedAt(states, k - 1, count); }
  }

  /** No file outgrows a baseline but over a recorded rise: if it measures more at `j` than its baseline
      was at `i`, a merge between them raised the baseline across that very number, on record. */
  lemma {:induction false} GrowthNeedsARecord(
    states: seq<Tree>, rel: string, i: nat, j: nat, count: Bytes -> nat
  ) returns (k: nat)
    requires History(states, count) && Throughout(states, rel, i, j)
    requires Baseline(states[j], rel) > Baseline(states[i], rel)
             || Size(states[j], rel, count) > Baseline(states[i], rel)
    ensures i <= k < j && RaisedOnRecord(states[k], states[k + 1], rel, count)
    ensures Baseline(states[k], rel) <= Baseline(states[i], rel) < Baseline(states[k + 1], rel)
    decreases j
  {
    hide RaisedOnRecord, ValidEntry, StepOk;
    HistoryOk(states, j, count);
    assert Size(states[j], rel, count) <= Baseline(states[j], rel) by {
      assert SourceOk(count(states[j].sources[rel]), Get(states[j].registry, rel));
    }
    if Baseline(states[j - 1], rel) > Baseline(states[i], rel) {
      k := GrowthNeedsARecord(states, rel, i, j - 1, count);
    } else {
      k := j - 1;
      HistoryOk(states, k, count);
      assert MergedAt(states, k, count);
      RiseIsOnRecord(states[k], states[j], rel, count);
    }
  }

  /** An authorization still on an entry is spent: it lies strictly below the ceiling it bought. */
  lemma AuthorizationIsSpent(prev: Tree, tree: Tree, rel: string, count: Bytes -> nat)
    requires CheckOk(prev, count) && StepOk(prev, tree, count) && rel in prev.registry && rel in tree.registry
    ensures tree.registry[rel].growthFrom.Some? ==> tree.registry[rel].growthFrom.value < Baseline(tree, rel)
  {
    hide Contains, AuthorizationLine;
    var e := tree.registry[rel];
    assert GrowthOk(rel, e, Get(prev.registry, rel), Get(Measured(tree.sources, count), rel), tree.docs,
        Untouched(prev, tree, rel));
  }

  predicate LoweredAt(states: seq<Tree>, rel: string, k: nat)
    requires k + 1 < |states|
  {
    Baseline(states[k + 1], rel) < Baseline(states[k], rel)
  }

  lemma {:induction false} NoLoweringMeansNoFall(states: seq<Tree>, rel: string, i: nat, j: nat)
    requires i <= j < |states| && forall k | i <= k < j :: !LoweredAt(states, rel, k)
    ensures Baseline(states[i], rel) <= Baseline(states[j], rel)
    decreases j
  {
    if i == j {
    } else {
      NoLoweringMeansNoFall(states, rel, i, j - 1);
      assert !LoweredAt(states, rel, j - 1);
    }
  }

  /** Two rises of a file from the same baseline: the file was lowered in between, and just before the second one
      the entry no longer carried the first one's authorization. */
  lemma ReuseNeedsALowering(states: seq<Tree>, rel: string, i: nat, j: nat, count: Bytes -> nat)
    requires History(states, count) && Throughout(states, rel, i, j + 1) && i < j
    requires RaisedOnRecord(states[i], states[i + 1], rel, count)
    requires RaisedOnRecord(states[j], states[j + 1], rel, count)
    requires Baseline(states[i], rel) == Baseline(states[j], rel)
    ensures exists k | i < k < j :: LoweredAt(states, rel, k)
    ensures states[j].registry[rel].growthFrom != states[i + 1].registry[rel].growthFrom
  {
    hide Contains, AuthorizationLine, StepOk, TreeOk;
    if forall k | i < k < j :: !LoweredAt(states, rel, k) { NoLoweringMeansNoFall(states, rel, i + 1, j); }
    HistoryOk(states, j - 1, count);
    assert MergedAt(states, j - 1, count);
    AuthorizationIsSpent(states[j - 1], states[j], rel, count);
  }

  /** An authorization that bought a rise buys the very same rise again, entry and record unchanged, exactly from
      the baseline it began at. */
  lemma AuthorizationIsGoodAgainIff(prev: Tree, tree: Tree, later: Tree, rel: string, count: Bytes -> nat)
    requires RaisedOnRecord(prev, tree, rel, count) && rel in tree.sources && tree.registry[rel].baseline.Some?
    requires rel in later.registry && later.registry[rel].baseline.Some? && Baseline(later, rel) < Baseline(tree, rel)
    ensures GrowthOk(rel, tree.registry[rel], Get(later.registry, rel), Get(Measured(tree.sources, count), rel),
            tree.docs, Untouched(later, tree, rel))
            <==> Baseline(later, rel) == Baseline(prev, rel)
    ensures Baseline(later, rel) == Baseline(prev, rel) ==> RaisedOnRecord(later, tree, rel, count)
  {
    hide Contains, AuthorizationLine;
  }

  /** A revision of one file, registered at the size it measures. */
  function Revision(rel: string, bytes: Bytes, growthFrom: Option<int>, record: string, count: Bytes -> nat): Tree {
    var ref := Ref("EX-1 in r.md", ["r.md"]);
    var growthRef := if growthFrom.Some? then Some(ref) else None;
    Tree(map[rel := bytes], map["r.md" := record],
         map[rel := Entry(Some(count(bytes)), Some("c"), Some(EXCEPTION), Some(ref), growthFrom, growthRef, {})])
  }

  /** So one authorization can buy one rise over and over: for every file, every two contents above the threshold
      and whatever rule counts them, a history that goes up, back down and up again, to the very revision it first
      rose to. */
  lemma SpentAuthorizationBuysAgain(rel: string, small: Bytes, large: Bytes, count: Bytes -> nat)
    returns (states: seq<Tree>)
    requires THRESHOLD < count(small) < count(large)
    ensures |states| == 4 && History(states, count) && Throughout(states, rel, 0, 3)
    ensures states[1] == states[3] && Baseline(states[0], rel) == Baseline(states[2], rel) == count(small)
    ensures Baseline(states[1], rel) == count(large)
    ensures states[0].sources == map[rel := small] && states[1].sources == map[rel := large]
    ensures RaisedOnRecord(states[0], states[1], rel, count) && RaisedOnRecord(states[2], states[3], rel, count)
  {
    var was, now := count(small), count(large);
    var record := AuthorizationLine(rel, was, now);
    var low, high := Revision(rel, small, None, record, count), Revision(rel, large, Some(was), record, count);
    states := [low, high, low, high];
    hide AuthorizationLine, StepOk, CheckOk, RaisedOnRecord;
    RevisionOk(rel, small, None, record, count);
    RevisionOk(rel, large, Some(was), record, count);
    Up(rel, small, large, low, high, record, count);
    Down(rel, small, large, low, high, record, count);
    assert MergedAt(states, 0, count) && MergedAt(states, 1, count) && MergedAt(states, 2, count);
  }

  lemma RevisionOk(rel: string, bytes: Bytes, growthFrom: Option<int>, record: string, count: Bytes -> nat)
    requires count(bytes) > THRESHOLD
    ensures var tree := Revision(rel, bytes, growthFrom, record, count);
            CheckOk(tree, count) && TreeOk(tree, count)
  {
    var tree := Revision(rel, bytes, growthFrom, record, count);
    assert rel in tree.sources && count(tree.sources[rel]) == count(bytes);
    assert ValidEntry(tree.registry[rel], tree.docs);
  }

  lemma Up(rel: string, small: Bytes, large: Bytes, low: Tree, high: Tree, record: string, count: Bytes -> nat)
    requires count(small) < count(large) && record == AuthorizationLine(rel, count(small), count(large))
    requires low == Revision(rel, small, None, record, count)
    requires high == Revision(rel, large, Some(count(small)), record, count) && TreeOk(high, count)
    ensures StepOk(low, high, count) && RaisedOnRecord(low, high, rel, count)
  {
    hide AuthorizationLine, TreeOk;
    assert Contains(record, record) by { assert OccursAt(record, record, 0); }
    hide Contains;
    assert Measured(high.sources, count)[rel] == count(large);
    assert "r.md" in high.registry[rel].growthRef.value.docs;
    assert Authorized(rel, high.registry[rel], count(small), Some(count(large)), high.docs);
  }

  lemma Down(rel: string, small: Bytes, large: Bytes, low: Tree, high: Tree, record: string, count: Bytes -> nat)
    requires count(small) < count(large)
    requires low == Revision(rel, small, None, record, count) && TreeOk(low, count)
    requires high == Revision(rel, large, Some(count(small)), record, count)
    ensures StepOk(high, low, count)
  {
    hide TreeOk;
  }

  /** Rises with no lowering in between use different authorizations, each from a higher baseline. */
  lemma RisesUseDifferentPairs(states: seq<Tree>, rel: string, i: nat, j: nat, count: Bytes -> nat)
    requires History(states, count) && Throughout(states, rel, i, j + 1) && i < j
    requires RaisedOnRecord(states[i], states[i + 1], rel, count)
    requires RaisedOnRecord(states[j], states[j + 1], rel, count)
    requires forall k | i < k < j :: !LoweredAt(states, rel, k)
    ensures states[i + 1].registry[rel].growthFrom.value < states[j + 1].registry[rel].growthFrom.value
    ensures Baseline(states[i + 1], rel) <= states[j + 1].registry[rel].growthFrom.value
  {
    hide Contains, AuthorizationLine;
    NoLoweringMeansNoFall(states, rel, i + 1, j);
  }

  lemma StatusStep(prev: Tree, tree: Tree, rel: string, count: Bytes -> nat)
    requires StepOk(prev, tree, count) && rel in prev.registry && rel in tree.registry
    requires prev.registry[rel].status.Some? && IsStatus(prev.registry[rel].status.value)
    ensures tree.registry[rel].status.Some? && IsStatus(tree.registry[rel].status.value)
    ensures PermittedTransition(prev.registry[rel].status.value, tree.registry[rel].status.value)
  {
    hide GrowthOk, PermittedTransition;
    assert ValidEntry(tree.registry[rel], tree.docs);
    assert TransitionOk(Get(prev.registry, rel), tree.registry[rel]);
  }

  lemma PermittedIsTransitive(a: string, b: string, c: string)
    requires PermittedTransition(a, b) && PermittedTransition(b, c)
    ensures PermittedTransition(a, c) && (IsReviewed(a) ==> c != UNREVIEWED)
  {
  }

  lemma PermittedIsReflexive(a: string)
    requires IsStatus(a)
    ensures PermittedTransition(a, a)
  {
  }

  /** Over any stretch of history the disposition moves as one permitted transition: what was reviewed
      never becomes unreviewed again. */
  lemma {:induction false} DispositionsAreNotForgotten(
    states: seq<Tree>, rel: string, i: nat, j: nat, count: Bytes -> nat
  )
    requires History(states, count) && TreeOk(states[0], count) && Throughout(states, rel, i, j)
    ensures states[i].registry[rel].status.Some? && states[j].registry[rel].status.Some?
    ensures IsStatus(states[j].registry[rel].status.value)
    ensures PermittedTransition(states[i].registry[rel].status.value, states[j].registry[rel].status.value)
    ensures IsReviewed(states[i].registry[rel].status.value) ==> states[j].registry[rel].status.value != UNREVIEWED
    decreases j
  {
    HistoryOk(states, i, count);
    assert ValidEntry(states[i].registry[rel], states[i].docs);
    hide StepOk, PermittedTransition, TreeOk, ValidEntry;
    var start := states[i].registry[rel].status.value;
    PermittedIsReflexive(start);
    if i == j {
    } else {
      DispositionsAreNotForgotten(states, rel, i, j - 1, count);
      assert MergedAt(states, j - 1, count);
      StatusStep(states[j - 1], states[j], rel, count);
      PermittedIsTransitive(start, states[j - 1].registry[rel].status.value, states[j].registry[rel].status.value);
    }
  }
}
