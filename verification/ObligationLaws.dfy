/** The obligation gate's rules on the fields themselves: exactly which states it accepts, what it reports, and that a
    review is never taken back. */
module ObligationLaws {
  import opened Wrappers
  import opened Sequences
  import opened PythonText
  import opened Obligations

  /** The severities, from least to most severe. */
  const SEVERITIES := [NoSeverity, Info, Low, Medium, High, Critical]

  ghost predicate NoMoreSevere(a: Severity, b: Severity) {
    exists i, j | 0 <= i <= j < 6 :: SEVERITIES[i] == a && SEVERITIES[j] == b
  }

  lemma RankIs(a: Severity, b: Severity)
    ensures Rank(a) <= Rank(b) <==> NoMoreSevere(a, b)
  {
    forall s: Severity ensures Rank(s) < 6 && SEVERITIES[Rank(s)] == s {}
    forall i | 0 <= i < 6 ensures Rank(SEVERITIES[i]) == i {}
    hide Rank;
  }

  /** The paths of a unit lie among those the base gives another. */
  predicate CoversNoMore(
    paths: map<string, set<string>>, unit: string, basePaths: map<string, set<string>>, predecessor: string
  )
  {
    unit in paths ==> forall p | p in paths[unit] :: predecessor in basePaths && p in basePaths[predecessor]
  }

  /** The row claims a succession and every clause of it holds. */
  ghost predicate IsDecomposition(
    unit: string, tree: Tree, before: Option<map<string, Row>>, basePaths: Option<map<string, set<string>>>
  )
    requires unit in tree.registry
  {
    var row := tree.registry[unit];
    && row.succeeds != "" && row.decompositionRef != "" && row.decompositionRef in tree.files
    && row.succeeds != unit && row.succeeds !in tree.registry && row.succeeds !in tree.measured
    && before.Some? && unit !in before.value && row.succeeds in before.value
    && NoMoreSevere(row.owed.effective, before.value[row.succeeds].owed.effective)
    && basePaths.Some? && CoversNoMore(tree.paths, unit, basePaths.value, row.succeeds)
  }

  lemma DecompositionIff(
    unit: string, tree: Tree, before: Option<map<string, Row>>, basePaths: Option<map<string, set<string>>>
  )
    requires unit in tree.registry
    ensures IsDecomposition(unit, tree, before, basePaths) <==> Succession(unit, tree, before, basePaths).Excused?
  {
    JudgedRight(unit, tree, before, basePaths);
    var row := tree.registry[unit];
    if before.Some? && row.succeeds in before.value {
      RankIs(row.owed.effective, before.value[row.succeeds].owed.effective);
    }
    hide Rank, NoMoreSevere, Succession;
  }

  /** The row is recorded as it is owed; a completed review has its record and is not taken back; and a row that claims
      a succession and is not in the base is a decomposition, as is every row the base does not hold. */
  ghost predicate RowPasses(
    unit: string, tree: Tree, before: Option<map<string, Row>>, basePaths: Option<map<string, set<string>>>
  )
    requires unit in tree.registry && unit in tree.measured
  {
    var row := tree.registry[unit];
    && row.owed == tree.measured[unit]
    && (row.status != Unreviewed ==> row.reviewRef != "" && row.reviewRef in tree.files)
    && (before.Some? && unit in before.value ==> before.value[unit].status == Unreviewed || row.status != Unreviewed)
    && (IsNewClaim(unit, row, before) ==> IsDecomposition(unit, tree, before, basePaths))
  }

  predicate IsNewClaim(unit: string, row: Row, before: Option<map<string, Row>>) {
    if before.Some? then unit !in before.value else row.succeeds != "" || row.decompositionRef != ""
  }

  lemma RowPassesIff(
    unit: string, tree: Tree, before: Option<map<string, Row>>, basePaths: Option<map<string, set<string>>>
  )
    requires unit in tree.registry && unit in tree.measured
    ensures RowPasses(unit, tree, before, basePaths) <==>
            && RowOk(tree, unit) && !Succession(unit, tree, before, basePaths).Refused?
            && (before.Some? && unit !in before.value ==> Succession(unit, tree, before, basePaths).Excused?)
            && (before.Some? && unit in before.value ==> !Forgets(before.value[unit], tree.registry[unit]))
  {
    DecompositionIff(unit, tree, before, basePaths);
    JudgedRight(unit, tree, before, basePaths);
    hide Succession, IsDecomposition, SuccessionFault, Place, RefinesRow;
  }

  /** Exactly which states the gate accepts, against whatever base: what is registered owes, what owes is registered,
      and every row passes. */
  lemma AcceptedIff(tree: Tree, before: Option<map<string, Row>>, basePaths: Option<map<string, set<string>>>)
    ensures Accepted(tree, before, basePaths) <==>
            && tree.registry.Keys == tree.measured.Keys
            && forall unit | unit in tree.registry && unit in tree.measured :: RowPasses(unit, tree, before, basePaths)
  {
    forall unit | unit in tree.registry && unit in tree.measured
      ensures RowPasses(unit, tree, before, basePaths) <==>
              && RowOk(tree, unit) && !Succession(unit, tree, before, basePaths).Refused?
              && (before.Some? && unit !in before.value ==> Succession(unit, tree, before, basePaths).Excused?)
              && (before.Some? && unit in before.value ==> !Forgets(before.value[unit], tree.registry[unit]))
    {
      RowPassesIff(unit, tree, before, basePaths);
    }
    if before.Some? { AddedNothing(tree, before.value, basePaths); }
    hide RowPasses, Succession, RowOk, Forgets, Added;
    assert tree.registry.Keys == tree.measured.Keys ==> forall unit | unit in tree.registry :: unit in tree.measured;
  }

  lemma AddedNothing(tree: Tree, before: map<string, Row>, basePaths: Option<map<string, set<string>>>)
    ensures Added(tree, before, basePaths) == {} <==>
            forall unit | unit in tree.registry && unit !in before ::
              Succession(unit, tree, Some(before), basePaths).Excused?
  {
    hide Succession;
    forall unit | unit in tree.registry && unit !in before && !Succession(unit, tree, Some(before), basePaths).Excused?
      ensures unit in Added(tree, before, basePaths)
    {
    }
  }

  /** Over every history a completed review stays completed. */
  lemma {:induction false} ReviewsAreNotForgotten(states: seq<Tree>, unit: string, i: nat, j: nat)
    requires History(states) && i <= j < |states| && forall k | i <= k <= j :: unit in states[k].registry
    requires states[i].registry[unit].status != Unreviewed
    ensures states[j].registry[unit].status != Unreviewed
    decreases j
  {
    hide Merged;
    if i == j {
    } else {
      ReviewsAreNotForgotten(states, unit, i, j - 1);
      assert MergedAt(states, j - 1);
      ReviewStays(states[j - 1], states[j], unit);
    }
  }

  lemma ReviewStays(base: Tree, tree: Tree, unit: string)
    requires Merged(base, tree) && unit in base.registry && unit in tree.registry
    requires base.registry[unit].status != Unreviewed
    ensures tree.registry[unit].status != Unreviewed
  {
    hide Accepted, IsDecomposition, IsNewClaim;
    AcceptedIff(tree, Some(base.registry), Some(base.paths));
    assert unit in tree.measured;
    assert RowPasses(unit, tree, Some(base.registry), Some(base.paths));
  }

  // ---- what is reported --------------------------------------------------------------------------------------

  predicate IsOther(d: Defect) {
    d.Forgotten? || d.Unregistered? || d.NoLongerOwed?
  }

  lemma NoneInSuccession(
    tree: Tree, before: Option<map<string, Row>>, basePaths: Option<map<string, set<string>>>, u: string, d: Defect
  )
    requires IsOther(d)
    ensures d !in SuccessionAt(tree, before, basePaths)(u)
  {
    hide Succession, Place;
    if u in tree.registry { JudgedRight(u, tree, before, basePaths); }
  }

  lemma NoneInRow(unit: string, row: Row, now: Owed, files: set<string>, d: Defect)
    requires IsOther(d)
    ensures d !in RowDefects(unit, row, now, files)
  {
    hide MovedDefects, Differs;
    MovedReported(unit, row.owed, now, d);
  }

  /** The other sections report none of these. */
  lemma NoneElsewhere(
    tree: Tree, before: Option<map<string, Row>>, basePaths: Option<map<string, set<string>>>, u: string, d: Defect
  )
    requires IsOther(d)
    ensures d !in SuccessionAt(tree, before, basePaths)(u) && d !in RowAt(tree)(u)
  {
    hide SuccessionAt, RowDefects, IsOther;
    NoneInSuccession(tree, before, basePaths, u, d);
    if u in tree.registry && u in tree.measured {
      NoneInRow(u, tree.registry[u], tree.measured[u], tree.files, d);
    }
  }

  lemma InSections(
    tree: Tree, units: seq<string>, before: Option<map<string, Row>>, basePaths: Option<map<string, set<string>>>,
    d: Defect
  )
    requires IsOther(d)
    ensures d in AllDefects(tree, units, before, basePaths) <==>
            || (exists u | u in units :: d in UnregisteredAt(tree)(u))
            || (exists u | u in units :: d in DeadAt(tree)(u))
            || (before.Some? && exists u | u in units :: d in ForgottenAt(tree, before.value)(u))
  {
    forall u ensures d !in SuccessionAt(tree, before, basePaths)(u) && d !in RowAt(tree)(u) {
      NoneElsewhere(tree, before, basePaths, u, d);
    }
    InGather(units, SuccessionAt(tree, before, basePaths), d);
    InGather(units, UnregisteredAt(tree), d);
    InGather(units, DeadAt(tree), d);
    InGather(units, RowAt(tree), d);
    if before.Some? { InGather(units, ForgottenAt(tree, before.value), d); }
    hide Gather, SuccessionAt, UnregisteredAt, DeadAt, RowAt, ForgottenAt, Added;
  }

  /** What is reported of reviews taken back, of units not registered and of rows no longer owed, exactly. */
  lemma ReportedIff(
    tree: Tree, units: seq<string>, before: Option<map<string, Row>>, basePaths: Option<map<string, set<string>>>,
    unit: string
  )
    requires Covers(units, tree)
    ensures Forgotten(unit) in AllDefects(tree, units, before, basePaths) <==>
            && before.Some? && unit in tree.registry && unit in before.value
            && before.value[unit].status != Unreviewed && tree.registry[unit].status == Unreviewed
    ensures Unregistered(unit) in AllDefects(tree, units, before, basePaths) <==>
            unit in tree.measured && unit !in tree.registry
    ensures NoLongerOwed(unit) in AllDefects(tree, units, before, basePaths) <==>
            unit in tree.registry && unit !in tree.measured
  {
    hide AllDefects;
    ForgottenReported(tree, units, before, basePaths, unit);
    PopulationReported(tree, units, before, basePaths, unit);
  }

  lemma ForgottenReported(
    tree: Tree, units: seq<string>, before: Option<map<string, Row>>, basePaths: Option<map<string, set<string>>>,
    unit: string
  )
    requires Covers(units, tree)
    ensures Forgotten(unit) in AllDefects(tree, units, before, basePaths) <==>
            before.Some? && IsForgotten(tree, before.value, unit)
  {
    InSections(tree, units, before, basePaths, Forgotten(unit));
    assert unit in tree.registry ==> unit in units;
    forall u ensures Forgotten(unit) !in UnregisteredAt(tree)(u) && Forgotten(unit) !in DeadAt(tree)(u) {
      PopulationSays(tree, u, Forgotten(unit));
    }
    if before.Some? {
      forall u
        ensures Forgotten(unit) in ForgottenAt(tree, before.value)(u) <==>
                u == unit && IsForgotten(tree, before.value, u)
      {
        ForgottenSays(tree, before.value, u, Forgotten(unit));
      }
    }
    hide AllDefects, UnregisteredAt, DeadAt, ForgottenAt, Covers;
  }

  lemma PopulationReported(
    tree: Tree, units: seq<string>, before: Option<map<string, Row>>, basePaths: Option<map<string, set<string>>>,
    unit: string
  )
    requires Covers(units, tree)
    ensures Unregistered(unit) in AllDefects(tree, units, before, basePaths) <==>
            unit in tree.measured && unit !in tree.registry
    ensures NoLongerOwed(unit) in AllDefects(tree, units, before, basePaths) <==>
            unit in tree.registry && unit !in tree.measured
  {
    var free, dead := Unregistered(unit), NoLongerOwed(unit);
    InSections(tree, units, before, basePaths, free);
    InSections(tree, units, before, basePaths, dead);
    assert unit in tree.registry || unit in tree.measured ==> unit in units;
    forall u
      ensures free in UnregisteredAt(tree)(u) <==> u == unit && u in tree.measured && u !in tree.registry
      ensures dead in DeadAt(tree)(u) <==> u == unit && u in tree.registry && u !in tree.measured
      ensures free !in DeadAt(tree)(u) && dead !in UnregisteredAt(tree)(u)
      ensures before.Some? ==>
                free !in ForgottenAt(tree, before.value)(u) && dead !in ForgottenAt(tree, before.value)(u)
    {
      PopulationSays(tree, u, free);
      PopulationSays(tree, u, dead);
      if before.Some? {
        ForgottenSays(tree, before.value, u, free);
        ForgottenSays(tree, before.value, u, dead);
      }
    }
    hide AllDefects, UnregisteredAt, DeadAt, ForgottenAt, Covers;
  }

  predicate IsForgotten(tree: Tree, before: map<string, Row>, unit: string) {
    && unit in tree.registry && unit in before
    && before[unit].status != Unreviewed && tree.registry[unit].status == Unreviewed
  }

  lemma PopulationSays(tree: Tree, u: string, d: Defect)
    ensures d in UnregisteredAt(tree)(u) <==> d == Unregistered(u) && u in tree.measured && u !in tree.registry
    ensures d in DeadAt(tree)(u) <==> d == NoLongerOwed(u) && u in tree.registry && u !in tree.measured
  {
  }

  lemma ForgottenSays(tree: Tree, before: map<string, Row>, u: string, d: Defect)
    ensures d in ForgottenAt(tree, before)(u) <==> d == Forgotten(u) && IsForgotten(tree, before, u)
  {
  }

  /** Growth is reported exactly when a row is new and no decomposition, and names all such rows. */
  lemma GrowthReportedIff(
    tree: Tree, units: seq<string>, before: map<string, Row>, basePaths: Option<map<string, set<string>>>, unit: string
  )
    ensures unit in Added(tree, before, basePaths) <==>
            unit in tree.registry && unit !in before && !IsDecomposition(unit, tree, Some(before), basePaths)
    ensures Added(tree, before, basePaths) != {} ==>
            GrewAgainstBase(Added(tree, before, basePaths)) in AllDefects(tree, units, Some(before), basePaths)
  {
    if unit in tree.registry { DecompositionIff(unit, tree, Some(before), basePaths); }
    var added := Added(tree, before, basePaths);
    hide Succession, IsDecomposition, Gather;
    assert added != {} ==> GrewAgainstBase(added) in Growth(tree, units, before, basePaths);
  }

  /** What is reported of a completed review: that it names no record, or one the tree does not hold. */
  lemma ReviewReportedIff(unit: string, row: Row, now: Owed, files: set<string>)
    ensures NoReviewRef(unit) in RowDefects(unit, row, now, files) <==> row.status != Unreviewed && row.reviewRef == ""
    ensures ReviewMissing(unit) in RowDefects(unit, row, now, files) <==>
            row.status != Unreviewed && row.reviewRef != "" && row.reviewRef !in files
  {
    hide MovedDefects;
    MovedReported(unit, row.owed, now, NoReviewRef(unit));
    MovedReported(unit, row.owed, now, ReviewMissing(unit));
  }
}
