/** The obligation ratchet: `succession_defects` and `defects`, and what holds over every history of
    merges the gate accepts. */
module Obligations {
  import opened Wrappers
  import opened Sequences
  import opened PythonText

  datatype Severity = NoSeverity | Info | Low | Medium | High | Critical

  function Rank(s: Severity): nat {
    match s
    case NoSeverity => 0
    case Info => 1
    case Low => 2
    case Medium => 3
    case High => 4
    case Critical => 5
  }

  datatype Status = Unreviewed | ActionRequired | Exception

  /** What the assurance graph derives about a unit that owes. */
  datatype Owed = Owed(effective: Severity, direct: Severity, inherited: Severity, rootReachable: bool)

  /** A registry row; an absent reference is empty, and references are stripped of blanks. */
  datatype Row = Row(owed: Owed, status: Status, reviewRef: string, succeeds: string, decompositionRef: string)

  /** A revision: its registry, the units measured as owing, each unit's paths, and the files it holds. */
  datatype Tree = Tree(
    registry: map<string, Row>, measured: map<string, Owed>, paths: map<string, set<string>>, files: set<string>)

  datatype Field = Effective | Direct | Inherited | Reachability

  datatype Defect =
    | HalfSuccession(unit: string)
    | NoDecomposition(unit: string)
    | SucceedsItself(unit: string)
    | PredecessorOwes(unit: string)
    | BaseUnavailable(unit: string)
    | PredecessorUnknown(unit: string)
    | RaisedSeverity(unit: string)
    | PathsUnavailable(unit: string)
    | Widened(unit: string, paths: set<string>)
    | Unregistered(unit: string)
    | NoLongerOwed(unit: string)
    | Moved(unit: string, field: Field)
    | NoReviewRef(unit: string)
    | ReviewMissing(unit: string)
    | GrewAgainstBase(units: set<string>)
    | Forgotten(unit: string)

  function PathsOf(paths: map<string, set<string>>, unit: string): set<string> {
    if unit in paths then paths[unit] else {}
  }

  // ---- succession --------------------------------------------------------------------------------

  /** What one row of the registry gets from `succession_defects`. */
  datatype Outcome = Ordinary | Excused | Refused(defect: Defect)

  /** A row that neither claims a succession nor is new: its succession fields, if any, are provenance. */
  predicate ClaimsNothing(row: Row, unit: string, before: Option<map<string, Row>>) {
    || (row.succeeds == "" && row.decompositionRef == "")
    || (before.Some? && unit in before.value)
  }

  function Succession(
    unit: string, tree: Tree, before: Option<map<string, Row>>, basePaths: Option<map<string, set<string>>>
  ): Outcome
    requires unit in tree.registry
  {
    var row := tree.registry[unit];
    var predecessor := row.succeeds;
    if ClaimsNothing(row, unit, before) then Ordinary
    else if predecessor == "" || row.decompositionRef == "" then Refused(HalfSuccession(unit))
    else if row.decompositionRef !in tree.files then Refused(NoDecomposition(unit))
    else if predecessor == unit then Refused(SucceedsItself(unit))
    else if predecessor in tree.registry || predecessor in tree.measured then Refused(PredecessorOwes(unit))
    else if before.None? then Refused(BaseUnavailable(unit))
    else if predecessor !in before.value then Refused(PredecessorUnknown(unit))
    else if Rank(row.owed.effective) > Rank(before.value[predecessor].owed.effective) then Refused(RaisedSeverity(unit))
    else if basePaths.None? then Refused(PathsUnavailable(unit))
    else if PathsOf(tree.paths, unit) - PathsOf(basePaths.value, predecessor) != {} then
      Refused(Widened(unit, PathsOf(tree.paths, unit) - PathsOf(basePaths.value, predecessor)))
    else Excused
  }

  /** A row refines an obligation the base held, over the same code and at no higher a stake. */
  ghost predicate Refines(unit: string, tree: Tree, base: Tree)
    requires unit in tree.registry
  {
    RefinesRow(unit, tree, base.registry, base.paths)
  }

  predicate RefinesRow(unit: string, tree: Tree, before: map<string, Row>, basePaths: map<string, set<string>>)
    requires unit in tree.registry
  {
    var row := tree.registry[unit];
    && row.succeeds != "" && row.decompositionRef != "" && row.decompositionRef in tree.files
    && row.succeeds != unit && row.succeeds !in tree.registry && row.succeeds !in tree.measured
    && row.succeeds in before
    && Rank(row.owed.effective) <= Rank(before[row.succeeds].owed.effective)
    && PathsOf(tree.paths, unit) <= PathsOf(basePaths, row.succeeds)
  }

  /** What each defect of a succession says, whatever else is wrong with it. */
  predicate SuccessionFault(
    d: Defect, unit: string, tree: Tree, before: Option<map<string, Row>>, basePaths: Option<map<string, set<string>>>
  )
    requires unit in tree.registry
  {
    var row := tree.registry[unit];
    match d
    case HalfSuccession(u) => u == unit && (row.succeeds == "" || row.decompositionRef == "")
    case NoDecomposition(u) => u == unit && row.decompositionRef !in tree.files
    case SucceedsItself(u) => u == unit && row.succeeds == unit
    case PredecessorOwes(u) => u == unit && (row.succeeds in tree.registry || row.succeeds in tree.measured)
    case BaseUnavailable(u) => u == unit && before.None?
    case PredecessorUnknown(u) => u == unit && before.Some? && row.succeeds !in before.value
    case RaisedSeverity(u) =>
      u == unit && before.Some? && row.succeeds in before.value
      && Rank(row.owed.effective) > Rank(before.value[row.succeeds].owed.effective)
    case PathsUnavailable(u) => u == unit && basePaths.None?
    case Widened(u, paths) =>
      u == unit && basePaths.Some? && paths == PathsOf(tree.paths, unit) - PathsOf(basePaths.value, row.succeeds) != {}
    case _ => false
  }

  /** The order the clauses are tried in. */
  function Place(d: Defect): nat {
    match d
    case HalfSuccession(_) => 0
    case NoDecomposition(_) => 1
    case SucceedsItself(_) => 2
    case PredecessorOwes(_) => 3
    case BaseUnavailable(_) => 4
    case PredecessorUnknown(_) => 5
    case RaisedSeverity(_) => 6
    case PathsUnavailable(_) => 7
    case _ => 8
  }

  // ---- what the gate demands -----------------------------------------------------------------------

  predicate ReviewOk(row: Row, files: set<string>) {
    row.status != Unreviewed ==> row.reviewRef != "" && row.reviewRef in files
  }

  /** The row records what is owed now, and a completed review points at a record. */
  predicate RowOk(tree: Tree, unit: string) {
    && unit in tree.registry && unit in tree.measured
    && tree.registry[unit].owed == tree.measured[unit] && ReviewOk(tree.registry[unit], tree.files)
  }

  predicate Forgets(was: Row, now: Row) {
    was.status != Unreviewed && now.status == Unreviewed
  }

  /** The rows the base does not hold and no valid succession excuses. */
  function Added(tree: Tree, before: map<string, Row>, basePaths: Option<map<string, set<string>>>): set<string> {
    set unit | unit in tree.registry && unit !in before && !Succession(unit, tree, Some(before), basePaths).Excused?
  }

  ghost predicate Accepted(tree: Tree, before: Option<map<string, Row>>, basePaths: Option<map<string, set<string>>>) {
    && tree.registry.Keys == tree.measured.Keys
    && (forall unit | unit in tree.registry :: RowOk(tree, unit))
    && (forall unit | unit in tree.registry :: !Succession(unit, tree, before, basePaths).Refused?)
    && (before.Some? ==>
          && Added(tree, before.value, basePaths) == {}
          && forall unit | unit in tree.registry && unit in before.value ::
              !Forgets(before.value[unit], tree.registry[unit]))
  }

  // ---- what the gate reports -------------------------------------------------------------------------

  function SuccessionAt(tree: Tree, before: Option<map<string, Row>>, basePaths: Option<map<string, set<string>>>)
    : string -> seq<Defect>
  {
    unit =>
      if unit in tree.registry && Succession(unit, tree, before, basePaths).Refused?
      then [Succession(unit, tree, before, basePaths).defect] else []
  }

  function UnregisteredAt(tree: Tree): string -> seq<Defect> {
    unit => When(unit in tree.measured && unit !in tree.registry, Unregistered(unit))
  }

  function DeadAt(tree: Tree): string -> seq<Defect> {
    unit => When(unit in tree.registry && unit !in tree.measured, NoLongerOwed(unit))
  }

  function RowDefects(unit: string, row: Row, now: Owed, files: set<string>): seq<Defect> {
    MovedDefects(unit, row.owed, now) + ReviewDefects(unit, row, files)
  }

  function MovedDefects(unit: string, was: Owed, now: Owed): seq<Defect> {
    When(was.effective != now.effective, Moved(unit, Effective))
    + When(was.direct != now.direct, Moved(unit, Direct))
    + When(was.inherited != now.inherited, Moved(unit, Inherited))
    + When(was.rootReachable != now.rootReachable, Moved(unit, Reachability))
  }

  function ReviewDefects(unit: string, row: Row, files: set<string>): seq<Defect> {
    if row.status == Unreviewed then []
    else if row.reviewRef == "" then [NoReviewRef(unit)]
    else When(row.reviewRef !in files, ReviewMissing(unit))
  }

  function RowAt(tree: Tree): string -> seq<Defect> {
    unit => if unit in tree.registry && unit in tree.measured
      then RowDefects(unit, tree.registry[unit], tree.measured[unit], tree.files) else []
  }

  function ForgottenAt(tree: Tree, before: map<string, Row>): string -> seq<Defect> {
    unit => When(unit in tree.registry && unit in before && Forgets(before[unit], tree.registry[unit]), Forgotten(unit))
  }

  function Growth(
    tree: Tree, units: seq<string>, before: map<string, Row>, basePaths: Option<map<string, set<string>>>
  ): seq<Defect>
  {
    var added := Added(tree, before, basePaths);
    When(added != {}, GrewAgainstBase(added)) + Gather(units, ForgottenAt(tree, before))
  }

  /** Everything `defects` reports, section by section; `units` lists every unit in order. */
  function AllDefects(
    tree: Tree, units: seq<string>, before: Option<map<string, Row>>, basePaths: Option<map<string, set<string>>>
  ): seq<Defect>
  {
    Gather(units, SuccessionAt(tree, before, basePaths))
    + Gather(units, UnregisteredAt(tree)) + Gather(units, DeadAt(tree)) + Gather(units, RowAt(tree))
    + if before.Some? then Growth(tree, units, before.value, basePaths) else []
  }

  /** The units in order, each once. */
  ghost predicate Covers(units: seq<string>, tree: Tree) {
    IsSorted(units) && forall unit | unit in tree.registry || unit in tree.measured :: unit in units
  }

  lemma RowDefectsEmpty(unit: string, row: Row, now: Owed, files: set<string>)
    ensures RowDefects(unit, row, now, files) == [] <==> row.owed == now && ReviewOk(row, files)
  {
  }

  lemma QuietPopulation(tree: Tree, units: seq<string>)
    requires Covers(units, tree)
    ensures Gather(units, UnregisteredAt(tree)) == [] && Gather(units, DeadAt(tree)) == []
            <==> tree.registry.Keys == tree.measured.Keys
  {
    GatherEmpty(units, UnregisteredAt(tree));
    GatherEmpty(units, DeadAt(tree));
    hide Gather;
    if Gather(units, UnregisteredAt(tree)) == [] && Gather(units, DeadAt(tree)) == [] {
      forall unit | unit in tree.measured ensures unit in tree.registry { assert UnregisteredAt(tree)(unit) == []; }
      forall unit | unit in tree.registry ensures unit in tree.measured { assert DeadAt(tree)(unit) == []; }
    }
  }

  lemma RowAtEmpty(tree: Tree, unit: string)
    requires unit in tree.registry && unit in tree.measured
    ensures RowAt(tree)(unit) == [] <==> RowOk(tree, unit)
  {
    hide RowDefects, ReviewOk;
    RowDefectsEmpty(unit, tree.registry[unit], tree.measured[unit], tree.files);
  }

  lemma QuietRows(tree: Tree, units: seq<string>)
    requires Covers(units, tree) && tree.registry.Keys == tree.measured.Keys
    ensures Gather(units, RowAt(tree)) == [] <==> forall unit | unit in tree.registry :: RowOk(tree, unit)
  {
    hide Gather, RowOk, RowDefects;
    GatherEmpty(units, RowAt(tree));
    forall unit | unit in tree.registry ensures RowAt(tree)(unit) == [] <==> RowOk(tree, unit) {
      assert unit in tree.measured;
      RowAtEmpty(tree, unit);
    }
    forall unit | unit !in tree.registry ensures RowAt(tree)(unit) == [] {}
    hide RowAt;
  }

  lemma QuietSuccession(
    tree: Tree, units: seq<string>, before: Option<map<string, Row>>, basePaths: Option<map<string, set<string>>>
  )
    requires Covers(units, tree)
    ensures Gather(units, SuccessionAt(tree, before, basePaths)) == [] <==>
            forall unit | unit in tree.registry :: !Succession(unit, tree, before, basePaths).Refused?
  {
    GatherEmpty(units, SuccessionAt(tree, before, basePaths));
    hide Gather, Succession;
    if Gather(units, SuccessionAt(tree, before, basePaths)) == [] {
      forall unit | unit in tree.registry ensures !Succession(unit, tree, before, basePaths).Refused? {
        assert SuccessionAt(tree, before, basePaths)(unit) == [];
      }
    }
  }

  lemma QuietGrowth(
    tree: Tree, units: seq<string>, before: map<string, Row>, basePaths: Option<map<string, set<string>>>
  )
    requires Covers(units, tree)
    ensures Growth(tree, units, before, basePaths) == [] <==>
            Added(tree, before, basePaths) == {}
            && forall unit | unit in tree.registry && unit in before :: !Forgets(before[unit], tree.registry[unit])
  {
    GatherEmpty(units, ForgottenAt(tree, before));
    hide Gather, Added, Forgets;
    if Gather(units, ForgottenAt(tree, before)) == [] {
      forall unit | unit in tree.registry && unit in before ensures !Forgets(before[unit], tree.registry[unit]) {
        assert ForgottenAt(tree, before)(unit) == [];
      }
    }
  }

  /** The gate reports nothing exactly when the state is in order. */
  lemma SilentWhenAccepted(
    tree: Tree, units: seq<string>, before: Option<map<string, Row>>, basePaths: Option<map<string, set<string>>>
  )
    requires Covers(units, tree)
    ensures AllDefects(tree, units, before, basePaths) == [] <==> Accepted(tree, before, basePaths)
  {
    hide Gather, Growth, Succession, RowOk, Forgets, Added, Covers;
    QuietPopulation(tree, units);
    QuietSuccession(tree, units, before, basePaths);
    if tree.registry.Keys == tree.measured.Keys { QuietRows(tree, units); }
    if before.Some? { QuietGrowth(tree, units, before.value, basePaths); }
    hide SuccessionAt, UnregisteredAt, DeadAt, RowAt;
  }

  // ---- the gate as it runs -----------------------------------------------------------------------------

  /** One row in the loop of `succession_defects`.  It is excused exactly when it is new and refines an obligation of
      the base; a row that claims nothing is passed over; any other gets the first of its faults. */
  method JudgeRow(
    unit: string, tree: Tree, before: Option<map<string, Row>>, basePaths: Option<map<string, set<string>>>
  )
    returns (found: seq<Defect>, excused: bool)
    requires unit in tree.registry
    ensures found == SuccessionAt(tree, before, basePaths)(unit)
    ensures excused == Succession(unit, tree, before, basePaths).Excused?
    ensures excused <==>
            && before.Some? && basePaths.Some? && unit !in before.value
            && RefinesRow(unit, tree, before.value, basePaths.value)
    ensures found == [] <==> excused || ClaimsNothing(tree.registry[unit], unit, before)
    ensures |found| <= 1
    ensures forall d | d in found ::
              && SuccessionFault(d, unit, tree, before, basePaths)
              && forall other | SuccessionFault(other, unit, tree, before, basePaths) :: Place(d) <= Place(other)
  {
    JudgedRight(unit, tree, before, basePaths);
    hide SuccessionFault, Place, RefinesRow;
    found, excused := [], false;
    var row := tree.registry[unit];
    var predecessor, reference := row.succeeds, row.decompositionRef;
    if predecessor == "" && reference == "" { return; }
    if before.Some? && unit in before.value { return; }
    if predecessor == "" || reference == "" { return [HalfSuccession(unit)], false; }
    if reference !in tree.files { return [NoDecomposition(unit)], false; }
    if predecessor == unit { return [SucceedsItself(unit)], false; }
    if predecessor in tree.registry || predecessor in tree.measured { return [PredecessorOwes(unit)], false; }
    if before.None? { return [BaseUnavailable(unit)], false; }
    if predecessor !in before.value { return [PredecessorUnknown(unit)], false; }
    var ceiling := before.value[predecessor].owed.effective;
    if Rank(row.owed.effective) > Rank(ceiling) { return [RaisedSeverity(unit)], false; }
    if basePaths.None? { return [PathsUnavailable(unit)], false; }
    var widened := PathsOf(tree.paths, unit) - PathsOf(basePaths.value, predecessor);
    if widened != {} { return [Widened(unit, widened)], false; }
    excused := true;
  }

  lemma JudgedRight(
    unit: string, tree: Tree, before: Option<map<string, Row>>, basePaths: Option<map<string, set<string>>>
  )
    requires unit in tree.registry
    ensures var outcome := Succession(unit, tree, before, basePaths);
            && (outcome.Excused? <==>
                  && before.Some? && basePaths.Some? && unit !in before.value
                  && RefinesRow(unit, tree, before.value, basePaths.value))
            && (outcome.Ordinary? <==> ClaimsNothing(tree.registry[unit], unit, before))
            && (outcome.Refused? ==>
                  && SuccessionFault(outcome.defect, unit, tree, before, basePaths)
                  && forall other | SuccessionFault(other, unit, tree, before, basePaths) ::
                      Place(outcome.defect) <= Place(other))
  {
    if before.Some? && basePaths.Some? {
      var mine, theirs := PathsOf(tree.paths, unit), PathsOf(basePaths.value, tree.registry[unit].succeeds);
      assert mine == (mine - theirs) + (mine * theirs);
      assert mine - theirs == {} <==> mine <= theirs;
    }
  }

  lemma NotARow(tree: Tree, before: Option<map<string, Row>>, basePaths: Option<map<string, set<string>>>, unit: string)
    requires unit !in tree.registry
    ensures SuccessionAt(tree, before, basePaths)(unit) == []
  {
  }

  /** `succession_defects` */
  method SuccessionDefects(
    tree: Tree, units: seq<string>, before: Option<map<string, Row>>, basePaths: Option<map<string, set<string>>>
  )
    returns (found: seq<Defect>, excused: set<string>)
    requires Covers(units, tree)
    ensures found == Gather(units, SuccessionAt(tree, before, basePaths))
    ensures excused == set unit | unit in tree.registry && Succession(unit, tree, before, basePaths).Excused?
  {
    hide Succession, SuccessionAt, Gather;
    found, excused := [], {};
    ghost var f := SuccessionAt(tree, before, basePaths);
    GatherNone(units[..0], f);
    for k := 0 to |units|
      invariant found == Gather(units[..k], f)
      invariant forall unit | unit in excused ::
                unit in tree.registry && Succession(unit, tree, before, basePaths).Excused?
      invariant forall j | 0 <= j < k && units[j] in tree.registry ::
                  Succession(units[j], tree, before, basePaths).Excused? ==> units[j] in excused
    {
      GatherNext(units, k, f);
      var unit := units[k];
      if unit in tree.registry {
        var defect, ok := JudgeRow(unit, tree, before, basePaths);
        found := found + defect;
        if ok { excused := excused + {unit}; }
      } else {
        NotARow(tree, before, basePaths, unit);
      }
    }
    assert units[..|units|] == units;
    forall unit | unit in tree.registry && Succession(unit, tree, before, basePaths).Excused? ensures unit in excused {
      assert unit in units;
      var j :| 0 <= j < |units| && units[j] == unit;
    }
  }

  /** The units that owe and are not registered. */
  method ReportUnregistered(tree: Tree, units: seq<string>) returns (found: seq<Defect>)
    ensures found == Gather(units, UnregisteredAt(tree))
  {
    found := [];
    for k := 0 to |units|
      invariant found == Gather(units[..k], UnregisteredAt(tree))
    {
      GatherNext(units, k, UnregisteredAt(tree));
      if units[k] in tree.measured && units[k] !in tree.registry { found := found + [Unregistered(units[k])]; }
    }
    assert units[..|units|] == units;
  }

  /** The rows whose obligation is no longer owed. */
  method ReportDead(tree: Tree, units: seq<string>) returns (found: seq<Defect>)
    ensures found == Gather(units, DeadAt(tree))
  {
    found := [];
    for k := 0 to |units|
      invariant found == Gather(units[..k], DeadAt(tree))
    {
      GatherNext(units, k, DeadAt(tree));
      if units[k] in tree.registry && units[k] !in tree.measured { found := found + [NoLongerOwed(units[k])]; }
    }
    assert units[..|units|] == units;
  }

  /** What the row records against what is owed now, field by field. */
  method CheckOwed(unit: string, was: Owed, now: Owed) returns (found: seq<Defect>)
    ensures found == MovedDefects(unit, was, now)
    ensures forall d :: d in found <==> d.Moved? && d.unit == unit && Differs(was, now, d.field)
  {
    var effective, direct, inherited, reachable := [], [], [], [];
    if was.effective != now.effective { effective := [Moved(unit, Effective)]; }
    if was.direct != now.direct { direct := [Moved(unit, Direct)]; }
    if was.inherited != now.inherited { inherited := [Moved(unit, Inherited)]; }
    if was.rootReachable != now.rootReachable { reachable := [Moved(unit, Reachability)]; }
    found := effective + direct + inherited + reachable;
    assert found == MovedDefects(unit, was, now);
    hide MovedDefects;
    forall d ensures d in found <==> d.Moved? && d.unit == unit && Differs(was, now, d.field) {
      MovedReported(unit, was, now, d);
    }
  }

  lemma MovedReported(unit: string, was: Owed, now: Owed, d: Defect)
    ensures d in MovedDefects(unit, was, now) <==> d.Moved? && d.unit == unit && Differs(was, now, d.field)
  {
    if d.Moved? {
      assert d == Moved(d.unit, d.field);
      match d.field
      case Effective =>
      case Direct =>
      case Inherited =>
      case Reachability =>
    }
  }

  predicate Differs(was: Owed, now: Owed, field: Field) {
    match field
    case Effective => was.effective != now.effective
    case Direct => was.direct != now.direct
    case Inherited => was.inherited != now.inherited
    case Reachability => was.rootReachable != now.rootReachable
  }

  /** One row against what is owed now, and its review. */
  method CheckRow(unit: string, row: Row, now: Owed, files: set<string>) returns (found: seq<Defect>)
    ensures found == RowDefects(unit, row, now, files)
    ensures found == [] <==> row.owed == now && ReviewOk(row, files)
  {
    RowDefectsEmpty(unit, row, now, files);
    hide MovedDefects, Differs, ReviewOk;
    found := CheckOwed(unit, row.owed, now);
    if row.status != Unreviewed {
      if row.reviewRef == "" {
        found := found + [NoReviewRef(unit)];
      } else if row.reviewRef !in files {
        found := found + [ReviewMissing(unit)];
      }
    }
  }

  method ReportRows(tree: Tree, units: seq<string>) returns (found: seq<Defect>)
    ensures found == Gather(units, RowAt(tree))
  {
    hide RowDefects, ReviewOk;
    found := [];
    for k := 0 to |units|
      invariant found == Gather(units[..k], RowAt(tree))
    {
      GatherNext(units, k, RowAt(tree));
      if units[k] in tree.registry && units[k] in tree.measured {
        var defects := CheckRow(units[k], tree.registry[units[k]], tree.measured[units[k]], tree.files);
        found := found + defects;
      }
    }
    assert units[..|units|] == units;
  }

  /** The rows whose review was taken back. */
  method ReportForgotten(tree: Tree, units: seq<string>, before: map<string, Row>) returns (found: seq<Defect>)
    ensures found == Gather(units, ForgottenAt(tree, before))
  {
    found := [];
    for k := 0 to |units|
      invariant found == Gather(units[..k], ForgottenAt(tree, before))
    {
      GatherNext(units, k, ForgottenAt(tree, before));
      if units[k] in tree.registry && units[k] in before {
        var was, now := before[units[k]].status, tree.registry[units[k]].status;
        if now == Unreviewed && was != Unreviewed { found := found + [Forgotten(units[k])]; }
      }
    }
    assert units[..|units|] == units;
  }

  /** `defects`: nothing is found exactly when the state is accepted. */
  method Defects(
    tree: Tree, units: seq<string>, before: Option<map<string, Row>>, basePaths: Option<map<string, set<string>>>
  )
    returns (found: seq<Defect>)
    requires Covers(units, tree)
    ensures found == AllDefects(tree, units, before, basePaths)
    ensures found == [] <==> Accepted(tree, before, basePaths)
  {
    hide Succession, Gather, Accepted, Covers;
    SilentWhenAccepted(tree, units, before, basePaths);
    var succession, excused := SuccessionDefects(tree, units, before, basePaths);
    var unregistered := ReportUnregistered(tree, units);
    var dead := ReportDead(tree, units);
    var rows := ReportRows(tree, units);
    found := succession + unregistered + dead + rows;
    if before.None? { return; }
    var added := tree.registry.Keys - before.value.Keys - excused;
    assert added == Added(tree, before.value, basePaths);
    var forgotten := ReportForgotten(tree, units, before.value);
    var grown := if added != {} then [GrewAgainstBase(added)] else [];
    found := found + (grown + forgotten);
  }

  /** A row whose succession is refused is never excused: against an available base the growth rule names
      it as well. */
  lemma RefusedRowsStillCountAsGrowth(
    tree: Tree, units: seq<string>, before: map<string, Row>, basePaths: Option<map<string, set<string>>>,
    unit: string
  )
    requires unit in tree.registry && Succession(unit, tree, Some(before), basePaths).Refused?
    ensures unit in Added(tree, before, basePaths)
    ensures GrewAgainstBase(Added(tree, before, basePaths)) in AllDefects(tree, units, Some(before), basePaths)
  {
    var added := Added(tree, before, basePaths);
    assert unit in added;
    hide Gather;
    assert GrewAgainstBase(added) in Growth(tree, units, before, basePaths);
  }

  /** The gate is stable: whatever base a state was accepted against, it is accepted with itself as the
      base, so a merged succession is never refused later. */
  lemma AcceptedStatesStayAccepted(
    tree: Tree, before: Option<map<string, Row>>, basePaths: Option<map<string, set<string>>>,
    laterPaths: Option<map<string, set<string>>>
  )
    requires Accepted(tree, before, basePaths)
    ensures Accepted(tree, Some(tree.registry), laterPaths)
  {
    hide RowOk;
    forall unit | unit in tree.registry ensures Succession(unit, tree, Some(tree.registry), laterPaths) == Ordinary {}
    assert Added(tree, tree.registry, laterPaths) == {};
  }

  // ---- over a history of merges ----------------------------------------------------------------------------

  ghost predicate Merged(base: Tree, tree: Tree) {
    Accepted(tree, Some(base.registry), Some(base.paths))
  }

  /** Every row of a merged state was there before or refines one that was. */
  lemma NewRowsRefine(base: Tree, tree: Tree, unit: string)
    requires Merged(base, tree) && unit in tree.registry && unit !in base.registry
    ensures Refines(unit, tree, base)
  {
    hide RowOk, Succession, RefinesRow;
    assert unit !in Added(tree, base.registry, Some(base.paths));
    JudgedRight(unit, tree, Some(base.registry), Some(base.paths));
  }

  /** Where a row comes from, one merge back. */
  function Parent(base: Tree, tree: Tree, unit: string): string
    requires unit in tree.registry
  {
    if unit in base.registry then unit else tree.registry[unit].succeeds
  }

  lemma ParentIsRegistered(base: Tree, tree: Tree, unit: string)
    requires Merged(base, tree) && unit in tree.registry
    ensures Parent(base, tree, unit) in base.registry
  {
    hide Merged;
    if unit !in base.registry { NewRowsRefine(base, tree, unit); }
  }

  ghost predicate History(states: seq<Tree>) {
    states != [] && forall k | 0 <= k < |states| - 1 :: MergedAt(states, k)
  }

  ghost predicate MergedAt(states: seq<Tree>, k: nat)
    requires k + 1 < |states|
  {
    Merged(states[k], states[k + 1])
  }

  /** A line of descent: at each merge the row persists, or is new and succeeds the one before it. */
  ghost predicate IsDescent(states: seq<Tree>, chain: seq<string>) {
    && 0 < |chain| <= |states|
    && (forall k | 0 <= k < |chain| :: chain[k] in states[k].registry)
    && (forall k | 0 < k < |chain| :: DescendsAt(states, chain, k))
  }

  ghost predicate DescendsAt(states: seq<Tree>, chain: seq<string>, k: nat)
    requires 0 < k < |chain| <= |states| && chain[k] in states[k].registry
  {
    if chain[k] in states[k - 1].registry then chain[k] == chain[k - 1]
    else Refines(chain[k], states[k], states[k - 1]) && states[k].registry[chain[k]].succeeds == chain[k - 1]
  }

  /** Debt is never invented: every row of every state descends, merge by merge, from a row of the first. */
  lemma {:induction false} EveryRowDescends(states: seq<Tree>, k: nat, unit: string) returns (chain: seq<string>)
    requires History(states) && k < |states| && unit in states[k].registry
    ensures IsDescent(states, chain) && |chain| == k + 1 && chain[k] == unit && chain[0] in states[0].registry
    decreases k
  {
    hide Merged, Refines;
    if k == 0 {
      return [unit];
    }
    assert MergedAt(states, k - 1);
    var parent := Parent(states[k - 1], states[k], unit);
    ParentIsRegistered(states[k - 1], states[k], unit);
    if unit !in states[k - 1].registry { NewRowsRefine(states[k - 1], states[k], unit); }
    var front := EveryRowDescends(states, k - 1, parent);
    chain := front + [unit];
    forall j | 0 < j < |chain| ensures DescendsAt(states, chain, j) {
      if j < k { assert DescendsAt(states, front, j); }
    }
  }

  /** What is registered is what is owed, at every merged state. */
  lemma RegisteredIsOwing(states: seq<Tree>, k: nat)
    requires History(states) && 0 < k < |states|
    ensures states[k].registry.Keys == states[k].measured.Keys
  {
    assert MergedAt(states, k - 1);
  }

  /** Once the registry is empty nothing can owe again. */
  lemma {:induction false} EmptyStaysEmpty(states: seq<Tree>, i: nat, k: nat)
    requires History(states) && i <= k < |states| && states[i].registry == map[]
    ensures states[k].registry == map[]
    ensures i < k ==> states[k].measured == map[]
    decreases k
  {
    hide Merged;
    if i == k {
    } else {
      EmptyStaysEmpty(states, i, k - 1);
      RegisteredIsOwing(states, k);
      assert MergedAt(states, k - 1);
      forall unit | unit in states[k].registry ensures false {
        ParentIsRegistered(states[k - 1], states[k], unit);
      }
    }
  }

  /** A succession is spent by its merge: while its predecessor stays out of the registry, no later row can
      be new on the strength of it. */
  lemma SuccessionIsSpent(states: seq<Tree>, k: nat, unit: string, predecessor: string)
    requires History(states) && k + 1 < |states| && unit in states[k + 1].registry
    requires predecessor !in states[k].registry && states[k + 1].registry[unit].succeeds == predecessor
    ensures unit in states[k].registry
  {
    assert MergedAt(states, k);
    hide Merged;
    if unit !in states[k].registry { NewRowsRefine(states[k], states[k + 1], unit); }
  }

  // ---- the stake does not rise -----------------------------------------------------------------------------

  function Stake(tree: Tree, unit: string): nat
    requires unit in tree.registry
  {
    Rank(tree.registry[unit].owed.effective)
  }

  ghost predicate Within(tree: Tree, unit: string, base: Tree, parent: string)
    requires unit in tree.registry && parent in base.registry
  {
    Stake(tree, unit) <= Stake(base, parent) && PathsOf(tree.paths, unit) <= PathsOf(base.paths, parent)
  }

  /** Rows that persist over the merge neither raise their severity nor widen their paths. */
  ghost predicate PersistingStayWithin(base: Tree, tree: Tree) {
    forall unit | unit in base.registry && unit in tree.registry :: Within(tree, unit, base, unit)
  }

  /** A merge keeps every row within its parent exactly when it keeps the persisting ones: successions can
      not raise the stake, but the gate lets a persisting row move with what is measured. */
  lemma MergeKeepsStakeIff(base: Tree, tree: Tree)
    requires Merged(base, tree)
    ensures PersistingStayWithin(base, tree) <==>
            forall unit | unit in tree.registry ::
              Parent(base, tree, unit) in base.registry && Within(tree, unit, base, Parent(base, tree, unit))
  {
    hide Merged;
    forall unit | unit in tree.registry && unit !in base.registry ensures Refines(unit, tree, base) {
      NewRowsRefine(base, tree, unit);
    }
    if forall unit | unit in tree.registry ::
      Parent(base, tree, unit) in base.registry && Within(tree, unit, base, Parent(base, tree, unit))
    {
      forall unit | unit in base.registry && unit in tree.registry ensures Within(tree, unit, base, unit) {
        assert Parent(base, tree, unit) == unit;
      }
    }
  }

  /** However many decompositions lie between, a row's severity and paths stay within those of its ancestor
      in the first registry. */
  lemma {:induction false} StakeStaysWithinAncestor(states: seq<Tree>, k: nat, chain: seq<string>)
    requires History(states) && IsDescent(states, chain) && k < |chain|
    requires forall j | 0 < j <= k :: PersistingStayWithin(states[j - 1], states[j])
    ensures Within(states[k], chain[k], states[0], chain[0])
    decreases k
  {
    hide Merged;
    if k == 0 {
    } else {
      StakeStaysWithinAncestor(states, k - 1, chain);
      assert PersistingStayWithin(states[k - 1], states[k]);
      assert DescendsAt(states, chain, k);
      assert Within(states[k], chain[k], states[k - 1], chain[k - 1]);
    }
  }

  /** Without that hypothesis the stake can rise: the gate accepts a row whose severity was raised together
      with what is measured. */
  lemma AcceptedRowCanRise() returns (base: Tree, tree: Tree)
    ensures Merged(base, base) && Merged(base, tree) && !PersistingStayWithin(base, tree)
    ensures exists unit | unit in base.registry && unit in tree.registry :: Stake(tree, unit) > Stake(base, unit)
  {
    var low, high := Owed(Medium, Medium, NoSeverity, false), Owed(Critical, Critical, NoSeverity, false);
    base := Tree(map["u" := Row(low, Unreviewed, "", "", "")], map["u" := low], map["u" := {"src"}], {});
    tree := Tree(map["u" := Row(high, Unreviewed, "", "", "")], map["u" := high], map["u" := {"src"}], {});
    assert Added(tree, base.registry, Some(base.paths)) == {} && Added(base, base.registry, Some(base.paths)) == {};
    assert "u" in base.registry && Stake(tree, "u") > Stake(base, "u");
  }

  /** And it can widen: the gate accepts a row, recorded as it was, whose unit now covers any further path. */
  lemma AcceptedRowCanWiden(path: string) returns (base: Tree, tree: Tree)
    requires path != "src"
    ensures Merged(base, base) && Merged(base, tree) && !PersistingStayWithin(base, tree)
    ensures base.registry == tree.registry && base.measured == tree.measured
    ensures exists unit | unit in base.registry :: path in PathsOf(tree.paths, unit) - PathsOf(base.paths, unit)
  {
    var owed := Owed(Medium, Medium, NoSeverity, false);
    base := Tree(map["u" := Row(owed, Unreviewed, "", "", "")], map["u" := owed], map["u" := {"src"}], {});
    tree := base.(paths := map["u" := {"src", path}]);
    assert Added(tree, base.registry, Some(base.paths)) == {} && Added(base, base.registry, Some(base.paths)) == {};
    assert "u" in base.registry && path in PathsOf(tree.paths, "u") - PathsOf(base.paths, "u");
    assert !Within(tree, "u", base, "u");
  }
}
