/** The module-size ratchet: `check`, `validate_registry`, `check_transitions` and
    `check_baseline_growth`, and what they guarantee over a history of accepted merges. */
module SizeRatchet {
  import opened Wrappers
  import opened Sequences
  import opened PythonText

  type Bytes = seq<bv8>

  /** A reference to a review record: free text, and the documents it names. */
  datatype Ref = Ref(text: string, docs: seq<string>)

  /** One `[[debt]]` table; `extra` holds the fields no entry may have. */
  datatype Entry = Entry(
    baseline: Option<int>, sha: Option<string>, status: Option<string>, reviewRef: Option<Ref>,
    growthFrom: Option<int>, growthRef: Option<Ref>, extra: set<string>)

  type Registry = map<string, Entry>

  /** A revision: its production sources, its documents and its debt registry. */
  datatype Tree = Tree(sources: map<string, Bytes>, docs: map<string, string>, registry: Registry)

  datatype Field = BaselineProdLoc | BaselineSha | Status

  datatype Problem =
    | MissingField(rel: string, field: Field)
    | UnknownStatus(rel: string)
    | NoReviewRef(rel: string)
    | UnknownFields(rel: string)
    | RefNamesNothing(rel: string)
    | RefMissing(rel: string, doc: string)
    | StillRegistered(rel: string, prod: nat)
    | Unregistered(rel: string, prod: nat)
    | Grew(rel: string, from: int, prod: nat)
    | StaleEntry(rel: string)
    | BadTransition(rel: string, before: string, after: string)
    | HalfAuthorization(rel: string)
    | SpentAtCeiling(rel: string)
    | Unauthorized(rel: string, was: int, now: int)
    | WrongFrom(rel: string)
    | Headroom(rel: string, actual: nat)
    | NotAnException(rel: string)
    | GrowthRefNamesNothing(rel: string)
    | NoRecord(rel: string, line: string)

  const THRESHOLD := 200

  const UNREVIEWED := "unreviewed"
  const EXCEPTION := "reviewed-exception"
  const ACTION := "reviewed-action-required"

  predicate IsStatus(s: string) {
    s == UNREVIEWED || s == EXCEPTION || s == ACTION
  }

  predicate IsReviewed(s: string) {
    s == EXCEPTION || s == ACTION
  }

  /** `permitted_transition`, as the table of permitted pairs. */
  predicate PermittedTransition(was: string, now: string) {
    (was, now) in {
      (UNREVIEWED, UNREVIEWED), (UNREVIEWED, EXCEPTION), (UNREVIEWED, ACTION),
      (ACTION, ACTION), (ACTION, EXCEPTION), (EXCEPTION, EXCEPTION), (EXCEPTION, ACTION)
    }
  }

  function Get<T>(m: map<string, T>, rel: string): Option<T> {
    if rel in m then Some(m[rel]) else None
  }

  // ---- the authorization line ------------------------------------------------------------------

  function Decimal(n: int): string {
    if n < 0 then "-" + Natural(-n) else Natural(n)
  }

  function Natural(n: nat): (s: string)
    ensures s != ""
  {
    if n < 10 then ["0123456789"[n]] else Natural(n / 10) + ["0123456789"[n % 10]]
  }

  /** `growth_authorization_line` */
  function AuthorizationLine(rel: string, was: int, now: int): string {
    "growth-authorization: " + rel + " " + Decimal(was) + " -> " + Decimal(now)
  }

  // ---- what each check demands -----------------------------------------------------------------

  predicate ValidEntry(e: Entry, docs: map<string, string>) {
    && e.baseline.Some? && e.sha.Some? && e.status.Some? && IsStatus(e.status.value) && e.extra == {}
    && (IsReviewed(e.status.value) ==> e.reviewRef.Some? && e.reviewRef.value.text != "")
    && (e.reviewRef.Some? && e.reviewRef.value.text != "" ==>
          e.reviewRef.value.docs != [] && forall d | d in e.reviewRef.value.docs :: d in docs)
  }

  /** A source is small and unregistered, or large, registered and no larger than its baseline. */
  predicate SourceOk(prod: nat, entry: Option<Entry>) {
    if prod <= THRESHOLD then entry.None?
    else entry.Some? && entry.value.baseline.Some? && prod <= entry.value.baseline.value
  }

  /** An oversized source whose entry has no baseline makes `check` raise. */
  predicate Raises(prod: nat, entry: Option<Entry>) {
    prod > THRESHOLD && entry.Some? && entry.value.baseline.None?
  }

  predicate TransitionOk(before: Option<Entry>, now: Entry) {
    before.Some? && before.value.status.Some? && now.status.Some?
    && IsStatus(before.value.status.value) && IsStatus(now.status.value)
    ==> PermittedTransition(before.value.status.value, now.status.value)
  }

  /** The script's counting changed: the file did not, and the new baseline is its measurement. */
  predicate Corrected(e: Entry, actual: Option<nat>, same: bool)
    requires e.baseline.Some?
  {
    e.growthFrom.None? && actual.Some? && actual.value == e.baseline.value && same
  }

  /** Exactly this rise is on record for exactly this file. */
  predicate Authorized(rel: string, e: Entry, was: int, actual: Option<nat>, docs: map<string, string>)
    requires e.baseline.Some?
  {
    && e.growthFrom == Some(was)
    && (actual.Some? ==> actual.value == e.baseline.value)
    && e.status == Some(EXCEPTION)
    && e.growthRef.Some?
    && exists d | d in e.growthRef.value.docs ::
         d in docs && Contains(docs[d], AuthorizationLine(rel, was, e.baseline.value))
  }

  predicate GrowthOk(
    rel: string, e: Entry, before: Option<Entry>, actual: Option<nat>, docs: map<string, string>, same: bool
  )
  {
    && (e.growthFrom.Some? <==> e.growthRef.Some?)
    && (before.Some? && before.value.baseline.Some? && e.baseline.Some? ==>
          var was, now := before.value.baseline.value, e.baseline.value;
          if now <= was then e.growthFrom.Some? ==> e.growthFrom.value < now
          else Corrected(e, actual, same) || Authorized(rel, e, was, actual, docs))
  }

  // ---- the problems each check reports -----------------------------------------------------------

  function ValidateProblems(rel: string, e: Entry, docs: map<string, string>): seq<Problem> {
    MissingProblems(rel, e) + StatusProblems(rel, e) + RefProblems(rel, RefOf(e), docs)
  }

  /** What the entry cites for its review, an absent reference being empty. */
  function RefOf(e: Entry): Ref {
    if e.reviewRef.Some? then e.reviewRef.value else Ref("", [])
  }

  function MissingProblems(rel: string, e: Entry): seq<Problem> {
    When(e.baseline.None?, MissingField(rel, BaselineProdLoc))
    + When(e.sha.None?, MissingField(rel, BaselineSha))
    + When(e.status.None?, MissingField(rel, Status))
  }

  function StatusProblems(rel: string, e: Entry): seq<Problem> {
    When(e.status.Some? && !IsStatus(e.status.value), UnknownStatus(rel))
    + When(e.status.Some? && IsReviewed(e.status.value) && RefOf(e).text == "", NoReviewRef(rel))
    + When(e.extra != {}, UnknownFields(rel))
  }

  function RefProblems(rel: string, ref: Ref, docs: map<string, string>): seq<Problem> {
    When(ref.text != "" && ref.docs == [], RefNamesNothing(rel))
    + (if ref.text != "" then Gather(ref.docs, MissingAt(rel, docs)) else [])
  }

  function MissingAt(rel: string, docs: map<string, string>): string -> seq<Problem> {
    d => if d in docs then [] else [RefMissing(rel, d)]
  }

  function SourceProblems(rel: string, prod: nat, entry: Option<Entry>): seq<Problem> {
    if prod <= THRESHOLD then (if entry.Some? then [StillRegistered(rel, prod)] else [])
    else if entry.None? then [Unregistered(rel, prod)]
    else if Raises(prod, entry) then []
    else if prod > entry.value.baseline.value then [Grew(rel, entry.value.baseline.value, prod)]
    else []
  }

  function TransitionProblems(rel: string, before: Option<Entry>, now: Entry): seq<Problem> {
    if TransitionOk(before, now) then []
    else [BadTransition(rel, before.value.status.value, now.status.value)]
  }

  function GrowthProblems(
    rel: string, e: Entry, before: Option<Entry>, actual: Option<nat>, docs: map<string, string>, same: bool
  ): seq<Problem>
  {
    if e.growthFrom.Some? != e.growthRef.Some? then [HalfAuthorization(rel)]
    else if before.None? || e.baseline.None? || before.value.baseline.None? then []
    else
      var was, now := before.value.baseline.value, e.baseline.value;
      if now <= was then (if e.growthFrom.Some? && e.growthFrom.value >= now then [SpentAtCeiling(rel)] else [])
      else RiseProblems(rel, e, was, actual, docs, same)
  }

  /** A raised baseline: a measurement correction, or every condition of growth reported together. */
  function RiseProblems(
    rel: string, e: Entry, was: int, actual: Option<nat>, docs: map<string, string>, same: bool
  ): seq<Problem>
    requires e.baseline.Some? && e.growthFrom.Some? == e.growthRef.Some?
  {
    if Corrected(e, actual, same) then []
    else if e.growthFrom.None? then [Unauthorized(rel, was, e.baseline.value)]
    else
      When(e.growthFrom.value != was, WrongFrom(rel))
      + When(actual.Some? && actual.value != e.baseline.value, Headroom(rel, if actual.Some? then actual.value else 0))
      + When(e.status != Some(EXCEPTION), NotAnException(rel))
      + RecordProblems(rel, e.growthRef.value.docs, AuthorizationLine(rel, was, e.baseline.value), docs)
  }

  function RecordProblems(rel: string, named: seq<string>, want: string, docs: map<string, string>): seq<Problem> {
    if named == [] then [GrowthRefNamesNothing(rel)]
    else if exists d | d in named :: d in docs && Contains(docs[d], want) then []
    else [NoRecord(rel, want)]
  }

  // ---- what each problem says -------------------------------------------------------------------

  /** The problem is one of this source. */
  predicate SourceFault(p: Problem, rel: string, prod: nat, entry: Option<Entry>) {
    match p
    case StillRegistered(r, n) => r == rel && n == prod && prod <= THRESHOLD && entry.Some?
    case Unregistered(r, n) => r == rel && n == prod && prod > THRESHOLD && entry.None?
    case Grew(r, from, n) =>
      r == rel && n == prod > THRESHOLD && entry.Some? && entry.value.baseline == Some(from) && from < prod
    case _ => false
  }

  /** The problem is one of this entry's form. */
  predicate EntryFault(p: Problem, rel: string, e: Entry, docs: map<string, string>) {
    match p
    case MissingField(r, field) =>
      r == rel && (|| (field == BaselineProdLoc && e.baseline.None?) || (field == BaselineSha && e.sha.None?)
                   || (field == Status && e.status.None?))
    case UnknownStatus(r) => r == rel && e.status.Some? && !IsStatus(e.status.value)
    case NoReviewRef(r) => r == rel && e.status.Some? && IsReviewed(e.status.value) && !Cites(e.reviewRef)
    case UnknownFields(r) => r == rel && e.extra != {}
    case RefNamesNothing(r) => r == rel && Cites(e.reviewRef) && e.reviewRef.value.docs == []
    case RefMissing(r, d) => r == rel && Cites(e.reviewRef) && d in e.reviewRef.value.docs && d !in docs
    case _ => false
  }

  predicate Cites(ref: Option<Ref>) {
    ref.Some? && ref.value.text != ""
  }

  /** The problem is one of this entry's growth. */
  predicate GrowthFault(
    p: Problem, rel: string, e: Entry, before: Option<Entry>, actual: Option<nat>, docs: map<string, string>, same: bool
  )
  {
    if e.growthFrom.Some? != e.growthRef.Some? then p == HalfAuthorization(rel)
    else if before.None? || before.value.baseline.None? || e.baseline.None? then false
    else if e.baseline.value <= before.value.baseline.value then
      p == SpentAtCeiling(rel) && e.growthFrom.Some? && e.growthFrom.value >= e.baseline.value
    else RiseFault(p, rel, e, before.value.baseline.value, actual, docs, same)
  }

  predicate RiseFault(
    p: Problem, rel: string, e: Entry, was: int, actual: Option<nat>, docs: map<string, string>, same: bool
  )
    requires e.baseline.Some? && e.growthFrom.Some? == e.growthRef.Some?
  {
    match p
    case Unauthorized(r, w, n) =>
      r == rel && w == was && e.baseline == Some(n) && e.growthFrom.None? && !Corrected(e, actual, same)
    case WrongFrom(r) => r == rel && e.growthFrom.Some? && e.growthFrom.value != was
    case Headroom(r, a) => r == rel && e.growthFrom.Some? && actual == Some(a) && a != e.baseline.value
    case NotAnException(r) => r == rel && e.growthFrom.Some? && e.status != Some(EXCEPTION)
    case GrowthRefNamesNothing(r) => r == rel && e.growthFrom.Some? && e.growthRef.value.docs == []
    case NoRecord(r, line) =>
      && r == rel && e.growthFrom.Some? && e.growthRef.value.docs != []
      && line == AuthorizationLine(rel, was, e.baseline.value)
      && forall d | d in e.growthRef.value.docs :: d in docs ==> !Contains(docs[d], line)
    case _ => false
  }

  /** A source's problems are reported exactly, and none exactly when it is in order. */
  lemma SourceReported(rel: string, prod: nat, entry: Option<Entry>)
    requires !Raises(prod, entry)
    ensures forall p :: p in SourceProblems(rel, prod, entry) <==> SourceFault(p, rel, prod, entry)
    ensures SourceProblems(rel, prod, entry) == [] <==> SourceOk(prod, entry)
  {
  }

  lemma InWhen<R>(condition: bool, report: R, p: R)
    ensures p in When(condition, report) <==> condition && p == report
  {
  }

  lemma EntryReported(rel: string, e: Entry, docs: map<string, string>, p: Problem)
    ensures p in ValidateProblems(rel, e, docs) <==> EntryFault(p, rel, e, docs)
  {
    hide MissingProblems, StatusProblems, RefProblems, IsStatus, IsReviewed;
    FieldsReported(rel, e, p);
    RefReported(rel, RefOf(e), docs, p);
  }

  lemma FieldsReported(rel: string, e: Entry, p: Problem)
    ensures p in MissingProblems(rel, e) <==>
            || (p == MissingField(rel, BaselineProdLoc) && e.baseline.None?)
            || (p == MissingField(rel, BaselineSha) && e.sha.None?)
            || (p == MissingField(rel, Status) && e.status.None?)
    ensures p in StatusProblems(rel, e) <==>
            || (p == UnknownStatus(rel) && e.status.Some? && !IsStatus(e.status.value))
            || (p == NoReviewRef(rel) && e.status.Some? && IsReviewed(e.status.value) && RefOf(e).text == "")
            || (p == UnknownFields(rel) && e.extra != {})
  {
    hide IsStatus, IsReviewed;
  }

  lemma RefReported(rel: string, ref: Ref, docs: map<string, string>, p: Problem)
    ensures p in RefProblems(rel, ref, docs) <==>
            ref.text != "" && ((p == RefNamesNothing(rel) && ref.docs == []) ||
                               (p.RefMissing? && p.rel == rel && p.doc in ref.docs && p.doc !in docs))
  {
    InGather(ref.docs, MissingAt(rel, docs), p);
    hide Gather;
  }

  lemma RiseReported(
    rel: string, e: Entry, was: int, actual: Option<nat>, docs: map<string, string>, same: bool, p: Problem
  )
    requires e.baseline.Some? && e.growthFrom.Some? == e.growthRef.Some?
    ensures p in RiseProblems(rel, e, was, actual, docs, same) <==> RiseFault(p, rel, e, was, actual, docs, same)
  {
    hide AuthorizationLine, Contains, When;
    if e.growthFrom.Some? {
      InWhen(e.growthFrom.value != was, WrongFrom(rel), p);
      var measured := if actual.Some? then actual.value else 0;
      InWhen(actual.Some? && actual.value != e.baseline.value, Headroom(rel, measured), p);
      InWhen(e.status != Some(EXCEPTION), NotAnException(rel), p);
    }
  }

  lemma GrowthReported(
    rel: string, e: Entry, before: Option<Entry>, actual: Option<nat>, docs: map<string, string>, same: bool, p: Problem
  )
    ensures p in GrowthProblems(rel, e, before, actual, docs, same) <==>
            GrowthFault(p, rel, e, before, actual, docs, same)
  {
    hide RiseProblems, RiseFault;
    if e.growthFrom.Some? == e.growthRef.Some? && e.baseline.Some? && before.Some? && before.value.baseline.Some? {
      RiseReported(rel, e, before.value.baseline.value, actual, docs, same, p);
    }
  }

  /** Each check is silent exactly when what it demands holds. */
  lemma SilentWhenMet(
    rel: string, e: Entry, before: Option<Entry>, actual: Option<nat>, docs: map<string, string>, same: bool
  )
    ensures ValidateProblems(rel, e, docs) == [] <==> ValidEntry(e, docs)
    ensures TransitionProblems(rel, before, e) == [] <==> TransitionOk(before, e)
    ensures GrowthProblems(rel, e, before, actual, docs, same) == [] <==> GrowthOk(rel, e, before, actual, docs, same)
  {
    hide AuthorizationLine, Contains, PermittedTransition, Gather;
    if e.reviewRef.Some? { GatherEmpty(e.reviewRef.value.docs, MissingAt(rel, docs)); }
  }

  // ---- the checks as loops ---------------------------------------------------------------------

  /** The paths of a registry, or of the sources, each once and in the order they are read. */
  predicate Lists<T>(rels: seq<string>, m: map<string, T>) {
    Distinct(rels) && (forall rel | rel in rels :: rel in m) && forall rel | rel in m :: rel in rels
  }

  function ValidateAt(registry: Registry, docs: map<string, string>): string -> seq<Problem> {
    rel => if rel in registry then ValidateProblems(rel, registry[rel], docs) else []
  }

  function TransitionAt(previous: Registry, current: Registry): string -> seq<Problem> {
    rel => if rel in current then TransitionProblems(rel, Get(previous, rel), current[rel]) else []
  }

  function GrowthAt(
    previous: Registry, current: Registry, measured: map<string, nat>, docs: map<string, string>,
    untouched: set<string>
  )
    : string -> seq<Problem>
  {
    rel => if rel in current
      then GrowthProblems(rel, current[rel], Get(previous, rel), Get(measured, rel), docs, rel in untouched) else []
  }

  function SourceAt(measured: map<string, nat>, registry: Registry): string -> seq<Problem> {
    rel => if rel in measured then SourceProblems(rel, measured[rel], Get(registry, rel)) else []
  }

  function StaleAt(measured: map<string, nat>): string -> seq<Problem> {
    rel => if rel in measured then [] else [StaleEntry(rel)]
  }

  /** Path to production lines, for every source. */
  function Measured(sources: map<string, Bytes>, count: Bytes -> nat): map<string, nat> {
    map rel | rel in sources :: count(sources[rel])
  }

  lemma SourceAtIs(measured: map<string, nat>, registry: Registry, rel: string)
    requires rel in measured
    ensures SourceAt(measured, registry)(rel) == SourceProblems(rel, measured[rel], Get(registry, rel))
  {
  }

  /** One source in the loop of `check`; none if it raises. */
  method CheckSource(rel: string, prod: nat, entry: Option<Entry>) returns (found: Option<seq<Problem>>)
    ensures found.None? <==> Raises(prod, entry)
    ensures found.Some? ==> |found.value| <= 1 && forall p :: p in found.value <==> SourceFault(p, rel, prod, entry)
    ensures found.Some? ==> (found.value == [] <==> SourceOk(prod, entry))
  {
    if prod <= THRESHOLD { return Some(if entry.Some? then [StillRegistered(rel, prod)] else []); }
    if entry.None? { return Some([Unregistered(rel, prod)]); }
    if entry.value.baseline.None? { return None; }
    if prod > entry.value.baseline.value { return Some([Grew(rel, entry.value.baseline.value, prod)]); }
    return Some([]);
  }

  /** At most one problem, told by what it says. */
  lemma SameSource(rel: string, prod: nat, entry: Option<Entry>, found: seq<Problem>)
    requires !Raises(prod, entry) && |found| <= 1 && forall p :: p in found <==> SourceFault(p, rel, prod, entry)
    ensures found == SourceProblems(rel, prod, entry)
  {
    SourceReported(rel, prod, entry);
    var told := SourceProblems(rel, prod, entry);
    assert |told| <= 1;
    hide SourceProblems, SourceFault;
    if found != [] { assert found[0] in told; }
    if told != [] { assert told[0] in found; }
  }

  ghost predicate SomeRaises(tree: Tree, count: Bytes -> nat) {
    exists rel | rel in tree.sources :: Raises(count(tree.sources[rel]), Get(tree.registry, rel))
  }

  method MeasureSources(tree: Tree, paths: seq<string>, count: Bytes -> nat)
    returns (raised: bool, problems: seq<Problem>, measured: map<string, nat>)
    requires Lists(paths, tree.sources)
    ensures raised <==> SomeRaises(tree, count)
    ensures !raised ==> measured == Measured(tree.sources, count)
    ensures !raised ==> problems == Gather(paths, SourceAt(measured, tree.registry))
  {
    ghost var all := Measured(tree.sources, count);
    ghost var f := SourceAt(all, tree.registry);
    hide SourceProblems, Gather, SourceAt, Get, Raises, SourceFault;
    GatherNone(paths[..0], f);
    problems, measured := [], map[];
    for k := 0 to |paths|
      invariant problems == Gather(paths[..k], f)
      invariant forall j | 0 <= j < k :: !Raises(count(tree.sources[paths[j]]), Get(tree.registry, paths[j]))
      invariant forall j | 0 <= j < k :: paths[j] in measured
      invariant forall rel | rel in measured :: rel in all && measured[rel] == all[rel]
    {
      GatherNext(paths, k, f);
      var rel := paths[k];
      var prod := count(tree.sources[rel]);
      measured := measured[rel := prod];
      SourceAtIs(all, tree.registry, rel);
      var found := CheckSource(rel, prod, Get(tree.registry, rel));
      if found.None? { return true, [], map[]; }
      SameSource(rel, prod, Get(tree.registry, rel), found.value);
      problems := problems + found.value;
    }
    raised := false;
    assert paths[..|paths|] == paths;
    forall rel | rel in all ensures rel in measured && !Raises(count(tree.sources[rel]), Get(tree.registry, rel)) {
      var j :| 0 <= j < |paths| && paths[j] == rel;
    }
    assert measured == all;
  }

  /** `check`: it raises over an oversized source whose entry has no baseline; otherwise every problem of every
      source, and every stale entry, in order. */
  method Check(tree: Tree, paths: seq<string>, rels: seq<string>, count: Bytes -> nat)
    returns (raised: bool, problems: seq<Problem>, measured: map<string, nat>)
    requires Lists(paths, tree.sources) && Lists(rels, tree.registry)
    ensures raised <==> SomeRaises(tree, count)
    ensures !raised ==> measured == Measured(tree.sources, count)
    ensures !raised ==> problems == Gather(paths, SourceAt(measured, tree.registry)) + Gather(rels, StaleAt(measured))
  {
    hide SourceAt, Measured, Gather, SomeRaises;
    raised, problems, measured := MeasureSources(tree, paths, count);
    if raised { return; }
    ghost var g := StaleAt(measured);
    var stale := [];
    GatherNone(rels[..0], g);
    for k := 0 to |rels|
      invariant stale == Gather(rels[..k], g)
    {
      GatherNext(rels, k, g);
      if rels[k] !in measured { stale := stale + [StaleEntry(rels[k])]; }
    }
    assert rels[..|rels|] == rels;
    problems := problems + stale;
  }

  /** `check_transitions` */
  method CheckTransitions(previous: Registry, current: Registry, rels: seq<string>) returns (problems: seq<Problem>)
    requires Lists(rels, current)
    ensures problems == Gather(rels, TransitionAt(previous, current))
  {
    hide PermittedTransition;
    problems := [];
    var f := TransitionAt(previous, current);
    for k := 0 to |rels|
      invariant problems == Gather(rels[..k], f)
    {
      GatherNext(rels, k, f);
      var rel, entry := rels[k], current[rels[k]];
      var before := Get(previous, rel);
      if before.None? { continue; }
      var was, now := before.value.status, entry.status;
      if was.None? || now.None? || !IsStatus(was.value) || !IsStatus(now.value) { continue; }
      if !PermittedTransition(was.value, now.value) {
        problems := problems + [BadTransition(rel, was.value, now.value)];
      }
    }
    assert rels[..|rels|] == rels;
  }

  /** One entry in the loop of `check_baseline_growth`: exactly the faults it has, in order, and none exactly when
      its growth is in order. */
  method CheckEntryGrowth(
    rel: string, entry: Entry, before: Option<Entry>, actual: Option<nat>, docs: map<string, string>, same: bool
  ) returns (found: seq<Problem>)
    ensures found == GrowthProblems(rel, entry, before, actual, docs, same)
    ensures forall p :: p in found <==> GrowthFault(p, rel, entry, before, actual, docs, same)
    ensures found == [] <==> GrowthOk(rel, entry, before, actual, docs, same)
  {
    hide RiseProblems, GrowthFault, GrowthOk;
    SilentWhenMet(rel, entry, before, actual, docs, same);
    forall p
      ensures p in GrowthProblems(rel, entry, before, actual, docs, same) <==>
              GrowthFault(p, rel, entry, before, actual, docs, same)
    {
      GrowthReported(rel, entry, before, actual, docs, same, p);
    }
    found := [];
    var from, ref := entry.growthFrom, entry.growthRef;
    if from.None? != ref.None? { return [HalfAuthorization(rel)]; }
    if before.None? || entry.baseline.None? || before.value.baseline.None? { return; }
    var was, now := before.value.baseline.value, entry.baseline.value;
    if now <= was {
      if from.Some? && from.value >= now { found := [SpentAtCeiling(rel)]; }
      return;
    }
    found := CheckRise(rel, entry, was, actual, docs, same);
  }

  /** A raised baseline in that loop. */
  method CheckRise(
    rel: string, entry: Entry, was: int, actual: Option<nat>, docs: map<string, string>, same: bool
  ) returns (found: seq<Problem>)
    requires entry.baseline.Some? && entry.growthFrom.Some? == entry.growthRef.Some?
    ensures found == RiseProblems(rel, entry, was, actual, docs, same)
  {
    hide Contains, AuthorizationLine;
    found := [];
    var from, now := entry.growthFrom, entry.baseline.value;
    if from.None? && actual.Some? && actual.value == now && same { return; }
    if from.None? { return [Unauthorized(rel, was, now)]; }
    found := When(from.value != was, WrongFrom(rel));
    found := found + When(actual.Some? && actual.value != now, Headroom(rel, if actual.Some? then actual.value else 0));
    found := found + When(entry.status != Some(EXCEPTION), NotAnException(rel));
    var record := CheckRecord(rel, entry.growthRef.value.docs, AuthorizationLine(rel, was, now), docs);
    found := found + record;
  }

  /** The record of a raised baseline. */
  method CheckRecord(rel: string, named: seq<string>, want: string, docs: map<string, string>)
    returns (found: seq<Problem>)
    ensures found == RecordProblems(rel, named, want, docs)
    ensures found == [] <==> exists d | d in named :: d in docs && Contains(docs[d], want)
  {
    hide Contains;
    if named == [] { return [GrowthRefNamesNothing(rel)]; }
    var recorded := IsOnRecord(named, want, docs);
    return if recorded then [] else [NoRecord(rel, want)];
  }

  /** Some document named exists and contains the text. */
  method IsOnRecord(named: seq<string>, want: string, docs: map<string, string>) returns (found: bool)
    ensures found <==> exists d | d in named :: d in docs && Contains(docs[d], want)
  {
    hide Contains;
    for k := 0 to |named|
      invariant forall j | 0 <= j < k :: named[j] !in docs || !Contains(docs[named[j]], want)
    {
      if named[k] in docs && Contains(docs[named[k]], want) { return true; }
    }
    return false;
  }

  /** `check_baseline_growth` */
  method CheckBaselineGrowth(
    previous: Registry, current: Registry, rels: seq<string>, measured: map<string, nat>,
    docs: map<string, string>, untouched: set<string>
  ) returns (problems: seq<Problem>)
    requires Lists(rels, current)
    ensures problems == Gather(rels, GrowthAt(previous, current, measured, docs, untouched))
    ensures forall p :: p in problems <==>
              exists rel | rel in current ::
                GrowthFault(p, rel, current[rel], Get(previous, rel), Get(measured, rel), docs, rel in untouched)
  {
    hide GrowthProblems, GrowthFault, GrowthOk, Gather;
    GatherNone(rels[..0], GrowthAt(previous, current, measured, docs, untouched));
    problems := [];
    ghost var f := GrowthAt(previous, current, measured, docs, untouched);
    for k := 0 to |rels|
      invariant problems == Gather(rels[..k], f)
    {
      GatherNext(rels, k, f);
      var rel := rels[k];
      var found := CheckEntryGrowth(rel, current[rel], Get(previous, rel), Get(measured, rel), docs, rel in untouched);
      problems := problems + found;
    }
    assert rels[..|rels|] == rels;
    forall p ensures p in problems <==> exists rel | rel in current :: p in f(rel) { InGather(rels, f, p); }
    forall p, rel | rel in current
      ensures p in f(rel) <==>
              GrowthFault(p, rel, current[rel], Get(previous, rel), Get(measured, rel), docs, rel in untouched)
    {
      GrowthReported(rel, current[rel], Get(previous, rel), Get(measured, rel), docs, rel in untouched, p);
    }
  }

  /** One entry in the loop of `validate_registry`: exactly the faults it has, in order, and none exactly when it is
      well formed. */
  method ValidateOne(rel: string, e: Entry, docs: map<string, string>) returns (found: seq<Problem>)
    ensures found == ValidateProblems(rel, e, docs)
    ensures forall p :: p in found <==> EntryFault(p, rel, e, docs)
    ensures found == [] <==> ValidEntry(e, docs)
  {
    hide Gather, EntryFault, ValidEntry;
    SilentWhenMet(rel, e, None, None, docs, false);
    forall p ensures p in ValidateProblems(rel, e, docs) <==> EntryFault(p, rel, e, docs) {
      EntryReported(rel, e, docs, p);
    }
    var ref := RefOf(e);
    found := When(e.baseline.None?, MissingField(rel, BaselineProdLoc));
    found := found + When(e.sha.None?, MissingField(rel, BaselineSha));
    found := found + When(e.status.None?, MissingField(rel, Status));
    assert found == MissingProblems(rel, e);
    var status := When(e.status.Some? && !IsStatus(e.status.value), UnknownStatus(rel));
    status := status + When(e.status.Some? && IsReviewed(e.status.value) && ref.text == "", NoReviewRef(rel));
    status := status + When(e.extra != {}, UnknownFields(rel));
    var missing := [];
    if ref.text != "" { missing := MissingOf(rel, ref.docs, docs); }
    found := found + status + (When(ref.text != "" && ref.docs == [], RefNamesNothing(rel)) + missing);
  }

  method MissingOf(rel: string, named: seq<string>, docs: map<string, string>) returns (found: seq<Problem>)
    ensures found == Gather(named, MissingAt(rel, docs))
  {
    found := [];
    ghost var f := MissingAt(rel, docs);
    for j := 0 to |named|
      invariant found == Gather(named[..j], f)
    {
      GatherNext(named, j, f);
      if named[j] !in docs { found := found + [RefMissing(rel, named[j])]; }
    }
    assert named[..|named|] == named;
  }

  /** `validate_registry` */
  method ValidateRegistry(
    registry: Registry, rels: seq<string>, docs: map<string, string>
  ) returns (problems: seq<Problem>)
    requires Lists(rels, registry)
    ensures problems == Gather(rels, ValidateAt(registry, docs))
    ensures forall p :: p in problems <==> exists rel | rel in registry :: EntryFault(p, rel, registry[rel], docs)
  {
    hide ValidateProblems, EntryFault, ValidEntry, Gather;
    GatherNone(rels[..0], ValidateAt(registry, docs));
    problems := [];
    ghost var f := ValidateAt(registry, docs);
    for k := 0 to |rels|
      invariant problems == Gather(rels[..k], f)
    {
      GatherNext(rels, k, f);
      var found := ValidateOne(rels[k], registry[rels[k]], docs);
      problems := problems + found;
    }
    assert rels[..|rels|] == rels;
    forall p ensures p in problems <==> exists rel | rel in registry :: p in f(rel) { InGather(rels, f, p); }
    forall p, rel | rel in registry ensures p in f(rel) <==> EntryFault(p, rel, registry[rel], docs) {
      EntryReported(rel, registry[rel], docs, p);
    }
  }

  // ---- one run of the gate -----------------------------------------------------------------------

  /** `check` finds nothing: the registry describes the tree. */
  ghost predicate CheckOk(tree: Tree, count: Bytes -> nat) {
    && (forall rel | rel in tree.registry :: rel in tree.sources)
    && (forall rel | rel in tree.sources :: SourceOk(count(tree.sources[rel]), Get(tree.registry, rel)))
  }

  /** Something was examined, and the registry is well formed too. */
  ghost predicate TreeOk(tree: Tree, count: Bytes -> nat) {
    && tree.sources != map[] && CheckOk(tree, count)
    && forall rel | rel in tree.registry :: ValidEntry(tree.registry[rel], tree.docs)
  }

  /** The file is there in both revisions, byte for byte. */
  predicate Untouched(prev: Tree, tree: Tree, rel: string) {
    rel in prev.sources && rel in tree.sources && prev.sources[rel] == tree.sources[rel]
  }

  ghost predicate TransitionsOk(prev: Tree, tree: Tree, count: Bytes -> nat) {
    forall rel | rel in tree.registry ::
      var before := Get(prev.registry, rel);
      && TransitionOk(before, tree.registry[rel])
      && GrowthOk(rel, tree.registry[rel], before, Get(Measured(tree.sources, count), rel), tree.docs,
                  Untouched(prev, tree, rel))
  }

  /** A merge the gate lets through. */
  ghost predicate StepOk(prev: Tree, tree: Tree, count: Bytes -> nat) {
    TreeOk(tree, count) && TransitionsOk(prev, tree, count)
  }

  /** `main`, given the base revision if it can be read: exit status 0 exactly when the tree is in order
      and, against that base, every transition is. */
  method Gate(
    base: Option<Tree>, tree: Tree, paths: seq<string>, rels: seq<string>, count: Bytes -> nat
  ) returns (exit: int)
    requires Lists(paths, tree.sources) && Lists(rels, tree.registry)
    ensures exit == 0 || exit == 1
    ensures exit == 0 <==> TreeOk(tree, count) && (base.Some? ==> TransitionsOk(base.value, tree, count))
  {
    hide Gather, Measured, TreeOk, TransitionsOk, SomeRaises;
    var schema := ValidateRegistry(tree.registry, rels, tree.docs);
    var raised, problems, measured := Check(tree, paths, rels, count);
    if raised { RaisingIsNotOk(tree, count); return 1; }
    var moves, growth := [], [];
    if base.Some? {
      var untouched := set rel | rel in tree.sources && Untouched(base.value, tree, rel);
      moves := CheckTransitions(base.value.registry, tree.registry, rels);
      growth := CheckBaselineGrowth(base.value.registry, tree.registry, rels, measured, tree.docs, untouched);
      QuietMoves(base.value, tree, rels, count, untouched);
    }
    QuietTree(tree, paths, rels, count);
    assert schema + problems == [] <==> schema == [] && problems == [];
    if |paths| == 0 { return 1; }
    exit := if schema + problems + (moves + growth) == [] then 0 else 1;
  }

  lemma RaisingIsNotOk(tree: Tree, count: Bytes -> nat)
    requires SomeRaises(tree, count)
    ensures !TreeOk(tree, count)
  {
    var rel :| rel in tree.sources && Raises(count(tree.sources[rel]), Get(tree.registry, rel));
    assert !SourceOk(count(tree.sources[rel]), Get(tree.registry, rel));
  }

  lemma QuietTree(tree: Tree, paths: seq<string>, rels: seq<string>, count: Bytes -> nat)
    requires Lists(paths, tree.sources) && Lists(rels, tree.registry) && !SomeRaises(tree, count)
    ensures
      var measured := Measured(tree.sources, count);
      && (Gather(rels, ValidateAt(tree.registry, tree.docs)) == []
          && Gather(paths, SourceAt(measured, tree.registry)) + Gather(rels, StaleAt(measured)) == []
          && |paths| != 0
          <==> TreeOk(tree, count))
  {
    hide Gather, CheckOk, ValidEntry;
    QuietEntries(tree, rels);
    QuietCheck(tree, paths, rels, count);
    if |paths| != 0 { assert paths[0] in tree.sources; }
    if tree.sources != map[] { var rel :| rel in tree.sources; assert rel in paths; }
  }

  lemma QuietEntries(tree: Tree, rels: seq<string>)
    requires Lists(rels, tree.registry)
    ensures Gather(rels, ValidateAt(tree.registry, tree.docs)) == []
            <==> forall rel | rel in tree.registry :: ValidEntry(tree.registry[rel], tree.docs)
  {
    GatherEmpty(rels, ValidateAt(tree.registry, tree.docs));
    forall rel | rel in tree.registry
      ensures ValidateProblems(rel, tree.registry[rel], tree.docs) == [] <==> ValidEntry(tree.registry[rel], tree.docs)
    {
      SilentWhenMet(rel, tree.registry[rel], None, None, tree.docs, false);
    }
    hide Gather, ValidateProblems, ValidEntry;
  }

  lemma QuietCheck(tree: Tree, paths: seq<string>, rels: seq<string>, count: Bytes -> nat)
    requires Lists(paths, tree.sources) && Lists(rels, tree.registry) && !SomeRaises(tree, count)
    ensures
      var measured := Measured(tree.sources, count);
      Gather(paths, SourceAt(measured, tree.registry)) + Gather(rels, StaleAt(measured)) == [] <==> CheckOk(tree, count)
  {
    var measured := Measured(tree.sources, count);
    GatherEmpty(paths, SourceAt(measured, tree.registry));
    GatherEmpty(rels, StaleAt(measured));
    forall rel | rel in tree.sources
      ensures SourceProblems(rel, measured[rel], Get(tree.registry, rel)) == [] <==>
              SourceOk(measured[rel], Get(tree.registry, rel))
    {
      SourceReported(rel, measured[rel], Get(tree.registry, rel));
    }
    hide Gather, SourceProblems, SourceOk;
  }

  lemma QuietMoves(base: Tree, tree: Tree, rels: seq<string>, count: Bytes -> nat, untouched: set<string>)
    requires Lists(rels, tree.registry)
    requires untouched == set rel | rel in tree.sources && Untouched(base, tree, rel)
    ensures
      var growth := GrowthAt(base.registry, tree.registry, Measured(tree.sources, count), tree.docs, untouched);
      Gather(rels, TransitionAt(base.registry, tree.registry)) == [] && Gather(rels, growth) == []
      <==> TransitionsOk(base, tree, count)
  {
    var measured := Measured(tree.sources, count);
    GatherEmpty(rels, TransitionAt(base.registry, tree.registry));
    GatherEmpty(rels, GrowthAt(base.registry, tree.registry, measured, tree.docs, untouched));
    forall rel | rel in tree.registry
      ensures var e, before, actual := tree.registry[rel], Get(base.registry, rel), Get(measured, rel);
              && (TransitionProblems(rel, before, e) == [] <==> TransitionOk(before, e))
              && (GrowthProblems(rel, e, before, actual, tree.docs, rel in untouched) == []
                  <==> GrowthOk(rel, e, before, actual, tree.docs, Untouched(base, tree, rel)))
    {
      SilentWhenMet(rel, tree.registry[rel], Get(base.registry, rel), Get(measured, rel), tree.docs, rel in untouched);
    }
    hide Gather, GrowthProblems, GrowthOk, TransitionProblems, TransitionOk;
  }
}
