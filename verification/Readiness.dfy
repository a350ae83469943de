/** `merge_readiness_gate`: which units a change affects, which checks that requires, and what the check
    runs at the candidate commit say about them. */
module Readiness {
  import opened Wrappers
  import opened Sequences
  import opened PythonText

  datatype Unit = Unit(id: string, paths: seq<string>, lanes: set<string>)

  datatype Edge = Edge(kind: string, source: string, target: string)

  /** A workflow job: the name its check is reported under, and the scripts it invokes. */
  datatype Job = Job(name: string, invoked: set<string>)

  /** A check run; an absent status, conclusion or start time is empty. */
  datatype Run = Run(name: string, headSha: string, status: string, conclusion: string, startedAt: string)

  /** What the gate derives its requirements from: the candidate's units and edges, the workspace build
      inputs, the lane scripts and jobs, and the checks the branch ruleset requires. */
  datatype Estate = Estate(
    units: seq<Unit>, edges: seq<Edge>, inputs: set<string>, scripts: map<string, string>, jobs: seq<Job>,
    ruleset: set<string>)

  datatype Answer<+T> = Decided(value: T) | Undecidable

  datatype State = Ready | NotReady | Failed

  const UMBRELLA := "tools/verification/verify"
  const MALFORMED := "<malformed-evidence-uri>"

  predicate IsPrerequisite(kind: string) {
    kind in {"PROOF_DEPENDENCY", "CONTRACT_CONSUMES", "COMPILE_DEPENDENCY"}
  }

  predicate IsFailing(conclusion: string) {
    conclusion in {"failure", "timed_out", "action_required", "startup_failure"}
  }

  // ---- affected units --------------------------------------------------------------------------

  predicate StartsWith(s: string, prefix: string) {
    prefix <= s
  }

  function TrimSlashes(s: string): string {
    if s != "" && s[|s| - 1] == '/' then TrimSlashes(s[..|s| - 1]) else s
  }

  predicate Touches(path: string, changed: set<string>) {
    exists c | c in changed :: c == path || StartsWith(c, TrimSlashes(path) + "/")
  }

  predicate IsHit(unit: Unit, changed: set<string>) {
    exists k | 0 <= k < |unit.paths| :: Touches(unit.paths[k], changed)
  }

  /** A build input, the verification tooling or its policy changed: every unit is affected. */
  predicate Widens(changed: set<string>, inputs: set<string>) {
    exists c | c in changed ::
      c in inputs || StartsWith(c, "tools/verification/") || StartsWith(c, "verification/policy/")
  }

  function Ids(units: seq<Unit>): set<string> {
    set k | 0 <= k < |units| :: units[k].id
  }

  function Hits(units: seq<Unit>, changed: set<string>): set<string> {
    set k | 0 <= k < |units| && IsHit(units[k], changed) :: units[k].id
  }

  function Targets(edges: seq<Edge>): set<string> {
    set k | 0 <= k < |edges| :: edges[k].target
  }

  predicate Carries(edge: Edge, s: set<string>) {
    IsPrerequisite(edge.kind) && edge.source in s
  }

  /** Prerequisite edges lead out of the set to nothing. */
  predicate Closed(s: set<string>, edges: seq<Edge>) {
    forall k | 0 <= k < |edges| :: Carries(edges[k], s) ==> edges[k].target in s
  }

  /** `s` is the least set that contains `start` and is closed under prerequisite edges. */
  ghost predicate IsLeastClosed(s: set<string>, start: set<string>, edges: seq<Edge>) {
    start <= s && Closed(s, edges) && forall t: set<string> | start <= t && Closed(t, edges) :: s <= t
  }

  /** The units a change affects, told without an algorithm. */
  ghost predicate IsAffected(s: set<string>, e: Estate, changed: set<string>) {
    if Widens(changed, e.inputs) then s == Ids(e.units) else IsLeastClosed(s, Hits(e.units, changed), e.edges)
  }

  /** One sweep of the fixpoint loop over the edges. */
  method Sweep(edges: seq<Edge>, from: set<string>) returns (hit: set<string>, grew: bool)
    ensures from <= hit <= from + Targets(edges)
    ensures forall t: set<string> | from <= t && Closed(t, edges) :: hit <= t
    ensures grew <==> hit != from
    ensures !grew ==> Closed(hit, edges)
  {
    hide IsPrerequisite;
    hit, grew := from, false;
    for k := 0 to |edges|
      invariant from <= hit <= from + Targets(edges)
      invariant forall t: set<string> | from <= t && Closed(t, edges) :: hit <= t
      invariant grew <==> hit != from
      invariant !grew ==> forall j | 0 <= j < k :: Carries(edges[j], hit) ==> edges[j].target in hit
    {
      if Carries(edges[k], hit) && edges[k].target !in hit {
        hit, grew := hit + {edges[k].target}, true;
      }
    }
  }

  /** `affected_units` */
  method AffectedUnits(e: Estate, changed: set<string>) returns (hit: set<string>)
    ensures IsAffected(hit, e, changed)
  {
    if Widens(changed, e.inputs) { return Ids(e.units); }
    hit := {};
    for k := 0 to |e.units|
      invariant hit == Hits(e.units[..k], changed)
    {
      HitsNext(e.units, k, changed);
      if IsHit(e.units[k], changed) { hit := hit + {e.units[k].id}; }
    }
    assert e.units[..|e.units|] == e.units;
    ghost var start, universe := hit, hit + Targets(e.edges);
    var grew := true;
    while grew
      invariant start <= hit <= universe
      invariant forall t: set<string> | start <= t && Closed(t, e.edges) :: hit <= t
      invariant !grew ==> Closed(hit, e.edges)
      decreases universe - hit, grew
    {
      hit, grew := Sweep(e.edges, hit);
    }
  }

  lemma HitsNext(units: seq<Unit>, k: nat, changed: set<string>)
    requires k < |units|
    ensures Hits(units[..k + 1], changed) ==
            Hits(units[..k], changed) + if IsHit(units[k], changed) then {units[k].id} else {}
  {
    hide IsHit;
    assert forall j | 0 <= j < k :: units[..k + 1][j] == units[..k][j];
    assert units[..k + 1][k] == units[k];
  }

  // ---- required checks ---------------------------------------------------------------------------

  function Lanes(units: seq<Unit>, affected: set<string>): set<string> {
    if units == [] then {}
    else (if units[0].id in affected then units[0].lanes else {}) + Lanes(units[1..], affected)
  }

  predicate RunsLane(job: Job, script: string) {
    "tools/verification/" + script in job.invoked || UMBRELLA in job.invoked
  }

  /** The jobs that execute a lane: its own script, or the umbrella. */
  function ChecksFor(lane: string, e: Estate): set<string> {
    if lane !in e.scripts then {}
    else set k | 0 <= k < |e.jobs| && RunsLane(e.jobs[k], e.scripts[lane]) :: e.jobs[k].name
  }

  /** A job that measures the lane can be named. */
  predicate IsResolvable(lane: string, e: Estate) {
    lane != MALFORMED && ChecksFor(lane, e) != {}
  }

  /** `umbrella_checks`: the jobs whose failure is no one lane's. */
  function Shared(jobs: seq<Job>): set<string> {
    set k | 0 <= k < |jobs| && UMBRELLA in jobs[k].invoked :: jobs[k].name
  }

  /** `required` maps each of these lanes to the checks that run it, in order. */
  ghost predicate Requires(required: map<string, seq<string>>, lanes: set<string>, e: Estate) {
    && required.Keys == lanes
    && forall lane | lane in lanes ::
         required[lane] != [] && Elements(required[lane]) == ChecksFor(lane, e) && IsSorted(required[lane])
  }

  /** The jobs of one lane, each name once, in order. */
  method JobsRunning(script: string, jobs: seq<Job>) returns (found: seq<string>)
    ensures Elements(found) == set k | 0 <= k < |jobs| && RunsLane(jobs[k], script) :: jobs[k].name
    ensures IsSorted(found)
  {
    hide RunsLane, IsSorted, Insert;
    found := [];
    assert IsSorted(found) by { NoneSorted(); }
    for k := 0 to |jobs|
      invariant IsSorted(found)
      invariant forall name | name in found ::
                  exists j | 0 <= j < k :: RunsLane(jobs[j], script) && jobs[j].name == name
      invariant forall j | 0 <= j < k && RunsLane(jobs[j], script) :: jobs[j].name in found
    {
      if RunsLane(jobs[k], script) {
        InsertSorts(found, jobs[k].name);
        found := Insert(found, jobs[k].name);
      }
    }
  }

  lemma NoneSorted()
    ensures IsSorted([])
  {
  }

  /** `checks_for_lanes`: undecidable exactly when some lane cannot be resolved. */
  method ChecksForLanes(lanes: seq<string>, e: Estate) returns (r: Answer<map<string, seq<string>>>)
    ensures r.Undecidable? <==> exists lane | lane in lanes :: !IsResolvable(lane, e)
    ensures r.Decided? ==> Requires(r.value, Elements(lanes), e)
  {
    hide RunsLane;
    var resolved := map[];
    for k := 0 to |lanes|
      invariant forall j | 0 <= j < k :: IsResolvable(lanes[j], e)
      invariant Requires(resolved, Elements(lanes[..k]), e)
    {
      var lane := lanes[k];
      assert Elements(lanes[..k + 1]) == Elements(lanes[..k]) + {lane};
      assert lane in lanes;
      if lane == MALFORMED {
        assert !IsResolvable(lane, e);
        return Undecidable;
      }
      if lane !in e.scripts { return Undecidable; }
      var found := JobsRunning(e.scripts[lane], e.jobs);
      if found == [] {
        assert ChecksFor(lane, e) == Elements(found) == {};
        return Undecidable;
      }
      assert found[0] in Elements(found);
      resolved := resolved[lane := found];
    }
    assert lanes[..|lanes|] == lanes;
    return Decided(resolved);
  }

  // ---- check runs ------------------------------------------------------------------------------------

  /** Of the first `n` runs, `latest` holds per name the one that started last, and of those the one
      reported last. */
  ghost predicate AreLatest(latest: map<string, Run>, raw: seq<Run>, n: nat)
    requires n <= |raw|
  {
    && (forall k | 0 <= k < n :: raw[k].name in latest)
    && forall name | name in latest :: exists k | 0 <= k < n :: IsLatestAt(raw, n, k, name) && latest[name] == raw[k]
  }

  ghost predicate IsLatestAt(raw: seq<Run>, n: nat, k: nat, name: string)
    requires k < n <= |raw|
  {
    raw[k].name == name && forall j | 0 <= j < n && raw[j].name == name :: NotAfter(raw, j, k)
  }

  ghost predicate NotAfter(raw: seq<Run>, j: nat, k: nat)
    requires j < |raw| && k < |raw|
  {
    Precedes(raw[j].startedAt, raw[k].startedAt) || (raw[j].startedAt == raw[k].startedAt && j <= k)
  }

  /** The fold of `check_runs`. */
  method LatestRuns(raw: seq<Run>) returns (latest: map<string, Run>)
    ensures AreLatest(latest, raw, |raw|)
    ensures latest == Latest(raw)
  {
    hide AreLatest, AtMost;
    latest := map[];
    NoneLatest(raw);
    for k := 0 to |raw|
      invariant AreLatest(latest, raw, k)
      invariant latest == Latest(raw[..k])
    {
      assert raw[..k + 1][..k] == raw[..k];
      ghost var before := latest;
      var run := raw[k];
      if run.name !in latest || AtMost(latest[run.name].startedAt, run.startedAt) {
        latest := latest[run.name := run];
      }
      LatestNext(before, latest, raw, k);
    }
    assert raw[..|raw|] == raw;
  }

  lemma NoneLatest(raw: seq<Run>)
    ensures AreLatest(map[], raw, 0)
  {
  }

  /** The next run leaves the latest of a name alone, or takes its place. */
  lemma LatestOr(raw: seq<Run>, n: nat, k: nat, name: string)
    requires k < n < |raw| && IsLatestAt(raw, n, k, name)
    ensures var now := if name == raw[n].name && AtMost(raw[k].startedAt, raw[n].startedAt) then n else k;
            IsLatestAt(raw, n + 1, now, name)
  {
    hide AtMost;
    var now := if name == raw[n].name && AtMost(raw[k].startedAt, raw[n].startedAt) then n else k;
    AtMostIsTotal(raw[k].startedAt, raw[n].startedAt);
    forall j | 0 <= j < n + 1 && raw[j].name == name ensures NotAfter(raw, j, now) {
      if j < n {
        assert NotAfter(raw, j, k);
        if now == n && Precedes(raw[j].startedAt, raw[k].startedAt) {
          PrecedesIsTransitive(raw[j].startedAt, raw[k].startedAt, raw[n].startedAt);
        }
      }
    }
  }

  lemma LatestNext(before: map<string, Run>, after: map<string, Run>, raw: seq<Run>, n: nat)
    requires n < |raw| && AreLatest(before, raw, n)
    requires var run := raw[n];
             after == if run.name !in before || AtMost(before[run.name].startedAt, run.startedAt)
                      then before[run.name := run] else before
    ensures AreLatest(after, raw, n + 1)
  {
    forall name | name in after
      ensures exists k | 0 <= k < n + 1 :: IsLatestAt(raw, n + 1, k, name) && after[name] == raw[k]
    {
      if name in before {
        hide NotAfter;
        var k :| 0 <= k < n && IsLatestAt(raw, n, k, name) && before[name] == raw[k];
        LatestOr(raw, n, k, name);
      } else {
        FirstOfItsName(before, raw, n);
      }
    }
  }

  /** The latest runs, told by the fold. */
  function Latest(raw: seq<Run>): map<string, Run> {
    if raw == [] then map[] else Supersede(Latest(raw[..|raw| - 1]), raw[|raw| - 1])
  }

  /** A run takes the place of the one before it under its name unless that started later. */
  function Supersede(before: map<string, Run>, run: Run): map<string, Run> {
    if run.name !in before || AtMost(before[run.name].startedAt, run.startedAt) then before[run.name := run] else before
  }

  lemma {:induction false} LatestAreLatest(raw: seq<Run>, n: nat)
    requires n <= |raw|
    ensures AreLatest(Latest(raw[..n]), raw, n)
  {
    hide AreLatest, AtMost;
    NoneLatest(raw);
    if n == 0 {
    } else {
      LatestAreLatest(raw, n - 1);
      assert raw[..n][..n - 1] == raw[..n - 1];
      LatestNext(Latest(raw[..n - 1]), Latest(raw[..n]), raw, n - 1);
    }
  }

  /** Later attempts supersede earlier ones in exactly one way. */
  lemma LatestIsUnique(a: map<string, Run>, b: map<string, Run>, raw: seq<Run>)
    requires AreLatest(a, raw, |raw|) && AreLatest(b, raw, |raw|)
    ensures a == b
  {
    hide AreLatest;
    forall name ensures (name in a <==> name in b) && (name in a && name in b ==> a[name] == b[name]) {
      SameLatest(a, b, raw, name);
      SameLatest(b, a, raw, name);
    }
  }

  lemma LatestAt(a: map<string, Run>, raw: seq<Run>, name: string) returns (k: nat)
    requires AreLatest(a, raw, |raw|) && name in a
    ensures k < |raw| && IsLatestAt(raw, |raw|, k, name) && a[name] == raw[k] && raw[k].name == name
  {
    hide NotAfter;
    k :| 0 <= k < |raw| && IsLatestAt(raw, |raw|, k, name) && a[name] == raw[k];
  }

  lemma LatestAtIsUnique(raw: seq<Run>, j: nat, k: nat, name: string)
    requires j < |raw| && k < |raw| && IsLatestAt(raw, |raw|, j, name) && IsLatestAt(raw, |raw|, k, name)
    ensures j == k
  {
    hide AtMost;
    AtMostIsTotal(raw[j].startedAt, raw[k].startedAt);
    assert NotAfter(raw, j, k) && NotAfter(raw, k, j);
  }

  lemma IsNamed(b: map<string, Run>, raw: seq<Run>, k: nat)
    requires AreLatest(b, raw, |raw|) && k < |raw|
    ensures raw[k].name in b
  {
  }

  lemma SameLatest(a: map<string, Run>, b: map<string, Run>, raw: seq<Run>, name: string)
    requires AreLatest(a, raw, |raw|) && AreLatest(b, raw, |raw|)
    ensures name in a ==> name in b && a[name] == b[name]
  {
    hide AreLatest, IsLatestAt;
    if name in a {
      var k := LatestAt(a, raw, name);
      IsNamed(b, raw, k);
      var j := LatestAt(b, raw, name);
      LatestAtIsUnique(raw, j, k, name);
    }
  }

  lemma FirstOfItsName(before: map<string, Run>, raw: seq<Run>, n: nat)
    requires n < |raw| && AreLatest(before, raw, n) && raw[n].name !in before
    ensures IsLatestAt(raw, n + 1, n, raw[n].name)
  {
  }

  // ---- the verdict -----------------------------------------------------------------------------------

  /** The four conditions: the check is there, at this commit, completed, successful. */
  predicate Meets(name: string, runs: map<string, Run>, sha: string) {
    && name in runs && runs[name].headSha == sha
    && runs[name].status == "completed" && runs[name].conclusion == "success"
  }

  predicate FailsOnItsOwn(name: string, runs: map<string, Run>, shared: set<string>) {
    name !in shared && name in runs && IsFailing(runs[name].conclusion)
  }

  /** A lane is ready when any job that runs it met the four conditions, and failed only when a check whose
      verdict is the lane's own says so. */
  function LaneState(checks: set<string>, runs: map<string, Run>, sha: string, shared: set<string>): State {
    if exists name | name in checks :: Meets(name, runs, sha) then Ready
    else if exists name | name in checks :: FailsOnItsOwn(name, runs, shared) then Failed
    else NotReady
  }

  function Level(s: State): nat {
    match s
    case Ready => 0
    case NotReady => 1
    case Failed => 2
  }

  /** The join over the lanes, under ready < not ready < failed. */
  function Verdict(
    required: map<string, set<string>>, runs: map<string, Run>, sha: string, shared: set<string>
  ): State
  {
    if exists lane | lane in required :: LaneState(required[lane], runs, sha, shared) == Failed then Failed
    else if forall lane | lane in required :: LaneState(required[lane], runs, sha, shared) == Ready then Ready
    else NotReady
  }

  /** The verdict is the least upper bound of the lanes'. */
  lemma VerdictIsJoin(required: map<string, set<string>>, runs: map<string, Run>, sha: string, shared: set<string>)
    ensures forall lane | lane in required ::
              Level(LaneState(required[lane], runs, sha, shared)) <= Level(Verdict(required, runs, sha, shared))
    ensures Verdict(required, runs, sha, shared) != Ready ==>
              exists lane | lane in required ::
                  LaneState(required[lane], runs, sha, shared) == Verdict(required, runs, sha, shared)
  {
    hide LaneState;
    if Verdict(required, runs, sha, shared) == NotReady {
      var lane :| lane in required && LaneState(required[lane], runs, sha, shared) != Ready;
      assert LaneState(required[lane], runs, sha, shared) == NotReady;
    }
  }

  lemma MoreLanesNoCloser(
    few: map<string, set<string>>, many: map<string, set<string>>, runs: map<string, Run>, sha: string,
    shared: set<string>
  )
    requires few.Keys <= many.Keys && forall lane | lane in few :: few[lane] == many[lane]
    ensures Level(Verdict(few, runs, sha, shared)) <= Level(Verdict(many, runs, sha, shared))
  {
    hide LaneState;
    VerdictIsJoin(few, runs, sha, shared);
    VerdictIsJoin(many, runs, sha, shared);
    if Verdict(few, runs, sha, shared) != Ready {
      var lane :| lane in few && LaneState(few[lane], runs, sha, shared) == Verdict(few, runs, sha, shared);
      assert lane in many && few[lane] == many[lane];
    }
  }

  /** Why a check does not satisfy its lane, or that it does. */
  datatype Why =
    | Success | Missing | AtAnotherCommit(sha: string) | Incomplete(status: string) | Concluded(conclusion: string)
    | OwnFailure | SharedFailure(name: string)

  /** `classify` */
  function Classify(name: string, runs: map<string, Run>, sha: string): (r: (bool, Why))
    ensures r.0 <==> Meets(name, runs, sha)
    ensures r.0 <==> r.1 == Success
  {
    if name !in runs then (false, Missing)
    else if runs[name].headSha != sha then (false, AtAnotherCommit(runs[name].headSha))
    else if runs[name].status != "completed" then (false, Incomplete(runs[name].status))
    else if runs[name].conclusion == "success" then (true, Success)
    else (false, Concluded(runs[name].conclusion))
  }

  datatype Row = Row(lane: string, check: string, state: State, why: Why)

  /** A failing check that runs several lanes. */
  predicate FailsForSeveral(name: string, runs: map<string, Run>, shared: set<string>) {
    name in shared && name in runs && IsFailing(runs[name].conclusion)
  }

  /** The first of the names with the property. */
  ghost predicate IsFirst(names: seq<string>, name: string, p: string -> bool) {
    exists k | 0 <= k < |names| :: names[k] == name && p(names[k]) && forall j | 0 <= j < k :: !p(names[j])
  }

  /** The one row of the table a lane gets: its state, the check that decides it, and why. */
  ghost predicate Explains(
    row: Row, lane: string, names: seq<string>, runs: map<string, Run>, sha: string, shared: set<string>
  )
  {
    && row.lane == lane && row.state == LaneState(Elements(names), runs, sha, shared)
    && match row.state
       case Ready => row.why == Success && IsFirst(names, row.check, name => Meets(name, runs, sha))
       case Failed => row.why == OwnFailure && IsFirst(names, row.check, name => FailsOnItsOwn(name, runs, shared))
       case NotReady =>
         && names != [] && row.check == names[0]
         && if row.why.SharedFailure? then IsFirst(names, row.why.name, name => FailsForSeveral(name, runs, shared))
            else
              && row.why == Classify(names[0], runs, sha).1
              && forall name | name in names :: !FailsForSeveral(name, runs, shared)
  }

  /** One lane in the loop of `decide`. */
  method DecideLane(
    lane: string, names: seq<string>, runs: map<string, Run>, sha: string, shared: set<string>
  ) returns (row: Row)
    requires names != []
    ensures Explains(row, lane, names, runs, sha, shared)
  {
    hide IsFailing;
    for k := 0 to |names|
      invariant forall j | 0 <= j < k :: !Meets(names[j], runs, sha)
    {
      var (ok, why) := Classify(names[k], runs, sha);
      if ok { return Row(lane, names[k], Ready, why); }
    }
    assert forall name | name in Elements(names) :: !Meets(name, runs, sha);
    for k := 0 to |names|
      invariant forall j | 0 <= j < k :: !FailsOnItsOwn(names[j], runs, shared)
    {
      if FailsOnItsOwn(names[k], runs, shared) { return Row(lane, names[k], Failed, OwnFailure); }
    }
    assert forall name | name in Elements(names) :: !FailsOnItsOwn(name, runs, shared);
    var why := Classify(names[0], runs, sha).1;
    for k := 0 to |names|
      invariant forall j | 0 <= j < k :: !FailsForSeveral(names[j], runs, shared)
    {
      if FailsForSeveral(names[k], runs, shared) { return Row(lane, names[0], NotReady, SharedFailure(names[k])); }
    }
    return Row(lane, names[0], NotReady, why);
  }

  /** The listed checks as sets. */
  function AsSets(required: map<string, seq<string>>): map<string, set<string>> {
    map lane | lane in required :: Elements(required[lane])
  }

  /** `decide`, over the lanes in order. */
  method Decide(
    lanes: seq<string>, required: map<string, seq<string>>, runs: map<string, Run>, sha: string, shared: set<string>
  )
    returns (state: State, rows: seq<Row>)
    requires Elements(lanes) == required.Keys && forall lane | lane in required :: required[lane] != []
    ensures state == Verdict(AsSets(required), runs, sha, shared)
    ensures |rows| == |lanes|
    ensures forall k | 0 <= k < |lanes| :: Explains(rows[k], lanes[k], required[lanes[k]], runs, sha, shared)
  {
    hide Explains;
    var satisfied, failing := true, false;
    rows := [];
    assert forall k | 0 <= k < |lanes| :: lanes[k] in Elements(lanes);
    for k := 0 to |lanes|
      invariant |rows| == k
      invariant forall j | 0 <= j < k :: Explains(rows[j], lanes[j], required[lanes[j]], runs, sha, shared)
      invariant satisfied <==> forall j | 0 <= j < k :: rows[j].state == Ready
      invariant failing <==> exists j | 0 <= j < k :: rows[j].state == Failed
    {
      var row := DecideLane(lanes[k], required[lanes[k]], runs, sha, shared);
      rows := rows + [row];
      if row.state != Ready { satisfied := false; }
      if row.state == Failed { failing := true; }
    }
    RowsDecide(lanes, required, rows, runs, sha, shared);
    if failing { return Failed, rows; }
    return if satisfied then Ready else NotReady, rows;
  }

  lemma RowsDecide(
    lanes: seq<string>, required: map<string, seq<string>>, rows: seq<Row>, runs: map<string, Run>, sha: string,
    shared: set<string>
  )
    requires Elements(lanes) == required.Keys && |rows| == |lanes|
    requires forall k | 0 <= k < |lanes| ::
             lanes[k] in required && Explains(rows[k], lanes[k], required[lanes[k]], runs, sha, shared)
    ensures Verdict(AsSets(required), runs, sha, shared) ==
            if exists k | 0 <= k < |rows| :: rows[k].state == Failed then Failed
            else if forall k | 0 <= k < |rows| :: rows[k].state == Ready then Ready else NotReady
  {
    hide LaneState, FailsOnItsOwn, Meets;
    var sets := AsSets(required);
    forall lane | lane in sets
      ensures exists k | 0 <= k < |rows| ::
                lanes[k] == lane && rows[k].state == LaneState(sets[lane], runs, sha, shared)
    {
      assert lane in Elements(lanes);
      var k :| 0 <= k < |lanes| && lanes[k] == lane;
    }
    forall k | 0 <= k < |rows|
      ensures lanes[k] in sets && rows[k].state == LaneState(sets[lanes[k]], runs, sha, shared) {}
  }

  // ---- the gate's answer ---------------------------------------------------------------------------------

  ghost predicate InEveryClosed(x: string, start: set<string>, edges: seq<Edge>) {
    forall t: set<string> | start <= t && Closed(t, edges) :: x in t
  }

  ghost function LeastClosed(start: set<string>, edges: seq<Edge>): set<string> {
    set x | x in start + Targets(edges) && InEveryClosed(x, start, edges)
  }

  ghost function Affected(e: Estate, changed: set<string>): set<string> {
    if Widens(changed, e.inputs) then Ids(e.units) else LeastClosed(Hits(e.units, changed), e.edges)
  }

  lemma LeastClosedIsLeast(start: set<string>, edges: seq<Edge>)
    ensures IsLeastClosed(LeastClosed(start, edges), start, edges)
  {
    hide IsPrerequisite;
    var s := LeastClosed(start, edges);
    forall k | 0 <= k < |edges| && Carries(edges[k], s) ensures edges[k].target in s {
      assert edges[k].target in Targets(edges);
      forall t: set<string> | start <= t && Closed(t, edges) ensures edges[k].target in t {
        assert edges[k].source in t;
        assert Carries(edges[k], t);
      }
    }
  }

  /** The least closed set is what the loop computes, whatever order the edges come in. */
  lemma AffectedIsUnique(s: set<string>, e: Estate, changed: set<string>)
    ensures IsAffected(s, e, changed) <==> s == Affected(e, changed)
  {
    hide Closed, Widens, Hits;
    LeastClosedIsLeast(Hits(e.units, changed), e.edges);
    if IsAffected(s, e, changed) && !Widens(changed, e.inputs) {
      var least := LeastClosed(Hits(e.units, changed), e.edges);
      assert s <= least && least <= s;
    }
  }

  lemma EdgeOrderDoesNotMatter(e: Estate, edges: seq<Edge>, changed: set<string>)
    requires multiset(edges) == multiset(e.edges)
    ensures Affected(e.(edges := edges), changed) == Affected(e, changed)
  {
    var f := e.(edges := edges);
    LeastClosedIsLeast(Hits(e.units, changed), edges);
    LeastClosedIsLeast(Hits(e.units, changed), e.edges);
    forall t: set<string> ensures Closed(t, edges) <==> Closed(t, e.edges) {
      SameEdgesSameClosed(t, edges, e.edges);
      SameEdgesSameClosed(t, e.edges, edges);
    }
    hide Closed, Hits, LeastClosed;
    if !Widens(changed, e.inputs) {
      var s, t := LeastClosed(Hits(e.units, changed), edges), LeastClosed(Hits(e.units, changed), e.edges);
      assert s <= t && t <= s;
    }
  }

  lemma SameEdgesSameClosed(t: set<string>, edges: seq<Edge>, others: seq<Edge>)
    requires multiset(edges) == multiset(others)
    ensures Closed(t, edges) ==> Closed(t, others)
  {
    hide Carries;
    if Closed(t, edges) {
      forall k | 0 <= k < |others| && Carries(others[k], t) ensures others[k].target in t {
        assert others[k] in multiset(edges);
        var j :| 0 <= j < |edges| && edges[j] == others[k];
      }
    }
  }

  ghost function RequiredLanes(e: Estate, changed: set<string>): set<string> {
    Lanes(e.units, Affected(e, changed))
  }

  function RequiredChecks(e: Estate, lanes: set<string>): map<string, set<string>> {
    map lane | lane in lanes :: ChecksFor(lane, e)
  }

  function RulesetChecks(e: Estate): map<string, set<string>> {
    map name | name in e.ruleset :: {name}
  }

  /** What the governing authority asks for: the lanes' checks, or the ruleset's when no lane is required;
      undecidable when a lane cannot be resolved or nothing at all governs. */
  ghost function Asked(e: Estate, changed: set<string>): Answer<map<string, set<string>>> {
    var lanes := RequiredLanes(e, changed);
    if lanes != {} then
      if forall lane | lane in lanes :: IsResolvable(lane, e) then Decided(RequiredChecks(e, lanes)) else Undecidable
    else if e.ruleset == {} then Undecidable
    else Decided(RulesetChecks(e))
  }

  /** The exit status: 0 ready, 1 not ready, 2 failed, 3 undecidable. */
  ghost function ExitUnder(
    e: Estate, changed: set<string>, runs: map<string, Run>, sha: string, shared: set<string>
  ): nat
  {
    var asked := Asked(e, changed);
    if asked.Undecidable? then 3 else Level(Verdict(asked.value, runs, sha, shared))
  }

  /** The exit status when the workflows do not change between the gate's two looks at them. */
  ghost function Exit(e: Estate, changed: set<string>, runs: map<string, Run>, sha: string): nat {
    ExitUnder(e, changed, runs, sha, Shared(e.jobs))
  }

  method Listed(s: set<string>) returns (r: seq<string>)
    ensures Elements(r) == s && IsSorted(r)
  {
    hide IsSorted, Insert;
    r := [];
    NoneSorted();
    var rest := s;
    while rest != {}
      invariant Elements(r) + rest == s && IsSorted(r)
      decreases |rest|
    {
      var x :| x in rest;
      InsertSorts(r, x);
      r, rest := Insert(r, x), rest - {x};
    }
  }

  method LanesOf(units: seq<Unit>, affected: set<string>) returns (lanes: set<string>)
    ensures lanes == Lanes(units, affected)
  {
    lanes := {};
    for k := 0 to |units|
      invariant lanes + Lanes(units[k..], affected) == Lanes(units, affected)
    {
      assert units[k..][1..] == units[k + 1..];
      if units[k].id in affected { lanes := lanes + units[k].lanes; }
    }
  }

  /** `main`, from the candidate's estate, its changed files, the check runs reported at it, and the workflow jobs as
      they are looked up again for the umbrella's. */
  method Gate(e: Estate, changed: set<string>, raw: seq<Run>, umbrella: seq<Job>, sha: string) returns (exit: nat)
    ensures exit == ExitUnder(e, changed, Latest(raw), sha, Shared(umbrella))
  {
    hide AreLatest, Verdict, Affected, Requires, IsResolvable, ChecksFor, Elements;
    var affected := AffectedUnits(e, changed);
    AffectedIsUnique(affected, e, changed);
    var lanes := LanesOf(e.units, affected);
    var order: seq<string>;
    var required: map<string, seq<string>>;
    if lanes != {} {
      order := Listed(lanes);
      InListed(order, lanes);
      var r := ChecksForLanes(order, e);
      if r.Undecidable? { return 3; }
      required := r.value;
      LanesListed(required, lanes, e);
    } else {
      if e.ruleset == {} { return 3; }
      order := Listed(e.ruleset);
      required := map name | name in e.ruleset :: [name];
      RulesetListed(required, e);
    }
    var runs := LatestRuns(raw);
    var state, rows := Decide(order, required, runs, sha, Shared(umbrella));
    exit := Level(state);
  }

  lemma InListed(order: seq<string>, lanes: set<string>)
    requires Elements(order) == lanes
    ensures forall lane :: lane in order <==> lane in lanes
  {
  }

  lemma LanesListed(required: map<string, seq<string>>, lanes: set<string>, e: Estate)
    requires Requires(required, lanes, e)
    ensures required.Keys == lanes && AsSets(required) == RequiredChecks(e, lanes)
    ensures forall lane | lane in required :: required[lane] != []
  {
    hide ChecksFor;
  }

  lemma RulesetListed(required: map<string, seq<string>>, e: Estate)
    requires required == map name | name in e.ruleset :: [name]
    ensures required.Keys == e.ruleset && AsSets(required) == RulesetChecks(e)
    ensures forall lane | lane in required :: required[lane] != []
  {
    forall name | name in e.ruleset ensures Elements([name]) == {name} {}
  }

  // ---- what the answers mean -----------------------------------------------------------------------------------

  lemma ReadyIff(asked: map<string, set<string>>, runs: map<string, Run>, sha: string, shared: set<string>)
    ensures Level(Verdict(asked, runs, sha, shared)) == 0 <==>
            forall lane | lane in asked :: exists name | name in asked[lane] :: Meets(name, runs, sha)
  {
    hide Meets, FailsOnItsOwn;
    forall lane | lane in asked
      ensures LaneState(asked[lane], runs, sha, shared) == Ready <==>
              exists name | name in asked[lane] :: Meets(name, runs, sha) {}
  }

  lemma FailedIff(asked: map<string, set<string>>, runs: map<string, Run>, sha: string, shared: set<string>)
    ensures Level(Verdict(asked, runs, sha, shared)) == 2 <==>
            exists lane | lane in asked ::
              && (exists name | name in asked[lane] :: FailsOnItsOwn(name, runs, shared))
              && !exists name | name in asked[lane] :: Meets(name, runs, sha)
  {
    hide Meets, FailsOnItsOwn;
    forall lane | lane in asked
      ensures LaneState(asked[lane], runs, sha, shared) == Failed <==>
              && (exists name | name in asked[lane] :: FailsOnItsOwn(name, runs, shared))
              && !exists name | name in asked[lane] :: Meets(name, runs, sha) {}
  }

  predicate Succeeded(run: Run, sha: string) {
    run.headSha == sha && run.status == "completed" && run.conclusion == "success"
  }

  /** The reported run that speaks for the name succeeded at this commit. */
  ghost predicate SaysSuccess(raw: seq<Run>, name: string, sha: string) {
    exists k | 0 <= k < |raw| :: IsLatestAt(raw, |raw|, k, name) && Succeeded(raw[k], sha)
  }

  /** The reported run that speaks for the name failed. */
  ghost predicate SaysFailure(raw: seq<Run>, name: string) {
    exists k | 0 <= k < |raw| :: IsLatestAt(raw, |raw|, k, name) && IsFailing(raw[k].conclusion)
  }

  /** What the fold says of a name, the run that speaks for it says. */
  lemma SaidByARun(raw: seq<Run>, name: string, sha: string, shared: set<string>)
    ensures Meets(name, Latest(raw), sha) <==> SaysSuccess(raw, name, sha)
    ensures FailsOnItsOwn(name, Latest(raw), shared) <==> name !in shared && SaysFailure(raw, name)
  {
    assert raw[..|raw|] == raw;
    LatestAreLatest(raw, |raw|);
    hide Latest, AreLatest, IsLatestAt, IsFailing;
    if name in Latest(raw) {
      var k := LatestAt(Latest(raw), raw, name);
      forall j | 0 <= j < |raw| && IsLatestAt(raw, |raw|, j, name) ensures j == k { LatestAtIsUnique(raw, j, k, name); }
    } else {
      forall j | 0 <= j < |raw| ensures !IsLatestAt(raw, |raw|, j, name) {
        IsNamed(Latest(raw), raw, j);
        OfItsName(raw, j, name);
      }
    }
  }

  lemma OfItsName(raw: seq<Run>, k: nat, name: string)
    requires k < |raw|
    ensures IsLatestAt(raw, |raw|, k, name) ==> raw[k].name == name
  {
  }

  /** Ready is earned, under either authority: something is required, and for each thing required a check's run
      that speaks for it succeeded at this very commit. */
  lemma ReadyIsNeverVacuous(e: Estate, changed: set<string>, raw: seq<Run>, sha: string, shared: set<string>)
    ensures ExitUnder(e, changed, Latest(raw), sha, shared) == 0 <==>
            && Asked(e, changed).Decided?
            && Asked(e, changed).value != map[]
            && forall lane | lane in Asked(e, changed).value ::
                 exists name | name in Asked(e, changed).value[lane] :: SaysSuccess(raw, name, sha)
  {
    hide Asked, Meets, SaysSuccess, Latest, Verdict;
    if Asked(e, changed).Decided? {
      SomethingIsAsked(e, changed);
      ReadyIff(Asked(e, changed).value, Latest(raw), sha, shared);
      forall name ensures Meets(name, Latest(raw), sha) <==> SaysSuccess(raw, name, sha) {
        SaidByARun(raw, name, sha, {});
      }
    }
  }

  /** Either authority asks for something, or the gate does not decide. */
  lemma SomethingIsAsked(e: Estate, changed: set<string>)
    requires Asked(e, changed).Decided?
    ensures Asked(e, changed).value != map[]
  {
    hide RequiredLanes, ChecksFor, IsResolvable;
    var lanes := RequiredLanes(e, changed);
    if lanes != {} {
      var lane :| lane in lanes;
      assert lane in Asked(e, changed).value;
    } else {
      var name :| name in e.ruleset;
      assert name in Asked(e, changed).value;
    }
  }

  /** A failed answer always has a lane to blame, told of the reported runs: the run that speaks for a check of its
      own failed, and none that speaks for any of its checks, shared or not, succeeded at this commit. */
  lemma FailureIsAttributable(e: Estate, changed: set<string>, raw: seq<Run>, sha: string, shared: set<string>)
    ensures ExitUnder(e, changed, Latest(raw), sha, shared) == 2 <==>
            && Asked(e, changed).Decided?
            && exists lane | lane in Asked(e, changed).value ::
                 && (exists name | name in Asked(e, changed).value[lane] :: name !in shared && SaysFailure(raw, name))
                 && !exists name | name in Asked(e, changed).value[lane] :: SaysSuccess(raw, name, sha)
  {
    hide Asked, Meets, FailsOnItsOwn, SaysSuccess, SaysFailure, Verdict, Latest;
    if Asked(e, changed).Decided? {
      FailedIff(Asked(e, changed).value, Latest(raw), sha, shared);
      forall name
        ensures Meets(name, Latest(raw), sha) <==> SaysSuccess(raw, name, sha)
        ensures FailsOnItsOwn(name, Latest(raw), shared) <==> name !in shared && SaysFailure(raw, name)
      {
        SaidByARun(raw, name, sha, shared);
      }
    }
  }

  function WithoutShared(runs: map<string, Run>, shared: set<string>): map<string, Run> {
    map name | name in runs && name !in shared :: runs[name]
  }

  /** The reported runs but for those of the shared jobs. */
  function OwnRuns(raw: seq<Run>, shared: set<string>): seq<Run> {
    if raw == [] then []
    else OwnRuns(raw[..|raw| - 1], shared) + if raw[|raw| - 1].name in shared then [] else [raw[|raw| - 1]]
  }

  lemma SupersedeOwn(before: map<string, Run>, run: Run, shared: set<string>)
    ensures WithoutShared(Supersede(before, run), shared) ==
            if run.name in shared then WithoutShared(before, shared) else Supersede(WithoutShared(before, shared), run)
  {
    hide AtMost;
  }

  lemma {:induction false} LatestOfOwn(raw: seq<Run>, shared: set<string>)
    ensures Latest(OwnRuns(raw, shared)) == WithoutShared(Latest(raw), shared)
  {
    hide Supersede, WithoutShared;
    if raw == [] {
      assert WithoutShared(map[], shared) == map[] by { NoRuns(shared); }
    } else {
      var rest, run := raw[..|raw| - 1], raw[|raw| - 1];
      LatestOfOwn(rest, shared);
      SupersedeOwn(Latest(rest), run, shared);
      var own := OwnRuns(rest, shared);
      assert (own + [run])[..|own|] == own && own + [] == own;
    }
  }

  lemma NoRuns(shared: set<string>)
    ensures WithoutShared(map[], shared) == map[]
  {
  }

  lemma OwnVerdictOnly(asked: map<string, set<string>>, runs: map<string, Run>, sha: string, shared: set<string>)
    requires forall name | name in shared :: !Meets(name, runs, sha)
    ensures Verdict(asked, WithoutShared(runs, shared), sha, shared) == Verdict(asked, runs, sha, shared)
  {
    hide IsFailing;
    var own := WithoutShared(runs, shared);
    assert forall name :: Meets(name, own, sha) <==> Meets(name, runs, sha);
    assert forall name :: FailsOnItsOwn(name, own, shared) <==> FailsOnItsOwn(name, runs, shared);
    hide Meets, FailsOnItsOwn;
    assert forall checks: set<string> :: LaneState(checks, own, sha, shared) == LaneState(checks, runs, sha, shared);
  }

  /** Shared jobs do not interfere: when no run that speaks for one succeeded at this commit, the answer is what it
      would be had none of their runs been reported. */
  lemma SharedRunsDoNotInterfere(e: Estate, changed: set<string>, raw: seq<Run>, sha: string, shared: set<string>)
    requires forall name | name in shared :: !SaysSuccess(raw, name, sha)
    ensures ExitUnder(e, changed, Latest(OwnRuns(raw, shared)), sha, shared) ==
            ExitUnder(e, changed, Latest(raw), sha, shared)
  {
    hide Asked, Meets, SaysSuccess, SaysFailure, Verdict, Latest, OwnRuns, WithoutShared, FailsOnItsOwn;
    LatestOfOwn(raw, shared);
    forall name | name in shared ensures !Meets(name, Latest(raw), sha) { SaidByARun(raw, name, sha, shared); }
    if Asked(e, changed).Decided? { OwnVerdictOnly(Asked(e, changed).value, Latest(raw), sha, shared); }
  }
}
