/** The readiness gate's rules on the names and paths themselves: what widens a change, what it hits, what carries an
    invalidation on, which jobs run a lane, and what is then ready, failed or undecidable. */
module ReadinessLaws {
  import opened Sequences
  import opened PythonText
  import opened Readiness
  import opened LargerChanges

  // ---- what a change affects ---------------------------------------------------------------------------------

  /** A changed file that changes what every unit is about, or what every measurement means. */
  predicate IsGlobal(c: string, inputs: set<string>) {
    || c in inputs
    || (|c| >= 19 && c[..19] == "tools/verification/")
    || (|c| >= 20 && c[..20] == "verification/policy/")
  }

  /** The file is the declared path, or lies under it: the path without the slashes it ends in, a slash, and any
      rest. */
  ghost predicate IsAtOrUnder(c: string, path: string) {
    c == path || exists n: nat | n <= |path| :: LiesUnder(c, path, n)
  }

  predicate LiesUnder(c: string, path: string, n: nat)
    requires n <= |path|
  {
    && (forall k | n <= k < |path| :: path[k] == '/') && (n > 0 ==> path[n - 1] != '/')
    && |c| > n && c[..n] == path[..n] && c[n] == '/'
  }

  lemma {:induction false} TrimmedAt(path: string) returns (n: nat)
    ensures n <= |path| && TrimSlashes(path) == path[..n]
    ensures (forall k | n <= k < |path| :: path[k] == '/') && (n > 0 ==> path[n - 1] != '/')
  {
    if path == "" || path[|path| - 1] != '/' {
      n := |path|;
      assert path[..n] == path;
    } else {
      n := TrimmedAt(path[..|path| - 1]);
      assert path[..|path| - 1][..n] == path[..n];
    }
  }

  lemma TouchIff(c: string, path: string)
    ensures c == path || StartsWith(c, TrimSlashes(path) + "/") <==> IsAtOrUnder(c, path)
  {
    var n := TrimmedAt(path);
    var p := TrimSlashes(path);
    hide TrimSlashes;
    if StartsWith(c, p + "/") {
      assert c[..n] == (p + "/")[..n] == path[..n] && c[n] == (p + "/")[n] == '/';
      assert LiesUnder(c, path, n);
    }
    if exists m: nat | m <= |path| :: LiesUnder(c, path, m) {
      var m: nat :| m <= |path| && LiesUnder(c, path, m);
      assert m == n;
      assert c[..n + 1] == p + "/";
    }
  }

  /** A unit some declared path of which is changed, or has a changed file under it. */
  ghost predicate IsChanged(unit: Unit, changed: set<string>) {
    exists k, c | 0 <= k < |unit.paths| && c in changed :: IsAtOrUnder(c, unit.paths[k])
  }

  lemma HitIff(unit: Unit, changed: set<string>)
    ensures IsHit(unit, changed) <==> IsChanged(unit, changed)
  {
    forall k, c | 0 <= k < |unit.paths| && c in changed
      ensures c == unit.paths[k] || StartsWith(c, TrimSlashes(unit.paths[k]) + "/") <==> IsAtOrUnder(c, unit.paths[k])
    {
      TouchIff(c, unit.paths[k]);
    }
    hide IsAtOrUnder, TrimSlashes, StartsWith;
    if IsHit(unit, changed) {
      var k :| 0 <= k < |unit.paths| && Touches(unit.paths[k], changed);
      var c :| c in changed && (c == unit.paths[k] || StartsWith(c, TrimSlashes(unit.paths[k]) + "/"));
      assert IsAtOrUnder(c, unit.paths[k]);
    }
    if IsChanged(unit, changed) {
      var k, c :| 0 <= k < |unit.paths| && c in changed && IsAtOrUnder(c, unit.paths[k]);
      assert Touches(unit.paths[k], changed);
    }
  }

  /** An edge that carries a producer's invalidation to its consumer. */
  predicate CarriesOn(edge: Edge, x: string, y: string) {
    && (edge.kind == "PROOF_DEPENDENCY" || edge.kind == "CONTRACT_CONSUMES" || edge.kind == "COMPILE_DEPENDENCY")
    && edge.source == x && edge.target == y
  }

  predicate SomeCarries(edges: seq<Edge>, x: string, y: string) {
    exists k | 0 <= k < |edges| :: CarriesOn(edges[k], x, y)
  }

  lemma LinkedIff(edges: seq<Edge>, x: string, y: string)
    ensures LinkedBy(edges, x, y) <==> SomeCarries(edges, x, y)
  {
    forall k | 0 <= k < |edges|
      ensures IsPrerequisite(edges[k].kind) && edges[k].source == x && edges[k].target == y <==>
              CarriesOn(edges[k], x, y)
    {
    }
    hide IsPrerequisite, CarriesOn;
  }

  /** From the id of a changed unit along such edges. */
  ghost predicate IsInvalidated(e: Estate, changed: set<string>, p: seq<string>) {
    && p != [] && (exists k | 0 <= k < |e.units| :: e.units[k].id == p[0] && IsChanged(e.units[k], changed))
    && forall i | 0 <= i < |p| - 1 :: SomeCarries(e.edges, p[i], p[i + 1])
  }

  lemma WidensIff(changed: set<string>, inputs: set<string>)
    ensures Widens(changed, inputs) <==> exists c | c in changed :: IsGlobal(c, inputs)
  {
    forall c: string
      ensures StartsWith(c, "tools/verification/") <==> |c| >= 19 && c[..19] == "tools/verification/"
      ensures StartsWith(c, "verification/policy/") <==> |c| >= 20 && c[..20] == "verification/policy/"
    {
    }
    hide StartsWith;
  }

  lemma InvalidatedIff(e: Estate, changed: set<string>, p: seq<string>)
    ensures IsInvalidated(e, changed, p) <==> IsChain(e.edges, p) && p[0] in Hits(e.units, changed)
  {
    hide IsHit, IsChanged;
    forall k | 0 <= k < |e.units| ensures IsHit(e.units[k], changed) <==> IsChanged(e.units[k], changed) {
      HitIff(e.units[k], changed);
    }
    forall x, y ensures LinkedBy(e.edges, x, y) <==> SomeCarries(e.edges, x, y) { LinkedIff(e.edges, x, y); }
    hide LinkedBy, SomeCarries;
    assert p != [] ==> (p[0] in Hits(e.units, changed) <==>
                        exists k | 0 <= k < |e.units| :: e.units[k].id == p[0] && IsChanged(e.units[k], changed));
  }

  /** What a change affects: every declared unit if some changed file is global; otherwise exactly what edges lead to
      from the units whose paths it touches. */
  lemma AffectedIff(e: Estate, changed: set<string>, x: string)
    ensures x in Affected(e, changed) <==>
            if exists c | c in changed :: IsGlobal(c, e.inputs) then exists k | 0 <= k < |e.units| :: e.units[k].id == x
            else exists p: seq<string> :: IsInvalidated(e, changed, p) && p[|p| - 1] == x
  {
    WidensIff(changed, e.inputs);
    LeastClosedIsChained(Hits(e.units, changed), e.edges, x);
    forall p: seq<string>
      ensures IsInvalidated(e, changed, p) <==> IsChain(e.edges, p) && p[0] in Hits(e.units, changed)
    {
      InvalidatedIff(e, changed, p);
    }
    hide Widens, Hits, LeastClosed, IsChain, IsInvalidated, IsGlobal;
  }

  // ---- what it then requires ---------------------------------------------------------------------------------

  lemma {:induction false} LanesIff(units: seq<Unit>, affected: set<string>, lane: string)
    ensures lane in Lanes(units, affected) <==>
            exists k | 0 <= k < |units| :: units[k].id in affected && lane in units[k].lanes
  {
    if units == [] {
    } else {
      LanesIff(units[1..], affected, lane);
      assert forall k | 0 <= k < |units| - 1 :: units[1..][k] == units[k + 1];
      if lane in Lanes(units[1..], affected) {
        var k :| 0 <= k < |units| - 1 && units[1..][k].id in affected && lane in units[1..][k].lanes;
        assert units[k + 1].id in affected;
      }
    }
  }

  /** The lane is required: some declared unit that is affected claims it. */
  ghost predicate IsRequired(e: Estate, changed: set<string>, lane: string) {
    exists k | 0 <= k < |e.units| :: e.units[k].id in Affected(e, changed) && lane in e.units[k].lanes
  }

  /** The job runs the lane: it invokes the lane's own script, or the umbrella. */
  predicate JobRuns(job: Job, lane: string, scripts: map<string, string>) {
    && lane in scripts
    && ("tools/verification/" + scripts[lane] in job.invoked || "tools/verification/verify" in job.invoked)
  }

  ghost predicate SomeJobRuns(e: Estate, lane: string) {
    exists k | 0 <= k < |e.jobs| :: JobRuns(e.jobs[k], lane, e.scripts)
  }

  lemma ChecksForIff(e: Estate, lane: string, name: string)
    ensures name in ChecksFor(lane, e) <==>
            exists k | 0 <= k < |e.jobs| :: e.jobs[k].name == name && JobRuns(e.jobs[k], lane, e.scripts)
  {
  }

  lemma ResolvableIff(e: Estate, lane: string)
    ensures IsResolvable(lane, e) <==> lane != "<malformed-evidence-uri>" && SomeJobRuns(e, lane)
  {
    if SomeJobRuns(e, lane) {
      var k :| 0 <= k < |e.jobs| && JobRuns(e.jobs[k], lane, e.scripts);
      assert e.jobs[k].name in ChecksFor(lane, e);
    }
    if ChecksFor(lane, e) != {} {
      var name :| name in ChecksFor(lane, e);
      ChecksForIff(e, lane, name);
    }
  }

  /** The gate cannot decide: a required lane is malformed or run by no job, or nothing at all is required. */
  ghost predicate CannotDecide(e: Estate, changed: set<string>) {
    || (exists lane :: IsRequired(e, changed, lane) && (lane == "<malformed-evidence-uri>" || !SomeJobRuns(e, lane)))
    || ((forall lane :: !IsRequired(e, changed, lane)) && e.ruleset == {})
  }

  lemma RequiredIff(e: Estate, changed: set<string>, lane: string)
    ensures lane in RequiredLanes(e, changed) <==> IsRequired(e, changed, lane)
  {
    hide Affected;
    LanesIff(e.units, Affected(e, changed), lane);
  }

  lemma UndecidableIff(e: Estate, changed: set<string>, runs: map<string, Run>, sha: string, shared: set<string>)
    ensures Asked(e, changed).Undecidable? <==> CannotDecide(e, changed)
    ensures ExitUnder(e, changed, runs, sha, shared) == 3 <==> CannotDecide(e, changed)
  {
    hide RequiredLanes, IsRequired, IsResolvable, SomeJobRuns, ChecksFor;
    forall lane
      ensures lane in RequiredLanes(e, changed) <==> IsRequired(e, changed, lane)
      ensures IsResolvable(lane, e) <==> lane != "<malformed-evidence-uri>" && SomeJobRuns(e, lane)
    {
      RequiredIff(e, changed, lane);
      ResolvableIff(e, lane);
    }
    var lanes := RequiredLanes(e, changed);
    if lanes != {} { var lane :| lane in lanes; }
  }

  /** The check is one the gate asks for under this lane: a job that runs the lane, or, where no lane is required, the
      ruleset's check of that name. */
  ghost predicate IsAskedFor(e: Estate, changed: set<string>, lane: string, name: string) {
    if exists any :: IsRequired(e, changed, any)
    then
      && IsRequired(e, changed, lane)
      && exists k | 0 <= k < |e.jobs| :: e.jobs[k].name == name && JobRuns(e.jobs[k], lane, e.scripts)
    else lane == name && name in e.ruleset
  }

  lemma AskedIff(e: Estate, changed: set<string>, lane: string, name: string)
    requires Asked(e, changed).Decided?
    ensures lane in Asked(e, changed).value && name in Asked(e, changed).value[lane] <==>
            IsAskedFor(e, changed, lane, name)
    ensures lane in Asked(e, changed).value <==> exists other :: IsAskedFor(e, changed, lane, other)
  {
    var lanes := RequiredLanes(e, changed);
    forall l ensures l in lanes <==> IsRequired(e, changed, l) { RequiredIff(e, changed, l); }
    forall n
      ensures n in ChecksFor(lane, e) <==>
              exists k | 0 <= k < |e.jobs| :: e.jobs[k].name == n && JobRuns(e.jobs[k], lane, e.scripts)
    {
      ChecksForIff(e, lane, n);
    }
    hide RequiredLanes, IsRequired, ChecksFor, JobRuns;
    if lanes != {} {
      var any :| any in lanes;
      assert IsRequired(e, changed, any);
      if lane in lanes {
        assert IsResolvable(lane, e);
        var n :| n in ChecksFor(lane, e);
        assert IsAskedFor(e, changed, lane, n);
      }
    } else if lane in e.ruleset {
      assert IsAskedFor(e, changed, lane, lane);
    }
  }

  // ---- what it then answers ------------------------------------------------------------------------------------

  predicate IsRed(conclusion: string) {
    || conclusion == "failure" || conclusion == "timed_out" || conclusion == "action_required"
    || conclusion == "startup_failure"
  }

  /** The reported run that speaks for the check is red. */
  ghost predicate SaysRed(raw: seq<Run>, name: string) {
    exists k | 0 <= k < |raw| :: IsLatestAt(raw, |raw|, k, name) && IsRed(raw[k].conclusion)
  }

  lemma RedIff(raw: seq<Run>, name: string)
    ensures SaysFailure(raw, name) <==> SaysRed(raw, name)
  {
    hide IsLatestAt;
    assert forall c :: IsFailing(c) <==> IsRed(c);
    hide IsFailing, IsRed;
  }

  lemma SharedIff(jobs: seq<Job>, name: string)
    ensures name in Shared(jobs) <==>
            exists k | 0 <= k < |jobs| :: jobs[k].name == name && "tools/verification/verify" in jobs[k].invoked
  {
  }

  /** The lane has a check the gate asks for, and the run that speaks for it succeeded at this commit. */
  ghost predicate IsGreen(e: Estate, changed: set<string>, lane: string, raw: seq<Run>, sha: string) {
    exists name :: IsAskedFor(e, changed, lane, name) && SaysSuccess(raw, name, sha)
  }

  /** The lane has a check of its own that is red. */
  ghost predicate IsOwnRed(e: Estate, changed: set<string>, lane: string, raw: seq<Run>, shared: set<string>) {
    exists name :: IsAskedFor(e, changed, lane, name) && name !in shared && SaysRed(raw, name)
  }

  ghost predicate IsAsked(e: Estate, changed: set<string>, lane: string) {
    exists name :: IsAskedFor(e, changed, lane, name)
  }

  lemma LaneSays(e: Estate, changed: set<string>, lane: string, raw: seq<Run>, sha: string, shared: set<string>)
    requires Asked(e, changed).Decided?
    ensures lane in Asked(e, changed).value <==> IsAsked(e, changed, lane)
    ensures lane in Asked(e, changed).value ==>
            var checks := Asked(e, changed).value[lane];
            && ((exists name | name in checks :: SaysSuccess(raw, name, sha)) <==> IsGreen(e, changed, lane, raw, sha))
            && ((exists name | name in checks :: name !in shared && SaysFailure(raw, name)) <==>
                IsOwnRed(e, changed, lane, raw, shared))
  {
    hide Asked, IsAskedFor, SaysSuccess, SaysFailure, SaysRed;
    forall name
      ensures lane in Asked(e, changed).value && name in Asked(e, changed).value[lane] <==>
              IsAskedFor(e, changed, lane, name)
      ensures lane in Asked(e, changed).value <==> exists other :: IsAskedFor(e, changed, lane, other)
      ensures SaysFailure(raw, name) <==> SaysRed(raw, name)
    {
      AskedIff(e, changed, lane, name);
      RedIff(raw, name);
    }
    AskedIff(e, changed, lane, "");
  }

  /** Ready: the gate can decide, and every lane it asks about is green. */
  lemma ReadyLaw(e: Estate, changed: set<string>, raw: seq<Run>, sha: string, shared: set<string>)
    ensures ExitUnder(e, changed, Latest(raw), sha, shared) == 0 <==>
            !CannotDecide(e, changed) && forall lane | IsAsked(e, changed, lane) :: IsGreen(e, changed, lane, raw, sha)
  {
    hide Asked, ExitUnder, CannotDecide, SaysSuccess, SaysFailure, IsAsked, IsGreen, IsOwnRed, Latest;
    ReadyIsNeverVacuous(e, changed, raw, sha, shared);
    UndecidableIff(e, changed, Latest(raw), sha, shared);
    if Asked(e, changed).Decided? {
      SomethingIsAsked(e, changed);
      forall lane
        ensures lane in Asked(e, changed).value <==> IsAsked(e, changed, lane)
        ensures lane in Asked(e, changed).value ==>
                ((exists name | name in Asked(e, changed).value[lane] :: SaysSuccess(raw, name, sha)) <==>
                 IsGreen(e, changed, lane, raw, sha))
      {
        LaneSays(e, changed, lane, raw, sha, shared);
      }
    }
  }

  /** Failed: the gate can decide, and some lane it asks about is red on its own and not green. */
  lemma FailedLaw(e: Estate, changed: set<string>, raw: seq<Run>, sha: string, shared: set<string>)
    ensures ExitUnder(e, changed, Latest(raw), sha, shared) == 2 <==>
            && !CannotDecide(e, changed)
            && exists lane :: IsOwnRed(e, changed, lane, raw, shared) && !IsGreen(e, changed, lane, raw, sha)
  {
    FailureIsAttributable(e, changed, raw, sha, shared);
    UndecidableIff(e, changed, Latest(raw), sha, shared);
    forall lane | IsOwnRed(e, changed, lane, raw, shared) ensures IsAsked(e, changed, lane) {
      OwnRedIsAsked(e, changed, lane, raw, shared);
    }
    hide Asked, ExitUnder, CannotDecide, SaysSuccess, SaysFailure, IsAsked, IsGreen, IsOwnRed, Latest;
    if Asked(e, changed).Decided? {
      forall lane
        ensures lane in Asked(e, changed).value <==> IsAsked(e, changed, lane)
        ensures lane in Asked(e, changed).value ==>
                var checks := Asked(e, changed).value[lane];
                && ((exists name | name in checks :: SaysSuccess(raw, name, sha)) <==>
                    IsGreen(e, changed, lane, raw, sha))
                && ((exists name | name in checks :: name !in shared && SaysFailure(raw, name)) <==>
                    IsOwnRed(e, changed, lane, raw, shared))
      {
        LaneSays(e, changed, lane, raw, sha, shared);
      }
    }
  }

  lemma OwnRedIsAsked(e: Estate, changed: set<string>, lane: string, raw: seq<Run>, shared: set<string>)
    requires IsOwnRed(e, changed, lane, raw, shared)
    ensures IsAsked(e, changed, lane)
  {
    hide IsAskedFor, SaysRed;
  }

  /** Why a check does not satisfy: the first of the four conditions it misses, and what it has instead. */
  lemma ReasonIs(name: string, runs: map<string, Run>, sha: string)
    ensures var (ok, why) := Classify(name, runs, sha);
            && (why == Missing <==> name !in runs)
            && (name in runs ==>
                  var run := runs[name];
                  && (run.headSha != sha ==> why == AtAnotherCommit(run.headSha))
                  && (run.headSha == sha && run.status != "completed" ==> why == Incomplete(run.status))
                  && (run.headSha == sha && run.status == "completed" && run.conclusion != "success" ==>
                        why == Concluded(run.conclusion))
                  && (ok <==> run.headSha == sha && run.status == "completed" && run.conclusion == "success"))
  {
  }
}
