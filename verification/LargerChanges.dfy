/** `merge_readiness_gate` on a change and a larger one: what is affected, what is required, what the gate answers. */
module LargerChanges {
  import opened Readiness

  lemma MoreChangesHitMore(e: Estate, few: set<string>, many: set<string>)
    requires few <= many
    ensures Widens(few, e.inputs) ==> Widens(many, e.inputs)
    ensures Hits(e.units, few) <= Hits(e.units, many) <= Ids(e.units)
  {
    hide StartsWith;
    forall k | 0 <= k < |e.units| && IsHit(e.units[k], few) ensures IsHit(e.units[k], many) {
      var j :| 0 <= j < |e.units[k].paths| && Touches(e.units[k].paths[j], few);
      assert Touches(e.units[k].paths[j], many);
    }
  }

  /** Enlarging the change only enlarges the affected units, among those the manifest declares. */
  lemma MoreChangesAffectMore(e: Estate, few: set<string>, many: set<string>)
    requires few <= many
    ensures Affected(e, few) * Ids(e.units) <= Affected(e, many)
    ensures !Widens(many, e.inputs) ==> Affected(e, few) <= Affected(e, many)
  {
    hide Widens, Hits, Ids, Closed, LeastClosed;
    MoreChangesHitMore(e, few, many);
    LeastClosedIsLeast(Hits(e.units, few), e.edges);
    LeastClosedIsLeast(Hits(e.units, many), e.edges);
  }

  /** A chain of prerequisite edges. */
  ghost predicate IsChain(edges: seq<Edge>, p: seq<string>) {
    p != [] && forall k | 0 <= k < |p| - 1 :: LinkedBy(edges, p[k], p[k + 1])
  }

  predicate LinkedBy(edges: seq<Edge>, x: string, y: string) {
    exists k | 0 <= k < |edges| :: IsPrerequisite(edges[k].kind) && edges[k].source == x && edges[k].target == y
  }

  ghost predicate ChainTo(edges: seq<Edge>, start: set<string>, x: string) {
    exists p: seq<string> :: IsChain(edges, p) && p[0] in start && p[|p| - 1] == x
  }

  lemma {:induction false} ChainStaysInside(edges: seq<Edge>, t: set<string>, p: seq<string>, k: nat)
    requires Closed(t, edges) && IsChain(edges, p) && p[0] in t && k < |p|
    ensures p[k] in t
  {
    hide IsPrerequisite;
    if k == 0 {
    } else {
      ChainStaysInside(edges, t, p, k - 1);
      assert LinkedBy(edges, p[k - 1], p[k - 1 + 1]);
      var j :| 0 <= j < |edges| && IsPrerequisite(edges[j].kind) && edges[j].source == p[k - 1]
          && edges[j].target == p[k];
      assert Carries(edges[j], t);
    }
  }

  lemma ChainNext(edges: seq<Edge>, start: set<string>, k: nat)
    requires k < |edges| && IsPrerequisite(edges[k].kind) && ChainTo(edges, start, edges[k].source)
    ensures ChainTo(edges, start, edges[k].target)
  {
    hide IsPrerequisite;
    var p: seq<string> :| IsChain(edges, p) && p[0] in start && p[|p| - 1] == edges[k].source;
    var q := p + [edges[k].target];
    hide LinkedBy;
    assert LinkedBy(edges, edges[k].source, edges[k].target) by { Linked(edges, k); }
    forall j | 0 <= j < |q| - 1 ensures LinkedBy(edges, q[j], q[j + 1]) {
      if j < |p| - 1 { assert LinkedBy(edges, p[j], p[j + 1]); }
    }
    assert IsChain(edges, q) && q[0] in start && q[|q| - 1] == edges[k].target;
  }

  lemma Linked(edges: seq<Edge>, k: nat)
    requires k < |edges| && IsPrerequisite(edges[k].kind)
    ensures LinkedBy(edges, edges[k].source, edges[k].target)
  {
  }

  /** The least closed set is what chains of prerequisite edges lead to. */
  lemma LeastClosedIsChained(start: set<string>, edges: seq<Edge>, x: string)
    ensures x in LeastClosed(start, edges) <==> ChainTo(edges, start, x)
  {
    LeastClosedIsLeast(start, edges);
    var s := LeastClosed(start, edges);
    hide IsPrerequisite, LeastClosed;
    if ChainTo(edges, start, x) {
      var p: seq<string> :| IsChain(edges, p) && p[0] in start && p[|p| - 1] == x;
      ChainStaysInside(edges, s, p, |p| - 1);
    }
    var chained := set y | y in s && ChainTo(edges, start, y);
    forall y | y in start ensures y in chained { assert IsChain(edges, [y]); }
    hide ChainTo;
    forall k | 0 <= k < |edges| && Carries(edges[k], chained) ensures edges[k].target in chained {
      assert Carries(edges[k], s);
      ChainNext(edges, start, k);
    }
    assert Closed(chained, edges);
  }

  /** What a change affects is declared exactly when it widens or its chains lead to declared ids only. */
  lemma AffectsDeclaredIff(e: Estate, changed: set<string>)
    ensures Affected(e, changed) <= Ids(e.units) <==>
            Widens(changed, e.inputs) || forall x | ChainTo(e.edges, Hits(e.units, changed), x) :: x in Ids(e.units)
  {
    var hits, least := Hits(e.units, changed), LeastClosed(Hits(e.units, changed), e.edges);
    hide ChainTo, Widens, LeastClosed, Hits, Ids;
    forall x ensures x in least <==> ChainTo(e.edges, hits, x) { LeastClosedIsChained(hits, e.edges, x); }
  }

  lemma WidenedIsDeclared(e: Estate, changed: set<string>)
    requires "tools/verification/verify" in changed
    ensures Affected(e, changed) == Ids(e.units)
  {
    hide Widens, LeastClosed, Hits, Ids;
    ToolingWidens(changed, e.inputs);
  }

  /** A change keeps all it affects under every enlargement exactly when it already widens, or no chain of
      prerequisite edges leads from a unit it hits to an id the manifest does not declare: a global widening
      leaves those out. */
  lemma AffectedIsMonotoneIff(e: Estate, few: set<string>)
    ensures (forall many: set<string> | few <= many :: Affected(e, few) <= Affected(e, many)) <==>
            Widens(few, e.inputs) || forall x | ChainTo(e.edges, Hits(e.units, few), x) :: x in Ids(e.units)
  {
    hide ChainTo, Widens, Hits, Ids, Affected;
    AffectsDeclaredIff(e, few);
    var wide := few + {"tools/verification/verify"};
    WidenedIsDeclared(e, wide);
    assert few <= wide;
    if Affected(e, few) <= Ids(e.units) {
      forall many: set<string> | few <= many ensures Affected(e, few) <= Affected(e, many) {
        MoreChangesAffectMore(e, few, many);
        assert Affected(e, few) * Ids(e.units) == Affected(e, few);
      }
    }
  }

  lemma ToolingWidens(changed: set<string>, inputs: set<string>)
    requires "tools/verification/verify" in changed
    ensures Widens(changed, inputs)
  {
    assert "tools/verification/verify"[..|"tools/verification/"|] == "tools/verification/";
    assert StartsWith("tools/verification/verify", "tools/verification/");
  }

  /** A change that loses an affected id as it grows: the edge leads to an id the manifest does not declare. */
  lemma EnlargingCanShrink() returns (e: Estate, few: set<string>, many: set<string>)
    ensures few <= many && !(Affected(e, few) <= Affected(e, many))
  {
    var unit := Unit("u", ["a"], {});
    e := Estate([unit], [Edge("PROOF_DEPENDENCY", "u", "ghost")], {}, map[], [], {});
    few, many := {"a"}, {"a", "tools/verification/verify"};
    HitsOne(e, unit);
    ChainsOne(e);
    assert "ghost" !in Ids(e.units);
    hide Affected, Hits, ChainTo, Ids;
    WidenedIsDeclared(e, many);
    AffectsDeclaredIff(e, few);
  }

  lemma HitsOne(e: Estate, unit: Unit)
    requires e.units == [unit] && unit == Unit("u", ["a"], {}) && e.inputs == {}
    ensures !Widens({"a"}, e.inputs) && "u" in Hits(e.units, {"a"})
  {
    assert Touches(unit.paths[0], {"a"}) && IsHit(unit, {"a"});
    assert e.units[0] == unit;
  }

  lemma ChainsOne(e: Estate)
    requires e.edges == [Edge("PROOF_DEPENDENCY", "u", "ghost")] && "u" in Hits(e.units, {"a"})
    ensures ChainTo(e.edges, Hits(e.units, {"a"}), "ghost")
  {
    hide Hits;
    assert IsPrerequisite(e.edges[0].kind);
    assert LinkedBy(e.edges, "u", "ghost");
    var chain := ["u", "ghost"];
    assert IsChain(e.edges, chain);
  }

  lemma {:induction false} MoreAffectedMoreLanes(units: seq<Unit>, few: set<string>, many: set<string>)
    requires forall k | 0 <= k < |units| && units[k].id in few :: units[k].id in many
    ensures Lanes(units, few) <= Lanes(units, many)
  {
    if units == [] {
    } else {
      assert units[0].id in few ==> units[0].id in many;
      MoreAffectedMoreLanes(units[1..], few, many);
    }
  }

  lemma MoreChangesMoreLanes(e: Estate, few: set<string>, many: set<string>)
    requires few <= many
    ensures RequiredLanes(e, few) <= RequiredLanes(e, many)
  {
    MoreChangesAffectMore(e, few, many);
    forall k | 0 <= k < |e.units| && e.units[k].id in Affected(e, few) ensures e.units[k].id in Affected(e, many) {
      assert e.units[k].id in Ids(e.units);
    }
    hide Affected;
    MoreAffectedMoreLanes(e.units, Affected(e, few), Affected(e, many));
  }

  /** A larger change is never closer to ready, as long as the smaller one already requires a lane: the exit
      status can only grow, undecidable included. */
  lemma LargerChangeIsNoCloserToReady(
    e: Estate, few: set<string>, many: set<string>, runs: map<string, Run>, sha: string
  )
    requires few <= many && RequiredLanes(e, few) != {}
    ensures Exit(e, few, runs, sha) <= Exit(e, many, runs, sha)
  {
    hide RequiredLanes, ChecksFor, Verdict, IsResolvable;
    MoreChangesMoreLanes(e, few, many);
    var lanes, more := RequiredLanes(e, few), RequiredLanes(e, many);
    if forall lane | lane in more :: IsResolvable(lane, e) {
      MoreLanesNoCloser(RequiredChecks(e, lanes), RequiredChecks(e, more), runs, sha, Shared(e.jobs));
    }
  }

  /** The larger change is at least as strict as the smaller one, told of what is required: the smaller one
      requires a lane, or the larger one requires none either or cannot be decided, or the ruleset asks for
      something and each of its checks alone decides some lane of the larger change. */
  ghost predicate IsAsStrict(e: Estate, few: set<string>, many: set<string>) {
    var lanes := RequiredLanes(e, many);
    || RequiredLanes(e, few) != {}
    || lanes == {}
    || (exists lane | lane in lanes :: !IsResolvable(lane, e))
    || (e.ruleset != {} && forall name | name in e.ruleset :: DecidesALane(e, lanes, name))
  }

  ghost predicate DecidesALane(e: Estate, lanes: set<string>, name: string) {
    exists lane | lane in lanes :: ChecksFor(lane, e) == {name}
  }

  /** Enlarging the change never lowers the exit status, whatever ran and at whatever commit, exactly when the
      larger change is at least as strict. */
  lemma ExitIsMonotoneIff(e: Estate, few: set<string>, many: set<string>)
    requires few <= many
    ensures (forall runs: map<string, Run>, sha: string :: Exit(e, few, runs, sha) <= Exit(e, many, runs, sha)) <==>
            IsAsStrict(e, few, many)
  {
    var lanes := RequiredLanes(e, many);
    hide RequiredLanes, ChecksFor, Verdict, IsResolvable, DecidesALane;
    MoreChangesMoreLanes(e, few, many);
    if RequiredLanes(e, few) != {} {
      forall runs: map<string, Run>, sha: string ensures Exit(e, few, runs, sha) <= Exit(e, many, runs, sha) {
        LargerChangeIsNoCloserToReady(e, few, many, runs, sha);
      }
    } else if lanes != {} && forall lane | lane in lanes :: IsResolvable(lane, e) {
      var required := RequiredChecks(e, lanes);
      forall runs: map<string, Run>, sha: string
        ensures Exit(e, many, runs, sha) == Level(Verdict(required, runs, sha, Shared(e.jobs))) {}
      if e.ruleset == {} {
        assert Exit(e, few, map[], "") == 3;
      } else if forall name | name in e.ruleset :: DecidesALane(e, lanes, name) {
        forall runs: map<string, Run>, sha: string ensures Exit(e, few, runs, sha) <= Exit(e, many, runs, sha) {
          RulesetNoStricter(e, lanes, runs, sha);
        }
      } else {
        var name :| name in e.ruleset && !DecidesALane(e, lanes, name);
        var runs := RulesetStricter(e, lanes, name);
        assert Exit(e, few, runs, "") > Exit(e, many, runs, "");
      }
    }
  }

  /** Checks that each decide a lane are no stricter than the lanes. */
  lemma RulesetNoStricter(e: Estate, lanes: set<string>, runs: map<string, Run>, sha: string)
    requires forall name | name in e.ruleset :: DecidesALane(e, lanes, name)
    ensures Level(Verdict(RulesetChecks(e), runs, sha, Shared(e.jobs))) <=
            Level(Verdict(RequiredChecks(e, lanes), runs, sha, Shared(e.jobs)))
  {
    hide LaneState, Verdict, ChecksFor;
    var ruleset, required := RulesetChecks(e), RequiredChecks(e, lanes);
    VerdictIsJoin(ruleset, runs, sha, Shared(e.jobs));
    VerdictIsJoin(required, runs, sha, Shared(e.jobs));
    if Verdict(ruleset, runs, sha, Shared(e.jobs)) != Ready {
      var name :| name in ruleset
          && LaneState(ruleset[name], runs, sha, Shared(e.jobs)) == Verdict(ruleset, runs, sha, Shared(e.jobs));
      var lane :| lane in lanes && ChecksFor(lane, e) == {name};
      assert required[lane] == ruleset[name];
    }
  }

  /** A check that decides no lane alone: let it be missing and everything else succeed. */
  lemma RulesetStricter(e: Estate, lanes: set<string>, name: string) returns (runs: map<string, Run>)
    requires name in e.ruleset && !DecidesALane(e, lanes, name) && forall lane | lane in lanes :: IsResolvable(lane, e)
    ensures Level(Verdict(RulesetChecks(e), runs, "", Shared(e.jobs))) > 0
    ensures Verdict(RequiredChecks(e, lanes), runs, "", Shared(e.jobs)) == Ready
  {
    var all := set lane, check | lane in lanes && check in ChecksFor(lane, e) :: check;
    runs := map check | check in all && check != name :: Run(check, "", "completed", "success", "");
    assert !Meets(name, runs, "");
    assert RulesetChecks(e)[name] == {name};
    assert LaneState({name}, runs, "", Shared(e.jobs)) != Ready;
    hide ChecksFor;
    forall lane | lane in lanes ensures LaneState(ChecksFor(lane, e), runs, "", Shared(e.jobs)) == Ready {
      assert ChecksFor(lane, e) != {} && ChecksFor(lane, e) != {name};
      var check :| check in ChecksFor(lane, e) && check != name;
      assert Meets(check, runs, "");
    }
  }

  /** Without a lane the smaller change answers to the ruleset instead, and there a larger change can be
      ready where the smaller one failed. */
  lemma RulesetCanBeStricter()
    returns (e: Estate, few: set<string>, many: set<string>, runs: map<string, Run>, sha: string)
    ensures few <= many && RequiredLanes(e, few) == {}
    ensures Exit(e, few, runs, sha) == 2 && Exit(e, many, runs, sha) == 0
  {
    sha := "c";
    var lane, unit := Job("lane", {"tools/verification/t"}), Unit("u", ["a"], {"test"});
    e := Estate([unit], [], {}, map["test" := "t"], [lane], {"build"});
    runs := map["lane" := Run("lane", sha, "completed", "success", ""),
        "build" := Run("build", sha, "completed", "failure", "")];
    few, many := {}, {"a"};
    StricterLanes(e, unit);
    StricterChecks(e, lane, runs, sha);
  }

  lemma StricterLanes(e: Estate, unit: Unit)
    requires e.units == [unit] && unit == Unit("u", ["a"], {"test"}) && e.edges == [] && e.inputs == {}
    ensures RequiredLanes(e, {}) == {} && RequiredLanes(e, {"a"}) == {"test"}
  {
    assert !Widens({}, e.inputs);
    assert !Widens({"a"}, e.inputs);
    assert Closed({}, e.edges) && Closed({"u"}, e.edges);
    assert Touches(unit.paths[0], {"a"}) && IsHit(unit, {"a"}) && !IsHit(unit, {});
    assert Hits(e.units, {"a"}) == {"u"} by { assert e.units[0] == unit; }
    assert Hits(e.units, {}) == {};
    LeastClosedIsLeast({}, e.edges);
    LeastClosedIsLeast({"u"}, e.edges);
    assert Affected(e, {}) == {} && Affected(e, {"a"}) == {"u"};
    assert e.units[1..] == [];
    assert Lanes(e.units, {}) == {} + Lanes(e.units[1..], {}) == {};
    assert Lanes(e.units, {"u"}) == {"test"} + Lanes(e.units[1..], {"u"}) == {"test"};
  }

  lemma StricterChecks(e: Estate, lane: Job, runs: map<string, Run>, sha: string)
    requires e.jobs == [lane] && lane == Job("lane", {"tools/verification/t"}) && e.scripts == map["test" := "t"]
             && e.ruleset == {"build"}
    requires runs == map["lane" := Run("lane", sha, "completed", "success", ""),
             "build" := Run("build", sha, "completed", "failure", "")]
    ensures IsResolvable("test", e) && Shared(e.jobs) == {}
    ensures Verdict(RequiredChecks(e, {"test"}), runs, sha, {}) == Ready
    ensures Verdict(RulesetChecks(e), runs, sha, {}) == Failed
  {
    assert "tools/verification/" + "t" == "tools/verification/t";
    assert RunsLane(e.jobs[0], "t");
    assert ChecksFor("test", e) == {"lane"} by { assert e.jobs[0].name == "lane"; }
    assert Shared(e.jobs) == {} by { assert |UMBRELLA| > |"tools/verification/t"|; }
    assert Meets("lane", runs, sha) && !Meets("build", runs, sha) && FailsOnItsOwn("build", runs, {});
    assert LaneState({"lane"}, runs, sha, {}) == Ready && LaneState({"build"}, runs, sha, {}) == Failed;
    assert RulesetChecks(e)["build"] == {"build"};
  }
}
