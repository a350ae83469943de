/** `bazel_only_packages` in the crate-spec parity gate: the locked packages exempt from comparison because
    only Bazel asks for them, and when reading the lock by name gets them right. */
module CrateLock {
  import opened Wrappers
  import opened Sequences
  import opened Reachability

  /** A dependency as a lock writes it: a name, and the version where the lock holds several. */
  datatype Dependency = Dependency(name: string, version: Option<string>)

  datatype Package = Package(name: string, version: string, dependencies: seq<Dependency>)

  const SPLICE_ROOT := "direct-cargo-bazel-deps"

  function Names(dependencies: seq<Dependency>): (names: seq<string>)
    ensures forall x :: x in names <==> exists d | d in dependencies :: d.name == x
  {
    if dependencies == [] then []
    else Names(dependencies[..|dependencies| - 1]) + [dependencies[|dependencies| - 1].name]
  }

  /** The edges the gate reads off the lock: by name, so the last version of a name speaks for all. */
  function EdgesOf(lock: seq<Package>): Graph<string> {
    if lock == [] then map[]
    else var last := lock[|lock| - 1]; EdgesOf(lock[..|lock| - 1])[last.name := Names(last.dependencies)]
  }

  /** What the splice root asks for: the specs. */
  function Specs(lock: seq<Package>): seq<Dependency> {
    if lock == [] then []
    else var last := lock[|lock| - 1]; if last.name == SPLICE_ROOT then last.dependencies else Specs(lock[..|lock| - 1])
  }

  function Direct(lock: seq<Package>): set<string> {
    Elements(Names(Specs(lock)))
  }

  /** Told of some spec Bazel alone asks for, and of no other. */
  ghost predicate Only(direct: set<string>, bazel: set<string>, told: string -> bool) {
    (exists d | d in direct * bazel :: told(d)) && !exists d | d in direct - bazel :: told(d)
  }

  /** Exempt as the gate reads the lock: reached by name from a Bazel-only spec, and from no other. */
  ghost predicate IsBazelOnly(lock: seq<Package>, bazel: set<string>, x: string) {
    Only(Direct(lock), bazel, d => Reaches(EdgesOf(lock), d, x))
  }

  method ReadEdges(lock: seq<Package>) returns (edges: Graph<string>)
    ensures edges == EdgesOf(lock)
    ensures Successors(edges, SPLICE_ROOT) == Names(Specs(lock))
  {
    edges := map[];
    for k := 0 to |lock|
      invariant edges == EdgesOf(lock[..k])
      invariant Successors(edges, SPLICE_ROOT) == Names(Specs(lock[..k]))
    {
      assert lock[..k + 1][..k] == lock[..k];
      edges := edges[lock[k].name := Names(lock[k].dependencies)];
    }
    assert lock[..|lock|] == lock;
  }

  method Filter(s: seq<string>, specs: set<string>, inside: bool) returns (r: seq<string>)
    ensures Elements(r) == if inside then Elements(s) * specs else Elements(s) - specs
  {
    r := [];
    for k := 0 to |s|
      invariant forall x :: x in r <==> x in s[..k] && (x in specs <==> inside)
    {
      assert s[..k + 1] == s[..k] + [s[k]];
      if s[k] in specs <==> inside { r := r + [s[k]]; }
    }
    assert s[..|s|] == s;
  }

  /** `bazel_only_packages` */
  method BazelOnlyPackages(lock: seq<Package>, bazel: set<string>) returns (only: set<string>)
    ensures forall x :: x in only <==> IsBazelOnly(lock, bazel, x)
  {
    hide Reaches, EdgesOf, Specs, Names;
    var edges := ReadEdges(lock);
    var direct := Successors(edges, SPLICE_ROOT);
    var mine := Filter(direct, bazel, true);
    var others := Filter(direct, bazel, false);
    var reached := Reach(edges, mine);
    var shared := Reach(edges, others);
    only := reached - shared;
  }

  // ---- the lock's own graph ------------------------------------------------------------------------------

  /** The locked package a dependency means. */
  predicate Means(d: Dependency, q: Package) {
    d.name == q.name && (d.version.None? || d.version.value == q.version)
  }

  predicate Needs(p: Package, q: Package) {
    exists d | d in p.dependencies :: Means(d, q)
  }

  function Needed(lock: seq<Package>, p: Package): (r: seq<Package>)
    ensures forall q :: q in r <==> q in lock && Needs(p, q)
  {
    if lock == [] then []
    else var last := lock[|lock| - 1]; Needed(lock[..|lock| - 1], p) + if Needs(p, last) then [last] else []
  }

  /** Locked packages, each with the locked packages it needs. */
  ghost function LockGraph(lock: seq<Package>): Graph<Package> {
    map p | p in lock :: Needed(lock, p)
  }

  /** The packages the specs of this name ask for. */
  ghost function AskedFor(lock: seq<Package>, name: string): set<Package> {
    set q | q in lock && exists d | d in Specs(lock) :: d.name == name && Means(d, q)
  }

  /** The specs of this name draw the package into the lock. */
  ghost predicate DrawsIn(lock: seq<Package>, name: string, q: Package) {
    IsReached(LockGraph(lock), AskedFor(lock, name), q)
  }

  /** Exempt as documented: drawn in by a Bazel-only spec, and by no other. */
  ghost predicate OnlyBazelDrawsIn(lock: seq<Package>, bazel: set<string>, q: Package) {
    Only(Direct(lock), bazel, d => DrawsIn(lock, d, q))
  }

  ghost predicate ExemptsRightly(lock: seq<Package>) {
    forall bazel: set<string>, q | q in lock :: IsBazelOnly(lock, bazel, q.name) <==> OnlyBazelDrawsIn(lock, bazel, q)
  }

  /** What is exempt, over all choices of Bazel-only specs, tells what each spec reaches. */
  lemma OnlyTells(direct: set<string>, a: string -> bool, b: string -> bool, d: string)
    requires forall bazel: set<string> :: Only(direct, bazel, a) <==> Only(direct, bazel, b)
    requires d in direct && a(d)
    ensures b(d)
  {
    if !b(d) {
      var all := set x | x in direct && a(x);
      assert d in direct * all;
      assert Only(direct, all, a);
      var x :| x in direct * all && b(x);
      assert x in direct * (all - {d}) && d in direct - (all - {d});
      assert Only(direct, all - {d}, b);
    }
  }

  /** The exemption is right for every choice of Bazel-only specs exactly when each spec reaches by name what
      it draws into the lock. */
  lemma RightIffSameReach(lock: seq<Package>)
    ensures ExemptsRightly(lock) <==>
            forall d, q | d in Direct(lock) && q in lock :: Reaches(EdgesOf(lock), d, q.name) <==> DrawsIn(lock, d, q)
  {
    hide Reaches, EdgesOf, DrawsIn, Direct;
    if ExemptsRightly(lock) {
      forall d, q | d in Direct(lock) && q in lock ensures Reaches(EdgesOf(lock), d, q.name) <==> DrawsIn(lock, d, q) {
        var named: string -> bool := x => Reaches(EdgesOf(lock), x, q.name);
        var drawn: string -> bool := x => DrawsIn(lock, x, q);
        SameOnly(lock, q, named, drawn);
        if named(d) { OnlyTells(Direct(lock), named, drawn, d); }
        if drawn(d) { OnlyTells(Direct(lock), drawn, named, d); }
      }
    }
  }

  lemma SameOnly(lock: seq<Package>, q: Package, named: string -> bool, drawn: string -> bool)
    requires ExemptsRightly(lock) && q in lock
    requires forall x :: named(x) <==> Reaches(EdgesOf(lock), x, q.name)
    requires forall x :: drawn(x) <==> DrawsIn(lock, x, q)
    ensures forall bazel: set<string> :: Only(Direct(lock), bazel, named) <==> Only(Direct(lock), bazel, drawn)
  {
    hide Reaches, EdgesOf, DrawsIn, Direct;
    forall bazel: set<string> ensures Only(Direct(lock), bazel, named) <==> Only(Direct(lock), bazel, drawn) {
      assert IsBazelOnly(lock, bazel, q.name) <==> OnlyBazelDrawsIn(lock, bazel, q);
    }
  }

  // ---- when that is so, told of the lock -------------------------------------------------------------------

  /** No version of a name the spec reaches needs anything the spec does not reach by name. */
  ghost predicate LeadsNowhereElse(lock: seq<Package>, d: string) {
    forall p, q | p in lock && q in lock && Reaches(EdgesOf(lock), d, p.name) && Needs(p, q) ::
        Reaches(EdgesOf(lock), d, q.name)
  }

  /** Locked versions of names the spec reaches. */
  ghost predicate AreNamed(lock: seq<Package>, d: string, s: set<Package>) {
    forall q | q in s :: q in lock && Reaches(EdgesOf(lock), d, q.name)
  }

  /** The spec asks for the version, or a version of a reached name outside `s` needs it. */
  ghost predicate ComesIn(lock: seq<Package>, d: string, s: set<Package>, q: Package) {
    q in AskedFor(lock, d) || exists p | p in lock && p !in s :: Reaches(EdgesOf(lock), d, p.name) && Needs(p, q)
  }

  /** No versions of the names the spec reaches keep to themselves: into any of them something comes in. */
  ghost predicate LeavesNoStrangers(lock: seq<Package>, d: string) {
    forall s: set<Package> | s != {} && AreNamed(lock, d, s) :: exists q | q in s :: ComesIn(lock, d, s, q)
  }

  lemma DrawnStep(lock: seq<Package>, d: string, p: Package, q: Package)
    requires p in lock && q in lock && DrawsIn(lock, d, p) && Needs(p, q)
    ensures DrawsIn(lock, d, q)
  {
    hide Needs, IsReached;
    SuccessorIsReached(LockGraph(lock), AskedFor(lock, d), p, q);
  }

  lemma AskedIsDrawn(lock: seq<Package>, d: string, q: Package)
    requires q in AskedFor(lock, d)
    ensures DrawsIn(lock, d, q) && q in lock && q.name == d && Reaches(EdgesOf(lock), d, d)
  {
    RootIsReached(LockGraph(lock), AskedFor(lock, d), q);
    assert IsPath(EdgesOf(lock), [d]);
  }

  /** Nothing is drawn in but by name, if no version leads elsewhere. */
  lemma DrawnIsNamed(lock: seq<Package>, d: string, q: Package)
    requires LeadsNowhereElse(lock, d) && DrawsIn(lock, d, q)
    ensures q in lock && Reaches(EdgesOf(lock), d, q.name)
  {
    hide Reaches, EdgesOf;
    var named := set p | p in lock && Reaches(EdgesOf(lock), d, p.name);
    forall a | a in AskedFor(lock, d) ensures a in named { AskedIsDrawn(lock, d, a); }
    assert IsClosed(LockGraph(lock), AskedFor(lock, d), named);
    ClosedHoldsReached(LockGraph(lock), AskedFor(lock, d), named, q);
  }

  /** Everything reached by name is drawn in, if no versions are strangers. */
  lemma NamedIsDrawn(lock: seq<Package>, d: string, q: Package)
    requires LeavesNoStrangers(lock, d) && q in lock && Reaches(EdgesOf(lock), d, q.name)
    ensures DrawsIn(lock, d, q)
  {
    hide Reaches, EdgesOf, DrawsIn, Needs, AskedFor;
    var strangers := set p | p in lock && Reaches(EdgesOf(lock), d, p.name) && !DrawsIn(lock, d, p);
    if !DrawsIn(lock, d, q) {
      assert q in strangers && AreNamed(lock, d, strangers);
      var x :| x in strangers && ComesIn(lock, d, strangers, x);
      if x in AskedFor(lock, d) {
        AskedIsDrawn(lock, d, x);
      } else {
        var p :| p in lock && p !in strangers && Reaches(EdgesOf(lock), d, p.name) && Needs(p, x);
        DrawnStep(lock, d, p, x);
      }
    }
  }

  /** What is drawn in has no strangers: without them the rest would already be closed. */
  lemma DrawnHasNoStrangers(lock: seq<Package>, d: string, s: set<Package>)
    requires forall q | q in lock :: Reaches(EdgesOf(lock), d, q.name) <==> DrawsIn(lock, d, q)
    requires s != {} && AreNamed(lock, d, s)
    ensures exists q | q in s :: ComesIn(lock, d, s, q)
  {
    hide Reaches, EdgesOf, Needs;
    var g, asked := LockGraph(lock), AskedFor(lock, d);
    var rest := set q | q in lock && DrawsIn(lock, d, q) && q !in s;
    if forall q | q in s :: !ComesIn(lock, d, s, q) {
      forall a | a in asked ensures a in rest { AskedIsDrawn(lock, d, a); }
      forall x, y | x in rest && y in Successors(g, x) ensures y in rest {
        assert y in lock && Needs(x, y);
        DrawnStep(lock, d, x, y);
        assert y in s ==> ComesIn(lock, d, s, y);
      }
      var q :| q in s;
      assert DrawsIn(lock, d, q);
      hide LockGraph, AskedFor, AreNamed, ComesIn;
      assert IsClosed(g, asked, rest);
      ClosedHoldsReached(g, asked, rest, q);
    }
  }

  lemma SameReachIff(lock: seq<Package>, d: string)
    ensures (forall q | q in lock :: Reaches(EdgesOf(lock), d, q.name) <==> DrawsIn(lock, d, q)) <==>
            LeadsNowhereElse(lock, d) && LeavesNoStrangers(lock, d)
  {
    hide Reaches, EdgesOf, DrawsIn, Needs, AskedFor, AreNamed, ComesIn;
    if forall q | q in lock :: Reaches(EdgesOf(lock), d, q.name) <==> DrawsIn(lock, d, q) {
      forall p, q | p in lock && q in lock && DrawsIn(lock, d, p) && Needs(p, q) ensures DrawsIn(lock, d, q) {
        DrawnStep(lock, d, p, q);
      }
      forall s: set<Package> | s != {} && AreNamed(lock, d, s) ensures exists q | q in s :: ComesIn(lock, d, s, q) {
        DrawnHasNoStrangers(lock, d, s);
      }
    }
    if LeadsNowhereElse(lock, d) && LeavesNoStrangers(lock, d) {
      forall q | q in lock ensures Reaches(EdgesOf(lock), d, q.name) <==> DrawsIn(lock, d, q) {
        if DrawsIn(lock, d, q) { DrawnIsNamed(lock, d, q); }
        if Reaches(EdgesOf(lock), d, q.name) { NamedIsDrawn(lock, d, q); }
      }
    }
  }

  /** The exemption is right, for every choice of Bazel-only specs, exactly when among the versions of the names
      each spec reaches none leads elsewhere and none are strangers. */
  lemma ExemptsRightlyIff(lock: seq<Package>)
    ensures ExemptsRightly(lock) <==>
            forall d | d in Direct(lock) :: LeadsNowhereElse(lock, d) && LeavesNoStrangers(lock, d)
  {
    hide Reaches, EdgesOf, DrawsIn, Direct, ExemptsRightly, LeadsNowhereElse, LeavesNoStrangers;
    RightIffSameReach(lock);
    forall d | d in Direct(lock)
      ensures (forall q | q in lock :: Reaches(EdgesOf(lock), d, q.name) <==> DrawsIn(lock, d, q)) <==>
              LeadsNowhereElse(lock, d) && LeavesNoStrangers(lock, d)
    {
      SameReachIff(lock, d);
    }
  }

  // ---- without circles, one version at a time ------------------------------------------------------------------

  /** Dependencies do not run in circles. */
  ghost predicate IsAcyclic(lock: seq<Package>, depth: Package -> nat) {
    forall p, q | p in lock && q in lock && Needs(p, q) :: depth(p) < depth(q)
  }

  lemma {:induction false} Shallowest(s: set<Package>, depth: Package -> nat) returns (q: Package)
    requires s != {}
    ensures q in s && forall p | p in s :: depth(q) <= depth(p)
    decreases |s|
  {
    var x :| x in s;
    if s == {x} {
      q := x;
    } else {
      assert s - {x} != {} by { assert s == {x} + (s - {x}); }
      var y := Shallowest(s - {x}, depth);
      q := if depth(x) <= depth(y) then x else y;
    }
  }

  /** Where dependencies do not run in circles it is enough to look at the versions one by one. */
  lemma NoStrangersOneByOne(lock: seq<Package>, d: string, depth: Package -> nat)
    requires IsAcyclic(lock, depth)
    ensures LeavesNoStrangers(lock, d) <==>
            forall q | q in lock && Reaches(EdgesOf(lock), d, q.name) :: ComesIn(lock, d, {q}, q)
  {
    hide Reaches, EdgesOf, Needs, AskedFor;
    if LeavesNoStrangers(lock, d) {
      forall q | q in lock && Reaches(EdgesOf(lock), d, q.name) ensures ComesIn(lock, d, {q}, q) {
        assert AreNamed(lock, d, {q});
        var x :| x in {q} && ComesIn(lock, d, {q}, x);
      }
    }
    if forall q | q in lock && Reaches(EdgesOf(lock), d, q.name) :: ComesIn(lock, d, {q}, q) {
      forall s: set<Package> | s != {} && AreNamed(lock, d, s) ensures exists q | q in s :: ComesIn(lock, d, s, q) {
        var q := Shallowest(s, depth);
        assert ComesIn(lock, d, {q}, q);
      }
    }
  }

  // ---- two versions under one name -------------------------------------------------------------------------

  /** The workspace asks for version 1 of `a` and Bazel alone for `p`, which needs version 2; one of the two
      versions needs `x`. */
  function TwoVersions(first: seq<Dependency>, second: seq<Dependency>): seq<Package> {
    [Package("a", "1", first), Package("a", "2", second),
     Package("direct-cargo-bazel-deps", "0", [Dependency("a", Some("1")), Dependency("p", None)]),
     Package("p", "1", [Dependency("a", Some("2")), Dependency("x", None)]), Package("x", "1", [])]
  }

  lemma LockNext(rest: seq<Package>, last: Package)
    ensures EdgesOf(rest + [last]) == EdgesOf(rest)[last.name := Names(last.dependencies)]
    ensures Specs(rest + [last]) == if last.name == SPLICE_ROOT then last.dependencies else Specs(rest)
  {
    assert (rest + [last])[..|rest|] == rest;
  }

  lemma TwoNames(a: Dependency, b: Dependency)
    ensures Names([]) == [] && Names([a]) == [a.name] && Names([a, b]) == [a.name, b.name]
  {
    assert [a, b][..1] == [a] && [a][..0] == [];
  }

  lemma ThreePackages(a1: Package, a2: Package, root: Package)
    requires a1.name == a2.name == "a" && root.name == SPLICE_ROOT
    requires root.dependencies == [Dependency("a", Some("1")), Dependency("p", None)]
    ensures EdgesOf([a1, a2, root]) == map["a" := Names(a2.dependencies), SPLICE_ROOT := ["a", "p"]]
    ensures Specs([a1, a2, root]) == root.dependencies
  {
    assert EdgesOf([]) == map[];
    assert [a1] == [] + [a1] && [a1, a2] == [a1] + [a2] && [a1, a2, root] == [a1, a2] + [root];
    hide EdgesOf, Specs, Names;
    LockNext([], a1);
    LockNext([a1], a2);
    LockNext([a1, a2], root);
    TwoNames(root.dependencies[0], root.dependencies[1]);
  }

  lemma TwoVersionsEdges(first: seq<Dependency>, second: seq<Dependency>)
    ensures EdgesOf(TwoVersions(first, second)) ==
            map["a" := Names(second), SPLICE_ROOT := ["a", "p"], "p" := ["a", "x"], "x" := []]
    ensures Specs(TwoVersions(first, second)) == [Dependency("a", Some("1")), Dependency("p", None)]
    ensures Direct(TwoVersions(first, second)) == {"a", "p"}
  {
    var lock := TwoVersions(first, second);
    var p, x := lock[3], lock[4];
    var three, four := [lock[0], lock[1], lock[2]], [lock[0], lock[1], lock[2], p];
    assert four == three + [p] && lock == four + [x];
    hide EdgesOf, Specs, Names;
    TwoNames(p.dependencies[0], p.dependencies[1]);
    TwoNames(lock[2].dependencies[0], lock[2].dependencies[1]);
    ThreePackages(lock[0], lock[1], lock[2]);
    LockNext(three, p);
    LockNext(four, x);
  }

  const X := Package("x", "1", [])

  lemma InTwoVersions(first: seq<Dependency>, second: seq<Dependency>)
    ensures var lock := TwoVersions(first, second);
            && X in lock && Package("a", "1", first) in lock
            && AskedFor(lock, "a") == {Package("a", "1", first)}
            && Package("p", "1", [Dependency("a", Some("2")), Dependency("x", None)]) in AskedFor(lock, "p")
  {
    var lock := TwoVersions(first, second);
    assert lock[4] == X && lock[3].name == "p" && lock[0].name == "a";
    TwoVersionsEdges(first, second);
    var specs := Specs(lock);
    assert specs[0] == Dependency("a", Some("1")) && specs[1] == Dependency("p", None);
    assert Means(specs[0], lock[0]) && Means(specs[1], lock[3]);
  }

  lemma PDrawsInX(first: seq<Dependency>, second: seq<Dependency>)
    ensures DrawsIn(TwoVersions(first, second), "p", X)
    ensures Reaches(EdgesOf(TwoVersions(first, second)), "p", "x")
  {
    var lock := TwoVersions(first, second);
    var p := Package("p", "1", [Dependency("a", Some("2")), Dependency("x", None)]);
    hide TwoVersions, Direct, EdgesOf, DrawsIn, AskedFor, Names, Specs;
    InTwoVersions(first, second);
    AskedIsDrawn(lock, "p", p);
    assert Needs(p, X) by { assert Means(p.dependencies[1], X); }
    DrawnStep(lock, "p", p, X);
    TwoVersionsEdges(first, second);
    assert IsPath(EdgesOf(lock), ["p", "x"]);
  }

  /** Too wide: the version the workspace asks for needs `x`, the last one does not, and `x` is exempt although
      the workspace draws it in. */
  lemma LostEdgeExemptsTooMuch(lock: seq<Package>)
    requires lock == TwoVersions([Dependency("x", None)], [])
    ensures X in lock && IsBazelOnly(lock, {"p"}, "x") && DrawsIn(lock, "a", X) && !OnlyBazelDrawsIn(lock, {"p"}, X)
  {
    var first := [Dependency("x", None)];
    hide EdgesOf, TwoVersions, Reaches, DrawsIn, Direct, AskedFor, Specs, Names;
    InTwoVersions(first, []);
    TwoVersionsEdges(first, []);
    PDrawsInX(first, []);
    LostEdge(first);
    assert {"a", "p"} * {"p"} == {"p"} && {"a", "p"} - {"p"} == {"a"};
  }

  lemma LostEdge(first: seq<Dependency>)
    requires first == [Dependency("x", None)]
    ensures !Reaches(EdgesOf(TwoVersions(first, [])), "a", "x")
    ensures DrawsIn(TwoVersions(first, []), "a", X)
  {
    var lock, a := TwoVersions(first, []), Package("a", "1", first);
    hide TwoVersions, Direct, DrawsIn, AskedFor, Specs;
    InTwoVersions(first, []);
    AskedIsDrawn(lock, "a", a);
    assert Needs(a, X) by { assert Means(first[0], X); }
    DrawnStep(lock, "a", a, X);
    TwoVersionsEdges(first, []);
    var g := EdgesOf(lock);
    hide EdgesOf;
    assert IsClosed(g, {"a"}, {"a"});
    if Reaches(g, "a", "x") { ClosedHoldsReached(g, {"a"}, {"a"}, "x"); }
  }

  /** Too narrow: only the last version needs `x`, so the workspace seems to reach it, and `x` is compared although
      Bazel alone draws it in. */
  lemma LentEdgeExemptsTooLittle(lock: seq<Package>)
    requires lock == TwoVersions([], [Dependency("x", None)])
    ensures X in lock && !IsBazelOnly(lock, {"p"}, "x") && OnlyBazelDrawsIn(lock, {"p"}, X)
  {
    var second := [Dependency("x", None)];
    hide EdgesOf, TwoVersions, Reaches, DrawsIn, Direct, AskedFor, Specs, Names;
    InTwoVersions([], second);
    TwoVersionsEdges([], second);
    PDrawsInX([], second);
    LentEdge(second);
    assert {"a", "p"} * {"p"} == {"p"} && {"a", "p"} - {"p"} == {"a"};
  }

  lemma LentEdge(second: seq<Dependency>)
    requires second == [Dependency("x", None)]
    ensures Reaches(EdgesOf(TwoVersions([], second)), "a", "x")
    ensures !DrawsIn(TwoVersions([], second), "a", X)
  {
    var lock, a := TwoVersions([], second), Package("a", "1", []);
    hide TwoVersions, Direct;
    InTwoVersions([], second);
    TwoVersionsEdges([], second);
    assert second[..0] == [] && Names(second) == ["x"];
    assert IsPath(EdgesOf(lock), ["a", "x"]);
    hide EdgesOf, Reaches, AskedFor;
    var g := LockGraph(lock);
    assert IsClosed(g, {a}, {a}) by { assert forall q :: !Needs(a, q); }
    if DrawsIn(lock, "a", X) { ClosedHoldsReached(g, {a}, {a}, X); }
  }

  // ---- one version of each name ------------------------------------------------------------------------------

  /** Each name is locked once, and every dependency means a locked package. */
  ghost predicate LockedOnce(lock: seq<Package>) {
    && (forall p, q | p in lock && q in lock && p.name == q.name :: p == q)
    && (forall p, d | p in lock && d in p.dependencies :: exists q | q in lock :: Means(d, q))
  }

  /** The lock's last package of a name gives the gate its edges. */
  lemma {:induction false} EdgesFromLock(lock: seq<Package>, x: string)
    ensures x in EdgesOf(lock) ==> exists p | p in lock :: p.name == x && EdgesOf(lock)[x] == Names(p.dependencies)
    ensures forall p | p in lock :: p.name in EdgesOf(lock)
    ensures Specs(lock) != [] ==> exists p | p in lock :: p.dependencies == Specs(lock)
  {
    if lock == [] {
    } else {
      var rest, last := lock[..|lock| - 1], lock[|lock| - 1];
      EdgesFromLock(rest, x);
      assert lock == rest + [last];
    }
  }

  lemma EdgesOnce(lock: seq<Package>, p: Package, y: string)
    requires LockedOnce(lock) && p in lock
    ensures y in Successors(EdgesOf(lock), p.name) <==> exists q | q in lock :: q.name == y && Needs(p, q)
  {
    EdgesFromLock(lock, p.name);
    if y in Successors(EdgesOf(lock), p.name) {
      var d :| d in p.dependencies && d.name == y;
      var q :| q in lock && Means(d, q);
      assert Needs(p, q);
    }
  }

  /** With each name locked once the exemption is always right. */
  lemma LockedOnceIsRight(lock: seq<Package>)
    requires LockedOnce(lock)
    ensures ExemptsRightly(lock)
  {
    hide Reaches, EdgesOf, DrawsIn, Direct, ExemptsRightly, LockedOnce;
    RightIffSameReach(lock);
    forall d, q | d in Direct(lock) && q in lock ensures Reaches(EdgesOf(lock), d, q.name) <==> DrawsIn(lock, d, q) {
      OnceSameReach(lock, d, q);
    }
  }

  lemma SpecIsAsked(lock: seq<Package>, d: string) returns (q: Package)
    requires LockedOnce(lock) && d in Direct(lock)
    ensures q in AskedFor(lock, d) && q in lock && q.name == d
  {
    hide EdgesOf;
    EdgesFromLock(lock, d);
    var spec :| spec in Specs(lock) && spec.name == d;
    var root :| root in lock && root.dependencies == Specs(lock);
    q :| q in lock && Means(spec, q);
  }

  lemma OnceSameReach(lock: seq<Package>, d: string, q: Package)
    requires LockedOnce(lock) && d in Direct(lock) && q in lock
    ensures Reaches(EdgesOf(lock), d, q.name) <==> DrawsIn(lock, d, q)
  {
    var a := SpecIsAsked(lock, d);
    AskedIsDrawn(lock, d, a);
    hide EdgesOf, Needs, AskedFor, Direct;
    if DrawsIn(lock, d, q) {
      assert LeadsNowhereElse(lock, d) by {
        forall p, r | p in lock && r in lock && Reaches(EdgesOf(lock), d, p.name) && Needs(p, r)
          ensures Reaches(EdgesOf(lock), d, r.name)
        {
          EdgesOnce(lock, p, r.name);
          NameStep(lock, d, p.name, r.name);
        }
      }
      DrawnIsNamed(lock, d, q);
    }
    if Reaches(EdgesOf(lock), d, q.name) { OnceNamedIsDrawn(lock, d, q); }
  }

  lemma NameStep(lock: seq<Package>, d: string, x: string, y: string)
    requires Reaches(EdgesOf(lock), d, x) && y in Successors(EdgesOf(lock), x)
    ensures Reaches(EdgesOf(lock), d, y)
  {
    hide Reaches;
    assert IsReached(EdgesOf(lock), {d}, x);
    SuccessorIsReached(EdgesOf(lock), {d}, x, y);
  }

  lemma OnceNamedIsDrawn(lock: seq<Package>, d: string, q: Package)
    requires LockedOnce(lock) && d in Direct(lock) && q in lock && Reaches(EdgesOf(lock), d, q.name)
    ensures DrawsIn(lock, d, q)
  {
    var g := EdgesOf(lock);
    var names := set p | p in lock && DrawsIn(lock, d, p) :: p.name;
    var a := SpecIsAsked(lock, d);
    AskedIsDrawn(lock, d, a);
    forall x, y | x in names && y in Successors(g, x) ensures y in names {
      var p :| p in lock && DrawsIn(lock, d, p) && p.name == x;
      EdgesOnce(lock, p, y);
      var r :| r in lock && r.name == y && Needs(p, r);
      DrawnStep(lock, d, p, r);
    }
    hide EdgesOf, DrawsIn, Direct;
    assert IsClosed(g, {d}, names);
    assert IsReached(g, {d}, q.name);
    ClosedHoldsReached(g, {d}, names, q.name);
  }
}
