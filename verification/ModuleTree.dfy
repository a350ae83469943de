/** `check_module_tree` and `check_crate`: a hand-listed library must list every file its module
    tree reaches. */
module ModuleTree {
  import opened Wrappers
  import opened Sequences
  import opened PythonText

  /** What the crate's BUILD file says about its library's `srcs`; a list may name a file more than once. */
  datatype Build = Missing | NoLibrary | Globs | Lists(entries: seq<string>)

  /** The Rust files of a crate, each with the modules its code declares, and its BUILD file. */
  datatype Crate = Crate(files: map<string, seq<string>>, build: Build)

  datatype Finding =
    | RootUnlisted
    | Unresolved(name: string, declaredIn: string, fileForm: string, dirForm: string)
    | Unlisted(name: string, declaredIn: string, child: string)
    | Absent(entry: string)

  const ROOT := "src/lib.rs"

  predicate IsName(s: string) {
    s != "" && forall k | 0 <= k < |s| :: s[k] != '/'
  }

  predicate AreNames(rel: seq<string>) {
    forall k | 0 <= k < |rel| :: IsName(rel[k])
  }

  /** `declared_mods` returns names, sorted and each once. */
  ghost predicate Valid(c: Crate) {
    forall p | p in c.files :: AreNames(c.files[p]) && IsSorted(c.files[p])
  }

  /** The directory a module's children are looked for in. */
  function Dir(rel: seq<string>): (d: string)
    ensures |d| >= 3
  {
    if rel == [] then "src" else Dir(rel[..|rel| - 1]) + "/" + rel[|rel| - 1]
  }

  function FileForm(rel: seq<string>): string {
    Dir(rel) + ".rs"
  }

  function DirForm(rel: seq<string>): string {
    Dir(rel) + "/mod.rs"
  }

  /** A module resolves to `<rel>.rs` first, then to `<rel>/mod.rs`. */
  predicate Resolves(c: Crate, rel: seq<string>) {
    if rel == [] then ROOT in c.files else FileForm(rel) in c.files || DirForm(rel) in c.files
  }

  function File(c: Crate, rel: seq<string>): (p: string)
    requires Resolves(c, rel)
    ensures p in c.files
  {
    if rel == [] then ROOT else if FileForm(rel) in c.files then FileForm(rel) else DirForm(rel)
  }

  /** Every module on the path is declared in the file of the one before it. */
  predicate Declared(c: Crate, rel: seq<string>) {
    rel != [] ==>
      var up := rel[..|rel| - 1];
      Declared(c, up) && Resolves(c, up) && rel[|rel| - 1] in c.files[File(c, up)]
  }

  /** What is wrong with one declared module, if anything. */
  function FindingOf(c: Crate, rel: seq<string>): Option<Finding>
    requires rel != [] && Resolves(c, rel[..|rel| - 1]) && c.build.Lists?
  {
    var name, decl := rel[|rel| - 1], File(c, rel[..|rel| - 1]);
    if !Resolves(c, rel) then Some(Unresolved(name, decl, FileForm(rel), DirForm(rel)))
    else if File(c, rel) !in c.build.entries then Some(Unlisted(name, decl, File(c, rel)))
    else None
  }

  // ---- the walk -----------------------------------------------------------------------------------

  ghost function Longest(paths: set<string>): (n: nat)
    ensures forall p | p in paths :: |p| <= n
    decreases |paths|
  {
    if paths == {} then 0
    else
      var p :| p in paths;
      var rest := Longest(paths - {p});
      assert forall q | q in paths :: q == p || q in paths - {p};
      if |p| > rest then |p| else rest
  }

  ghost function Room(c: Crate, rel: seq<string>): (n: nat)
    requires Resolves(c, rel)
  {
    assert |File(c, rel)| <= Longest(c.files.Keys);
    Longest(c.files.Keys) - |Dir(rel)|
  }

  lemma RoomShrinks(c: Crate, rel: seq<string>, name: string)
    requires Resolves(c, rel) && Resolves(c, rel + [name])
    ensures Room(c, rel + [name]) < Room(c, rel)
  {
    assert (rel + [name])[..|rel|] == rel;
  }

  /** The findings of the modules `mods` of `rel` and of everything below them, with no memory of
      what was already visited. */
  function Walk(c: Crate, rel: seq<string>, mods: seq<string>): seq<Finding>
    requires Resolves(c, rel) && c.build.Lists?
    decreases Room(c, rel), |mods|
  {
    if mods == [] then []
    else
      var sub := rel + [mods[0]];
      assert sub[..|rel|] == rel;
      Here(c, sub)
      + (if Resolves(c, sub) then RoomShrinks(c, rel, mods[0]); Walk(c, sub, c.files[File(c, sub)]) else [])
      + Walk(c, rel, mods[1..])
  }

  function Here(c: Crate, rel: seq<string>): seq<Finding>
    requires rel != [] && Resolves(c, rel[..|rel| - 1]) && c.build.Lists?
  {
    var f := FindingOf(c, rel);
    if f.Some? then [f.value] else []
  }

  function AbsentEntries(files: map<string, seq<string>>, entries: seq<string>): seq<Finding> {
    if entries == [] then []
    else (if entries[0] in files then [] else [Absent(entries[0])]) + AbsentEntries(files, entries[1..])
  }

  /** The library's module tree is not checked: nothing to check, or nothing that can drift. */
  predicate Exempt(c: Crate) {
    ROOT !in c.files || !c.build.Lists? || c.build.entries == []
  }

  function Findings(c: Crate): seq<Finding> {
    if Exempt(c) then []
    else (if ROOT in c.build.entries then [] else [RootUnlisted]) + Walk(c, [], c.files[ROOT])
         + AbsentEntries(c.files, SortedSet(c.build.entries))
  }

  // ---- paths --------------------------------------------------------------------------------------

  lemma LastSlash(s: string, m: string, t: string, n: string)
    requires s + "/" + m == t + "/" + n && IsName(m) && IsName(n)
    ensures s == t && m == n
  {
    var p := s + "/" + m;
    assert p[|s|] == '/' && p[|t|] == '/';
    assert forall k | |s| < k < |p| :: p[k] == m[k - |s| - 1] != '/';
    assert forall k | |t| < k < |p| :: p[k] == n[k - |t| - 1] != '/';
    assert p[..|s|] == s && p[..|t|] == t && p[|s| + 1..] == m && p[|t| + 1..] == n;
  }

  lemma {:induction false} DirInjective(a: seq<string>, b: seq<string>)
    requires AreNames(a) && AreNames(b) && Dir(a) == Dir(b)
    ensures a == b
  {
    if a == [] && b != [] {
      SrcHasNoSlash(b);
    } else if a != [] && b == [] {
      SrcHasNoSlash(a);
    } else if a != [] && b != [] {
      var a', b' := a[..|a| - 1], b[..|b| - 1];
      LastSlash(Dir(a'), a[|a| - 1], Dir(b'), b[|b| - 1]);
      DirInjective(a', b');
      assert a == a' + [a[|a| - 1]] && b == b' + [b[|b| - 1]];
    }
  }

  lemma SrcHasNoSlash(a: seq<string>)
    requires a != [] && AreNames(a)
    ensures Dir(a) != "src"
  {
    assert |Dir(a)| > 3;
  }

  lemma FileFormInjective(a: seq<string>, b: seq<string>)
    requires AreNames(a) && AreNames(b) && FileForm(a) == FileForm(b)
    ensures a == b
  {
    assert Dir(a) == FileForm(a)[..|FileForm(a)| - 3];
    assert Dir(b) == FileForm(b)[..|FileForm(b)| - 3];
    DirInjective(a, b);
  }

  /** `<rel>/mod.rs` is the file form of a module named `mod` below `rel`. */
  lemma DirFormIsFileForm(rel: seq<string>)
    ensures DirForm(rel) == FileForm(rel + ["mod"])
  {
    assert (rel + ["mod"])[..|rel|] == rel;
    assert Dir(rel + ["mod"]) == Dir(rel) + "/" + "mod";
    assert Dir(rel) + "/mod.rs" == Dir(rel) + "/" + "mod" + ".rs";
  }

  // ---- what the walk reports ----------------------------------------------------------------------

  /** `r` is below `rel`, through one of `mods`. */
  predicate Under(r: seq<string>, rel: seq<string>, mods: seq<string>) {
    |r| > |rel| && r[..|rel|] == rel && r[|rel|] in mods
  }

  lemma {:induction false} DeclaredNames(c: Crate, rel: seq<string>)
    requires Valid(c) && Declared(c, rel)
    ensures AreNames(rel)
  {
    if rel == [] {
    } else {
      var up := rel[..|rel| - 1];
      DeclaredNames(c, up);
      var mods := c.files[File(c, up)];
      var k :| 0 <= k < |mods| && mods[k] == rel[|rel| - 1];
    }
  }

  /** A prefix of a declared path is declared and resolves. */
  lemma {:induction false} DeclaredPrefix(c: Crate, r: seq<string>, n: nat)
    requires Declared(c, r) && n < |r|
    ensures Declared(c, r[..n]) && Resolves(c, r[..n]) && r[n] in c.files[File(c, r[..n])]
    decreases |r|
  {
    var up := r[..|r| - 1];
    if n < |r| - 1 {
      DeclaredPrefix(c, up, n);
      assert up[..n] == r[..n];
    }
  }

  lemma DeclaredBelow(c: Crate, rel: seq<string>, name: string)
    requires Declared(c, rel) && Resolves(c, rel) && name in c.files[File(c, rel)]
    ensures Declared(c, rel + [name])
  {
    assert (rel + [name])[..|rel|] == rel;
  }

  /** A module in its directory form is not declared in its own file. */
  lemma NotInItself(c: Crate, a: seq<string>)
    requires a != [] && Resolves(c, a[..|a| - 1]) && Resolves(c, a) && FileForm(a) !in c.files
    ensures File(c, a) != File(c, a[..|a| - 1])
  {
    assert |DirForm(a)| >= |Dir(a[..|a| - 1])| + 8;
  }

  /** Two modules that resolve to one file: one is named `mod`, right below the other. */
  lemma SameFile(c: Crate, a: seq<string>, b: seq<string>)
    requires AreNames(a) && AreNames(b) && a != [] && b != [] && a != b
    requires Resolves(c, a) && Resolves(c, b) && File(c, a) == File(c, b)
    ensures (b == a + ["mod"] && FileForm(a) !in c.files) || (a == b + ["mod"] && FileForm(b) !in c.files)
  {
    hide Dir;
    DirFormIsFileForm(a);
    DirFormIsFileForm(b);
    var a' := if FileForm(a) in c.files then a else a + ["mod"];
    var b' := if FileForm(b) in c.files then b else b + ["mod"];
    assert (a + ["mod"])[..|a|] == a && (b + ["mod"])[..|b|] == b;
    FileFormInjective(a', b');
  }

  /** The file that declares a module, the module's name and its files tell the module. */
  lemma FindingTellsModule(c: Crate, a: seq<string>, b: seq<string>)
    requires Valid(c) && c.build.Lists? && Declared(c, a) && Declared(c, b) && a != [] && b != []
    requires FindingOf(c, a).Some? && FindingOf(c, a) == FindingOf(c, b)
    ensures a == b
  {
    DeclaredNames(c, a);
    DeclaredNames(c, b);
    hide Dir, FileForm, DirForm, Declared, Valid;
    if !Resolves(c, a) {
      FileFormInjective(a, b);
    } else if a != b {
      assert File(c, a[..|a| - 1]) == File(c, b[..|b| - 1]);
      assert (a + ["mod"])[..|a|] == a && (b + ["mod"])[..|b|] == b;
      if FileForm(a) !in c.files { NotInItself(c, a); }
      if FileForm(b) !in c.files { NotInItself(c, b); }
      SameFile(c, a, b);
    }
  }

  lemma WalkHasMods(f: Finding, c: Crate, rel: seq<string>, mods: seq<string>)
    requires Resolves(c, rel) && c.build.Lists? && f in Walk(c, rel, mods)
    ensures mods != []
  {
  }

  lemma InWalk(f: Finding, c: Crate, rel: seq<string>, mods: seq<string>, sub: seq<string>)
    requires Resolves(c, rel) && c.build.Lists? && mods != [] && sub == rel + [mods[0]] && sub[..|sub| - 1] == rel
    requires f in Walk(c, rel, mods)
    ensures FindingOf(c, sub) == Some(f) || f in Walk(c, rel, mods[1..])
            || (Resolves(c, sub) && f in Walk(c, sub, c.files[File(c, sub)]))
  {
    hide Resolves, File, FindingOf, Dir;
  }

  lemma {:induction false} WalkSound(c: Crate, rel: seq<string>, mods: seq<string>, f: Finding) returns (r: seq<string>)
    requires Resolves(c, rel) && c.build.Lists? && Declared(c, rel)
    requires forall m | m in mods :: m in c.files[File(c, rel)]
    requires f in Walk(c, rel, mods)
    ensures Under(r, rel, mods) && Declared(c, r) && Resolves(c, r[..|r| - 1]) && FindingOf(c, r) == Some(f)
    decreases Room(c, rel), |mods|
  {
    hide Resolves, File, FindingOf, Declared, Dir, Room, Walk;
    WalkHasMods(f, c, rel, mods);
    var sub := rel + [mods[0]];
    assert sub[..|sub| - 1] == rel;
    DeclaredBelow(c, rel, mods[0]);
    InWalk(f, c, rel, mods, sub);
    if FindingOf(c, sub) == Some(f) {
      r := sub;
    } else if f in Walk(c, rel, mods[1..]) {
      r := WalkSound(c, rel, mods[1..], f);
    } else {
      RoomShrinks(c, rel, mods[0]);
      r := WalkSound(c, sub, c.files[File(c, sub)], f);
      assert r[..|rel|] == r[..|sub|][..|rel|] == rel;
      assert r[|rel|] == r[..|sub|][|rel|] == mods[0];
    }
  }

  /** How often a finding is reported. */
  function Times(f: Finding, fs: seq<Finding>): nat {
    multiset(fs)[f]
  }

  function TimesBelow(f: Finding, c: Crate, rel: seq<string>): nat
    requires c.build.Lists?
  {
    if Resolves(c, rel) then Times(f, Walk(c, rel, c.files[File(c, rel)])) else 0
  }

  /** A finding about the first module, about one below it, or about one of the rest. */
  lemma TimesInWalk(f: Finding, c: Crate, rel: seq<string>, mods: seq<string>, sub: seq<string>)
    requires Resolves(c, rel) && c.build.Lists? && mods != [] && sub == rel + [mods[0]] && sub[..|sub| - 1] == rel
    ensures Times(f, Walk(c, rel, mods)) ==
            (if FindingOf(c, sub) == Some(f) then 1 else 0) + TimesBelow(f, c, sub) + Times(f, Walk(c, rel, mods[1..]))
  {
    hide Resolves, File, FindingOf, Dir;
  }

  lemma TimesBelowIs(f: Finding, c: Crate, sub: seq<string>)
    requires c.build.Lists? && Resolves(c, sub)
    ensures TimesBelow(f, c, sub) == Times(f, Walk(c, sub, c.files[File(c, sub)]))
  {
  }

  lemma ParentResolves(c: Crate, r: seq<string>)
    requires Declared(c, r) && r != []
    ensures Resolves(c, r[..|r| - 1])
  {
  }

  lemma ModsDistinct(c: Crate, p: string)
    requires Valid(c) && p in c.files
    ensures Distinct(c.files[p])
  {
  }

  lemma NotReported(c: Crate, rel: seq<string>, mods: seq<string>, r: seq<string>)
    requires Valid(c) && Resolves(c, rel) && c.build.Lists? && Declared(c, rel)
    requires forall m | m in mods :: m in c.files[File(c, rel)]
    requires Declared(c, r) && r != [] && FindingOf(c, r).Some? && !Under(r, rel, mods)
    ensures Times(FindingOf(c, r).value, Walk(c, rel, mods)) == 0
  {
    ParentResolves(c, r);
    hide FindingOf, Walk, Resolves, File, Declared, Valid;
    var f := FindingOf(c, r).value;
    if f in Walk(c, rel, mods) {
      var r' := WalkSound(c, rel, mods, f);
      FindingTellsModule(c, r, r');
    }
  }

  lemma NotReportedBelow(c: Crate, sub: seq<string>, r: seq<string>)
    requires Valid(c) && c.build.Lists? && Declared(c, sub) && sub != []
    requires Declared(c, r) && r != [] && FindingOf(c, r).Some?
    requires !(|r| > |sub| && r[..|sub|] == sub)
    ensures TimesBelow(FindingOf(c, r).value, c, sub) == 0
  {
    hide FindingOf, Walk, Declared, Valid;
    if Resolves(c, sub) { NotReported(c, sub, c.files[File(c, sub)], r); }
  }

  lemma {:induction false} WalkReportsOnce(c: Crate, rel: seq<string>, mods: seq<string>, r: seq<string>)
    requires Valid(c) && Resolves(c, rel) && c.build.Lists? && Declared(c, rel)
    requires Distinct(mods) && forall m | m in mods :: m in c.files[File(c, rel)]
    requires Declared(c, r) && r != [] && FindingOf(c, r).Some? && Under(r, rel, mods)
    ensures Times(FindingOf(c, r).value, Walk(c, rel, mods)) == 1
    decreases Room(c, rel), |mods|
  {
    hide FindingOf, Walk, Resolves, File, Declared, Times, TimesBelow, Dir, Room, Valid;
    ParentResolves(c, r);
    var f := FindingOf(c, r).value;
    var sub, rest := rel + [mods[0]], mods[1..];
    assert sub[..|rel|] == rel;
    DeclaredBelow(c, rel, mods[0]);
    TimesInWalk(f, c, rel, mods, sub);
    if r[|rel|] == mods[0] {
      NotReported(c, rel, rest, r);
      if |r| == |sub| {
        assert r == sub;
        NotReportedBelow(c, sub, r);
      } else {
        DeclaredPrefix(c, r, |sub|);
        assert r[..|sub|] == sub;
        RoomShrinks(c, rel, mods[0]);
        ModsDistinct(c, File(c, sub));
        TimesBelowIs(f, c, sub);
        WalkReportsOnce(c, sub, c.files[File(c, sub)], r);
        if FindingOf(c, sub) == Some(f) { FindingTellsModule(c, sub, r); }
      }
    } else {
      WalkReportsOnce(c, rel, rest, r);
      NotReportedBelow(c, sub, r);
      if FindingOf(c, sub) == Some(f) { FindingTellsModule(c, sub, r); }
    }
  }

  // ---- the crate ------------------------------------------------------------------------------------

  /** The module resolves and its file is listed. */
  predicate IsCovered(c: Crate, rel: seq<string>)
    requires c.build.Lists?
  {
    Resolves(c, rel) && File(c, rel) in c.build.entries
  }

  /** What a hand-listed library owes: its root, every module reachable from it, and no entry that
      names nothing. */
  ghost predicate IsComplete(c: Crate)
    requires c.build.Lists?
  {
    && ROOT in c.build.entries
    && (forall r: seq<string> | r != [] && Declared(c, r) :: IsCovered(c, r))
    && (forall e | e in c.build.entries :: e in c.files)
  }

  lemma {:induction false} AbsentEntriesExact(files: map<string, seq<string>>, entries: seq<string>)
    ensures AbsentEntries(files, entries) == [] <==> forall e | e in entries :: e in files
    ensures forall f | f in AbsentEntries(files, entries) :: f.Absent?
    ensures forall e :: Absent(e) in AbsentEntries(files, entries) <==> e in entries && e !in files
  {
    if entries == [] {
    } else {
      AbsentEntriesExact(files, entries[1..]);
      assert entries == [entries[0]] + entries[1..];
    }
  }

  /** A checked library passes exactly when its list is complete. */
  lemma PassesIffComplete(c: Crate)
    requires Valid(c) && ROOT in c.files && c.build.Lists? && c.build.entries != []
    ensures Findings(c) == [] <==> IsComplete(c)
  {
    SortedSetSorts(c.build.entries);
    AbsentEntriesExact(c.files, SortedSet(c.build.entries));
    assert Declared(c, []) && Resolves(c, []);
    hide Walk, Declared, FindingOf, Valid;
    var walk := Walk(c, [], c.files[ROOT]);
    if walk == [] {
      forall r: seq<string> | r != [] && Declared(c, r) ensures IsCovered(c, r) {
        ReportedOnce(c, r);
        CoveredIsNotFound(c, r);
      }
    } else {
      var r := WalkSound(c, [], c.files[ROOT], walk[0]);
      CoveredIsNotFound(c, r);
    }
  }

  lemma CoveredIsNotFound(c: Crate, r: seq<string>)
    requires c.build.Lists? && r != [] && Resolves(c, r[..|r| - 1])
    ensures FindingOf(c, r).None? <==> IsCovered(c, r)
  {
  }

  lemma ReportedOnce(c: Crate, r: seq<string>)
    requires Valid(c) && ROOT in c.files && c.build.Lists? && c.build.entries != [] && r != [] && Declared(c, r)
    ensures Resolves(c, r[..|r| - 1])
    ensures FindingOf(c, r).Some? ==> Times(FindingOf(c, r).value, Walk(c, [], c.files[ROOT])) == 1
  {
    DeclaredPrefix(c, r, 0);
    assert r[..0] == [];
    assert Declared(c, []) && Resolves(c, []) && File(c, []) == ROOT;
    if FindingOf(c, r).Some? { WalkReportsOnce(c, [], c.files[ROOT], r); }
  }

  /** One run names every module that is missing, each exactly once, and nothing else. */
  lemma EveryMissingModuleOnce(c: Crate, r: seq<string>)
    requires Valid(c) && ROOT in c.files && c.build.Lists? && c.build.entries != [] && r != [] && Declared(c, r)
    ensures Resolves(c, r[..|r| - 1])
    ensures FindingOf(c, r).Some? <==> !IsCovered(c, r)
    ensures FindingOf(c, r).Some? ==> Times(FindingOf(c, r).value, Findings(c)) == 1
  {
    ReportedOnce(c, r);
    hide Walk, Declared, Valid;
    var f := FindingOf(c, r);
    if f.Some? {
      AbsentEntriesExact(c.files, SortedSet(c.build.entries));
      assert f.value !in AbsentEntries(c.files, SortedSet(c.build.entries));
    }
  }

  lemma EveryFindingIsAMissingModule(c: Crate, f: Finding)
    requires Valid(c) && ROOT in c.files && c.build.Lists? && c.build.entries != []
    requires f in Findings(c) && (f.Unresolved? || f.Unlisted?)
    ensures exists r: seq<string> ::
            r != [] && Declared(c, r) && Resolves(c, r[..|r| - 1]) && FindingOf(c, r) == Some(f)
  {
    SortedSetSorts(c.build.entries);
    AbsentEntriesExact(c.files, SortedSet(c.build.entries));
    assert Declared(c, []) && Resolves(c, []) && File(c, []) == ROOT;
    hide Walk, Declared, Valid;
    var r := WalkSound(c, [], c.files[ROOT], f);
  }

  // ---- the code ---------------------------------------------------------------------------------------

  /** Every key is the directory of a module below `rel`, through one of `mods`. */
  ghost predicate KeysUnder(keys: set<string>, rel: seq<string>, mods: seq<string>) {
    forall k | k in keys :: exists r: seq<string> :: AreNames(r) && Under(r, rel, mods) && k == Dir(r)
  }

  /** Nothing below `rel`, through one of `mods`, was visited. */
  ghost predicate Unvisited(seen: set<string>, rel: seq<string>, mods: seq<string>) {
    forall r: seq<string> | AreNames(r) && Under(r, rel, mods) :: Dir(r) !in seen
  }

  /** Two subtrees through different modules share no key. */
  lemma SubtreesApart(keys: set<string>, rel: seq<string>, done: seq<string>, todo: seq<string>)
    requires KeysUnder(keys, rel, done) && forall m | m in done :: m !in todo
    ensures Unvisited(keys, rel, todo)
  {
    forall r: seq<string> | AreNames(r) && Under(r, rel, todo) ensures Dir(r) !in keys {
      if Dir(r) in keys {
        var r' :| AreNames(r') && Under(r', rel, done) && Dir(r) == Dir(r');
        DirInjective(r, r');
      }
    }
  }

  /** The next module, and everything below it, was not visited. */
  lemma NextIsFresh(
    past: set<string>, seen: set<string>, rel: seq<string>, mods: seq<string>, i: nat, deeper: seq<string>
  )
    requires i < |mods| && Distinct(mods) && AreNames(rel + [mods[i]]) && past <= seen
    requires Unvisited(past, rel, mods) && KeysUnder(seen - past, rel, mods[..i])
    ensures Dir(rel + [mods[i]]) !in seen
    ensures Unvisited(seen + {Dir(rel + [mods[i]])}, rel + [mods[i]], deeper)
  {
    var sub := rel + [mods[i]];
    SubtreesApart(seen - past, rel, mods[..i], [mods[i]]);
    assert Under(sub, rel, [mods[i]]);
    forall r: seq<string> | AreNames(r) && Under(r, sub, deeper) ensures Dir(r) !in seen + {Dir(sub)} {
      assert r[..|rel|] == r[..|sub|][..|rel|] == rel && r[|rel|] == r[..|sub|][|rel|];
      assert Under(r, rel, [mods[i]]) && Under(r, rel, mods);
      if Dir(r) == Dir(sub) { DirInjective(r, sub); }
    }
  }

  /** Visiting one module adds only keys through it. */
  lemma KeysAfter(
    past: set<string>, seen: set<string>, below: set<string>, rel: seq<string>, mods: seq<string>, i: nat,
    deeper: seq<string>
  )
    requires i < |mods| && AreNames(rel + [mods[i]])
    requires KeysUnder(seen - past, rel, mods[..i]) && KeysUnder(below, rel + [mods[i]], deeper)
    ensures KeysUnder(seen + {Dir(rel + [mods[i]])} + below - past, rel, mods[..i + 1])
  {
    hide Dir;
    var sub := rel + [mods[i]];
    assert mods[..i + 1] == mods[..i] + [mods[i]];
    forall k | k in seen + {Dir(sub)} + below - past
      ensures exists r: seq<string> :: AreNames(r) && Under(r, rel, mods[..i + 1]) && k == Dir(r)
    {
      if k in seen - past {
        var r: seq<string> :| AreNames(r) && Under(r, rel, mods[..i]) && k == Dir(r);
        assert Under(r, rel, mods[..i + 1]);
      } else if k == Dir(sub) {
        assert Under(sub, rel, mods[..i + 1]);
      } else {
        var r: seq<string> :| AreNames(r) && Under(r, sub, deeper) && k == Dir(r);
        assert r[..|rel|] == r[..|sub|][..|rel|] == rel && r[|rel|] == r[..|sub|][|rel|];
        assert Under(r, rel, mods[..i + 1]);
      }
    }
  }

  function ModsOf(c: Crate, rel: seq<string>): seq<string> {
    if Resolves(c, rel) then c.files[File(c, rel)] else []
  }

  lemma WalkNext(c: Crate, rel: seq<string>, mods: seq<string>, i: nat, sub: seq<string>)
    requires Resolves(c, rel) && c.build.Lists? && i < |mods| && sub == rel + [mods[i]] && sub[..|sub| - 1] == rel
    ensures Walk(c, rel, mods[i..]) ==
            Here(c, sub) + (if Resolves(c, sub) then Walk(c, sub, ModsOf(c, sub)) else []) + Walk(c, rel, mods[i + 1..])
  {
    hide Resolves, File, FindingOf, Dir;
    assert mods[i..][1..] == mods[i + 1..];
  }

  /** `check_module_tree` and the `seen` set its calls share. */
  class Walker {
    const c: Crate
    var seen: set<string>

    constructor (c: Crate)
      ensures this.c == c && seen == {}
    {
      this.c := c;
      seen := {};
    }

    /** The `seen` set never prunes: the findings are those of the walk that remembers nothing. */
    method CheckModuleTree(rel: seq<string>) returns (findings: seq<Finding>)
      requires Valid(c) && c.build.Lists? && Declared(c, rel) && Resolves(c, rel)
      requires Unvisited(seen, rel, c.files[File(c, rel)])
      modifies this
      ensures findings == Walk(c, rel, c.files[File(c, rel)])
      ensures old(seen) <= seen && KeysUnder(seen - old(seen), rel, c.files[File(c, rel)])
      decreases Room(c, rel)
    {
      hide Dir, File, Resolves, Declared, FindingOf, Walk, Valid, Room, AreNames, Unvisited, KeysUnder, Here;
      findings := [];
      var mods := c.files[File(c, rel)];
      ModsDistinct(c, File(c, rel));
      NoKeys(rel, mods[..0]);
      assert mods[0..] == mods && seen - old(seen) == {};
      var i := 0;
      while i < |mods|
        invariant 0 <= i <= |mods|
        invariant findings + Walk(c, rel, mods[i..]) == Walk(c, rel, mods)
        invariant old(seen) <= seen && KeysUnder(seen - old(seen), rel, mods[..i])
      {
        var sub := rel + [mods[i]];
        ghost var before, deeper := seen, ModsOf(c, sub);
        assert sub[..|sub| - 1] == rel;
        DeclaredBelow(c, rel, mods[i]);
        DeclaredNames(c, sub);
        NextIsFresh(old(seen), seen, rel, mods, i, deeper);
        if Dir(sub) !in seen {
          WalkNext(c, rel, mods, i, sub);
          seen := seen + {Dir(sub)};
          ghost var own := seen;
          findings := findings + Here(c, sub);
          NoKeys(sub, deeper);
          assert seen - own == {};
          if Resolves(c, sub) {
            RoomShrinks(c, rel, mods[i]);
            var below := CheckModuleTree(sub);
            findings := findings + below;
          }
          KeysAfter(old(seen), before, seen - own, rel, mods, i, deeper);
          assert before + {Dir(sub)} + (seen - own) - old(seen) == seen - old(seen);
        }
        i := i + 1;
      }
      assert mods[..|mods|] == mods && mods[|mods|..] == [];
      WalkNothing(c, rel);
    }
  }

  lemma NoKeys(rel: seq<string>, mods: seq<string>)
    ensures KeysUnder({}, rel, mods)
  {
  }

  lemma WalkNothing(c: Crate, rel: seq<string>)
    requires Resolves(c, rel) && c.build.Lists?
    ensures Walk(c, rel, []) == []
  {
  }

  /** `check_crate` */
  method CheckCrate(c: Crate) returns (findings: seq<Finding>)
    requires Valid(c)
    ensures findings == Findings(c)
  {
    hide Walk, Valid;
    findings := [];
    if c.build.Missing? || ROOT !in c.files { return; }
    if c.build.NoLibrary? { return; }
    if c.build.Globs? { return; }
    if c.build.entries == [] { return; }
    if ROOT !in c.build.entries { findings := [RootUnlisted]; }
    var walker := new Walker(c);
    var tree := walker.CheckModuleTree([]);
    findings := findings + tree;
    var absent := CheckEntries(c.files, c.build.entries);
    findings := findings + absent;
  }

  method SortEntries(entries: seq<string>) returns (listed: seq<string>)
    ensures listed == SortedSet(entries)
  {
    hide Insert;
    listed := [];
    for k := 0 to |entries|
      invariant listed == SortedSet(entries[..k])
    {
      assert entries[..k + 1][..k] == entries[..k];
      listed := Insert(listed, entries[k]);
    }
    assert entries[..|entries|] == entries;
  }

  method ReportAbsent(files: map<string, seq<string>>, listed: seq<string>) returns (findings: seq<Finding>)
    ensures findings == AbsentEntries(files, listed)
  {
    assert listed[0..] == listed;
    findings := [];
    for i := 0 to |listed|
      invariant findings + AbsentEntries(files, listed[i..]) == AbsentEntries(files, listed)
    {
      assert listed[i..][1..] == listed[i + 1..];
      Regroup(findings, if listed[i] in files then [] else [Absent(listed[i])], AbsentEntries(files, listed[i + 1..]));
      if listed[i] !in files { findings := findings + [Absent(listed[i])]; }
    }
  }

  /** The listed files that do not exist, each once and in order. */
  method CheckEntries(files: map<string, seq<string>>, entries: seq<string>) returns (findings: seq<Finding>)
    ensures findings == AbsentEntries(files, SortedSet(entries))
    ensures forall e :: Absent(e) in findings <==> e in entries && e !in files
  {
    hide SortedSet, IsSorted, AbsentEntries;
    SortedSetSorts(entries);
    var listed := SortEntries(entries);
    AbsentEntriesExact(files, listed);
    findings := ReportAbsent(files, listed);
  }

  // ---- splitting a file into a directory ----------------------------------------------------------------

  function Renamed(entries: seq<string>, from: string, to: string): (r: seq<string>)
    ensures |r| == |entries|
    ensures forall k | 0 <= k < |entries| :: r[k] == if entries[k] == from then to else entries[k]
  {
    seq(|entries|, k requires 0 <= k < |entries| => if entries[k] == from then to else entries[k])
  }

  /** `src/<m>.rs` becomes `src/<m>/mod.rs`, in the tree and in the list. */
  function Split(c: Crate, m: seq<string>): Crate
    requires FileForm(m) in c.files && c.build.Lists?
  {
    Crate((c.files - {FileForm(m)})[DirForm(m) := c.files[FileForm(m)]],
          Lists(Renamed(c.build.entries, FileForm(m), DirForm(m))))
  }

  /** The module can be split: it has a name of its own, its file is there and the target is not, and
      no module of the crate is named `mod`. */
  ghost predicate CanSplit(c: Crate, m: seq<string>) {
    && Valid(c) && c.build.Lists? && AreNames(m) && m != [] && m != ["lib"]
    && FileForm(m) in c.files && DirForm(m) !in c.files
    && m[|m| - 1] != "mod" && forall p | p in c.files :: "mod" !in c.files[p]
  }

  lemma SplitValid(c: Crate, m: seq<string>)
    requires CanSplit(c, m)
    ensures Valid(Split(c, m)) && FileForm(m) != ROOT && DirForm(m) != ROOT && FileForm(m) != DirForm(m)
  {
    assert ["lib"][..0] == [];
    assert FileForm(["lib"]) == "src" + "/" + "lib" + ".rs" == ROOT;
    DirFormIsFileForm(m);
    if FileForm(m) == ROOT { FileFormInjective(m, ["lib"]); }
    if DirForm(m) == ROOT { FileFormInjective(m + ["mod"], ["lib"]); }
    if DirForm(m) == FileForm(m) { FileFormInjective(m, m + ["mod"]); }
  }

  /** Only the module itself resolves to the file that moves, before or after. */
  lemma OnlyItMoves(c: Crate, m: seq<string>, rel: seq<string>)
    requires CanSplit(c, m) && AreNames(rel) && rel != [] && rel[|rel| - 1] != "mod" && rel != m
    ensures FileForm(rel) != FileForm(m) && FileForm(rel) != DirForm(m)
    ensures DirForm(rel) != FileForm(m) && DirForm(rel) != DirForm(m)
  {
    hide FileForm, DirForm;
    DirFormIsFileForm(m);
    DirFormIsFileForm(rel);
    if FileForm(rel) == FileForm(m) { FileFormInjective(rel, m); }
    if FileForm(rel) == DirForm(m) { FileFormInjective(rel, m + ["mod"]); }
    if DirForm(rel) == FileForm(m) { FileFormInjective(rel + ["mod"], m); }
    assert (rel + ["mod"])[..|rel|] == rel && (m + ["mod"])[..|m|] == m;
    if DirForm(rel) == DirForm(m) { FileFormInjective(rel + ["mod"], m + ["mod"]); }
  }

  /** Resolution after the split: the same modules resolve, each to the same declarations, and to the
      same file unless it is the one that moved. */
  lemma SplitResolves(c: Crate, m: seq<string>, rel: seq<string>)
    requires CanSplit(c, m) && AreNames(rel) && (rel != [] ==> rel[|rel| - 1] != "mod")
    ensures var d := Split(c, m);
            && (Resolves(d, rel) <==> Resolves(c, rel))
            && (Resolves(c, rel) ==> d.files[File(d, rel)] == c.files[File(c, rel)])
            && (Resolves(c, rel) ==> File(d, rel) == if File(c, rel) == FileForm(m) then DirForm(m) else File(c, rel))
            && (Resolves(c, rel) ==> File(c, rel) != DirForm(m))
  {
    SplitValid(c, m);
    hide FileForm, DirForm, Valid;
    if rel != [] && rel != m { OnlyItMoves(c, m, rel); }
  }

  lemma {:induction false} SplitDeclared(c: Crate, m: seq<string>, rel: seq<string>)
    requires CanSplit(c, m)
    ensures Declared(Split(c, m), rel) <==> Declared(c, rel)
    ensures Declared(c, rel) ==> AreNames(rel) && (rel != [] ==> rel[|rel| - 1] != "mod")
  {
    hide FileForm, DirForm, Valid;
    if rel != [] {
      var up := rel[..|rel| - 1];
      SplitDeclared(c, m, up);
      if Declared(c, up) { SplitResolves(c, m, up); }
    }
    if Declared(c, rel) { DeclaredNames(c, rel); }
  }

  lemma SplitCovered(c: Crate, m: seq<string>, rel: seq<string>)
    requires CanSplit(c, m) && Declared(c, rel) && DirForm(m) !in c.build.entries
    ensures IsCovered(Split(c, m), rel) <==> IsCovered(c, rel)
  {
    SplitValid(c, m);
    SplitDeclared(c, m, rel);
    SplitResolves(c, m, rel);
    hide Declared, Valid, FileForm, DirForm, CanSplit, File, Resolves;
    if Resolves(c, rel) { RenamedIn(c.build.entries, FileForm(m), DirForm(m), File(c, rel)); }
  }

  lemma RenamedIn(entries: seq<string>, from: string, to: string, e: string)
    requires to !in entries && from != to && e != to
    ensures (if e == from then to else e) in Renamed(entries, from, to) <==> e in entries
  {
    var r := Renamed(entries, from, to);
    if e in entries {
      var k :| 0 <= k < |entries| && entries[k] == e;
      assert r[k] == if e == from then to else e;
    }
    if (if e == from then to else e) in r {
      var k :| 0 <= k < |r| && r[k] == if e == from then to else e;
      assert entries[k] == e;
    }
  }

  /** Splitting a file into a directory keeps the verdict, at any depth of the tree: the crate passed
      exactly when it passes afterwards and did not already list the file that was missing. */
  lemma SplitKeepsVerdict(c: Crate, m: seq<string>)
    requires CanSplit(c, m) && ROOT in c.files && c.build.entries != []
    ensures Findings(c) == [] <==> DirForm(m) !in c.build.entries && Findings(Split(c, m)) == []
  {
    var d := Split(c, m);
    SplitValid(c, m);
    hide Findings, Declared, Valid, FileForm, DirForm, IsCovered;
    PassesIffComplete(c);
    PassesIffComplete(d);
    if DirForm(m) !in c.build.entries {
      RenamedIn(c.build.entries, FileForm(m), DirForm(m), ROOT);
      forall r: seq<string> ensures Declared(c, r) <==> Declared(d, r) { SplitDeclared(c, m, r); }
      forall r: seq<string> | Declared(c, r) ensures IsCovered(c, r) <==> IsCovered(d, r) { SplitCovered(c, m, r); }
      SplitEntries(c, m);
    }
  }

  lemma SplitEntries(c: Crate, m: seq<string>)
    requires CanSplit(c, m) && DirForm(m) !in c.build.entries
    ensures (forall e | e in c.build.entries :: e in c.files) <==>
            (forall e | e in Split(c, m).build.entries :: e in Split(c, m).files)
  {
    SplitValid(c, m);
    hide FileForm, DirForm, Valid;
    var d, from, to := Split(c, m), FileForm(m), DirForm(m);
    forall e | e in c.build.entries ensures (if e == from then to else e) in d.build.entries {
      RenamedIn(c.build.entries, from, to, e);
    }
    forall e | e in d.build.entries ensures e == to || (e != from && e in c.build.entries) {
      var k :| 0 <= k < |d.build.entries| && d.build.entries[k] == e;
    }
  }
}
