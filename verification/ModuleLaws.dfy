/** The sources gate's rules on the paths themselves: where a module lives, what is checked, and what is found. */
module ModuleLaws {
  import opened Wrappers
  import opened PythonText
  import opened ModuleTree

  /** The names with a slash between each two. */
  function Joined(rel: seq<string>): string {
    if rel == [] then "" else if |rel| == 1 then rel[0] else rel[0] + "/" + Joined(rel[1..])
  }

  lemma {:induction false} JoinedLast(rel: seq<string>, name: string)
    requires rel != []
    ensures Joined(rel + [name]) == Joined(rel) + "/" + name
  {
    if |rel| == 1 {
      assert (rel + [name])[1..] == [name];
    } else {
      JoinedLast(rel[1..], name);
      assert (rel + [name])[1..] == rel[1..] + [name];
      assert rel[0] + "/" + (Joined(rel[1..]) + "/" + name) == (rel[0] + "/" + Joined(rel[1..])) + "/" + name;
    }
  }

  lemma {:induction false} DirIs(rel: seq<string>)
    requires rel != []
    ensures Dir(rel) == "src/" + Joined(rel)
  {
    var up, name := rel[..|rel| - 1], rel[|rel| - 1];
    assert rel == up + [name];
    if up == [] {
      assert Dir(rel) == "src" + "/" + name;
    } else {
      DirIs(up);
      JoinedLast(up, name);
    }
  }

  /** The two places a module is looked for in. */
  function FileOf(rel: seq<string>): string {
    "src/" + Joined(rel) + ".rs"
  }

  function DirectoryOf(rel: seq<string>): string {
    "src/" + Joined(rel) + "/mod.rs"
  }

  /** Where a module lives: the crate root, or its file, or failing that the file of its directory. */
  predicate LivesIn(c: Crate, rel: seq<string>, path: string) {
    && path in c.files
    && if rel == [] then path == "src/lib.rs"
       else path == FileOf(rel) || (path == DirectoryOf(rel) && FileOf(rel) !in c.files)
  }

  /** Every module on the path is declared where the one before it lives. */
  ghost predicate IsDeclared(c: Crate, rel: seq<string>) {
    forall k | 0 <= k < |rel| :: IsDeclaredAt(c, rel, k)
  }

  ghost predicate IsDeclaredAt(c: Crate, rel: seq<string>, k: nat)
    requires k < |rel|
  {
    exists path :: LivesIn(c, rel[..k], path) && rel[k] in c.files[path]
  }

  lemma FormsAre(rel: seq<string>)
    requires rel != []
    ensures FileForm(rel) == FileOf(rel) && DirForm(rel) == DirectoryOf(rel) && FileOf(rel) != DirectoryOf(rel)
  {
    DirIs(rel);
    var d := "src/" + Joined(rel);
    assert |d + ".rs"| != |d + "/mod.rs"|;
  }

  lemma LivesIff(c: Crate, rel: seq<string>, path: string)
    ensures LivesIn(c, rel, path) <==> Resolves(c, rel) && File(c, rel) == path
  {
    if rel != [] { FormsAre(rel); }
    hide FileForm, DirForm, FileOf, DirectoryOf;
  }

  lemma DeclaredAtIff(c: Crate, rel: seq<string>, k: nat)
    requires k < |rel|
    ensures IsDeclaredAt(c, rel, k) <==> Resolves(c, rel[..k]) && rel[k] in c.files[File(c, rel[..k])]
  {
    var up := rel[..k];
    forall path ensures LivesIn(c, up, path) <==> Resolves(c, up) && File(c, up) == path { LivesIff(c, up, path); }
    hide LivesIn, Resolves, File;
  }

  lemma DeclaredBelow(c: Crate, rel: seq<string>, n: nat)
    requires n <= |rel|
    ensures IsDeclared(c, rel[..n]) <==> forall k | 0 <= k < n :: IsDeclaredAt(c, rel, k)
  {
    hide LivesIn;
    forall k | 0 <= k < n ensures IsDeclaredAt(c, rel[..n], k) <==> IsDeclaredAt(c, rel, k) {
      assert rel[..n][..k] == rel[..k];
    }
    hide IsDeclaredAt;
  }

  lemma RootIsDeclared(c: Crate)
    ensures IsDeclared(c, []) && Declared(c, [])
  {
  }

  lemma AllDeclared(c: Crate, rel: seq<string>)
    requires rel != []
    ensures IsDeclared(c, rel) <==>
            (forall k | 0 <= k < |rel| - 1 :: IsDeclaredAt(c, rel, k)) && IsDeclaredAt(c, rel, |rel| - 1)
  {
    hide IsDeclaredAt;
  }

  lemma DeclaredLast(c: Crate, rel: seq<string>)
    requires rel != []
    ensures var up := rel[..|rel| - 1];
            Declared(c, rel) <==> Declared(c, up) && Resolves(c, up) && rel[|rel| - 1] in c.files[File(c, up)]
  {
    hide Resolves, File;
  }

  lemma {:induction false} DeclaredIff(c: Crate, rel: seq<string>)
    ensures IsDeclared(c, rel) <==> Declared(c, rel)
  {
    hide LivesIn, Resolves, File, IsDeclaredAt, Declared, IsDeclared;
    if rel == [] {
      RootIsDeclared(c);
    } else {
      var n := |rel| - 1;
      AllDeclared(c, rel);
      DeclaredIff(c, rel[..n]);
      DeclaredBelow(c, rel, n);
      DeclaredAtIff(c, rel, n);
      DeclaredLast(c, rel);
    }
  }

  /** Nothing is found of a crate without a root, without a list, or with an empty one. */
  lemma NothingElseIsChecked(c: Crate)
    requires "src/lib.rs" !in c.files || !c.build.Lists? || c.build.entries == []
    ensures Findings(c) == []
  {
  }

  lemma RootFoundIff(c: Crate)
    requires Valid(c) && "src/lib.rs" in c.files && c.build.Lists? && c.build.entries != []
    ensures RootUnlisted in Findings(c) <==> "src/lib.rs" !in c.build.entries
  {
    var walk := Walk(c, [], c.files[ROOT]);
    SortedSetSorts(c.build.entries);
    AbsentEntriesExact(c.files, SortedSet(c.build.entries));
    assert Declared(c, []) && Resolves(c, []) && File(c, []) == ROOT;
    hide Walk, Declared, Valid;
    if RootUnlisted in walk { var r := WalkSound(c, [], c.files[ROOT], RootUnlisted); }
  }

  /** A checked crate passes exactly when its root is listed, every module declarations lead to lives in a listed file,
      and every listed file exists. */
  lemma PassesLaw(c: Crate)
    requires Valid(c) && "src/lib.rs" in c.files && c.build.Lists? && c.build.entries != []
    ensures Findings(c) == [] <==>
            && "src/lib.rs" in c.build.entries
            && (forall rel: seq<string> | rel != [] && IsDeclared(c, rel) ::
                  exists path :: LivesIn(c, rel, path) && path in c.build.entries)
            && (forall e | e in c.build.entries :: e in c.files)
  {
    hide Findings, Valid, IsDeclared, Declared;
    PassesIffComplete(c);
    forall rel: seq<string> ensures IsDeclared(c, rel) <==> Declared(c, rel) { DeclaredIff(c, rel); }
    forall rel: seq<string>
      ensures (exists path :: LivesIn(c, rel, path) && path in c.build.entries) <==> IsCovered(c, rel)
    {
      CoveredLaw(c, rel);
    }
    hide LivesIn, IsCovered;
  }

  lemma CoveredLaw(c: Crate, rel: seq<string>)
    requires c.build.Lists?
    ensures (exists path :: LivesIn(c, rel, path) && path in c.build.entries) <==> IsCovered(c, rel)
  {
    forall path ensures LivesIn(c, rel, path) <==> Resolves(c, rel) && File(c, rel) == path { LivesIff(c, rel, path); }
    hide LivesIn, Resolves, File;
  }

  /** A finding is true: neither file of the module exists, or the one that does is not listed. */
  lemma FoundSays(c: Crate, f: Finding)
    requires Valid(c) && "src/lib.rs" in c.files && c.build.Lists? && c.build.entries != [] && f in Findings(c)
    ensures f.Unresolved? ==> f.fileForm !in c.files && f.dirForm !in c.files
    ensures f.Unlisted? ==> f.child in c.files && f.child !in c.build.entries
  {
    hide Findings, Valid, Declared;
    if f.Unresolved? || f.Unlisted? {
      EveryFindingIsAMissingModule(c, f);
      var r: seq<string> :| r != [] && Declared(c, r) && Resolves(c, r[..|r| - 1]) && FindingOf(c, r) == Some(f);
    }
  }

  /** What is found of a declared module, exactly: that it lives nowhere, or that the file it lives in is not listed. */
  lemma FoundIff(c: Crate, up: seq<string>, name: string, decl: string)
    requires Valid(c) && "src/lib.rs" in c.files && c.build.Lists? && c.build.entries != []
    requires IsDeclared(c, up + [name]) && LivesIn(c, up, decl)
    ensures var rel := up + [name];
            Unresolved(name, decl, FileOf(rel), DirectoryOf(rel)) in Findings(c) <==>
            forall path :: !LivesIn(c, rel, path)
    ensures forall path | LivesIn(c, up + [name], path) ::
              Unlisted(name, decl, path) in Findings(c) <==> path !in c.build.entries
  {
    var rel := up + [name];
    assert rel != [] && rel[..|rel| - 1] == up && rel[|rel| - 1] == name;
    DeclaredIff(c, rel);
    LivesIff(c, up, decl);
    FormsAre(rel);
    forall path ensures LivesIn(c, rel, path) <==> Resolves(c, rel) && File(c, rel) == path { LivesIff(c, rel, path); }
    EveryMissingModuleOnce(c, rel);
    hide Findings, Valid, IsDeclared, Declared, LivesIn, FileForm, DirForm, FileOf, DirectoryOf, Joined;
    var none := Unresolved(name, decl, FileOf(rel), DirectoryOf(rel));
    if none in Findings(c) { FoundSays(c, none); }
    if Resolves(c, rel) {
      assert LivesIn(c, rel, File(c, rel));
      var found := Unlisted(name, decl, File(c, rel));
      if found in Findings(c) { FoundSays(c, found); }
    }
  }
}
