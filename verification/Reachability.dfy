/** The worklists: `reach` in the crate-spec parity gate and `closure` in the rehearsal-claim gate, and the
    answers the two gates build on them. */
module Reachability {
  import opened Wrappers
  import opened Sequences
  import opened PythonText

  type Graph<T(==)> = map<T, seq<T>>

  function Successors<T(==)>(g: Graph<T>, x: T): seq<T> {
    if x in g then g[x] else []
  }

  ghost predicate IsPath<T>(g: Graph<T>, p: seq<T>) {
    p != [] && forall k | 0 <= k < |p| - 1 :: p[k] in g && p[k + 1] in g[p[k]]
  }

  ghost predicate Reaches<T(!new)>(g: Graph<T>, a: T, b: T) {
    exists p: seq<T> :: IsPath(g, p) && p[0] == a && p[|p| - 1] == b
  }

  /** Some root reaches `x`. */
  ghost predicate IsReached<T(!new)>(g: Graph<T>, roots: set<T>, x: T) {
    exists a | a in roots :: Reaches(g, a, x)
  }

  /** Everything an edge can lead to, and the roots. */
  function Universe(g: Graph<string>, roots: set<string>): set<string> {
    roots + set x, y | x in g && y in g[x] :: y
  }

  lemma RootIsReached<T(!new)>(g: Graph<T>, roots: set<T>, a: T)
    requires a in roots
    ensures IsReached(g, roots, a)
  {
    assert IsPath(g, [a]);
    assert Reaches(g, a, a);
  }

  lemma SuccessorIsReached<T(!new)>(g: Graph<T>, roots: set<T>, x: T, y: T)
    requires IsReached(g, roots, x) && y in Successors(g, x)
    ensures IsReached(g, roots, y)
  {
    var a :| a in roots && Reaches(g, a, x);
    var p: seq<T> :| IsPath(g, p) && p[0] == a && p[|p| - 1] == x;
    var q := p + [y];
    assert IsPath(g, q) by {
      forall k | 0 <= k < |q| - 1 ensures q[k + 1] in Successors(g, q[k]) {
        if k < |p| - 1 { assert p[k + 1] in Successors(g, p[k]); }
      }
    }
    assert Reaches(g, a, y);
  }

  /** The set holds the roots and every successor of its members. */
  ghost predicate IsClosed<T(!new)>(g: Graph<T>, roots: set<T>, s: set<T>) {
    roots <= s && forall x, y | x in s && y in Successors(g, x) :: y in s
  }

  lemma {:induction false} PathStaysInside<T(!new)>(g: Graph<T>, s: set<T>, p: seq<T>, k: nat)
    requires forall x, y | x in s && y in Successors(g, x) :: y in s
    requires IsPath(g, p) && p[0] in s && k < |p|
    ensures p[k] in s
  {
    if k == 0 {
    } else {
      PathStaysInside(g, s, p, k - 1);
      assert p[k - 1 + 1] in Successors(g, p[k - 1]);
    }
  }

  lemma ClosedHoldsReached<T(!new)>(g: Graph<T>, roots: set<T>, s: set<T>, x: T)
    requires IsClosed(g, roots, s) && IsReached(g, roots, x)
    ensures x in s
  {
    var a :| a in roots && Reaches(g, a, x);
    var p: seq<T> :| IsPath(g, p) && p[0] == a && p[|p| - 1] == x;
    PathStaysInside(g, s, p, |p| - 1);
  }

  /** What a worklist keeps: whatever is seen or pending is reached, and whatever a seen node leads to is
      seen or pending. */
  ghost predicate Working(g: Graph<string>, roots: set<string>, seen: set<string>, pending: seq<string>) {
    && seen <= Universe(g, roots)
    && (forall x | x in pending :: x in Universe(g, roots) && IsReached(g, roots, x))
    && (forall x | x in seen :: IsReached(g, roots, x))
    && (forall a | a in roots :: a in seen || a in pending)
    && (forall x, y | x in seen && y in Successors(g, x) :: y in seen || y in pending)
  }

  lemma DoneWorking(g: Graph<string>, roots: set<string>, seen: set<string>)
    requires Working(g, roots, seen, [])
    ensures forall x :: x in seen <==> IsReached(g, roots, x)
  {
    hide IsReached;
    assert IsClosed(g, roots, seen);
    hide IsClosed;
    forall x | IsReached(g, roots, x) ensures x in seen { ClosedHoldsReached(g, roots, seen, x); }
  }

  lemma StartWorking(g: Graph<string>, roots: set<string>, pending: seq<string>)
    requires Elements(pending) == roots
    ensures Working(g, roots, {}, pending)
  {
    forall x | x in pending ensures x in Universe(g, roots) && IsReached(g, roots, x) {
      assert x in roots;
      RootIsReached(g, roots, x);
    }
    forall a | a in roots ensures a in pending {}
  }

  /** Pop the last of the stack; push its successors if it is new. */
  lemma PopKeepsWorking(g: Graph<string>, roots: set<string>, seen: set<string>, stack: seq<string>)
    requires stack != [] && Working(g, roots, seen, stack)
    ensures
      var name, rest := stack[|stack| - 1], stack[..|stack| - 1];
      if name in seen then Working(g, roots, seen, rest)
      else Working(g, roots, seen + {name}, rest + Successors(g, name))
  {
    hide IsReached;
    var name, rest := stack[|stack| - 1], stack[..|stack| - 1];
    assert stack == rest + [name];
    forall y | y in Successors(g, name) ensures y in Universe(g, roots) && IsReached(g, roots, y) {
      SuccessorIsReached(g, roots, name, y);
    }
  }

  /** `reach`: a stack, popped from the end, and a set of what was seen. */
  method Reach(g: Graph<string>, roots: seq<string>) returns (seen: set<string>)
    ensures forall x :: x in seen <==> IsReached(g, Elements(roots), x)
  {
    hide Working, Universe, IsReached;
    ghost var from := Elements(roots);
    seen := {};
    var stack := roots;
    StartWorking(g, from, stack);
    while stack != []
      invariant Working(g, from, seen, stack)
      decreases Universe(g, from) - seen, |stack|
    {
      PopKeepsWorking(g, from, seen, stack);
      InUniverse(g, from, seen, stack);
      var name := stack[|stack| - 1];
      stack := stack[..|stack| - 1];
      if name !in seen {
        seen := seen + {name};
        stack := stack + Successors(g, name);
      }
    }
    DoneWorking(g, from, seen);
  }

  lemma InUniverse(g: Graph<string>, roots: set<string>, seen: set<string>, stack: seq<string>)
    requires stack != [] && Working(g, roots, seen, stack)
    ensures stack[|stack| - 1] in Universe(g, roots) && seen <= Universe(g, roots)
  {
    assert stack[|stack| - 1] in stack;
  }

  // ---- the breadth-first closure ---------------------------------------------------------------------

  /** The queue holds what is seen but not yet expanded. */
  ghost predicate Expanding(g: Graph<string>, entry: string, seen: set<string>, queue: seq<string>) {
    && seen <= Universe(g, {entry}) && entry in seen && Elements(queue) <= seen
    && (forall x | x in seen :: IsReached(g, {entry}, x))
    && (forall x, y | x in seen && x !in queue && y in Successors(g, x) :: y in seen)
  }

  /** The inner loop of `closure`: queue what the current script calls and was not seen. */
  method Expand(g: Graph<string>, entry: string, current: string, seen: set<string>, queue: seq<string>)
    returns (seen': set<string>, queue': seq<string>)
    requires Expanding(g, entry, seen, [current] + queue)
    ensures Expanding(g, entry, seen', queue') && seen <= seen'
    ensures seen' == seen ==> queue' == queue
  {
    hide IsReached;
    seen', queue' := seen, queue;
    var found := Successors(g, current);
    assert current in [current] + queue && current in Elements([current] + queue);
    for k := 0 to |found|
      invariant seen <= seen' <= Universe(g, {entry}) && entry in seen' && Elements(queue') <= seen'
      invariant forall x | x in seen' :: IsReached(g, {entry}, x)
      invariant forall j | 0 <= j < k :: found[j] in seen'
      invariant forall x | x in seen' && x !in queue' :: x in seen && x !in queue
      invariant seen' == seen ==> queue' == queue
    {
      if found[k] !in seen' {
        SuccessorIsReached(g, {entry}, current, found[k]);
        seen', queue' := seen' + {found[k]}, queue' + [found[k]];
      }
    }
    forall x, y | x in seen' && x !in queue' && y in Successors(g, x) ensures y in seen' {
      if x != current { assert x !in [current] + queue; }
    }
  }

  /** `closure`: every script reachable from the entry by invocation. */
  method Closure(calls: Graph<string>, entry: string) returns (seen: set<string>)
    ensures forall x :: x in seen <==> IsReached(calls, {entry}, x)
  {
    hide Expanding, Universe, IsReached;
    seen := {entry};
    var queue := [entry];
    StartExpanding(calls, entry);
    while queue != []
      invariant Expanding(calls, entry, seen, queue)
      decreases Universe(calls, {entry}) - seen, |queue|
    {
      var current, rest := queue[0], queue[1..];
      assert queue == [current] + rest;
      ghost var before := seen;
      seen, queue := Expand(calls, entry, current, seen, rest);
      SeenInUniverse(calls, entry, seen, queue);
      assert before != seen ==> before < seen;
    }
    DoneExpanding(calls, entry, seen);
  }

  lemma StartExpanding(g: Graph<string>, entry: string)
    ensures Expanding(g, entry, {entry}, [entry])
  {
    RootIsReached(g, {entry}, entry);
  }

  lemma SeenInUniverse(g: Graph<string>, entry: string, seen: set<string>, queue: seq<string>)
    requires Expanding(g, entry, seen, queue)
    ensures seen <= Universe(g, {entry})
  {
  }

  lemma DoneExpanding(g: Graph<string>, entry: string, seen: set<string>)
    requires Expanding(g, entry, seen, [])
    ensures forall x :: x in seen <==> IsReached(g, {entry}, x)
  {
    forall x | IsReached(g, {entry}, x) ensures x in seen { ClosedHoldsReached(g, {entry}, seen, x); }
  }

  /** A document's claim: the words it makes it in, and the script they promise is called. */
  datatype Claim = Claim(document: string, marker: string, required: string)

  datatype Finding = NoDocument(document: string) | ClaimGone(document: string) | ClaimFalse(document: string)

  function Judge(claim: Claim, docs: map<string, string>, reachable: set<string>): seq<Finding> {
    if claim.document !in docs then [NoDocument(claim.document)]
    else if !Contains(docs[claim.document], claim.marker) then [ClaimGone(claim.document)]
    else if claim.required !in reachable then [ClaimFalse(claim.document)]
    else []
  }

  /** What is wrong with a claim, in terms of its document and of chains of invocations. */
  ghost predicate Faults(f: Finding, c: Claim, docs: map<string, string>, calls: Graph<string>, entry: string) {
    f.document == c.document &&
    match f
    case NoDocument(_) => c.document !in docs
    case ClaimGone(_) => c.document in docs && !Contains(docs[c.document], c.marker)
    case ClaimFalse(_) =>
      && c.document in docs && Contains(docs[c.document], c.marker)
      && !Reaches(calls, entry, c.required)
  }

  lemma JudgeFaults(c: Claim, docs: map<string, string>, calls: Graph<string>, entry: string, reachable: set<string>)
    requires c.required in reachable <==> Reaches(calls, entry, c.required)
    ensures forall f :: f in Judge(c, docs, reachable) <==> Faults(f, c, docs, calls, entry)
    ensures |Judge(c, docs, reachable)| <= 1
  {
    hide Contains, Reaches;
  }

  /** `closure` and `adjudicate` together: what is found is exactly what is wrong with some claim, at most once
      a claim; so nothing is found exactly when every claim is in its document and a chain of invocations leads
      from the entry to the script it names. */
  method RehearsalGate(
    claims: seq<Claim>, docs: map<string, string>, calls: Graph<string>, entry: string
  ) returns (findings: seq<Finding>)
    ensures forall f :: f in findings <==> exists c | c in claims :: Faults(f, c, docs, calls, entry)
    ensures |findings| <= |claims|
    ensures findings == [] <==>
            forall c | c in claims ::
              c.document in docs && Contains(docs[c.document], c.marker) && Reaches(calls, entry, c.required)
  {
    hide Contains, Reaches, Faults;
    var reachable := Closure(calls, entry);
    findings := [];
    for k := 0 to |claims|
      invariant |findings| <= k
      invariant findings == [] <==> forall j | 0 <= j < k :: Judge(claims[j], docs, reachable) == []
      invariant forall f :: f in findings <==> exists j | 0 <= j < k :: Faults(f, claims[j], docs, calls, entry)
    {
      assert claims[k].required in reachable <==> IsReached(calls, {entry}, claims[k].required);
      JudgeFaults(claims[k], docs, calls, entry, reachable);
      findings := findings + Judge(claims[k], docs, reachable);
    }
    forall c | c in claims ensures c.required in reachable <==> Reaches(calls, entry, c.required) {
      assert c.required in reachable <==> IsReached(calls, {entry}, c.required);
    }
  }
}
