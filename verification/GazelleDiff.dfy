/** `analyze_file`: what one file's generator diff proposes, once reorderings cancel. */
module GazelleDiff {
  import opened Wrappers

  datatype Sign = Plus | Minus | Context

  /** A diff line, with what its content matches: a target opener or closer, a target's name, an attribute
      opener or closer, the keep marker, a quoted label. */
  datatype Line = Line(
    sign: Sign, opensTarget: bool, closesTarget: bool, name: Option<string>,
    opensAttr: bool, closesAttr: bool, keep: bool, edge: Option<string>)

  const UNNAMED := "<unnamed>"

  /** `label.rsplit(":", 1)[-1]` */
  function Plain(edge: string): string {
    if edge == "" || edge[|edge| - 1] == ':' then "" else Plain(edge[..|edge| - 1]) + [edge[|edge| - 1]]
  }

  /** The label's plain form is published with a feature flavour beside it. */
  predicate IsFlavored(edge: string) {
    Plain(edge) in {
      "mcp_re_host", "mcp_re_proxy", "mcp_re_transport",
      "mcp_re_http_profile", "mcp_re_client_core", "mcp_re_client_proxy"
    }
  }

  // ---- reading the diff in one pass ----------------------------------------------------------------

  /** Inside how many wholly added attributes the scan is, and whether inside a new target. */
  datatype Place = Outside(attrs: nat) | Target(attrs: nat, name: string)

  function Next(at: Place, line: Line): Place {
    match at
    case Target(attrs, name) =>
      if line.sign != Plus || line.closesTarget then Outside(attrs)
      else Target(attrs, if line.name.Some? then line.name.value else name)
    case Outside(attrs) =>
      if line.sign == Plus && line.opensTarget then Target(attrs, UNNAMED)
      else if line.sign == Plus && line.opensAttr then Outside(attrs + 1)
      else if attrs > 0 && line.sign == Plus && line.closesAttr then Outside(attrs - 1)
      else at
  }

  /** The line adds a label to a list that was there already. */
  predicate IsEligible(at: Place, line: Line) {
    && at == Outside(0) && line.sign == Plus && !line.opensTarget && !line.opensAttr
    && !line.keep && line.edge.Some?
  }

  function Added(at: Place, line: Line): seq<string> {
    if IsEligible(at, line) then [line.edge.value] else []
  }

  function Lost(line: Line): multiset<string> {
    if line.sign == Minus && line.edge.Some? then multiset{line.edge.value} else multiset{}
  }

  /** The target a line ends, by closing it or by not belonging to it. */
  function Ended(at: Place, line: Line): seq<string> {
    if !at.Target? || (line.sign == Plus && !line.closesTarget) then []
    else [if line.sign == Plus && line.name.Some? then line.name.value else at.name]
  }

  function EndOf(at: Place, lines: seq<Line>): Place
    decreases lines
  {
    if lines == [] then at else EndOf(Next(at, lines[0]), lines[1..])
  }

  /** The labels added to existing lists, in order. */
  function Additions(at: Place, lines: seq<Line>): seq<string>
    decreases lines
  {
    if lines == [] then []
    else Added(at, lines[0]) + Additions(Next(at, lines[0]), lines[1..])
  }

  /** The new targets, in order; one still open at the end counts. */
  function Targets(at: Place, lines: seq<Line>): seq<string>
    decreases lines
  {
    if lines == [] then (if at.Target? then [at.name] else [])
    else Ended(at, lines[0]) + Targets(Next(at, lines[0]), lines[1..])
  }

  function Removals(lines: seq<Line>): multiset<string> {
    if lines == [] then multiset{} else Removals(lines[..|lines| - 1]) + Lost(lines[|lines| - 1])
  }

  /** Each removal of a label cancels one addition of it, first come first served. */
  function Cancel(added: seq<string>, removed: multiset<string>): seq<string>
    decreases added
  {
    if added == [] then []
    else if removed[added[0]] > 0 then Cancel(added[1..], removed - multiset{added[0]})
    else (if IsFlavored(added[0]) then [] else [added[0]]) + Cancel(added[1..], removed)
  }

  function Inserted(lines: seq<Line>): seq<string> {
    Cancel(Additions(Outside(0), lines), Removals(lines))
  }

  // ---- the code -------------------------------------------------------------------------------------------

  method CountRemovals(lines: seq<Line>) returns (removed: multiset<string>)
    ensures removed == Removals(lines)
  {
    removed := multiset{};
    for k := 0 to |lines|
      invariant removed == Removals(lines[..k])
    {
      assert lines[..k + 1][..k] == lines[..k];
      if lines[k].sign == Minus && lines[k].edge.Some? { removed := removed + multiset{lines[k].edge.value}; }
    }
    assert lines[..|lines|] == lines;
  }

  /** The lines from an index on; the index may be one past the end. */
  function From(lines: seq<Line>, i: nat): seq<Line> {
    if i <= |lines| then lines[i..] else []
  }

  /** The inner loop over a new target: its name, and the index after the line that ends it. */
  method ConsumeTarget(lines: seq<Line>, i: nat, attrs: nat) returns (name: string, next: nat)
    requires i < |lines| && lines[i].sign == Plus && lines[i].opensTarget
    ensures i < next <= |lines| + 1
    ensures Targets(Outside(attrs), lines[i..]) == [name] + Targets(Outside(attrs), From(lines, next))
    ensures Additions(Outside(attrs), lines[i..]) == Additions(Outside(attrs), From(lines, next))
  {
    name := UNNAMED;
    var j := i + 1;
    assert lines[i..][1..] == lines[i + 1..];
    while j < |lines| && lines[j].sign == Plus
      invariant i < j <= |lines|
      invariant Targets(Outside(attrs), lines[i..]) == Targets(Target(attrs, name), lines[j..])
      invariant Additions(Outside(attrs), lines[i..]) == Additions(Target(attrs, name), lines[j..])
    {
      assert lines[j..][1..] == lines[j + 1..];
      if lines[j].name.Some? { name := lines[j].name.value; }
      if lines[j].closesTarget { break; }
      j := j + 1;
    }
    next := j + 1;
    if j < |lines| { assert lines[j..][1..] == lines[j + 1..]; }
  }

  lemma Unfold(at: Place, lines: seq<Line>, i: nat)
    requires i < |lines|
    ensures Additions(at, lines[i..]) == Added(at, lines[i]) + Additions(Next(at, lines[i]), lines[i + 1..])
    ensures Targets(at, lines[i..]) == Ended(at, lines[i]) + Targets(Next(at, lines[i]), lines[i + 1..])
    ensures Added(at, lines[i]) == [] ==> Additions(at, lines[i..]) == Additions(Next(at, lines[i]), lines[i + 1..])
    ensures Ended(at, lines[i]) == [] ==> Targets(at, lines[i..]) == Targets(Next(at, lines[i]), lines[i + 1..])
  {
    hide Added, Ended, Next;
    assert lines[i..][1..] == lines[i + 1..];
  }

  lemma NothingLeft(attrs: nat, removed: multiset<string>)
    ensures Targets(Outside(attrs), []) == [] && Cancel(Additions(Outside(attrs), []), removed) == []
  {
  }

  lemma CancelNext(edge: string, rest: seq<string>, removed: multiset<string>)
    ensures Cancel([edge] + rest, removed) ==
            if removed[edge] > 0 then Cancel(rest, removed - multiset{edge})
            else (if IsFlavored(edge) then [] else [edge]) + Cancel(rest, removed)
  {
    hide IsFlavored;
    assert ([edge] + rest)[1..] == rest;
  }

  /** A label line of an existing list: it cancels a removal, or is reported unless flavoured. */
  method TakeEdge(edge: string, removed: multiset<string>, inserted: seq<string>, ghost rest: seq<string>)
    returns (removed': multiset<string>, inserted': seq<string>)
    ensures inserted' + Cancel(rest, removed') == inserted + Cancel([edge] + rest, removed)
  {
    hide IsFlavored, Cancel;
    CancelNext(edge, rest, removed);
    removed', inserted' := removed, inserted;
    if removed[edge] > 0 {
      removed' := removed - multiset{edge};
    } else if !IsFlavored(edge) {
      inserted' := inserted + [edge];
    }
  }

  /** How a line outside a new target moves the scan. */
  lemma OutsideStep(attrs: nat, line: Line)
    requires !(line.sign == Plus && line.opensTarget)
    ensures Ended(Outside(attrs), line) == []
    ensures line.sign == Plus && line.opensAttr ==> Next(Outside(attrs), line) == Outside(attrs + 1)
    ensures !(line.sign == Plus && line.opensAttr) ==>
              Next(Outside(attrs), line) ==
              Outside(if attrs > 0 && line.sign == Plus && line.closesAttr then attrs - 1 else attrs)
    ensures Added(Outside(attrs), line) ==
            if attrs == 0 && line.sign == Plus && !line.opensAttr && !line.keep && line.edge.Some?
            then [line.edge.value] else []
  {
  }

  /** `analyze_file` */
  method AnalyzeFile(lines: seq<Line>) returns (names: seq<string>, inserted: seq<string>)
    ensures names == Targets(Outside(0), lines)
    ensures inserted == Inserted(lines)
  {
    hide Additions, Targets, Cancel, Next, Added, Ended;
    names, inserted := [], [];
    var removed := CountRemovals(lines);
    var i, attrs := 0, 0;
    assert From(lines, 0) == lines;
    while i < |lines|
      invariant 0 <= i <= |lines| + 1
      invariant names + Targets(Outside(attrs), From(lines, i)) == Targets(Outside(0), lines)
      invariant inserted + Cancel(Additions(Outside(attrs), From(lines, i)), removed) == Inserted(lines)
      decreases |lines| - i
    {
      var line := lines[i];
      if line.sign == Plus && line.opensTarget {
        var name;
        name, i := ConsumeTarget(lines, i, attrs);
        names := names + [name];
        continue;
      }
      Unfold(Outside(attrs), lines, i);
      OutsideStep(attrs, line);
      if line.sign == Plus && line.opensAttr {
        attrs, i := attrs + 1, i + 1;
        continue;
      }
      if attrs > 0 {
        if line.sign == Plus && line.closesAttr { attrs := attrs - 1; }
        i := i + 1;
        continue;
      }
      if line.sign == Plus && !line.keep && line.edge.Some? {
        removed, inserted := TakeEdge(line.edge.value, removed, inserted, Additions(Outside(0), lines[i + 1..]));
      }
      i := i + 1;
    }
    assert From(lines, i) == [];
    NothingLeft(attrs, removed);
  }

  // ---- what is reported ----------------------------------------------------------------------------------------

  lemma {:induction false} CancelCounts(added: seq<string>, removed: multiset<string>, edge: string)
    ensures multiset(Cancel(added, removed))[edge] ==
            if IsFlavored(edge) || multiset(added)[edge] <= removed[edge] then 0
            else multiset(added)[edge] - removed[edge]
    decreases added
  {
    hide IsFlavored;
    if added == [] {
    } else {
      assert added == [added[0]] + added[1..];
      var rest := if removed[added[0]] > 0 then removed - multiset{added[0]} else removed;
      CancelCounts(added[1..], rest, edge);
    }
  }

  /** A label outside the flavour set is reported exactly as often as its additions outnumber its removals. */
  lemma ReportedIsTheExcess(lines: seq<Line>, edge: string)
    ensures multiset(Inserted(lines))[edge] ==
            var added := multiset(Additions(Outside(0), lines))[edge];
            if IsFlavored(edge) || added <= Removals(lines)[edge] then 0 else added - Removals(lines)[edge]
  {
    CancelCounts(Additions(Outside(0), lines), Removals(lines), edge);
  }

  /** Nothing is reported exactly when every unflavoured label is removed at least as often as it is added; a
      pure reordering reports nothing. */
  lemma ReorderingReportsNothing(lines: seq<Line>)
    ensures Inserted(lines) == [] <==>
            forall edge | edge in Additions(Outside(0), lines) && !IsFlavored(edge) ::
              multiset(Additions(Outside(0), lines))[edge] <= Removals(lines)[edge]
    ensures multiset(Additions(Outside(0), lines)) <= Removals(lines) ==> Inserted(lines) == []
  {
    hide IsFlavored, Inserted, Additions, Removals;
    var added := Additions(Outside(0), lines);
    forall edge ensures multiset(Inserted(lines))[edge] ==
                         if IsFlavored(edge) || multiset(added)[edge] <= Removals(lines)[edge] then 0
                         else multiset(added)[edge] - Removals(lines)[edge] {
      ReportedIsTheExcess(lines, edge);
    }
    if Inserted(lines) != [] {
      var edge := Inserted(lines)[0];
      assert multiset(Inserted(lines))[edge] > 0;
      assert multiset(added)[edge] > 0;
    }
  }

  // ---- the order of list lines does not matter -------------------------------------------------------------------

  /** An entry of a list: it opens and closes nothing. */
  predicate IsItem(line: Line) {
    !line.opensTarget && !line.closesTarget && !line.opensAttr && !line.closesAttr && line.name.None?
  }

  lemma {:induction false} Append(at: Place, a: seq<Line>, b: seq<Line>)
    ensures Additions(at, a + b) == Additions(at, a) + Additions(EndOf(at, a), b)
    ensures EndOf(at, a + b) == EndOf(EndOf(at, a), b)
    decreases a
  {
    hide Next, Added;
    if a == [] {
      assert a + b == b;
    } else {
      assert (a + b)[0] == a[0] && (a + b)[1..] == a[1..] + b;
      Append(Next(at, a[0]), a[1..], b);
    }
  }

  lemma {:induction false} RemovalsAppend(a: seq<Line>, b: seq<Line>)
    ensures Removals(a + b) == Removals(a) + Removals(b)
    decreases b
  {
    if b == [] {
      assert a + b == a;
    } else {
      var front := b[..|b| - 1];
      assert (a + b)[..|a + b| - 1] == a + front && (a + b)[|a + b| - 1] == b[|b| - 1];
      RemovalsAppend(a, front);
    }
  }

  /** The lines are entries of one list, as far as the scan can tell: none of them moves it. */
  predicate AreEntries(at: Place, xs: seq<Line>) {
    forall k | 0 <= k < |xs| :: IsItem(xs[k]) && (at.Outside? || xs[k].sign == Plus)
  }

  lemma {:induction false} EntriesStay(at: Place, xs: seq<Line>)
    requires AreEntries(at, xs)
    ensures EndOf(at, xs) == at
    decreases xs
  {
    if xs == [] {
    } else {
      assert Next(at, xs[0]) == at;
      EntriesStay(at, xs[1..]);
    }
  }

  function Without(xs: seq<Line>, k: nat): seq<Line>
    requires k < |xs|
  {
    xs[..k] + xs[k + 1..]
  }

  lemma DropOne(xs: seq<Line>, k: nat)
    requires k < |xs|
    ensures xs == xs[..k] + ([xs[k]] + xs[k + 1..]) && multiset(xs) == multiset{xs[k]} + multiset(Without(xs, k))
    ensures forall j | 0 <= j < |Without(xs, k)| :: Without(xs, k)[j] in xs
  {
    assert xs == xs[..k] + ([xs[k]] + xs[k + 1..]);
  }

  lemma EntriesWithout(at: Place, xs: seq<Line>, k: nat)
    requires AreEntries(at, xs) && k < |xs|
    ensures AreEntries(at, Without(xs, k)) && AreEntries(at, xs[..k]) && Next(at, xs[k]) == at
  {
    DropOne(xs, k);
  }

  /** One entry among others contributes what it would alone. */
  lemma OneAmong(at: Place, xs: seq<Line>, k: nat)
    requires AreEntries(at, xs) && k < |xs|
    ensures multiset(Additions(at, xs)) == multiset(Added(at, xs[k])) + multiset(Additions(at, Without(xs, k)))
    ensures Removals(xs) == Lost(xs[k]) + Removals(Without(xs, k))
  {
    hide Next, Added, Lost, Additions, EndOf, Removals, AreEntries;
    var a, x, b := xs[..k], xs[k], xs[k + 1..];
    EntriesWithout(at, xs, k);
    EntriesStay(at, a);
    Single(at, x);
    DropOne(xs, k);
    Append(at, a, [x] + b);
    Append(at, [x], b);
    Append(at, a, b);
    RemovalsAppend(a, [x] + b);
    RemovalsAppend([x], b);
    RemovalsAppend(a, b);
  }

  lemma Single(at: Place, x: Line)
    ensures Additions(at, [x]) == Added(at, x) && EndOf(at, [x]) == Next(at, x) && Removals([x]) == Lost(x)
  {
    hide Next, Added, Lost;
    assert [x][1..] == [] && [x][..0] == [];
    assert Additions(Next(at, x), []) == [];
    assert EndOf(Next(at, x), []) == Next(at, x);
  }

  lemma {:induction false} EntriesPermute(at: Place, xs: seq<Line>, ys: seq<Line>)
    requires multiset(xs) == multiset(ys) && AreEntries(at, xs) && AreEntries(at, ys)
    ensures multiset(Additions(at, xs)) == multiset(Additions(at, ys)) && Removals(xs) == Removals(ys)
    decreases |ys|
  {
    hide Additions, Removals, Added, Lost, AreEntries, Without;
    if ys == [] {
      assert |xs| == |multiset(xs)| == 0;
    } else {
      var k := FindIn(xs, ys);
      DropOne(ys, 0);
      SameRest(ys[0], multiset(Without(xs, k)), multiset(Without(ys, 0)));
      EntriesWithout(at, xs, k);
      EntriesWithout(at, ys, 0);
      EntriesPermute(at, Without(xs, k), Without(ys, 0));
      OneAmong(at, xs, k);
      OneAmong(at, ys, 0);
    }
  }

  lemma FindIn(xs: seq<Line>, ys: seq<Line>) returns (k: nat)
    requires multiset(xs) == multiset(ys) && ys != []
    ensures k < |xs| && xs[k] == ys[0] && multiset(xs) == multiset{ys[0]} + multiset(Without(xs, k))
    ensures |Without(ys, 0)| < |ys|
  {
    assert ys[0] in multiset(xs);
    k :| 0 <= k < |xs| && xs[k] == ys[0];
    DropOne(xs, k);
  }

  lemma SameRest(x: Line, a: multiset<Line>, b: multiset<Line>)
    requires multiset{x} + a == multiset{x} + b
    ensures a == b
  {
    assert a == (multiset{x} + a) - multiset{x};
    assert b == (multiset{x} + b) - multiset{x};
  }

  /** The order of the entries of a list does not matter: any rearrangement of them leaves every label
      reported as often as before. */
  lemma RearrangingEntriesChangesNothing(front: seq<Line>, xs: seq<Line>, ys: seq<Line>, back: seq<Line>)
    requires multiset(xs) == multiset(ys)
    requires AreEntries(EndOf(Outside(0), front), xs) && AreEntries(EndOf(Outside(0), front), ys)
    ensures multiset(Inserted(front + xs + back)) == multiset(Inserted(front + ys + back))
  {
    hide Additions, EndOf, Removals, Inserted, IsFlavored, AreEntries;
    var x, y, at := front + xs + back, front + ys + back, EndOf(Outside(0), front);
    EntriesPermute(at, xs, ys);
    EntriesStay(at, xs);
    EntriesStay(at, ys);
    Around(front, xs, back);
    Around(front, ys, back);
    forall edge ensures multiset(Inserted(x))[edge] == multiset(Inserted(y))[edge] {
      ReportedIsTheExcess(x, edge);
      ReportedIsTheExcess(y, edge);
    }
  }

  lemma Around(front: seq<Line>, xs: seq<Line>, back: seq<Line>)
    ensures var at := EndOf(Outside(0), front);
            && multiset(Additions(Outside(0), front + xs + back)) ==
               multiset(Additions(Outside(0), front)) + multiset(Additions(at, xs))
               + multiset(Additions(EndOf(at, xs), back))
            && Removals(front + xs + back) == Removals(front) + Removals(xs) + Removals(back)
  {
    hide Additions, EndOf, Removals;
    Append(Outside(0), front + xs, back);
    Append(Outside(0), front, xs);
    RemovalsAppend(front + xs, back);
    RemovalsAppend(front, xs);
  }
}
