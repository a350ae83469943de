/** The generator-diff scan on the lines themselves: what a new target takes, what an added attribute hides, what is
    added to a list that was there, what is removed, and which labels are flavoured. */
module DiffLaws {
  import opened Wrappers
  import opened GazelleDiff

  // ---- new targets -------------------------------------------------------------------------------------------

  /** The last name given in these lines, or the one before them. */
  function LastName(lines: seq<Line>, before: string): string {
    if lines == [] then before
    else if lines[|lines| - 1].name.Some? then lines[|lines| - 1].name.value
    else LastName(lines[..|lines| - 1], before)
  }

  /** Lines of a new target under way: added, and none of them closes it. */
  predicate AreInTarget(lines: seq<Line>) {
    forall k | 0 <= k < |lines| :: lines[k].sign == Plus && !lines[k].closesTarget
  }

  lemma LastNameFront(lines: seq<Line>, before: string)
    requires lines != []
    ensures LastName(lines, before) ==
            LastName(lines[1..], if lines[0].name.Some? then lines[0].name.value else before)
  {
    if |lines| == 1 {
      assert lines[..0] == [] && lines[1..] == [];
    } else {
      var front := lines[..|lines| - 1];
      assert lines[1..][|lines| - 2] == lines[|lines| - 1] && lines[1..][..|lines| - 2] == front[1..];
      LastNameFront(front, before);
    }
  }

  lemma {:induction false} TargetGoesOn(attrs: nat, name: string, body: seq<Line>, rest: seq<Line>)
    requires AreInTarget(body)
    ensures Targets(Target(attrs, name), body + rest) == Targets(Target(attrs, LastName(body, name)), rest)
    ensures Additions(Target(attrs, name), body + rest) == Additions(Target(attrs, LastName(body, name)), rest)
    decreases body
  {
    if body == [] {
      assert body + rest == rest;
    } else {
      var next := if body[0].name.Some? then body[0].name.value else name;
      assert (body + rest)[0] == body[0] && (body + rest)[1..] == body[1..] + rest;
      LastNameFront(body, name);
      TargetGoesOn(attrs, next, body[1..], rest);
    }
  }

  /** A new target takes the added lines up to the one that closes it, or up to and with the first that is not added;
      it is reported once, under the last name given in its added lines, and no label of it is. */
  lemma TargetIsTaken(attrs: nat, opener: Line, body: seq<Line>, last: Line, rest: seq<Line>)
    requires opener.sign == Plus && opener.opensTarget && AreInTarget(body)
    requires last.sign != Plus || last.closesTarget
    ensures var name := LastName(if last.sign == Plus then body + [last] else body, "<unnamed>");
            var lines := [opener] + body + [last] + rest;
            && Targets(Outside(attrs), lines) == [name] + Targets(Outside(attrs), rest)
            && Additions(Outside(attrs), lines) == Additions(Outside(attrs), rest)
  {
    var lines := [opener] + body + [last] + rest;
    assert lines[0] == opener && lines[1..] == body + ([last] + rest);
    TargetGoesOn(attrs, "<unnamed>", body, [last] + rest);
    assert ([last] + rest)[0] == last && ([last] + rest)[1..] == rest;
    assert (body + [last])[..|body|] == body;
  }

  /** A new target still open at the end is reported too. */
  lemma TargetAtEnd(attrs: nat, opener: Line, body: seq<Line>)
    requires opener.sign == Plus && opener.opensTarget && AreInTarget(body)
    ensures Targets(Outside(attrs), [opener] + body) == [LastName(body, "<unnamed>")]
    ensures Additions(Outside(attrs), [opener] + body) == []
  {
    assert ([opener] + body)[1..] == body && body + [] == body;
    TargetGoesOn(attrs, "<unnamed>", body, []);
  }

  // ---- lists and attributes ------------------------------------------------------------------------------------

  /** One line outside new targets: an added attribute opens, or the innermost closes and hides what is inside; a label
      added to a list that was there counts, unless it is marked to be kept. */
  lemma OutsideLine(attrs: nat, line: Line, rest: seq<Line>)
    requires !(line.sign == Plus && line.opensTarget)
    ensures var now := if line.sign == Plus && line.opensAttr then attrs + 1
                       else if attrs > 0 && line.sign == Plus && line.closesAttr then attrs - 1 else attrs;
            var counts := attrs == 0 && line.sign == Plus && !line.opensAttr && !line.keep && line.edge.Some?;
            && Targets(Outside(attrs), [line] + rest) == Targets(Outside(now), rest)
            && Additions(Outside(attrs), [line] + rest) ==
               (if counts then [line.edge.value] else []) + Additions(Outside(now), rest)
  {
    assert ([line] + rest)[1..] == rest;
  }

  // ---- removals ------------------------------------------------------------------------------------------------

  function RemovedAt(lines: seq<Line>, edge: string): set<int> {
    set k | 0 <= k < |lines| && Removes(lines[k], edge)
  }

  predicate Removes(line: Line, edge: string) {
    line.sign == Minus && line.edge == Some(edge)
  }

  lemma RemovedNext(rest: seq<Line>, last: Line, edge: string)
    ensures |RemovedAt(rest + [last], edge)| == |RemovedAt(rest, edge)| + if Removes(last, edge) then 1 else 0
  {
    hide Removes;
    var n, before, now := |rest|, RemovedAt(rest, edge), RemovedAt(rest + [last], edge);
    assert forall k | 0 <= k < n :: (rest + [last])[k] == rest[k];
    assert n !in before;
    if Removes(last, edge) {
      assert now == before + {n};
    } else {
      assert now == before;
    }
  }

  /** A label is removed as often as a removed line holds it. */
  lemma {:induction false} RemovalsAre(lines: seq<Line>, edge: string)
    ensures Removals(lines)[edge] == |RemovedAt(lines, edge)|
  {
    if lines == [] {
    } else {
      var n := |lines| - 1;
      hide RemovedAt;
      RemovalsAre(lines[..n], edge);
      assert lines == lines[..n] + [lines[n]];
      RemovedNext(lines[..n], lines[n], edge);
    }
  }

  // ---- flavours ------------------------------------------------------------------------------------------------

  predicate HasFlavour(plain: string) {
    || plain == "mcp_re_host" || plain == "mcp_re_proxy" || plain == "mcp_re_transport"
    || plain == "mcp_re_http_profile" || plain == "mcp_re_client_core" || plain == "mcp_re_client_proxy"
  }

  lemma {:induction false} PlainIs(front: string, plain: string)
    requires (forall k | 0 <= k < |plain| :: plain[k] != ':') && (front == "" || front[|front| - 1] == ':')
    ensures Plain(front + plain) == plain
    decreases plain
  {
    if plain == "" {
      assert front + plain == front;
    } else {
      var n := |plain| - 1;
      assert (front + plain)[..|front + plain| - 1] == front + plain[..n];
      PlainIs(front, plain[..n]);
      assert plain == plain[..n] + [plain[n]];
    }
  }

  /** A label is flavoured exactly when what follows its last colon, or all of it without one, has a flavour. */
  lemma FlavouredIff(front: string, plain: string)
    requires (forall k | 0 <= k < |plain| :: plain[k] != ':') && (front == "" || front[|front| - 1] == ':')
    ensures IsFlavored(front + plain) <==> HasFlavour(plain)
  {
    hide Plain;
    PlainIs(front, plain);
  }
}
