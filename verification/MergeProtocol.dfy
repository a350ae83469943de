/** `merge_verified_pr`: the merge operation as a protocol.  Any number of clients run it against one pull
    request while the environment moves the head, closes and reopens the request and changes the check runs
    between any two of their steps. */
module MergeProtocol {
  import opened Wrappers
  import opened Readiness

  datatype PrState = Open | Closed | Merged

  /** What a commit itself carries into the gate: the units and edges of its manifest. */
  datatype Manifest = Manifest(units: seq<Unit>, edges: seq<Edge>)

  /** The commits, and the build inputs the gate knows of. */
  datatype Repo = Repo(manifest: string -> Manifest, inputs: set<string>)

  /** What the gate reads besides, and anyone may change: the files each commit changes against the base branch, the
      lane scripts, the ruleset, the workflow jobs, and the check runs reported. */
  datatype Scene = Scene(
    changed: string -> set<string>, scripts: map<string, string>, ruleset: set<string>, jobs: seq<Job>, raw: seq<Run>)

  /** What one run of the gate has read so far. */
  datatype Reads = Reads(
    changed: set<string>, scripts: map<string, string>, ruleset: set<string>, jobs: seq<Job>, raw: seq<Run>,
    umbrella: seq<Job>)

  const NOTHING := Reads({}, map[], {}, [], [], [])

  /** The gate reads one thing after another; the workflows it reads twice, the second time for the umbrella's jobs. */
  const ALL: nat := 5

  /** The gate's read number `k` about a commit. */
  function ReadOne(got: Reads, k: nat, sha: string, now: Scene): Reads {
    if k == 0 then got.(changed := now.changed(sha))
    else if k == 1 then got.(scripts := now.scripts, ruleset := now.ruleset)
    else if k == 2 then got.(jobs := now.jobs)
    else if k == 3 then got.(raw := now.raw)
    else got.(umbrella := now.jobs)
  }

  function EstateOf(repo: Repo, sha: string, got: Reads): Estate {
    var m := repo.manifest(sha);
    Estate(m.units, m.edges, repo.inputs, got.scripts, got.jobs, got.ruleset)
  }

  /** The gate's exit status about a commit, given what it read. */
  ghost function GateExit(repo: Repo, sha: string, got: Reads): nat {
    ExitUnder(EstateOf(repo, sha, got), got.changed, Latest(got.raw), sha, Shared(got.umbrella))
  }

  /** Where a client stands in `main`. */
  datatype Pc =
    | Start                      // nothing read yet
    | Asking(before: string, stage: nat, got: Reads)  // step 1 read this head, and the gate is reading
    | HaveReady(before: string)  // step 2: the gate answered ready about it
    | Confirmed(before: string)  // step 3 read the same head again
    | Done(exit: nat)

  /** A client, and the evidence its ready answer was given on. */
  datatype Client = Client(pc: Pc, dryRun: bool, evidence: Option<(string, Reads)>)

  datatype Landing = Landing(client: nat, sha: string)

  datatype World = World(
    head: string, pr: PrState, scene: Scene, clients: map<nat, Client>, landed: Option<Landing>)

  ghost predicate Init(w: World) {
    w.clients == map[] && w.landed == None && w.pr != Merged
  }

  /** The environment: a push, the request closed or reopened, a change in what the gate reads (check runs, the
      ruleset, the base branch, the workflows), a client started. */
  ghost predicate Environment(w: World, w': World) {
    || (exists head: string :: w' == w.(head := head))
    || (w.pr != Merged && exists pr: PrState :: pr != Merged && w' == w.(pr := pr))
    || (exists scene: Scene :: w' == w.(scene := scene))
    || (exists c: nat, dryRun: bool ::
        c !in w.clients && w' == w.(clients := w.clients[c := Client(Start, dryRun, None)]))
  }

  function Put(w: World, c: nat, client: Client): World {
    w.(clients := w.clients[c := client])
  }

  function Refuse(w: World, c: nat): World
    requires c in w.clients
  {
    Put(w, c, w.clients[c].(pc := Done(1)))
  }

  /** Step 1: the head as it is now, refused unless the request is open. */
  function ReadHead(w: World, c: nat): World
    requires c in w.clients
  {
    if w.pr != Open then Refuse(w, c) else Put(w, c, w.clients[c].(pc := Asking(w.head, 0, NOTHING)))
  }

  /** Step 2: readiness about that commit; one read of the gate, or its answer once it has read all. */
  ghost function AskGate(repo: Repo, w: World, c: nat): World
    requires c in w.clients && w.clients[c].pc.Asking?
  {
    var Asking(before, stage, got) := w.clients[c].pc;
    if stage < ALL then Put(w, c, w.clients[c].(pc := Asking(before, stage + 1, ReadOne(got, stage, before, w.scene))))
    else if GateExit(repo, before, got) != 0 then Refuse(w, c)
    else Put(w, c, w.clients[c].(pc := HaveReady(before), evidence := Some((before, got))))
  }

  /** Step 3: the head again; a move refuses, and a dry run ends here. */
  function ReadAgain(w: World, c: nat): World
    requires c in w.clients && w.clients[c].pc.HaveReady?
  {
    var before := w.clients[c].pc.before;
    if w.pr != Open || w.head != before then Refuse(w, c)
    else Put(w, c, w.clients[c].(pc := if w.clients[c].dryRun then Done(0) else Confirmed(before)))
  }

  /** Step 4: the merge call.  What lands is the head the server has when it handles the call; with
      `matchHead` the server refuses any other than the one the client names. */
  function Merge(w: World, c: nat, matchHead: bool): World
    requires c in w.clients && w.clients[c].pc.Confirmed?
  {
    if w.pr != Open || (matchHead && w.head != w.clients[c].pc.before) then Refuse(w, c)
    else Put(w, c, w.clients[c].(pc := Done(0))).(pr := Merged, landed := Some(Landing(c, w.head)))
  }

  /** A client takes its next step, or any call it makes fails and it refuses. */
  ghost predicate ClientStep(repo: Repo, w: World, w': World, c: nat, matchHead: bool) {
    c in w.clients &&
    match w.clients[c].pc
    case Start => w' == ReadHead(w, c) || w' == Refuse(w, c)
    case Asking(_, _, _) => w' == AskGate(repo, w, c) || w' == Refuse(w, c)
    case HaveReady(_) => w' == ReadAgain(w, c) || w' == Refuse(w, c)
    case Confirmed(_) => w' == Merge(w, c, matchHead) || w' == Refuse(w, c)
    case Done(_) => false
  }

  ghost predicate Next(repo: Repo, w: World, w': World, matchHead: bool) {
    Environment(w, w') || exists c: nat :: ClientStep(repo, w, w', c, matchHead)
  }

  ghost predicate IsRun(repo: Repo, run: seq<World>, matchHead: bool) {
    && run != [] && Init(run[0])
    && forall k | 0 <= k < |run| - 1 :: NextAt(repo, run, k, matchHead)
  }

  ghost predicate NextAt(repo: Repo, run: seq<World>, k: nat, matchHead: bool)
    requires k + 1 < |run|
  {
    Next(repo, run[k], run[k + 1], matchHead)
  }

  // ---- what every step keeps -------------------------------------------------------------------------

  /** What a client's position says about its evidence. */
  ghost predicate ClientOk(repo: Repo, client: Client) {
    && (client.evidence.Some? ==> GateExit(repo, client.evidence.value.0, client.evidence.value.1) == 0)
    && (client.pc.HaveReady? || client.pc.Confirmed? ==>
          client.evidence.Some? && client.evidence.value.0 == client.pc.before)
    && (client.pc.Start? || client.pc.Asking? ==> client.evidence.None?)
    && (client.pc.Asking? ==> client.pc.stage <= ALL)
    && (client.pc.Confirmed? ==> !client.dryRun)
    && (client.pc.Done? ==> client.pc.exit <= 1)
  }

  /** What landed is the commit its client was told is ready, and that client alone says it merged. */
  ghost predicate LandingOk(w: World) {
    && (w.landed.Some? <==> w.pr == Merged)
    && (w.landed.Some? ==>
          var c := w.landed.value.client;
          && c in w.clients && w.clients[c].pc == Done(0) && !w.clients[c].dryRun
          && w.clients[c].evidence.Some? && w.clients[c].evidence.value.0 == w.landed.value.sha)
    && forall c | c in w.clients :: w.clients[c].pc == Done(0) && !w.clients[c].dryRun ==>
         w.landed.Some? && w.landed.value.client == c
  }

  ghost predicate Inv(repo: Repo, w: World) {
    (forall c | c in w.clients :: ClientOk(repo, w.clients[c])) && LandingOk(w)
  }

  lemma EnvironmentKeeps(repo: Repo, w: World, w': World)
    requires Inv(repo, w) && Environment(w, w')
    ensures Inv(repo, w')
  {
    hide GateExit;
  }

  /** A client moves without landing anything and without reporting a merge. */
  lemma PutKeeps(repo: Repo, w: World, c: nat, client: Client)
    requires Inv(repo, w) && c in w.clients && !w.clients[c].pc.Done? && ClientOk(repo, client)
    requires client.pc == Done(0) ==> client.dryRun
    ensures Inv(repo, Put(w, c, client))
  {
    hide ClientOk;
  }

  lemma MergeKeeps(repo: Repo, w: World, c: nat)
    requires Inv(repo, w) && c in w.clients && w.clients[c].pc.Confirmed?
    ensures Inv(repo, Merge(w, c, true))
  {
    hide GateExit;
    assert ClientOk(repo, w.clients[c]);
    if Merge(w, c, true) == Refuse(w, c) {
      PutKeeps(repo, w, c, w.clients[c].(pc := Done(1)));
    }
  }

  /** Every step but a successful merge only moves its client. */
  lemma StepMovesClient(repo: Repo, w: World, w': World, c: nat)
    requires ClientStep(repo, w, w', c, true) && ClientOk(repo, w.clients[c])
    requires w.clients[c].pc.Confirmed? ==> w' == Refuse(w, c)
    ensures c in w'.clients && w' == Put(w, c, w'.clients[c]) && ClientOk(repo, w'.clients[c])
    ensures w'.clients[c].pc == Done(0) ==> w'.clients[c].dryRun
  {
    hide GateExit;
  }

  lemma ClientStepKeeps(repo: Repo, w: World, w': World, c: nat)
    requires Inv(repo, w) && ClientStep(repo, w, w', c, true)
    ensures Inv(repo, w')
  {
    assert ClientOk(repo, w.clients[c]);
    hide Inv, ClientOk, AskGate;
    if w.clients[c].pc.Confirmed? && w' == Merge(w, c, true) {
      MergeKeeps(repo, w, c);
    } else {
      StepMovesClient(repo, w, w', c);
      PutKeeps(repo, w, c, w'.clients[c]);
    }
  }

  lemma {:induction false} RunKeeps(repo: Repo, run: seq<World>, k: nat)
    requires IsRun(repo, run, true) && k < |run|
    ensures Inv(repo, run[k])
  {
    if k == 0 {
    } else {
      hide Inv, Environment, ClientStep;
      RunKeeps(repo, run, k - 1);
      assert NextAt(repo, run, k - 1, true);
      if Environment(run[k - 1], run[k]) {
        EnvironmentKeeps(repo, run[k - 1], run[k]);
      } else {
        var c: nat :| ClientStep(repo, run[k - 1], run[k], c, true);
        ClientStepKeeps(repo, run[k - 1], run[k], c);
      }
    }
  }

  /** In every interleaving, with the server's head match: a commit that lands is exactly the one the gate
      answered ready about to the client that landed it; everything the governing authority asked for, as the gate
      read it, had a check completed successfully at that very commit; and no client exits with anything but 0 or 1. */
  lemma OnlyMeasuredCommitsLand(repo: Repo, run: seq<World>, k: nat)
    requires IsRun(repo, run, true) && k < |run|
    ensures run[k].landed.Some? ==>
              var Landing(c, sha) := run[k].landed.value;
              && c in run[k].clients && run[k].clients[c].evidence.Some?
              && var (measured, got) := run[k].clients[c].evidence.value;
                 && measured == sha && GateExit(repo, sha, got) == 0
                 && var asked := Asked(EstateOf(repo, sha, got), got.changed);
                    && asked.Decided? && asked.value != map[]
                    && forall lane | lane in asked.value ::
                         exists name | name in asked.value[lane] :: SaysSuccess(got.raw, name, sha)
    ensures forall c | c in run[k].clients && run[k].clients[c].pc.Done? :: run[k].clients[c].pc.exit <= 1
  {
    RunKeeps(repo, run, k);
    hide Asked, ExitUnder, SaysSuccess, Latest;
    var w := run[k];
    assert forall c | c in w.clients :: ClientOk(repo, w.clients[c]);
    if w.landed.Some? {
      var Landing(c, sha) := w.landed.value;
      assert ClientOk(repo, w.clients[c]);
      var got := w.clients[c].evidence.value.1;
      ReadyIsNeverVacuous(EstateOf(repo, sha, got), got.changed, got.raw, sha, Shared(got.umbrella));
    }
  }

  /** A client that reports success merged: unless it was a dry run, it is the one whose commit landed. */
  lemma SuccessMeansLanded(repo: Repo, run: seq<World>, k: nat, c: nat)
    requires IsRun(repo, run, true) && k < |run| && c in run[k].clients
    ensures run[k].clients[c].pc == Done(0) && !run[k].clients[c].dryRun <==>
            run[k].landed.Some? && run[k].landed.value.client == c
  {
    RunKeeps(repo, run, k);
  }

  // ---- what the gate read was there to read --------------------------------------------------------------

  /** The commit a client asks about, or was answered about; what the gate has read for it; and how many reads. */
  function ReadsOf(client: Client): Option<(string, Reads, nat)> {
    if client.pc.Asking? then Some((client.pc.before, client.pc.got, client.pc.stage))
    else if client.evidence.Some? then Some((client.evidence.value.0, client.evidence.value.1, ALL))
    else None
  }

  /** The head was the commit and the request open in the first of these states, and each read was made in the next. */
  ghost predicate MadeAt(sha: string, got: Reads, run: seq<World>, moments: seq<nat>) {
    && moments != [] && (forall i | 0 <= i < |moments| :: moments[i] < |run|)
    && (forall i, j | 0 <= i < j < |moments| :: moments[i] < moments[j])
    && run[moments[0]].head == sha && run[moments[0]].pr == Open
    && (forall i | 0 < i < |moments| :: IsRead(got, i - 1, sha, run[moments[i]].scene))
  }

  /** The read says what the scene held. */
  predicate IsRead(got: Reads, k: nat, sha: string, now: Scene) {
    ReadOne(got, k, sha, now) == got
  }

  /** How a client's reads come about: it read the head, or the gate made the next read, or nothing new. */
  ghost predicate ReadsMove(w: World, before: Option<(string, Reads, nat)>, now: (string, Reads, nat)) {
    || before == Some(now)
    || (before.None? && w.pr == Open && now == (w.head, NOTHING, 0))
    || (before.Some? && before.value.2 < ALL
        && now == (before.value.0, ReadOne(before.value.1, before.value.2, before.value.0, w.scene),
            before.value.2 + 1))
  }

  lemma OwnStepMovesReads(repo: Repo, w: World, w': World, c: nat)
    requires ClientStep(repo, w, w', c, true) && ClientOk(repo, w.clients[c]) && c in w'.clients
    ensures ReadsOf(w'.clients[c]).Some? ==> ReadsMove(w, ReadsOf(w.clients[c]), ReadsOf(w'.clients[c]).value)
  {
    hide GateExit, ReadOne;
  }

  lemma OtherStepKeepsClient(repo: Repo, w: World, w': World, c: nat, d: nat)
    requires ClientStep(repo, w, w', d, true) && c != d && c in w'.clients
    ensures c in w.clients && w'.clients[c] == w.clients[c]
  {
    hide GateExit, ReadOne;
  }

  lemma EnvironmentKeepsClient(w: World, w': World, c: nat)
    requires Environment(w, w') && c in w'.clients && ReadsOf(w'.clients[c]).Some?
    ensures c in w.clients && w'.clients[c] == w.clients[c]
  {
  }

  lemma ReadsStep(repo: Repo, w: World, w': World, c: nat)
    requires Inv(repo, w) && Next(repo, w, w', true) && c in w'.clients && ReadsOf(w'.clients[c]).Some?
    ensures c in w.clients && ReadsMove(w, ReadsOf(w.clients[c]), ReadsOf(w'.clients[c]).value)
  {
    if Environment(w, w') {
      EnvironmentKeepsClient(w, w', c);
    } else {
      var d: nat :| ClientStep(repo, w, w', d, true);
      assert d in w.clients && ClientOk(repo, w.clients[d]);
      hide Environment, ClientStep, ClientOk, ReadsOf;
      if c == d { OwnStepMovesReads(repo, w, w', c); } else { OtherStepKeepsClient(repo, w, w', c, d); }
    }
  }

  lemma ReadKept(got: Reads, i: nat, k: nat, sha: string, earlier: Scene, now: Scene)
    requires i < k < ALL && IsRead(got, i, sha, earlier)
    ensures IsRead(ReadOne(got, k, sha, now), i, sha, earlier)
  {
  }

  lemma ReadMade(got: Reads, k: nat, sha: string, now: Scene)
    ensures IsRead(ReadOne(got, k, sha, now), k, sha, now)
  {
  }

  /** The evidence was there to read: the head was the commit at a moment the request was open, and then, one moment
      after another, each thing the gate read was what it read. */
  lemma {:induction false} EvidenceWasRead(repo: Repo, run: seq<World>, k: nat, c: nat) returns (moments: seq<nat>)
    requires IsRun(repo, run, true) && k < |run| && c in run[k].clients && ReadsOf(run[k].clients[c]).Some?
    ensures var (sha, got, n) := ReadsOf(run[k].clients[c]).value;
            |moments| == n + 1 && moments[n] < k && MadeAt(sha, got, run, moments)
    decreases k
  {
    var (sha, got, n) := ReadsOf(run[k].clients[c]).value;
    if k == 0 {
      assert false;
    } else {
      RunKeeps(repo, run, k - 1);
      assert NextAt(repo, run, k - 1, true);
      hide Inv, Next, ReadsOf, ReadOne, IsRead, IsRun, MadeAt;
      var w := run[k - 1];
      ReadsStep(repo, w, run[k], c);
      if ReadsOf(w.clients[c]) == Some((sha, got, n)) {
        moments := EvidenceWasRead(repo, run, k - 1, c);
      } else if ReadsOf(w.clients[c]).None? {
        moments := [k - 1];
        HeadWasRead(run, k - 1);
      } else {
        var (_, fewer, m) := ReadsOf(w.clients[c]).value;
        var earlier := EvidenceWasRead(repo, run, k - 1, c);
        moments := earlier + [k - 1];
        OneMoreRead(sha, fewer, m, run, earlier, k - 1);
      }
    }
  }

  lemma HeadWasRead(run: seq<World>, k: nat)
    requires k < |run| && run[k].pr == Open
    ensures MadeAt(run[k].head, NOTHING, run, [k])
  {
  }

  lemma OneMoreRead(sha: string, fewer: Reads, m: nat, run: seq<World>, earlier: seq<nat>, now: nat)
    requires m < ALL && |earlier| == m + 1 && MadeAt(sha, fewer, run, earlier) && earlier[m] < now < |run|
    ensures MadeAt(sha, ReadOne(fewer, m, sha, run[now].scene), run, earlier + [now])
  {
    hide ReadOne, IsRead;
    var got, moments := ReadOne(fewer, m, sha, run[now].scene), earlier + [now];
    forall i | 0 < i < |moments| ensures IsRead(got, i - 1, sha, run[moments[i]].scene) {
      if i < |earlier| {
        assert IsRead(fewer, i - 1, sha, run[earlier[i]].scene);
        ReadKept(fewer, i - 1, m, sha, run[earlier[i]].scene, run[now].scene);
      } else {
        ReadMade(fewer, m, sha, run[now].scene);
      }
    }
  }

  // ---- the second head read ------------------------------------------------------------------------------

  /** The client is past its second head read. */
  predicate IsPast(client: Client) {
    client.pc.Confirmed? || client.pc == Done(0)
  }

  lemma OwnStepRereads(repo: Repo, w: World, w': World, c: nat)
    requires ClientStep(repo, w, w', c, true) && ClientOk(repo, w.clients[c])
    requires c in w'.clients && IsPast(w'.clients[c])
    ensures w'.clients[c].evidence == w.clients[c].evidence
    ensures IsPast(w.clients[c]) ||
            (w.clients[c].evidence.Some? && w.pr == Open && w.head == w.clients[c].evidence.value.0)
  {
    hide GateExit, ReadOne;
  }

  lemma EnvironmentKeepsPast(w: World, w': World, c: nat)
    requires Environment(w, w') && c in w'.clients && IsPast(w'.clients[c])
    ensures c in w.clients && w'.clients[c] == w.clients[c]
  {
  }

  lemma RereadStep(repo: Repo, w: World, w': World, c: nat)
    requires Inv(repo, w) && Next(repo, w, w', true) && c in w'.clients && IsPast(w'.clients[c])
    ensures c in w.clients && w'.clients[c].evidence == w.clients[c].evidence
    ensures IsPast(w.clients[c]) ||
            (w.clients[c].evidence.Some? && w.pr == Open && w.head == w.clients[c].evidence.value.0)
  {
    if Environment(w, w') {
      EnvironmentKeepsPast(w, w', c);
    } else {
      var d: nat :| ClientStep(repo, w, w', d, true);
      assert d in w.clients && ClientOk(repo, w.clients[d]);
      hide Environment, ClientStep, ClientOk, IsPast;
      if c == d { OwnStepRereads(repo, w, w', c); } else { OtherStepKeepsClient(repo, w, w', c, d); }
    }
  }

  lemma EvidenceIsRead(client: Client)
    requires client.evidence.Some? && !client.pc.Asking?
    ensures ReadsOf(client) == Some((client.evidence.value.0, client.evidence.value.1, ALL))
  {
  }

  /** A client that goes on to merge, or reports success, dry run or not, saw its commit twice: after the last thing the
      gate read there is a moment at which the request was open and its head that very commit. */
  lemma {:induction false} SuccessWasReread(repo: Repo, run: seq<World>, k: nat, c: nat)
    returns (moments: seq<nat>, again: nat)
    requires IsRun(repo, run, true) && k < |run| && c in run[k].clients && IsPast(run[k].clients[c])
    ensures run[k].clients[c].evidence.Some?
    ensures var (sha, got) := run[k].clients[c].evidence.value;
            && |moments| == ALL + 1 && MadeAt(sha, got, run, moments)
            && moments[ALL] < again < k && run[again].pr == Open && run[again].head == sha
    decreases k
  {
    if k == 0 {
      assert false;
    } else {
      RunKeeps(repo, run, k - 1);
      assert NextAt(repo, run, k - 1, true);
      var w := run[k - 1];
      hide Inv, Next, ReadsOf, IsRun, MadeAt, ClientOk;
      RereadStep(repo, w, run[k], c);
      if IsPast(w.clients[c]) {
        moments, again := SuccessWasReread(repo, run, k - 1, c);
      } else {
        NotAsking(repo, w, c);
        EvidenceIsRead(w.clients[c]);
        moments := EvidenceWasRead(repo, run, k - 1, c);
        again := k - 1;
      }
    }
  }

  lemma NotAsking(repo: Repo, w: World, c: nat)
    requires Inv(repo, w) && c in w.clients && w.clients[c].evidence.Some?
    ensures !w.clients[c].pc.Asking?
  {
    assert ClientOk(repo, w.clients[c]);
  }

  // ---- the head match is what holds --------------------------------------------------------------------

  lemma Starts(w: World, c: nat, dryRun: bool)
    requires c !in w.clients
    ensures Environment(w, Put(w, c, Client(Start, dryRun, None)))
  {
  }

  lemma Pushes(w: World, head: string)
    ensures Environment(w, w.(head := head))
  {
  }

  /** All reads made of one scene. */
  function ReadAll(sha: string, now: Scene): Reads {
    Reads(now.changed(sha), now.scripts, now.ruleset, now.jobs, now.raw, now.jobs)
  }

  /** Client 0 asks about `sha`, and the gate has made `n` reads of the scene. */
  ghost predicate HasRead(w: World, sha: string, scene: Scene, n: nat, dryRun: bool) {
    && w.head == sha && w.pr == Open && w.scene == scene && 0 in w.clients
    && w.clients[0] == Client(Asking(sha, n, Partly(sha, scene, n)), dryRun, None)
  }

  function Partly(sha: string, now: Scene, n: nat): Reads {
    if n == 0 then NOTHING else ReadOne(Partly(sha, now, n - 1), n - 1, sha, now)
  }

  lemma PartlyIsAll(sha: string, now: Scene)
    ensures Partly(sha, now, ALL) == ReadAll(sha, now)
  {
    var one, two := Partly(sha, now, 1), Partly(sha, now, 2);
    assert two == ReadOne(one, 1, sha, now);
    var three, four := Partly(sha, now, 3), Partly(sha, now, 4);
    assert three == ReadOne(two, 2, sha, now) && four == ReadOne(three, 3, sha, now);
  }

  /** The gate makes all its reads of a scene nobody changes. */
  lemma {:induction false} ReadsOn(
    repo: Repo, run: seq<World>, sha: string, scene: Scene, n: nat, matchHead: bool, dryRun: bool
  ) returns (longer: seq<World>)
    requires IsRun(repo, run, matchHead) && n <= ALL && HasRead(run[|run| - 1], sha, scene, n, dryRun)
    ensures IsRun(repo, longer, matchHead) && HasRead(longer[|longer| - 1], sha, scene, ALL, dryRun)
    decreases ALL - n
  {
    if n == ALL {
      longer := run;
    } else {
      var w := run[|run| - 1];
      var w' := AskGate(repo, w, 0);
      assert ClientStep(repo, w, w', 0, matchHead);
      hide ClientStep, Environment;
      Longer(repo, run, w', matchHead);
      longer := ReadsOn(repo, run + [w'], sha, scene, n + 1, matchHead, dryRun);
    }
  }

  lemma Longer(repo: Repo, run: seq<World>, w: World, matchHead: bool)
    requires IsRun(repo, run, matchHead) && Next(repo, run[|run| - 1], w, matchHead)
    ensures IsRun(repo, run + [w], matchHead)
  {
    hide Next;
    var longer := run + [w];
    forall k | 0 <= k < |longer| - 1 ensures NextAt(repo, longer, k, matchHead) {
      if k < |run| - 1 { assert NextAt(repo, run, k, matchHead); }
    }
  }

  /** A client starts, reads the head and lets the gate read. */
  lemma AsksOn(repo: Repo, sha: string, scene: Scene, matchHead: bool, dryRun: bool) returns (run: seq<World>)
    ensures IsRun(repo, run, matchHead) && HasRead(run[|run| - 1], sha, scene, ALL, dryRun)
  {
    var w0 := World(sha, Open, scene, map[], None);
    var w1 := Put(w0, 0, Client(Start, dryRun, None));
    var w2 := ReadHead(w1, 0);
    Starts(w0, 0, dryRun);
    assert ClientStep(repo, w1, w2, 0, matchHead);
    var start := [w0];
    assert IsRun(repo, start, matchHead);
    Longer(repo, start, w1, matchHead);
    Longer(repo, start + [w1], w2, matchHead);
    run := ReadsOn(repo, start + [w1] + [w2], sha, scene, 0, matchHead, dryRun);
  }

  /** The gate answers ready, the head is read again, and the client goes to merge. */
  lemma Confirms(repo: Repo, asked: seq<World>, sha: string, scene: Scene, matchHead: bool, dryRun: bool)
    returns (run: seq<World>)
    requires GateExit(repo, sha, ReadAll(sha, scene)) == 0
    requires IsRun(repo, asked, matchHead) && HasRead(asked[|asked| - 1], sha, scene, ALL, dryRun)
    ensures IsRun(repo, run, matchHead)
    ensures var w := run[|run| - 1];
            && 0 in w.clients && w.clients[0].evidence == Some((sha, ReadAll(sha, scene)))
            && w.clients[0].pc == (if dryRun then Done(0) else Confirmed(sha)) && w.clients[0].dryRun == dryRun
            && w.pr == Open && w.head == sha
  {
    hide GateExit, Partly;
    PartlyIsAll(sha, scene);
    var w := asked[|asked| - 1];
    var w1 := AskGate(repo, w, 0);
    var w2 := ReadAgain(w1, 0);
    assert w2.clients[0].pc == if dryRun then Done(0) else Confirmed(sha);
    assert ClientStep(repo, w, w1, 0, matchHead) && ClientStep(repo, w1, w2, 0, matchHead);
    hide Environment, ClientStep, IsRun;
    Longer(repo, asked, w1, matchHead);
    Longer(repo, asked + [w1], w2, matchHead);
    run := asked + [w1] + [w2];
  }

  /** The match stands in nobody's way: whenever the gate answers ready about a commit, there is a run in which it
      lands. */
  lemma ReadyCommitCanLand(repo: Repo, ready: string, scene: Scene) returns (run: seq<World>)
    requires GateExit(repo, ready, ReadAll(ready, scene)) == 0
    ensures IsRun(repo, run, true) && run[|run| - 1].landed == Some(Landing(0, ready))
  {
    hide GateExit;
    var asked := AsksOn(repo, ready, scene, true, false);
    run := Confirms(repo, asked, ready, scene, true, false);
    var w := run[|run| - 1];
    var w' := Merge(w, 0, true);
    assert ClientStep(repo, w, w', 0, true);
    hide Environment, ClientStep, IsRun;
    Longer(repo, run, w', true);
    run := run + [w'];
  }

  /** And a dry run about it succeeds. */
  lemma DryRunCanSucceed(repo: Repo, ready: string, scene: Scene) returns (run: seq<World>)
    requires GateExit(repo, ready, ReadAll(ready, scene)) == 0
    ensures IsRun(repo, run, true) && 0 in run[|run| - 1].clients
    ensures run[|run| - 1].clients[0].dryRun && run[|run| - 1].clients[0].pc == Done(0)
  {
    hide GateExit;
    var asked := AsksOn(repo, ready, scene, true, true);
    run := Confirms(repo, asked, ready, scene, true, true);
  }

  /** Without the server's match the reads do not help: whenever the gate answers ready about one commit, there
      is a run in which both head reads agree on it and any other commit lands instead. */
  lemma WithoutMatchAnyCommitLands(repo: Repo, ready: string, other: string, scene: Scene) returns (run: seq<World>)
    requires GateExit(repo, ready, ReadAll(ready, scene)) == 0 && other != ready
    ensures IsRun(repo, run, false)
    ensures run[|run| - 1].landed == Some(Landing(0, other))
    ensures 0 in run[|run| - 1].clients
    ensures run[|run| - 1].clients[0].evidence == Some((ready, ReadAll(ready, scene)))
  {
    hide GateExit;
    var asked := AsksOn(repo, ready, scene, false, false);
    run := Confirms(repo, asked, ready, scene, false, false);
    var w := run[|run| - 1];
    var moved := w.(head := other);
    var w' := Merge(moved, 0, false);
    Pushes(w, other);
    assert ClientStep(repo, moved, w', 0, false);
    hide Environment, ClientStep, IsRun;
    Longer(repo, run, moved, false);
    Longer(repo, run + [moved], w', false);
    run := run + [moved] + [w'];
  }

  // ---- the client's own code ---------------------------------------------------------------------------------

  /** What the server reports at some moment, and what the gate would read then. */
  datatype Snapshot = Snapshot(head: string, pr: PrState, scene: Scene)

  /** What the environment has made of the pull request, and of what the gate reads, by each of the client's calls and
      each of the gate's reads. */
  datatype Moves = Moves(
    atRead: Snapshot, atDiff: Snapshot, atRules: Snapshot, atJobs: Snapshot, atRuns: Snapshot, atUmbrella: Snapshot,
    atReread: Snapshot, atMerge: Snapshot)

  /** What the gate then reads. */
  function GateReads(sha: string, m: Moves): Reads {
    Reads(m.atDiff.scene.changed(sha), m.atRules.scene.scripts, m.atRules.scene.ruleset, m.atJobs.scene.jobs,
          m.atRuns.scene.raw, m.atUmbrella.scene.jobs)
  }

  /** The pull request as the server holds it. */
  class Forge {
    var head: string
    var pr: PrState
    var scene: Scene
    var landed: Option<string>

    constructor (head: string, scene: Scene)
      ensures this.head == head && pr == Open && this.scene == scene && landed == None
    {
      this.head, this.pr, this.scene, this.landed := head, Open, scene, None;
    }

    /** Anything may happen between two calls, except that nobody else merges. */
    method Interfere(now: Snapshot)
      modifies this
      ensures Snapshot(head, pr, scene) == now && landed == old(landed)
    {
      head, pr, scene := now.head, now.pr, now.scene;
    }

    /** `head_of`: refused unless the request is open. */
    method HeadOf() returns (r: Option<string>)
      ensures r.Some? <==> pr == Open
      ensures r.Some? ==> r.value == head
    {
      return if pr == Open then Some(head) else None;
    }

    /** `merge`, with the head to match. */
    method Merge(sha: string) returns (ok: bool)
      modifies this
      ensures ok <==> old(pr) == Open && old(head) == sha
      ensures ok ==> landed == Some(sha) && pr == Merged && head == old(head) && scene == old(scene)
      ensures !ok ==> landed == old(landed) && pr == old(pr) && head == old(head) && scene == old(scene)
    {
      ok := pr == Open && head == sha;
      if ok { landed, pr := Some(sha), Merged; }
    }
  }

  /** The request is open at this head. */
  predicate OpenAt(now: Snapshot, sha: string) {
    now.pr == Open && now.head == sha
  }

  /** The client succeeds: open at both reads with one head, that commit ready, and still the head at the merge. */
  ghost predicate Succeeds(repo: Repo, m: Moves, dryRun: bool) {
    && m.atRead.pr == Open
    && GateExit(repo, m.atRead.head, GateReads(m.atRead.head, m)) == 0
    && OpenAt(m.atReread, m.atRead.head)
    && (dryRun || OpenAt(m.atMerge, m.atRead.head))
  }

  /** `main`: two reads, the gate between them, and the merge.  Whatever the environment does, the client
      exits with 0 exactly when it succeeds and with 1 otherwise, and a commit lands exactly when it succeeds
      without `dryRun`: the one it read first. */
  method MergeVerified(repo: Repo, forge: Forge, dryRun: bool, moves: Moves) returns (exit: nat)
    modifies forge
    ensures exit == if Succeeds(repo, moves, dryRun) then 0 else 1
    ensures forge.landed == if exit == 0 && !dryRun then Some(moves.atRead.head) else old(forge.landed)
  {
    hide ExitUnder;
    forge.Interfere(moves.atRead);
    var before := forge.HeadOf();
    if before.None? { return 1; }
    var sha := before.value;
    forge.Interfere(moves.atDiff);
    var changed := forge.scene.changed(sha);
    forge.Interfere(moves.atRules);
    var scripts, ruleset := forge.scene.scripts, forge.scene.ruleset;
    forge.Interfere(moves.atJobs);
    var jobs := forge.scene.jobs;
    forge.Interfere(moves.atRuns);
    var raw := forge.scene.raw;
    forge.Interfere(moves.atUmbrella);
    var umbrella := forge.scene.jobs;
    var manifest := repo.manifest(sha);
    var estate := Estate(manifest.units, manifest.edges, repo.inputs, scripts, jobs, ruleset);
    var code := Gate(estate, changed, raw, umbrella, sha);
    if code != 0 { return 1; }
    forge.Interfere(moves.atReread);
    var after := forge.HeadOf();
    if after != Some(sha) { return 1; }
    if dryRun { return 0; }
    forge.Interfere(moves.atMerge);
    var ok := forge.Merge(sha);
    return if ok then 0 else 1;
  }
}
