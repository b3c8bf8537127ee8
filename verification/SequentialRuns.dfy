/** Sequential consistency under every interleaving.

    Each client write is handled by its own thread at the coordinator (server 0): the thread
    applies the write, later snapshots the whole database, and then pushes the snapshot to servers
    1, 2, ... one at a time. Threads interleave between these steps; a push may arrive late, in any
    order or never, its acknowledgement may be lost, and replicas may restart empty. */
module SequentialRuns {
  import opened CTypes
  import opened Database
  import opened Board

  // `w` is the thread's own write and `mine` the version it produced. A refused write ends its thread at
  // once; a reply's thread gives up at the first server it cannot reach.
  datatype Thread =
    | Refused
    | Written(w: Write, mine: nat)
    | Pushing(w: Write, mine: nat, snapshot: Db, next: nat)
    | Waiting(w: Write, mine: nat, snapshot: Db, next: nat)
    | Finished(w: Write, mine: nat, snapshot: Db)
    | GaveUp(w: Write, mine: nat, snapshot: Db, next: nat)

  // `w` and `mine` are those of the thread that sent it.
  datatype Packet = Packet(thread: nat, target: nat, w: Write, mine: nat, db: Db)

  // `history` lists the writes the coordinator has stored, oldest first, and `acked` which threads' pushes
  // have been delivered where.
  datatype State = State(history: seq<Write>, servers: seq<Db>, threads: seq<Thread>,
                         net: set<Packet>, acked: set<(nat, nat)>)

  datatype Step =
    | Request(w: Write)               // a new thread applies a client's write
    | Snapshot(thread: nat)
    | Send(thread: nat)               // a push leaves for the thread's next target
    | Deliver(packet: Packet)         // the target restores it
    | Lose(packet: Packet)
    | Advance(thread: nat, ok: bool)  // the thread learns, or gives up on, the outcome
    | Finish(thread: nat)
    | Restart(server: nat)            // a replica comes back empty

  function Init(n: nat): State {
    State([], seq(n, _ => EMPTY), [], {}, {})
  }

  ghost predicate Enabled(s: State, step: Step) {
    match step
    case Request(_) => |s.servers| > 0
    case Snapshot(t) => t < |s.threads| && s.threads[t].Written? && |s.servers| > 0
    case Send(t) => t < |s.threads| && s.threads[t].Pushing? && s.threads[t].next < |s.servers|
    case Deliver(p) => p in s.net && 0 < p.target < |s.servers|
    case Lose(p) => p in s.net
    case Advance(t, ok) =>
      t < |s.threads| && s.threads[t].Waiting? && (ok ==> (t, s.threads[t].next) in s.acked)
    case Finish(t) => t < |s.threads| && s.threads[t].Pushing? && s.threads[t].next >= |s.servers|
    case Restart(i) => 0 < i < |s.servers|
  }

  function Do(s: State, step: Step): State
    requires Enabled(s, step)
  {
    match step
    case Request(w) =>
      var (after, outcome) := Apply(s.servers[0], w);
      if outcome.Stored? then
        s.(history := s.history + [w], servers := s.servers[0 := after],
           threads := s.threads + [Written(w, |s.history| + 1)])
      else s.(threads := s.threads + [Refused])
    case Snapshot(t) =>
      var th := s.threads[t];
      s.(threads := s.threads[t := Pushing(th.w, th.mine, s.servers[0], 1)])
    case Send(t) =>
      var th := s.threads[t];
      s.(threads := s.threads[t := Waiting(th.w, th.mine, th.snapshot, th.next)],
         net := s.net + {Packet(t, th.next, th.w, th.mine, th.snapshot)})
    case Deliver(p) =>
      s.(servers := s.servers[p.target := p.db], net := s.net - {p}, acked := s.acked + {(p.thread, p.target)})
    case Lose(p) => s.(net := s.net - {p})
    case Advance(t, ok) =>
      // a failed push ends a reply's thread; a post's thread goes on
      var th := s.threads[t];
      s.(threads := s.threads[t := if !ok && th.w.Reply? then GaveUp(th.w, th.mine, th.snapshot, th.next)
                                   else Pushing(th.w, th.mine, th.snapshot, th.next + 1)])
    case Finish(t) =>
      var th := s.threads[t];
      s.(threads := s.threads[t := Finished(th.w, th.mine, th.snapshot)])
    case Restart(i) => s.(servers := s.servers[i := EMPTY])
  }

  // A run of `n` servers: every state follows from the one before by some step.
  ghost predicate IsRun(n: nat, run: seq<State>) {
    && run != [] && run[0] == Init(n)
    && forall k :: 0 <= k < |run| - 1 ==> FollowsAt(run, k)
  }

  ghost predicate FollowsAt(run: seq<State>, k: nat)
    requires k + 1 < |run|
  {
    exists step :: Enabled(run[k], step) && run[k + 1] == Do(run[k], step)
  }

  lemma StepOf(n: nat, run: seq<State>, k: nat) returns (step: Step)
    requires IsRun(n, run) && k + 1 < |run|
    ensures Enabled(run[k], step) && run[k + 1] == Do(run[k], step)
  {
    assert FollowsAt(run, k);
    step :| Enabled(run[k], step) && run[k + 1] == Do(run[k], step);
  }

  // -- The invariant ------------------------------------------------------------------------------

  // `db` is what the first `db.version` writes of `history` produce.
  ghost predicate Replays(history: seq<Write>, db: Db) {
    0 <= db.version <= |history| && db == Run(EMPTY, history[..db.version])
  }

  // Write number `mine` is `w`.
  predicate WriteAt(history: seq<Write>, w: Write, mine: nat) {
    1 <= mine <= |history| && history[mine - 1] == w
  }

  ghost predicate ThreadOk(history: seq<Write>, th: Thread) {
    && (th.Written? ==> WriteAt(history, th.w, th.mine))
    && (HasSnapshot(th) ==> SnapshotOk(history, th.w, th.mine, th.snapshot))
    && (th.Pushing? || th.Waiting? ==> th.next >= 1)
  }

  predicate HasSnapshot(th: Thread) { !th.Refused? && !th.Written? }

  predicate Ended(th: Thread) { th.Refused? || th.Finished? || th.GaveUp? }

  ghost predicate SnapshotOk(history: seq<Write>, w: Write, mine: nat, db: Db) {
    Replays(history, db) && WriteAt(history, w, mine) && mine <= db.version
  }

  ghost predicate PacketOk(history: seq<Write>, n: nat, p: Packet) {
    SnapshotOk(history, p.w, p.mine, p.db) && 0 < p.target < n
  }

  ghost predicate Inv(s: State) {
    && (s.servers != [] ==> s.servers[0].version == |s.history|)
    && (forall i :: 0 <= i < |s.servers| ==> Replays(s.history, s.servers[i]))
    && (forall t :: 0 <= t < |s.threads| ==> ThreadOk(s.history, s.threads[t]))
    && (forall p :: p in s.net ==> PacketOk(s.history, |s.servers|, p))
  }

  lemma ReplaysLonger(history: seq<Write>, w: Write, db: Db)
    requires Replays(history, db)
    ensures Replays(history + [w], db)
  {
    assert (history + [w])[..db.version] == history[..db.version];
  }

  lemma ThreadOkLonger(history: seq<Write>, w: Write, th: Thread)
    requires ThreadOk(history, th)
    ensures ThreadOk(history + [w], th)
  {
    if HasSnapshot(th) {
      ReplaysLonger(history, w, th.snapshot);
    }
  }

  lemma CoordinatorReplays(history: seq<Write>, db: Db, w: Write)
    requires Replays(history, db) && db.version == |history| && Apply(db, w).1.Stored?
    ensures Replays(history + [w], Apply(db, w).0) && Apply(db, w).0.version == |history| + 1
  {
    var longer := history + [w];
    assert history[..|history|] == history == longer[..|longer| - 1];
    assert longer[..|longer|] == longer;
    RunSound(history);
    WriteOutcome(db, w);
  }

  lemma RequestKeeps(s: State, w: Write)
    requires Inv(s) && |s.servers| > 0
    ensures Inv(Do(s, Request(w)))
  {
    if Apply(s.servers[0], w).1.Stored? {
      var longer := s.history + [w];
      CoordinatorReplays(s.history, s.servers[0], w);
      forall i | 0 <= i < |s.servers| ensures Replays(longer, s.servers[i]) {
        ReplaysLonger(s.history, w, s.servers[i]);
      }
      forall t | 0 <= t < |s.threads| ensures ThreadOk(longer, s.threads[t]) {
        ThreadOkLonger(s.history, w, s.threads[t]);
      }
      forall p | p in s.net ensures PacketOk(longer, |s.servers|, p) {
        ReplaysLonger(s.history, w, p.db);
      }
    }
  }

  lemma StepKeeps(s: State, step: Step)
    requires Inv(s) && Enabled(s, step)
    ensures Inv(Do(s, step))
  {
    match step
    case Request(w) => RequestKeeps(s, w);
    case Snapshot(t) => assert ThreadOk(s.history, s.threads[t]);
    case Send(t) => assert ThreadOk(s.history, s.threads[t]);
    case Advance(t, _) => assert ThreadOk(s.history, s.threads[t]);
    case Finish(t) => assert ThreadOk(s.history, s.threads[t]);
    case Restart(_) => assert s.history[..0] == [];
    case _ =>
  }

  /** Every run: each server, snapshot and push in flight is the replay of a prefix of the
      coordinator's stored writes, its version is that prefix's length, and a thread's snapshot
      contains the thread's own write. */
  lemma {:induction false} RunKeeps(n: nat, run: seq<State>, k: nat)
    requires IsRun(n, run) && k < |run|
    ensures Inv(run[k]) && |run[k].servers| == n
  {
    if k == 0 {
      assert run[0].history[..0] == [];
    } else {
      RunKeeps(n, run, k - 1);
      var step := StepOf(n, run, k - 1);
      StepKeeps(run[k - 1], step);
    }
  }

  // -- What clients see ---------------------------------------------------------------------------

  lemma ReplaysSound(history: seq<Write>, db: Db)
    requires Replays(history, db)
    ensures Sound(db)
  {
    RunSound(history[..db.version]);
  }

  lemma OlderIsSubsequence(history: seq<Write>, a: Db, b: Db)
    requires Replays(history, a) && Replays(history, b) && a.version <= b.version
    ensures WellLinked(a.nodes) && WellLinked(b.nodes) && Subsequence(Listed(a.nodes), Listed(b.nodes))
  {
    assert history[..b.version][..a.version] == history[..a.version];
    EarlierRead(history[..b.version], a.version);
  }

  lemma {:induction false} HistoryGrows(n: nat, run: seq<State>, k: nat, l: nat)
    requires IsRun(n, run) && k <= l < |run|
    ensures run[k].history <= run[l].history
    decreases l - k
  {
    if k < l {
      HistoryGrows(n, run, k, l - 1);
      var step := StepOf(n, run, l - 1);
    }
  }

  /** Of any two reads in a run, at whatever servers and whatever times, one is the other with some
      articles left out, and databases at the same version are the same. */
  lemma ReadsAgree(n: nat, run: seq<State>, k: nat, l: nat, i: nat, j: nat)
    requires IsRun(n, run) && k <= l < |run| && i < n && j < n
    ensures |run[k].servers| == |run[l].servers| == n
    ensures var a, b := run[k].servers[i], run[l].servers[j];
            && WellLinked(a.nodes) && WellLinked(b.nodes)
            && (Subsequence(Listed(a.nodes), Listed(b.nodes)) || Subsequence(Listed(b.nodes), Listed(a.nodes)))
            && (a.version == b.version ==> a == b)
  {
    RunKeeps(n, run, k);
    RunKeeps(n, run, l);
    HistoryGrows(n, run, k, l);
    var a, b := run[k].servers[i], run[l].servers[j];
    assert run[l].history[..a.version] == run[k].history[..a.version];
    if a.version <= b.version {
      OlderIsSubsequence(run[l].history, a, b);
    } else {
      OlderIsSubsequence(run[l].history, b, a);
    }
  }

  /** What the coordinator once showed it keeps showing, in the same order: a write answered with
      success is never lost there, and what any server shows at any time is part of it. */
  lemma CoordinatorLeads(n: nat, run: seq<State>, k: nat, l: nat, i: nat)
    requires IsRun(n, run) && k <= l < |run| && i < n
    ensures |run[k].servers| == |run[l].servers| == n
    ensures var a, b := run[k].servers[i], run[l].servers[0];
            && WellLinked(a.nodes) && WellLinked(b.nodes)
            && Subsequence(Listed(a.nodes), Listed(b.nodes))
  {
    RunKeeps(n, run, k);
    RunKeeps(n, run, l);
    HistoryGrows(n, run, k, l);
    var a := run[k].servers[i];
    assert run[l].history[..a.version] == run[k].history[..a.version];
    OlderIsSubsequence(run[l].history, a, run[l].servers[0]);
  }

  // Write number `m` was stored by the coordinator as this article.
  ghost predicate StoredAs(history: seq<Write>, m: nat, article: Article) {
    && 1 <= m <= |history|
    && var (after, outcome) := Apply(Run(EMPTY, history[..m - 1]), history[m - 1]);
       outcome == Stored(m - 1) && m == |after.nodes| && after.nodes[m - 1].article == article
  }

  lemma WriteIsStored(history: seq<Write>, db: Db, m: nat)
    requires Replays(history, db) && 1 <= m <= db.version
    ensures m <= |db.nodes| && StoredAs(history, m, db.nodes[m - 1].article)
  {
    var ws := history[..db.version];
    assert ws[..m] == history[..m] && ws[..m - 1] == history[..m - 1];
    RunSound(ws);
    StoredUpTo(ws, m);
    RunExtends(ws, m);
  }

  // In a run that stored every write, write number `m` became article m - 1.
  lemma StoredUpTo(ws: seq<Write>, m: nat)
    requires 1 <= m <= |ws| && Run(EMPTY, ws).version == |ws|
    ensures var nodes := Run(EMPTY, ws[..m]).nodes; |nodes| == m && StoredAs(ws, m, nodes[m - 1].article)
  {
    VersionsCount(ws, m);
    VersionsCount(ws, m - 1);
    assert ws[..m][..m - 1] == ws[..m - 1];
    RunSound(ws[..m - 1]);
    StoredNext(Run(EMPTY, ws[..m - 1]), ws[m - 1]);
  }

  // A write that raises the version is stored behind the articles it finds.
  lemma StoredNext(db: Db, w: Write)
    requires Sound(db) && Apply(db, w).0.version > db.version
    ensures Apply(db, w).1 == Stored(|db.nodes|) && |Apply(db, w).0.nodes| == |db.nodes| + 1
  {
    WriteOutcome(db, w);
  }

  lemma {:induction false} VersionsCount(ws: seq<Write>, m: nat)
    requires m <= |ws| && Run(EMPTY, ws).version == |ws|
    ensures Run(EMPTY, ws[..m]).version == m
    decreases |ws|
  {
    if m == |ws| {
      assert ws[..m] == ws;
    } else {
      var earlier := ws[..|ws| - 1];
      RunSound(earlier);
      VersionAtMost(earlier);
      WriteOutcome(Run(EMPTY, earlier), ws[|ws| - 1]);
      VersionsCount(earlier, m);
      assert earlier[..m] == ws[..m];
    }
  }

  lemma {:induction false} VersionAtMost(ws: seq<Write>)
    ensures Run(EMPTY, ws).version <= |ws|
  {
    if ws != [] {
      var earlier := ws[..|ws| - 1];
      RunSound(earlier);
      VersionAtMost(earlier);
      WriteOutcome(Run(EMPTY, earlier), ws[|ws| - 1]);
    }
  }

  /** Whenever a push is delivered, however late and whatever has become of its thread, it shows the
      article that the thread's write was stored as, and leaves the replica equal to the coordinator
      exactly when nothing was stored since its snapshot. */
  lemma DeliveryShowsWrite(n: nat, run: seq<State>, k: nat, p: Packet)
    requires IsRun(n, run) && k < |run| && p in run[k].net
    ensures |run[k].servers| == n && Enabled(run[k], Deliver(p))
    ensures WriteAt(run[k].history, p.w, p.mine)
    ensures var after := Do(run[k], Deliver(p)).servers;
            && p.mine <= |after[p.target].nodes|
            && StoredAs(run[k].history, p.mine, after[p.target].nodes[p.mine - 1].article)
            && (after[p.target] == after[0] <==> p.db.version == |run[k].history|)
  {
    RunKeeps(n, run, k);
    assert PacketOk(run[k].history, n, p);
    WriteIsStored(run[k].history, p.db, p.mine);
  }

  // -- Versions may go backwards ------------------------------------------------------------------

  ghost predicate GoesBack(s: State, t: State) {
    |s.servers| == |t.servers| && exists i :: 0 <= i < |s.servers| && t.servers[i].version < s.servers[i].version
  }

  // No thread is at work and no push is in flight.
  ghost predicate Quiet(s: State) {
    s.net == {} && forall t :: 0 <= t < |s.threads| ==> Ended(s.threads[t])
  }

  // Writes come one at a time: each request finds the group quiet.
  ghost predicate OneAtATime(run: seq<State>) {
    forall k :: 0 <= k < |run| - 1 && run[k].history != run[k + 1].history ==> Quiet(run[k])
  }

  // Every snapshot at work is the coordinator's present database.
  ghost predicate Fresh(s: State) {
    && (forall t :: 0 <= t < |s.threads| && (s.threads[t].Pushing? || s.threads[t].Waiting?) ==>
          s.threads[t].snapshot.version == |s.history|)
    && (forall p :: p in s.net ==> p.db.version == |s.history|)
  }

  lemma FreshStep(s: State, step: Step)
    requires Inv(s) && Fresh(s) && Enabled(s, step)
    requires s.history != Do(s, step).history ==> Quiet(s)
    ensures Fresh(Do(s, step))
    ensures GoesBack(s, Do(s, step)) ==> step.Restart?
  {
    if step.Request? && Apply(s.servers[0], step.w).1.Stored? {
      assert |s.history| != |Do(s, step).history|;
      WriteRaises(s, step.w);
    }
  }

  lemma WriteRaises(s: State, w: Write)
    requires Inv(s) && |s.servers| > 0 && Apply(s.servers[0], w).1.Stored?
    ensures Apply(s.servers[0], w).0.version == s.servers[0].version + 1
  {
    ReplaysSound(s.history, s.servers[0]);
    WriteOutcome(s.servers[0], w);
  }

  lemma {:induction false} FreshRun(n: nat, run: seq<State>, k: nat)
    requires IsRun(n, run) && OneAtATime(run) && k < |run|
    ensures Fresh(run[k])
  {
    if k > 0 {
      FreshRun(n, run, k - 1);
      RunKeeps(n, run, k - 1);
      var step := StepOf(n, run, k - 1);
      FreshStep(run[k - 1], step);
    }
  }

  /** When writes come one at a time, only a restart lowers a server's version. */
  lemma OneAtATimeNeverBack(n: nat, run: seq<State>, k: nat, step: Step)
    requires IsRun(n, run) && OneAtATime(run) && k < |run| - 1
    requires Enabled(run[k], step) && run[k + 1] == Do(run[k], step)
    ensures GoesBack(run[k], run[k + 1]) ==> step.Restart?
  {
    RunKeeps(n, run, k);
    FreshRun(n, run, k);
    FreshStep(run[k], step);
  }

  /** Exactly when a step lowers a server's version: it restores a push older than what the server
      holds, or restarts a server that holds something. */
  lemma GoesBackExactly(n: nat, run: seq<State>, k: nat, step: Step)
    requires IsRun(n, run) && k < |run| && Enabled(run[k], step)
    ensures var s := run[k];
            GoesBack(s, Do(s, step))
            <==> match step
                 case Deliver(p) => p.db.version < s.servers[p.target].version
                 case Restart(i) => s.servers[i] != EMPTY
                 case _ => false
  {
    RunKeeps(n, run, k);
    var s := run[k];
    match step
    case Request(w) =>
      if Apply(s.servers[0], w).1.Stored? {
        WriteRaises(s, w);
      }
    case Deliver(p) => assert Do(s, step).servers[p.target] == p.db;
    case Restart(i) => {
      ReplaysSound(s.history, s.servers[i]);
      assert Do(s, step).servers[i] == EMPTY;
    }
    case _ =>
  }

  lemma OneMoreStep(n: nat, run: seq<State>, step: Step)
    requires IsRun(n, run) && Enabled(run[|run| - 1], step)
    ensures IsRun(n, run + [Do(run[|run| - 1], step)])
  {
    var s := run[|run| - 1];
    var longer := run + [Do(s, step)];
    forall k | 0 <= k < |longer| - 1 ensures FollowsAt(longer, k) {
      if k < |run| - 1 {
        var earlier := StepOf(n, run, k);
        assert Enabled(longer[k], earlier);
      } else {
        assert Enabled(longer[k], step);
      }
    }
  }

  // From a state where server 1 is empty: the coordinator stores `w` and a push of it leaves.
  lemma PostAndSend(run: seq<State>, w: Write) returns (more: seq<State>)
    requires IsRun(2, run) && |run[|run| - 1].servers| == 2 && run[|run| - 1].servers[1] == EMPTY
    requires w.Post? && run[|run| - 1].servers[0].version < 2
    ensures IsRun(2, more) && |more| > |run|
    ensures var s, t := run[|run| - 1], more[|more| - 1];
            && t.servers == [Apply(s.servers[0], w).0, EMPTY]
            && t.servers[0].version == s.servers[0].version + 1
            && t.net == s.net + {Packet(|s.threads|, 1, w, |s.history| + 1, t.servers[0])}
            && |t.history| == |s.history| + 1
            && |t.threads| == |s.threads| + 1
  {
    RunKeeps(2, run, |run| - 1);
    var s := run[|run| - 1];
    ReplaysSound(s.history, s.servers[0]);
    WriteOutcome(s.servers[0], w);
    var s1 := Do(s, Request(w));
    OneMoreStep(2, run, Request(w));
    var t := |s.threads|;
    var s2 := Do(s1, Snapshot(t));
    OneMoreStep(2, run + [s1], Snapshot(t));
    OneMoreStep(2, run + [s1] + [s2], Send(t));
    more := run + [s1] + [s2] + [Do(s2, Send(t))];
  }

  /** It can happen: two posts, each pushed to server 1, the newer push delivered first. */
  lemma CrossedPushesGoBack() returns (run: seq<State>)
    ensures IsRun(2, run) && |run| >= 2 && GoesBack(run[|run| - 2], run[|run| - 1])
  {
    var w := Post([], [], []);
    var first := PostAndSend([Init(2)], w);
    var older := first[|first| - 1].servers[0];
    var second := PostAndSend(first, w);
    var s := second[|second| - 1];
    var newer := s.servers[0];
    OneMoreStep(2, second, Deliver(Packet(1, 1, w, 2, newer)));
    var s1 := Do(s, Deliver(Packet(1, 1, w, 2, newer)));
    OneMoreStep(2, second + [s1], Deliver(Packet(0, 1, w, 1, older)));
    var s2 := Do(s1, Deliver(Packet(0, 1, w, 1, older)));
    run := second + [s1] + [s2];
    assert s2.servers[1].version < s1.servers[1].version;
  }
}
