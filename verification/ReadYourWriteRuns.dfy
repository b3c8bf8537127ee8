/** READ-YOUR-WRITE with several writes in flight.

    Each write has its own thread at the coordinator (server 0): it applies the write, later snapshots
    the database, pushes the snapshot to one target after another, and answers with success only when
    every push was acknowledged. A reply goes to servers 1 to n-1, a post to servers 0 to n-2, so a
    post's push also overwrites the coordinator itself. Threads interleave between all these steps. */
module ReadYourWriteRuns {
  import opened Board
  import opened CTypes
  import opened Database

  // `article` is what the thread's write `w` was stored as. A refused write ends its thread at once; a
  // thread gives up at the first server it cannot reach. Either answers with a failure.
  datatype Thread =
    | Refused
    | Written(w: Write, article: Article)
    | Pushing(w: Write, article: Article, snapshot: Db, next: nat)
    | Waiting(w: Write, article: Article, snapshot: Db, next: nat)
    | Succeeded(w: Write, article: Article, snapshot: Db)
    | GaveUp(w: Write, article: Article, snapshot: Db, next: nat)

  datatype Packet = Packet(thread: nat, target: nat, w: Write, db: Db)

  // `acked` lists which threads' pushes have been delivered where.
  datatype State = State(servers: seq<Db>, threads: seq<Thread>, net: set<Packet>, acked: set<(nat, nat)>)

  datatype Step =
    | Request(w: Write)
    | Snapshot(thread: nat)
    | Send(thread: nat)
    | Deliver(packet: Packet)
    | Lose(packet: Packet)
    | Advance(thread: nat, ok: bool)
    | Finish(thread: nat)
    | Restart(server: nat)

  function FirstTarget(w: Write): nat { if w.Reply? then 1 else 0 }

  function EndTarget(w: Write, n: nat): int { if w.Reply? then n else n - 1 }

  function Init(n: nat): State {
    State(seq(n, _ => EMPTY), [], {}, {})
  }

  predicate Enabled(s: State, step: Step) {
    match step
    case Request(_) => |s.servers| > 0
    case Snapshot(t) => t < |s.threads| && s.threads[t].Written? && |s.servers| > 0
    case Send(t) =>
      t < |s.threads| && s.threads[t].Pushing? && s.threads[t].next < EndTarget(s.threads[t].w, |s.servers|)
    case Deliver(p) => p in s.net && p.target < |s.servers|
    case Lose(p) => p in s.net
    case Advance(t, ok) =>
      t < |s.threads| && s.threads[t].Waiting? && (ok ==> (t, s.threads[t].next) in s.acked)
    case Finish(t) =>
      t < |s.threads| && s.threads[t].Pushing? && s.threads[t].next >= EndTarget(s.threads[t].w, |s.servers|)
    case Restart(i) => 0 < i < |s.servers|
  }

  function Do(s: State, step: Step): State
    requires Enabled(s, step)
  {
    match step
    case Request(w) =>
      var (after, outcome) := Apply(s.servers[0], w);
      if outcome.Stored? then
        s.(servers := s.servers[0 := after], threads := s.threads + [Written(w, StoredArticle(s.servers[0], w))])
      else s.(threads := s.threads + [Refused])
    case Snapshot(t) =>
      var th := s.threads[t];
      s.(threads := s.threads[t := Pushing(th.w, th.article, s.servers[0], FirstTarget(th.w))])
    case Send(t) =>
      var th := s.threads[t];
      s.(threads := s.threads[t := Waiting(th.w, th.article, th.snapshot, th.next)],
         net := s.net + {Packet(t, th.next, th.w, th.snapshot)})
    case Deliver(p) =>
      s.(servers := s.servers[p.target := p.db], net := s.net - {p}, acked := s.acked + {(p.thread, p.target)})
    case Lose(p) => s.(net := s.net - {p})
    case Advance(t, ok) =>
      // the first failed push ends the thread with a failure
      var th := s.threads[t];
      s.(threads := s.threads[t := if ok then Pushing(th.w, th.article, th.snapshot, th.next + 1)
                                   else GaveUp(th.w, th.article, th.snapshot, th.next)])
    case Finish(t) =>
      var th := s.threads[t];
      s.(threads := s.threads[t := Succeeded(th.w, th.article, th.snapshot)])
    case Restart(i) => s.(servers := s.servers[i := EMPTY])
  }

  function StoredArticle(db: Db, w: Write): Article
    requires Apply(db, w).1.Stored?
  {
    Apply(db, w).0.nodes[|db.nodes|].article
  }

  // A run of `n` servers.
  ghost predicate IsRun(n: nat, run: seq<State>) {
    && n > 0 && run != [] && run[0] == Init(n)
    && forall k :: 0 <= k < |run| - 1 ==> FollowsAt(run, k)
  }

  ghost predicate FollowsAt(run: seq<State>, k: nat)
    requires k + 1 < |run|
  {
    exists step :: Enabled(run[k], step) && run[k + 1] == Do(run[k], step)
  }

  lemma StepOf(n: nat, run: seq<State>, k: nat) returns (step: Step)
    requires IsRun(n, run) && k + 1 < |run|
    ensures Enabled(run[k], step) && run[k + 1] == Do(run[k], step)
  {
    assert FollowsAt(run, k);
    step :| Enabled(run[k], step) && run[k + 1] == Do(run[k], step);
  }

  // -- Every database is a past state of the coordinator ------------------------------------------

  predicate HasSnapshot(th: Thread) { !th.Refused? && !th.Written? }

  predicate Ended(th: Thread) { th.Refused? || th.Succeeded? || th.GaveUp? }

  ghost predicate Inv(s: State, n: nat) {
    && |s.servers| == n > 0
    && (forall i :: 0 <= i < n ==> Sound(s.servers[i]))
    && (forall t :: 0 <= t < |s.threads| ==> ThreadOk(s, n, t))
    && (forall p :: p in s.net ==> PacketOk(s, n, p))
    && (forall a :: a in s.acked ==> AckOk(s, a))
  }

  predicate AckOk(s: State, a: (nat, nat)) { a.0 < |s.threads| && !s.threads[a.0].Written? }

  ghost predicate ThreadOk(s: State, n: nat, t: nat)
    requires t < |s.threads|
  {
    var th := s.threads[t];
    && (HasSnapshot(th) ==> Sound(th.snapshot))
    && (th.Pushing? || th.Waiting? || th.GaveUp? ==>
          FirstTarget(th.w) <= th.next && AckedUpTo(s, t, FirstTarget(th.w), th.next))
    && (th.Succeeded? ==> AckedUpTo(s, t, FirstTarget(th.w), EndTarget(th.w, n)))
    && (th.Waiting? || th.GaveUp? ==> th.next < EndTarget(th.w, n))
  }

  predicate AckedUpTo(s: State, t: nat, from: nat, end: int) {
    forall j: nat :: from <= j < end ==> (t, j) in s.acked
  }

  ghost predicate PacketOk(s: State, n: nat, p: Packet) {
    && Sound(p.db) && FirstTarget(p.w) <= p.target < EndTarget(p.w, n)
    && p.thread < |s.threads| && !s.threads[p.thread].Written?
    && (HasSnapshot(s.threads[p.thread]) ==> s.threads[p.thread].snapshot == p.db)
  }

  // The conditions on one thread survive a step that leaves the thread alone.
  lemma ThreadKept(s: State, after: State, n: nat, t: nat)
    requires t < |s.threads| && t < |after.threads| && ThreadOk(s, n, t)
    requires after.threads[t] == s.threads[t] && s.acked <= after.acked
    ensures ThreadOk(after, n, t)
  {
  }

  // So do those on a push, unless its thread takes a new snapshot.
  lemma PacketKept(s: State, after: State, n: nat, p: Packet)
    requires PacketOk(s, n, p) && |s.threads| <= |after.threads| && !after.threads[p.thread].Written?
    requires var was, now := s.threads[p.thread], after.threads[p.thread];
             HasSnapshot(now) ==> HasSnapshot(was) && now.snapshot == was.snapshot
    ensures PacketOk(after, n, p)
  {
  }

  // A new thread starts.
  lemma AddThread(s: State, after: State, n: nat, th: Thread)
    requires Inv(s, n) && |after.servers| == n && forall i :: 0 <= i < n ==> Sound(after.servers[i])
    requires after == s.(servers := after.servers, threads := s.threads + [th]) && (th.Written? || th.Refused?)
    ensures Inv(after, n)
  {
    forall t | 0 <= t < |s.threads| ensures ThreadOk(after, n, t) {
      ThreadKept(s, after, n, t);
    }
    forall p | p in s.net ensures PacketOk(after, n, p) {
      assert PacketOk(s, n, p);
      PacketKept(s, after, n, p);
    }
    forall a | a in s.acked ensures AckOk(after, a) {
      assert AckOk(s, a);
    }
  }

  lemma RequestKeeps(s: State, n: nat, w: Write)
    requires Inv(s, n)
    ensures Inv(Do(s, Request(w)), n)
  {
    var after := Do(s, Request(w));
    ApplyKeeps(s.servers[0], w);
    AddThread(s, after, n, after.threads[|s.threads|]);
  }

  // Thread `t` goes on as `th`.
  lemma ReplaceThread(s: State, after: State, n: nat, t: nat, th: Thread)
    requires Inv(s, n) && t < |s.threads| && after == s.(threads := s.threads[t := th])
    requires !th.Written? && ThreadOk(after, n, t)
    requires forall p :: p in s.net && p.thread == t && HasSnapshot(th) ==> p.db == th.snapshot
    ensures Inv(after, n)
  {
    forall u | 0 <= u < |s.threads| ensures ThreadOk(after, n, u) {
      if u != t {
        ThreadKept(s, after, n, u);
      }
    }
    forall p | p in s.net ensures PacketOk(after, n, p) {
      assert PacketOk(s, n, p);
    }
    forall a | a in s.acked ensures AckOk(after, a) {
      assert AckOk(s, a);
    }
  }

  lemma SnapshotKeeps(s: State, n: nat, t: nat)
    requires Inv(s, n) && Enabled(s, Snapshot(t))
    ensures Inv(Do(s, Snapshot(t)), n)
  {
    var after := Do(s, Snapshot(t));
    forall p | p in s.net ensures p.thread != t {
      assert PacketOk(s, n, p);
    }
    ReplaceThread(s, after, n, t, after.threads[t]);
  }

  lemma AdvanceKeeps(s: State, n: nat, t: nat, ok: bool)
    requires Inv(s, n) && Enabled(s, Advance(t, ok))
    ensures Inv(Do(s, Advance(t, ok)), n)
  {
    var after := Do(s, Advance(t, ok));
    assert ThreadOk(s, n, t);
    forall p | p in s.net && p.thread == t ensures p.db == s.threads[t].snapshot {
      assert PacketOk(s, n, p);
    }
    ReplaceThread(s, after, n, t, after.threads[t]);
  }

  lemma FinishKeeps(s: State, n: nat, t: nat)
    requires Inv(s, n) && Enabled(s, Finish(t))
    ensures Inv(Do(s, Finish(t)), n)
  {
    var after := Do(s, Finish(t));
    assert ThreadOk(s, n, t);
    forall p | p in s.net && p.thread == t ensures p.db == s.threads[t].snapshot {
      assert PacketOk(s, n, p);
    }
    ReplaceThread(s, after, n, t, after.threads[t]);
  }

  lemma SendKeeps(s: State, n: nat, t: nat)
    requires Inv(s, n) && Enabled(s, Send(t))
    ensures Inv(Do(s, Send(t)), n)
  {
    var after := Do(s, Send(t));
    var half := s.(threads := after.threads);
    assert ThreadOk(s, n, t);
    forall p | p in s.net && p.thread == t ensures p.db == s.threads[t].snapshot {
      assert PacketOk(s, n, p);
    }
    ReplaceThread(s, half, n, t, after.threads[t]);
    forall u | 0 <= u < |s.threads| ensures ThreadOk(after, n, u) {
      ThreadKept(half, after, n, u);
    }
    forall p | p in s.net ensures PacketOk(after, n, p) {
      assert PacketOk(half, n, p);
    }
    forall a | a in s.acked ensures AckOk(after, a) {
      assert AckOk(half, a);
    }
  }

  lemma DeliverKeeps(s: State, n: nat, q: Packet)
    requires Inv(s, n) && Enabled(s, Deliver(q))
    ensures Inv(Do(s, Deliver(q)), n)
  {
    var after := Do(s, Deliver(q));
    assert PacketOk(s, n, q);
    forall u | 0 <= u < |s.threads| ensures ThreadOk(after, n, u) {
      ThreadKept(s, after, n, u);
    }
    forall p | p in after.net ensures PacketOk(after, n, p) {
      assert PacketOk(s, n, p);
      PacketKept(s, after, n, p);
    }
    forall a | a in s.acked ensures AckOk(after, a) {
      assert AckOk(s, a);
    }
  }

  lemma QuietStepKeeps(s: State, n: nat, step: Step)
    requires Inv(s, n) && Enabled(s, step) && (step.Lose? || step.Restart?)
    ensures Inv(Do(s, step), n)
  {
    var after := Do(s, step);
    RunSound([]);
    forall u | 0 <= u < |s.threads| ensures ThreadOk(after, n, u) {
      ThreadKept(s, after, n, u);
    }
    forall p | p in after.net ensures PacketOk(after, n, p) {
      assert PacketOk(s, n, p);
      PacketKept(s, after, n, p);
    }
    forall a | a in s.acked ensures AckOk(after, a) {
      assert AckOk(s, a);
    }
  }

  lemma StepKeeps(s: State, n: nat, step: Step)
    requires Inv(s, n) && Enabled(s, step)
    ensures Inv(Do(s, step), n)
  {
    match step
    case Request(w) => RequestKeeps(s, n, w);
    case Snapshot(t) => SnapshotKeeps(s, n, t);
    case Send(t) => SendKeeps(s, n, t);
    case Deliver(p) => DeliverKeeps(s, n, p);
    case Lose(_) => QuietStepKeeps(s, n, step);
    case Advance(t, ok) => AdvanceKeeps(s, n, t, ok);
    case Finish(t) => FinishKeeps(s, n, t);
    case Restart(_) => QuietStepKeeps(s, n, step);
  }

  lemma {:induction false} RunKeeps(n: nat, run: seq<State>, k: nat)
    requires IsRun(n, run) && k < |run|
    ensures Inv(run[k], n)
  {
    if k == 0 {
      RunSound([]);
    } else {
      RunKeeps(n, run, k - 1);
      var step := StepOf(n, run, k - 1);
      StepKeeps(run[k - 1], n, step);
    }
  }

  // The coordinator held `db` at or before state `k`.
  ghost predicate Past(run: seq<State>, k: nat, db: Db)
    requires k < |run|
  {
    exists b: nat :: b <= k && WasAt(run[b], 0, db)
  }

  predicate WasAt(s: State, j: nat, db: Db) { j < |s.servers| && s.servers[j] == db }

  ghost predicate AllPast(run: seq<State>, k: nat)
    requires k < |run|
  {
    && (forall i :: 0 <= i < |run[k].servers| ==> Past(run, k, run[k].servers[i]))
    && (forall t :: 0 <= t < |run[k].threads| && HasSnapshot(run[k].threads[t]) ==>
          Past(run, k, run[k].threads[t].snapshot))
    && (forall p :: p in run[k].net ==> Past(run, k, p.db))
  }

  lemma PastLater(run: seq<State>, k: nat, db: Db)
    requires k + 1 < |run| && Past(run, k, db)
    ensures Past(run, k + 1, db)
  {
    var b: nat :| b <= k && WasAt(run[b], 0, db);
    assert b <= k + 1 && WasAt(run[b], 0, db);
  }

  lemma PastNow(run: seq<State>, k: nat)
    requires k < |run| && |run[k].servers| > 0
    ensures Past(run, k, run[k].servers[0])
  {
    assert WasAt(run[k], 0, run[k].servers[0]);
  }

  lemma PastEmpty(n: nat, run: seq<State>, k: nat)
    requires n > 0 && k < |run| && run[0] == Init(n)
    ensures Past(run, k, EMPTY)
  {
    assert WasAt(run[0], 0, EMPTY);
  }

  // The run starts empty, and its step from state `k` is `step`.
  predicate StepAt(n: nat, run: seq<State>, k: nat, step: Step) {
    && n > 0 && k + 1 < |run| && run[0] == Init(n)
    && |run[k].servers| == n && Enabled(run[k], step) && run[k + 1] == Do(run[k], step)
  }

  lemma FindStep(n: nat, run: seq<State>, k: nat) returns (step: Step)
    requires IsRun(n, run) && k + 1 < |run|
    ensures StepAt(n, run, k, step)
  {
    RunKeeps(n, run, k);
    step := StepOf(n, run, k);
  }

  lemma ServerPastNext(n: nat, run: seq<State>, k: nat, step: Step, i: nat)
    requires StepAt(n, run, k, step) && AllPast(run, k) && i < |run[k + 1].servers|
    ensures Past(run, k + 1, run[k + 1].servers[i])
  {
    var s, t := run[k], run[k + 1];
    if i == 0 {
      PastNow(run, k + 1);
    } else if step.Deliver? && i == step.packet.target {
      PastLater(run, k, step.packet.db);
    } else if step == Restart(i) {
      PastEmpty(n, run, k + 1);
    } else {
      PastLater(run, k, s.servers[i]);
    }
  }

  lemma ThreadPastNext(n: nat, run: seq<State>, k: nat, step: Step, u: nat)
    requires StepAt(n, run, k, step) && AllPast(run, k)
    requires u < |run[k + 1].threads| && HasSnapshot(run[k + 1].threads[u])
    ensures Past(run, k + 1, run[k + 1].threads[u].snapshot)
  {
    PastNow(run, k);
    PastLater(run, k, run[k + 1].threads[u].snapshot);
  }

  lemma AllPastNext(n: nat, run: seq<State>, k: nat, step: Step)
    requires StepAt(n, run, k, step) && AllPast(run, k)
    ensures AllPast(run, k + 1)
  {
    var t := run[k + 1];
    forall i | 0 <= i < |t.servers| ensures Past(run, k + 1, t.servers[i]) {
      ServerPastNext(n, run, k, step, i);
    }
    forall u | 0 <= u < |t.threads| && HasSnapshot(t.threads[u]) ensures Past(run, k + 1, t.threads[u].snapshot) {
      ThreadPastNext(n, run, k, step, u);
    }
    forall p | p in t.net ensures Past(run, k + 1, p.db) {
      PastLater(run, k, p.db);
    }
  }

  /** In every run, whatever a server holds, a thread has as its snapshot or a push carries is a
      database the coordinator held at that time or before. */
  lemma {:induction false} ShowsPast(n: nat, run: seq<State>, k: nat)
    requires IsRun(n, run) && k < |run|
    ensures AllPast(run, k)
  {
    if k == 0 {
      PastEmpty(n, run, 0);
    } else {
      ShowsPast(n, run, k - 1);
      var step := FindStep(n, run, k - 1);
      AllPastNext(n, run, k - 1, step);
    }
  }

  /** All of it is sound: the laws of the board hold at every server at every time. */
  lemma RunSoundness(n: nat, run: seq<State>, k: nat, i: nat)
    requires IsRun(n, run) && k < |run| && i < n
    ensures |run[k].servers| == n && Sound(run[k].servers[i])
  {
    RunKeeps(n, run, k);
  }

  // -- What a success means -----------------------------------------------------------------------

  // Server `j` held `db` at or before state `k`.
  ghost predicate HeldOnce(run: seq<State>, k: nat, j: nat, db: Db)
    requires k < |run|
  {
    exists b: nat :: b <= k && WasAt(run[b], j, db)
  }

  // The push that `a` speaks of did arrive.
  ghost predicate AckTrue(run: seq<State>, k: nat, a: (nat, nat))
    requires k < |run|
  {
    a.0 < |run[k].threads| && HasSnapshot(run[k].threads[a.0]) ==> HeldOnce(run, k, a.1, run[k].threads[a.0].snapshot)
  }

  ghost predicate AcksTrue(run: seq<State>, k: nat)
    requires k < |run|
  {
    forall a :: a in run[k].acked ==> AckTrue(run, k, a)
  }

  lemma HeldOnceLater(run: seq<State>, k: nat, j: nat, db: Db)
    requires k + 1 < |run| && HeldOnce(run, k, j, db)
    ensures HeldOnce(run, k + 1, j, db)
  {
    var b: nat :| b <= k && WasAt(run[b], j, db);
    assert b <= k + 1 && WasAt(run[b], j, db);
  }

  // What the invariant says about deliveries.
  ghost predicate Deliveries(s: State, n: nat, step: Step) {
    && (step.Deliver? ==> PacketOk(s, n, step.packet))
    && forall a :: a in s.acked ==> AckOk(s, a)
  }

  lemma DeliveriesKnown(n: nat, run: seq<State>, k: nat, step: Step)
    requires IsRun(n, run) && StepAt(n, run, k, step)
    ensures Deliveries(run[k], n, step)
  {
    RunKeeps(n, run, k);
  }

  lemma AckTrueNext(n: nat, run: seq<State>, k: nat, step: Step, a: (nat, nat))
    requires StepAt(n, run, k, step) && AcksTrue(run, k) && Deliveries(run[k], n, step)
    requires a in run[k + 1].acked && a.0 < |run[k + 1].threads| && HasSnapshot(run[k + 1].threads[a.0])
    ensures HeldOnce(run, k + 1, a.1, run[k + 1].threads[a.0].snapshot)
  {
    var s, after := run[k], run[k + 1];
    if step.Deliver? && a == (step.packet.thread, step.packet.target) {
      assert WasAt(after, a.1, after.threads[a.0].snapshot);
    } else {
      assert AckOk(s, a) && AckTrue(run, k, a);
      HeldOnceLater(run, k, a.1, after.threads[a.0].snapshot);
    }
  }

  lemma AcksTrueNext(n: nat, run: seq<State>, k: nat, step: Step)
    requires StepAt(n, run, k, step) && AcksTrue(run, k) && Deliveries(run[k], n, step)
    ensures AcksTrue(run, k + 1)
  {
    var after := run[k + 1];
    forall a | a in after.acked ensures AckTrue(run, k + 1, a) {
      if a.0 < |after.threads| && HasSnapshot(after.threads[a.0]) {
        AckTrueNext(n, run, k, step, a);
      }
    }
  }

  lemma {:induction false} AcksAreTrue(n: nat, run: seq<State>, k: nat)
    requires IsRun(n, run) && k < |run|
    ensures AcksTrue(run, k)
  {
    if k > 0 {
      AcksAreTrue(n, run, k - 1);
      var step := FindStep(n, run, k - 1);
      DeliveriesKnown(n, run, k - 1, step);
      AcksTrueNext(n, run, k - 1, step);
    }
  }

  /** A write answered with success has had its snapshot restored at some time by every server but the
      coordinator if it is a reply, and by every server but the last if it is a post. */
  lemma SuccessWasDelivered(n: nat, run: seq<State>, k: nat, t: nat, j: nat)
    requires IsRun(n, run) && k < |run| && t < |run[k].threads| && run[k].threads[t].Succeeded?
    requires if run[k].threads[t].w.Reply? then 1 <= j < n else 0 <= j < n - 1
    ensures HeldOnce(run, k, j, run[k].threads[t].snapshot)
  {
    RunKeeps(n, run, k);
    AcksAreTrue(n, run, k);
    assert ThreadOk(run[k], n, t);
    assert AckTrue(run, k, (t, j));
  }

  // -- Versions that fall and articles that vanish ------------------------------------------------

  predicate Falls(s: State, t: State, i: nat) {
    i < |s.servers| == |t.servers| && t.servers[i].version < s.servers[i].version
  }

  lemma WriteRaises(db: Db, w: Write)
    ensures db.version <= Apply(db, w).0.version
  {
  }

  /** A server's version falls exactly if it restores a push older than what it holds, or restarts while
      it holds something. For the coordinator, which does not restart, that push is always a post's. */
  lemma FallsExactly(n: nat, run: seq<State>, k: nat, step: Step, i: nat)
    requires IsRun(n, run) && k < |run| && Enabled(run[k], step) && i < n
    ensures |run[k].servers| == n
    ensures Falls(run[k], Do(run[k], step), i) <==>
              || (step.Deliver? && step.packet.target == i && step.packet.db.version < run[k].servers[i].version)
              || (step == Restart(i) && run[k].servers[i] != EMPTY)
    ensures Falls(run[k], Do(run[k], step), 0) ==> step.Deliver? && step.packet.w.Post?
  {
    RunKeeps(n, run, k);
    match step
    case Request(w) => WriteRaises(run[k].servers[0], w);
    case Deliver(p) => assert PacketOk(run[k], n, p);
    case _ =>
  }

  predicate HeldAt(s: State, x: Article, j: nat) { j < |s.servers| && x in Articles(s.servers[j]) }

  predicate Held(s: State, x: Article) { exists j: nat :: j < |s.servers| && HeldAt(s, x, j) }

  predicate OnlyAt(s: State, x: Article, i: nat) { forall j: nat :: j < |s.servers| && HeldAt(s, x, j) ==> j == i }

  /** An article is gone from the whole group after a step exactly if its only holder restores a push
      without it or restarts. */
  lemma LostExactly(s: State, step: Step, x: Article)
    requires Enabled(s, step) && Held(s, x)
    ensures !Held(Do(s, step), x) <==>
              || (step.Deliver? && x !in Articles(step.packet.db) && OnlyAt(s, x, step.packet.target))
              || (step.Restart? && OnlyAt(s, x, step.server))
  {
    var t := Do(s, step);
    if step.Deliver? && x in Articles(step.packet.db) {
      assert HeldAt(t, x, step.packet.target);
    } else if step.Deliver? || step.Restart? {
      var i := if step.Deliver? then step.packet.target else step.server;
      forall j: nat | j < |s.servers| && j != i ensures HeldAt(t, x, j) <==> HeldAt(s, x, j) {
      }
      assert !HeldAt(t, x, i);
    } else {
      var j: nat :| j < |s.servers| && HeldAt(s, x, j);
      if step.Request? {
        WriteKeeps(s.servers[0], step.w);
      }
      assert HeldAt(t, x, j);
    }
  }

  // -- One write at a time ------------------------------------------------------------------------

  predicate Quiet(s: State) {
    s.net == {} && forall t :: 0 <= t < |s.threads| ==> Ended(s.threads[t])
  }

  ghost predicate OneAtATime(run: seq<State>) {
    forall k :: 0 <= k < |run| - 1 && |run[k].threads| < |run[k + 1].threads| ==> Quiet(run[k])
  }

  // Everything at work is the coordinator's present database, and no server is ahead of it.
  ghost predicate Fresh(s: State) {
    && |s.servers| > 0
    && (forall i :: 0 <= i < |s.servers| ==> s.servers[i].version <= s.servers[0].version)
    && (forall t :: 0 <= t < |s.threads| && (s.threads[t].Pushing? || s.threads[t].Waiting?) ==>
          s.threads[t].snapshot == s.servers[0])
    && (forall p :: p in s.net ==> p.db == s.servers[0])
  }

  lemma FreshRequest(s: State, n: nat, w: Write)
    requires Inv(s, n) && Fresh(s) && Quiet(s)
    ensures Fresh(Do(s, Request(w)))
    ensures forall i: nat :: !Falls(s, Do(s, Request(w)), i)
  {
    WriteRaises(s.servers[0], w);
  }

  lemma FreshDeliver(s: State, n: nat, p: Packet)
    requires Inv(s, n) && Fresh(s) && Enabled(s, Deliver(p))
    ensures Fresh(Do(s, Deliver(p)))
    ensures forall i: nat :: !Falls(s, Do(s, Deliver(p)), i)
  {
    assert Do(s, Deliver(p)).servers[0] == s.servers[0];
  }

  lemma FreshStep(s: State, n: nat, step: Step)
    requires Inv(s, n) && Fresh(s) && Enabled(s, step)
    requires step.Request? ==> Quiet(s)
    ensures Fresh(Do(s, step))
    ensures forall i: nat :: Falls(s, Do(s, step), i) ==> step.Restart?
  {
    match step
    case Request(w) => FreshRequest(s, n, w);
    case Deliver(p) => FreshDeliver(s, n, p);
    case Restart(_) => assert Sound(s.servers[0]);
    case _ =>
  }

  lemma {:induction false} FreshRun(n: nat, run: seq<State>, k: nat)
    requires IsRun(n, run) && OneAtATime(run) && k < |run|
    ensures Fresh(run[k])
  {
    if k > 0 {
      FreshRun(n, run, k - 1);
      RunKeeps(n, run, k - 1);
      var step := FindStep(n, run, k - 1);
      FreshStep(run[k - 1], n, step);
    }
  }

  /** If every write finds the group quiet, only restarts lower a version. */
  lemma OneAtATimeNeverBack(n: nat, run: seq<State>, k: nat, step: Step, i: nat)
    requires IsRun(n, run) && OneAtATime(run) && k < |run| - 1
    requires Enabled(run[k], step) && run[k + 1] == Do(run[k], step)
    ensures Falls(run[k], run[k + 1], i) ==> step.Restart?
  {
    RunKeeps(n, run, k);
    FreshRun(n, run, k);
    FreshStep(run[k], n, step);
  }

  // -- A success that is lost ---------------------------------------------------------------------

  lemma RunOn(n: nat, run: seq<State>, step: Step) returns (longer: seq<State>)
    requires IsRun(n, run) && Enabled(run[|run| - 1], step)
    ensures IsRun(n, longer) && longer == run + [Do(run[|run| - 1], step)]
  {
    longer := run + [Do(run[|run| - 1], step)];
    forall k | 0 <= k < |longer| - 1 ensures FollowsAt(longer, k) {
      if k < |run| - 1 {
        var earlier := StepOf(n, run, k);
        assert Enabled(longer[k], earlier);
      } else {
        assert Enabled(longer[k], step);
      }
    }
  }

  // A post is stored and its snapshot taken at once.
  lemma StoreAndSnapshot(run: seq<State>, w: Write, x: Db, y: Db, z: Db, article: Article, threads: seq<Thread>)
    returns (longer: seq<State>)
    requires IsRun(2, run) && run[|run| - 1] == State([x, y], threads, {}, {}) && w.Post?
    requires Apply(x, w).1.Stored? && Apply(x, w).0 == z && StoredArticle(x, w) == article
    ensures IsRun(2, longer)
    ensures longer[|longer| - 1] == State([z, y], threads + [Pushing(w, article, z, 0)], {}, {})
  {
    longer := RunOn(2, run, Request(w));
    assert longer[|longer| - 1] == State([z, y], threads + [Written(w, article)], {}, {});
    longer := RunOn(2, longer, Snapshot(|threads|));
  }

  // A post's push to the coordinator itself is sent and delivered.
  lemma PushSelf(run: seq<State>, s: State, t: nat) returns (longer: seq<State>)
    requires IsRun(2, run) && run[|run| - 1] == s && |s.servers| == 2 && s.net == {}
    requires t < |s.threads| && s.threads[t].Pushing? && s.threads[t].w.Post? && s.threads[t].next == 0
    ensures IsRun(2, longer)
    ensures var th := s.threads[t];
            longer[|longer| - 1] == State(s.servers[0 := th.snapshot],
                                          s.threads[t := Waiting(th.w, th.article, th.snapshot, 0)],
                                          {}, s.acked + {(t, 0)})
  {
    var th := s.threads[t];
    var p := Packet(t, 0, th.w, th.snapshot);
    longer := RunOn(2, run, Send(t));
    assert longer[|longer| - 1].net == {p};
    longer := RunOn(2, longer, Deliver(p));
  }

  /** A post answered with success can vanish from every server: two servers, two posts; the second is
      pushed and acknowledged, and then the first one's older snapshot overwrites the coordinator. */
  lemma SuccessLost(a: Text, b: Text) returns (run: seq<State>, t: nat)
    requires a != b
    ensures IsRun(2, run) && t < |run[|run| - 1].threads|
    ensures run[|run| - 1].threads[t].Succeeded? && run[|run| - 1].threads[t].article.author == b
    ensures run[|run| - 1].threads[t].article in Articles(run[|run| - 1].threads[t].snapshot)
    ensures !Held(run[|run| - 1], run[|run| - 1].threads[t].article)
  {
    var wa, wb := Post(a, [], []), Post(b, [], []);
    var one, unused := TwoPosts(a);
    var two := Apply(one, wb).0;
    var xa, xb := Article(0, -1, 0, a, [], []), Article(1, -1, 0, b, [], []);
    run := [Init(2)];
    assert run[0] == State([EMPTY, EMPTY], [], {}, {});
    run := StoreAndSnapshot(run, wa, EMPTY, EMPTY, one, xa, []);
    var ta, tb := Pushing(wa, xa, one, 0), Pushing(wb, xb, two, 0);
    run := StoreAndSnapshot(run, wb, one, EMPTY, two, xb, [ta]);
    run := PushSelf(run, State([two, EMPTY], [ta, tb], {}, {}), 1);
    assert run[|run| - 1] == State([two, EMPTY], [ta, Waiting(wb, xb, two, 0)], {}, {(1, 0)});
    run := RunOn(2, run, Advance(1, true));
    run := RunOn(2, run, Finish(1));
    var done := State([two, EMPTY], [ta, Succeeded(wb, xb, two)], {}, {(1, 0)});
    assert run[|run| - 1] == done;
    run := PushSelf(run, done, 0);
    t := 1;
    ArticleAt(two, 1);
    assert run[|run| - 1].servers == [one, EMPTY];
  }
}
