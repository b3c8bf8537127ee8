/** Which pushes a run of SEQUENTIAL sends, and what its handlers do as runs of their own. */
module SequentialSends {
  import opened CTypes
  import opened Database
  import opened Board
  import opened SequentialRuns
  import opened Handlers

  // -- Exactly the pushes that are due ------------------------------------------------------------

  // The push was in the net at or before state `k`.
  ghost predicate SentAs(run: seq<State>, k: nat, p: Packet)
    requires k < |run|
  {
    exists b: nat :: b <= k && InNet(run[b], p)
  }

  predicate InNet(s: State, p: Packet) { p in s.net }

  // The thread has sent to the servers from 1 to just below this one.
  function SentEnd(th: Thread, n: nat): nat
    requires HasSnapshot(th)
  {
    if th.Pushing? then th.next else if th.Finished? then n else th.next + 1
  }

  predicate Due(s: State, n: nat, p: Packet) {
    && p.thread < |s.threads| && HasSnapshot(s.threads[p.thread])
    && var th := s.threads[p.thread];
       p.w == th.w && p.mine == th.mine && p.db == th.snapshot && 1 <= p.target < SentEnd(th, n)
  }

  predicate Bounded(th: Thread, n: nat) {
    && (th.Pushing? ==> 1 <= th.next <= n)
    && (th.Waiting? || th.GaveUp? ==> 1 <= th.next < n)
    && (th.GaveUp? ==> th.w.Reply?)
  }

  predicate AllBounded(s: State, n: nat) {
    |s.servers| == n && forall t :: 0 <= t < |s.threads| ==> Bounded(s.threads[t], n)
  }

  lemma BoundedNext(s: State, n: nat, step: Step)
    requires AllBounded(s, n) && Enabled(s, step)
    ensures AllBounded(Do(s, step), n)
  {
  }

  // What a send of thread `t` puts into the net.
  function Pushed(s: State, t: nat): Packet
    requires t < |s.threads| && s.threads[t].Pushing?
  {
    var th := s.threads[t];
    Packet(t, th.next, th.w, th.mine, th.snapshot)
  }

  predicate SendsNow(s: State, step: Step, p: Packet)
    requires Enabled(s, step)
  {
    step.Send? && p == Pushed(s, step.thread)
  }

  lemma DueNext(s: State, n: nat, step: Step, p: Packet)
    requires AllBounded(s, n) && Enabled(s, step)
    ensures Due(Do(s, step), n, p) <==> Due(s, n, p) || SendsNow(s, step, p)
    ensures InNet(Do(s, step), p) ==> InNet(s, p) || SendsNow(s, step, p)
    ensures SendsNow(s, step, p) ==> InNet(Do(s, step), p)
  {
  }

  lemma SentNext(run: seq<State>, k: nat, p: Packet)
    requires k + 1 < |run|
    ensures SentAs(run, k + 1, p) <==> SentAs(run, k, p) || InNet(run[k + 1], p)
  {
    if SentAs(run, k, p) {
      var b: nat :| b <= k && InNet(run[b], p);
      assert b <= k + 1 && InNet(run[b], p);
    }
    if SentAs(run, k + 1, p) {
      var b: nat :| b <= k + 1 && InNet(run[b], p);
      assert b == k + 1 || b <= k;
    }
  }

  lemma {:induction false} RunBounded(n: nat, run: seq<State>, k: nat)
    requires IsRun(n, run) && k < |run|
    ensures AllBounded(run[k], n)
  {
    if k > 0 {
      RunBounded(n, run, k - 1);
      var step := StepOf(n, run, k - 1);
      BoundedNext(run[k - 1], n, step);
    }
  }

  /** A push has been sent if and only if it is due: it carries its thread's write and snapshot to one of
      the servers the thread has come to. */
  lemma {:induction false} SentExactly(n: nat, run: seq<State>, k: nat, p: Packet)
    requires IsRun(n, run) && k < |run|
    ensures SentAs(run, k, p) <==> Due(run[k], n, p)
  {
    if k == 0 {
      assert run[0].net == {};
    } else {
      SentExactly(n, run, k - 1, p);
      RunBounded(n, run, k - 1);
      var step := StepOf(n, run, k - 1);
      DueNext(run[k - 1], n, step, p);
      SentNext(run, k - 1, p);
    }
  }

  // The push of thread `t` to server `j`.
  function PushTo(s: State, t: nat, j: nat): Packet
    requires t < |s.threads| && HasSnapshot(s.threads[t])
  {
    var th := s.threads[t];
    Packet(t, j, th.w, th.mine, th.snapshot)
  }

  /** A thread that comes to its end has sent its snapshot to every server from 1 to n - 1, whichever of
      the pushes failed, and to nobody else. */
  lemma SentToAll(n: nat, run: seq<State>, k: nat, t: nat, j: nat)
    requires IsRun(n, run) && k < |run| && t < |run[k].threads|
    requires run[k].threads[t].Finished? || Enabled(run[k], Finish(t))
    ensures SentAs(run, k, PushTo(run[k], t, j)) <==> 1 <= j < n
  {
    RunBounded(n, run, k);
    SentExactly(n, run, k, PushTo(run[k], t, j));
  }

  /** Whatever is sent goes to a server other than the coordinator, and carries the snapshot of the thread
      that sent it. */
  lemma NothingElseSent(n: nat, run: seq<State>, k: nat, p: Packet)
    requires IsRun(n, run) && k < |run| && SentAs(run, k, p)
    ensures 1 <= p.target < n && p.thread < |run[k].threads| && HasSnapshot(run[k].threads[p.thread])
    ensures p == PushTo(run[k], p.thread, p.target)
  {
    RunBounded(n, run, k);
    SentExactly(n, run, k, p);
  }

  // -- What was delivered -------------------------------------------------------------------------

  predicate WasAt(s: State, j: nat, db: Db) { j < |s.servers| && s.servers[j] == db }

  // Server `j` held `db` at or before state `k`.
  ghost predicate HeldOnce(run: seq<State>, k: nat, j: nat, db: Db)
    requires k < |run|
  {
    exists b: nat :: b <= k && WasAt(run[b], j, db)
  }

  // The push that `a` speaks of did arrive.
  ghost predicate AckTrue(run: seq<State>, k: nat, a: (nat, nat))
    requires k < |run|
  {
    && a.0 < |run[k].threads| && HasSnapshot(run[k].threads[a.0])
    && HeldOnce(run, k, a.1, run[k].threads[a.0].snapshot)
  }

  lemma HeldLater(run: seq<State>, k: nat, j: nat, db: Db)
    requires k + 1 < |run| && HeldOnce(run, k, j, db)
    ensures HeldOnce(run, k + 1, j, db)
  {
    var b: nat :| b <= k && WasAt(run[b], j, db);
    assert b <= k + 1 && WasAt(run[b], j, db);
  }

  lemma SnapshotStays(s: State, step: Step, t: nat)
    requires Enabled(s, step) && t < |s.threads| && HasSnapshot(s.threads[t])
    ensures t < |Do(s, step).threads| && HasSnapshot(Do(s, step).threads[t])
    ensures Do(s, step).threads[t].snapshot == s.threads[t].snapshot
  {
  }

  lemma {:induction false} AcksAreTrue(n: nat, run: seq<State>, k: nat, a: (nat, nat))
    requires IsRun(n, run) && k < |run| && a in run[k].acked
    ensures AckTrue(run, k, a)
  {
    var s := run[k - 1];
    var step := StepOf(n, run, k - 1);
    if a in s.acked {
      AcksAreTrue(n, run, k - 1, a);
      SnapshotStays(s, step, a.0);
      HeldLater(run, k - 1, a.1, s.threads[a.0].snapshot);
    } else {
      assert InNet(s, step.packet);
      NothingElseSent(n, run, k - 1, step.packet);
      assert WasAt(run[k], a.1, step.packet.db);
    }
  }

  // A reply's thread that goes past server `j` has seen its push acknowledged.
  predicate AckedBefore(th: Thread, n: nat, j: nat) {
    HasSnapshot(th) && th.w.Reply? && 1 <= j < (if th.Finished? then n else th.next)
  }

  ghost predicate RepliesAcked(s: State, n: nat) {
    forall t, j: nat :: 0 <= t < |s.threads| && AckedBefore(s.threads[t], n, j) ==> (t, j) in s.acked
  }

  lemma RepliesAckedNext(s: State, n: nat, step: Step)
    requires AllBounded(s, n) && RepliesAcked(s, n) && Enabled(s, step)
    ensures RepliesAcked(Do(s, step), n)
  {
  }

  lemma {:induction false} RunRepliesAcked(n: nat, run: seq<State>, k: nat)
    requires IsRun(n, run) && k < |run|
    ensures RepliesAcked(run[k], n)
  {
    if k > 0 {
      RunRepliesAcked(n, run, k - 1);
      RunBounded(n, run, k - 1);
      var step := StepOf(n, run, k - 1);
      RepliesAckedNext(run[k - 1], n, step);
    }
  }

  /** A reply's thread comes to its end only if every other server has held its snapshot. */
  lemma ReplyWasDelivered(n: nat, run: seq<State>, k: nat, t: nat, j: nat)
    requires IsRun(n, run) && k < |run| && t < |run[k].threads|
    requires run[k].threads[t].Finished? && run[k].threads[t].w.Reply? && 1 <= j < n
    ensures HeldOnce(run, k, j, run[k].threads[t].snapshot)
  {
    RunRepliesAcked(n, run, k);
    AcksAreTrue(n, run, k, (t, j));
  }

  lemma EndedStep(s: State, step: Step, t: nat)
    requires Enabled(s, step) && t < |s.threads| && Ended(s.threads[t])
    ensures t < |Do(s, step).threads| && Do(s, step).threads[t] == s.threads[t]
  {
  }

  lemma {:induction false} EndedStays(n: nat, run: seq<State>, k: nat, l: nat, t: nat)
    requires IsRun(n, run) && k <= l < |run| && t < |run[k].threads| && Ended(run[k].threads[t])
    ensures t < |run[l].threads| && run[l].threads[t] == run[k].threads[t]
    decreases l
  {
    if k < l {
      EndedStays(n, run, k, l - 1, t);
      var step := StepOf(n, run, l - 1);
      EndedStep(run[l - 1], step, t);
    }
  }

  predicate WaitsFor(s: State, t: nat, th: Thread) {
    th.GaveUp? && t < |s.threads| && s.threads[t] == Waiting(th.w, th.mine, th.snapshot, th.next)
  }

  // The thread gave up when it stopped waiting for the server it names.
  ghost predicate StoppedWaiting(run: seq<State>, k: nat, t: nat)
    requires k < |run| && t < |run[k].threads|
  {
    exists b: nat :: b < k && WaitsFor(run[b], t, run[k].threads[t])
  }

  lemma GaveUpStep(s: State, step: Step, t: nat)
    requires Enabled(s, step) && t < |Do(s, step).threads| && Do(s, step).threads[t].GaveUp?
    ensures WaitsFor(s, t, Do(s, step).threads[t]) || (t < |s.threads| && s.threads[t] == Do(s, step).threads[t])
  {
  }

  lemma {:induction false} GaveUpWaiting(n: nat, run: seq<State>, k: nat, t: nat)
    requires IsRun(n, run) && k < |run| && t < |run[k].threads| && run[k].threads[t].GaveUp?
    ensures StoppedWaiting(run, k, t)
  {
    var step := StepOf(n, run, k - 1);
    GaveUpStep(run[k - 1], step, t);
    if !WaitsFor(run[k - 1], t, run[k].threads[t]) {
      GaveUpWaiting(n, run, k - 1, t);
    }
  }

  /** Only replies give up. One that does has had every server before the one it names hold its snapshot,
      was waiting for that server's acknowledgement, and never sends to a later one. */
  lemma GivesUpAtFirst(n: nat, run: seq<State>, k: nat, l: nat, t: nat, j: nat)
    requires IsRun(n, run) && k <= l < |run| && t < |run[k].threads| && run[k].threads[t].GaveUp?
    ensures var th := run[k].threads[t];
            && th.w.Reply? && 1 <= th.next < n && StoppedWaiting(run, k, t)
            && (1 <= j < th.next ==> HeldOnce(run, k, j, th.snapshot))
            && (SentAs(run, l, PushTo(run[k], t, j)) <==> 1 <= j <= th.next)
  {
    RunBounded(n, run, k);
    RunRepliesAcked(n, run, k);
    GaveUpWaiting(n, run, k, t);
    EndedStays(n, run, k, l, t);
    SentExactly(n, run, l, PushTo(run[k], t, j));
    if 1 <= j < run[k].threads[t].next {
      AcksAreTrue(n, run, k, (t, j));
    }
  }

  // Server `i` has come to hold this by a write of a client, by a push, or by a restart.
  ghost predicate Changed(s: State, later: State, i: nat)
    requires i < |s.servers| == |later.servers|
  {
    if i == 0 then
      |later.history| == |s.history| + 1
      && later.servers[0] == Apply(s.servers[0], later.history[|s.history|]).0
    else later.servers[i] == EMPTY || exists p :: InNet(s, p) && p.target == i && p.db == later.servers[i]
  }

  /** A step changes one server at most, and the coordinator only by a client's write. A thread's snapshot
      is the coordinator's database at the time it is taken. */
  lemma OneServerChanges(n: nat, run: seq<State>, k: nat, i: nat, j: nat, t: nat)
    requires IsRun(n, run) && k + 1 < |run| && i < n && j < n
    ensures |run[k].servers| == |run[k + 1].servers| == n
    ensures run[k].servers[i] != run[k + 1].servers[i] ==> Changed(run[k], run[k + 1], i)
    ensures run[k].servers[i] != run[k + 1].servers[i] && j != i ==> run[k].servers[j] == run[k + 1].servers[j]
    ensures |run[k].threads| <= |run[k + 1].threads|
    ensures t < |run[k].threads| && run[k].threads[t].Written? && HasSnapshot(run[k + 1].threads[t]) ==>
              run[k + 1].threads[t].snapshot == run[k].servers[0]
  {
    RunBounded(n, run, k);
    RunBounded(n, run, k + 1);
    var step := StepOf(n, run, k);
    if step.Deliver? {
      assert InNet(run[k], step.packet);
    } else if step.Request? {
      RunKeeps(n, run, k);
      ReplaysSound(run[k].history, run[k].servers[0]);
      WriteOutcome(run[k].servers[0], step.w);
    }
  }

  // -- The handlers are runs ----------------------------------------------------------------------

  // A later state in which thread `t` is `th`, the servers hold `dbs` and every push sent has been settled.
  predicate Became(s: State, later: State, t: nat, th: Thread, dbs: seq<Db>)
    requires t < |s.threads|
  {
    && later.history == s.history && later.servers == dbs
    && later.threads == s.threads[t := th] && later.net == s.net
  }

  function Last(run: seq<State>): State
    requires run != []
  {
    run[|run| - 1]
  }

  // How a thread goes on after a push that meets this fate.
  function GoesOn(th: Thread, fate: Fate): Thread
    requires th.Pushing?
  {
    if fate.Acked? || th.w.Post? then Pushing(th.w, th.mine, th.snapshot, th.next + 1)
    else GaveUp(th.w, th.mine, th.snapshot, th.next)
  }

  lemma NotYetSent(n: nat, run: seq<State>, t: nat)
    requires IsRun(n, run) && t < |Last(run).threads| && Last(run).threads[t].Pushing?
    ensures Pushed(Last(run), t) !in Last(run).net
  {
    var p := Pushed(Last(run), t);
    if InNet(Last(run), p) {
      assert SentAs(run, |run| - 1, p);
      SentExactly(n, run, |run| - 1, p);
    }
  }

  lemma PushOnce(n: nat, run: seq<State>, t: nat, th: Thread, fate: Fate) returns (longer: seq<State>)
    requires IsRun(n, run) && t < |Last(run).threads| && Last(run).threads[t] == th
    requires th.Pushing? && 1 <= th.next < |Last(run).servers| == n
    ensures IsRun(n, longer) && run <= longer
    ensures var dbs := Last(run).servers;
            Became(Last(run), Last(longer), t, GoesOn(th, fate),
                   if fate.Lost? then dbs else dbs[th.next := th.snapshot])
  {
    var s := Last(run);
    var p := Pushed(s, t);
    NotYetSent(n, run, t);
    var s1 := Do(s, Send(t));
    var arrival := if fate.Lost? then Lose(p) else Deliver(p);
    var s2 := Do(s1, arrival);
    OneMoreStep(n, run, Send(t));
    OneMoreStep(n, run + [s1], arrival);
    OneMoreStep(n, run + [s1] + [s2], Advance(t, fate.Acked?));
    longer := run + [s1] + [s2] + [Do(s2, Advance(t, fate.Acked?))];
  }

  // What server `i` holds once the thread has pushed from server `from` on: a post's thread reaches every
  // server whose push is not lost, a reply's only those up to the first failure.
  predicate Gets(w: Write, fates: seq<Fate>, from: nat, i: nat) {
    from <= i < |fates| && if w.Post? then !fates[i].Lost? else Reached(fates, from, |fates|, i)
  }

  predicate ServersGot(was: seq<Db>, now: seq<Db>, w: Write, snapshot: Db, fates: seq<Fate>, from: nat) {
    |now| == |was| && forall i :: 0 <= i < |was| ==> now[i] == if Gets(w, fates, from, i) then snapshot else was[i]
  }

  lemma PushRest(n: nat, run: seq<State>, t: nat, th: Thread, fates: seq<Fate>)
    returns (longer: seq<State>, end: Thread)
    requires IsRun(n, run) && t < |Last(run).threads| && Last(run).threads[t] == th
    requires th.Pushing? && 1 <= th.next <= |Last(run).servers| == n == |fates|
    ensures IsRun(n, longer) && run <= longer
    ensures Became(Last(run), Last(longer), t, end, Last(longer).servers)
    ensures ServersGot(Last(run).servers, Last(longer).servers, th.w, th.snapshot, fates, th.next)
    ensures var k := if th.w.Post? then n else FirstFailure(fates, th.next, n);
            end == if k == n then Finished(th.w, th.mine, th.snapshot) else GaveUp(th.w, th.mine, th.snapshot, k)
    decreases n - th.next
  {
    if th.next == n {
      OneMoreStep(n, run, Finish(t));
      longer, end := run + [Do(Last(run), Finish(t))], Finished(th.w, th.mine, th.snapshot);
    } else {
      longer := PushOnce(n, run, t, th, fates[th.next]);
      var next := GoesOn(th, fates[th.next]);
      if next.Pushing? {
        var half := longer;
        longer, end := PushRest(n, half, t, next, fates);
      } else {
        end := next;
      }
    }
  }

  // A write is stored, its snapshot taken at once, and every push sent and settled in turn.
  lemma WriteRun(n: nat, run: seq<State>, w: Write, fates: seq<Fate>) returns (longer: seq<State>, end: Thread)
    requires IsRun(n, run) && |Last(run).servers| == n == |fates| > 0
    ensures IsRun(n, longer) && run <= longer
    ensures Last(longer).threads == Last(run).threads + [end] && Last(longer).net == Last(run).net
    ensures var (after, outcome) := Apply(Last(run).servers[0], w);
            if outcome.Stored? then
              && Last(longer).history == Last(run).history + [w]
              && ServersGot(Last(run).servers[0 := after], Last(longer).servers, w, after, fates, 1)
              && !end.Refused? && (end.GaveUp? <==> w.Reply? && FirstFailure(fates, 1, n) < n) && Ended(end)
            else Last(longer) == Last(run).(threads := Last(longer).threads) && end.Refused?
  {
    var s := Last(run);
    var s1 := Do(s, Request(w));
    OneMoreStep(n, run, Request(w));
    if !Apply(s.servers[0], w).1.Stored? {
      longer, end := run + [s1], Refused;
    } else {
      var t := |s.threads|;
      OneMoreStep(n, run + [s1], Snapshot(t));
      var s2 := Do(s1, Snapshot(t));
      longer, end := PushRest(n, run + [s1] + [s2], t, s2.threads[t], fates);
    }
  }

  lemma SameServers(was: seq<Db>, after: Db, now: seq<Db>, dbs: seq<Db>, w: Write, fates: seq<Fate>)
    requires |fates| == |was| == |dbs| && was != [] && dbs[0] == after
    requires ServersGot(was[0 := after], now, w, after, fates, 1)
    requires forall i :: 1 <= i < |was| ==> dbs[i] == if Gets(w, fates, 1, i) then after else was[i]
    ensures dbs == now
  {
  }

  /** The handlers are runs: what a write handler at the coordinator does from start to end, whatever
      becomes of its pushes, the transition system can do from any run that has come to the same
      databases, in one thread that runs to its end. It fails exactly if the write is refused. */
  method PostIsRun(group: Group, w: Write, fates: seq<Fate>, ghost run: seq<State>)
    returns (answer: Answer, ghost longer: seq<State>, ghost end: Thread)
    requires group.Valid() && w.Post? && |fates| == |group.dbs| && IsRun(|group.dbs|, run)
    requires Last(run).servers == group.dbs && Last(run).history == group.history
    modifies group
    ensures group.Valid() && IsRun(|group.dbs|, longer) && run <= longer
    ensures Last(longer).servers == group.dbs && Last(longer).history == group.history
    ensures Last(longer).threads == Last(run).threads + [end] && Last(longer).net == Last(run).net
    ensures if answer.Success? then end.Finished? else end.Refused?
  {
    ghost var was := group.dbs;
    ghost var stored, after := Apply(was[0], w).1.Stored?, Apply(was[0], w).0;
    longer, end := WriteRun(|was|, run, w, fates);
    StoreKeeps(group.history, was, w);
    answer := group.SequentialPost(w, fates);
    if stored {
      SameServers(was, after, Last(longer).servers, group.dbs, w, fates);
    } else {
      assert group.dbs == was;
    }
  }

  /** The same for a reply, whose second answer says that the thread gave up. */
  method ReplyIsRun(group: Group, w: Write, fates: seq<Fate>, ghost run: seq<State>)
    returns (answer: Answer, second: bool, ghost longer: seq<State>, ghost end: Thread)
    requires group.Valid() && w.Reply? && |fates| == |group.dbs| && IsRun(|group.dbs|, run)
    requires Last(run).servers == group.dbs && Last(run).history == group.history
    modifies group
    ensures group.Valid() && IsRun(|group.dbs|, longer) && run <= longer
    ensures Last(longer).servers == group.dbs && Last(longer).history == group.history
    ensures Last(longer).threads == Last(run).threads + [end] && Last(longer).net == Last(run).net
    ensures if answer.Failure? then end.Refused? else if second then end.GaveUp? else end.Finished?
  {
    ghost var was := group.dbs;
    ghost var stored, after := Apply(was[0], w).1.Stored?, Apply(was[0], w).0;
    longer, end := WriteRun(|was|, run, w, fates);
    StoreKeeps(group.history, was, w);
    answer, second := group.SequentialReply(w, fates);
    if stored {
      SameServers(was, after, Last(longer).servers, group.dbs, w, fates);
    } else {
      assert group.dbs == was;
    }
  }
}
