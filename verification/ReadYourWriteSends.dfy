/** Which pushes a run of READ-YOUR-WRITE sends, and what its handlers do as runs of their own. */
module ReadYourWriteSends {
  import opened CTypes
  import opened Database
  import opened Board
  import opened ReadYourWriteRuns
  import opened Handlers

  // -- Exactly the pushes that are due ------------------------------------------------------------

  // The push was in the net at or before state `k`.
  ghost predicate SentAs(run: seq<State>, k: nat, p: Packet)
    requires k < |run|
  {
    exists b: nat :: b <= k && InNet(run[b], p)
  }

  predicate InNet(s: State, p: Packet) { p in s.net }

  // A reply goes to every server but the coordinator, a post to every server but the last.
  predicate IsTarget(w: Write, n: nat, j: nat) { if w.Reply? then 1 <= j < n else j < n - 1 }

  // The thread has come to server `j`.
  predicate CameTo(th: Thread, n: nat, j: nat)
    requires HasSnapshot(th)
  {
    IsTarget(th.w, n, j) && (th.Pushing? ==> j < th.next) && (th.Waiting? || th.GaveUp? ==> j <= th.next)
  }

  predicate Due(s: State, n: nat, p: Packet) {
    && p.thread < |s.threads| && HasSnapshot(s.threads[p.thread])
    && var th := s.threads[p.thread];
       p.w == th.w && p.db == th.snapshot && CameTo(th, n, p.target)
  }

  predicate Bounded(th: Thread, n: nat) {
    && (th.Pushing? ==> if th.w.Reply? then 1 <= th.next <= n else th.next < n)
    && (th.Waiting? || th.GaveUp? ==> IsTarget(th.w, n, th.next))
  }

  predicate AllBounded(s: State, n: nat) {
    |s.servers| == n && forall t :: 0 <= t < |s.threads| ==> Bounded(s.threads[t], n)
  }

  lemma BoundedNext(s: State, n: nat, step: Step)
    requires AllBounded(s, n) && Enabled(s, step)
    ensures AllBounded(Do(s, step), n)
  {
  }

  // What a send of thread `t` puts into the net.
  function Pushed(s: State, t: nat): Packet
    requires t < |s.threads| && s.threads[t].Pushing?
  {
    var th := s.threads[t];
    Packet(t, th.next, th.w, th.snapshot)
  }

  predicate SendsNow(s: State, step: Step, p: Packet)
    requires Enabled(s, step)
  {
    step.Send? && p == Pushed(s, step.thread)
  }

  lemma DueNext(s: State, n: nat, step: Step, p: Packet)
    requires AllBounded(s, n) && Enabled(s, step)
    ensures Due(Do(s, step), n, p) <==> Due(s, n, p) || SendsNow(s, step, p)
    ensures InNet(Do(s, step), p) ==> InNet(s, p) || SendsNow(s, step, p)
    ensures SendsNow(s, step, p) ==> InNet(Do(s, step), p)
  {
  }

  lemma SentNext(run: seq<State>, k: nat, p: Packet)
    requires k + 1 < |run|
    ensures SentAs(run, k + 1, p) <==> SentAs(run, k, p) || InNet(run[k + 1], p)
  {
    if SentAs(run, k, p) {
      var b: nat :| b <= k && InNet(run[b], p);
      assert b <= k + 1 && InNet(run[b], p);
    }
    if SentAs(run, k + 1, p) {
      var b: nat :| b <= k + 1 && InNet(run[b], p);
      assert b == k + 1 || b <= k;
    }
  }

  lemma {:induction false} RunBounded(n: nat, run: seq<State>, k: nat)
    requires IsRun(n, run) && k < |run|
    ensures AllBounded(run[k], n)
  {
    if k > 0 {
      RunBounded(n, run, k - 1);
      var step := FindStep(n, run, k - 1);
      BoundedNext(run[k - 1], n, step);
    }
  }

  /** A push has been sent if and only if it is due: it carries its thread's write and snapshot to one of
      the servers the thread has come to. */
  lemma {:induction false} SentExactly(n: nat, run: seq<State>, k: nat, p: Packet)
    requires IsRun(n, run) && k < |run|
    ensures SentAs(run, k, p) <==> Due(run[k], n, p)
  {
    if k == 0 {
      assert run[0].net == {};
    } else {
      SentExactly(n, run, k - 1, p);
      RunBounded(n, run, k - 1);
      var step := FindStep(n, run, k - 1);
      DueNext(run[k - 1], n, step, p);
      SentNext(run, k - 1, p);
    }
  }

  // The push of thread `t` to server `j`.
  function PushTo(s: State, t: nat, j: nat): Packet
    requires t < |s.threads| && HasSnapshot(s.threads[t])
  {
    var th := s.threads[t];
    Packet(t, j, th.w, th.snapshot)
  }

  /** A thread that comes to its end has sent its snapshot to exactly these: every server but the
      coordinator for a reply, every server but the last for a post. */
  lemma SentToAll(n: nat, run: seq<State>, k: nat, t: nat, j: nat)
    requires IsRun(n, run) && k < |run| && t < |run[k].threads|
    requires run[k].threads[t].Succeeded? || Enabled(run[k], Finish(t))
    ensures SentAs(run, k, PushTo(run[k], t, j)) <==>
              if run[k].threads[t].w.Reply? then 1 <= j < n else 0 <= j < n - 1
  {
    RunBounded(n, run, k);
    SentExactly(n, run, k, PushTo(run[k], t, j));
  }

  /** No reply is ever sent to the coordinator and no post to the last server, and every push carries the
      snapshot of the thread that sent it. */
  lemma NothingElseSent(n: nat, run: seq<State>, k: nat, p: Packet)
    requires IsRun(n, run) && k < |run| && SentAs(run, k, p)
    ensures if p.w.Reply? then 1 <= p.target < n else 0 <= p.target < n - 1
    ensures p.thread < |run[k].threads| && HasSnapshot(run[k].threads[p.thread])
    ensures p == PushTo(run[k], p.thread, p.target)
  {
    RunBounded(n, run, k);
    SentExactly(n, run, k, p);
  }

  // -- How a thread ends --------------------------------------------------------------------------

  lemma EndedStep(s: State, step: Step, t: nat)
    requires Enabled(s, step) && t < |s.threads| && Ended(s.threads[t])
    ensures t < |Do(s, step).threads| && Do(s, step).threads[t] == s.threads[t]
  {
  }

  lemma {:induction false} EndedStays(n: nat, run: seq<State>, k: nat, l: nat, t: nat)
    requires IsRun(n, run) && k <= l < |run| && t < |run[k].threads| && Ended(run[k].threads[t])
    ensures t < |run[l].threads| && run[l].threads[t] == run[k].threads[t]
    decreases l
  {
    if k < l {
      EndedStays(n, run, k, l - 1, t);
      var step := FindStep(n, run, l - 1);
      EndedStep(run[l - 1], step, t);
    }
  }

  predicate WaitsFor(s: State, t: nat, th: Thread) {
    th.GaveUp? && t < |s.threads| && s.threads[t] == Waiting(th.w, th.article, th.snapshot, th.next)
  }

  // The thread gave up when it stopped waiting for the server it names.
  ghost predicate StoppedWaiting(run: seq<State>, k: nat, t: nat)
    requires k < |run| && t < |run[k].threads|
  {
    exists b: nat :: b < k && WaitsFor(run[b], t, run[k].threads[t])
  }

  lemma GaveUpStep(s: State, step: Step, t: nat)
    requires Enabled(s, step) && t < |Do(s, step).threads| && Do(s, step).threads[t].GaveUp?
    ensures WaitsFor(s, t, Do(s, step).threads[t]) || (t < |s.threads| && s.threads[t] == Do(s, step).threads[t])
  {
  }

  lemma {:induction false} GaveUpWaiting(n: nat, run: seq<State>, k: nat, t: nat)
    requires IsRun(n, run) && k < |run| && t < |run[k].threads| && run[k].threads[t].GaveUp?
    ensures StoppedWaiting(run, k, t)
  {
    var step := FindStep(n, run, k - 1);
    GaveUpStep(run[k - 1], step, t);
    if !WaitsFor(run[k - 1], t, run[k].threads[t]) {
      GaveUpWaiting(n, run, k - 1, t);
    }
  }

  /** A thread that gives up has had every target before the server it names hold its snapshot, was waiting
      for that server's acknowledgement, and never sends to a later one. */
  lemma GivesUpAtFirst(n: nat, run: seq<State>, k: nat, l: nat, t: nat, j: nat)
    requires IsRun(n, run) && k <= l < |run| && t < |run[k].threads| && run[k].threads[t].GaveUp?
    ensures var th := run[k].threads[t];
            && (if th.w.Reply? then 1 <= th.next < n else 0 <= th.next < n - 1) && StoppedWaiting(run, k, t)
            && ((if th.w.Reply? then 1 <= j else 0 <= j) && j < th.next ==> HeldOnce(run, k, j, th.snapshot))
            && (SentAs(run, l, PushTo(run[k], t, j)) <==> (if th.w.Reply? then 1 <= j else 0 <= j) && j <= th.next)
  {
    RunBounded(n, run, k);
    GaveUpWaiting(n, run, k, t);
    EndedStays(n, run, k, l, t);
    SentExactly(n, run, l, PushTo(run[k], t, j));
    if IsTarget(run[k].threads[t].w, n, j) && j < run[k].threads[t].next {
      AckedBefore(n, run, k, t, j);
    }
  }

  lemma AckedBefore(n: nat, run: seq<State>, k: nat, t: nat, j: nat)
    requires IsRun(n, run) && k < |run| && t < |run[k].threads| && run[k].threads[t].GaveUp?
    requires j < run[k].threads[t].next && IsTarget(run[k].threads[t].w, n, j)
    ensures HeldOnce(run, k, j, run[k].threads[t].snapshot)
  {
    RunKeeps(n, run, k);
    AcksAreTrue(n, run, k);
    assert ThreadOk(run[k], n, t);
    assert AckTrue(run, k, (t, j));
  }

  // Server `i` has come to hold this by a write of a client at the coordinator, by a push, or by a restart.
  ghost predicate Changed(s: State, later: State, i: nat)
    requires i < |s.servers| == |later.servers|
  {
    || (exists p :: InNet(s, p) && p.target == i && p.db == later.servers[i])
    || (if i == 0 then exists w :: later.servers[0] == Apply(s.servers[0], w).0 else later.servers[i] == EMPTY)
  }

  /** A step changes one server at most. A thread's snapshot is the coordinator's database at the time it is
      taken. */
  lemma OneServerChanges(n: nat, run: seq<State>, k: nat, i: nat, j: nat, t: nat)
    requires IsRun(n, run) && k + 1 < |run| && i < n && j < n
    ensures |run[k].servers| == |run[k + 1].servers| == n
    ensures run[k].servers[i] != run[k + 1].servers[i] ==> Changed(run[k], run[k + 1], i)
    ensures run[k].servers[i] != run[k + 1].servers[i] && j != i ==> run[k].servers[j] == run[k + 1].servers[j]
    ensures |run[k].threads| <= |run[k + 1].threads|
    ensures t < |run[k].threads| && run[k].threads[t].Written? && HasSnapshot(run[k + 1].threads[t]) ==>
              run[k + 1].threads[t].snapshot == run[k].servers[0]
  {
    RunBounded(n, run, k);
    RunBounded(n, run, k + 1);
    var step := FindStep(n, run, k);
    if step.Deliver? {
      assert InNet(run[k], step.packet);
    }
  }

  // -- The handlers are runs ----------------------------------------------------------------------

  // A later state in which thread `t` is `th`, the servers hold `dbs` and every push sent has been settled.
  predicate Became(s: State, later: State, t: nat, th: Thread, dbs: seq<Db>)
    requires t < |s.threads|
  {
    later.servers == dbs && later.threads == s.threads[t := th] && later.net == s.net
  }

  function Last(run: seq<State>): State
    requires run != []
  {
    run[|run| - 1]
  }

  // How a thread goes on after a push that meets this fate.
  function GoesOn(th: Thread, fate: Fate): Thread
    requires th.Pushing?
  {
    if fate.Acked? then Pushing(th.w, th.article, th.snapshot, th.next + 1)
    else GaveUp(th.w, th.article, th.snapshot, th.next)
  }

  lemma NotYetSent(n: nat, run: seq<State>, t: nat)
    requires IsRun(n, run) && t < |Last(run).threads| && Last(run).threads[t].Pushing?
    ensures Pushed(Last(run), t) !in Last(run).net
  {
    var p := Pushed(Last(run), t);
    if InNet(Last(run), p) {
      assert SentAs(run, |run| - 1, p);
      SentExactly(n, run, |run| - 1, p);
    }
  }

  lemma PushOnce(n: nat, run: seq<State>, t: nat, th: Thread, fate: Fate) returns (longer: seq<State>)
    requires IsRun(n, run) && t < |Last(run).threads| && Last(run).threads[t] == th
    requires th.Pushing? && |Last(run).servers| == n && IsTarget(th.w, n, th.next)
    ensures IsRun(n, longer) && run <= longer
    ensures var dbs := Last(run).servers;
            Became(Last(run), Last(longer), t, GoesOn(th, fate),
                   if fate.Lost? then dbs else dbs[th.next := th.snapshot])
  {
    var p := Pushed(Last(run), t);
    NotYetSent(n, run, t);
    longer := RunOn(n, run, Send(t));
    longer := RunOn(n, longer, if fate.Lost? then Lose(p) else Deliver(p));
    longer := RunOn(n, longer, Advance(t, fate.Acked?));
  }

  // Where the pushes of a write end.
  function EndOf(w: Write, n: nat): nat
    requires n > 0
  {
    if w.Reply? then n else n - 1
  }

  predicate ServersGot(was: seq<Db>, now: seq<Db>, snapshot: Db, fates: seq<Fate>, from: nat, end: nat)
    requires from <= end <= |fates|
  {
    |now| == |was| && forall i :: 0 <= i < |was| ==> now[i] == if Reached(fates, from, end, i) then snapshot else was[i]
  }

  lemma PushRest(n: nat, run: seq<State>, t: nat, th: Thread, fates: seq<Fate>)
    returns (longer: seq<State>, end: Thread)
    requires IsRun(n, run) && t < |Last(run).threads| && Last(run).threads[t] == th
    requires th.Pushing? && Bounded(th, n) && |Last(run).servers| == n == |fates|
    ensures IsRun(n, longer) && run <= longer
    ensures Became(Last(run), Last(longer), t, end, Last(longer).servers)
    ensures ServersGot(Last(run).servers, Last(longer).servers, th.snapshot, fates, th.next, EndOf(th.w, n))
    ensures var k := FirstFailure(fates, th.next, EndOf(th.w, n));
            end == if k == EndOf(th.w, n) then Succeeded(th.w, th.article, th.snapshot)
                   else GaveUp(th.w, th.article, th.snapshot, k)
    decreases n - th.next
  {
    if th.next == EndOf(th.w, n) {
      longer := RunOn(n, run, Finish(t));
      end := Succeeded(th.w, th.article, th.snapshot);
    } else {
      longer := PushOnce(n, run, t, th, fates[th.next]);
      var next := GoesOn(th, fates[th.next]);
      if next.Pushing? {
        var half := longer;
        longer, end := PushRest(n, half, t, next, fates);
      } else {
        end := next;
      }
    }
  }

  // A write is stored, its snapshot taken at once, and every push sent and settled in turn.
  lemma WriteRun(n: nat, run: seq<State>, w: Write, fates: seq<Fate>) returns (longer: seq<State>, end: Thread)
    requires IsRun(n, run) && |Last(run).servers| == n == |fates| > 0
    ensures IsRun(n, longer) && run <= longer
    ensures Last(longer).threads == Last(run).threads + [end] && Last(longer).net == Last(run).net
    ensures var (after, outcome) := Apply(Last(run).servers[0], w);
            var first, last := if w.Reply? then 1 else 0, EndOf(w, n);
            if outcome.Stored? then
              && ServersGot(Last(run).servers[0 := after], Last(longer).servers, after, fates, first, last)
              && (end.Succeeded? <==> FirstFailure(fates, first, last) == last) && Ended(end) && !end.Refused?
            else Last(longer).servers == Last(run).servers && end.Refused?
  {
    var s := Last(run);
    longer := RunOn(n, run, Request(w));
    if !Apply(s.servers[0], w).1.Stored? {
      end := Refused;
    } else {
      var t := |s.threads|;
      longer := RunOn(n, longer, Snapshot(t));
      var half := longer;
      longer, end := PushRest(n, half, t, Last(half).threads[t], fates);
    }
  }

  lemma SameServers(was: seq<Db>, after: Db, now: seq<Db>, dbs: seq<Db>, fates: seq<Fate>, from: nat, end: nat)
    requires from <= end <= |fates| == |was| == |dbs| && was != [] && dbs[0] == after
    requires ServersGot(was[0 := after], now, after, fates, from, end)
    requires forall i :: 1 <= i < |was| ==> dbs[i] == if Reached(fates, from, end, i) then after else was[i]
    ensures dbs == now
  {
  }

  /** The handlers are runs: what a write handler at the coordinator does from start to end, whatever
      becomes of its pushes, the transition system can do from any run that has come to the same
      databases, in one thread that runs to its end; the answer is a success exactly if it ends so. */
  method ReplyIsRun(group: Group, w: Write, fates: seq<Fate>, ghost run: seq<State>)
    returns (answer: Answer, ghost longer: seq<State>, ghost end: Thread)
    requires group.Valid() && w.Reply? && |fates| == |group.dbs| && IsRun(|group.dbs|, run)
    requires Last(run).servers == group.dbs
    modifies group
    ensures group.Valid() && IsRun(|group.dbs|, longer) && run <= longer
    ensures Last(longer).servers == group.dbs
    ensures Last(longer).threads == Last(run).threads + [end] && Ended(end) && Last(longer).net == Last(run).net
    ensures answer.Success? <==> end.Succeeded?
  {
    ghost var was := group.dbs;
    ghost var stored, after := Apply(was[0], w).1.Stored?, Apply(was[0], w).0;
    longer, end := WriteRun(|was|, run, w, fates);
    StoreKeeps(group.history, was, w);
    answer := group.ReadYourWriteReply(w, fates);
    if stored {
      SameServers(was, after, Last(longer).servers, group.dbs, fates, 1, |was|);
    }
  }

  method PostIsRun(group: Group, w: Write, fates: seq<Fate>, ghost run: seq<State>)
    returns (answer: Answer, ghost longer: seq<State>, ghost end: Thread)
    requires group.Valid() && w.Post? && |fates| == |group.dbs| && IsRun(|group.dbs|, run)
    requires Last(run).servers == group.dbs
    modifies group
    ensures group.Valid() && IsRun(|group.dbs|, longer) && run <= longer
    ensures Last(longer).servers == group.dbs
    ensures Last(longer).threads == Last(run).threads + [end] && Ended(end) && Last(longer).net == Last(run).net
    ensures answer.Success? <==> end.Succeeded?
  {
    ghost var was := group.dbs;
    ghost var stored, after := Apply(was[0], w).1.Stored?, Apply(was[0], w).0;
    longer, end := WriteRun(|was|, run, w, fates);
    StoreKeeps(group.history, was, w);
    answer := group.ReadYourWritePost(w, fates);
    if stored {
      SameServers(was, after, Last(longer).servers, group.dbs, fates, 0, |was| - 1);
    }
  }
}
