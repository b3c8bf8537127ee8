/** Runs of the tracker: announcements, pings and sweeps in any order, under a clock that never goes
    back. The sweeper reads the clock first and takes the lock later. */
module TrackerRuns {
  import opened CTypes
  import opened Tracker

  // `reading` is the clock value the sweeper holds.
  datatype State = State(table: Table, clock: int, reading: int)

  datatype Step = Pass | ReadClock | SweepOnce | Announce(peer: Peer, files: seq<FileInfo>) | Ping(peer: Peer)

  ghost predicate Init(s: State) {
    |s.table| == MAX_PEERS && (forall i :: 0 <= i < MAX_PEERS ==> !s.table[i].active) && s.reading <= s.clock
  }

  ghost predicate Next(s: State, step: Step, s': State) {
    match step
    case Pass => s'.table == s.table && s'.reading == s.reading && s.clock <= s'.clock
    case ReadClock => s' == s.(reading := s.clock)
    case SweepOnce => s'.clock == s.clock && s'.reading == s.reading && Sweeps(s.table, s'.table, s.reading)
    case Announce(p, files) =>
      |files| <= MAX_FILES && s'.clock == s.clock && s'.reading == s.reading
      && Announces(s.table, s'.table, p, files, s.clock)
    case Ping(p) => s'.clock == s.clock && s'.reading == s.reading && Refreshes(s.table, s'.table, p, s.clock)
  }

  ghost predicate IsRun(run: seq<State>, steps: seq<Step>) {
    && |run| == |steps| + 1 && Init(run[0])
    && forall k :: 0 <= k < |steps| ==> Next(run[k], steps[k], run[k + 1])
  }

  predicate Inv(s: State) {
    && |s.table| == MAX_PEERS && Distinct(s.table) && s.reading <= s.clock
    && forall i :: 0 <= i < |s.table| && s.table[i].active ==> s.table[i].timestamp <= s.clock
  }

  lemma StepKeeps(s: State, step: Step, s': State)
    requires Inv(s) && Next(s, step, s')
    ensures Inv(s')
  {
  }

  /** In every run the active slots hold different peers and no timestamp or reading is ahead of the
      clock. */
  lemma {:induction false} RunKeeps(run: seq<State>, steps: seq<Step>, k: nat)
    requires IsRun(run, steps) && k < |run|
    ensures Inv(run[k])
  {
    if k > 0 {
      RunKeeps(run, steps, k - 1);
      StepKeeps(run[k - 1], steps[k - 1], run[k]);
    }
  }

  predicate Contact(step: Step, p: Peer) {
    (step.Announce? || step.Ping?) && SameHost(p, step.peer)
  }

  // The slot holds `p`, which was last heard of at `since` or later.
  predicate HeardSince(t: Table, i: nat, p: Peer, since: int) {
    i < |t| && Holds(t[i], p) && since <= t[i].timestamp
  }

  lemma ContactRefreshes(s: State, step: Step, s': State, i: nat, p: Peer)
    requires Inv(s) && Next(s, step, s') && Contact(step, p)
    requires i < |s.table| && Holds(s.table[i], p)
    ensures HeardSince(s'.table, i, p, s'.clock)
  {
  }

  lemma OtherStepKeeps(s: State, step: Step, s': State, i: nat, p: Peer, since: int)
    requires Inv(s) && Next(s, step, s') && !Contact(step, p)
    requires HeardSince(s.table, i, p, since)
    requires step.SweepOnce? ==> s.clock - since <= TIMEOUT
    ensures HeardSince(s'.table, i, p, since)
  {
  }

  // The last contact with `p` at or before state `k`, counting from state `m`.
  function LastContact(steps: seq<Step>, p: Peer, m: nat, k: nat): (j: nat)
    requires m <= k <= |steps|
    ensures m <= j <= k
  {
    if m == k then m
    else if Contact(steps[k - 1], p) then k
    else LastContact(steps, p, m, k - 1)
  }

  // At state `k`, at most five seconds have passed since the last contact.
  predicate InTouch(run: seq<State>, steps: seq<Step>, p: Peer, m: nat, k: nat)
    requires |run| == |steps| + 1 && m <= k <= |steps|
  {
    run[k].clock - run[LastContact(steps, p, m, k)].clock <= TIMEOUT
  }

  predicate StaysInTouch(run: seq<State>, steps: seq<Step>, p: Peer, m: nat, k: nat)
    requires |run| == |steps| + 1 && m <= k <= |steps|
  {
    forall n :: m <= n < k ==> InTouch(run, steps, p, m, n)
  }

  // The slot `i` holds `p` at state `k`, no older than the last contact.
  predicate Current(run: seq<State>, steps: seq<Step>, p: Peer, m: nat, k: nat, i: nat)
    requires |run| == |steps| + 1 && m <= k <= |steps|
  {
    HeardSince(run[k].table, i, p, run[LastContact(steps, p, m, k)].clock)
  }

  lemma CurrentNext(run: seq<State>, steps: seq<Step>, p: Peer, m: nat, k: nat, i: nat)
    requires |run| == |steps| + 1 && m <= k < |steps|
    requires Inv(run[k]) && Next(run[k], steps[k], run[k + 1])
    requires Current(run, steps, p, m, k, i) && InTouch(run, steps, p, m, k)
    ensures Current(run, steps, p, m, k + 1, i)
  {
    if Contact(steps[k], p) {
      ContactRefreshes(run[k], steps[k], run[k + 1], i, p);
    } else {
      OtherStepKeeps(run[k], steps[k], run[k + 1], i, p, run[LastContact(steps, p, m, k)].clock);
    }
  }

  /** A peer that is known just after a contact and then stays in touch keeps its slot, whatever else
      happens and however old the sweeper's clock readings are. */
  lemma {:induction false} NeverEvicted(run: seq<State>, steps: seq<Step>, p: Peer, m: nat, k: nat, i: nat)
    requires IsRun(run, steps) && 1 <= m <= k <= |steps|
    requires Contact(steps[m - 1], p) && i < |run[m].table| && Holds(run[m].table[i], p)
    requires StaysInTouch(run, steps, p, m, k)
    ensures Current(run, steps, p, m, k, i)
    decreases k
  {
    if m == k {
      JustContacted(run, steps, p, m, i);
    } else {
      NeverEvicted(run, steps, p, m, k - 1, i);
      RunKeeps(run, steps, k - 1);
      assert InTouch(run, steps, p, m, k - 1);
      CurrentNext(run, steps, p, m, k - 1, i);
    }
  }

  lemma JustContacted(run: seq<State>, steps: seq<Step>, p: Peer, m: nat, i: nat)
    requires IsRun(run, steps) && 1 <= m <= |steps|
    requires Contact(steps[m - 1], p) && i < |run[m].table| && Holds(run[m].table[i], p)
    ensures HeardSince(run[m].table, i, p, run[m].clock)
  {
    RunKeeps(run, steps, m - 1);
    RunKeeps(run, steps, m);
  }

  /** What one sweep does to a peer: it stays known exactly if the clock value the sweeper holds is at
      most five seconds past its last contact. */
  lemma SweptIff(s: State, s': State, p: Peer, i: nat)
    requires Inv(s) && Next(s, SweepOnce, s') && i < |s.table| && Holds(s.table[i], p)
    ensures Known(s'.table, p) <==> s.reading - s.table[i].timestamp <= TIMEOUT
  {
    if s.reading - s.table[i].timestamp <= TIMEOUT {
      assert Holds(s'.table[i], p);
    } else {
      forall j | 0 <= j < |s'.table| ensures !Holds(s'.table[j], p) {
        assert j != i && s.table[j].active ==> !SameHost(s.table[j].peer, s.table[i].peer);
      }
    }
  }

  predicate Silent(steps: seq<Step>, p: Peer, m: nat, k: nat)
    requires m <= k <= |steps|
  {
    forall n :: m <= n < k ==> !Contact(steps[n], p)
  }

  lemma StepAddsNobody(s: State, step: Step, s': State, p: Peer)
    requires Next(s, step, s') && !Contact(step, p) && !Known(s.table, p)
    ensures !Known(s'.table, p)
  {
    forall i | 0 <= i < |s'.table| ensures !Holds(s'.table[i], p) {
      assert i < |s.table| ==> !Holds(s.table[i], p);
    }
  }

  lemma {:induction false} SilentKeepsTimestamp(run: seq<State>, steps: seq<Step>, p: Peer, m: nat, k: nat, i: nat)
    requires IsRun(run, steps) && m <= k <= |steps| && Silent(steps, p, m, k)
    requires i < |run[m].table| && Holds(run[m].table[i], p)
    ensures Known(run[k].table, p) ==>
              i < |run[k].table| && Holds(run[k].table[i], p) && run[k].table[i].timestamp == run[m].table[i].timestamp
    decreases k
  {
    if m < k {
      SilentKeepsTimestamp(run, steps, p, m, k - 1, i);
      RunKeeps(run, steps, k - 1);
      if Known(run[k - 1].table, p) {
        SilentStep(run[k - 1], steps[k - 1], run[k], p, i);
      } else {
        StepAddsNobody(run[k - 1], steps[k - 1], run[k], p);
      }
    }
  }

  lemma SilentStep(s: State, step: Step, s': State, p: Peer, i: nat)
    requires Inv(s) && Next(s, step, s') && !Contact(step, p) && i < |s.table| && Holds(s.table[i], p)
    ensures Known(s'.table, p) ==> Holds(s'.table[i], p) && s'.table[i].timestamp == s.table[i].timestamp
  {
    if step.SweepOnce? {
      SweptIff(s, s', p, i);
    }
  }

  // What the clock showed when the sweeper last read it before step `k`.
  function ReadAt(run: seq<State>, steps: seq<Step>, k: nat): int
    requires |run| == |steps| + 1 && k <= |steps|
  {
    if k == 0 then run[0].reading
    else if steps[k - 1].ReadClock? then run[k - 1].clock
    else ReadAt(run, steps, k - 1)
  }

  lemma {:induction false} ReadingIs(run: seq<State>, steps: seq<Step>, k: nat)
    requires IsRun(run, steps) && k <= |steps|
    ensures run[k].reading == ReadAt(run, steps, k)
  {
    if k > 0 {
      ReadingIs(run, steps, k - 1);
      assert Next(run[k - 1], steps[k - 1], run[k]);
    }
  }

  // No sweep at steps m..k-1 had last read the clock more than five seconds after `since`.
  predicate NotSwept(run: seq<State>, steps: seq<Step>, since: int, m: nat, k: nat)
    requires |run| == |steps| + 1 && m <= k <= |steps|
  {
    forall b :: m <= b < k && steps[b].SweepOnce? ==> ReadAt(run, steps, b) - since <= 5
  }

  lemma NotSweptNext(run: seq<State>, steps: seq<Step>, since: int, m: nat, k: nat)
    requires |run| == |steps| + 1 && m <= k < |steps|
    ensures NotSwept(run, steps, since, m, k + 1) <==>
            NotSwept(run, steps, since, m, k) && (steps[k].SweepOnce? ==> ReadAt(run, steps, k) - since <= 5)
  {
  }

  /** When a silent peer goes: after a contact at time `run[m].clock` and none since, it is still known
      exactly as long as no sweep had last read the clock more than five seconds past that time. */
  lemma {:induction false} SilentPeerLeaves(run: seq<State>, steps: seq<Step>, p: Peer, m: nat, k: nat, i: nat)
    requires IsRun(run, steps) && 1 <= m <= k <= |steps|
    requires Contact(steps[m - 1], p) && i < |run[m].table| && Holds(run[m].table[i], p)
    requires Silent(steps, p, m, k)
    ensures Known(run[k].table, p) <==> NotSwept(run, steps, run[m].clock, m, k)
    decreases k
  {
    JustContacted(run, steps, p, m, i);
    RunKeeps(run, steps, m);
    if m < k {
      SilentPeerLeaves(run, steps, p, m, k - 1, i);
      SilentKeepsTimestamp(run, steps, p, m, k - 1, i);
      RunKeeps(run, steps, k - 1);
      ReadingIs(run, steps, k - 1);
      SilentLeavesAt(run[k - 1], steps[k - 1], run[k], p, i, run[m].clock);
      NotSweptNext(run, steps, run[m].clock, m, k - 1);
    }
  }

  lemma SilentLeavesAt(s: State, step: Step, s': State, p: Peer, i: nat, since: int)
    requires Inv(s) && Next(s, step, s') && !Contact(step, p)
    requires Known(s.table, p) ==> i < |s.table| && Holds(s.table[i], p) && s.table[i].timestamp == since
    ensures Known(s'.table, p) <==> Known(s.table, p) && (step.SweepOnce? ==> s.reading - since <= TIMEOUT)
  {
    if !Known(s.table, p) {
      StepAddsNobody(s, step, s', p);
    } else if step.SweepOnce? {
      SweptIff(s, s', p, i);
    } else {
      OtherStepKeeps(s, step, s', i, p, since);
    }
  }
}
