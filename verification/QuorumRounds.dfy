/** What one server's synchronisation achieves: undisturbed rounds, and pulls that fail. */
module QuorumRounds {
  import opened CTypes
  import opened Database
  import opened Board
  import opened QuorumSync

  // -- A round without failures -------------------------------------------------------------------

  // Backup, pull and compare at server `i`.
  function AskingSteps(i: nat): seq<Step> { [TakeBackup(i), PullFrom(i, true), CompareAndRestore(i)] }

  function Repeated(i: nat, times: nat): (steps: seq<Step>)
    ensures |steps| == 3 * times
  {
    if times == 0 then [] else AskingSteps(i) + Repeated(i, times - 1)
  }

  // The database server `i` keeps after looking at `other`.
  function Newer(own: Db, other: Db): Db { if other.version > own.version then other else own }

  lemma AskOnce(run: seq<State>, steps: seq<Step>, i: nat) returns (longer: seq<State>, more: seq<Step>)
    requires IsRun(run, steps) && Sized(run[|steps|]) && i < |run[|steps|].dbs|
    requires run[|steps|].syncs[i].phase.Backup?
    ensures IsRun(longer, more) && run <= longer && more == steps + AskingSteps(i)
    ensures var s, t := run[|steps|], longer[|more|];
            var y := s.syncs[i];
            && Sized(t) && t.dbs == s.dbs[i := Newer(s.dbs[i], s.dbs[y.at])]
            && t.syncs[i].phase.Backup?
            && if y.at + 1 < |s.dbs| then t.syncs[i].at == y.at + 1 && t.syncs[i].clean == y.clean
               else t.syncs[i].at == 0 && (y.clean ==> t.syncs[i].done)
  {
    longer, more := RunOn(run, steps, TakeBackup(i));
    longer, more := RunOn(longer, more, PullFrom(i, true));
    longer, more := RunOn(longer, more, CompareAndRestore(i));
  }

  // `x` is the newest of what `i` and the servers from `at` on hold; `i` keeps its own if none is newer.
  predicate Newest(dbs: seq<Db>, i: nat, at: nat, x: Db)
    requires i < |dbs|
  {
    && x in dbs && dbs[i].version <= x.version && (dbs[i].version == x.version ==> x == dbs[i])
    && forall j :: at <= j < |dbs| ==> dbs[j].version <= x.version
  }

  lemma NewestNext(dbs: seq<Db>, i: nat, at: nat, x: Db)
    requires i < |dbs| && at < |dbs|
    requires Newest(dbs[i := Newer(dbs[i], dbs[at])], i, at + 1, x)
    ensures Newest(dbs, i, at, x)
  {
    var next := dbs[i := Newer(dbs[i], dbs[at])];
    var k :| 0 <= k < |next| && next[k] == x;
    forall j | at <= j < |dbs| ensures dbs[j].version <= x.version {
      assert j > at ==> next[j].version <= x.version;
    }
  }

  lemma RestOfRound(run: seq<State>, steps: seq<Step>, i: nat, at: nat)
    returns (longer: seq<State>, more: seq<Step>, x: Db)
    requires IsRun(run, steps) && Sized(run[|steps|]) && i < |run[|steps|].dbs|
    requires run[|steps|].syncs[i].phase.Backup? && run[|steps|].syncs[i].clean && run[|steps|].syncs[i].at == at
    ensures at < |run[|steps|].dbs|
    ensures IsRun(longer, more) && run <= longer && more == steps + Repeated(i, |run[|steps|].dbs| - at)
    ensures var s, t := run[|steps|], longer[|more|];
            && Sized(t) && t.dbs == s.dbs[i := x] && Newest(s.dbs, i, at, x)
            && t.syncs[i].phase.Backup? && t.syncs[i].at == 0 && t.syncs[i].done
    decreases |run[|steps|].dbs| - at
  {
    var s := run[|steps|];
    longer, more := AskOnce(run, steps, i);
    if at + 1 < |s.dbs| {
      var half, some := longer, more;
      longer, more, x := RestOfRound(half, some, i, at + 1);
      assert steps + AskingSteps(i) + Repeated(i, |s.dbs| - at - 1) == steps + Repeated(i, |s.dbs| - at);
      NewestNext(s.dbs, i, at, x);
    } else {
      x := Newer(s.dbs[i], s.dbs[at]);
      assert Repeated(i, 1) == AskingSteps(i) + Repeated(i, 0);
      LastOfRound(s.dbs, i);
    }
  }

  lemma LastOfRound(dbs: seq<Db>, i: nat)
    requires i < |dbs|
    ensures Newest(dbs, i, |dbs| - 1, Newer(dbs[i], dbs[|dbs| - 1]))
  {
  }

  /** Synchronisation works where it is left alone: from every run in which server `i` stands before a
      round, n times backup, pull and compare complete the round, no other database changes, and `i` then
      holds the newest database of the group, its own if none is newer. */
  lemma RoundCompletes(run: seq<State>, steps: seq<Step>, i: nat)
    returns (longer: seq<State>, more: seq<Step>, x: Db)
    requires IsRun(run, steps) && Sized(run[|steps|]) && i < |run[|steps|].dbs|
    requires run[|steps|].syncs[i].phase.Backup? && run[|steps|].syncs[i].clean && run[|steps|].syncs[i].at == 0
    ensures IsRun(longer, more) && run <= longer && more == steps + Repeated(i, |run[|steps|].dbs|)
    ensures var s, t := run[|steps|], longer[|more|];
            && |t.dbs| == |t.syncs| == |s.dbs| && t.syncs[i].done && t.dbs[i] == x && x in s.dbs
            && (forall j :: 0 <= j < |s.dbs| && j != i ==> t.dbs[j] == s.dbs[j])
            && (forall j :: 0 <= j < |s.dbs| ==> s.dbs[j].version <= x.version)
            && (s.dbs[i].version == x.version ==> x == s.dbs[i])
  {
    longer, more, x := RestOfRound(run, steps, i, 0);
  }

  // -- Pulls that fail ----------------------------------------------------------------------------

  // What a server received earlier is never newer than what it holds or has backed up.
  predicate NothingStale(db: Db, y: Sync) {
    && (!y.phase.Backup? ==> y.local <= db.version)
    && (y.received.Some? && y.phase.Backup? ==> y.received.value.version <= db.version)
    && (y.received.Some? && y.phase.Pull? ==> y.received.value.version <= y.local)
  }

  predicate NoneStale(s: State) {
    Sized(s) && forall i :: 0 <= i < |s.dbs| ==> NothingStale(s.dbs[i], s.syncs[i])
  }

  lemma NoneStaleNext(s: State, step: Step)
    requires NoneStale(s) && Enabled(s, step)
    ensures NoneStale(Do(s, step))
  {
    assert NothingStale(s.dbs[step.server], s.syncs[step.server]);
    if step.Store? {
      WriteRaises(s.dbs[step.server], step.w);
    }
  }

  lemma {:induction false} RunNoneStale(run: seq<State>, steps: seq<Step>, k: nat)
    requires IsRun(run, steps) && k < |run|
    ensures NoneStale(run[k])
  {
    if k > 0 {
      RunNoneStale(run, steps, k - 1);
      NoneStaleNext(run[k - 1], steps[k - 1]);
    }
  }

  // From state `k` to state `m` server `i` waits to compare.
  predicate ComparesLater(steps: seq<Step>, i: nat, k: nat, m: nat) {
    k <= m <= |steps| && forall l :: k <= l < m ==> steps[l] != CompareAndRestore(i)
  }

  lemma {:induction false} SyncWaits(run: seq<State>, steps: seq<Step>, i: nat, k: nat, m: nat)
    requires IsRun(run, steps) && ComparesLater(steps, i, k, m)
    requires Sized(run[k]) && i < |run[k].syncs| && run[k].syncs[i].phase.Compare?
    ensures Sized(run[m]) && i < |run[m].syncs| && run[m].syncs[i] == run[k].syncs[i]
    decreases m
  {
    if k < m {
      SyncWaits(run, steps, i, k, m - 1);
    }
  }

  /** A failed pull does no harm: the database received earlier is still in place and is compared again,
      but it is never taken over. */
  lemma FailedPullTakesNothing(run: seq<State>, steps: seq<Step>, i: nat, k: nat, m: nat)
    requires IsRun(run, steps) && k < m < |steps|
    requires steps[k] == PullFrom(i, false) && steps[m] == CompareAndRestore(i) && ComparesLater(steps, i, k + 1, m)
    ensures |run[k].syncs| == |run[m].syncs| && i < |run[k].syncs|
    ensures run[m].syncs[i].received == run[k].syncs[i].received
    ensures run[m + 1].dbs == run[m].dbs
  {
    RunSized(run, steps, k);
    RunSized(run, steps, k + 1);
    RunSized(run, steps, m);
    RunNoneStale(run, steps, k);
    assert NothingStale(run[k].dbs[i], run[k].syncs[i]);
    SyncWaits(run, steps, i, k + 1, m);
  }
}
