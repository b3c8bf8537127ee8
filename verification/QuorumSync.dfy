/** The QUORUM protocol as it runs: writes go to the server that receives them and to no other, and
    every server has a thread that pulls the other databases in turn and takes over higher versions.

    The thread's backup, pull and compare-and-restore are separate steps, and the threads of all
    servers interleave between them. */
module QuorumSync {
  import opened Board
  import opened CTypes
  import opened Database

  datatype Phase = Backup | Pull | Compare

  // `at` is the server asked next; a failed pull leaves `received` as it was. `clean` says that no
  // pull of this round has failed so far, `done` that some whole round had no failed pull.
  datatype Sync = Sync(phase: Phase, at: nat, local: int, received: Option<Db>, clean: bool, done: bool)

  datatype State = State(dbs: seq<Db>, syncs: seq<Sync>)

  datatype Step =
    | TakeBackup(server: nat)
    | PullFrom(server: nat, ok: bool)
    | CompareAndRestore(server: nat)
    | Store(server: nat, w: Write)

  predicate Sized(s: State) {
    |s.dbs| == |s.syncs| && forall i :: 0 <= i < |s.syncs| ==> s.syncs[i].at < |s.dbs|
  }

  predicate Enabled(s: State, step: Step) {
    && Sized(s) && step.server < |s.dbs|
    && match step
       case TakeBackup(i) => s.syncs[i].phase.Backup?
       case PullFrom(i, _) => s.syncs[i].phase.Pull?
       case CompareAndRestore(i) => s.syncs[i].phase.Compare?
       case Store(_, _) => true
  }

  function Do(s: State, step: Step): (t: State)
    requires Enabled(s, step)
    ensures |t.dbs| == |s.dbs| && Sized(t)
  {
    match step
    case TakeBackup(i) =>
      s.(syncs := s.syncs[i := s.syncs[i].(phase := Pull, local := s.dbs[i].version)])
    case PullFrom(i, ok) =>
      var y := s.syncs[i];
      s.(syncs := s.syncs[i := if ok then y.(phase := Compare, received := Some(s.dbs[y.at]))
                               else y.(phase := Compare, clean := false)])
    case CompareAndRestore(i) =>
      State(if Restores(s.syncs[i]) then s.dbs[i := s.syncs[i].received.value] else s.dbs,
            s.syncs[i := NextServer(s.syncs[i], |s.dbs|)])
    case Store(i, w) => s.(dbs := s.dbs[i := Apply(s.dbs[i], w).0])
  }

  predicate Restores(y: Sync) { y.received.Some? && y.received.value.version > y.local }

  function NextServer(y: Sync, n: nat): Sync {
    if y.at + 1 < n then y.(phase := Backup, at := y.at + 1)
    else y.(phase := Backup, at := 0, clean := true, done := y.done || y.clean)
  }

  function Init(dbs: seq<Db>): State {
    State(dbs, seq(|dbs|, _ => Sync(Backup, 0, 0, None, true, false)))
  }

  ghost predicate IsRun(run: seq<State>, steps: seq<Step>) {
    && |run| == |steps| + 1 && run[0].dbs != [] && run[0] == Init(run[0].dbs)
    && forall k :: 0 <= k < |steps| ==> Enabled(run[k], steps[k]) && run[k + 1] == Do(run[k], steps[k])
  }

  predicate Quiet(steps: seq<Step>) { forall k :: 0 <= k < |steps| ==> !steps[k].Store? }

  // -- Without new writes -------------------------------------------------------------------------

  // Server `m` holds the highest version.
  predicate Top(dbs: seq<Db>, m: nat) {
    m < |dbs| && forall i :: 0 <= i < |dbs| ==> dbs[i].version <= dbs[m].version
  }

  predicate DbOk(start: seq<Db>, m: nat, i: nat, db: Db)
    requires m < |start| && i < |start|
  {
    db in start && start[i].version <= db.version <= start[m].version
  }

  predicate SyncOk(start: seq<Db>, m: nat, db: Db, y: Sync)
    requires m < |start|
  {
    && (y.received.Some? ==> y.received.value in start && y.received.value.version <= start[m].version)
    && (!y.phase.Backup? ==> y.local == db.version)
    && (y.clean && y.at == m && y.phase.Compare? ==> y.received.Some? && y.received.value.version == start[m].version)
    && (y.done || (y.clean && y.at > m) ==> db.version == start[m].version)
  }

  predicate Inv(start: seq<Db>, m: nat, s: State)
    requires m < |start|
  {
    && Sized(s) && |s.dbs| == |start|
    && (forall i :: 0 <= i < |start| ==> DbOk(start, m, i, s.dbs[i]))
    && (forall i :: 0 <= i < |start| ==> SyncOk(start, m, s.dbs[i], s.syncs[i]))
  }

  lemma InitOk(start: seq<Db>, m: nat)
    requires Top(start, m)
    ensures Inv(start, m, Init(start))
  {
  }

  lemma PullKeeps(start: seq<Db>, m: nat, s: State, i: nat, ok: bool)
    requires Top(start, m) && Inv(start, m, s) && Enabled(s, PullFrom(i, ok))
    ensures Inv(start, m, Do(s, PullFrom(i, ok)))
  {
    assert DbOk(start, m, s.syncs[i].at, s.dbs[s.syncs[i].at]);
    assert SyncOk(start, m, s.dbs[i], s.syncs[i]);
    assert DbOk(start, m, m, s.dbs[m]);
  }

  lemma CompareKeeps(start: seq<Db>, m: nat, s: State, i: nat)
    requires Top(start, m) && Inv(start, m, s) && Enabled(s, CompareAndRestore(i))
    ensures Inv(start, m, Do(s, CompareAndRestore(i)))
    ensures s.dbs[i].version <= Do(s, CompareAndRestore(i)).dbs[i].version
  {
    assert SyncOk(start, m, s.dbs[i], s.syncs[i]);
    assert DbOk(start, m, i, s.dbs[i]);
  }

  lemma StepKeeps(start: seq<Db>, m: nat, s: State, step: Step)
    requires Top(start, m) && Inv(start, m, s) && Enabled(s, step) && !step.Store?
    ensures Inv(start, m, Do(s, step))
    ensures forall i :: 0 <= i < |s.dbs| ==> s.dbs[i].version <= Do(s, step).dbs[i].version
  {
    match step
    case TakeBackup(i) => assert SyncOk(start, m, s.dbs[i], s.syncs[i]);
    case PullFrom(i, ok) => PullKeeps(start, m, s, i, ok);
    case CompareAndRestore(i) => CompareKeeps(start, m, s, i);
  }

  lemma {:induction false} QuietRunKeeps(run: seq<State>, steps: seq<Step>, m: nat, k: nat)
    requires IsRun(run, steps) && Quiet(steps) && k < |run| && Top(run[0].dbs, m)
    ensures Inv(run[0].dbs, m, run[k])
  {
    if k == 0 {
      InitOk(run[0].dbs, m);
    } else {
      QuietRunKeeps(run, steps, m, k - 1);
      StepKeeps(run[0].dbs, m, run[k - 1], steps[k - 1]);
    }
  }

  /** Synchronisation without new writes, in any interleaving and with any failed pulls: no version
      ever falls, the highest version stays what it was, every database is one of the original ones,
      and a server that has completed a round of successful pulls holds the highest version. */
  lemma SyncRaises(run: seq<State>, steps: seq<Step>, m: nat, k: nat, i: nat)
    requires IsRun(run, steps) && Quiet(steps) && Top(run[0].dbs, m)
    requires k < |run| && i < |run[0].dbs|
    ensures Sized(run[k]) && |run[k].dbs| == |run[0].dbs|
    ensures Top(run[k].dbs, m) && run[k].dbs[m].version == run[0].dbs[m].version
    ensures run[k].dbs[i] in run[0].dbs
    ensures k + 1 < |run| ==> i < |run[k + 1].dbs| && run[k].dbs[i].version <= run[k + 1].dbs[i].version
    ensures run[k].syncs[i].done ==> run[k].dbs[i].version == run[0].dbs[m].version
  {
    var start := run[0].dbs;
    QuietRunKeeps(run, steps, m, k);
    assert DbOk(start, m, i, run[k].dbs[i]) && DbOk(start, m, m, run[k].dbs[m]);
    assert SyncOk(start, m, run[k].dbs[i], run[k].syncs[i]);
    forall j | 0 <= j < |start| ensures run[k].dbs[j].version <= run[k].dbs[m].version {
      assert DbOk(start, m, j, run[k].dbs[j]);
    }
    if k + 1 < |run| {
      StepKeeps(start, m, run[k], steps[k]);
    }
  }

  /** If all servers with the highest version started out alike, servers that have completed such a
      round agree on the whole database. */
  lemma SyncAgrees(run: seq<State>, steps: seq<Step>, m: nat, k: nat, i: nat)
    requires IsRun(run, steps) && Quiet(steps) && Top(run[0].dbs, m)
    requires TopAlike(run[0].dbs, m)
    requires k < |run| && i < |run[0].dbs|
    ensures Sized(run[k]) && |run[k].dbs| == |run[0].dbs|
    ensures run[k].syncs[i].done ==> run[k].dbs[i] == run[0].dbs[m]
  {
    SyncRaises(run, steps, m, k, i);
  }

  /** A server that starts at the highest version keeps its own database. */
  lemma {:induction false} TopStays(run: seq<State>, steps: seq<Step>, m: nat, k: nat, i: nat)
    requires IsRun(run, steps) && Quiet(steps) && Top(run[0].dbs, m) && k < |run|
    requires i < |run[0].dbs| && run[0].dbs[i].version == run[0].dbs[m].version
    ensures |run[k].dbs| == |run[0].dbs| && run[k].dbs[i] == run[0].dbs[i]
  {
    if k > 0 {
      TopStays(run, steps, m, k - 1, i);
      QuietRunKeeps(run, steps, m, k - 1);
      assert SyncOk(run[0].dbs, m, run[k - 1].dbs[i], run[k - 1].syncs[i]);
    }
  }

  predicate AllDone(s: State) { forall i :: 0 <= i < |s.syncs| ==> s.syncs[i].done }

  predicate AllAlike(dbs: seq<Db>) { forall i, j :: 0 <= i < j < |dbs| ==> dbs[i] == dbs[j] }

  // All databases of the highest version are the same.
  predicate TopAlike(dbs: seq<Db>, m: nat)
    requires m < |dbs|
  {
    forall j :: 0 <= j < |dbs| && dbs[j].version == dbs[m].version ==> dbs[j] == dbs[m]
  }

  /** Once every server has completed a round of successful pulls, all agree if and only if the
      databases of the highest version were the same to start with. */
  lemma AgreeExactly(run: seq<State>, steps: seq<Step>, m: nat, k: nat)
    requires IsRun(run, steps) && Quiet(steps) && Top(run[0].dbs, m) && k < |run| && AllDone(run[k])
    ensures AllAlike(run[k].dbs) <==> TopAlike(run[0].dbs, m)
  {
    var start := run[0].dbs;
    if TopAlike(start, m) {
      forall i | 0 <= i < |start| ensures |run[k].dbs| == |start| && run[k].dbs[i] == start[m] {
        SyncAgrees(run, steps, m, k, i);
      }
      TopStays(run, steps, m, k, m);
    }
    if AllAlike(run[k].dbs) {
      TopStays(run, steps, m, k, m);
      forall j | 0 <= j < |start| && start[j].version == start[m].version ensures start[j] == start[m] {
        TopStays(run, steps, m, k, j);
      }
    }
  }

  // -- Equal versions, different contents ---------------------------------------------------------

  /** Where all versions are equal, synchronisation never changes anything, so servers that differ at
      equal versions differ for ever. */
  lemma {:induction false} EqualVersionsStay(run: seq<State>, steps: seq<Step>, k: nat)
    requires IsRun(run, steps) && Quiet(steps) && k < |run|
    requires forall i, j :: 0 <= i < j < |run[0].dbs| ==> run[0].dbs[i].version == run[0].dbs[j].version
    ensures run[k].dbs == run[0].dbs
  {
    if k > 0 {
      EqualVersionsStay(run, steps, k - 1);
      QuietRunKeeps(run, steps, 0, k - 1);
      var s, step := run[k - 1], steps[k - 1];
      assert SyncOk(run[0].dbs, 0, s.dbs[step.server], s.syncs[step.server]);
    }
  }

  function StateAfter(s: State, steps: seq<Step>): State
    requires Possible(s, steps)
    decreases |steps|
  {
    if steps == [] then s else StateAfter(Do(s, steps[0]), steps[1..])
  }

  predicate Possible(s: State, steps: seq<Step>)
    decreases |steps|
  {
    steps == [] || (Enabled(s, steps[0]) && Possible(Do(s, steps[0]), steps[1..]))
  }

  /** Two clients that post to two servers leave them at equal versions with different contents. */
  lemma PostsDiverge(a: Text, b: Text)
    requires a != b
    ensures var steps := [Store(0, Post(a, [], [])), Store(1, Post(b, [], []))];
            && Possible(Init([EMPTY, EMPTY]), steps)
            && var dbs := StateAfter(Init([EMPTY, EMPTY]), steps).dbs;
               |dbs| == 2 && dbs[0].version == dbs[1].version == 1 && dbs[0] != dbs[1]
  {
    OnePost(a);
    OnePost(b);
    var s0 := Init([EMPTY, EMPTY]);
    var steps := [Store(0, Post(a, [], [])), Store(1, Post(b, [], []))];
    var s1 := Do(s0, steps[0]);
    assert steps[1..] == [steps[1]];
    assert Possible(s1, steps[1..]) by {
      assert steps[1..][1..] == [];
    }
    assert StateAfter(s1, steps[1..]) == Do(s1, steps[1]) by {
      assert steps[1..][1..] == [];
    }
    assert Do(s1, steps[1]).dbs[0].nodes[0] != Do(s1, steps[1]).dbs[1].nodes[0];
  }

  // -- Writes during synchronisation --------------------------------------------------------------

  lemma {:induction false} RunSized(run: seq<State>, steps: seq<Step>, k: nat)
    requires IsRun(run, steps) && k < |run|
    ensures Sized(run[k]) && |run[k].dbs| == |run[0].dbs|
  {
    if k > 0 {
      RunSized(run, steps, k - 1);
    }
  }

  lemma WriteRaises(db: Db, w: Write)
    ensures Apply(db, w).0.version == db.version + if Apply(db, w).1.Stored? then 1 else 0
  {
  }

  predicate StoresAt(s: State, step: Step, i: nat)
    requires i < |s.dbs|
  {
    step.Store? && step.server == i && Apply(s.dbs[i], step.w).1.Stored?
  }

  // How many of the steps from..end-1 store a write at server `i`.
  ghost function StoredSince(run: seq<State>, steps: seq<Step>, i: nat, from: nat, end: nat): nat
    requires from <= end <= |steps| < |run|
    requires forall n :: 0 <= n < |run| ==> i < |run[n].dbs|
    decreases end
  {
    if from == end then 0
    else StoredSince(run, steps, i, from, end - 1) + if StoresAt(run[end - 1], steps[end - 1], i) then 1 else 0
  }

  // Server `i` restores at step `k` what it compares with the backup it took at step `b`.
  ghost predicate BackupFor(steps: seq<Step>, i: nat, b: nat, k: nat) {
    && b < k < |steps| && steps[b] == TakeBackup(i) && steps[k] == CompareAndRestore(i)
    && forall n :: b < n < k ==> !(steps[n].TakeBackup? && steps[n].server == i)
  }

  // Server `i` is at work on a backup of this version, and `count` writes were stored there since.
  predicate AtWork(s: State, i: nat, version: int, count: nat)
    requires Sized(s) && i < |s.dbs|
  {
    !s.syncs[i].phase.Backup? ==> s.syncs[i].local == version && s.dbs[i].version == version + count
  }

  lemma AtWorkNext(s: State, step: Step, i: nat, version: int, count: nat)
    requires Enabled(s, step) && i < |s.dbs| && !(step.TakeBackup? && step.server == i) && AtWork(s, i, version, count)
    ensures AtWork(Do(s, step), i, version, count + if StoresAt(s, step, i) then 1 else 0)
  {
    if step.Store? {
      WriteRaises(s.dbs[step.server], step.w);
    }
  }

  lemma {:induction false} SinceBackup(run: seq<State>, steps: seq<Step>, i: nat, b: nat, k: nat, n: nat)
    requires IsRun(run, steps) && BackupFor(steps, i, b, k) && b < n <= k
    requires forall j :: 0 <= j < |run| ==> Sized(run[j]) && i < |run[j].dbs|
    ensures AtWork(run[n], i, run[b].dbs[i].version, StoredSince(run, steps, i, b, n))
    decreases n
  {
    if n == b + 1 {
      assert StoredSince(run, steps, i, b, b) == 0;
    } else {
      SinceBackup(run, steps, i, b, k, n - 1);
      AtWorkNext(run[n - 1], steps[n - 1], i, run[b].dbs[i].version, StoredSince(run, steps, i, b, n - 1));
    }
  }

  /** Only a restore lowers a version, and it does so exactly if the restored version is above the
      backup's, but by less than the number of writes stored since the backup was taken. */
  lemma FallsExactly(run: seq<State>, steps: seq<Step>, i: nat, b: nat, k: nat)
    requires IsRun(run, steps) && i < |run[0].dbs| && BackupFor(steps, i, b, k)
    ensures forall n :: 0 <= n < |run| ==> Sized(run[n]) && i < |run[n].dbs|
    ensures run[k + 1].dbs[i].version < run[k].dbs[i].version <==>
              && run[k].syncs[i].received.Some?
              && 0 < run[k].syncs[i].received.value.version - run[b].dbs[i].version < StoredSince(run, steps, i, b, k)
  {
    forall n | 0 <= n < |run| ensures Sized(run[n]) && |run[n].dbs| == |run[0].dbs| {
      RunSized(run, steps, n);
    }
    SinceBackup(run, steps, i, b, k, k);
  }

  lemma FallsOnlyAtRestore(run: seq<State>, steps: seq<Step>, i: nat, k: nat)
    requires IsRun(run, steps) && i < |run[0].dbs| && k < |steps|
    ensures |run[k].dbs| == |run[k + 1].dbs| == |run[0].dbs|
    ensures run[k + 1].dbs[i].version < run[k].dbs[i].version ==> steps[k] == CompareAndRestore(i)
  {
    RunSized(run, steps, k);
    if steps[k].Store? {
      WriteRaises(run[k].dbs[steps[k].server], steps[k].w);
    }
  }

  // -- Articles lost ------------------------------------------------------------------------------

  ghost predicate AllSound(s: State) {
    && (forall i :: 0 <= i < |s.dbs| ==> Sound(s.dbs[i]))
    && (forall i :: 0 <= i < |s.syncs| && s.syncs[i].received.Some? ==> Sound(s.syncs[i].received.value))
  }

  lemma StepSound(s: State, step: Step)
    requires AllSound(s) && Enabled(s, step)
    ensures AllSound(Do(s, step))
  {
    if step.Store? {
      ApplyKeeps(s.dbs[step.server], step.w);
    }
  }

  /** If the servers start from sound databases, as empty ones are, every database held or received
      in any run is sound, writes and restores in any order included. */
  lemma {:induction false} RunSoundness(run: seq<State>, steps: seq<Step>, k: nat)
    requires IsRun(run, steps) && k < |run| && forall i :: 0 <= i < |run[0].dbs| ==> Sound(run[0].dbs[i])
    ensures AllSound(run[k])
  {
    if k > 0 {
      RunSoundness(run, steps, k - 1);
      StepSound(run[k - 1], steps[k - 1]);
    }
  }

  /** A restore keeps every article the server holds if and only if nothing is taken over (nothing was
      received, or nothing newer than the backup) or the received database extends the present one.
      Writes between backup and restore are not the only danger: two servers that were written to
      independently are enough. */
  lemma RestoreKeepsExactly(run: seq<State>, steps: seq<Step>, i: nat, b: nat, k: nat)
    requires IsRun(run, steps) && i < |run[0].dbs| && BackupFor(steps, i, b, k)
    requires forall j :: 0 <= j < |run[0].dbs| ==> Sound(run[0].dbs[j])
    ensures forall n :: 0 <= n < |run| ==> Sized(run[n]) && i < |run[n].dbs|
    ensures var received := run[k].syncs[i].received;
            Articles(run[k].dbs[i]) <= Articles(run[k + 1].dbs[i]) <==>
              || received.None?
              || received.value.version <= run[b].dbs[i].version
              || Extends(run[k].dbs[i].nodes, received.value.nodes)
  {
    forall n | 0 <= n < |run| ensures Sized(run[n]) && |run[n].dbs| == |run[0].dbs| {
      RunSized(run, steps, n);
    }
    SinceBackup(run, steps, i, b, k, k);
    RunSoundness(run, steps, k);
    if Restores(run[k].syncs[i]) {
      KeptIffExtends(run[k].dbs[i], run[k].syncs[i].received.value);
    }
  }

  // Some server holds the article.
  predicate HeldAt(s: State, x: Article, j: nat) { j < |s.dbs| && x in Articles(s.dbs[j]) }

  predicate Held(s: State, x: Article) { exists j: nat :: j < |s.dbs| && HeldAt(s, x, j) }

  // The step overwrites the only database that holds the article.
  predicate Overwrites(s: State, step: Step, x: Article)
    requires Enabled(s, step)
  {
    && step.CompareAndRestore? && Restores(s.syncs[step.server])
    && x !in Articles(s.syncs[step.server].received.value)
    && forall j: nat :: j < |s.dbs| && HeldAt(s, x, j) ==> j == step.server
  }

  lemma ElsewhereKept(s: State, step: Step, x: Article, j: nat)
    requires Enabled(s, step) && HeldAt(s, x, j)
    requires step.CompareAndRestore? && step.server == j && Restores(s.syncs[j]) ==>
               x in Articles(s.syncs[j].received.value)
    ensures HeldAt(Do(s, step), x, j)
  {
    if step.Store? {
      WriteKeeps(s.dbs[step.server], step.w);
    }
  }

  /** An article some server holds is gone from the whole group after a step exactly if that step is
      a restore of something without it at the only server that held it. */
  lemma LostExactly(s: State, step: Step, x: Article)
    requires Enabled(s, step) && Held(s, x)
    ensures !Held(Do(s, step), x) <==> Overwrites(s, step, x)
  {
    var t := Do(s, step);
    if Overwrites(s, step, x) {
      forall j: nat | j < |t.dbs| ensures !HeldAt(t, x, j) {
        assert j != step.server ==> !HeldAt(s, x, j);
      }
    } else {
      var j: nat :| j < |s.dbs| && HeldAt(s, x, j);
      if step.CompareAndRestore? && Restores(s.syncs[step.server])
         && x !in Articles(s.syncs[step.server].received.value)
      {
        var other: nat :| other < |s.dbs| && HeldAt(s, x, other) && other != step.server;
        ElsewhereKept(s, step, x, other);
      } else {
        ElsewhereKept(s, step, x, j);
      }
    }
  }

  // A server that held the highest version at the start held the article.
  predicate HeldOnTop(dbs: seq<Db>, m: nat, x: Article)
    requires m < |dbs|
  {
    exists j: nat :: j < |dbs| && dbs[j].version == dbs[m].version && x in Articles(dbs[j])
  }

  /** What synchronisation alone leaves: once every server has completed a round of successful pulls,
      the group holds an article if and only if a server of the highest version held it to start with.
      All else is gone. */
  lemma HeldExactly(run: seq<State>, steps: seq<Step>, m: nat, k: nat, x: Article)
    requires IsRun(run, steps) && Quiet(steps) && Top(run[0].dbs, m) && k < |run| && AllDone(run[k])
    ensures Held(run[k], x) <==> HeldOnTop(run[0].dbs, m, x)
  {
    var start := run[0].dbs;
    if Held(run[k], x) {
      var j: nat :| j < |run[k].dbs| && HeldAt(run[k], x, j);
      TopStays(run, steps, m, k, m);
      SyncRaises(run, steps, m, k, j);
      var i :| 0 <= i < |start| && start[i] == run[k].dbs[j];
    }
    if HeldOnTop(start, m, x) {
      var j: nat :| j < |start| && start[j].version == start[m].version && x in Articles(start[j]);
      TopStays(run, steps, m, k, j);
      assert HeldAt(run[k], x, j);
    }
  }

  // Two servers, of which only server 0 has started to synchronise.
  function Two(x: Db, y: Db, sync: Sync): State {
    State([x, y], [sync, Sync(Backup, 0, 0, None, true, false)])
  }

  lemma TwoSteps(x: Db, y: Db, sync: Sync, w: Write)
    requires sync.at < 2
    ensures Enabled(Two(x, y, sync), Store(0, w)) && Enabled(Two(x, y, sync), Store(1, w))
    ensures Do(Two(x, y, sync), Store(0, w)) == Two(Apply(x, w).0, y, sync)
    ensures Do(Two(x, y, sync), Store(1, w)) == Two(x, Apply(y, w).0, sync)
    ensures sync.phase.Backup? ==>
              && Enabled(Two(x, y, sync), TakeBackup(0))
              && Do(Two(x, y, sync), TakeBackup(0)) == Two(x, y, sync.(phase := Pull, local := x.version))
    ensures sync.phase.Pull? ==>
              && Enabled(Two(x, y, sync), PullFrom(0, true))
              && Do(Two(x, y, sync), PullFrom(0, true))
                 == Two(x, y, sync.(phase := Compare, received := Some(if sync.at == 0 then x else y)))
    ensures sync.phase.Compare? ==>
              && Enabled(Two(x, y, sync), CompareAndRestore(0))
              && Do(Two(x, y, sync), CompareAndRestore(0))
                 == Two(if Restores(sync) then sync.received.value else x, y, NextServer(sync, 2))
  {
  }

  lemma RunOn(run: seq<State>, steps: seq<Step>, step: Step) returns (longer: seq<State>, more: seq<Step>)
    requires IsRun(run, steps) && Enabled(run[|steps|], step)
    ensures longer == run + [Do(run[|steps|], step)] && more == steps + [step]
    ensures IsRun(longer, more)
  {
    longer, more := run + [Do(run[|steps|], step)], steps + [step];
  }

  // Server 0 before its first round, and the steps of that round.
  function Idle(): Sync { Sync(Backup, 0, 0, None, true, false) }

  function AskNext(): seq<Step> { [TakeBackup(0), PullFrom(0, true), CompareAndRestore(0)] }

  function Round(): seq<Step> { AskNext() + AskNext() }

  lemma Ask(run: seq<State>, steps: seq<Step>, x: Db, y: Db, sync: Sync, z: Db)
    returns (longer: seq<State>, more: seq<Step>)
    requires IsRun(run, steps) && run[|steps|] == Two(x, y, sync) && sync.phase.Backup? && sync.at < 2
    requires z == if sync.at == 0 then x else y
    ensures IsRun(longer, more) && more == steps + AskNext() && longer[..|run|] == run
    ensures longer[|more|] == Two(if z.version > x.version then z else x, y,
                                  NextServer(Sync(Compare, sync.at, x.version, Some(z), sync.clean, sync.done), 2))
  {
    var w := Post([], [], []);
    var y1 := sync.(phase := Pull, local := x.version);
    var y2 := y1.(phase := Compare, received := Some(z));
    TwoSteps(x, y, sync, w);
    longer, more := RunOn(run, steps, TakeBackup(0));
    TwoSteps(x, y, y1, w);
    longer, more := RunOn(longer, more, PullFrom(0, true));
    TwoSteps(x, y, y2, w);
    longer, more := RunOn(longer, more, CompareAndRestore(0));
  }

  lemma FirstRound(run: seq<State>, steps: seq<Step>, x: Db, y: Db) returns (longer: seq<State>, more: seq<Step>)
    requires IsRun(run, steps) && run[|steps|] == Two(x, y, Idle())
    ensures IsRun(longer, more) && more == steps + Round() && longer[..|run|] == run
    ensures longer[|more|].dbs == [if y.version > x.version then y else x, y]
  {
    var half, some := Ask(run, steps, x, y, Idle(), x);
    longer, more := Ask(half, some, x, y, Sync(Backup, 1, x.version, Some(x), true, false), y);
    assert longer[..|run|] == longer[..|half|][..|run|];
  }

  lemma StoreHere(run: seq<State>, steps: seq<Step>, x: Db, y: Db, sync: Sync, w: Write, z: Db)
    returns (longer: seq<State>, more: seq<Step>)
    requires IsRun(run, steps) && run[|steps|] == Two(x, y, sync) && sync.at < 2 && z == Apply(x, w).0
    ensures IsRun(longer, more) && more == steps + [Store(0, w)] && longer == run + [Two(z, y, sync)]
  {
    TwoSteps(x, y, sync, w);
    longer, more := RunOn(run, steps, Store(0, w));
  }

  lemma StoreThere(run: seq<State>, steps: seq<Step>, x: Db, y: Db, sync: Sync, w: Write, z: Db)
    returns (longer: seq<State>, more: seq<Step>)
    requires IsRun(run, steps) && run[|steps|] == Two(x, y, sync) && sync.at < 2 && z == Apply(y, w).0
    ensures IsRun(longer, more) && more == steps + [Store(1, w)] && longer == run + [Two(x, z, sync)]
  {
    TwoSteps(x, y, sync, w);
    longer, more := RunOn(run, steps, Store(1, w));
  }

  // The second pull of a round is about to be compared.
  function Compared(b: Db): Sync { Sync(Compare, 1, 0, Some(b), true, false) }

  lemma Start(w: Write) returns (run: seq<State>, steps: seq<Step>)
    ensures IsRun(run, steps) && steps == [Store(1, w)] && run[1] == Two(EMPTY, Apply(EMPTY, w).0, Idle())
  {
    run, steps := [Two(EMPTY, EMPTY, Idle())], [];
    assert run[0] == Init([EMPTY, EMPTY]);
    run, steps := StoreThere(run, steps, EMPTY, EMPTY, Idle(), w, Apply(EMPTY, w).0);
  }

  lemma UpToPull(b: Db, w: Write) returns (run: seq<State>, steps: seq<Step>)
    requires b == Apply(EMPTY, w).0
    ensures IsRun(run, steps) && |steps| == 6 && run[6] == Two(EMPTY, b, Compared(b))
  {
    run, steps := Start(w);
    run, steps := Ask(run, steps, EMPTY, b, Idle(), EMPTY);
    var y3 := Sync(Backup, 1, 0, Some(EMPTY), true, false);
    TwoSteps(EMPTY, b, y3, w);
    run, steps := RunOn(run, steps, TakeBackup(0));
    TwoSteps(EMPTY, b, y3.(phase := Pull), w);
    run, steps := RunOn(run, steps, PullFrom(0, true));
  }

  /** One post is enough, and no version need fall: a post that arrives between pull and restore is
      gone although its server's version is 1 before and after. */
  lemma OnePostLost(a: Text, b: Text) returns (run: seq<State>, steps: seq<Step>)
    requires a != b
    ensures IsRun(run, steps) && |steps| == 8
    ensures steps[6] == Store(0, Post(a, [], [])) && steps[7] == CompareAndRestore(0)
    ensures |run[6].dbs| == |run[7].dbs| == |run[8].dbs| == 2
    ensures Apply(run[6].dbs[0], Post(a, [], [])).1.Stored? && Held(run[7], Article(0, -1, 0, a, [], []))
    ensures run[7].dbs[0].version == run[8].dbs[0].version == 1
    ensures !Held(run[8], Article(0, -1, 0, a, [], []))
  {
    var w, x := Post(a, [], []), Article(0, -1, 0, a, [], []);
    var one, unused := TwoPosts(a);
    var db, unused2 := TwoPosts(b);
    run, steps := UpToPull(db, Post(b, [], []));
    run, steps := StoreHere(run, steps, EMPTY, db, Compared(db), w, one);
    TwoSteps(one, db, Compared(db), w);
    run, steps := RunOn(run, steps, CompareAndRestore(0));
    ArticleAt(one, 0);
    assert HeldAt(run[7], x, 0);
    AuthorsOf(db, b);
  }

  /** No race is needed either: server 0 stores one post, server 1 two, and only then server 0
      synchronises. No version falls and no write comes between backup and restore; the post is gone. */
  lemma PostLostWithoutRace(a: Text, b: Text) returns (run: seq<State>, steps: seq<Step>)
    requires a != b
    ensures IsRun(run, steps)
    ensures steps == [Store(0, Post(a, [], [])), Store(1, Post(b, [], [])), Store(1, Post(b, [], []))] + Round()
    ensures Apply(run[0].dbs[0], Post(a, [], [])).1.Stored? && Held(run[3], Article(0, -1, 0, a, [], []))
    ensures |run[3].dbs| == |run[9].dbs| == 2 && run[3].dbs[0].version <= run[9].dbs[0].version
    ensures !Held(run[9], Article(0, -1, 0, a, [], []))
  {
    var x := Article(0, -1, 0, a, [], []);
    var one, two;
    run, steps, one, two := ThreePosts(a, b);
    ArticleAt(one, 0);
    assert HeldAt(run[3], x, 0);
    var short := run;
    run, steps := FirstRound(run, steps, one, two);
    assert run[3] == run[..4][3] == short[3] && run[0] == run[..4][0] == short[0];
    AuthorsOf(two, b);
  }

  lemma ThreePosts(a: Text, b: Text) returns (run: seq<State>, steps: seq<Step>, one: Db, two: Db)
    ensures IsRun(run, steps) && |run| == 4 && run[0].dbs == [EMPTY, EMPTY]
    ensures steps == [Store(0, Post(a, [], [])), Store(1, Post(b, [], [])), Store(1, Post(b, [], []))]
    ensures run[3] == Two(one, two, Idle())
    ensures Apply(EMPTY, Post(a, [], [])) == (one, Stored(0)) && one.version == 1 && two.version == 2
    ensures |one.nodes| == 1 && one.nodes[0].article == Article(0, -1, 0, a, [], [])
    ensures forall k :: 0 <= k < |two.nodes| ==> two.nodes[k].article.author == b
  {
    var db, unused;
    one, unused := TwoPosts(a);
    db, two := TwoPosts(b);
    run, steps := [Two(EMPTY, EMPTY, Idle())], [];
    assert run[0] == Init([EMPTY, EMPTY]);
    run, steps := StoreHere(run, steps, EMPTY, EMPTY, Idle(), Post(a, [], []), one);
    run, steps := StoreThere(run, steps, one, EMPTY, Idle(), Post(b, [], []), db);
    run, steps := StoreThere(run, steps, one, db, Idle(), Post(b, [], []), two);
  }

  /** It does fall, and writes answered with success are lost: two posts arrive at server 0 between
      its pull and its restore, and the restore wipes them out. */
  lemma PostsLost(a: Text, b: Text) returns (run: seq<State>, steps: seq<Step>)
    requires a != b
    ensures IsRun(run, steps) && |steps| == 9
    ensures steps[6] == Store(0, Post(a, [], [])) == steps[7]
    ensures |run[6].dbs| == |run[7].dbs| == |run[8].dbs| == |run[9].dbs| == 2
    ensures Apply(run[6].dbs[0], Post(a, [], [])).1.Stored? && Apply(run[7].dbs[0], Post(a, [], [])).1.Stored?
    ensures run[8].dbs[0].version == 2 && run[9].dbs[0].version == 1
    ensures forall i, k :: 0 <= i < 2 && 0 <= k < |run[9].dbs[i].nodes| ==> run[9].dbs[i].nodes[k].article.author == b
  {
    var one, two := TwoPosts(a);
    var db, unused := TwoPosts(b);
    var w := Post(a, [], []);
    run, steps := UpToPull(db, Post(b, [], []));
    run, steps := StoreHere(run, steps, EMPTY, db, Compared(db), w, one);
    run, steps := StoreHere(run, steps, one, db, Compared(db), w, two);
    TwoSteps(two, db, Compared(db), w);
    run, steps := RunOn(run, steps, CompareAndRestore(0));
  }
}
