/** The write handlers of SEQUENTIAL and READ-YOUR-WRITE, each run from start to end with no other
    write in flight. Server 0 is the coordinator. */
module Handlers {
  import opened Database
  import opened Board
  import opened SequentialRuns

  // What becomes of one push.
  datatype Fate = Acked | AckLost | Lost

  // What becomes of a write forwarded to the coordinator.
  datatype Forward = Answered | AnswerLost | NotReached

  datatype Answer = Success | Failure

  class Group {
    var dbs: seq<Db>
    ghost var history: seq<Write>

    // The coordinator holds all stored writes, every other server a prefix of them.
    ghost predicate Valid()
      reads this
    {
      && dbs != []
      && dbs[0].version == |history|
      && forall i :: 0 <= i < |dbs| ==> Replays(history, dbs[i])
    }

    constructor (n: nat)
      requires n > 0
      ensures Valid() && dbs == seq(n, _ => EMPTY) && history == []
    {
      dbs := seq(n, _ => EMPTY);
      history := [];
    }

    method DbPush(i: nat, snapshot: Db, fate: Fate) returns (ok: bool)
      requires i < |dbs|
      modifies this`dbs
      ensures dbs == if fate.Lost? then old(dbs) else old(dbs)[i := snapshot]
      ensures ok == fate.Acked?
    {
      if !fate.Lost? {
        dbs := dbs[i := snapshot];
      }
      ok := fate.Acked?;
    }

    // The coordinator's db_Post or db_Reply.
    method Store(w: Write) returns (result: Outcome)
      requires Valid()
      modifies this
      ensures Valid()
      ensures (dbs, result) == (old(dbs)[0 := Apply(old(dbs[0]), w).0], Apply(old(dbs[0]), w).1)
      ensures history == if result.Stored? then old(history) + [w] else old(history)
    {
      var (after, outcome) := Apply(dbs[0], w);
      StoreKeeps(history, dbs, w);
      dbs := dbs[0 := after];
      history := if outcome.Stored? then history + [w] else history;
      result := outcome;
    }

    /** SEQUENTIAL at the coordinator: the answer goes out before the pushes, so it says only that
        the coordinator stored the write. A post pushes to every other server whatever happens. */
    method SequentialPost(w: Write, fates: seq<Fate>) returns (answer: Answer)
      requires Valid() && w.Post? && |fates| == |dbs|
      modifies this
      ensures Valid()
      ensures var (after, outcome) := Apply(old(dbs[0]), w);
              && (answer.Success? <==> outcome.Stored?)
              && |dbs| == |old(dbs)| && dbs[0] == after
              && history == (if outcome.Stored? then old(history) + [w] else old(history))
              && forall i :: 1 <= i < |dbs| ==>
                   dbs[i] == if outcome.Stored? && !fates[i].Lost? then after else old(dbs[i])
    {
      var result := Store(w);
      if !result.Stored? {
        return Failure;
      }
      answer := Success;
      var snapshot := dbs[0];
      for i := 1 to |dbs|
        invariant Valid() && |dbs| == |old(dbs)| && dbs[0] == snapshot && history == old(history) + [w]
        invariant forall j :: 1 <= j < |dbs| ==>
                    dbs[j] == if j < i && !fates[j].Lost? then snapshot else old(dbs[j])
      {
        var _ := DbPush(i, snapshot, fates[i]);
      }
    }

    // Pushes the coordinator's database to servers from..end-1 in turn, up to the first failure.
    method PushTo(from: nat, end: nat, fates: seq<Fate>) returns (failed: bool)
      requires Valid() && from <= end <= |dbs| == |fates|
      modifies this`dbs
      ensures Valid() && |dbs| == |old(dbs)| && dbs[0] == old(dbs[0])
      ensures failed <==> FirstFailure(fates, from, end) < end
      ensures forall i :: 0 <= i < |dbs| ==>
                dbs[i] == if Reached(fates, from, end, i) then dbs[0] else old(dbs[i])
    {
      var snapshot := dbs[0];
      var i := from;
      while i < end
        invariant Valid() && from <= i <= end && |dbs| == |old(dbs)| && dbs[0] == snapshot
        invariant FirstFailure(fates, from, end) == FirstFailure(fates, i, end)
        invariant forall j :: 0 <= j < |dbs| ==> dbs[j] == if from <= j < i then snapshot else old(dbs[j])
      {
        var ok := DbPush(i, snapshot, fates[i]);
        if !ok {
          return true;
        }
        i := i + 1;
      }
      failed := false;
    }

    /** A reply also answers first, but stops pushing at the first failed push, and then sends a
        second, failing answer. */
    method SequentialReply(w: Write, fates: seq<Fate>) returns (answer: Answer, second: bool)
      requires Valid() && w.Reply? && |fates| == |dbs|
      modifies this
      ensures Valid() && |dbs| == |old(dbs)|
      ensures var (after, outcome) := Apply(old(dbs[0]), w);
              && (answer.Success? <==> outcome.Stored?)
              && dbs[0] == after
              && history == (if outcome.Stored? then old(history) + [w] else old(history))
              && (second <==> outcome.Stored? && FirstFailure(fates, 1, |dbs|) < |dbs|)
      ensures forall i :: 1 <= i < |dbs| ==>
                dbs[i] == if answer.Success? && Reached(fates, 1, |dbs|, i) then dbs[0] else old(dbs[i])
    {
      var result := Store(w);
      if !result.Stored? {
        return Failure, false;
      }
      second := PushTo(1, |dbs|, fates);
      answer := Success;
    }

    /** SEQUENTIAL at another server: the write is forwarded, and success there means exactly that the
        coordinator stored it and its answer came back. */
    method SequentialVia(w: Write, forward: Forward, fates: seq<Fate>) returns (answer: Answer)
      requires Valid() && |fates| == |dbs|
      modifies this
      ensures Valid() && |dbs| == |old(dbs)|
      ensures forward.NotReached? ==> dbs == old(dbs) && history == old(history)
      ensures !forward.NotReached? ==> dbs[0] == Apply(old(dbs[0]), w).0
      ensures answer.Success? <==> forward.Answered? && Apply(old(dbs[0]), w).1.Stored?
    {
      if forward.NotReached? {
        return Failure;
      }
      if w.Post? {
        answer := SequentialPost(w, fates);
      } else {
        var second;
        answer, second := SequentialReply(w, fates);
      }
      if forward.AnswerLost? {
        answer := Failure;
      }
    }

    /** READ-YOUR-WRITE at the coordinator: a reply is answered with success only once every other
        server holds it. */
    method ReadYourWriteReply(w: Write, fates: seq<Fate>) returns (answer: Answer)
      requires Valid() && w.Reply? && |fates| == |dbs|
      modifies this
      ensures Valid() && |dbs| == |old(dbs)|
      ensures forall i :: 0 <= i < |dbs| ==> dbs[i].version >= old(dbs[i].version)
      ensures dbs[0] == Apply(old(dbs[0]), w).0
      ensures history == if Apply(old(dbs[0]), w).1.Stored? then old(history) + [w] else old(history)
      ensures forall i :: 1 <= i < |dbs| ==>
                dbs[i] == if Apply(old(dbs[0]), w).1.Stored? && Reached(fates, 1, |dbs|, i) then dbs[0] else old(dbs[i])
      ensures answer.Success? <==> Apply(old(dbs[0]), w).1.Stored? && FirstFailure(fates, 1, |dbs|) == |dbs|
      ensures answer.Success? ==> forall i :: 0 <= i < |dbs| ==> dbs[i] == dbs[0]
    {
      var result := Store(w);
      if !result.Stored? {
        return Failure;
      }
      var failed := PushTo(1, |dbs|, fates);
      answer := if failed then Failure else Success;
    }

    /** A post pushes to servers 0..n-2 instead: the coordinator itself, but never the last server. */
    method ReadYourWritePost(w: Write, fates: seq<Fate>) returns (answer: Answer)
      requires Valid() && w.Post? && |fates| == |dbs|
      modifies this
      ensures Valid() && |dbs| == |old(dbs)|
      ensures forall i :: 0 <= i < |dbs| ==> dbs[i].version >= old(dbs[i].version)
      ensures dbs[0] == Apply(old(dbs[0]), w).0
      ensures history == if Apply(old(dbs[0]), w).1.Stored? then old(history) + [w] else old(history)
      ensures forall i :: 1 <= i < |dbs| ==>
                dbs[i] == if Apply(old(dbs[0]), w).1.Stored? && Reached(fates, 0, |dbs| - 1, i) then dbs[0]
                          else old(dbs[i])
      ensures answer.Success? <==> Apply(old(dbs[0]), w).1.Stored? && FirstFailure(fates, 0, |dbs| - 1) == |dbs| - 1
      ensures answer.Success? ==> forall i :: 0 <= i < |dbs| - 1 ==> dbs[i] == dbs[0]
      ensures |dbs| > 1 ==> dbs[|dbs| - 1] == old(dbs[|dbs| - 1])
    {
      var result := Store(w);
      if !result.Stored? {
        return Failure;
      }
      var failed := PushTo(0, |dbs| - 1, fates);
      answer := if failed then Failure else Success;
    }

    /** A reply that reaches another server first is forwarded; success there implies success at the
        coordinator. */
    method ReadYourWriteReplyVia(w: Write, forward: Forward, fates: seq<Fate>) returns (answer: Answer)
      requires Valid() && w.Reply? && |fates| == |dbs|
      modifies this
      ensures Valid() && |dbs| == |old(dbs)|
      ensures forall i :: 0 <= i < |dbs| ==> dbs[i].version >= old(dbs[i].version)
      ensures forward.NotReached? ==> dbs == old(dbs) && history == old(history)
      ensures !forward.NotReached? ==>
                && dbs[0] == Apply(old(dbs[0]), w).0
                && forall i :: 1 <= i < |dbs| ==>
                     dbs[i] == if Apply(old(dbs[0]), w).1.Stored? && Reached(fates, 1, |dbs|, i) then dbs[0]
                               else old(dbs[i])
      ensures answer.Success? <==>
                forward.Answered? && Apply(old(dbs[0]), w).1.Stored? && FirstFailure(fates, 1, |dbs|) == |dbs|
      ensures answer.Success? ==> forall i :: 0 <= i < |dbs| ==> dbs[i] == Apply(old(dbs[0]), w).0
    {
      if forward.NotReached? {
        return Failure;
      }
      answer := ReadYourWriteReply(w, fates);
      if forward.AnswerLost? {
        answer := Failure;
      }
    }

    /** A post that reaches another server first is answered with success whatever happened: the
        failure message is overwritten. */
    method ReadYourWritePostVia(w: Write, forward: Forward, fates: seq<Fate>) returns (answer: Answer)
      requires Valid() && w.Post? && |fates| == |dbs|
      modifies this
      ensures Valid() && |dbs| == |old(dbs)|
      ensures forall i :: 0 <= i < |dbs| ==> dbs[i].version >= old(dbs[i].version)
      ensures answer.Success?
      ensures history == old(history) + [w]
              <==> !forward.NotReached? && Apply(old(dbs[0]), w).1.Stored?
      ensures !forward.NotReached? ==> dbs[0] == Apply(old(dbs[0]), w).0
      ensures forward.NotReached? ==> dbs == old(dbs)
      ensures !forward.NotReached? ==> forall i :: 1 <= i < |dbs| ==>
                dbs[i] == if Apply(old(dbs[0]), w).1.Stored? && Reached(fates, 0, |dbs| - 1, i) then dbs[0]
                          else old(dbs[i])
    {
      if !forward.NotReached? {
        var _ := ReadYourWritePost(w, fates);
      }
      answer := Success;
    }
  }

  // The first push from `i` on, before `end`, that is not acknowledged; `end` if all are.
  function FirstFailure(fates: seq<Fate>, i: nat, end: nat): (k: nat)
    requires i <= end <= |fates|
    ensures i <= k <= end
    ensures k < end ==> !fates[k].Acked?
    ensures forall j :: i <= j < k ==> fates[j].Acked?
    decreases end - i
  {
    if i == end || !fates[i].Acked? then i else FirstFailure(fates, i + 1, end)
  }

  // Server `i` receives the push when servers from..end-1 are pushed to up to the first failure.
  predicate Reached(fates: seq<Fate>, from: nat, end: nat, i: nat)
    requires from <= end <= |fates|
  {
    from <= i < end && i <= FirstFailure(fates, from, end) && !fates[i].Lost?
  }

  lemma StoreKeeps(history: seq<Write>, dbs: seq<Db>, w: Write)
    requires dbs != [] && dbs[0].version == |history|
    requires forall i :: 0 <= i < |dbs| ==> Replays(history, dbs[i])
    ensures !Apply(dbs[0], w).1.Stored? ==> Apply(dbs[0], w).0 == dbs[0]
    ensures Apply(dbs[0], w).1.Stored? ==>
              && Apply(dbs[0], w).0.version == |history| + 1
              && Replays(history + [w], Apply(dbs[0], w).0)
              && forall i :: 0 <= i < |dbs| ==> Replays(history + [w], dbs[i])
  {
    ReplaysSound(history, dbs[0]);
    WriteOutcome(dbs[0], w);
    if Apply(dbs[0], w).1.Stored? {
      CoordinatorReplays(history, dbs[0], w);
      forall i | 0 <= i < |dbs| ensures Replays(history + [w], dbs[i]) {
        ReplaysLonger(history, w, dbs[i]);
      }
    }
  }

  /** After a post answered with success at the coordinator every server but the last holds it; the
      last one does only if it is the coordinator. */
  method LastServerMissesPost(group: Group, w: Write, fates: seq<Fate>) returns (holds: bool)
    requires group.Valid() && w.Post? && |fates| == |group.dbs|
    requires Apply(group.dbs[0], w).1.Stored?
    modifies group
    ensures group.Valid() && |group.dbs| == |old(group.dbs)|
    ensures holds <==> group.dbs[|group.dbs| - 1].version == group.dbs[0].version
    ensures holds <==> |group.dbs| == 1
  {
    StoreKeeps(group.history, group.dbs, w);
    var _ := group.ReadYourWritePost(w, fates);
    holds := group.dbs[|group.dbs| - 1].version == group.dbs[0].version;
  }
}
