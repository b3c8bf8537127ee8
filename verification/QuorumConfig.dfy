/** Read and write quorums: which configurations are accepted, what the counting loops count, and
    exactly when what they count must overlap. */
module QuorumConfig {
  import opened CTypes
  import opened Database

  datatype ConfigError = BadNr | BadNw | NoOverlap | NoMajority | TooLarge

  predicate Accepted(nr: int, nw: int, n: nat) {
    1 <= nr <= n && 1 <= nw <= n && nr + nw > n && 2 * nw > n
  }

  /** The checks of the configuration reader, in its order. Together they accept exactly the
      configurations with 1 <= Nr, Nw <= N, Nr + Nw > N and Nw > N/2; a negative Nr or Nw, which no
      single check names, never gets through. */
  method Validate(nr: int, nw: int, n: nat) returns (error: Option<ConfigError>)
    ensures error.None? <==> Accepted(nr, nw, n)
    ensures error == Some(BadNr) <==> nr == 0
    ensures error == Some(BadNw) <==> nr != 0 && nw == 0
    ensures error == Some(NoOverlap) <==> nr != 0 && nw != 0 && nr + nw <= n
    ensures error == Some(NoMajority) <==> nr != 0 && nw != 0 && nr + nw > n && 2 * nw <= n
    ensures error == Some(TooLarge) <==> nr != 0 && 2 * nw > n && nr + nw > n && nw != 0 && (nw > n || nr > n)
  {
    if nr == 0 {
      return Some(BadNr);
    }
    if nw == 0 {
      return Some(BadNw);
    }
    if nr + nw <= n {
      return Some(NoOverlap);
    }
    if nw <= n / 2 {
      return Some(NoMajority);
    }
    if nw > n || nr > n {
      return Some(TooLarge);
    }
    error := None;
  }

  // -- The counting loops -------------------------------------------------------------------------

  // The servers counted among the first `i`, in order, when counting stops as soon as `need` are
  // reached. `answers` says which servers answer.
  function Counted(answers: seq<bool>, need: int, i: nat): seq<nat>
    requires i <= |answers|
  {
    if i == 0 then []
    else
      var s := Counted(answers, need, i - 1);
      if (i > 1 && |s| >= need) || !answers[i - 1] then s else s + [i - 1]
  }

  // The loop has left after looking at the first `i` servers; the test comes after each server.
  predicate Stopped(answers: seq<bool>, need: int, i: nat)
    requires i <= |answers|
  {
    i > 0 && |Counted(answers, need, i)| >= need
  }

  // How many of the first `i` servers answer.
  function Answered(answers: seq<bool>, i: nat): nat
    requires i <= |answers|
  {
    if i == 0 then 0 else Answered(answers, i - 1) + if answers[i - 1] then 1 else 0
  }

  // Server `k` is asked: the first always is, another one if fewer than needed have answered before.
  predicate IsAsked(answers: seq<bool>, need: int, k: nat)
    requires k < |answers|
  {
    k == 0 || Answered(answers, k) < need
  }

  /** The loop stops exactly when enough have answered, it counts exactly those servers that are asked and
      answer, and it reaches its number exactly if that many servers would answer. */
  lemma {:induction false} CountedExactly(answers: seq<bool>, need: int, i: nat)
    requires i <= |answers|
    ensures Stopped(answers, need, i) <==> i > 0 && Answered(answers, i) >= need
    ensures |Counted(answers, need, i)| >= need <==> Answered(answers, i) >= need
    ensures !Stopped(answers, need, i) ==> |Counted(answers, need, i)| == Answered(answers, i)
    ensures forall k :: k in Counted(answers, need, i) <==> 0 <= k < i && answers[k] && IsAsked(answers, need, k)
  {
    if i > 0 {
      CountedExactly(answers, need, i - 1);
      var s, last := Counted(answers, need, i - 1), i - 1;
      assert forall k :: k in s + [last] <==> k in s || k == last;
    }
  }

  // `saved` is the first database of the highest version among those of the servers in `read`.
  ghost predicate Highest(answers: seq<Option<Db>>, read: seq<nat>, saved: Db) {
    && (forall k :: 0 <= k < |read| ==> VersionAt(answers, read[k]) <= saved.version)
    && if read == [] then saved == NOTHING else exists k :: 0 <= k < |read| && FirstIs(answers, read, k, saved)
  }

  predicate FirstIs(answers: seq<Option<Db>>, read: seq<nat>, k: nat, saved: Db)
    requires k < |read|
  {
    AnswerIs(answers, read[k], saved) && forall j :: 0 <= j < k ==> VersionAt(answers, read[j]) < saved.version
  }

  // Nothing saved yet.
  const NOTHING: Db := Db(-1, [])

  predicate AnswerIs(answers: seq<Option<Db>>, i: nat, db: Db) { i < |answers| && answers[i] == Some(db) }

  function VersionAt(answers: seq<Option<Db>>, i: nat): int {
    if i < |answers| && answers[i].Some? then answers[i].value.version else -1
  }

  // No database that comes in has a negative version.
  predicate Versioned(answers: seq<Option<Db>>) {
    forall k :: 0 <= k < |answers| && answers[k].Some? ==> answers[k].value.version >= 0
  }

  // What the loop has saved after the first `i` servers.
  function Saved(answers: seq<Option<Db>>, nr: int, i: nat): Db
    requires i <= |answers|
  {
    if i == 0 then NOTHING
    else
      var saved := Saved(answers, nr, i - 1);
      if Stopped(Answering(answers), nr, i - 1) || answers[i - 1].None? then saved
      else if answers[i - 1].value.version > saved.version then answers[i - 1].value
      else saved
  }

  lemma HighestNext(answers: seq<Option<Db>>, read: seq<nat>, saved: Db, i: nat)
    requires Highest(answers, read, saved) && i < |answers| && answers[i].Some? && answers[i].value.version >= 0
    ensures Highest(answers, read + [i], if answers[i].value.version > saved.version then answers[i].value else saved)
  {
    var longer := read + [i];
    if answers[i].value.version > saved.version {
      assert FirstIs(answers, longer, |read|, answers[i].value);
    } else {
      var k :| 0 <= k < |read| && FirstIs(answers, read, k, saved);
      assert FirstIs(answers, longer, k, saved);
    }
  }

  lemma {:induction false} SavedIsHighest(answers: seq<Option<Db>>, nr: int, i: nat)
    requires i <= |answers| && Versioned(answers)
    ensures Highest(answers, Counted(Answering(answers), nr, i), Saved(answers, nr, i))
    ensures Saved(answers, nr, i).version >= -1
  {
    if i > 0 {
      SavedIsHighest(answers, nr, i - 1);
      if !Stopped(Answering(answers), nr, i - 1) && answers[i - 1].Some? {
        HighestNext(answers, Counted(Answering(answers), nr, i - 1), Saved(answers, nr, i - 1), i - 1);
      }
    }
  }

  lemma {:induction false} SavedStays(answers: seq<Option<Db>>, nr: int, i: nat, end: nat)
    requires i <= end <= |answers| && Stopped(Answering(answers), nr, i)
    ensures Saved(answers, nr, end) == Saved(answers, nr, i)
    decreases end
  {
    if i < end {
      CountedStays(Answering(answers), nr, i, end - 1);
      SavedStays(answers, nr, i, end - 1);
    }
  }

  // The loop leaves after the first `i` servers.
  lemma ReadDone(answers: seq<Option<Db>>, nr: int, i: nat)
    requires i <= |answers| && Versioned(answers) && (i == |answers| || Stopped(Answering(answers), nr, i))
    ensures |Counted(Answering(answers), nr, i)| >= nr <==> Answered(Answering(answers), |answers|) >= nr
    ensures Highest(answers, Counted(Answering(answers), nr, |answers|), Saved(answers, nr, i))
  {
    var a := Answering(answers);
    if i < |answers| {
      CountedStays(a, nr, i, |a|);
      SavedStays(answers, nr, i, |a|);
    }
    SavedIsHighest(answers, nr, |a|);
    CountedExactly(a, nr, |a|);
  }

  /** A read asks in the same way, and keeps the first database of the highest version among those that
      came in. */
  method ReadLoop(answers: seq<Option<Db>>, nr: int) returns (reached: bool, saved: Db)
    requires Versioned(answers)
    ensures reached <==> Answered(Answering(answers), |answers|) >= nr
    ensures Highest(answers, Counted(Answering(answers), nr, |answers|), saved)
  {
    var success := 0;
    saved := NOTHING;
    var temp := NOTHING;
    ghost var a := Answering(answers);
    var i := 0;
    while i < |answers|
      invariant i <= |answers| && success == |Counted(a, nr, i)|
      invariant !Stopped(a, nr, i)
      invariant temp.version <= saved.version && saved == Saved(answers, nr, i)
    {
      // a failed pull leaves the database of an earlier one in place
      if answers[i].Some? {
        temp := answers[i].value;
        success := success + 1;
      }
      if temp.version > saved.version {
        saved := temp;
      }
      i := i + 1;
      if success >= nr {
        break;
      }
    }
    ReadDone(answers, nr, i);
    reached := success >= nr;
  }

  function Answering(answers: seq<Option<Db>>): (a: seq<bool>)
    ensures |a| == |answers| && forall k :: 0 <= k < |a| ==> a[k] == answers[k].Some?
  {
    seq(|answers|, k requires 0 <= k < |answers| => answers[k].Some?)
  }

  lemma {:induction false} CountedStays(answers: seq<bool>, need: int, i: nat, end: nat)
    requires i <= end <= |answers| && Stopped(answers, need, i)
    ensures Counted(answers, need, end) == Counted(answers, need, i) && Stopped(answers, need, end)
    decreases end
  {
    if i < end {
      CountedStays(answers, need, i, end - 1);
    }
  }

  // -- What is counted ----------------------------------------------------------------------------

  // Rising server numbers below `n`.
  predicate Rising(s: seq<nat>, n: nat) {
    (forall a, b :: 0 <= a < b < |s| ==> s[a] < s[b]) && forall a :: 0 <= a < |s| ==> a <= s[a] < n
  }

  predicate Meet(s: seq<nat>, t: seq<nat>) { exists k :: k in s && k in t }

  lemma RisingSize(s: seq<nat>, n: nat)
    requires Rising(s, n)
    ensures |s| <= n
  {
    if s != [] {
      assert |s| - 1 <= s[|s| - 1] < n;
    }
  }

  lemma {:induction false} CountedRising(answers: seq<bool>, need: int, i: nat)
    requires i <= |answers|
    ensures Rising(Counted(answers, need, i), i)
    ensures forall k :: k in Counted(answers, need, i) ==> k < |answers| && answers[k]
  {
    if i > 0 {
      CountedRising(answers, need, i - 1);
      RisingSize(Counted(answers, need, i - 1), i - 1);
    }
  }

  function WithoutLast(s: seq<nat>, n: nat): (r: seq<nat>)
    requires Rising(s, n + 1)
    ensures Rising(r, n) && |r| == |s| - (if n in s then 1 else 0)
    ensures forall k :: k in r ==> k in s
  {
    if s != [] && s[|s| - 1] == n then s[..|s| - 1] else s
  }

  lemma {:induction false} DisjointSizes(s: seq<nat>, t: seq<nat>, n: nat)
    requires Rising(s, n) && Rising(t, n) && !Meet(s, t)
    ensures |s| + |t| <= n
  {
    if s == [] || t == [] {
      RisingSize(s, n);
      RisingSize(t, n);
    } else {
      assert s[0] < n;
      DisjointSizes(WithoutLast(s, n - 1), WithoutLast(t, n - 1), n - 1);
    }
  }

  // Loops that reach `a` and `b` of `n` servers always share one.
  ghost predicate AlwaysMeet(a: int, b: int, n: nat) {
    forall x: seq<bool>, y: seq<bool> ::
      |x| == |y| == n && |Counted(x, a, n)| >= a && |Counted(y, b, n)| >= b ==> Meet(Counted(x, a, n), Counted(y, b, n))
  }

  lemma LargeCountsMeet(a: int, b: int, n: nat, x: seq<bool>, y: seq<bool>)
    requires a + b > n && |x| == |y| == n && |Counted(x, a, n)| >= a && |Counted(y, b, n)| >= b
    ensures Meet(Counted(x, a, n), Counted(y, b, n))
  {
    CountedRising(x, a, n);
    CountedRising(y, b, n);
    if !Meet(Counted(x, a, n), Counted(y, b, n)) {
      DisjointSizes(Counted(x, a, n), Counted(y, b, n), n);
    }
  }

  // Only the servers from..from+k-1 answer.
  function Only(n: nat, from: nat, k: nat): (a: seq<bool>)
    ensures |a| == n && forall i :: 0 <= i < n ==> a[i] == (from <= i < from + k)
  {
    seq(n, i => from <= i < from + k)
  }

  function Numbers(from: nat, k: nat): (s: seq<nat>)
    ensures |s| == k && forall i :: 0 <= i < k ==> s[i] == from + i
  {
    seq(k, i => from + i)
  }

  lemma {:induction false} CountedOnly(n: nat, from: nat, need: nat, i: nat)
    requires need >= 1 && from + need <= n && i <= n
    ensures Counted(Only(n, from, need), need, i)
            == if i <= from then [] else Numbers(from, if i < from + need then i - from else need)
    decreases i
  {
    if i > 0 {
      CountedOnly(n, from, need, i - 1);
      if from < i <= from + need {
        assert Numbers(from, i - from) == Numbers(from, i - 1 - from) + [i - 1];
      }
    }
  }

  lemma SmallCountsMiss(a: nat, b: nat, n: nat)
    requires 1 <= a && 1 <= b && a + b <= n
    ensures !AlwaysMeet(a, b, n)
  {
    var x, y := Only(n, 0, a), Only(n, a, b);
    CountedOnly(n, 0, a, n);
    CountedOnly(n, a, b, n);
    assert Counted(x, a, n) == Numbers(0, a) && Counted(y, b, n) == Numbers(a, b);
    assert !Meet(Numbers(0, a), Numbers(a, b));
  }

  /** Two counts of sensible size always overlap exactly if together they exceed N. */
  lemma MeetIff(a: int, b: int, n: nat)
    requires 1 <= a <= n && 1 <= b <= n
    ensures AlwaysMeet(a, b, n) <==> a + b > n
  {
    if a + b > n {
      forall x: seq<bool>, y: seq<bool> | |x| == |y| == n && |Counted(x, a, n)| >= a && |Counted(y, b, n)| >= b
        ensures Meet(Counted(x, a, n), Counted(y, b, n))
      {
        LargeCountsMeet(a, b, n, x, y);
      }
    } else {
      SmallCountsMiss(a, b, n);
    }
  }

  /** A configuration is accepted exactly if its numbers can be reached at all and, whichever servers
      answer, every read that reached Nr shares a server with every write that reached Nw, and so do
      any two writes. */
  lemma AcceptedIffSafe(nr: int, nw: int, n: nat)
    ensures Accepted(nr, nw, n) <==>
              1 <= nr <= n && 1 <= nw <= n && AlwaysMeet(nw, nr, n) && AlwaysMeet(nw, nw, n)
  {
    if 1 <= nr <= n && 1 <= nw <= n {
      MeetIff(nw, nr, n);
      MeetIff(nw, nw, n);
    }
  }
}
