/** Which changes of a message the CRC always shows: every burst of at most 32 bits does, and 32 is
    the most that can be promised. */
module Burst {
  import opened Crc32
  import opened Folds

  // -- Differences evolve on their own ------------------------------------------------------------

  // The positions where two bit strings differ.
  function Differences(u: seq<bool>, v: seq<bool>): (e: seq<bool>)
    requires |u| == |v|
    ensures |e| == |u|
    ensures forall i :: 0 <= i < |u| ==> e[i] == (u[i] != v[i])
  {
    seq(|u|, i requires 0 <= i < |u| => u[i] != v[i])
  }

  lemma EnterSum(x: bv32, y: bv32, d: bv32, p: bool, q: bool)
    requires Sum(x, y, d)
    ensures Sum(Enter(x, p), Enter(y, q), Enter(d, p != q))
  {
    if p {
      if q {
        assert Sum(x ^ 1, y ^ 1, d);
      } else {
        assert Sum(x ^ 1, y, d ^ 1);
      }
    } else if q {
      assert Sum(x, y ^ 1, d ^ 1);
    }
  }

  lemma StepSum(x: bv32, y: bv32, d: bv32, p: bool, q: bool)
    requires Sum(x, y, d)
    ensures Sum(StepBit(x, p), StepBit(y, q), StepBit(d, p != q))
  {
    EnterSum(x, y, d, p, q);
    SumShift(Enter(x, p), Enter(y, q), Enter(d, p != q));
  }

  /** The difference of two registers depends on the differences of the messages alone. */
  lemma DifferenceEvolves(s: bv32, t: bv32, d: bv32, u: seq<bool>, v: seq<bool>)
    requires |u| == |v| && Sum(s, t, d)
    ensures Sum(BitState(s, u), BitState(t, v), BitState(d, Differences(u, v)))
  {
    forall x: bv32, y: bv32, z: bv32, p: bool, q: bool | Sum(x, y, z)
      ensures Sum(StepBit(x, p), StepBit(y, q), StepBit(z, p != q))
    {
      StepSum(x, y, z, p, q);
    }
    FoldRelates(StepBit, s, t, d, u, v, Differences(u, v), Sum);
  }

  lemma SumZero(x: bv32, y: bv32, d: bv32)
    requires Sum(x, y, d)
    ensures d == 0 <==> x == y
  {
  }

  lemma EqualIfNoRemainder(s: bv32, u: seq<bool>, v: seq<bool>)
    requires |u| == |v|
    ensures BitState(0, Differences(u, v)) == 0 <==> BitState(s, u) == BitState(s, v)
  {
    assert Sum(s, s, 0);
    DifferenceEvolves(s, s, 0, u, v);
    SumZero(BitState(s, u), BitState(s, v), BitState(0, Differences(u, v)));
  }

  lemma CrcSum(a: seq<bv8>)
    ensures Sum(BitState(0xFFFFFFFF, MessageBits(a)), 0xFFFFFFFF, Crc(a))
  {
  }

  lemma SumsDiffer(x: bv32, y: bv32, f: bv32, c: bv32)
    requires Sum(x, f, c) && Sum(y, f, c)
    ensures x == y
  {
    XorBack(x, y, f);
  }

  lemma SumsAgree(x: bv32, f: bv32, c: bv32, c': bv32)
    requires Sum(x, f, c) && Sum(x, f, c')
    ensures c == c'
  {
  }

  lemma CrcOfState(a: seq<bv8>, b: seq<bv8>)
    ensures Crc(a) == Crc(b) <==> BitState(0xFFFFFFFF, MessageBits(a)) == BitState(0xFFFFFFFF, MessageBits(b))
  {
    var x, y := BitState(0xFFFFFFFF, MessageBits(a)), BitState(0xFFFFFFFF, MessageBits(b));
    CrcSum(a);
    CrcSum(b);
    if Crc(a) == Crc(b) {
      SumsDiffer(x, y, 0xFFFFFFFF, Crc(a));
    }
    if x == y {
      SumsAgree(x, 0xFFFFFFFF, Crc(a), Crc(b));
    }
  }

  /** Two messages of one length collide exactly if their differences, divided on their own from a
      zero register, leave no remainder. */
  lemma CollideIffNoRemainder(a: seq<bv8>, b: seq<bv8>)
    requires |a| == |b|
    ensures Crc(a) == Crc(b) <==> BitState(0, Differences(MessageBits(a), MessageBits(b))) == 0
  {
    var u, v := MessageBits(a), MessageBits(b);
    CrcOfState(a, b);
    EqualIfNoRemainder(0xFFFFFFFF, u, v);
  }

  // -- How far a difference reaches ---------------------------------------------------------------

  predicate AtLeast(d: bv32, m: bv32) {
    m <= d
  }

  lemma ReachOdd(y: bv32, m: bv32)
    requires y & 1 == 1
    ensures AtLeast(Shift(y), m >> 1)
  {
    assert 0x80000000 <= Shift(y);
    assert m >> 1 <= 0x80000000;
  }

  lemma EvenShift(y: bv32)
    requires y & 1 == 0
    ensures Shift(y) == y >> 1
  {
    assert y & 1 != 1;
    XorNone(y >> 1);
  }

  lemma EnterKeepsRest(d: bv32, bit: bool)
    ensures Enter(d, bit) >> 1 == d >> 1
  {
  }

  lemma HalfMonotone(m: bv32, d: bv32)
    requires AtLeast(d, m)
    ensures AtLeast(d >> 1, m >> 1)
  {
  }

  // Whatever bit enters, a register of at least `m` steps to one of at least half of that.
  lemma StepReach(d: bv32, bit: bool, m: bv32)
    requires AtLeast(d, m)
    ensures AtLeast(StepBit(d, bit), Half(m))
  {
    var y := Enter(d, bit);
    LowBit(y);
    if y & 1 == 1 {
      ReachOdd(y, m);
    } else {
      EnterKeepsRest(d, bit);
      HalfMonotone(m, d);
      EvenShift(y);
    }
  }

  function Half(x: bv32): bv32 { x >> 1 }

  // What is left of the top bit after `k` halvings.
  function Threshold(k: nat): bv32 {
    Iterate(Half, 0x80000000, k)
  }

  lemma {:induction false} LowZeroAdd(x: bv32, m: nat, n: nat)
    requires LowZero(x, m) && LowZero(Halve(x, m), n)
    ensures LowZero(x, m + n)
    decreases m
  {
    if m > 0 {
      LowZeroAdd(x >> 1, m - 1, n);
    }
  }

  lemma TopIsLowZero()
    ensures LowZero(0x80000000, 31)
  {
    assert LowZero(0x80000000, 8) && Halve(0x80000000, 8) == 0x800000;
    assert LowZero(0x800000, 8) && Halve(0x800000, 8) == 0x8000;
    assert LowZero(0x8000, 8) && Halve(0x8000, 8) == 0x80;
    LowZeroAdd(0x8000, 8, 7);
    LowZeroAdd(0x800000, 8, 15);
    LowZeroAdd(0x80000000, 8, 23);
  }

  lemma HalfNonzero(x: bv32)
    requires x != 0 && x & 1 == 0
    ensures Half(x) != 0
  {
  }

  // Not zero, but zero in its low 31 - k bits.
  predicate OneBitLeft(k: nat, x: bv32) {
    k <= 31 && x != 0 && LowZero(x, 31 - k)
  }

  lemma OneBitLeftNext(k: nat, x: bv32)
    requires k < 31 && OneBitLeft(k, x)
    ensures OneBitLeft(k + 1, Half(x))
  {
    HalfNonzero(x);
  }

  lemma ThresholdNonzero(k: nat)
    requires k <= 31
    ensures Threshold(k) != 0
  {
    TopIsLowZero();
    forall j: nat, x: bv32 | j < k && OneBitLeft(j, x) ensures OneBitLeft(j + 1, Half(x)) {
      OneBitLeftNext(j, x);
    }
    IterateKeeps(Half, 0x80000000, k, OneBitLeft);
  }

  // `q` is the first position set.
  predicate FirstSet(e: seq<bool>, q: nat) {
    q < |e| && e[q] && forall i :: 0 <= i < q ==> !e[i]
  }

  lemma {:induction false} FindFirstSet(e: seq<bool>, n: nat) returns (q: nat)
    requires exists i :: n <= i < |e| && e[i]
    requires forall i :: 0 <= i < n <= |e| ==> !e[i]
    ensures FirstSet(e, q)
    decreases |e| - n
  {
    if e[n] {
      q := n;
    } else {
      q := FindFirstSet(e, n + 1);
    }
  }

  // The register after `k` bits of which number `q` was the first one set: still zero before that,
  // too large to vanish for the 32 bits from there on, and after those not zero.
  predicate Stage(q: nat, k: nat, x: bv32) {
    if k <= q then x == 0
    else if k <= q + 32 then AtLeast(x, Threshold(k - q - 1))
    else x != 0
  }

  lemma ZeroStays()
    ensures StepBit(0, false) == 0
  {
  }

  lemma FirstHit()
    ensures AtLeast(StepBit(0, true), 0x80000000)
  {
  }

  lemma NonzeroStays(x: bv32)
    requires x != 0
    ensures StepBit(x, false) != 0
  {
    if Shift(x) == 0 {
      ShiftKeepsNonzero(x);
    }
  }

  lemma LargeIsNonzero(x: bv32)
    requires AtLeast(x, Threshold(31))
    ensures x != 0
  {
    ThresholdNonzero(31);
  }

  lemma StageLarge(q: nat, k: nat, x: bv32, bit: bool, m: bv32)
    requires q < k < q + 32 && m == Threshold(k - q - 1) && AtLeast(x, m)
    ensures Stage(q, k + 1, StepBit(x, bit))
  {
    StepReach(x, bit, m);
    assert Threshold(k - q) == Half(m);
  }

  lemma StageNext(e: seq<bool>, q: nat, k: nat, x: bv32)
    requires FirstSet(e, q) && k < |e| && (k >= q + 32 ==> !e[k])
    requires Stage(q, k, x)
    ensures Stage(q, k + 1, StepBit(x, e[k]))
  {
    if k < q {
      ZeroStays();
    } else if k == q {
      FirstHit();
    } else if k < q + 32 {
      StageLarge(q, k, x, e[k], Threshold(k - q - 1));
    } else {
      if k == q + 32 {
        LargeIsNonzero(x);
      }
      NonzeroStays(x);
    }
  }

  // Everything set lies within `w` consecutive positions from `p` on.
  predicate Within(e: seq<bool>, p: nat, w: nat) {
    forall i :: 0 <= i < |e| && e[i] ==> p <= i < p + w
  }

  /** A burst of at most 32 bits always leaves a remainder. */
  lemma BurstLeavesRemainder(e: seq<bool>, p: nat)
    requires Within(e, p, 32)
    requires exists i :: 0 <= i < |e| && e[i]
    ensures BitState(0, e) != 0
  {
    var q := FindFirstSet(e, 0);
    forall k: nat, x: bv32 | k < |e| && Stage(q, k, x) ensures Stage(q, k + 1, StepBit(x, e[k])) {
      StageNext(e, q, k, x);
    }
    FoldKeeps(StepBit, 0, e, |e|, (k: nat, x: bv32) => Stage(q, k, x));
    assert e[..|e|] == e;
    StageNonzero(q, |e|, BitState(0, e));
  }

  lemma StageNonzero(q: nat, k: nat, x: bv32)
    requires Stage(q, k, x) && k > q
    ensures x != 0
  {
    if k <= q + 32 {
      ThresholdNonzero(k - q - 1);
    }
  }

  // -- Byte messages ------------------------------------------------------------------------------

  function ByteOfBits(b0: bool, b1: bool, b2: bool, b3: bool, b4: bool, b5: bool, b6: bool, b7: bool): bv8 {
    (if b0 then 1 else 0) | (if b1 then 2 else 0) | (if b2 then 4 else 0) | (if b3 then 8 else 0)
    | (if b4 then 16 else 0) | (if b5 then 32 else 0) | (if b6 then 64 else 0) | (if b7 then 128 else 0)
  }

  lemma ByteFromBits(b: bv8)
    ensures var x := Widen(b);
            b == ByteOfBits(Bit(x, 0), Bit(x, 1), Bit(x, 2), Bit(x, 3), Bit(x, 4), Bit(x, 5), Bit(x, 6), Bit(x, 7))
  {
  }

  lemma SameBitsSameByte(a: bv8, b: bv8)
    requires forall j :: 0 <= j < 8 ==> Bit(Widen(a), j) == Bit(Widen(b), j)
    ensures a == b
  {
    ByteFromBits(a);
    ByteFromBits(b);
  }

  lemma SameBitsSameBytes(a: seq<bv8>, b: seq<bv8>)
    requires |a| == |b|
    requires forall i :: 0 <= i < 8 * |a| ==> MessageBits(a)[i] == MessageBits(b)[i]
    ensures a == b
  {
    forall i | 0 <= i < |a| ensures a[i] == b[i] {
      forall j | 0 <= j < 8 ensures Bit(Widen(a[i]), j) == Bit(Widen(b[i]), j) {
        assert MessageBits(a)[8 * i + j] == MessageBits(b)[8 * i + j];
      }
      SameBitsSameByte(a[i], b[i]);
    }
  }

  /** Two messages of one length that differ only inside 32 consecutive bits, wherever those lie,
      have the same checksum only if they are the same message. */
  lemma BurstDetected(a: seq<bv8>, b: seq<bv8>, p: nat)
    requires |a| == |b| && Within(Differences(MessageBits(a), MessageBits(b)), p, 32)
    ensures Crc(a) == Crc(b) <==> a == b
  {
    var e := Differences(MessageBits(a), MessageBits(b));
    CollideIffNoRemainder(a, b);
    if a != b {
      if forall i :: 0 <= i < |e| ==> !e[i] {
        SameBitsSameBytes(a, b);
      }
      BurstLeavesRemainder(e, p);
    }
  }

  /** The same for four consecutive bytes. */
  lemma ByteBurstDetected(a: seq<bv8>, b: seq<bv8>, k: nat)
    requires |a| == |b|
    requires forall i :: 0 <= i < |a| && (i < k || i >= k + 4) ==> a[i] == b[i]
    ensures Crc(a) == Crc(b) <==> a == b
  {
    BurstDetected(a, b, 8 * k);
  }

  // -- 32 bits is the limit -----------------------------------------------------------------------

  // The polynomial itself, all 33 bits of it, laid over five bytes.
  function Pattern(j: int): bv8 {
    if j == 0 then 0x41 else if j == 1 then 0x06 else if j == 2 then 0x71 else if j == 3 then 0xDB
    else if j == 4 then 0x01 else 0
  }

  function XorBytes(a: seq<bv8>, b: seq<bv8>): (x: seq<bv8>)
    requires |a| == |b|
    ensures |x| == |a| && forall i :: 0 <= i < |a| ==> x[i] == a[i] ^ b[i]
  {
    seq(|a|, i requires 0 <= i < |a| => a[i] ^ b[i])
  }

  predicate BitSum(x: bv32, y: bv32, z: bv32, j: nat) {
    Bit(z, j) == (Bit(x, j) != Bit(y, j))
  }

  lemma BitSumNext(x: bv32, y: bv32, z: bv32, j: nat)
    requires j > 0 && BitSum(x >> 1, y >> 1, z >> 1, j - 1)
    ensures BitSum(x, y, z, j)
  {
  }

  lemma {:induction false} BitXor(x: bv32, y: bv32, z: bv32, j: nat)
    requires Sum(x, y, z)
    ensures BitSum(x, y, z, j)
    decreases j
  {
    if j == 0 {
      LowBitXor(x, y, z);
    } else {
      var x', y', z' := x >> 1, y >> 1, z >> 1;
      HalfSum(x, y, z);
      BitXor(x', y', z', j - 1);
      BitSumNext(x, y, z, j);
    }
  }

  lemma LowBitXor(x: bv32, y: bv32, z: bv32)
    requires Sum(x, y, z)
    ensures BitSum(x, y, z, 0)
  {
  }

  lemma HalfSum(x: bv32, y: bv32, z: bv32)
    requires Sum(x, y, z)
    ensures Sum(x >> 1, y >> 1, z >> 1)
  {
  }

  lemma WidenXor(x: bv8, y: bv8)
    ensures Sum(Widen(x), Widen(y), Widen(x ^ y))
  {
  }

  lemma ByteBitXor(a: bv8, b: bv8, x: bv8, j: nat)
    requires x == a ^ b
    ensures BitSum(Widen(a), Widen(b), Widen(x), j)
  {
    WidenXor(a, b);
    BitXor(Widen(a), Widen(b), Widen(x), j);
  }

  lemma DifferencesAreXor(a: seq<bv8>, b: seq<bv8>, x: seq<bv8>)
    requires |a| == |b| && x == XorBytes(a, b)
    ensures Differences(MessageBits(a), MessageBits(b)) == MessageBits(x)
  {
    forall i | 0 <= i < 8 * |a|
      ensures Differences(MessageBits(a), MessageBits(b))[i] == MessageBits(x)[i]
    {
      ByteBitXor(a[i / 8], b[i / 8], x[i / 8], i % 8);
    }
  }

  predicate StepTo(r: bv32, b: bv8, t: bv32) {
    TableStep(r, b) == t
  }

  lemma ZeroStep()
    ensures StepTo(0, 0, 0)
  {
  }

  lemma PatternSteps()
    ensures StepTo(0, 0x41, 0x01DB7106) && StepTo(0x01DB7106, 0x06, 0x0001DB71)
    ensures StepTo(0x0001DB71, 0x71, 0x000001DB) && StepTo(0x000001DB, 0xDB, 1) && StepTo(1, 0x01, 0)
  {
  }

  // The first `n` bytes leave the remainder `r`.
  predicate Leaves(x: seq<bv8>, n: nat, r: bv32)
    requires n <= |x|
  {
    BitState(0, MessageBits(x[..n])) == r
  }

  lemma LeavesNext(x: seq<bv8>, n: nat, r: bv32, t: bv32)
    requires n < |x| && Leaves(x, n, r) && StepTo(r, x[n], t)
    ensures Leaves(x, n + 1, t)
  {
    TableStepRefines(0, x[..n], x[n]);
    assert x[..n + 1] == x[..n] + [x[n]];
  }

  lemma ZeroNext(x: seq<bv8>, n: nat)
    requires n < |x| && Leaves(x, n, 0) && x[n] == 0
    ensures Leaves(x, n + 1, 0)
  {
    ZeroStep();
    LeavesNext(x, n, 0, 0);
  }

  lemma {:induction false} ZerosLeaveNothing(x: seq<bv8>, m: nat, n: nat)
    requires m <= n <= |x| && Leaves(x, m, 0)
    requires forall i :: m <= i < n ==> x[i] == 0
    ensures Leaves(x, n, 0)
    decreases n
  {
    if m < n {
      ZerosLeaveNothing(x, m, n - 1);
      ZeroNext(x, n - 1);
    }
  }

  lemma PatternLeavesNothing(x: seq<bv8>, k: nat)
    requires k + 5 <= |x| && Leaves(x, k, 0)
    requires x[k] == 0x41 && x[k + 1] == 0x06 && x[k + 2] == 0x71 && x[k + 3] == 0xDB && x[k + 4] == 0x01
    ensures Leaves(x, k + 5, 0)
  {
    PatternSteps();
    LeavesNext(x, k, 0, 0x01DB7106);
    LeavesNext(x, k + 1, 0x01DB7106, 0x0001DB71);
    LeavesNext(x, k + 2, 0x0001DB71, 0x000001DB);
    LeavesNext(x, k + 3, 0x000001DB, 1);
    LeavesNext(x, k + 4, 1, 0);
  }

  predicate IsPattern(x: seq<bv8>, k: nat) {
    forall i :: 0 <= i < |x| ==> x[i] == Pattern(i - k)
  }

  lemma PatternIsSilent(x: seq<bv8>, k: nat)
    requires k + 5 <= |x| && IsPattern(x, k)
    ensures Leaves(x, |x|, 0)
  {
    assert x[..0] == [];
    ZerosLeaveNothing(x, 0, k);
    PatternLeavesNothing(x, k);
    ZerosLeaveNothing(x, k + 5, |x|);
  }

  lemma XorTwice(x: bv8, y: bv8, z: bv8)
    requires y == x ^ z
    ensures x ^ y == z
  {
  }

  lemma XorIsPattern(a: seq<bv8>, b: seq<bv8>, k: nat)
    requires |a| == |b|
    requires forall i :: 0 <= i < |a| ==> b[i] == a[i] ^ Pattern(i - k)
    ensures IsPattern(XorBytes(a, b), k)
  {
    var x := XorBytes(a, b);
    forall i | 0 <= i < |a| ensures x[i] == Pattern(i - k) {
      XorTwice(a[i], b[i], Pattern(i - k));
    }
  }

  lemma XorFirst(x: bv8, y: bv8)
    requires y == x ^ 0x41
    ensures x != y
  {
  }

  /** A change of 33 bits can go unseen: laying the polynomial over any message, anywhere, leaves the
      checksum as it was. */
  lemma LongerBurstMissed(a: seq<bv8>, b: seq<bv8>, k: nat)
    requires |a| == |b| && k + 5 <= |a|
    requires forall i :: 0 <= i < |a| ==> b[i] == a[i] ^ Pattern(i - k)
    ensures a != b && Crc(a) == Crc(b)
  {
    var x := XorBytes(a, b);
    XorFirst(a[k], b[k]);
    XorIsPattern(a, b, k);
    PatternIsSilent(x, k);
    assert x[..|x|] == x;
    DifferencesAreXor(a, b, x);
    CollideIffNoRemainder(a, b);
  }
}
