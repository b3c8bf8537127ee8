/** The reflected CRC-32 of clause 3.2.9 of IEEE 802.3, bit by bit and by table.

    Bits enter at the least significant end, a byte's least significant bit first. One step of the
    division shifts the register right and, if a one falls out, adds the polynomial. */
module Crc32 {
  import opened Folds

  // One step of the division.
  function Shift(x: bv32): bv32 {
    (x >> 1) ^ (if x & 1 == 1 then 0xEDB88320 else 0)
  }

  function Shifts(x: bv32, n: nat): bv32
    decreases n
  {
    if n == 0 then x else Shifts(Shift(x), n - 1)
  }

  function Enter(s: bv32, bit: bool): bv32 {
    if bit then s ^ 1 else s
  }

  function StepBit(s: bv32, bit: bool): bv32 {
    Shift(Enter(s, bit))
  }

  // The register after the bits of a message, first to last.
  function BitState(s: bv32, bits: seq<bool>): bv32 {
    Fold(StepBit, s, bits)
  }

  function Bit(x: bv32, j: nat): bool
    decreases j
  {
    if j == 0 then x & 1 == 1 else Bit(x >> 1, j - 1)
  }

  // The low `n` bits, least significant first.
  function LowBits(x: bv32, n: nat): (bits: seq<bool>)
    ensures |bits| == n
    ensures forall j :: 0 <= j < n ==> bits[j] == Bit(x, j)
  {
    seq(n, j requires 0 <= j < n => Bit(x, j))
  }

  function Widen(b: bv8): bv32 { b as bv32 }

  function MessageBits(bytes: seq<bv8>): (bits: seq<bool>)
    ensures |bits| == 8 * |bytes|
    ensures forall i :: 0 <= i < 8 * |bytes| ==> bits[i] == Bit(Widen(bytes[i / 8]), i % 8)
  {
    seq(8 * |bytes|, i requires 0 <= i < 8 * |bytes| => Bit(Widen(bytes[i / 8]), i % 8))
  }

  // The checksum as the standard defines it: all ones to start with, complemented at the end.
  function Crc(bytes: seq<bv8>): bv32 {
    BitState(0xFFFFFFFF, MessageBits(bytes)) ^ 0xFFFFFFFF
  }

  // -- The division step is linear and injective --------------------------------------------------

  lemma LowBit(x: bv32)
    ensures x & 1 == 0 || x & 1 == 1
  {
  }

  lemma ShiftOdd(x: bv32, y: bv32)
    requires x & 1 == 1
    ensures Shift(x ^ y) == Shift(x) ^ Shift(y)
  {
    if y & 1 == 1 {
      assert (x ^ y) & 1 == 0;
    } else {
      assert (x ^ y) & 1 == 1;
    }
  }

  lemma ShiftEven(x: bv32, y: bv32)
    requires x & 1 == 0
    ensures Shift(x ^ y) == Shift(x) ^ Shift(y)
  {
    if y & 1 == 1 {
      assert (x ^ y) & 1 == 1;
    } else {
      assert (x ^ y) & 1 == 0;
    }
  }

  lemma ShiftLinear(x: bv32, y: bv32)
    ensures Shift(x ^ y) == Shift(x) ^ Shift(y)
  {
    LowBit(x);
    if x & 1 == 1 {
      ShiftOdd(x, y);
    } else {
      ShiftEven(x, y);
    }
  }

  // The xor is wrapped in a predicate so that the inductions below carry it as an atom.
  predicate Sum(x: bv32, y: bv32, z: bv32) {
    x ^ y == z
  }

  lemma SumShift(x: bv32, y: bv32, z: bv32)
    requires Sum(x, y, z)
    ensures Sum(Shift(x), Shift(y), Shift(z))
  {
    ShiftLinear(x, y);
  }

  predicate SumAfter(x: bv32, y: bv32, z: bv32, n: nat) {
    Sum(Shifts(x, n), Shifts(y, n), Shifts(z, n))
  }

  lemma {:induction false} ShiftsLinear(x: bv32, y: bv32, z: bv32, n: nat)
    requires Sum(x, y, z)
    ensures SumAfter(x, y, z, n)
    decreases n
  {
    if n > 0 {
      var x', y', z' := Shift(x), Shift(y), Shift(z);
      SumShift(x, y, z);
      ShiftsLinear(x', y', z', n - 1);
    }
  }

  lemma ShiftKeepsNonzero(x: bv32)
    requires Shift(x) == 0
    ensures x == 0
  {
  }

  lemma XorZero(x: bv32, y: bv32)
    ensures x ^ y == 0 <==> x == y
  {
  }

  /** No two registers step to the same one. */
  lemma ShiftInjective(x: bv32, y: bv32)
    ensures Shift(x) == Shift(y) ==> x == y
  {
    ShiftLinear(x, y);
    XorZero(Shift(x), Shift(y));
    XorZero(x, y);
    if Shift(x ^ y) == 0 {
      ShiftKeepsNonzero(x ^ y);
    }
  }

  // -- The table ----------------------------------------------------------------------------------

  function Row(i: bv8, a: bv32, b: bv32, c: bv32, d: bv32, e: bv32, f: bv32, g: bv32, h: bv32): bv32 {
    if i & 4 == 0 then
      if i & 2 == 0 then (if i & 1 == 0 then a else b) else (if i & 1 == 0 then c else d)
    else
      if i & 2 == 0 then (if i & 1 == 0 then e else f) else (if i & 1 == 0 then g else h)
  }

  // The constant table, eight entries to a row.
  function Crc32Tab(i: bv8): bv32 {
    if i < 0x08 then Row(i, 0x00000000, 0x77073096, 0xee0e612c, 0x990951ba, 0x076dc419, 0x706af48f, 0xe963a535, 0x9e6495a3)
    else if i < 0x10 then Row(i, 0x0edb8832, 0x79dcb8a4, 0xe0d5e91e, 0x97d2d988, 0x09b64c2b, 0x7eb17cbd, 0xe7b82d07, 0x90bf1d91)
    else if i < 0x18 then Row(i, 0x1db71064, 0x6ab020f2, 0xf3b97148, 0x84be41de, 0x1adad47d, 0x6ddde4eb, 0xf4d4b551, 0x83d385c7)
    else if i < 0x20 then Row(i, 0x136c9856, 0x646ba8c0, 0xfd62f97a, 0x8a65c9ec, 0x14015c4f, 0x63066cd9, 0xfa0f3d63, 0x8d080df5)
    else if i < 0x28 then Row(i, 0x3b6e20c8, 0x4c69105e, 0xd56041e4, 0xa2677172, 0x3c03e4d1, 0x4b04d447, 0xd20d85fd, 0xa50ab56b)
    else if i < 0x30 then Row(i, 0x35b5a8fa, 0x42b2986c, 0xdbbbc9d6, 0xacbcf940, 0x32d86ce3, 0x45df5c75, 0xdcd60dcf, 0xabd13d59)
    else if i < 0x38 then Row(i, 0x26d930ac, 0x51de003a, 0xc8d75180, 0xbfd06116, 0x21b4f4b5, 0x56b3c423, 0xcfba9599, 0xb8bda50f)
    else if i < 0x40 then Row(i, 0x2802b89e, 0x5f058808, 0xc60cd9b2, 0xb10be924, 0x2f6f7c87, 0x58684c11, 0xc1611dab, 0xb6662d3d)
    else if i < 0x48 then Row(i, 0x76dc4190, 0x01db7106, 0x98d220bc, 0xefd5102a, 0x71b18589, 0x06b6b51f, 0x9fbfe4a5, 0xe8b8d433)
    else if i < 0x50 then Row(i, 0x7807c9a2, 0x0f00f934, 0x9609a88e, 0xe10e9818, 0x7f6a0dbb, 0x086d3d2d, 0x91646c97, 0xe6635c01)
    else if i < 0x58 then Row(i, 0x6b6b51f4, 0x1c6c6162, 0x856530d8, 0xf262004e, 0x6c0695ed, 0x1b01a57b, 0x8208f4c1, 0xf50fc457)
    else if i < 0x60 then Row(i, 0x65b0d9c6, 0x12b7e950, 0x8bbeb8ea, 0xfcb9887c, 0x62dd1ddf, 0x15da2d49, 0x8cd37cf3, 0xfbd44c65)
    else if i < 0x68 then Row(i, 0x4db26158, 0x3ab551ce, 0xa3bc0074, 0xd4bb30e2, 0x4adfa541, 0x3dd895d7, 0xa4d1c46d, 0xd3d6f4fb)
    else if i < 0x70 then Row(i, 0x4369e96a, 0x346ed9fc, 0xad678846, 0xda60b8d0, 0x44042d73, 0x33031de5, 0xaa0a4c5f, 0xdd0d7cc9)
    else if i < 0x78 then Row(i, 0x5005713c, 0x270241aa, 0xbe0b1010, 0xc90c2086, 0x5768b525, 0x206f85b3, 0xb966d409, 0xce61e49f)
    else if i < 0x80 then Row(i, 0x5edef90e, 0x29d9c998, 0xb0d09822, 0xc7d7a8b4, 0x59b33d17, 0x2eb40d81, 0xb7bd5c3b, 0xc0ba6cad)
    else if i < 0x88 then Row(i, 0xedb88320, 0x9abfb3b6, 0x03b6e20c, 0x74b1d29a, 0xead54739, 0x9dd277af, 0x04db2615, 0x73dc1683)
    else if i < 0x90 then Row(i, 0xe3630b12, 0x94643b84, 0x0d6d6a3e, 0x7a6a5aa8, 0xe40ecf0b, 0x9309ff9d, 0x0a00ae27, 0x7d079eb1)
    else if i < 0x98 then Row(i, 0xf00f9344, 0x8708a3d2, 0x1e01f268, 0x6906c2fe, 0xf762575d, 0x806567cb, 0x196c3671, 0x6e6b06e7)
    else if i < 0xa0 then Row(i, 0xfed41b76, 0x89d32be0, 0x10da7a5a, 0x67dd4acc, 0xf9b9df6f, 0x8ebeeff9, 0x17b7be43, 0x60b08ed5)
    else if i < 0xa8 then Row(i, 0xd6d6a3e8, 0xa1d1937e, 0x38d8c2c4, 0x4fdff252, 0xd1bb67f1, 0xa6bc5767, 0x3fb506dd, 0x48b2364b)
    else if i < 0xb0 then Row(i, 0xd80d2bda, 0xaf0a1b4c, 0x36034af6, 0x41047a60, 0xdf60efc3, 0xa867df55, 0x316e8eef, 0x4669be79)
    else if i < 0xb8 then Row(i, 0xcb61b38c, 0xbc66831a, 0x256fd2a0, 0x5268e236, 0xcc0c7795, 0xbb0b4703, 0x220216b9, 0x5505262f)
    else if i < 0xc0 then Row(i, 0xc5ba3bbe, 0xb2bd0b28, 0x2bb45a92, 0x5cb36a04, 0xc2d7ffa7, 0xb5d0cf31, 0x2cd99e8b, 0x5bdeae1d)
    else if i < 0xc8 then Row(i, 0x9b64c2b0, 0xec63f226, 0x756aa39c, 0x026d930a, 0x9c0906a9, 0xeb0e363f, 0x72076785, 0x05005713)
    else if i < 0xd0 then Row(i, 0x95bf4a82, 0xe2b87a14, 0x7bb12bae, 0x0cb61b38, 0x92d28e9b, 0xe5d5be0d, 0x7cdcefb7, 0x0bdbdf21)
    else if i < 0xd8 then Row(i, 0x86d3d2d4, 0xf1d4e242, 0x68ddb3f8, 0x1fda836e, 0x81be16cd, 0xf6b9265b, 0x6fb077e1, 0x18b74777)
    else if i < 0xe0 then Row(i, 0x88085ae6, 0xff0f6a70, 0x66063bca, 0x11010b5c, 0x8f659eff, 0xf862ae69, 0x616bffd3, 0x166ccf45)
    else if i < 0xe8 then Row(i, 0xa00ae278, 0xd70dd2ee, 0x4e048354, 0x3903b3c2, 0xa7672661, 0xd06016f7, 0x4969474d, 0x3e6e77db)
    else if i < 0xf0 then Row(i, 0xaed16a4a, 0xd9d65adc, 0x40df0b66, 0x37d83bf0, 0xa9bcae53, 0xdebb9ec5, 0x47b2cf7f, 0x30b5ffe9)
    else if i < 0xf8 then Row(i, 0xbdbdf21c, 0xcabac28a, 0x53b39330, 0x24b4a3a6, 0xbad03605, 0xcdd70693, 0x54de5729, 0x23d967bf)
    else Row(i, 0xb3667a2e, 0xc4614ab8, 0x5d681b02, 0x2a6f2b94, 0xb40bbe37, 0xc30c8ea1, 0x5a05df1b, 0x2d02ef8d)
  }

  // What a byte leaves behind, as a sum over its bits.
  function Pick(x: bv32, m: bv32, t: bv32): bv32 {
    if x & m == 0 then 0 else t
  }

  function BitSum(x: bv32): bv32 {
    Pick(x, 0x01, 0x77073096) ^ Pick(x, 0x02, 0xee0e612c) ^ Pick(x, 0x04, 0x076dc419) ^ Pick(x, 0x08, 0x0edb8832)
    ^ Pick(x, 0x10, 0x1db71064) ^ Pick(x, 0x20, 0x3b6e20c8) ^ Pick(x, 0x40, 0x76dc4190) ^ Pick(x, 0x80, 0xedb88320)
  }

  lemma LowerTable(i: bv8)
    requires i < 0x80
    ensures Crc32Tab(i) == BitSum(Widen(i))
  {
    if i < 0x40 {
      assert Crc32Tab(i) == BitSum(Widen(i));
    } else {
      assert Crc32Tab(i) == BitSum(Widen(i));
    }
  }

  lemma UpperTable(i: bv8)
    requires i >= 0x80
    ensures Crc32Tab(i) == BitSum(Widen(i))
  {
    if i < 0xC0 {
      assert Crc32Tab(i) == BitSum(Widen(i));
    } else {
      assert Crc32Tab(i) == BitSum(Widen(i));
    }
  }

  // Eight steps take `x` to `t`.
  predicate Eight(x: bv32, t: bv32) {
    Shifts(x, 8) == t
  }

  // Eight steps take the bits of `x` under the mask `k` to `t`.
  predicate EightUnder(x: bv32, k: bv32, t: bv32) {
    Eight(x & k, t)
  }

  lemma EightSum(x: bv32, y: bv32, z: bv32, t: bv32, u: bv32)
    requires SumAfter(x, y, z, 8) && Eight(x, t) && Eight(y, u)
    ensures Eight(z, t ^ u)
  {
  }

  lemma MaskIn(x: bv32, k: bv32, m: bv32)
    requires x & m == m && k & m == 0
    ensures Sum(x & k, m, x & (k | m))
  {
  }

  lemma MaskOut(x: bv32, k: bv32, m: bv32)
    requires x & m == 0
    ensures x & (k | m) == x & k
  {
  }

  lemma XorNone(u: bv32)
    ensures u ^ 0 == u
  {
  }

  lemma TakeSetBit(x: bv32, k: bv32, m: bv32, u: bv32, t: bv32)
    requires EightUnder(x, k, u) && Eight(m, t)
    requires x & m == m && k & m == 0
    ensures EightUnder(x, k | m, u ^ t)
  {
    MaskIn(x, k, m);
    ShiftsLinear(x & k, m, x & (k | m), 8);
    EightSum(x & k, m, x & (k | m), u, t);
  }

  // One more bit `m` of `x` is taken into account.
  lemma TakeBit(x: bv32, k: bv32, m: bv32, u: bv32, t: bv32)
    requires EightUnder(x, k, u) && Eight(m, t)
    requires m != 0 && (x & m == m || x & m == 0) && k & m == 0
    ensures EightUnder(x, k | m, u ^ Pick(x, m, t))
  {
    if x & m == 0 {
      MaskOut(x, k, m);
      XorNone(u);
    } else {
      TakeSetBit(x, k, m, u, t);
    }
  }

  lemma EightOfBits()
    ensures Eight(0x01, 0x77073096) && Eight(0x02, 0xee0e612c) && Eight(0x04, 0x076dc419) && Eight(0x08, 0x0edb8832)
    ensures Eight(0x10, 0x1db71064) && Eight(0x20, 0x3b6e20c8) && Eight(0x40, 0x76dc4190) && Eight(0x80, 0xedb88320)
  {
  }

  lemma FirstBit(x: bv32)
    ensures EightUnder(x, 1, Pick(x, 1, 0x77073096))
  {
    EightOfBits();
  }

  lemma EightOfByte(x: bv32)
    ensures EightUnder(x, 0xFF, BitSum(x))
  {
    EightOfBits();
    FirstBit(x);
    var t := Pick(x, 0x01, 0x77073096);
    TakeBit(x, 0x01, 0x02, t, 0xee0e612c);
    t := t ^ Pick(x, 0x02, 0xee0e612c);
    TakeBit(x, 0x03, 0x04, t, 0x076dc419);
    t := t ^ Pick(x, 0x04, 0x076dc419);
    TakeBit(x, 0x07, 0x08, t, 0x0edb8832);
    t := t ^ Pick(x, 0x08, 0x0edb8832);
    TakeBit(x, 0x0F, 0x10, t, 0x1db71064);
    t := t ^ Pick(x, 0x10, 0x1db71064);
    TakeBit(x, 0x1F, 0x20, t, 0x3b6e20c8);
    t := t ^ Pick(x, 0x20, 0x3b6e20c8);
    TakeBit(x, 0x3F, 0x40, t, 0x76dc4190);
    t := t ^ Pick(x, 0x40, 0x76dc4190);
    TakeBit(x, 0x7F, 0x80, t, 0xedb88320);
  }

  lemma WidenMask(i: bv8)
    ensures Widen(i) & 0xFF == Widen(i)
  {
  }

  /** Every entry of the table is its own index after eight steps of the division. */
  lemma TableIsEightShifts(i: bv8)
    ensures Crc32Tab(i) == Shifts(Widen(i), 8)
  {
    if i < 0x80 {
      LowerTable(i);
    } else {
      UpperTable(i);
    }
    EightOfByte(Widen(i));
    WidenMask(i);
  }

  // -- One byte: the table step is eight bit steps -----------------------------------------------

  // A `char` is signed on the machines the peers run on.
  function SignExtend(b: bv8): bv32 {
    if b & 0x80 == 0 then Widen(b) else Widen(b) | 0xFFFFFF00
  }

  function LowByte(x: bv32): bv8 {
    (x & 0xFF) as bv8
  }

  // The register after one turn of the loop.
  function TableStep(s: bv32, b: bv8): bv32 {
    Crc32Tab(LowByte(s ^ SignExtend(b))) ^ (s >> 8)
  }

  function Halve(x: bv32, n: nat): bv32
    decreases n
  {
    if n == 0 then x else Halve(x >> 1, n - 1)
  }

  predicate LowZero(x: bv32, n: nat)
    decreases n
  {
    n == 0 || (x & 1 == 0 && LowZero(x >> 1, n - 1))
  }

  // The low `n` bits of `b` fed in one at a time.
  function Fed(s: bv32, b: bv32, n: nat): bv32
    decreases n
  {
    if n == 0 then s else Fed(Shift(s ^ (b & 1)), b >> 1, n - 1)
  }

  predicate SameSum(s: bv32, b: bv32, l: bv32, h: bv32) {
    s ^ b == l ^ h
  }

  lemma FeedEven(s: bv32, b: bv32, l: bv32, h: bv32)
    requires SameSum(s, b, l, h) && h & 1 == 0 && l & 1 == 0
    ensures SameSum(Shift(s ^ (b & 1)), b >> 1, Shift(l), h >> 1)
  {
    assert (s ^ (b & 1)) & 1 == 0;
  }

  lemma FeedOdd(s: bv32, b: bv32, l: bv32, h: bv32)
    requires SameSum(s, b, l, h) && h & 1 == 0 && l & 1 == 1
    ensures SameSum(Shift(s ^ (b & 1)), b >> 1, Shift(l), h >> 1)
  {
    assert (s ^ (b & 1)) & 1 == 1;
  }

  lemma FeedOne(s: bv32, b: bv32, l: bv32, h: bv32)
    requires SameSum(s, b, l, h) && h & 1 == 0
    ensures SameSum(Shift(s ^ (b & 1)), b >> 1, Shift(l), h >> 1)
  {
    LowBit(l);
    if l & 1 == 0 {
      FeedEven(s, b, l, h);
    } else {
      FeedOdd(s, b, l, h);
    }
  }

  // Feeding bits in one at a time or adding them all first comes to the same; the part `h` of the
  // register that does not reach the low end only moves down.
  lemma {:induction false} FeedAll(s: bv32, b: bv32, l: bv32, h: bv32, n: nat)
    requires SameSum(s, b, l, h) && LowZero(h, n)
    ensures SameSum(Fed(s, b, n), Halve(b, n), Shifts(l, n), Halve(h, n))
    decreases n
  {
    if n > 0 {
      FeedOne(s, b, l, h);
      FeedAll(Shift(s ^ (b & 1)), b >> 1, Shift(l), h >> 1, n - 1);
    }
  }

  lemma SplitSum(s: bv32, b: bv8)
    ensures SameSum(s, Widen(b), (s ^ Widen(b)) & 0xFF, (s ^ Widen(b)) & 0xFFFFFF00)
  {
  }

  lemma HighPart(y: bv32)
    ensures LowZero(y & 0xFFFFFF00, 8) && Halve(y & 0xFFFFFF00, 8) == y >> 8
  {
  }

  lemma ByteGone(b: bv8)
    ensures Halve(Widen(b), 8) == 0
  {
  }

  lemma LowByteIsMask(s: bv32, b: bv8)
    ensures Widen(LowByte(s ^ SignExtend(b))) == (s ^ Widen(b)) & 0xFF
  {
  }

  lemma ByteMissesRest(s: bv32, b: bv8, y: bv32)
    requires y == s ^ Widen(b)
    ensures y >> 8 == s >> 8
  {
  }

  lemma Cancel(f: bv32, b: bv32, l: bv32, h: bv32)
    requires SameSum(f, b, l, h) && b == 0
    ensures Sum(l, h, f)
  {
  }

  // `n` is a parameter so that the recursions below stay folded.
  lemma FeedByte(s: bv32, b: bv8, y: bv32, n: nat)
    requires n == 8 && y == s ^ Widen(b)
    ensures Sum(Shifts(y & 0xFF, n), Halve(y & 0xFFFFFF00, n), Fed(s, Widen(b), n))
  {
    SplitSum(s, b);
    HighPart(y);
    FeedAll(s, Widen(b), y & 0xFF, y & 0xFFFFFF00, n);
    ByteGone(b);
    Cancel(Fed(s, Widen(b), n), Halve(Widen(b), n), Shifts(y & 0xFF, n), Halve(y & 0xFFFFFF00, n));
  }

  lemma EntryIsShifts(s: bv32, b: bv8, n: nat)
    requires n == 8
    ensures Crc32Tab(LowByte(s ^ SignExtend(b))) == Shifts((s ^ Widen(b)) & 0xFF, n)
  {
    LowByteIsMask(s, b);
    TableIsEightShifts(LowByte(s ^ SignExtend(b)));
  }

  lemma RestIsHalves(s: bv32, b: bv8, y: bv32, n: nat)
    requires n == 8 && y == s ^ Widen(b)
    ensures Halve(y & 0xFFFFFF00, n) == s >> 8
  {
    HighPart(y);
    ByteMissesRest(s, b, y);
  }

  lemma StepSum(s: bv32, b: bv8, n: nat)
    requires n == 8
    ensures Sum(Crc32Tab(LowByte(s ^ SignExtend(b))), s >> 8, Fed(s, Widen(b), n))
  {
    FeedByte(s, b, s ^ Widen(b), n);
    EntryIsShifts(s, b, n);
    RestIsHalves(s, b, s ^ Widen(b), n);
  }

  lemma TableStepIsFed(s: bv32, b: bv8, n: nat)
    requires n == 8
    ensures TableStep(s, b) == Fed(s, Widen(b), n)
  {
    StepSum(s, b, n);
  }

  // -- Whole messages -----------------------------------------------------------------------------

  lemma EnterIsXor(s: bv32, b: bv32)
    ensures Enter(s, b & 1 == 1) == s ^ (b & 1)
  {
    LowBit(b);
    if b & 1 == 0 {
      XorNone(s);
    }
  }

  lemma FedFirst(s: bv32, b: bv32)
    ensures StepBit(s, Bit(b, 0)) == Shift(s ^ (b & 1))
  {
    EnterIsXor(s, b);
  }

  // Feeding the low `n` bits of `b` is feeding them as a bit string.
  predicate FedAsBits(s: bv32, b: bv32, n: nat) {
    Fed(s, b, n) == BitState(s, LowBits(b, n))
  }

  lemma FedAsBitsNext(s: bv32, b: bv32, n: nat, t: bv32)
    requires n > 0 && t == Shift(s ^ (b & 1)) && FedAsBits(t, b >> 1, n - 1)
    ensures FedAsBits(s, b, n)
  {
    FedFirst(s, b);
    FoldOneFirst(StepBit, s, LowBits(b, n));
    assert LowBits(b, n)[1..] == LowBits(b >> 1, n - 1);
  }

  lemma {:induction false} FedIsBits(s: bv32, b: bv32, n: nat)
    ensures FedAsBits(s, b, n)
    decreases n
  {
    if n > 0 {
      FedIsBits(Shift(s ^ (b & 1)), b >> 1, n - 1);
      FedAsBitsNext(s, b, n, Shift(s ^ (b & 1)));
    }
  }

  lemma MessageBitsLast(bytes: seq<bv8>, b: bv8)
    ensures MessageBits(bytes + [b]) == MessageBits(bytes) + LowBits(Widen(b), 8)
  {
  }

  /** One turn of the table loop is eight bit steps: the table form refines the division. */
  lemma TableStepRefines(s: bv32, bytes: seq<bv8>, b: bv8)
    ensures TableStep(BitState(s, MessageBits(bytes)), b) == BitState(s, MessageBits(bytes + [b]))
  {
    var t := BitState(s, MessageBits(bytes));
    TableStepIsFed(t, b, 8);
    FedIsBits(t, Widen(b), 8);
    FoldConcat(StepBit, s, MessageBits(bytes), LowBits(Widen(b), 8));
    MessageBitsLast(bytes, b);
  }

  // The register after the bytes of a message, by table.
  function TableState(s: bv32, bytes: seq<bv8>): bv32 {
    Fold(TableStep, s, bytes)
  }

  predicate Refines(s: bv32, bytes: seq<bv8>, k: nat, x: bv32) {
    k <= |bytes| && x == BitState(s, MessageBits(bytes[..k]))
  }

  lemma RefinesNext(s: bv32, bytes: seq<bv8>, k: nat, x: bv32)
    requires k < |bytes| && Refines(s, bytes, k, x)
    ensures Refines(s, bytes, k + 1, TableStep(x, bytes[k]))
  {
    TableStepRefines(s, bytes[..k], bytes[k]);
    assert bytes[..k + 1] == bytes[..k] + [bytes[k]];
  }

  /** The table form refines the bitwise division on every message. */
  lemma TableRefines(s: bv32, bytes: seq<bv8>)
    ensures TableState(s, bytes) == BitState(s, MessageBits(bytes))
  {
    forall k: nat, x: bv32 | k < |bytes| && Refines(s, bytes, k, x)
      ensures Refines(s, bytes, k + 1, TableStep(x, bytes[k]))
    {
      RefinesNext(s, bytes, k, x);
    }
    assert MessageBits(bytes[..0]) == [];
    FoldKeeps(TableStep, s, bytes, |bytes|, (k: nat, x: bv32) => Refines(s, bytes, k, x));
    assert bytes[..|bytes|] == bytes;
  }

  lemma {:induction false} FedInjective(s: bv32, t: bv32, b: bv32, n: nat)
    ensures Fed(s, b, n) == Fed(t, b, n) ==> s == t
    decreases n
  {
    if n > 0 {
      FedInjective(Shift(s ^ (b & 1)), Shift(t ^ (b & 1)), b >> 1, n - 1);
      ShiftInjective(s ^ (b & 1), t ^ (b & 1));
      XorBack(s, t, b & 1);
    }
  }

  lemma XorBack(s: bv32, t: bv32, e: bv32)
    ensures s ^ e == t ^ e ==> s == t
  {
  }

  /** For any one byte, the loop's step is injective in the register. */
  lemma TableStepInjective(s: bv32, t: bv32, b: bv8)
    ensures TableStep(s, b) == TableStep(t, b) <==> s == t
  {
    TableStepIsFed(s, b, 8);
    TableStepIsFed(t, b, 8);
    FedInjective(s, t, Widen(b), 8);
  }

  // One turn of the loop, and the register after the first `k` bytes.
  predicate Turn(x: bv32, b: bv8, y: bv32) { TableStep(x, b) == y }

  predicate LoopAt(bytes: seq<bv8>, k: nat, x: bv32) {
    k <= |bytes| && TableState(0xFFFFFFFF, bytes[..k]) == x
  }

  lemma LoopNext(bytes: seq<bv8>, k: nat, x: bv32, y: bv32)
    requires k < |bytes| && LoopAt(bytes, k, x) && Turn(x, bytes[k], y)
    ensures LoopAt(bytes, k + 1, y)
  {
    FoldOneMore(TableStep, 0xFFFFFFFF, bytes[..k], bytes[k]);
    assert bytes[..k + 1] == bytes[..k] + [bytes[k]];
  }

  lemma DigitTurns12()
    ensures Turn(0xFFFFFFFF, 0x31, 0x7C231048) && Turn(0x7C231048, 0x32, 0xB0ACBB32)
  {
  }

  lemma DigitTurns34()
    ensures Turn(0xB0ACBB32, 0x33, 0x77B79C2D) && Turn(0x77B79C2D, 0x34, 0x641C1F5C)
  {
  }

  lemma DigitTurns56()
    ensures Turn(0x641C1F5C, 0x35, 0x340AC5E3) && Turn(0x340AC5E3, 0x36, 0xF68D2C9E)
  {
  }

  lemma DigitTurns78()
    ensures Turn(0xF68D2C9E, 0x37, 0xAFFC9660) && Turn(0xAFFC9660, 0x38, 0x651F2550)
  {
  }

  lemma DigitTurns9()
    ensures Turn(0x651F2550, 0x39, 0x340BC6D9)
  {
  }

  // The digits from 1 to 9 in ASCII.
  predicate IsDigits(d: seq<bv8>) {
    && |d| == 9 && d[0] == 0x31 && d[1] == 0x32 && d[2] == 0x33 && d[3] == 0x34 && d[4] == 0x35 && d[5] == 0x36
    && d[6] == 0x37 && d[7] == 0x38 && d[8] == 0x39
  }

  /** The value CRC-32s of this kind are checked against, and that of an empty message. */
  lemma CheckValue(d: seq<bv8>)
    ensures IsDigits(d) ==> Crc(d) == 0xCBF43926
    ensures d == [] ==> Crc(d) == 0
  {
    TableRefines(0xFFFFFFFF, d);
    if d == [] {
      assert MessageBits(d) == [];
    }
    if IsDigits(d) {
      DigitsLoop(d);
      assert d[..9] == d;
    }
  }

  lemma FourDigits(d: seq<bv8>)
    requires IsDigits(d)
    ensures LoopAt(d, 4, 0x641C1F5C)
  {
    assert d[..0] == [];
    DigitTurns12();
    DigitTurns34();
    LoopNext(d, 0, 0xFFFFFFFF, 0x7C231048);
    LoopNext(d, 1, 0x7C231048, 0xB0ACBB32);
    LoopNext(d, 2, 0xB0ACBB32, 0x77B79C2D);
    LoopNext(d, 3, 0x77B79C2D, 0x641C1F5C);
  }

  lemma DigitsLoop(d: seq<bv8>)
    requires IsDigits(d)
    ensures LoopAt(d, 9, 0x340BC6D9)
  {
    FourDigits(d);
    DigitTurns56();
    DigitTurns78();
    DigitTurns9();
    LoopNext(d, 4, 0x641C1F5C, 0x340AC5E3);
    LoopNext(d, 5, 0x340AC5E3, 0xF68D2C9E);
    LoopNext(d, 6, 0xF68D2C9E, 0xAFFC9660);
    LoopNext(d, 7, 0xAFFC9660, 0x651F2550);
    LoopNext(d, 8, 0x651F2550, 0x340BC6D9);
  }

  // -- The loops ----------------------------------------------------------------------------------

  /** The checksum of the first `count` bytes of a buffer. */
  method ChecksumBytes(count: nat, bytes: array<bv8>) returns (checksum: bv32)
    requires count <= bytes.Length
    ensures checksum == Crc(bytes[..count])
  {
    checksum := 0xFFFFFFFF;
    for i := 0 to count
      invariant checksum == TableState(0xFFFFFFFF, bytes[..i])
    {
      FoldOneMore(TableStep, 0xFFFFFFFF, bytes[..i], bytes[i]);
      assert bytes[..i + 1] == bytes[..i] + [bytes[i]];
      checksum := TableStep(checksum, bytes[i]);
    }
    TableRefines(0xFFFFFFFF, bytes[..count]);
    checksum := checksum ^ 0xFFFFFFFF;
  }

  /** The checksum and the size of a file read one byte at a time to its end. */
  method ChecksumFile(file: seq<bv8>) returns (size: nat, checksum: bv32)
    ensures size == |file| && checksum == Crc(file)
  {
    size := |file|;
    checksum := 0xFFFFFFFF;
    var read := 0;
    ghost var done: seq<bv8> := [];
    while read < |file|
      invariant read <= |file| && done == file[..read]
      invariant checksum == TableState(0xFFFFFFFF, done)
    {
      FoldOneMore(TableStep, 0xFFFFFFFF, done, file[read]);
      checksum := TableStep(checksum, file[read]);
      done := done + [file[read]];
      read := read + 1;
    }
    assert done == file;
    TableRefines(0xFFFFFFFF, file);
    checksum := checksum ^ 0xFFFFFFFF;
  }
}
