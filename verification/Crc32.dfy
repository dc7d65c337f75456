/**
 The CRC-32 of `backend/src/exportIntegrity.js`: the lookup table, the byte-at-a-time loop over it,
 and their agreement with the bit-serial register of section 4.4.7 of PKWARE's APPNOTE.TXT.

 Register operations have names so that the long inductions can hide their bit-vector bodies and
 rest on the few word-level laws alone.
 */
module Crc32 {
  import opened Bytes

  const POLYNOMIAL: bv32 := 0xEDB8_8320
  const ALL_ONES: bv32 := 0xFFFF_FFFF

  function Xor(a: bv32, b: bv32): bv32 { a ^ b }

  /** Unsigned shift right by one bit. */
  function Half(a: bv32): bv32 { a >> 1 }

  /** Unsigned shift right by one byte. */
  function DropByte(a: bv32): bv32 { a >> 8 }

  function LowByte(a: bv32): bv32 { a & 0xFF }

  predicate LowBit(a: bv32) { a & 1 == 1 }

  function Word(b: byte): bv32 { (b as bv8) as bv32 }

  /** The low byte of the register, as a table index. */
  function Index(a: bv32): byte { (LowByte(a) as bv8) as int }

  /** One step of the reflected shift register with no input bit. */
  function Step(c: bv32): bv32 {
    if LowBit(c) then Xor(POLYNOMIAL, Half(c)) else Half(c)
  }

  function Steps(c: bv32, n: nat): bv32
    decreases n
  {
    if n == 0 then c else Steps(Step(c), n - 1)
  }

  /** One step of the serial register: the input bit is fed in against the bit that leaves it. */
  function SerialStep(c: bv32, bit: bool): bv32 {
    if LowBit(c) != bit then Xor(POLYNOMIAL, Half(c)) else Half(c)
  }

  /** Feeds the low `n` bits of `b`, least significant first. */
  function SerialBits(c: bv32, b: bv32, n: nat): bv32
    decreases n
  {
    if n == 0 then c else SerialBits(SerialStep(c, LowBit(b)), Half(b), n - 1)
  }

  /** Feeds a whole message bit by bit, with no table. */
  function SerialRegister(c: bv32, data: seq<byte>): bv32
    decreases |data|
  {
    if data == [] then c else SerialRegister(SerialBits(c, Word(data[0]), 8), data[1..])
  }

  /** The reference checksum: register preset to all ones, result complemented. */
  function Checksum(data: seq<byte>): bv32 {
    Xor(SerialRegister(ALL_ONES, data), ALL_ONES)
  }

  /** The checksum as the unsigned number stored in a ZIP header. */
  function ChecksumValue(data: seq<byte>): nat {
    Checksum(data) as int
  }

  ghost predicate IsTable(table: seq<bv32>) {
    |table| == 256 && forall i: byte :: table[i] == Steps(Word(i), 8)
  }

  /** Builds the table: entry `i` is `i` after eight single-bit steps. */
  method BuildTable() returns (table: seq<bv32>)
    ensures IsTable(table)
  {
    hide Xor, Half, LowBit, Word;
    table := [];
    var i := 0;
    while i < 256
      invariant 0 <= i <= 256 && |table| == i
      invariant forall k: byte :: k < i ==> table[k] == Steps(Word(k), 8)
    {
      var c := Word(i);
      var j := 0;
      while j < 8
        invariant 0 <= j <= 8
        invariant Steps(c, 8 - j) == Steps(Word(i), 8)
      {
        c := if LowBit(c) then Xor(POLYNOMIAL, Half(c)) else Half(c);
        j := j + 1;
      }
      table := table + [c];
      i := i + 1;
    }
  }

  /** The table-driven loop computes the bit-serial checksum. */
  method Compute(table: seq<bv32>, data: seq<byte>) returns (crc: bv32)
    requires IsTable(table)
    ensures crc == Checksum(data)
  {
    hide Xor, Half, LowBit, Word, Index, DropByte, LowByte, Steps, SerialBits;
    crc := ALL_ONES;
    var i := 0;
    assert data[0..] == data;
    while i < |data|
      invariant 0 <= i <= |data|
      invariant SerialRegister(crc, data[i..]) == SerialRegister(ALL_ONES, data)
    {
      LookupIsEightSteps(crc, data[i]);
      assert data[i..][1..] == data[i + 1..];
      crc := Xor(table[Index(Xor(crc, Word(data[i])))], DropByte(crc));
      i := i + 1;
    }
    crc := Xor(crc, ALL_ONES);
  }

  // ----- word-level laws, each small enough for the bit-vector solver alone

  lemma XorShift(a: bv32, b: bv32)
    ensures Half(Xor(a, b)) == Xor(Half(a), Half(b))
    ensures DropByte(Xor(a, b)) == Xor(DropByte(a), DropByte(b))
  {
  }

  lemma XorLowBit(a: bv32, b: bv32)
    ensures LowBit(Xor(a, b)) <==> LowBit(a) != LowBit(b)
  {
  }

  lemma XorRegroup(p: bv32, a: bv32, b: bv32)
    ensures Xor(Xor(p, a), b) == Xor(p, Xor(a, b))
    ensures Xor(a, Xor(p, b)) == Xor(p, Xor(a, b))
    ensures Xor(Xor(p, a), Xor(p, b)) == Xor(a, b)
  {
    hide Xor;
    XorAssociative(p, a, b);
    XorCommutes(p, a);
    XorCommutes(p, b);
    XorAssociative(a, p, b);
    XorAssociative(a, p, Xor(p, b));
    XorCancel(b, p);
    XorCommutes(p, Xor(p, b));
  }

  lemma XorAssociative(p: bv32, a: bv32, b: bv32)
    ensures Xor(Xor(p, a), b) == Xor(p, Xor(a, b))
  {
  }

  lemma XorCommutes(a: bv32, b: bv32)
    ensures Xor(a, b) == Xor(b, a)
  {
  }

  lemma XorCancel(a: bv32, b: bv32)
    ensures Xor(Xor(a, b), b) == a
    ensures Xor(Xor(b, a), b) == a
    ensures Xor(a, 0) == a
  {
  }

  lemma SplitLowByte(x: bv32) returns (high: bv32)
    ensures x == Xor(LowByte(x), high)
    ensures LowByte(high) == 0 && DropByte(high) == DropByte(x)
  {
    high := x & 0xFFFF_FF00;
  }

  lemma WordIsByte(b: byte)
    ensures Word(b) < 256 && DropByte(Word(b)) == 0 && LowByte(Word(b)) == Word(b)
  {
    assert Word(b) < 256;
    hide Word, DropByte, LowByte;
  }

  lemma WordInjective(b: byte, c: byte)
    requires Word(b) == Word(c)
    ensures b == c
  {
    ByteRoundTrip(b);
    ByteRoundTrip(c);
  }

  lemma LowByteIsIndex(x: bv32)
    ensures Word(Index(x)) == LowByte(x)
  {
    NumberRoundTrip(LowByte(x) as bv8);
  }

  lemma StepFeedBit(c: bv32, b: bv32)
    ensures Step(Xor(c, b)) == Xor(SerialStep(c, LowBit(b)), Half(b))
  {
    hide Xor, Half, LowBit;
    XorShift(c, b);
    XorLowBit(c, b);
    XorRegroup(POLYNOMIAL, Half(c), Half(b));
  }

  lemma StepLinear(a: bv32, b: bv32)
    ensures Step(Xor(a, b)) == Xor(Step(a), Step(b))
  {
    hide Xor, Half, LowBit;
    XorShift(a, b);
    XorLowBit(a, b);
    XorRegroup(POLYNOMIAL, Half(a), Half(b));
  }

  // ----- one table lookup is eight register steps

  function ShiftOut(b: bv32, n: nat): bv32
    decreases n
  {
    if n == 0 then b else ShiftOut(Half(b), n - 1)
  }

  /** Preloading the register with the input is the same as feeding the input bit by bit. */
  lemma {:induction false} StepsFeedBits(c: bv32, b: bv32, n: nat)
    ensures Steps(Xor(c, b), n) == Xor(SerialBits(c, b, n), ShiftOut(b, n))
    decreases n
  {
    hide Xor, Half, LowBit, Step, SerialStep;
    if n != 0 {
      StepFeedBit(c, b);
      StepsFeedBits(SerialStep(c, LowBit(b)), Half(b), n - 1);
    }
  }

  lemma {:induction false} StepsLinear(a: bv32, b: bv32, n: nat)
    ensures Steps(Xor(a, b), n) == Xor(Steps(a, n), Steps(b, n))
    decreases n
  {
    hide Xor, Step;
    if n != 0 {
      StepLinear(a, b);
      StepsLinear(Step(a), Step(b), n - 1);
    }
  }

  lemma EightHalves(b: bv32)
    ensures Half(Half(Half(Half(Half(Half(Half(Half(b)))))))) == DropByte(b)
  {
  }

  lemma FourShifts(b: bv32, n: nat)
    ensures ShiftOut(b, n + 4) == ShiftOut(Half(Half(Half(Half(b)))), n)
  {
    hide Half;
    assert ShiftOut(b, n + 4) == ShiftOut(Half(b), n + 3);
    assert ShiftOut(Half(b), n + 3) == ShiftOut(Half(Half(b)), n + 2);
    assert ShiftOut(Half(Half(b)), n + 2) == ShiftOut(Half(Half(Half(b))), n + 1);
  }

  lemma ShiftOutByte(b: bv32)
    ensures ShiftOut(b, 8) == DropByte(b)
  {
    hide Half, DropByte;
    FourShifts(b, 4);
    FourShifts(Half(Half(Half(Half(b)))), 0);
    EightHalves(b);
  }

  predicate LowBitsClear(h: bv32, n: nat)
    decreases n
  {
    n == 0 || (!LowBit(h) && LowBitsClear(Half(h), n - 1))
  }

  lemma FourClear(h: bv32, n: nat)
    requires !LowBit(h) && !LowBit(Half(h)) && !LowBit(Half(Half(h))) && !LowBit(Half(Half(Half(h))))
    requires LowBitsClear(Half(Half(Half(Half(h)))), n)
    ensures LowBitsClear(h, n + 4)
  {
    hide Half, LowBit;
    assert LowBitsClear(Half(Half(Half(h))), n + 1);
    assert LowBitsClear(Half(Half(h)), n + 2);
    assert LowBitsClear(Half(h), n + 3);
  }

  lemma LowByteClear(h: bv32)
    requires LowByte(h) == 0
    ensures LowBitsClear(h, 8)
  {
    var m := Half(Half(Half(Half(h))));
    FourClear(m, 0);
    FourClear(h, 4);
  }

  /** Bits that are clear pass through the register by shifting only. */
  lemma {:induction false} StepsShift(h: bv32, n: nat)
    requires LowBitsClear(h, n)
    ensures Steps(h, n) == ShiftOut(h, n)
    decreases n
  {
    hide Half, LowBit, Xor;
    if n != 0 {
      StepsShift(Half(h), n - 1);
    }
  }

  /** One lookup on the low byte, xored with the shifted register, feeds one whole byte. */
  lemma LookupIsEightSteps(crc: bv32, b: byte)
    ensures SerialBits(crc, Word(b), 8) == Xor(Steps(Word(Index(Xor(crc, Word(b)))), 8), DropByte(crc))
  {
    hide Xor, Half, LowBit, Word, Index, DropByte, LowByte, Steps, SerialBits, ShiftOut, LowBitsClear;
    var w := Word(b);
    var x := Xor(crc, w);
    LowByteIsIndex(x);
    WordIsByte(b);
    var high := SplitLowByte(x);
    ShiftOutByte(w);
    StepsFeedBits(crc, w, 8);
    StepsLinear(LowByte(x), high, 8);
    LowByteClear(high);
    StepsShift(high, 8);
    ShiftOutByte(high);
    XorShift(crc, w);
    XorCancel(SerialBits(crc, w, 8), 0);
    XorCancel(DropByte(crc), 0);
  }

  // ----- what the checksum detects

  lemma StepTopBit(a: bv32)
    ensures Step(a) & 0x8000_0000 == 0 <==> !LowBit(a)
  {
  }

  lemma HalfAndLowBit(a: bv32, b: bv32)
    requires Half(a) == Half(b) && LowBit(a) == LowBit(b)
    ensures a == b
  {
  }

  lemma StepInjective(a: bv32, b: bv32)
    requires Step(a) == Step(b)
    ensures a == b
  {
    hide Xor, Half, LowBit;
    StepTopBit(a);
    StepTopBit(b);
    XorCancel(Half(a), POLYNOMIAL);
    XorCancel(Half(b), POLYNOMIAL);
    HalfAndLowBit(a, b);
  }

  lemma {:induction false} StepsInjective(a: bv32, b: bv32, n: nat)
    requires Steps(a, n) == Steps(b, n)
    ensures a == b
    decreases n
  {
    hide Step;
    if n != 0 {
      StepsInjective(Step(a), Step(b), n - 1);
      StepInjective(a, b);
    }
  }

  function AddLowByte(b: byte, rest: bv32): bv32 { Word(b) ^ (rest << 8) }

  /** Up to four bytes as one register word, first byte lowest. */
  function Burst(data: seq<byte>): bv32 {
    if data == [] then 0 else AddLowByte(data[0], Burst(data[1..]))
  }

  /** `r` fits in `n` bytes. */
  predicate Fits(r: bv32, n: nat) {
    if n == 0 then r == 0 else if n == 1 then r <= 0xFF else if n == 2 then r <= 0xFFFF else n > 3 || r <= 0xFF_FFFF
  }

  lemma AddLowByteParts(b: byte, r: bv32)
    requires Fits(r, 3)
    ensures DropByte(AddLowByte(b, r)) == r
    ensures LowByte(AddLowByte(b, r)) == LowByte(Word(b))
  {
    WordIsByte(b);
    assert Word(b) < 256;
    hide Word;
  }

  lemma AddLowByteFits(b: byte, r: bv32, n: nat)
    requires Fits(r, n) && n <= 3
    ensures Fits(AddLowByte(b, r), n + 1)
    ensures Fits(r, 3)
  {
    var w := Word(b);
    assert w < 256;
    hide Word;
    assert n == 0 ==> w ^ (r << 8) <= 0xFF;
    assert n == 1 ==> w ^ (r << 8) <= 0xFFFF;
    assert n == 2 ==> w ^ (r << 8) <= 0xFF_FFFF;
  }

  lemma {:induction false} BurstFits(data: seq<byte>)
    requires |data| <= 4
    ensures Fits(Burst(data), |data|)
    ensures data != [] ==> Fits(Burst(data[1..]), 3)
  {
    hide AddLowByte;
    if data != [] {
      BurstFits(data[1..]);
      AddLowByteFits(data[0], Burst(data[1..]), |data| - 1);
    }
  }

  function Masked(w: bv32, m: bv32): bv32 { w & m }

  lemma SameLowBits(w: bv32, b: bv32, m: bv32)
    requires Masked(w, m) == Masked(b, m)
    ensures LowBit(m) ==> LowBit(w) == LowBit(b)
    ensures Masked(Half(w), Half(m)) == Masked(Half(b), Half(m))
  {
  }

  /** Feeding `n` bits looks at the low `n` bits only; `masks[n]` selects them. */
  lemma {:induction false} SerialBitsLow(c: bv32, w: bv32, b: bv32, n: nat, masks: seq<bv32>)
    requires |masks| > n
    requires forall k :: 0 < k <= n ==> LowBit(masks[k]) && Half(masks[k]) == masks[k - 1]
    requires Masked(w, masks[n]) == Masked(b, masks[n])
    ensures SerialBits(c, w, n) == SerialBits(c, b, n)
    decreases n
  {
    hide LowBit, Half, SerialStep, Masked;
    if n != 0 {
      SameLowBits(w, b, masks[n]);
      SerialBitsLow(SerialStep(c, LowBit(w)), Half(w), Half(b), n - 1, masks);
    }
  }

  lemma SerialBitsLowByte(c: bv32, w: bv32, b: bv32)
    requires LowByte(w) == LowByte(b)
    ensures SerialBits(c, w, 8) == SerialBits(c, b, 8)
  {
    hide SerialBits;
    SerialBitsLow(c, w, b, 8, [0, 1, 3, 7, 15, 31, 63, 127, 255]);
  }

  lemma {:induction false} StepsSplit(c: bv32, m: nat, n: nat)
    ensures Steps(c, m + n) == Steps(Steps(c, m), n)
    decreases m
  {
    hide Step;
    if m != 0 {
      StepsSplit(Step(c), m - 1, n);
    }
  }

  lemma FeedByte(c: bv32, b: byte, r: bv32)
    requires Fits(r, 3)
    ensures Steps(Xor(c, AddLowByte(b, r)), 8) == Xor(SerialBits(c, Word(b), 8), r)
  {
    hide Xor, Half, LowBit, Word, DropByte, LowByte, Steps, SerialBits, ShiftOut, AddLowByte, Fits;
    var w := AddLowByte(b, r);
    AddLowByteParts(b, r);
    StepsFeedBits(c, w, 8);
    ShiftOutByte(w);
    SerialBitsLowByte(c, w, Word(b));
  }

  /** A burst of at most four bytes acts on the register like one preloaded word. */
  lemma {:induction false} RegisterIsSteps(c: bv32, data: seq<byte>)
    requires |data| <= 4
    ensures SerialRegister(c, data) == Steps(Xor(c, Burst(data)), 8 * |data|)
    decreases |data|
  {
    hide Xor, Step, Word, SerialBits, AddLowByte, Fits;
    if data == [] {
      XorCancel(c, 0);
    } else {
      BurstFits(data);
      FeedByte(c, data[0], Burst(data[1..]));
      StepsSplit(Xor(c, Burst(data)), 8, 8 * |data[1..]|);
      RegisterIsSteps(SerialBits(c, Word(data[0]), 8), data[1..]);
    }
  }

  lemma {:induction false} RegisterSplit(c: bv32, a: seq<byte>, b: seq<byte>)
    ensures SerialRegister(c, a + b) == SerialRegister(SerialRegister(c, a), b)
    decreases |a|
  {
    hide Word, SerialBits;
    if a == [] {
      assert a + b == b;
    } else {
      assert (a + b)[1..] == a[1..] + b;
      RegisterSplit(SerialBits(c, Word(a[0]), 8), a[1..], b);
    }
  }

  lemma FeedByteInjective(c: bv32, d: bv32, b: byte)
    requires SerialBits(c, Word(b), 8) == SerialBits(d, Word(b), 8)
    ensures c == d
  {
    hide Xor, Word, SerialBits, Steps, ShiftOut;
    var w := Word(b);
    StepsFeedBits(c, w, 8);
    StepsFeedBits(d, w, 8);
    StepsInjective(Xor(c, w), Xor(d, w), 8);
    XorCancel(c, w);
    XorCancel(d, w);
  }

  lemma {:induction false} RegisterInjective(c: bv32, d: bv32, data: seq<byte>)
    requires SerialRegister(c, data) == SerialRegister(d, data)
    ensures c == d
    decreases |data|
  {
    hide Word, SerialBits;
    if data != [] {
      RegisterInjective(SerialBits(c, Word(data[0]), 8), SerialBits(d, Word(data[0]), 8), data[1..]);
      FeedByteInjective(c, d, data[0]);
    }
  }

  lemma {:induction false} BurstInjective(u: seq<byte>, v: seq<byte>)
    requires |u| == |v| <= 4
    requires Burst(u) == Burst(v)
    ensures u == v
    decreases |u|
  {
    hide AddLowByte, Fits, Word, DropByte, LowByte;
    if u != [] {
      BurstFits(u);
      BurstFits(v);
      AddLowByteParts(u[0], Burst(u[1..]));
      AddLowByteParts(v[0], Burst(v[1..]));
      WordIsByte(u[0]);
      WordIsByte(v[0]);
      WordInjective(u[0], v[0]);
      BurstInjective(u[1..], v[1..]);
      assert u == [u[0]] + u[1..];
      assert v == [v[0]] + v[1..];
    }
  }

  /** Two messages that differ only inside one window of at most four bytes never share a checksum. */
  lemma BurstDetected(prefix: seq<byte>, u: seq<byte>, v: seq<byte>, suffix: seq<byte>)
    requires |u| == |v| <= 4
    ensures Checksum(prefix + u + suffix) == Checksum(prefix + v + suffix) <==> u == v
  {
    hide Xor, SerialRegister, Steps, Burst;
    var c := SerialRegister(ALL_ONES, prefix);
    RegisterSplit(ALL_ONES, prefix, u);
    RegisterSplit(ALL_ONES, prefix, v);
    RegisterSplit(ALL_ONES, prefix + u, suffix);
    RegisterSplit(ALL_ONES, prefix + v, suffix);
    XorCancel(SerialRegister(SerialRegister(c, u), suffix), ALL_ONES);
    XorCancel(SerialRegister(SerialRegister(c, v), suffix), ALL_ONES);
    if Checksum(prefix + u + suffix) == Checksum(prefix + v + suffix) {
      RegisterInjective(SerialRegister(c, u), SerialRegister(c, v), suffix);
      RegisterIsSteps(c, u);
      RegisterIsSteps(c, v);
      StepsInjective(Xor(c, Burst(u)), Xor(c, Burst(v)), 8 * |u|);
      XorCancel(Burst(u), c);
      XorCancel(Burst(v), c);
      BurstInjective(u, v);
    }
  }
}
