/** The 32-bit checksum that guards the boot command record
    (polynomial 0x04C11DB7, most significant bit first, no reflection). */
module Crc {
  import opened Numbers

  const POLYNOMIAL: bv32 := 0x04c1_1db7

  /** The checksum register; a wrapper so that proofs can treat it as a vector over GF(2). */
  datatype Register = Register(word: bv32)

  /** The bits of one byte in the order the update loop tests them: 0x80 down to 0x01. */
  function ByteBits(b: Byte): (bits: seq<bool>)
    ensures |bits| == 8
  {
    [b & 0x80 != 0, b & 0x40 != 0, b & 0x20 != 0, b & 0x10 != 0,
     b & 0x08 != 0, b & 0x04 != 0, b & 0x02 != 0, b & 0x01 != 0]
  }

  function Bits(data: seq<Byte>): (bits: seq<bool>)
    ensures |bits| == 8 * |data|
  {
    if data == [] then [] else ByteBits(data[0]) + Bits(data[1..])
  }

  predicate TopBit(w: bv32) {
    w & 0x8000_0000 != 0
  }

  function ShiftWord(w: bv32, feedback: bool): bv32 {
    if feedback then (w << 1) ^ POLYNOMIAL else w << 1
  }

  predicate Top(r: Register) {
    TopBit(r.word)
  }

  function Shift(r: Register, feedback: bool): Register {
    Register(ShiftWord(r.word, feedback))
  }

  /** One step of the shift register. */
  function Step(r: Register, bit: bool): Register {
    Shift(r, Top(r) != bit)
  }

  function Feed(r: Register, bits: seq<bool>): Register
    decreases |bits|
  {
    if bits == [] then r else Feed(Step(r, bits[0]), bits[1..])
  }

  /** The checksum register after `data`, as a fold over its bits. */
  function CrcOf(r: Register, data: seq<Byte>): Register {
    Feed(r, Bits(data))
  }

  const MASKS: seq<Byte> := [0x80, 0x40, 0x20, 0x10, 0x08, 0x04, 0x02, 0x01, 0x00]

  method UpdateBit(crc0: bv32, dataBit: bool) returns (crc: bv32)
    ensures Register(crc) == Step(Register(crc0), dataBit)
  {
    var bit := TopBit(crc0);
    if dataBit {
      bit := !bit;
    }
    crc := ShiftWord(crc0, bit);
  }

  lemma MaskTestsBit(c: Byte, k: nat)
    requires k < 8
    ensures ByteBits(c)[k] == (c & MASKS[k] != 0)
  {}

  lemma MaskShifts(k: nat)
    requires k < 8
    ensures MASKS[k] > 0 && MASKS[k] >> 1 == MASKS[k + 1]
  {}

  method UpdateByte(crc0: bv32, c: Byte) returns (crc: bv32)
    ensures Register(crc) == Feed(Register(crc0), ByteBits(c))
  {
    hide Step, ByteBits;
    crc := crc0;
    var i: Byte := 0x80;
    ghost var k := 0;
    assert ByteBits(c)[0..] == ByteBits(c);
    assert i == MASKS[0] && MASKS[8] == 0 by { MaskEnds(); }
    while i > 0
      invariant 0 <= k <= 8 && i == MASKS[k]
      invariant Feed(Register(crc0), ByteBits(c)) == Feed(Register(crc), ByteBits(c)[k..])
      decreases 8 - k
    {
      MaskTestsBit(c, k);
      MaskShifts(k);
      ghost var todo := ByteBits(c)[k..];
      assert todo[1..] == ByteBits(c)[k + 1..];
      crc := UpdateBit(crc, c & i != 0);
      i := i >> 1;
      k := k + 1;
    }
    if k < 8 {
      MaskShifts(k);
    }
  }

  lemma MaskEnds()
    ensures MASKS[0] == 0x80 && MASKS[8] == 0
  {}

  method CrcUpdate(crc0: bv32, data: seq<Byte>) returns (crc: bv32)
    ensures Register(crc) == CrcOf(Register(crc0), data)
  {
    hide Step, ByteBits;
    crc := crc0;
    var n := 0;
    assert data[0..] == data;
    while n < |data|
      invariant 0 <= n <= |data|
      invariant CrcOf(Register(crc0), data) == Feed(Register(crc), Bits(data[n..]))
    {
      assert Bits(data[n..]) == ByteBits(data[n]) + Bits(data[n + 1..]) by {
        assert data[n..][1..] == data[n + 1..];
      }
      FeedAppend(Register(crc), ByteBits(data[n]), Bits(data[n + 1..]));
      crc := UpdateByte(crc, data[n]);
      n := n + 1;
    }
    assert data[n..] == [];
  }

  // ---- Composition over concatenation ----

  lemma {:induction false} BitsAppend(a: seq<Byte>, b: seq<Byte>)
    ensures Bits(a + b) == Bits(a) + Bits(b)
  {
    if a == [] {
      assert a + b == b;
    } else {
      assert (a + b)[1..] == a[1..] + b;
      BitsAppend(a[1..], b);
    }
  }

  lemma {:induction false} FeedAppend(r: Register, a: seq<bool>, b: seq<bool>)
    ensures Feed(r, a + b) == Feed(Feed(r, a), b)
    decreases |a|
  {
    if a == [] {
      assert a + b == b;
    } else {
      assert (a + b)[1..] == a[1..] + b;
      FeedAppend(Step(r, a[0]), a[1..], b);
    }
  }

  /** Checksumming in two calls equals checksumming the concatenation in one. */
  lemma CrcComposes(r: Register, a: seq<Byte>, b: seq<Byte>)
    ensures CrcOf(r, a + b) == CrcOf(CrcOf(r, a), b)
  {
    BitsAppend(a, b);
    FeedAppend(r, Bits(a), Bits(b));
  }

  // ---- The check value ----

  lemma FeedNext(r: Register, bits: seq<bool>, k: nat)
    requires k < |bits|
    ensures Feed(r, bits[k..]) == Feed(Step(r, bits[k]), bits[k + 1..])
  {
    hide Step;
    assert bits[k..][1..] == bits[k + 1..];
  }

  /** Eight steps. */
  function Eight(r: Register, b: Byte): Register {
    Step(Step(Step(Step(Step(Step(Step(Step(r,
      b & 0x80 != 0), b & 0x40 != 0), b & 0x20 != 0), b & 0x10 != 0),
      b & 0x08 != 0), b & 0x04 != 0), b & 0x02 != 0), b & 0x01 != 0)
  }

  lemma FeedEight(r: Register, bits: seq<bool>)
    requires |bits| == 8
    ensures Feed(r, bits) == Step(Step(Step(Step(Step(Step(Step(Step(r,
              bits[0]), bits[1]), bits[2]), bits[3]), bits[4]), bits[5]), bits[6]), bits[7])
  {
    hide Step, Feed;
    assert bits[0..] == bits;
    FeedNext(r, bits, 0);
    var r1 := Step(r, bits[0]);
    FeedNext(r1, bits, 1);
    var r2 := Step(r1, bits[1]);
    FeedNext(r2, bits, 2);
    var r3 := Step(r2, bits[2]);
    FeedNext(r3, bits, 3);
    var r4 := Step(r3, bits[3]);
    FeedNext(r4, bits, 4);
    var r5 := Step(r4, bits[4]);
    FeedNext(r5, bits, 5);
    var r6 := Step(r5, bits[5]);
    FeedNext(r6, bits, 6);
    var r7 := Step(r6, bits[6]);
    FeedNext(r7, bits, 7);
    FedNothing(Step(r7, bits[7]), bits[8..]);
  }

  lemma FedNothing(r: Register, bits: seq<bool>)
    requires bits == []
    ensures Feed(r, bits) == r
  {}

  lemma ByteFed(r: Register, b: Byte)
    ensures CrcOf(r, [b]) == Eight(r, b)
  {
    hide Step, Feed;
    assert Bits([b]) == ByteBits(b);
    FeedEight(r, ByteBits(b));
  }

  lemma CheckByte(r: Register, s: seq<Byte>, k: nat, next: Register)
    requires k < |s| && Eight(r, s[k]) == next
    ensures CrcOf(r, s[k..]) == CrcOf(next, s[k + 1..])
  {
    hide Eight, CrcOf;
    assert s[k..] == [s[k]] + s[k + 1..];
    CrcComposes(r, [s[k]], s[k + 1..]);
    ByteFed(r, s[k]);
  }

  /** The register on its way through the digits 1 to 9. */
  lemma DigitsOneToThree()
    ensures Eight(Register(0xffff_ffff), 0x31) == Register(0x9efb_cf93)
    ensures Eight(Register(0x9efb_cf93), 0x32) == Register(0x3fec_5e6a)
    ensures Eight(Register(0x3fec_5e6a), 0x33) == Register(0xd952_f164)
  {}

  lemma DigitsFourToSix()
    ensures Eight(Register(0xd952_f164), 0x34) == Register(0xa695_c4aa)
    ensures Eight(Register(0xa695_c4aa), 0x35) == Register(0xbd9a_b747)
    ensures Eight(Register(0xbd9a_b747), 0x36) == Register(0xd8f0_6c8f)
  {}

  lemma DigitsSevenToNine()
    ensures Eight(Register(0xd8f0_6c8f), 0x37) == Register(0x0d8a_14c4)
    ensures Eight(Register(0x0d8a_14c4), 0x38) == Register(0x49e3_c2fb)
    ensures Eight(Register(0x49e3_c2fb), 0x39) == Register(0x0376_e6e7)
  {}

  /** The check value of CRC-32/MPEG-2, the checksum with this polynomial, this bit order and a register that starts
      with ones: the digits 1 to 9 leave 0x0376e6e7. */
  lemma CheckValue()
    ensures CrcOf(Register(0xffff_ffff), [0x31, 0x32, 0x33, 0x34, 0x35, 0x36, 0x37, 0x38, 0x39]) ==
            Register(0x0376_e6e7)
  {
    DigitsOneToThree();
    DigitsFourToSix();
    DigitsSevenToNine();
    hide CrcOf, Eight;
    var s := [0x31, 0x32, 0x33, 0x34, 0x35, 0x36, 0x37, 0x38, 0x39];
    assert s[0..] == s && s[9..] == [];
    CheckByte(Register(0xffff_ffff), s, 0, Register(0x9efb_cf93));
    CheckByte(Register(0x9efb_cf93), s, 1, Register(0x3fec_5e6a));
    CheckByte(Register(0x3fec_5e6a), s, 2, Register(0xd952_f164));
    CheckByte(Register(0xd952_f164), s, 3, Register(0xa695_c4aa));
    CheckByte(Register(0xa695_c4aa), s, 4, Register(0xbd9a_b747));
    CheckByte(Register(0xbd9a_b747), s, 5, Register(0xd8f0_6c8f));
    CheckByte(Register(0xd8f0_6c8f), s, 6, Register(0x0d8a_14c4));
    CheckByte(Register(0x0d8a_14c4), s, 7, Register(0x49e3_c2fb));
    CheckByte(Register(0x49e3_c2fb), s, 8, Register(0x0376_e6e7));
    CrcOfNothing(Register(0x0376_e6e7));
  }

  lemma CrcOfNothing(r: Register)
    ensures CrcOf(r, []) == r
  {}

  // ---- The register update is linear over GF(2), hence injective ----

  const ZERO := Register(0)

  function XorWord(a: bv32, b: bv32): bv32 {
    a ^ b
  }

  function Xor(a: Register, b: Register): Register {
    Register(XorWord(a.word, b.word))
  }

  lemma XorWordZero(a: bv32, b: bv32)
    ensures XorWord(a, b) == 0 <==> a == b
  {
    if XorWord(a, b) == 0 {
      assert XorWord(XorWord(a, b), b) == a;
    }
  }

  lemma XorWordCancels(a: bv32, b: bv32, c: bv32)
    requires b != c
    ensures XorWord(a, b) != XorWord(a, c)
  {}

  lemma XorWordUnit(a: bv32)
    ensures XorWord(a, 0) == a
  {}

  lemma XorWordSymmetric(a: bv32, b: bv32)
    ensures XorWord(a, b) == XorWord(b, a)
  {}

  lemma XorWordTop(a: bv32, b: bv32)
    ensures TopBit(XorWord(a, b)) == (TopBit(a) != TopBit(b))
  {}

  lemma ShiftWordBoth(a: bv32, b: bv32)
    ensures XorWord(ShiftWord(a, true), ShiftWord(b, true)) == ShiftWord(XorWord(a, b), false)
  {}

  lemma ShiftWordLeft(a: bv32, b: bv32)
    ensures XorWord(ShiftWord(a, true), ShiftWord(b, false)) == ShiftWord(XorWord(a, b), true)
  {}

  lemma ShiftWordNeither(a: bv32, b: bv32)
    ensures XorWord(ShiftWord(a, false), ShiftWord(b, false)) == ShiftWord(XorWord(a, b), false)
  {}

  lemma XorFacts(a: Register, b: Register, c: Register)
    ensures Xor(a, b) == ZERO <==> a == b
    ensures Xor(a, b) == Xor(a, c) ==> b == c
    ensures Xor(a, ZERO) == a
    ensures Top(Xor(a, b)) == (Top(a) != Top(b))
  {
    hide XorWord, TopBit;
    XorWordZero(a.word, b.word);
    if b != c {
      XorWordCancels(a.word, b.word, c.word);
    }
    XorWordUnit(a.word);
    XorWordTop(a.word, b.word);
  }

  lemma ShiftXor(a: Register, b: Register, f: bool, g: bool)
    ensures Xor(Shift(a, f), Shift(b, g)) == Shift(Xor(a, b), f != g)
  {
    hide XorWord, ShiftWord;
    if f {
      if g {
        ShiftWordBoth(a.word, b.word);
      } else {
        ShiftWordLeft(a.word, b.word);
      }
    } else {
      if g {
        XorWordSymmetric(ShiftWord(a.word, f), ShiftWord(b.word, g));
        XorWordSymmetric(a.word, b.word);
        ShiftWordLeft(b.word, a.word);
      } else {
        ShiftWordNeither(a.word, b.word);
      }
    }
  }

  lemma StepLinear(a: Register, b: Register, x: bool, y: bool)
    ensures Step(Xor(a, b), x != y) == Xor(Step(a, x), Step(b, y))
  {
    hide Top, Shift, Xor;
    XorFacts(a, b, b);
    ShiftXor(a, b, Top(a) != x, Top(b) != y);
  }

  lemma ShiftWordNonZero(w: bv32)
    requires w != 0
    ensures ShiftWord(w, TopBit(w)) != 0
  {}

  lemma StepNonZero(r: Register)
    requires r != ZERO
    ensures Step(r, false) != ZERO
  {
    hide ShiftWord, TopBit;
    ShiftWordNonZero(r.word);
  }

  lemma StepInjective(a: Register, b: Register, bit: bool)
    requires a != b
    ensures Step(a, bit) != Step(b, bit)
  {
    hide Top, Shift, Xor, Step;
    XorFacts(a, b, b);
    StepNonZero(Xor(a, b));
    StepLinear(a, b, bit, bit);
    XorFacts(Step(a, bit), Step(b, bit), ZERO);
  }

  lemma {:induction false} FeedInjective(a: Register, b: Register, bits: seq<bool>)
    requires a != b
    ensures Feed(a, bits) != Feed(b, bits)
    decreases |bits|
  {
    hide Step;
    if bits != [] {
      StepInjective(a, b, bits[0]);
      FeedInjective(Step(a, bits[0]), Step(b, bits[0]), bits[1..]);
    }
  }

  // ---- Up to 32 message bits can be folded into the register beforehand ----

  function PushWord(bit: bool, w: bv32): bv32 {
    (if bit then 0x8000_0000 else 0) | (w >> 1)
  }

  predicate EvenWord(w: bv32) {
    w & 1 == 0
  }

  function Push(bit: bool, r: Register): Register {
    Register(PushWord(bit, r.word))
  }

  predicate Even(r: Register) {
    EvenWord(r.word)
  }

  /** The first (at most 32) message bits as a register value, first bit on top. */
  function Pack(bits: seq<bool>): Register {
    if bits == [] then ZERO else Push(bits[0], Pack(bits[1..]))
  }

  /** All but the top `n` bits are clear. */
  predicate OnlyTopWord(w: bv32, n: bv6)
    requires n <= 32
  {
    w & ((0xffff_ffff as bv32) >> n) == 0
  }

  predicate OnlyTop(r: Register, n: bv6)
    requires n <= 32
  {
    OnlyTopWord(r.word, n)
  }

  lemma OnlyTopPushWord(w: bv32, bit: bool, n: bv6)
    requires 1 <= n <= 32 && OnlyTopWord(w, n - 1)
    ensures OnlyTopWord(PushWord(bit, w), n)
  {}

  lemma OnlyTopEvenWord(w: bv32, n: bv6)
    requires n < 32 && OnlyTopWord(w, n)
    ensures EvenWord(w)
  {}

  lemma PushWordInjective(a: bool, p: bv32, b: bool, q: bv32)
    requires EvenWord(p) && EvenWord(q)
    requires PushWord(a, p) == PushWord(b, q)
    ensures a == b && p == q
  {}

  lemma ShiftPushWord(a: bool, p: bv32)
    requires EvenWord(p)
    ensures ShiftWord(PushWord(a, p), TopBit(PushWord(a, p)) != a) == p
  {}

  lemma PushFacts(a: bool, p: Register, b: bool, q: Register)
    requires Even(p) && Even(q)
    ensures Push(a, p) == Push(b, q) ==> a == b && p == q
    ensures Step(Push(a, p), a) == p
  {
    hide PushWord, EvenWord, ShiftWord, TopBit;
    ShiftPushWord(a, p.word);
    if Push(a, p) == Push(b, q) {
      PushWordInjective(a, p.word, b, q.word);
    }
  }

  lemma StepAbsorbs(r: Register, bit: bool, p: Register)
    requires Even(p)
    ensures Step(Xor(r, Push(bit, p)), false) == Xor(Step(r, bit), p)
  {
    hide Step, Xor, Push, Even;
    StepLinear(r, Push(bit, p), bit, bit);
    PushFacts(bit, p, bit, p);
  }

  lemma {:induction false} PackOnlyTop(bits: seq<bool>, n: bv6)
    requires |bits| == n as nat <= 32
    ensures OnlyTop(Pack(bits), n)
  {
    if bits == [] {
    } else {
      hide PushWord, OnlyTopWord;
      PackOnlyTop(bits[1..], n - 1);
      OnlyTopPushWord(Pack(bits[1..]).word, bits[0], n);
    }
  }

  lemma PackEven(bits: seq<bool>)
    requires |bits| < 32
    ensures Even(Pack(bits))
  {
    hide Pack, OnlyTopWord, EvenWord;
    var n := |bits| as bv6;
    PackOnlyTop(bits, n);
    OnlyTopEvenWord(Pack(bits).word, n);
  }

  function Zeros(n: nat): seq<bool> {
    seq(n, _ => false)
  }

  lemma {:induction false} FeedAsPack(r: Register, bits: seq<bool>)
    requires |bits| <= 32
    ensures Feed(r, bits) == Feed(Xor(r, Pack(bits)), Zeros(|bits|))
    decreases |bits|
  {
    hide Step, Xor, Push, Even;
    if bits == [] {
      XorFacts(r, ZERO, ZERO);
    } else {
      var rest := bits[1..];
      FeedAsPack(Step(r, bits[0]), rest);
      PackEven(rest);
      StepAbsorbs(r, bits[0], Pack(rest));
      assert Zeros(|bits|)[1..] == Zeros(|rest|);
    }
  }

  lemma {:induction false} PackInjective(a: seq<bool>, b: seq<bool>)
    requires |a| == |b| <= 32 && Pack(a) == Pack(b)
    ensures a == b
  {
    hide Push, Even;
    if a != [] {
      PackEven(a[1..]);
      PackEven(b[1..]);
      PushFacts(a[0], Pack(a[1..]), b[0], Pack(b[1..]));
      PackInjective(a[1..], b[1..]);
      assert a == [a[0]] + a[1..] && b == [b[0]] + b[1..];
    }
  }

  /** Two different messages of the same length (at most 32 bits) never collide. */
  lemma ShortMessagesDiffer(r: Register, a: seq<bool>, b: seq<bool>)
    requires |a| == |b| <= 32 && a != b
    ensures Feed(r, a) != Feed(r, b)
  {
    hide Feed, Xor, Pack;
    if Pack(a) == Pack(b) {
      PackInjective(a, b);
    }
    XorFacts(r, Pack(a), Pack(b));
    FeedAsPack(r, a);
    FeedAsPack(r, b);
    FeedInjective(Xor(r, Pack(a)), Xor(r, Pack(b)), Zeros(|a|));
  }

  /** The two bit strings agree everywhere outside the 32-bit window that starts at `k`. */
  ghost predicate BurstApart(a: seq<bool>, b: seq<bool>, k: nat) {
    && |a| == |b|
    && forall i :: 0 <= i < |a| && !(k <= i < k + 32) ==> a[i] == b[i]
  }

  /** Any corruption confined to 32 consecutive bits changes the checksum. */
  lemma BurstDetected(r: Register, a: seq<Byte>, b: seq<Byte>, k: nat)
    requires BurstApart(Bits(a), Bits(b), k)
    requires Bits(a) != Bits(b)
    ensures CrcOf(r, a) != CrcOf(r, b)
  {
    hide Feed, Bits;
    var x, y := Bits(a), Bits(b);
    var lo := if k < |x| then k else |x|;
    var hi := if k + 32 < |x| then k + 32 else |x|;
    assert x[..lo] == y[..lo] && x[hi..] == y[hi..];
    assert x == x[..lo] + x[lo..hi] + x[hi..] && y == y[..lo] + y[lo..hi] + y[hi..];
    FeedAppend(r, x[..lo] + x[lo..hi], x[hi..]);
    FeedAppend(r, x[..lo], x[lo..hi]);
    FeedAppend(r, y[..lo] + y[lo..hi], y[hi..]);
    FeedAppend(r, y[..lo], y[lo..hi]);
    var c := Feed(r, x[..lo]);
    ShortMessagesDiffer(c, x[lo..hi], y[lo..hi]);
    FeedInjective(Feed(c, x[lo..hi]), Feed(c, y[lo..hi]), x[hi..]);
  }

  lemma ByteBitsInjective(a: Byte, b: Byte)
    requires ByteBits(a) == ByteBits(b)
    ensures a == b
  {
    assert forall i :: 0 <= i < 8 ==> ByteBits(a)[i] == ByteBits(b)[i];
    assert (a & 0x80 != 0) == ByteBits(a)[0] && (b & 0x80 != 0) == ByteBits(b)[0];
    assert (a & 0x40 != 0) == ByteBits(a)[1] && (b & 0x40 != 0) == ByteBits(b)[1];
    assert (a & 0x20 != 0) == ByteBits(a)[2] && (b & 0x20 != 0) == ByteBits(b)[2];
    assert (a & 0x10 != 0) == ByteBits(a)[3] && (b & 0x10 != 0) == ByteBits(b)[3];
    assert (a & 0x08 != 0) == ByteBits(a)[4] && (b & 0x08 != 0) == ByteBits(b)[4];
    assert (a & 0x04 != 0) == ByteBits(a)[5] && (b & 0x04 != 0) == ByteBits(b)[5];
    assert (a & 0x02 != 0) == ByteBits(a)[6] && (b & 0x02 != 0) == ByteBits(b)[6];
    assert (a & 0x01 != 0) == ByteBits(a)[7] && (b & 0x01 != 0) == ByteBits(b)[7];
    EqualMasks(a, b);
  }

  lemma EqualMasks(a: Byte, b: Byte)
    requires (a & 0x80 != 0) == (b & 0x80 != 0) && (a & 0x40 != 0) == (b & 0x40 != 0)
    requires (a & 0x20 != 0) == (b & 0x20 != 0) && (a & 0x10 != 0) == (b & 0x10 != 0)
    requires (a & 0x08 != 0) == (b & 0x08 != 0) && (a & 0x04 != 0) == (b & 0x04 != 0)
    requires (a & 0x02 != 0) == (b & 0x02 != 0) && (a & 0x01 != 0) == (b & 0x01 != 0)
    ensures a == b
  {}

  lemma {:induction false} BitsInjective(a: seq<Byte>, b: seq<Byte>)
    requires Bits(a) == Bits(b)
    ensures a == b
  {
    if a == [] || b == [] {
      assert |a| == |b|;
    } else {
      assert ByteBits(a[0]) == Bits(a)[..8] == Bits(b)[..8] == ByteBits(b[0]);
      assert Bits(a[1..]) == Bits(a)[8..] == Bits(b)[8..] == Bits(b[1..]);
      ByteBitsInjective(a[0], b[0]);
      BitsInjective(a[1..], b[1..]);
      assert a == [a[0]] + a[1..] && b == [b[0]] + b[1..];
    }
  }
}
