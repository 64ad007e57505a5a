/** The command record handed from the application to the bootloader through RTC memory. */
module BootCommand {
  import opened Numbers
  import opened Crc

  /** A 32-bit word as its four bytes in memory order (least significant first). */
  type Word = w: seq<Byte> | |w| == 4 witness [0, 0, 0, 0]

  const WORD_COUNT: nat := 32
  const CRC_INDEX: nat := 31
  const ARG_COUNT: nat := 29
  const TWO_32: nat := 0x1_0000_0000

  type u32 = n: nat | n < TWO_32

  const MAGIC: Word := [0x00, 0x10, 0x00, 0xeb]
  const ZERO_WORD: Word := [0, 0, 0, 0]
  const CRC_START := Register(0xffff_ffff)

  function FromNat(n: u32): Word {
    [(n % 256) as bv8, (n / 256 % 256) as bv8, (n / 65536 % 256) as bv8, (n / 16777216 % 256) as bv8]
  }

  function ToNat(w: Word): nat {
    w[0] as nat + 256 * (w[1] as nat) + 65536 * (w[2] as nat) + 16777216 * (w[3] as nat)
  }

  lemma ByteSuccessor(b: Byte)
    requires b < 255
    ensures (b + 1) as nat == b as nat + 1
  {}

  lemma ByteOfNat(b: Byte)
    ensures (b as nat) as bv8 == b
  {}

  lemma {:induction false} ByteRoundTrip(n: nat)
    requires n < 256
    ensures (n as bv8) as nat == n
  {
    if n > 0 {
      ByteRoundTrip(n - 1);
      var b := (n - 1) as bv8;
      ByteSuccessor(b);
      ByteOfNat(b + 1);
    }
  }

  lemma WordRoundTrip(n: u32)
    ensures ToNat(FromNat(n)) == n
  {
    ByteRoundTrip(n % 256);
    ByteRoundTrip(n / 256 % 256);
    ByteRoundTrip(n / 65536 % 256);
    ByteRoundTrip(n / 16777216 % 256);
    DigitSum(n);
  }

  lemma DigitSum(n: u32)
    ensures n % 256 + 256 * (n / 256 % 256) + 65536 * (n / 65536 % 256) + 16777216 * (n / 16777216 % 256) == n
  {
    assert n / 65536 == n / 256 / 256 && n / 16777216 == n / 65536 / 256;
  }

  /** Words lie in memory with the least significant byte first. */
  lemma LittleEndian()
    ensures ToNat([1, 0, 0, 0]) == 1 && ToNat([0, 1, 0, 0]) == 0x100
    ensures ToNat([0, 0, 1, 0]) == 0x1_0000 && ToNat([0, 0, 0, 1]) == 0x100_0000
  {}

  function FromRegister(r: Register): Word {
    [(r.word & 0xff) as bv8, ((r.word >> 8) & 0xff) as bv8,
     ((r.word >> 16) & 0xff) as bv8, ((r.word >> 24) & 0xff) as bv8]
  }

  function Flatten(words: seq<Word>): (bytes: seq<Byte>)
    ensures |bytes| == 4 * |words|
  {
    if words == [] then [] else words[0] + Flatten(words[1..])
  }

  type Record = r: seq<Word> | |r| == WORD_COUNT witness seq(32, _ => ZERO_WORD)

  /** The checksum covers everything in front of the checksum word. */
  function RecordCrc(r: Record): Word {
    FromRegister(CrcOf(CRC_START, Flatten(r[..CRC_INDEX])))
  }

  function Seal(action: Word, args: seq<Word>): Record
    requires |args| == ARG_COUNT
  {
    var body := [MAGIC, action] + args;
    body + [FromRegister(CrcOf(CRC_START, Flatten(body)))]
  }

  /** `(magic & 0xfffff000) == 0xeb001000`, byte by byte. */
  predicate CoreMagic(w: Word) {
    w[1] & 0xf0 == 0x10 && w[2] == 0x00 && w[3] == 0xeb
  }

  /** The bootloader's `magic & MASK != MAGIC` is `magic & (MASK != MAGIC)`, a test of bit 0. */
  predicate BootMagic(w: Word) {
    w[0] & 0x01 == 0
  }

  /** The application looks at the upper twenty bits of 0xeb001000, the bootloader only at whether the word is even. */
  lemma MagicTests(w: Word)
    ensures CoreMagic(w) <==> 0x10 <= w[1] < 0x20 && w[2] == 0 && w[3] == 0xeb
    ensures BootMagic(w) <==> w[0] % 2 == 0
    ensures CoreMagic([0x00, 0x10, 0x00, 0xeb]) && MAGIC == [0x00, 0x10, 0x00, 0xeb]
  {}

  predicate CoreAccepts(r: Record) {
    CoreMagic(r[0]) && r[CRC_INDEX] == RecordCrc(r)
  }

  predicate BootAccepts(r: Record) {
    BootMagic(r[0]) && r[CRC_INDEX] == RecordCrc(r)
  }

  /** Both readers want the checksum of the 31 words in front of it, from a register of ones, as a little-endian
      word. */
  lemma AcceptedChecksum(r: Record)
    requires CoreAccepts(r) || BootAccepts(r)
    ensures var sum := CrcOf(Register(0xffff_ffff), Flatten(r[..31])).word;
            && r[31][0] == (sum % 256) as bv8 && r[31][1] == ((sum >> 8) % 256) as bv8
            && r[31][2] == ((sum >> 16) % 256) as bv8 && r[31][3] == (sum >> 24) as bv8
  {}

  function Cleared(r: Record): Record {
    r[0 := ZERO_WORD][CRC_INDEX := ZERO_WORD]
  }

  // ---- The loops over RTC memory ----

  /** `cmd` arrives with action and arguments filled in; magic and checksum are whatever was there. */
  method CommandWrite(mem: array<Word>, cmd: array<Word>)
    requires mem.Length >= WORD_COUNT && cmd.Length == WORD_COUNT && mem != cmd
    modifies mem, cmd
    ensures mem[..WORD_COUNT] == Seal(old(cmd[1]), old(cmd[2..CRC_INDEX]))
    ensures mem[WORD_COUNT..] == old(mem[WORD_COUNT..])
  {
    cmd[0] := MAGIC;
    ghost var body := [MAGIC, old(cmd[1])] + old(cmd[2..CRC_INDEX]);
    assert cmd[..CRC_INDEX] == body;
    var crc := CrcUpdate(0xffff_ffff, Flatten(cmd[..CRC_INDEX]));
    cmd[CRC_INDEX] := FromRegister(Register(crc));
    assert cmd[..] == body + [cmd[CRC_INDEX]];
    var i := 0;
    while i < WORD_COUNT
      invariant 0 <= i <= WORD_COUNT
      invariant mem[..i] == cmd[..i]
      invariant mem[WORD_COUNT..] == old(mem[WORD_COUNT..])
      invariant cmd[..] == Seal(old(cmd[1]), old(cmd[2..CRC_INDEX]))
    {
      mem[i] := cmd[i];
      i := i + 1;
    }
  }

  method ReadRecord(mem: array<Word>) returns (cmd: Record, crc: Word)
    requires mem.Length >= WORD_COUNT
    ensures cmd == mem[..WORD_COUNT] && crc == RecordCrc(cmd)
  {
    var dst: seq<Word> := [];
    for i := 0 to WORD_COUNT
      invariant dst == mem[..i]
    {
      dst := dst + [mem[i]];
    }
    cmd := dst;
    var sum := CrcUpdate(0xffff_ffff, Flatten(cmd[..CRC_INDEX]));
    crc := FromRegister(Register(sum));
  }

  method CoreCommandRead(mem: array<Word>) returns (status: int, cmd: Record)
    requires mem.Length >= WORD_COUNT
    ensures cmd == mem[..WORD_COUNT]
    ensures status == if CoreAccepts(cmd) then 0 else 1
  {
    var crc;
    cmd, crc := ReadRecord(mem);
    if !CoreMagic(cmd[0]) || cmd[CRC_INDEX] != crc {
      return 1, cmd;
    }
    return 0, cmd;
  }

  method BootCommandRead(mem: array<Word>) returns (status: int, cmd: Record)
    requires mem.Length >= WORD_COUNT
    ensures cmd == mem[..WORD_COUNT]
    ensures status == if BootAccepts(cmd) then 0 else 1
  {
    var crc;
    cmd, crc := ReadRecord(mem);
    if !BootMagic(cmd[0]) || cmd[CRC_INDEX] != crc {
      return 1, cmd;
    }
    return 0, cmd;
  }

  method CommandClear(mem: array<Word>)
    requires mem.Length >= WORD_COUNT
    modifies mem
    ensures mem[..WORD_COUNT] == Cleared(old(mem[..WORD_COUNT]))
    ensures mem[WORD_COUNT..] == old(mem[WORD_COUNT..])
  {
    mem[0] := ZERO_WORD;
    mem[CRC_INDEX] := ZERO_WORD;
  }

  // ---- Round trip and corruption ----

  /** A record just written is accepted by both readers and carries action and arguments unchanged. */
  lemma SealRoundTrip(action: Word, args: seq<Word>)
    requires |args| == ARG_COUNT
    ensures var r := Seal(action, args);
            CoreAccepts(r) && BootAccepts(r) && r[1] == action && r[2..CRC_INDEX] == args
  {
    hide FromRegister, CrcOf, Flatten;
    var r := Seal(action, args);
    assert r[..CRC_INDEX] == [MAGIC, action] + args;
    assert r[2..CRC_INDEX] == args;
  }

  lemma FromRegisterInjective(a: Register, b: Register)
    requires FromRegister(a) == FromRegister(b)
    ensures a == b
  {
    var x, y := FromRegister(a), FromRegister(b);
    assert x[0] == y[0] && x[1] == y[1] && x[2] == y[2] && x[3] == y[3];
  }

  /** A burst of up to 32 consecutive flipped bits in front of the checksum is always rejected. */
  lemma CorruptionRejected(r: Record, damaged: Record, k: nat)
    requires BootAccepts(r) || CoreAccepts(r)
    requires damaged[CRC_INDEX] == r[CRC_INDEX]
    requires Flatten(damaged[..CRC_INDEX]) != Flatten(r[..CRC_INDEX])
    requires BurstApart(Bits(Flatten(r[..CRC_INDEX])), Bits(Flatten(damaged[..CRC_INDEX])), k)
    ensures !CoreAccepts(damaged) && !BootAccepts(damaged)
  {
    hide FromRegister, CrcOf, Flatten, Bits;
    var a, b := Flatten(r[..CRC_INDEX]), Flatten(damaged[..CRC_INDEX]);
    if Bits(a) == Bits(b) {
      BitsInjective(a, b);
    }
    BurstDetected(CRC_START, a, b, k);
    if RecordCrc(damaged) == RecordCrc(r) {
      FromRegisterInjective(CrcOf(CRC_START, a), CrcOf(CRC_START, b));
    }
  }

  /** Any change to the checksum word alone is rejected as well. */
  lemma ChecksumCorruptionRejected(r: Record, damaged: Record)
    requires BootAccepts(r) || CoreAccepts(r)
    requires damaged[..CRC_INDEX] == r[..CRC_INDEX]
    requires damaged != r
    ensures !CoreAccepts(damaged) && !BootAccepts(damaged)
  {
    hide FromRegister, CrcOf, Flatten;
    assert r == r[..CRC_INDEX] + [r[CRC_INDEX]];
    assert damaged == damaged[..CRC_INDEX] + [damaged[CRC_INDEX]];
  }

  // ---- What clearing the record achieves ----

  lemma {:induction false} FlattenAppend(a: seq<Word>, w: Word)
    ensures Flatten(a + [w]) == Flatten(a) + w
  {
    if a == [] {
      assert a + [w] == [w] && [w][1..] == [];
    } else {
      assert (a + [w])[1..] == a[1..] + [w];
      FlattenAppend(a[1..], w);
    }
  }

  lemma FromRegisterZero(r: Register)
    ensures FromRegister(r) == ZERO_WORD <==> r == ZERO
  {
    assert FromRegister(ZERO) == ZERO_WORD;
    if FromRegister(r) == ZERO_WORD {
      FromRegisterInjective(r, ZERO);
    }
  }

  lemma StepZeroZero()
    ensures Step(ZERO, false) == ZERO
  {}

  lemma {:induction false} FeedZeros(n: nat)
    ensures Feed(ZERO, Zeros(n)) == ZERO
  {
    if n > 0 {
      assert Zeros(n)[1..] == Zeros(n - 1);
      StepZeroZero();
      FeedZeros(n - 1);
    }
  }

  /** Appending four bytes drives the checksum to zero exactly when they spell the checksum so far. */
  lemma ChecksumCancels(c: Register, w: Word)
    ensures CrcOf(c, w) == ZERO <==> Pack(Bits(w)) == c
  {
    hide Pack, Xor, Feed, Bits;
    var bits := Bits(w);
    FeedAsPack(c, bits);
    FeedZeros(|bits|);
    if Xor(c, Pack(bits)) != ZERO {
      FeedInjective(Xor(c, Pack(bits)), ZERO, Zeros(|bits|));
    }
    XorFacts(c, Pack(bits), ZERO);
  }

  /** The application's reader never accepts a cleared record. The bootloader's reader does, exactly when
      the last argument word spells the checksum of the words in front of it. */
  lemma ClearedRecord(r: Record)
    ensures !CoreAccepts(Cleared(r))
    ensures BootAccepts(Cleared(r)) <==>
            Pack(Bits(r[30])) == CrcOf(CRC_START, Flatten([ZERO_WORD] + r[1..30]))
  {
    hide FromRegister, Flatten, Pack, Bits, CrcOf;
    var body := [ZERO_WORD] + r[1..30];
    assert Cleared(r)[..CRC_INDEX] == body + [r[30]];
    FlattenAppend(body, r[30]);
    CrcComposes(CRC_START, Flatten(body), r[30]);
    ChecksumCancels(CrcOf(CRC_START, Flatten(body)), r[30]);
    FromRegisterZero(CrcOf(CRC_START, Flatten(body + [r[30]])));
  }

  lemma PopWord(w: bv32, n: bv6)
    requires 1 <= n <= 32 && OnlyTopWord(w, n)
    ensures OnlyTopWord(ShiftWord(w, false), n - 1)
  {}

  lemma RepushWord(w: bv32)
    ensures PushWord(TopBit(w), ShiftWord(w, false)) == w
  {}

  lemma OnlyTopNone(w: bv32)
    requires OnlyTopWord(w, 0)
    ensures w == 0
  {}

  lemma OnlyTopAll(w: bv32)
    ensures OnlyTopWord(w, 32)
  {}

  lemma {:induction false} PackSurjective(r: Register, k: nat, n: bv6)
    requires n as nat == k <= 32 && OnlyTop(r, n)
    ensures exists bits :: |bits| == k && Pack(bits) == r
    decreases k
  {
    if k == 0 {
      OnlyTopNone(r.word);
      var none: seq<bool> := [];
      assert |none| == k && Pack(none) == r;
    } else {
      hide PushWord, OnlyTopWord, TopBit, ShiftWord;
      PopWord(r.word, n);
      RepushWord(r.word);
      var next := Shift(r, false);
      PackSurjective(next, k - 1, n - 1);
      var rest :| |rest| == k - 1 && Pack(rest) == next;
      var bits := [Top(r)] + rest;
      assert bits[1..] == rest;
      assert |bits| == k && Pack(bits) == r;
    }
  }

  function ByteFrom(bits: seq<bool>): Byte
    requires |bits| == 8
  {
    (if bits[0] then 0x80 else 0) | (if bits[1] then 0x40 else 0) |
    (if bits[2] then 0x20 else 0) | (if bits[3] then 0x10 else 0) |
    (if bits[4] then 0x08 else 0) | (if bits[5] then 0x04 else 0) |
    (if bits[6] then 0x02 else 0) | (if bits[7] then 0x01 else 0)
  }

  lemma ByteFromBits(bits: seq<bool>)
    requires |bits| == 8
    ensures ByteBits(ByteFrom(bits)) == bits
  {}

  lemma WordWithBits(bits: seq<bool>)
    requires |bits| == 32
    ensures exists w: Word :: Bits(w) == bits
  {
    hide ByteFrom, ByteBits;
    var a, b, c, d := bits[..8], bits[8..16], bits[16..24], bits[24..];
    var w: Word := [ByteFrom(a), ByteFrom(b), ByteFrom(c), ByteFrom(d)];
    ByteFromBits(a);
    ByteFromBits(b);
    ByteFromBits(c);
    ByteFromBits(d);
    assert w == [w[0]] + [w[1]] + [w[2]] + [w[3]];
    BitsAppend([w[0]] + [w[1]] + [w[2]], [w[3]]);
    BitsAppend([w[0]] + [w[1]], [w[2]]);
    BitsAppend([w[0]], [w[1]]);
    assert forall x: Byte :: Bits([x]) == ByteBits(x) by {
      forall x: Byte ensures Bits([x]) == ByteBits(x) {
        assert [x][1..] == [] && Bits([]) == [];
      }
    }
    assert bits == a + b + c + d;
    assert Bits(w) == bits;
  }

  /** So for every action and every choice of the other arguments there is a last argument with which
      the bootloader still accepts the record after clearing it. */
  lemma ClearMayNotDisarm(action: Word, args: seq<Word>)
    requires |args| == ARG_COUNT - 1
    ensures exists last: Word :: BootAccepts(Cleared(Seal(action, args + [last])))
  {
    hide FromRegister, Flatten, Pack, Bits, CrcOf, OnlyTopWord;
    var body := [ZERO_WORD] + [action] + args;
    var c := CrcOf(CRC_START, Flatten(body));
    OnlyTopAll(c.word);
    PackSurjective(c, 32, 32);
    var bits :| |bits| == 32 && Pack(bits) == c;
    WordWithBits(bits);
    var last: Word :| Bits(last) == bits;
    var r := Seal(action, args + [last]);
    assert [ZERO_WORD] + r[1..30] == body && r[30] == last;
    ClearedRecord(r);
    assert BootAccepts(Cleared(Seal(action, args + [last])));
  }
}
