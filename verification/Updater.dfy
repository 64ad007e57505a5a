/** The firmware updater: buffers arbitrary chunks into flash sectors, stages the image below the
    file system and hands a copy command to the bootloader. */
module Updater {
  import opened Numbers
  import opened Crc
  import opened Flash
  import opened BootCommand
  import opened Bootloader

  const ERROR_OK := 0
  const ERROR_WRITE := 1
  const ERROR_READ := 3
  const ERROR_SPACE := 4
  const ERROR_SIZE := 5
  const ERROR_MD5 := 7
  const ERROR_FLASH_CONFIG := 8
  const ERROR_NEW_FLASH_CONFIG := 9
  const ERROR_MAGIC_BYTE := 10

  const U_FLASH := 0
  const U_SPIFFS := 100

  /** What the updater learns about the board and the running sketch; `digest` stands for MD5. */
  datatype Board = Board(sketchSize: u32, fsStart: u32, configOk: bool, realSize: nat, digest: seq<Byte> -> string)

  /** The updater's fields, with the first `_bufferLen` bytes of its buffer and the bytes given to MD5. */
  datatype Session = Session(
    error: int, buffered: seq<Byte>, size: u32, start: u32, cur: u32, command: int,
    target: string, hashed: seq<Byte>, chip: Chip, rtc: Record)

  function Add32(a: nat, b: nat): u32 { (a + b) % TWO_32 }

  function Sub32(a: nat, b: nat): u32 { (a - b) % TWO_32 }

  function Finish(s: Session): u32 { Add32(s.start, s.size) }

  predicate Finished(s: Session) { s.cur == Finish(s) }

  function Progress(s: Session): u32 { Sub32(s.cur, s.start) }

  function Remaining(s: Session): u32 { Sub32(s.size, Progress(s)) }

  function Reset(s: Session): Session {
    s.(buffered := [], start := 0, cur := 0, size := 0, command := U_FLASH)
  }

  function StagingAddress(b: Board, size: u32): u32 {
    Sub32(b.fsStart, RoundUp32(size))
  }

  function BeginSpec(b: Board, s: Session, size: u32, command: int): (Session, bool) {
    if s.size > 0 then (s, false)
    else if size == 0 then (s.(error := ERROR_SIZE), false)
    else if !b.configOk then (s.(error := ERROR_FLASH_CONFIG), false)
    else
      var idle := Reset(s).(error := ERROR_OK);
      if command == U_FLASH && StagingAddress(b, size) < RoundUp32(b.sketchSize) then
        (idle.(error := ERROR_SPACE), false)
      else if command != U_FLASH && command != U_SPIFFS then (idle, false)
      else
        var start := if command == U_FLASH then StagingAddress(b, size) else b.fsStart;
        (idle.(start := start, cur := start, size := size, command := command, hashed := []), true)
  }

  function Flush(s: Session): (Session, bool) {
    var (erased, erasedOk) := EraseSector(s.chip, s.cur / SECTOR);
    var (chip, ok) := if erasedOk then Program(erased, s.cur, s.buffered) else (erased, false);
    if !ok then (s.(chip := chip, error := ERROR_WRITE, cur := Finish(s)), false)
    else (s.(chip := chip, hashed := s.hashed + s.buffered,
             cur := Add32(s.cur, |s.buffered|), buffered := []), true)
  }

  datatype Progressed = Stopped(s: Session, left: nat) | Going(s: Session, rest: seq<Byte>)

  /** Fills and flushes whole sectors while the data overflows the buffer. */
  function FillSectors(s: Session, data: seq<Byte>): Progressed
    requires |s.buffered| <= SECTOR
    decreases |s.buffered| + |data|
  {
    if |s.buffered| + |data| <= SECTOR then Going(s, data)
    else
      var toBuff := SECTOR - |s.buffered|;
      var (t, ok) := Flush(s.(buffered := s.buffered + data[..toBuff]));
      if !ok then Stopped(t, |data|) else FillSectors(t, data[toBuff..])
  }

  function WriteSpec(s: Session, data: seq<Byte>): (Session, nat)
    requires |s.buffered| <= SECTOR
  {
    if s.error != ERROR_OK || s.size == 0 then (s, 0)
    else if |data| > Remaining(s) then (s.(error := ERROR_SPACE), 0)
    else
      match FillSectors(s, data)
      case Stopped(t, left) => (t, if left <= |data| then |data| - left else 0)
      case Going(t, rest) =>
        var u := t.(buffered := t.buffered + rest);
        if |u.buffered| == Remaining(u) then
          var (v, ok) := Flush(u);
          (v, if ok then |data| else if |rest| <= |data| then |data| - |rest| else 0)
        else (u, |data|)
  }

  /** The buffer holds no more than what the declared size still allows. */
  predicate Roomy(s: Session) {
    |s.buffered| <= SECTOR && |s.buffered| <= Remaining(s)
  }

  /** One pass of the template `write`: `taken` bytes leave the source, `counted` are reported. */
  datatype Pass = Pass(s: Session, taken: nat, counted: nat, ok: bool)

  function SourcePass(s: Session, pending: seq<Byte>): (r: Pass)
    requires Roomy(s) && pending != []
    ensures r.taken <= |pending|
    ensures r.ok ==> Roomy(r.s)
    ensures r.ok && Remaining(r.s) > 0 && r.taken == 0 ==> |r.s.buffered| < |s.buffered|
    ensures r.ok ==> |r.s.buffered| <= |s.buffered| + r.taken
  {
    var n := if |s.buffered| + |pending| > Remaining(s) then Remaining(s) - |s.buffered| else |pending|;
    if |s.buffered| + n > SECTOR then
      var toBuff := SECTOR - |s.buffered|;
      var (t, ok) := Flush(s.(buffered := s.buffered + pending[..toBuff]));
      Pass(t, toBuff, if ok then toBuff else 0, ok)
    else
      var u := s.(buffered := s.buffered + pending[..n]);
      if |u.buffered| == Remaining(u) then
        var (t, ok) := Flush(u);
        Pass(t, n, n, ok)
      else Pass(u, n, n, true)
  }

  /** The template `write`: `pending` is what the source has available now, `arrivals` what has newly
      arrived each time availability is asked for again. Returns the session and the reported count. */
  function SourceSpec(s: Session, pending: seq<Byte>, arrivals: seq<seq<Byte>>, written: nat): (Session, nat)
    requires Roomy(s)
    decreases |arrivals|, |pending| + |s.buffered|, |pending|
  {
    if pending == [] then (s, written)
    else
      var pass := SourcePass(s, pending);
      if !pass.ok || Remaining(pass.s) == 0 then (pass.s, written + pass.counted)
      else
        var rest := pending[pass.taken..];
        if arrivals == [] then SourceSpec(pass.s, rest, [], written + pass.counted)
        else SourceSpec(pass.s, rest + arrivals[0], arrivals[1..], written + pass.counted)
  }

  function MagicFlashChipSize(code: Byte): nat {
    match code & 0x0f
    case 0x0 => 0x80000
    case 0x1 => 0x40000
    case 0x2 => 0x100000
    case 0x3 => 0x200000
    case 0x4 => 0x400000
    case 0x8 => 0x800000
    case 0x9 => 0x1000000
    case _ => 0
  }

  /** The sizes behind the codes: 512 KB and 256 KB for 0 and 1, then doubling from 1 MB at 2 up to 4 MB at 4, 8 MB and
      16 MB for 8 and 9, nothing for the others; the upper half of the byte does not matter. */
  lemma ChipSizes(code: Byte)
    ensures MagicFlashChipSize(0) == 512 * 1024 == 2 * MagicFlashChipSize(1)
    ensures MagicFlashChipSize(2) == 1024 * 1024
    ensures MagicFlashChipSize(3) == 2 * MagicFlashChipSize(2) && MagicFlashChipSize(4) == 2 * MagicFlashChipSize(3)
    ensures MagicFlashChipSize(8) == 2 * MagicFlashChipSize(4) && MagicFlashChipSize(9) == 2 * MagicFlashChipSize(8)
    ensures code < 16 && code !in {0, 1, 2, 3, 4, 8, 9} ==> MagicFlashChipSize(code) == 0
    ensures MagicFlashChipSize(code) == MagicFlashChipSize(code % 16)
  {
    assert code & 0x0f == code % 16 && (code % 16) & 0x0f == code % 16;
  }

  function VerifyEnd(b: Board, s: Session): (Session, bool) {
    if s.command == U_FLASH then
      var (chip, head) := Read(s.chip, s.start, 4);
      var t := s.(chip := chip);
      if head.None? then (t.(error := ERROR_READ, cur := s.start), false)
      else if head.value[0] != 0xe9 then (t.(error := ERROR_MAGIC_BYTE, cur := s.start), false)
      else if MagicFlashChipSize((head.value[3] & 0xf0) >> 4) > b.realSize then
        (t.(error := ERROR_NEW_FLASH_CONFIG, cur := s.start), false)
      else (t, true)
    else (s, s.command == U_SPIFFS)
  }

  /** The first bytes of a sketch image: the magic byte, and a flash size that the chip has. */
  predicate SketchHeader(b: Board, cells: seq<Byte>, at: nat) {
    at + 4 <= |cells| && cells[at] == 0xe9 && MagicFlashChipSize(cells[at + 3] >> 4) <= b.realSize
  }

  lemma HighNibble(c: Byte)
    ensures (c & 0xf0) >> 4 == c >> 4
  {}

  /** The check of the staged image passes exactly for a file system image, and for a sketch whose header can be
      read and is good. It changes no flash, and otherwise says why it failed and winds the session back. */
  lemma VerifyEndMeans(b: Board, s: Session)
    ensures var (t, ok) := VerifyEnd(b, s);
            && (ok <==> s.command == U_SPIFFS ||
                        (s.command == U_FLASH && !s.chip.fails(s.chip.tick) && SketchHeader(b, s.chip.cells, s.start)))
            && t.chip.cells == s.chip.cells
            && (ok ==> t.error == s.error && t.cur == s.cur)
            && (!ok && s.command == U_FLASH ==>
                 t.cur == s.start && t.error in {ERROR_READ, ERROR_MAGIC_BYTE, ERROR_NEW_FLASH_CONFIG} &&
                 (t.error == ERROR_READ <==> s.start + 4 > |s.chip.cells| || s.chip.fails(s.chip.tick)) &&
                 (t.error == ERROR_MAGIC_BYTE ==> s.chip.cells[s.start] != 0xe9))
  {
    if s.start + 4 <= |s.chip.cells| {
      HighNibble(s.chip.cells[s.start + 3]);
      var head := s.chip.cells[s.start..s.start + 4];
      assert head[0] == s.chip.cells[s.start] && head[3] == s.chip.cells[s.start + 3];
    }
  }

  /** The copy command; the arguments past the third are whatever was on the stack. */
  function CopyCommand(start: u32, size: u32, stack: seq<Word>): Record
    requires |stack| == ARG_COUNT - 3
  {
    Seal(ACTION_COPY_RAW, [FromNat(start), FromNat(0), FromNat(size)] + stack)
  }

  /** `end(true)` first flushes a partly filled buffer, without looking at the result. */
  function Settle(s: Session, evenIfRemaining: bool): Session {
    if evenIfRemaining then
      var t := if |s.buffered| > 0 then Flush(s).0 else s;
      t.(size := Progress(t))
    else s
  }

  function EndSpec(b: Board, s: Session, evenIfRemaining: bool, stack: seq<Word>): (Session, bool)
    requires |stack| == ARG_COUNT - 3
  {
    if s.size == 0 then (s, false)
    else if s.error != ERROR_OK || (!Finished(s) && !evenIfRemaining) then (Reset(s), false)
    else
      var t := Settle(s, evenIfRemaining);
      if t.target != "" && t.target != b.digest(t.hashed) then (Reset(t.(error := ERROR_MD5)), false)
      else
        var (u, ok) := VerifyEnd(b, t);
        if !ok then (Reset(u), false)
        else if u.command == U_FLASH then (Reset(u.(rtc := CopyCommand(u.start, u.size, stack))), true)
        else (Reset(u), true)
  }

  class UpdaterClass {
    const board: Board
    const mem: array<Word>

    var error: int
    var buffer: array?<Byte>
    var bufferLen: nat
    var size: u32
    var startAddress: u32
    var currentAddress: u32
    var command: int
    var targetMd5: string
    var hashed: seq<Byte>
    var chip: Chip

    ghost predicate Valid()
      reads this, buffer
    {
      && mem.Length == WORD_COUNT
      && (buffer != null ==> buffer.Length == SECTOR)
      && (buffer == null ==> bufferLen == 0)
      && (size > 0 ==> buffer != null)
      && bufferLen <= SECTOR
    }

    ghost function Buffered(): seq<Byte>
      requires Valid()
      reads this, buffer
    {
      if buffer == null then [] else buffer[..bufferLen]
    }

    ghost function State(): (s: Session)
      requires Valid()
      reads this, buffer, mem
      ensures |s.buffered| <= SECTOR
    {
      Session(error, Buffered(), size, startAddress, currentAddress, command, targetMd5, hashed, chip, mem[..])
    }

    constructor (board: Board, chip: Chip, mem: array<Word>)
      requires mem.Length == WORD_COUNT
      ensures Valid() && this.board == board && this.mem == mem
      ensures State() == Session(ERROR_OK, [], 0, 0, 0, U_FLASH, "", [], chip, mem[..])
    {
      this.board, this.mem, this.chip := board, mem, chip;
      error, buffer, bufferLen, size := ERROR_OK, null, 0, 0;
      startAddress, currentAddress, command := 0, 0, U_FLASH;
      targetMd5, hashed := "", [];
    }

    method ResetFields()
      requires Valid()
      modifies this
      ensures Valid() && buffer == null
      ensures State() == Reset(old(State()))
    {
      buffer := null;
      bufferLen := 0;
      startAddress := 0;
      currentAddress := 0;
      size := 0;
      command := U_FLASH;
    }

    method Begin(newSize: u32, newCommand: int) returns (ok: bool)
      requires Valid()
      modifies this
      ensures Valid()
      ensures (State(), ok) == BeginSpec(board, old(State()), newSize, newCommand)
      ensures buffer == null || buffer == old(buffer) || fresh(buffer)
    {
      if size > 0 {
        return false;
      }
      if newSize == 0 {
        error := ERROR_SIZE;
        return false;
      }
      if !board.configOk {
        error := ERROR_FLASH_CONFIG;
        return false;
      }
      ResetFields();
      error := ERROR_OK;
      var updateStart: u32 := 0;
      if newCommand == U_FLASH {
        var currentSketchSize := RoundUp32(board.sketchSize);
        var roundedSize := RoundUp32(newSize);
        updateStart := Sub32(board.fsStart, roundedSize);
        if updateStart < currentSketchSize {
          error := ERROR_SPACE;
          return false;
        }
      } else if newCommand == U_SPIFFS {
        updateStart := board.fsStart;
      } else {
        return false;
      }
      startAddress := updateStart;
      currentAddress := startAddress;
      size := newSize;
      buffer := new Byte[SECTOR];
      command := newCommand;
      hashed := [];
      return true;
    }

    method SetMd5(expected: string) returns (ok: bool)
      requires Valid()
      modifies this
      ensures Valid() && buffer == old(buffer)
      ensures ok == (|expected| == 32)
      ensures State() == if ok then old(State()).(target := expected) else old(State())
    {
      if |expected| != 32 {
        return false;
      }
      targetMd5 := expected;
      return true;
    }

    method WriteBuffer() returns (ok: bool)
      requires Valid() && buffer != null
      modifies this
      ensures Valid() && buffer == old(buffer) && size == old(size)
      ensures (State(), ok) == Flush(old(State()))
      ensures ok ==> bufferLen == 0
    {
      var (erased, result) := EraseSector(chip, currentAddress / SECTOR);
      chip := erased;
      if result {
        var (programmed, result2) := Program(chip, currentAddress, buffer[..bufferLen]);
        chip, result := programmed, result2;
      }
      if !result {
        error := ERROR_WRITE;
        currentAddress := Add32(startAddress, size);
        return false;
      }
      hashed := hashed + buffer[..bufferLen];
      currentAddress := Add32(currentAddress, bufferLen);
      bufferLen := 0;
      return true;
    }

    /** memcpy into the free part of the buffer. */
    method Append(data: seq<Byte>)
      requires Valid() && buffer != null && bufferLen + |data| <= SECTOR
      modifies this`bufferLen, buffer
      ensures Valid() && buffer == old(buffer)
      ensures State() == old(State()).(buffered := old(Buffered()) + data)
    {
      forall i | 0 <= i < |data| {
        buffer[bufferLen + i] := data[i];
      }
      bufferLen := bufferLen + |data|;
      assert buffer[..bufferLen] == old(buffer[..bufferLen]) + data;
    }

    /** The loop of `write`: `left` bytes remain when it ends. */
    method Fill(data: seq<Byte>) returns (left: nat, ok: bool)
      requires Valid() && buffer != null
      modifies this, buffer
      ensures Valid() && buffer == old(buffer) && left <= |data|
      ensures ok ==> bufferLen + left <= SECTOR
      ensures FillSectors(old(State()), data)
           == if ok then Going(State(), data[|data| - left..]) else Stopped(State(), left)
    {
      hide EraseSector, Program, Flush;
      left := |data|;
      assert data[0..] == data;
      while bufferLen + left > SECTOR
        invariant Valid() && buffer == old(buffer) && buffer != null
        invariant left <= |data|
        invariant FillSectors(old(State()), data) == FillSectors(State(), data[|data| - left..])
        decreases bufferLen + left
      {
        var toBuff := SECTOR - bufferLen;
        ghost var rest := data[|data| - left..];
        assert rest[..toBuff] == data[|data| - left..|data| - left + toBuff];
        assert rest[toBuff..] == data[|data| - (left - toBuff)..];
        Append(data[|data| - left..|data| - left + toBuff]);
        var flushed := WriteBuffer();
        if !flushed {
          return left, false;
        }
        left := left - toBuff;
      }
      ok := true;
    }

    method Write(data: seq<Byte>) returns (written: nat)
      requires Valid()
      modifies this, buffer
      ensures Valid() && buffer == old(buffer)
      ensures (State(), written) == WriteSpec(old(State()), data)
    {
      hide EraseSector, Program, Flush, FillSectors;
      if error != ERROR_OK || size == 0 {
        return 0;
      }
      if |data| > Sub32(size, Sub32(currentAddress, startAddress)) {
        error := ERROR_SPACE;
        return 0;
      }
      var left, filled := Fill(data);
      if !filled {
        return |data| - left;
      }
      Append(data[|data| - left..]);
      if bufferLen == Sub32(size, Sub32(currentAddress, startAddress)) {
        var ok := WriteBuffer();
        if !ok {
          return |data| - left;
        }
      }
      return |data|;
    }

    /** The body of the template `write` loop. */
    method TakeOnce(pending: seq<Byte>) returns (taken: nat, counted: nat, ok: bool)
      requires Valid() && buffer != null && Roomy(State()) && pending != []
      modifies this, buffer
      ensures Valid() && buffer == old(buffer)
      ensures Pass(State(), taken, counted, ok) == SourcePass(old(State()), pending)
    {
      hide EraseSector, Program, Flush;
      var remaining := Sub32(size, Sub32(currentAddress, startAddress));
      taken, counted, ok := |pending|, 0, true;
      if bufferLen + taken > remaining {
        taken := remaining - bufferLen;
      }
      if bufferLen + taken > SECTOR {
        taken := SECTOR - bufferLen;
        Append(pending[..taken]);
        ok := WriteBuffer();
        if ok {
          counted := taken;
        }
      } else {
        Append(pending[..taken]);
        counted := taken;
        if bufferLen == Sub32(size, Sub32(currentAddress, startAddress)) {
          ok := WriteBuffer();
        }
      }
    }

    method WriteFrom(available: seq<Byte>, later: seq<seq<Byte>>) returns (written: nat)
      requires Valid() && Roomy(State())
      modifies this, buffer
      ensures Valid() && buffer == old(buffer)
      ensures (State(), written) == if old(error) != ERROR_OK || old(size) == 0 then (old(State()), 0)
                                    else SourceSpec(old(State()), available, later, 0)
    {
      hide Flush, SourcePass;
      written := 0;
      if error != ERROR_OK || size == 0 {
        return;
      }
      var pending, arrivals := available, later;
      while pending != []
        invariant Valid() && buffer == old(buffer) && buffer != null && Roomy(State())
        invariant SourceSpec(old(State()), available, later, 0) == SourceSpec(State(), pending, arrivals, written)
        decreases |arrivals|, |pending| + bufferLen, |pending|
      {
        var taken, counted, ok := TakeOnce(pending);
        written := written + counted;
        if !ok || Sub32(size, Sub32(currentAddress, startAddress)) == 0 {
          return;
        }
        pending := pending[taken..];
        if arrivals != [] {
          pending, arrivals := pending + arrivals[0], arrivals[1..];
        }
      }
    }

    method VerifyEndOfUpdate() returns (ok: bool)
      requires Valid()
      modifies this
      ensures Valid() && buffer == old(buffer)
      ensures (State(), ok) == VerifyEnd(board, old(State()))
      ensures ok <==> command == U_SPIFFS ||
                      (command == U_FLASH && !old(chip.fails(chip.tick)) &&
                       SketchHeader(board, old(chip.cells), old(startAddress)))
      ensures chip.cells == old(chip.cells) && command == old(command)
    {
      VerifyEndMeans(board, State());
      if command == U_FLASH {
        var (read, head) := Read(chip, startAddress, 4);
        chip := read;
        if head.None? {
          error := ERROR_READ;
          currentAddress := startAddress;
          return false;
        }
        if head.value[0] != 0xe9 {
          error := ERROR_MAGIC_BYTE;
          currentAddress := startAddress;
          return false;
        }
        if MagicFlashChipSize((head.value[3] & 0xf0) >> 4) > board.realSize {
          error := ERROR_NEW_FLASH_CONFIG;
          currentAddress := startAddress;
          return false;
        }
        return true;
      }
      return command == U_SPIFFS;
    }

    method SendCommand(stack: seq<Word>)
      requires Valid() && |stack| == ARG_COUNT - 3
      modifies mem
      ensures Valid() && State() == old(State()).(rtc := CopyCommand(startAddress, size, stack))
    {
      hide FromNat;
      var args := [FromNat(startAddress), FromNat(0), FromNat(size)] + stack;
      var cmd := new Word[WORD_COUNT](i requires 0 <= i < WORD_COUNT =>
        if i == 1 then ACTION_COPY_RAW else if 2 <= i < CRC_INDEX then args[i - 2] else ZERO_WORD);
      assert cmd[2..CRC_INDEX] == args;
      CommandWrite(mem, cmd);
      assert mem[..] == mem[..WORD_COUNT];
    }

    method End(evenIfRemaining: bool, stack: seq<Word>) returns (ok: bool)
      requires Valid() && |stack| == ARG_COUNT - 3
      modifies this, mem
      ensures Valid()
      ensures (State(), ok) == EndSpec(board, old(State()), evenIfRemaining, stack)
    {
      hide EraseSector, Program, Flush, VerifyEnd, CopyCommand;
      if size == 0 {
        return false;
      }
      if error != ERROR_OK || (currentAddress != Add32(startAddress, size) && !evenIfRemaining) {
        ResetFields();
        return false;
      }
      if evenIfRemaining {
        if bufferLen > 0 {
          var ignored := WriteBuffer();
        }
        size := Sub32(currentAddress, startAddress);
      }
      assert State() == Settle(old(State()), evenIfRemaining);
      if targetMd5 != "" && targetMd5 != board.digest(hashed) {
        error := ERROR_MD5;
        ResetFields();
        return false;
      }
      var verified := VerifyEndOfUpdate();
      if !verified {
        ResetFields();
        return false;
      }
      if command == U_FLASH {
        SendCommand(stack);
      }
      ResetFields();
      return true;
    }
  }
}
