/** When the update succeeds: exactly if what is asked for fits and no flash operation fails. */
module UpdateSuccess {
  import opened Numbers
  import opened Option
  import opened Crc
  import opened Flash
  import opened BootCommand
  import opened Bootloader
  import opened Updater
  import opened UpdateSafety
  import opened FirmwareUpdate

  // ---- One write ----

  lemma FlushExact(s: Session)
    requires s.cur / SECTOR * SECTOR + SECTOR <= |s.chip.cells| && s.cur + |s.buffered| <= |s.chip.cells|
    ensures var (t, ok) := Flush(s);
            && Continues(s.chip, t.chip) && (ok <==> Unfailed(s.chip, t.chip))
            && (ok ==> t.error == s.error) && (!ok ==> t.error == ERROR_WRITE)
  {
    hide EraseSector, Program;
    var (erased, erasedOk) := EraseSector(s.chip, s.cur / SECTOR);
    EraseExact(s.chip, s.cur / SECTOR);
    if erasedOk {
      ProgramExact(erased, s.cur, s.buffered);
      UnfailedTwice(s.chip, erased, Program(erased, s.cur, s.buffered).0);
    }
  }

  /** The sector of any address of the image is on the chip. */
  lemma SectorOnChip(s: Session, at: nat)
    requires Synced(s) && at % SECTOR == 0 && at < s.start + s.size
    ensures at / SECTOR * SECTOR + SECTOR == at + SECTOR <= |s.chip.cells|
  {
    assert |s.chip.cells| / SECTOR * SECTOR == |s.chip.cells|;
    assert at / SECTOR * SECTOR == at;
    assert at / SECTOR < |s.chip.cells| / SECTOR;
  }

  lemma {:induction false} FillExact(s: Session, data: seq<Byte>)
    requires Synced(s) && s.cur % SECTOR == 0 && s.cur + |s.buffered| + |data| <= s.start + s.size
    ensures match FillSectors(s, data)
            case Stopped(t, left) => Continues(s.chip, t.chip) && !Unfailed(s.chip, t.chip)
            case Going(t, rest) => Continues(s.chip, t.chip) && Unfailed(s.chip, t.chip)
    decreases |s.buffered| + |data|
  {
    hide Flush, Continues, Unfailed;
    Same(s.chip);
    if |s.buffered| + |data| > SECTOR {
      var toBuff := SECTOR - |s.buffered|;
      var full := s.(buffered := s.buffered + data[..toBuff]);
      SectorOnChip(s, s.cur);
      FlushExact(full);
      FlushKeeps(full);
      var (t, ok) := Flush(full);
      if ok {
        FillExact(t, data[toBuff..]);
        match FillSectors(t, data[toBuff..]) {
          case Stopped(u, left) => UnfailedTwice(s.chip, t.chip, u.chip);
          case Going(u, rest) => UnfailedTwice(s.chip, t.chip, u.chip);
        }
      }
    }
  }

  lemma Same(c: Chip)
    ensures Continues(c, c) && Unfailed(c, c)
  {}

  lemma TailExact(t: Session, rest: seq<Byte>)
    requires Synced(t) && |t.buffered| + |rest| <= SECTOR && t.error == ERROR_OK && t.cur % SECTOR == 0
    requires t.cur + |t.buffered| + |rest| <= t.start + t.size
    requires t.buffered == [] && rest == [] ==> t.cur != t.start + t.size
    ensures var (v, ok) := Tail(t, rest);
            && Continues(t.chip, v.chip) && (ok <==> Unfailed(t.chip, v.chip))
            && (ok ==> v.error == ERROR_OK) && (!ok ==> v.error == ERROR_WRITE)
  {
    hide Flush, Continues, Unfailed;
    var u := t.(buffered := t.buffered + rest);
    RemainingInside(u);
    Same(t.chip);
    if |u.buffered| == Remaining(u) {
      SectorOnChip(t, t.cur);
      FlushExact(u);
    }
  }

  /** A chunk that fits is taken whole and without an error exactly if no flash operation fails meanwhile. (A write to a
      finished session needs a sector behind the image.) */
  lemma WriteExact(s: Session, data: seq<Byte>)
    requires Staged(s) && s.error == ERROR_OK && |Accepted(s)| + |data| <= s.size
    requires data == [] && Drained(s) ==> s.cur < |s.chip.cells|
    ensures var (t, n) := WriteSpec(s, data);
            && Continues(s.chip, t.chip) && (t.error == ERROR_OK <==> Unfailed(s.chip, t.chip))
            && (t.error == ERROR_OK ==> n == |data|) && (t.error != ERROR_OK ==> t.error == ERROR_WRITE)
  {
    hide Flush, FillSectors, Tail, Remaining, Continues, Unfailed;
    RemainingInside(s);
    if data == [] && Drained(s) {
      StagedDone(s);
      EmptyWriteAfterFinish(s);
      LateExact(s);
    } else {
      WriteUnfolds(s, data);
      FillKeeps(s, data);
      FillExact(s, data);
      match FillSectors(s, data) {
        case Stopped(t, left) =>
        case Going(t, rest) =>
          assert |Accepted(t) + rest| == |Accepted(s) + data|;
          TailExact(t, rest);
          UnfailedTwice(s.chip, t.chip, Tail(t, rest).0.chip);
      }
    }
  }

  lemma LateExact(s: Session)
    requires Done(s) && s.cur < |s.chip.cells|
    ensures var (t, ok) := Flush(s);
            && Continues(s.chip, t.chip) && (t.error == ERROR_OK <==> Unfailed(s.chip, t.chip))
            && (t.error != ERROR_OK ==> t.error == ERROR_WRITE)
  {
    hide Flush, Continues, Unfailed;
    DoneStands(s);
    assert |s.chip.cells| / SECTOR * SECTOR == |s.chip.cells|;
    assert s.cur / SECTOR < |s.chip.cells| / SECTOR;
    FlushExact(s);
  }

  /** A chunk longer than what remains is refused, and nothing else changes. */
  lemma TooLong(s: Session, data: seq<Byte>)
    requires Staged(s) && s.error == ERROR_OK && s.cur <= s.start + s.size < s.cur + |data|
    ensures WriteSpec(s, data) == (s.(error := ERROR_SPACE), 0)
  {
    RemainingInside(s);
  }

  /** Without a session, or after an error, nothing is taken and nothing changes. */
  lemma NotRunning(s: Session, data: seq<Byte>)
    requires |s.buffered| <= SECTOR && (s.size == 0 || s.error != ERROR_OK)
    ensures WriteSpec(s, data) == (s, 0)
  {}

  // ---- What a failing write reports ----

  /** How many bytes of the present chunk have reached flash, if `before` bytes were taken in front of it. */
  function Reached(t: Session, before: nat): nat {
    if |t.hashed| <= before then 0 else |t.hashed| - before
  }

  lemma FlushHashed(s: Session)
    ensures var (t, ok) := Flush(s);
            && t.hashed == (if ok then s.hashed + s.buffered else s.hashed)
            && (ok ==> t.buffered == [] && t.error == s.error) && (!ok ==> t.error == ERROR_WRITE)
  {
    hide EraseSector, Program;
  }

  lemma {:induction false} FillReports(s: Session, data: seq<Byte>, before: nat, done: nat)
    requires |s.buffered| <= SECTOR
    requires if done == 0 then |s.hashed| + |s.buffered| == before else s.buffered == [] && |s.hashed| == before + done
    ensures match FillSectors(s, data)
            case Stopped(t, left) => left <= |data| && Reached(t, before) == done + |data| - left
            case Going(t, rest) =>
              && |rest| <= |data| && Reached(t, before) == done + |data| - |rest| && |t.buffered| + |rest| <= SECTOR
              && t.error == s.error
    decreases |s.buffered| + |data|
  {
    hide Flush;
    if |s.buffered| + |data| > SECTOR {
      var toBuff := SECTOR - |s.buffered|;
      var full := s.(buffered := s.buffered + data[..toBuff]);
      FlushHashed(full);
      var (t, ok) := Flush(full);
      if ok && done + toBuff > 0 {
        FillReports(t, data[toBuff..], before, done + toBuff);
      } else if ok {
        FillReports(t, data[toBuff..], before, 0);
      }
    }
  }

  /** When flash fails, `write` reports exactly the bytes of the chunk that have reached flash. */
  lemma FailureReports(s: Session, data: seq<Byte>)
    requires |s.buffered| <= SECTOR && s.error == ERROR_OK && s.size > 0 && |data| <= Remaining(s)
    requires WriteSpec(s, data).0.error == ERROR_WRITE
    ensures var (t, n) := WriteSpec(s, data); n == Reached(t, |Accepted(s)|)
  {
    hide Flush, FillSectors, Remaining;
    WriteUnfolds(s, data);
    FillReports(s, data, |Accepted(s)|, 0);
    match FillSectors(s, data) {
      case Stopped(t, left) =>
      case Going(t, rest) =>
        FlushHashed(t.(buffered := t.buffered + rest));
    }
  }

  // ---- The template write ----

  lemma PassExact(s: Session, pending: seq<Byte>)
    requires Healthy(s) && !Drained(s) && pending != []
    ensures Roomy(s)
    ensures var pass := SourcePass(s, pending);
            && Continues(s.chip, pass.s.chip) && (pass.ok <==> Unfailed(s.chip, pass.s.chip))
  {
    hide Flush, Continues, Unfailed;
    HealthyRoomy(s);
    PassUnfolds(s, pending);
    Same(s.chip);
    if PassFlushes(s, |pending|) {
      SectorOnChip(s, s.cur);
      FlushExact(s.(buffered := s.buffered + pending[..PassSize(s, |pending|)]));
    }
  }

  /** How much of the image is still to come. */
  function Missing(s: Session): int {
    s.size - |Accepted(s)|
  }

  lemma MissingIs(s: Session)
    requires Healthy(s)
    ensures Roomy(s) && Missing(s) == Remaining(s) - |s.buffered| >= 0 && s.error == ERROR_OK
  {
    HealthyRoomy(s);
  }

  /** The template `write` ends without an error exactly if no flash operation fails meanwhile. It then has taken at
      least what was available at its start, or all that was missing. */
  lemma {:induction false} SourceExact(s: Session, pending: seq<Byte>, arrivals: seq<seq<Byte>>, written: nat)
    requires Healthy(s) && (Drained(s) && pending != [] ==> s.cur < |s.chip.cells|)
    ensures Roomy(s)
    ensures var (t, n) := SourceSpec(s, pending, arrivals, written);
            && Continues(s.chip, t.chip) && (t.error == ERROR_OK <==> Unfailed(s.chip, t.chip))
            && (t.error == ERROR_OK ==> n - written >= if |pending| < Missing(s) then |pending| else Missing(s))
            && (t.error != ERROR_OK ==> t.error == ERROR_WRITE)
    decreases |arrivals|, |pending| + |s.buffered|, |pending|
  {
    hide SourcePass, Healthy, Drained, Remaining, Continues, Unfailed, Missing;
    HealthyRoomy(s);
    MissingIs(s);
    Same(s.chip);
    if pending != [] {
      if Drained(s) {
        HealthyDone(s);
        SourceAfterFinish(s, pending, arrivals, written);
        LateExact(s);
      } else {
        PassExact(s, pending);
        PassKeeps(s, pending);
        var pass := SourcePass(s, pending);
        PassMissing(s, pending);
        if pass.ok {
          HealthyRoomy(pass.s);
          MissingIs(pass.s);
          if Remaining(pass.s) != 0 {
            var rest := pending[pass.taken..];
            if arrivals == [] {
              SourceExact(pass.s, rest, [], written + pass.counted);
            } else {
              SourceExact(pass.s, rest + arrivals[0], arrivals[1..], written + pass.counted);
            }
            UnfailedTwice(s.chip, pass.s.chip, SourceSpec(s, pending, arrivals, written).0.chip);
          }
        }
      }
    }
  }

  lemma HealthyDone(s: Session)
    requires Healthy(s) && Drained(s)
    ensures Done(s) && Missing(s) == 0
  {}

  lemma PassMissing(s: Session, pending: seq<Byte>)
    requires Healthy(s) && !Drained(s) && pending != []
    ensures Roomy(s)
    ensures var pass := SourcePass(s, pending);
            pass.ok ==> Healthy(pass.s) && pass.counted == pass.taken && Missing(pass.s) == Missing(s) - pass.taken
    ensures !SourcePass(s, pending).ok ==> SourcePass(s, pending).s.error == ERROR_WRITE
  {
    hide SourcePass, Healthy, Drained, Accepted, RoundUp32, SameOutside;
    PassKeeps(s, pending);
  }

  /** Of a pass whose flush fails, the bytes are counted only if they were to complete the image. */
  lemma PassFailure(s: Session, pending: seq<Byte>)
    requires Healthy(s) && pending != []
    ensures Roomy(s)
    ensures var pass := SourcePass(s, pending);
            !pass.ok ==> pass.counted == if pass.taken == Missing(s) then pass.taken else 0
  {
    hide Flush;
    MissingIs(s);
    HealthyRoomy(s);
  }

  // ---- Any sequence of writes ----

  /** No call flushes an empty buffer into a finished image. */
  ghost predicate AllPunctual(s: Session, feeds: seq<Feed>)
    decreases |feeds|
  {
    feeds == [] || (!Late(s, feeds[0]) && AllPunctual(FeedOne(s, feeds[0]), feeds[1..]))
  }

  lemma FeedOneExact(s: Session, f: Feed)
    requires Staged(s) && s.error == ERROR_OK && Careful(s, f) && |Accepted(s)| + |Taken(s, f)| <= s.size
    requires Late(s, f) ==> s.cur < |s.chip.cells|
    ensures var t := FeedOne(s, f);
            && Continues(s.chip, t.chip) && (t.error == ERROR_OK <==> Unfailed(s.chip, t.chip))
  {
    hide WriteSpec, SourceSpec, Offered, Continues, Unfailed;
    match f {
      case Chunk(data) => WriteExact(s, data);
      case Source(pending, arrivals) => SourceExact(s, pending, arrivals, 0);
    }
  }

  /** A run of writes of at most the declared size ends without an error exactly if no flash operation fails. */
  lemma {:induction false} FeedAllSucceeds(s: Session, feeds: seq<Feed>)
    requires Staged(s) && s.error == ERROR_OK && AllCareful(s, feeds)
    requires |Accepted(s)| + |TakenAll(s, feeds)| <= s.size
    requires s.start + s.size < |s.chip.cells| || AllPunctual(s, feeds)
    ensures var t := FeedAll(s, feeds);
            && Continues(s.chip, t.chip) && (t.error == ERROR_OK <==> Unfailed(s.chip, t.chip))
    decreases |feeds|
  {
    hide Staged, FeedOne, Taken, Careful, Accepted, Continues, Unfailed, Late;
    Same(s.chip);
    if feeds != [] {
      var t := FeedOne(s, feeds[0]);
      LateAt(s, feeds[0]);
      FeedOneKeeps(s, feeds[0]);
      FeedOneExact(s, feeds[0]);
      SameCells(s.chip, t.chip);
      if t.error == ERROR_OK {
        FeedAllSucceeds(t, feeds[1..]);
        UnfailedTwice(s.chip, t.chip, FeedAll(t, feeds[1..]).chip);
      } else {
        FeedAllError(t, feeds[1..]);
      }
    }
  }

  lemma LateAt(s: Session, f: Feed)
    requires Staged(s)
    ensures Late(s, f) ==> s.cur == s.start + s.size
  {}

  lemma SameCells(c: Chip, d: Chip)
    requires Continues(c, d)
    ensures |c.cells| == |d.cells|
  {}

  // ---- end and reboot ----

  /** Exactly when `end` succeeds, and that it writes to RTC memory only for a sketch, and only then. */
  lemma EndExact(b: Board, s: Session, evenIfRemaining: bool, stack: seq<Word>)
    requires |stack| == ARG_COUNT - 3
    ensures var (t, ok) := EndSpec(b, s, evenIfRemaining, stack);
            && (t.rtc != s.rtc ==> ok && s.command == U_FLASH)
            && (ok ==> s.size > 0 && s.error == ERROR_OK && (s.cur == Finish(s) || evenIfRemaining)
                       && s.command in {U_FLASH, U_SPIFFS})
            && (s.size > 0 ==> t.size == 0 && t.start == t.cur == 0 && t.buffered == [] && t.command == U_FLASH)
  {
    hide CopyCommand, EraseSector, Program, MagicFlashChipSize;
  }

  /** Which refusal of `begin` flags which error, and that no refusal and no success touches flash or RTC memory. A
      session that is running stays as it is. */
  lemma BeginErrors(b: Board, s: Session, size: u32, command: int)
    ensures var (t, ok) := BeginSpec(b, s, size, command);
            && t.chip == s.chip && t.rtc == s.rtc && t.target == s.target
            && (s.size > 0 ==> !ok && t == s)
            && (s.size == 0 && size == 0 ==> !ok && t.error == 5)
            && (s.size == 0 && size > 0 && !b.configOk ==> !ok && t.error == 8)
            && (s.size == 0 && size > 0 && b.configOk && !ok && command == U_FLASH ==> t.error == 4)
            && (s.size == 0 && size > 0 && b.configOk && command !in {U_FLASH, U_SPIFFS} ==> !ok && t.error == 0)
            && (!ok && s.size == 0 ==> t.size == 0) && (ok ==> t.size == size)
  {}

  /** How `end` fails: an unfinished or failed session keeps its error and touches nothing; a wrong digest flags an MD5
      error, whatever the image is; otherwise the check of the image says why. The session is over in every case. */
  lemma EndErrors(b: Board, s: Session, evenIfRemaining: bool, stack: seq<Word>)
    requires |stack| == ARG_COUNT - 3
    ensures var (t, ok) := EndSpec(b, s, evenIfRemaining, stack);
            var u := Settle(s, evenIfRemaining);
            var runs := s.size > 0 && s.error == ERROR_OK && (Finished(s) || evenIfRemaining);
            && t.size == 0 && (!runs ==> !ok && t.error == s.error && t.chip == s.chip && t.rtc == s.rtc)
            && (runs && u.target != "" && u.target != b.digest(u.hashed) ==> !ok && t.error == 7 && t.chip == u.chip)
            && (runs && (u.target == "" || u.target == b.digest(u.hashed)) ==>
                 ok == VerifyEnd(b, u).1 && t.error == VerifyEnd(b, u).0.error)
  {
    hide CopyCommand, Settle, VerifyEnd, Finished;
  }

  /** A session in which everything fits ends in success if no flash operation fails, the digest is right or not asked
      for, and a sketch has a good header. */
  lemma EndSucceeds(b: Board, s: Session, evenIfRemaining: bool, stack: seq<Word>)
    requires Staged(s) && Inside(s) && s.error == ERROR_OK && Reliable(s.chip) && |stack| == ARG_COUNT - 3
    requires s.cur == s.start + s.size || evenIfRemaining
    requires s.target == "" || s.target == b.digest(Accepted(s))
    requires s.command == U_SPIFFS || (s.command == U_FLASH && |Accepted(s)| >= 4 && SketchHeader(b, Accepted(s), 0))
    ensures var (t, ok) := EndSpec(b, s, evenIfRemaining, stack);
            var n := |Accepted(s)|;
            && ok && t.error == ERROR_OK && Reliable(t.chip) && |t.chip.cells| == |s.chip.cells|
            && s.start + n <= |t.chip.cells| && n < TWO_32
            && t.chip.cells[s.start..s.start + n] == Accepted(s)
            && t.rtc == if s.command == U_FLASH then CopyCommand(s.start, n, stack) else s.rtc
  {
    hide CopyCommand, VerifyEnd, EndSpec, SketchHeader, MagicFlashChipSize, Continues, Unfailed, Reliable;
    SettleSucceeds(s, evenIfRemaining);
    var u := Settle(s, evenIfRemaining);
    hide Settle, Staged, Inside;
    if s.command == U_FLASH {
      HeaderStaged(b, u.chip.cells, s.start, Accepted(s));
    }
    VerifyEndMeans(b, u);
    VerifyReliable(b, u);
    EndRuns(b, s, evenIfRemaining, stack);
  }

  lemma HeaderStaged(b: Board, cells: seq<Byte>, at: nat, image: seq<Byte>)
    requires 4 <= |image| && at + |image| <= |cells| && cells[at..at + |image|] == image && SketchHeader(b, image, 0)
    ensures SketchHeader(b, cells, at)
  {
    assert image[0] == cells[at] && image[3] == cells[at + 3];
  }

  lemma SettleSucceeds(s: Session, evenIfRemaining: bool)
    requires Staged(s) && Inside(s) && s.error == ERROR_OK && Reliable(s.chip)
    requires s.cur == s.start + s.size || evenIfRemaining
    ensures var u := Settle(s, evenIfRemaining);
            var n := |Accepted(s)|;
            && u.error == ERROR_OK && u.hashed == Accepted(s) && u.size == n && u.start == s.start && n < TWO_32
            && u.command == s.command && u.target == s.target && u.rtc == s.rtc && Reliable(u.chip)
            && |u.chip.cells| == |s.chip.cells| && s.start + n <= |u.chip.cells|
            && u.chip.cells[s.start..s.start + n] == Accepted(s)
  {
    hide Flush;
    RemainingInside(s);
    if s.buffered != [] {
      SectorOnChip(s, s.cur);
      FlushExact(s);
      FlushKeeps(s);
      var f := Flush(s).0;
      ReliableStays(s.chip, f.chip);
      RemainingInside(f);
      assert f.hashed + [] == f.hashed;
    } else {
      assert s.hashed + [] == s.hashed;
    }
  }

  lemma VerifyReliable(b: Board, s: Session)
    requires Reliable(s.chip)
    ensures !s.chip.fails(s.chip.tick) && Reliable(VerifyEnd(b, s).0.chip)
    ensures VerifyEnd(b, s).0.chip.cells == s.chip.cells
  {
    hide MagicFlashChipSize;
  }

  lemma EndRuns(b: Board, s: Session, evenIfRemaining: bool, stack: seq<Word>)
    requires s.size > 0 && s.error == ERROR_OK && (s.cur == Finish(s) || evenIfRemaining) && |stack| == ARG_COUNT - 3
    requires var u := Settle(s, evenIfRemaining);
             && u.rtc == s.rtc && u.command == s.command
             && (u.target == "" || u.target == b.digest(u.hashed)) && VerifyEnd(b, u).1
    ensures var (t, ok) := EndSpec(b, s, evenIfRemaining, stack);
            var u := Settle(s, evenIfRemaining);
            && ok && t.error == u.error && t.chip == VerifyEnd(b, u).0.chip
            && t.rtc == if s.command == U_FLASH then CopyCommand(u.start, u.size, stack) else s.rtc
  {
    hide CopyCommand, Settle, MagicFlashChipSize;
  }

  /** Booting a staged image succeeds if no flash operation fails. */
  lemma BootSucceeds(chip: Chip, start: u32, size: u32, stack: seq<Word>)
    requires |stack| == ARG_COUNT - 3 && start % SECTOR == 0
    requires |chip.cells| % SECTOR == 0 && |chip.cells| + SECTOR < TWO_32
    requires start + size <= |chip.cells| && Reliable(chip)
    ensures Boot(chip, CopyCommand(start, size, stack)).res == 0
  {
    hide CopyCommand, CopyLoop, BootAccepts, Cleared, ToNat;
    CopyCommandRead(start, size, stack);
    var powered := chip.(tick := chip.tick + 1);
    EvenSector(start);
    SizeCovered(size);
    RoundedFits(start, size, |chip.cells|);
    CopySucceeds(powered, start, 0, RoundUp32(size));
    ReliableStays(powered, CopyLoop(powered, start, 0, RoundUp32(size)).0);
  }

  lemma RoundedFits(start: nat, size: nat, limit: nat)
    requires start % SECTOR == 0 && limit % SECTOR == 0 && start + size <= limit && limit + SECTOR < TWO_32
    ensures start + RoundUp32(size) <= limit
  {
    assert start / SECTOR * SECTOR == start && limit / SECTOR * SECTOR == limit;
    assert (size + SECTOR - 1) / SECTOR <= limit / SECTOR - start / SECTOR;
  }

  /** A sketch that fits, with the right size, header and digest, on a chip on which nothing fails: `begin` accepts
      it, any writes that bring exactly the image end without an error, `end` reports success, and the next boot
      installs the image and starts it. */
  lemma UpdateInstalls(b: Board, idle: Session, size: u32, feeds: seq<Feed>, evenIfRemaining: bool, stack: seq<Word>)
    requires |idle.chip.cells| % SECTOR == 0 && |idle.chip.cells| + SECTOR < TWO_32 && |stack| == ARG_COUNT - 3
    requires idle.size == 0 && b.configOk && Reliable(idle.chip)
    requires b.fsStart % SECTOR == 0 && size <= b.fsStart <= |idle.chip.cells|
    requires 0 < b.sketchSize <= b.fsStart && FitsBelowFileSystem(b, size)
    requires var begun := BeginSpec(b, idle, size, U_FLASH).0;
             var image := TakenAll(begun, feeds);
             && AllCareful(begun, feeds) && |image| == size
             && (begun.start + size < |idle.chip.cells| || AllPunctual(begun, feeds))
             && (idle.target == "" || idle.target == b.digest(image))
             && size >= 4 && SketchHeader(b, image, 0)
    ensures var (begun, begins) := BeginSpec(b, idle, size, U_FLASH);
            var fed := FeedAll(begun, feeds);
            var (t, ends) := EndSpec(b, fed, evenIfRemaining, stack);
            var o := Boot(t.chip, t.rtc);
            && begins && fed.error == ERROR_OK && Drained(fed) && ends && t.error == ERROR_OK
            && o.res == 0 && o.loadsFrom == Some(0) && size <= |o.chip.cells|
            && o.chip.cells[..size] == TakenAll(begun, feeds)
  {
    hide BeginSpec, EndSpec, Boot, FeedAll, TakenAll, AllCareful, AllPunctual, RoundUp32, SketchHeader, Staged, Inside;
    hide Accepted, FitsBelowFileSystem, CopyCommand, Reliable, Drained;
    BeginSpaceCheck(b, idle, size);
    BeginStages(b, idle, size);
    BeginTarget(b, idle, size, U_FLASH);
    var begun := BeginSpec(b, idle, size, U_FLASH).0;
    var fed := FeedAll(begun, feeds);
    FedWhole(begun, feeds);
    EndInstalls(b, fed, evenIfRemaining, stack);
  }

  /** The last part of the way: a complete session. */
  lemma EndInstalls(b: Board, s: Session, evenIfRemaining: bool, stack: seq<Word>)
    requires Staged(s) && Inside(s) && s.error == ERROR_OK && Reliable(s.chip) && |stack| == ARG_COUNT - 3
    requires s.cur == s.start + s.size && |Accepted(s)| == s.size && 0 < s.start && s.command == U_FLASH
    requires s.target == "" || s.target == b.digest(Accepted(s))
    requires s.size >= 4 && SketchHeader(b, Accepted(s), 0)
    ensures var (t, ok) := EndSpec(b, s, evenIfRemaining, stack);
            var o := Boot(t.chip, t.rtc);
            && ok && t.error == ERROR_OK && o.res == 0 && o.loadsFrom == Some(0)
            && s.size <= |o.chip.cells| && o.chip.cells[..s.size] == Accepted(s)
  {
    StagedPlaces(s);
    hide EndSpec, Boot, SketchHeader, Staged, Inside, Accepted, CopyCommand, Reliable, RoundUp32, SameOutside;
    EndSucceeds(b, s, evenIfRemaining, stack);
    var t := EndSpec(b, s, evenIfRemaining, stack).0;
    BootSucceeds(t.chip, s.start, s.size, stack);
    BootInstalls(t.chip, s.start, s.size, stack);
  }

  lemma StagedPlaces(s: Session)
    requires Staged(s)
    ensures s.start % SECTOR == 0 && |s.chip.cells| % SECTOR == 0 && |s.chip.cells| + SECTOR < TWO_32
    ensures s.start + s.size <= |s.chip.cells|
  {}

  lemma BeginTarget(b: Board, idle: Session, size: u32, command: int)
    requires BeginSpec(b, idle, size, command).1
    ensures BeginSpec(b, idle, size, command).0.target == idle.target
  {}

  /** A run that brings exactly the declared size ends with the image complete. */
  lemma FedWhole(s: Session, feeds: seq<Feed>)
    requires Staged(s) && s.error == ERROR_OK && Accepted(s) == [] && Reliable(s.chip) && AllCareful(s, feeds)
    requires |TakenAll(s, feeds)| == s.size && (s.start + s.size < |s.chip.cells| || AllPunctual(s, feeds))
    ensures var t := FeedAll(s, feeds);
            && SameJob(s, t) && Staged(t) && Inside(t) && t.error == ERROR_OK && Drained(t) && Reliable(t.chip)
            && t.cur == t.start + t.size && |t.chip.cells| == |s.chip.cells| && Accepted(t) == TakenAll(s, feeds)
  {
    hide FeedAll, TakenAll, AllCareful, AllPunctual, Continues, Unfailed, Reliable;
    FeedAllSucceeds(s, feeds);
    ReliableStays(s.chip, FeedAll(s, feeds).chip);
    SameCells(s.chip, FeedAll(s, feeds).chip);
    FeedAllKeeps(s, feeds);
    assert [] + TakenAll(s, feeds) == TakenAll(s, feeds);
    RemainingInside(FeedAll(s, feeds));
  }

  // ---- The file system ----

  /** `begin` for the file system checks no space: it starts every session of some size at the file system. */
  lemma BeginFileSystem(b: Board, idle: Session, size: u32)
    requires idle.size == 0 && b.configOk && 0 < size
    ensures var (t, ok) := BeginSpec(b, idle, size, U_SPIFFS);
            && ok && t.start == t.cur == b.fsStart && t.size == size && t.command == U_SPIFFS && t.error == ERROR_OK
            && Accepted(t) == [] && t.chip == idle.chip && t.rtc == idle.rtc && t.target == idle.target
    ensures |idle.chip.cells| % SECTOR == 0 && |idle.chip.cells| + SECTOR < TWO_32 && b.fsStart % SECTOR == 0 ==>
            b.fsStart + size <= |idle.chip.cells| ==>
            Staged(BeginSpec(b, idle, size, U_SPIFFS).0) && Inside(BeginSpec(b, idle, size, U_SPIFFS).0)
  {}

  /** Begin for the file system, any writes, end: whenever `begin` and `end` report success and no error is flagged,
      RTC memory is what it was, so that no copy follows, and flash from the start of the file system holds the
      leading bytes of everything written if and only if every late write found the image's part of the last sector
      blank. */
  lemma FileSystemUpdate(b: Board, idle: Session, size: u32, feeds: seq<Feed>, evenIfRemaining: bool, stack: seq<Word>)
    requires |idle.chip.cells| % SECTOR == 0 && |idle.chip.cells| + SECTOR < TWO_32 && |stack| == ARG_COUNT - 3
    requires idle.size == 0 && b.configOk && 0 < size
    requires b.fsStart % SECTOR == 0 && b.fsStart + size <= |idle.chip.cells|
    requires AllFair(BeginSpec(b, idle, size, U_SPIFFS).0, feeds)
    requires var fed := FeedAll(BeginSpec(b, idle, size, U_SPIFFS).0, feeds);
             var (t, ok) := EndSpec(b, fed, evenIfRemaining, stack);
             ok && t.error == ERROR_OK
    ensures var begun := BeginSpec(b, idle, size, U_SPIFFS).0;
            var image := TakenAll(begun, feeds);
            var t := EndSpec(b, FeedAll(begun, feeds), evenIfRemaining, stack).0;
            var n := if evenIfRemaining then |image| else size;
            && t.rtc == idle.rtc && n <= |image| && b.fsStart + n <= |t.chip.cells|
            && (t.chip.cells[b.fsStart..b.fsStart + n] == image[..n] <==> AllCareful(begun, feeds))
  {
    hide BeginSpec, EndSpec, FeedAll, TakenAll, AllCareful, AllFair, Staged, Inside, Accepted, Done, CopyCommand;
    BeginFileSystem(b, idle, size);
    var begun := BeginSpec(b, idle, size, U_SPIFFS).0;
    var fed := FeedAll(begun, feeds);
    EndNeedsNoError(b, fed, evenIfRemaining, stack);
    FeedAllExact(begun, feeds);
    var image := TakenAll(begun, feeds);
    assert [] + image == image;
    EndExact(b, fed, evenIfRemaining, stack);
    if AllCareful(begun, feeds) {
      EndStages(b, fed, evenIfRemaining, stack);
    } else {
      DoneEnds(b, fed, evenIfRemaining, stack);
      assert image[..size] == image;
    }
  }

  /** Neither does it reach the sketch: only the part of the file system that the image takes is erased or written. */
  lemma FileSystemOnly(b: Board, idle: Session, size: u32, feeds: seq<Feed>, evenIfRemaining: bool, stack: seq<Word>)
    requires |idle.chip.cells| % SECTOR == 0 && |idle.chip.cells| + SECTOR < TWO_32 && |stack| == ARG_COUNT - 3
    requires idle.size == 0 && b.configOk && 0 < size
    requires b.fsStart % SECTOR == 0 && b.fsStart + size <= |idle.chip.cells|
    requires AllSparing(BeginSpec(b, idle, size, U_SPIFFS).0, feeds)
    requires |TakenAll(BeginSpec(b, idle, size, U_SPIFFS).0, feeds)| <= size
    ensures var fed := FeedAll(BeginSpec(b, idle, size, U_SPIFFS).0, feeds);
            var t := EndSpec(b, fed, evenIfRemaining, stack).0;
            SameOutside(idle.chip, t.chip, b.fsStart, b.fsStart + RoundUp32(size)) && t.rtc == idle.rtc
  {
    hide BeginSpec, EndSpec, FeedAll, TakenAll, AllSparing, RoundUp32, SameOutside, Contained;
    BeginFileSystem(b, idle, size);
    var begun := BeginSpec(b, idle, size, U_SPIFFS).0;
    FeedAllStaysInside(begun, feeds);
    var fed := FeedAll(begun, feeds);
    var t := EndSpec(b, fed, evenIfRemaining, stack).0;
    EndExact(b, fed, evenIfRemaining, stack);
    var lo, hi := b.fsStart, b.fsStart + RoundUp32(size);
    if fed.error == ERROR_OK {
      EndStaysInside(b, fed, evenIfRemaining, stack);
    } else {
      EndAfterError(b, fed, evenIfRemaining, stack);
      Unchanged(fed.chip, lo, hi);
    }
    SameOutsideTwice(idle.chip, fed.chip, t.chip, lo, hi);
  }

  /** With the right digest, on a chip on which nothing fails, such an update succeeds. */
  lemma FileSystemSucceeds(b: Board, idle: Session, size: u32, feeds: seq<Feed>, evenIfRemaining: bool,
                           stack: seq<Word>)
    requires |idle.chip.cells| % SECTOR == 0 && |idle.chip.cells| + SECTOR < TWO_32 && |stack| == ARG_COUNT - 3
    requires idle.size == 0 && b.configOk && 0 < size && Reliable(idle.chip)
    requires b.fsStart % SECTOR == 0 && b.fsStart + size <= |idle.chip.cells|
    requires var begun := BeginSpec(b, idle, size, U_SPIFFS).0;
             var image := TakenAll(begun, feeds);
             && AllCareful(begun, feeds) && |image| == size
             && (begun.start + size < |idle.chip.cells| || AllPunctual(begun, feeds))
             && (idle.target == "" || idle.target == b.digest(image))
    ensures var begun := BeginSpec(b, idle, size, U_SPIFFS).0;
            var (t, ends) := EndSpec(b, FeedAll(begun, feeds), evenIfRemaining, stack);
            && ends && t.error == ERROR_OK && t.rtc == idle.rtc && b.fsStart + size <= |t.chip.cells|
            && t.chip.cells[b.fsStart..b.fsStart + size] == TakenAll(begun, feeds)
  {
    hide BeginSpec, EndSpec, FeedAll, TakenAll, AllCareful, AllPunctual, Staged, Inside, Accepted, Reliable, Drained;
    BeginFileSystem(b, idle, size);
    var begun := BeginSpec(b, idle, size, U_SPIFFS).0;
    FedWhole(begun, feeds);
    EndSucceeds(b, FeedAll(begun, feeds), evenIfRemaining, stack);
  }
}
