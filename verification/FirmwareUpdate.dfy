/** The whole path of a firmware image: begin, any writes, end, reboot. */
module FirmwareUpdate {
  import opened Numbers
  import opened Option
  import opened Crc
  import opened Flash
  import opened BootCommand
  import opened Bootloader
  import opened Updater
  import opened UpdateSafety

  // ---- begin ----

  /** Where the staging area lies if the size arithmetic does not wrap. */
  ghost predicate FitsBelowFileSystem(b: Board, size: u32) {
    RoundUp32(b.sketchSize) + RoundUp32(size) <= b.fsStart && 0 < size <= TWO_32 - SECTOR
  }

  /** The space check of `begin` subtracts in 32 bits. For images no larger than the space below the file
      system it accepts exactly those that leave the running sketch alone. */
  lemma BeginSpaceCheck(b: Board, s: Session, size: u32)
    requires s.size == 0 && b.configOk && b.fsStart % SECTOR == 0 && b.fsStart <= TWO_32 - SECTOR
    requires 0 < size <= b.fsStart
    ensures var (t, ok) := BeginSpec(b, s, size, U_FLASH);
            && (ok <==> FitsBelowFileSystem(b, size))
            && (ok ==> t.start + RoundUp32(size) == b.fsStart && RoundUp32(b.sketchSize) <= t.start)
  {
    assert RoundUp32(size) <= b.fsStart by {
      assert b.fsStart / SECTOR * SECTOR == b.fsStart;
      assert (size + SECTOR - 1) / SECTOR <= b.fsStart / SECTOR;
    }
  }

  /** Larger sizes wrap around. Beyond the whole space every request is accepted, whatever its size: the check says
      whether the image fits if and only if the size is at most that space. */
  lemma BeginExact(b: Board, s: Session, size: u32)
    requires s.size == 0 && b.configOk && b.fsStart % SECTOR == 0 && b.fsStart <= TWO_32 - SECTOR
    requires b.sketchSize <= b.fsStart && 0 < size
    ensures var ok := BeginSpec(b, s, size, U_FLASH).1;
            && ((ok <==> FitsBelowFileSystem(b, size)) <==> size <= b.fsStart)
            && (size > b.fsStart ==> ok && !FitsBelowFileSystem(b, size))
  {
    if size <= b.fsStart {
      BeginSpaceCheck(b, s, size);
    } else {
      RoundedSketch(b);
      if size <= TWO_32 - SECTOR {
        RoundedBeyond(size, b.fsStart);
      } else {
        assert RoundUp32(size) == 0;
      }
    }
  }

  lemma RoundedSketch(b: Board)
    requires b.sketchSize <= b.fsStart <= TWO_32 - SECTOR && b.fsStart % SECTOR == 0
    ensures RoundUp32(b.sketchSize) <= b.fsStart
  {
    assert b.fsStart / SECTOR * SECTOR == b.fsStart;
    assert (b.sketchSize + SECTOR - 1) / SECTOR <= b.fsStart / SECTOR;
  }

  lemma RoundedBeyond(size: u32, limit: u32)
    requires limit < size <= TWO_32 - SECTOR && limit % SECTOR == 0
    ensures limit + SECTOR <= RoundUp32(size)
  {
    assert limit / SECTOR * SECTOR == limit;
    assert (size + SECTOR - 1) / SECTOR >= limit / SECTOR + 1;
  }

  /** One byte more than the whole space is accepted, with a staging address just below 2^32. */
  lemma BeginAcceptsOversized(b: Board, s: Session)
    requires s.size == 0 && b.configOk && b.fsStart % SECTOR == 0 && b.fsStart <= 0x100_0000
    requires b.sketchSize <= 0x100_0000
    ensures var (t, ok) := BeginSpec(b, s, b.fsStart + 1, U_FLASH);
            ok && t.start == TWO_32 - SECTOR && !FitsBelowFileSystem(b, b.fsStart + 1)
  {
    assert (b.fsStart + SECTOR) / SECTOR * SECTOR == b.fsStart + SECTOR;
    assert RoundUp32(b.fsStart + 1) == b.fsStart + SECTOR;
  }

  // ---- end ----

  /** The image that `end` hands to the bootloader. */
  function ImageSize(s: Session, evenIfRemaining: bool): nat {
    if evenIfRemaining then |Accepted(s)| else s.size
  }

  lemma EndUnfolds(b: Board, s: Session, evenIfRemaining: bool, stack: seq<Word>)
    requires s.size > 0 && s.error == ERROR_OK && |stack| == ARG_COUNT - 3
    ensures var (t, ok) := EndSpec(b, s, evenIfRemaining, stack);
            var settled := Settle(s, evenIfRemaining);
            && (ok <==> (evenIfRemaining || Finished(s))
                        && (settled.target == "" || settled.target == b.digest(settled.hashed))
                        && VerifyEnd(b, settled).1)
            && (ok ==> t.error == settled.error && SameOutside(settled.chip, t.chip, 0, 0)
                       && t.chip.cells == settled.chip.cells
                       && (settled.command == U_FLASH ==>
                            t.rtc == CopyCommand(settled.start, settled.size, stack)))
  {
    hide CopyCommand, Settle, Finished;
  }

  /** When `end` succeeds and no error is flagged, the staging area holds the leading bytes of everything
      taken, and for a sketch the boot command names exactly them. */
  lemma EndStages(b: Board, s: Session, evenIfRemaining: bool, stack: seq<Word>)
    requires Staged(s) && |stack| == ARG_COUNT - 3
    requires var (t, ok) := EndSpec(b, s, evenIfRemaining, stack); ok && t.error == ERROR_OK
    ensures var (t, ok) := EndSpec(b, s, evenIfRemaining, stack);
            var n := ImageSize(s, evenIfRemaining);
            && n <= |Accepted(s)| && s.start + n <= |t.chip.cells|
            && n < TWO_32
            && t.chip.cells[s.start..s.start + n] == Accepted(s)[..n]
            && (s.command == U_FLASH ==>
                 t.rtc == CopyCommand(s.start, n, stack) && SketchHeader(b, t.chip.cells, s.start))
            && SameOutside(s.chip, t.chip, s.cur, s.cur + SECTOR)
            && (s.buffered == [] ==> SameOutside(s.chip, t.chip, 0, 0))
  {
    hide CopyCommand, EndSpec, VerifyEnd, SketchHeader, MagicFlashChipSize;
    EndNeedsNoError(b, s, evenIfRemaining, stack);
    EndUnfolds(b, s, evenIfRemaining, stack);
    SettleStages(s, evenIfRemaining);
    VerifyEndMeans(b, Settle(s, evenIfRemaining));
  }

  lemma SettleStages(s: Session, evenIfRemaining: bool)
    requires Staged(s) && (evenIfRemaining || Finished(s))
    ensures var u := Settle(s, evenIfRemaining);
            && u.start == s.start && u.command == s.command
            && SameOutside(s.chip, u.chip, s.cur, s.cur + SECTOR)
            && (s.buffered == [] || !evenIfRemaining ==> u.chip == s.chip)
            && (u.error == ERROR_OK ==>
                 var n := ImageSize(s, evenIfRemaining);
                 && n == u.size <= |Accepted(s)| && s.start + n <= |u.chip.cells|
                 && u.chip.cells[s.start..s.start + n] == Accepted(s)[..n])
  {
    hide Flush;
    RemainingInside(s);
    assert Accepted(s)[..|s.hashed|] == s.hashed;
    if evenIfRemaining && |s.buffered| > 0 {
      FlushKeeps(s);
      var (f, ok) := Flush(s);
      if ok {
        RemainingInside(f);
        assert f.hashed == Accepted(f) == Accepted(s)[..|Accepted(s)|];
      }
    }
  }

  /** `end(true)` ignores the result of its last flush: it reports success with an error flagged exactly when
      there was something to flush, flushing failed, and the checks that follow pass all the same. The boot
      command is then issued for the full declared size. Otherwise success means no error. */
  lemma EndIgnoresFailedFlush(b: Board, s: Session, evenIfRemaining: bool, stack: seq<Word>)
    requires Staged(s) && s.error == ERROR_OK && |stack| == ARG_COUNT - 3
    ensures var (t, ok) := EndSpec(b, s, evenIfRemaining, stack);
            var f := Flush(s).0.(size := s.size);
            && (ok && t.error != ERROR_OK <==>
                 && evenIfRemaining && |s.buffered| > 0 && !Flush(s).1
                 && (s.target == "" || s.target == b.digest(s.hashed))
                 && VerifyEnd(b, f).1)
            && (ok && t.error != ERROR_OK && s.command == U_FLASH ==>
                 t.error == ERROR_WRITE && t.rtc == CopyCommand(s.start, s.size, stack))
  {
    hide CopyCommand, Flush, Progress, Read;
    FlushOnFailure(s);
    var f := Flush(s).0;
    var settled := Settle(s, evenIfRemaining);
    if evenIfRemaining && |s.buffered| > 0 {
      if !Flush(s).1 {
        assert settled == f.(size := s.size);
      } else {
        assert settled.error == ERROR_OK;
      }
    } else {
      assert settled.error == ERROR_OK;
    }
    EndUnfolds(b, s, evenIfRemaining, stack);
  }

  lemma FlushOnFailure(s: Session)
    requires Staged(s) && s.error == ERROR_OK
    ensures var (f, ok) := Flush(s);
            && (ok <==> f.error == ERROR_OK) && f.size == s.size && f.start == s.start && f.command == s.command
            && f.target == s.target && f.rtc == s.rtc
            && (!ok ==> f.error == ERROR_WRITE && f.hashed == s.hashed && Progress(f) == s.size)
  {
    hide EraseSector, Program;
    RemainingInside(s);
  }

  // ---- any sequence of writes ----

  /** One call of either `write`: a chunk in memory, or a source read through the template. */
  datatype Feed = Chunk(data: seq<Byte>) | Source(pending: seq<Byte>, arrivals: seq<seq<Byte>>)

  /** The call flushes an empty buffer into a finished image. */
  predicate Late(s: Session, f: Feed) {
    Drained(s) && match f case Chunk(data) => data == [] case Source(pending, _) => pending != []
  }

  /** The template `write` is not used on a session that `write(buf, len)` has already overfilled. */
  ghost predicate Fair(s: Session, f: Feed) {
    f.Source? && s.error == ERROR_OK ==> Roomy(s) && Inside(s)
  }

  /** A late call finds the image's part of the last sector blank. */
  ghost predicate Careful(s: Session, f: Feed) {
    Fair(s, f) && (s.error == ERROR_OK && Late(s, f) ==> TailBlank(s))
  }

  /** A late call comes after an image that is no whole number of sectors, or finds the sector behind it blank and can
      erase it. */
  ghost predicate Sparing(s: Session, f: Feed) {
    Fair(s, f) && (s.error == ERROR_OK && Late(s, f) ==> NothingBehind(s))
  }

  ghost function FeedOne(s: Session, f: Feed): Session {
    match f
    case Chunk(data) => if |s.buffered| <= SECTOR then WriteSpec(s, data).0 else s
    case Source(pending, arrivals) =>
      if s.error == ERROR_OK && Roomy(s) then SourceSpec(s, pending, arrivals, 0).0 else s
  }

  /** The bytes a call takes: the whole chunk, or as much of the source as `write` reports. */
  ghost function Taken(s: Session, f: Feed): seq<Byte> {
    match f
    case Chunk(data) => data
    case Source(pending, arrivals) =>
      var offered := Offered(pending, arrivals);
      if Roomy(s) && SourceSpec(s, pending, arrivals, 0).1 <= |offered|
      then offered[..SourceSpec(s, pending, arrivals, 0).1] else []
  }

  ghost function FeedAll(s: Session, feeds: seq<Feed>): Session
    decreases |feeds|
  {
    if feeds == [] then s else FeedAll(FeedOne(s, feeds[0]), feeds[1..])
  }

  ghost predicate AllCareful(s: Session, feeds: seq<Feed>)
    decreases |feeds|
  {
    feeds == [] || (Careful(s, feeds[0]) && AllCareful(FeedOne(s, feeds[0]), feeds[1..]))
  }

  ghost predicate AllFair(s: Session, feeds: seq<Feed>)
    decreases |feeds|
  {
    feeds == [] || (Fair(s, feeds[0]) && AllFair(FeedOne(s, feeds[0]), feeds[1..]))
  }

  ghost predicate AllSparing(s: Session, feeds: seq<Feed>)
    decreases |feeds|
  {
    feeds == [] || (Sparing(s, feeds[0]) && AllSparing(FeedOne(s, feeds[0]), feeds[1..]))
  }

  ghost function TakenAll(s: Session, feeds: seq<Feed>): seq<Byte>
    decreases |feeds|
  {
    if feeds == [] then [] else Taken(s, feeds[0]) + TakenAll(FeedOne(s, feeds[0]), feeds[1..])
  }

  lemma LateIsFlush(s: Session, f: Feed)
    requires Done(s) && Late(s, f)
    ensures FeedOne(s, f) == Flush(s).0 && Taken(s, f) == []
  {
    hide WriteSpec, SourceSpec, Flush, Offered;
    DoneStands(s);
    match f {
      case Chunk(data) => EmptyWriteAfterFinish(s);
      case Source(pending, arrivals) => SourceAfterFinish(s, pending, arrivals, 0);
    }
  }

  /** Either `write` to a finished session, empty chunk or source with something available: it takes nothing, and unless
      it flags a write error, the image survives exactly when its part of the last sector was blank already, and
      everything outside the staging area survives exactly when the image is no whole number of sectors or the sector
      behind it was blank already. */
  lemma LateWrite(s: Session, f: Feed)
    requires Done(s) && Late(s, f)
    ensures var t := FeedOne(s, f);
            && SameJob(s, t) && Taken(s, f) == []
            && (t.error == ERROR_OK ==>
                 && Done(t) && t.hashed == s.hashed && s.start + s.size <= |t.chip.cells|
                 && (t.chip.cells[s.start..s.start + s.size] == s.chip.cells[s.start..s.start + s.size] <==>
                     TailBlank(s))
                 && (SameOutside(s.chip, t.chip, s.start, s.start + RoundUp32(s.size)) <==>
                     s.size % SECTOR != 0 || Blank(s.chip, NextSector(s), NextSector(s) + SECTOR)))
            && (t.error != ERROR_OK ==> t.error == ERROR_WRITE)
  {
    hide Flush, FeedOne, Taken, Late, RoundUp32, SameOutside, Blank, NextSector, TailBlank;
    LateIsFlush(s, f);
    LateFlush(s);
    if Flush(s).1 {
      LateFlushImage(s);
      LateFlushOutside(s);
    }
  }

  lemma FeedOneKeeps(s: Session, f: Feed)
    requires Staged(s) && s.error == ERROR_OK && Careful(s, f)
    ensures var t := FeedOne(s, f);
            && SameJob(s, t)
            && (t.error == ERROR_OK ==> Staged(t) && Accepted(t) == Accepted(s) + Taken(s, f))
  {
    hide WriteSpec, SourceSpec, RoundUp32, Offered, Flush, TailBlank;
    match f {
      case Chunk(data) =>
        WriteKeeps(s, data);
      case Source(pending, arrivals) =>
        if Late(s, f) {
          StagedDone(s);
          LateIsFlush(s, f);
          LateFlushKeeps(s);
          assert Accepted(s) + [] == Accepted(s);
        } else {
          SourceKeeps(s, pending, arrivals, 0);
        }
    }
  }

  /** An error is never cleared by writing, and a session in error does not touch flash. */
  lemma ErrorSticks(s: Session, f: Feed)
    requires s.error != ERROR_OK
    ensures FeedOne(s, f) == s
  {}

  lemma {:induction false} FeedAllKeeps(s: Session, feeds: seq<Feed>)
    requires Staged(s) && s.error == ERROR_OK && AllCareful(s, feeds)
    ensures var t := FeedAll(s, feeds);
            && SameJob(s, t)
            && (t.error == ERROR_OK ==> Staged(t) && Accepted(t) == Accepted(s) + TakenAll(s, feeds))
    decreases |feeds|
  {
    hide Staged, FeedOne, Taken, Careful, Accepted;
    if feeds == [] {
      assert Accepted(s) + [] == Accepted(s);
    } else {
      FeedOneKeeps(s, feeds[0]);
      var t := FeedOne(s, feeds[0]);
      if t.error == ERROR_OK {
        FeedAllKeeps(t, feeds[1..]);
        assert Accepted(s) + Taken(s, feeds[0]) + TakenAll(t, feeds[1..])
            == Accepted(s) + (Taken(s, feeds[0]) + TakenAll(t, feeds[1..]));
      } else {
        FeedAllError(t, feeds[1..]);
      }
    }
  }

  lemma {:induction false} FeedAllError(s: Session, feeds: seq<Feed>)
    requires s.error != ERROR_OK
    ensures FeedAll(s, feeds) == s
    decreases |feeds|
  {
    hide FeedOne;
    if feeds != [] {
      ErrorSticks(s, feeds[0]);
      FeedAllError(s, feeds[1..]);
    }
  }

  lemma StagedImage(s: Session)
    requires Staged(s) && Drained(s)
    ensures s.start + s.size <= |s.chip.cells| && s.chip.cells[s.start..s.start + s.size] == Accepted(s)
  {
    RemainingInside(s);
    assert s.hashed + [] == s.hashed;
  }

  /** From the finished session s to the finished session t the image was not changed. */
  ghost predicate ImageStays(s: Session, t: Session) {
    && Done(s) && Done(t) && SameJob(s, t) && t.hashed == s.hashed
    && |s.chip.cells| == |t.chip.cells|
    && forall i :: s.start <= i < s.start + s.size ==> t.chip.cells[i] == s.chip.cells[i]
  }

  lemma ImageStaysTwice(s: Session, t: Session, u: Session)
    requires ImageStays(s, t) && ImageStays(t, u)
    ensures ImageStays(s, u)
  {}

  /** One call on a finished session whose image has no byte, or only blank ones, in the last sector. */
  lemma BlankTailOne(s: Session, f: Feed)
    requires Done(s) && TailBlank(s)
    ensures var t := FeedOne(s, f);
            t.error == ERROR_OK ==>
              ImageStays(s, t) && Taken(s, f) == [] && TailBlank(t)
  {
    hide Flush, RoundUp32;
    DoneStands(s);
    if Late(s, f) {
      LateIsFlush(s, f);
      LateFlush(s);
      hide FeedOne, Taken;
      if Flush(s).1 {
        LateImage(s);
      }
    }
  }

  lemma LateImage(s: Session)
    requires Done(s) && Flush(s).1 && TailBlank(s)
    ensures ImageStays(s, Flush(s).0)
  {
    hide Flush;
    DoneStands(s);
    LateFlush(s);
  }

  /** From then on nothing changes it any more. */
  lemma {:induction false} BlankTailStays(s: Session, feeds: seq<Feed>)
    requires Done(s) && TailBlank(s) && FeedAll(s, feeds).error == ERROR_OK
    ensures ImageStays(s, FeedAll(s, feeds)) && TakenAll(s, feeds) == []
    decreases |feeds|
  {
    hide FeedOne, Taken, TailBlank, Drained;
    if feeds != [] {
      BlankTailOne(s, feeds[0]);
      var t := FeedOne(s, feeds[0]);
      if t.error == ERROR_OK {
        hide ImageStays;
        StaysDone(s, t);
        BlankTailStays(t, feeds[1..]);
        ImageStaysTwice(s, t, FeedAll(t, feeds[1..]));
      } else {
        FeedAllError(t, feeds[1..]);
      }
    }
  }

  lemma StaysDone(s: Session, t: Session)
    requires ImageStays(s, t)
    ensures Done(t)
  {}

  /** A late write that finds something else there spoils the image. */
  lemma LateSpoils(s: Session, f: Feed)
    requires Staged(s) && s.error == ERROR_OK && Fair(s, f) && !Careful(s, f) && FeedOne(s, f).error == ERROR_OK
    ensures var t := FeedOne(s, f);
            && Done(t) && SameJob(s, t) && t.hashed == Accepted(s) && |t.hashed| == t.size && Taken(s, f) == []
            && TailBlank(t) && s.start + s.size <= |t.chip.cells|
            && t.chip.cells[s.start..s.start + s.size] != Accepted(s)
  {
    hide FeedOne, Taken, RoundUp32, SameOutside, Flush;
    StagedDone(s);
    StagedImage(s);
    LateWrite(s, f);
    LateIsFlush(s, f);
    LateFlush(s);
    assert s.hashed + [] == s.hashed;
  }

  /** Every run that ends without an error has taken what it says, and the staging area holds it if and only if every
      late write found the image's part of the last sector blank. */
  lemma {:induction false} FeedAllExact(s: Session, feeds: seq<Feed>)
    requires Staged(s) && s.error == ERROR_OK && AllFair(s, feeds) && FeedAll(s, feeds).error == ERROR_OK
    ensures var t := FeedAll(s, feeds);
            && SameJob(s, t) && Accepted(t) == Accepted(s) + TakenAll(s, feeds)
            && (AllCareful(s, feeds) ==> Staged(t))
            && (!AllCareful(s, feeds) ==>
                 && Done(t) && |Accepted(t)| == t.size && t.start + t.size <= |t.chip.cells|
                 && t.chip.cells[t.start..t.start + t.size] != Accepted(t))
    decreases |feeds|
  {
    hide FeedOne, Taken, Careful, Fair, TailBlank, Staged, Done, ImageStays;
    if feeds == [] {
      assert Accepted(s) + [] == Accepted(s);
    } else {
      var f, t := feeds[0], FeedOne(s, feeds[0]);
      if t.error != ERROR_OK {
        FeedAllError(t, feeds[1..]);
      } else if Careful(s, f) {
        FeedOneKeeps(s, f);
        FeedAllExact(t, feeds[1..]);
        assert Accepted(s) + Taken(s, f) + TakenAll(t, feeds[1..])
            == Accepted(s) + (Taken(s, f) + TakenAll(t, feeds[1..]));
      } else {
        LateSpoils(s, f);
        BlankTailStays(t, feeds[1..]);
        SpoiledImage(t, FeedAll(t, feeds[1..]));
        assert Accepted(s) + [] == Accepted(s);
      }
    }
  }

  lemma SpoiledImage(t: Session, u: Session)
    requires ImageStays(t, u) && |t.hashed| == t.size && t.start + t.size <= |t.chip.cells|
    requires t.chip.cells[t.start..t.start + t.size] != t.hashed
    ensures Done(u) && SameJob(t, u) && Accepted(u) == t.hashed && |Accepted(u)| == u.size
    ensures u.start + u.size <= |u.chip.cells|
    ensures u.chip.cells[u.start..u.start + u.size] != Accepted(u)
  {
    assert u.hashed + [] == u.hashed;
    assert u.chip.cells[t.start..t.start + t.size] == t.chip.cells[t.start..t.start + t.size];
  }

  /** After an error, no matter what is written, `end` fails and no boot command is issued. */
  lemma NoCommandAfterError(b: Board, s: Session, feeds: seq<Feed>, evenIfRemaining: bool, stack: seq<Word>)
    requires s.error != ERROR_OK && |stack| == ARG_COUNT - 3
    ensures var (t, ok) := EndSpec(b, FeedAll(s, feeds), evenIfRemaining, stack);
            !ok && t.rtc == s.rtc && t.chip == s.chip
  {
    FeedAllError(s, feeds);
  }

  lemma SameOutsideTwice(c: Chip, d: Chip, e: Chip, lo: int, hi: int)
    requires SameOutside(c, d, lo, hi) && SameOutside(d, e, lo, hi)
    ensures SameOutside(c, e, lo, hi)
  {}

  lemma FeedOneStaysInside(s: Session, f: Feed)
    requires Staged(s) && s.error == ERROR_OK && Careful(s, f) && !Late(s, f)
    requires |Accepted(s)| + |Taken(s, f)| <= s.size
    ensures SameOutside(s.chip, FeedOne(s, f).chip, s.start, s.start + RoundUp32(s.size))
  {
    hide WriteSpec, SourceSpec, RoundUp32, Offered;
    match f {
      case Chunk(data) => WriteStaysInside(s, data);
      case Source(pending, arrivals) => SourceKeeps(s, pending, arrivals, 0);
    }
  }

  /** One call on a finished session, whatever its flash holds. */
  lemma DoneOneStaysInside(s: Session, f: Feed)
    requires Done(s) && Sparing(s, f)
    ensures var t := FeedOne(s, f);
            && SameJob(s, t) && (t.error == ERROR_OK ==> Done(t))
            && SameOutside(s.chip, t.chip, s.start, s.start + RoundUp32(s.size))
  {
    hide RoundUp32, SameOutside, NothingBehind, Flush;
    Unchanged(s.chip, s.start, s.start + RoundUp32(s.size));
    if Late(s, f) {
      LateIsFlush(s, f);
      hide FeedOne;
      LateFlush(s);
      LateFlushInside(s);
    } else {
      DoneStands(s);
    }
  }

  /** Whatever is written to a finished session. */
  lemma {:induction false} DoneStaysInside(s: Session, feeds: seq<Feed>)
    requires Done(s) && AllSparing(s, feeds)
    ensures var t := FeedAll(s, feeds);
            && SameJob(s, t) && (t.error == ERROR_OK ==> Done(t))
            && SameOutside(s.chip, t.chip, s.start, s.start + RoundUp32(s.size))
    decreases |feeds|
  {
    hide Done, FeedOne, Sparing, RoundUp32, SameOutside;
    var lo, hi := s.start, s.start + RoundUp32(s.size);
    if feeds == [] {
      Unchanged(s.chip, lo, hi);
    } else {
      DoneOneStaysInside(s, feeds[0]);
      var t := FeedOne(s, feeds[0]);
      if t.error == ERROR_OK {
        DoneStaysInside(t, feeds[1..]);
        SameOutsideTwice(s.chip, t.chip, FeedAll(t, feeds[1..]).chip, lo, hi);
      } else {
        FeedAllError(t, feeds[1..]);
      }
    }
  }

  /** What `end` may find after such a run: a session inside its staging area, or a finished one. */
  ghost predicate Contained(s: Session) {
    (Staged(s) && Inside(s)) || Done(s)
  }

  /** As long as no more than the declared size is written, no flash outside the staging area changes,
      whether or not an operation fails on the way: neither the running sketch nor the file system. */
  lemma {:induction false} FeedAllStaysInside(s: Session, feeds: seq<Feed>)
    requires Staged(s) && s.error == ERROR_OK && AllSparing(s, feeds)
    requires |Accepted(s)| + |TakenAll(s, feeds)| <= s.size
    ensures var t := FeedAll(s, feeds);
            && SameJob(s, t) && (t.error == ERROR_OK ==> Contained(t))
            && SameOutside(s.chip, t.chip, s.start, s.start + RoundUp32(s.size))
    decreases |feeds|
  {
    hide Staged, FeedOne, Taken, Sparing, Accepted, RoundUp32, SameOutside, Inside, Drained, Done;
    var lo, hi := s.start, s.start + RoundUp32(s.size);
    AcceptedInside(s);
    if feeds == [] {
      Unchanged(s.chip, lo, hi);
    } else if Drained(s) {
      StagedDone(s);
      DoneStaysInside(s, feeds);
    } else {
      SparingCareful(s, feeds[0]);
      FeedOneKeeps(s, feeds[0]);
      FeedOneStaysInside(s, feeds[0]);
      var t := FeedOne(s, feeds[0]);
      if t.error == ERROR_OK {
        FeedAllStaysInside(t, feeds[1..]);
        SameOutsideTwice(s.chip, t.chip, FeedAll(t, feeds[1..]).chip, lo, hi);
      } else {
        FeedAllError(t, feeds[1..]);
      }
    }
  }

  lemma SparingCareful(s: Session, f: Feed)
    requires Sparing(s, f) && !Drained(s)
    ensures Careful(s, f) && !Late(s, f)
  {}

  lemma AcceptedInside(s: Session)
    requires Staged(s)
    ensures |Accepted(s)| <= s.size <==> Inside(s)
  {}

  lemma Unchanged(c: Chip, lo: int, hi: int)
    ensures SameOutside(c, c, lo, hi)
  {}

  /** `end` changes no flash outside the staging area either, whatever it reports. */
  lemma EndStaysInside(b: Board, s: Session, evenIfRemaining: bool, stack: seq<Word>)
    requires Contained(s) && |stack| == ARG_COUNT - 3
    ensures SameOutside(s.chip, EndSpec(b, s, evenIfRemaining, stack).0.chip, s.start, s.start + RoundUp32(s.size))
  {
    hide CopyCommand, VerifyEnd, RoundUp32, MagicFlashChipSize;
    var u := Settle(s, evenIfRemaining);
    VerifyKeepsChip(b, u);
    SettleStaysInside(s, evenIfRemaining);
    hide Settle, SameOutside, Contained;
    Unchanged(s.chip, s.start, s.start + RoundUp32(s.size));
    EndChip(b, s, evenIfRemaining, stack);
    Outwards(u.chip, VerifyEnd(b, u).0.chip, s.start, s.start + RoundUp32(s.size));
    SameOutsideTwice(s.chip, u.chip, VerifyEnd(b, u).0.chip, s.start, s.start + RoundUp32(s.size));
  }

  lemma EndChip(b: Board, s: Session, evenIfRemaining: bool, stack: seq<Word>)
    requires |stack| == ARG_COUNT - 3
    ensures var u := Settle(s, evenIfRemaining);
            EndSpec(b, s, evenIfRemaining, stack).0.chip in {s.chip, u.chip, VerifyEnd(b, u).0.chip}
  {
    hide Settle, VerifyEnd, CopyCommand, Finished;
  }

  lemma SettleStaysInside(s: Session, evenIfRemaining: bool)
    requires Contained(s)
    ensures SameOutside(s.chip, Settle(s, evenIfRemaining).chip, s.start, s.start + RoundUp32(s.size))
  {
    hide Flush, RoundUp32;
    if s.buffered != [] {
      FlushKeeps(s);
      SectorFits(s.cur - s.start, s.size);
    }
  }

  lemma Outwards(c: Chip, d: Chip, lo: int, hi: int)
    requires SameOutside(c, d, 0, 0)
    ensures SameOutside(c, d, lo, hi)
  {}

  lemma VerifyKeepsChip(b: Board, s: Session)
    ensures SameOutside(s.chip, VerifyEnd(b, s).0.chip, 0, 0)
  {}

  /** Begin, any writes of at most the declared size, end: no erase and no write, failing or not, reaches the running
      sketch or the file system. A late write must be `Sparing`, as `LateWrite` shows, but it may spoil the image. */
  lemma OnlyFreeFlash(b: Board, idle: Session, size: u32, feeds: seq<Feed>, evenIfRemaining: bool, stack: seq<Word>)
    requires |idle.chip.cells| % SECTOR == 0 && |idle.chip.cells| + SECTOR < TWO_32 && |stack| == ARG_COUNT - 3
    requires b.fsStart % SECTOR == 0 && size <= b.fsStart <= |idle.chip.cells|
    requires 0 < b.sketchSize <= b.fsStart
    requires BeginSpec(b, idle, size, U_FLASH).1
    requires AllSparing(BeginSpec(b, idle, size, U_FLASH).0, feeds)
    requires |TakenAll(BeginSpec(b, idle, size, U_FLASH).0, feeds)| <= size
    ensures var fed := FeedAll(BeginSpec(b, idle, size, U_FLASH).0, feeds);
            var t := EndSpec(b, fed, evenIfRemaining, stack).0;
            && SameOutside(idle.chip, fed.chip, RoundUp32(b.sketchSize), b.fsStart)
            && SameOutside(idle.chip, t.chip, RoundUp32(b.sketchSize), b.fsStart)
  {
    hide BeginSpec, EndSpec, FeedAll, TakenAll, AllSparing, RoundUp32, SameOutside, Contained;
    var begun := BeginSpec(b, idle, size, U_FLASH).0;
    BeginStages(b, idle, size);
    FeedAllStaysInside(begun, feeds);
    var fed := FeedAll(begun, feeds);
    var t := EndSpec(b, fed, evenIfRemaining, stack).0;
    if fed.error == ERROR_OK {
      EndStaysInside(b, fed, evenIfRemaining, stack);
    } else {
      EndAfterError(b, fed, evenIfRemaining, stack);
      Unchanged(fed.chip, begun.start, b.fsStart);
    }
    SameOutsideTwice(begun.chip, fed.chip, t.chip, begun.start, b.fsStart);
    Wider(begun.chip, fed.chip, begun.start, RoundUp32(b.sketchSize), b.fsStart);
    Wider(begun.chip, t.chip, begun.start, RoundUp32(b.sketchSize), b.fsStart);
  }

  lemma EndAfterError(b: Board, s: Session, evenIfRemaining: bool, stack: seq<Word>)
    requires s.error != ERROR_OK && |stack| == ARG_COUNT - 3
    ensures EndSpec(b, s, evenIfRemaining, stack).0.chip == s.chip
  {}

  lemma Wider(c: Chip, d: Chip, lo: int, below: int, hi: int)
    requires below <= lo && SameOutside(c, d, lo, hi)
    ensures SameOutside(c, d, below, hi)
  {}

  // ---- Failures, from a fresh updater ----

  function FreshSession(chip: Chip, rtc: Record): Session {
    Session(ERROR_OK, [], 0, 0, 0, U_FLASH, "", [], chip, rtc)
  }

  /** Ten bytes declared, six written and six more: all twelve are taken and no error is flagged. */
  lemma TwelveOfTen(b: Board, chip: Chip, rtc: Record, first: seq<Byte>, second: seq<Byte>)
    requires |first| == |second| == 6 && b.configOk && b.fsStart % SECTOR == 0 && b.fsStart <= TWO_32 - SECTOR
    requires FitsBelowFileSystem(b, 10)
    ensures var (begun, ok) := BeginSpec(b, FreshSession(chip, rtc), 10, U_FLASH);
            var t := FeedAll(begun, [Chunk(first), Chunk(second)]);
            ok && t.error == ERROR_OK && t.size == 10 && Accepted(t) == first + second
  {
    var idle := FreshSession(chip, rtc);
    BeginSpaceCheck(b, idle, 10);
    hide RoundUp32, FeedAll;
    var begun := BeginSpec(b, idle, 10, U_FLASH).0;
    var one := begun.(buffered := first);
    assert begun.buffered + first == first;
    assert Remaining(begun) == 10 && Remaining(one) == 10;
    SmallWrite(begun, first);
    SmallWrite(one, second);
    hide WriteSpec;
    FeedTwo(begun, Chunk(first), Chunk(second));
    assert FeedOne(begun, Chunk(first)) == one;
    assert FeedOne(one, Chunk(second)) == one.(buffered := first + second);
    assert begun.hashed + (first + second) == first + second;
  }

  lemma FeedTwo(s: Session, f: Feed, g: Feed)
    ensures FeedAll(s, [f]) == FeedOne(s, f) && FeedAll(s, [f, g]) == FeedOne(FeedOne(s, f), g)
  {
    hide FeedOne;
    FeedNext(s, f, []);
    FeedNext(s, f, [g]);
    FeedNext(FeedOne(s, f), g, []);
    assert [f] + [g] == [f, g] && [f] + [] == [f] && [g] + [] == [g];
  }

  lemma FeedNext(s: Session, f: Feed, rest: seq<Feed>)
    ensures FeedAll(s, [f] + rest) == FeedAll(FeedOne(s, f), rest)
  {
    assert ([f] + rest)[1..] == rest;
  }

  /** A chunk that neither overflows the buffer nor meets the remaining size is only buffered. */
  lemma SmallWrite(s: Session, data: seq<Byte>)
    requires s.error == ERROR_OK && s.size > 0 && |data| <= Remaining(s)
    requires |s.buffered| + |data| <= SECTOR && |s.buffered| + |data| != Remaining(s)
    ensures WriteSpec(s, data) == (s.(buffered := s.buffered + data), |data|)
  {}

  /** A chip whose next operation fails and leaves something like the header of a sketch. */
  function FaultyChip(cells: seq<Byte>, start: nat): Chip {
    Chip(cells, 0, t => t == 0, (t, i) => if i == start then 0xe9 else 0x00)
  }

  /** Ten bytes declared, six written, and the last flush fails: `end(true)` reports success, with the error flagged and
      the boot command issued for all ten. */
  lemma SuccessWithError(b: Board, cells: seq<Byte>, rtc: Record, data: seq<Byte>, stack: seq<Word>)
    requires |data| == 6 && |stack| == ARG_COUNT - 3 && b.configOk && b.realSize >= 0x80000
    requires b.fsStart % SECTOR == 0 && b.fsStart <= |cells| && |cells| + SECTOR < TWO_32 && |cells| % SECTOR == 0
    requires 0 < b.sketchSize <= b.fsStart && FitsBelowFileSystem(b, 10)
    ensures var start := b.fsStart - SECTOR;
            var (begun, began) := BeginSpec(b, FreshSession(FaultyChip(cells, start), rtc), 10, U_FLASH);
            var (t, ok) := EndSpec(b, FeedAll(begun, [Chunk(data)]), true, stack);
            began && ok && t.error == ERROR_WRITE && t.rtc == CopyCommand(start, 10, stack)
  {
    hide Flush, EndSpec, CopyCommand, VerifyEnd, BeginSpec, FeedAll, WriteSpec, RoundUp32, FaultyChip, Staged;
    hide FitsBelowFileSystem, Remaining;
    var start := b.fsStart - SECTOR;
    var idle := FreshSession(FaultyChip(cells, start), rtc);
    FaultyCells(cells, start);
    BeginTen(b, idle);
    var begun := BeginSpec(b, idle, 10, U_FLASH).0;
    assert begun.buffered + data == data;
    SmallWrite(begun, data);
    FeedTwo(begun, Chunk(data), Chunk(data));
    BufferedStages(begun, data);
    FaultyEnd(b, begun.(buffered := data), cells, stack);
  }

  lemma FaultyCells(cells: seq<Byte>, start: nat)
    ensures FaultyChip(cells, start).cells == cells
  {}

  lemma BufferedStages(s: Session, data: seq<Byte>)
    requires Staged(s) && s.buffered == [] && s.cur == s.start && |data| < s.size && |data| <= SECTOR
    ensures Staged(s.(buffered := data))
  {}

  lemma BeginTen(b: Board, idle: Session)
    requires |idle.chip.cells| % SECTOR == 0 && |idle.chip.cells| + SECTOR < TWO_32
    requires idle.size == 0 && idle.target == ""
    requires b.configOk && b.fsStart % SECTOR == 0 && b.fsStart <= |idle.chip.cells|
    requires 0 < b.sketchSize <= b.fsStart && FitsBelowFileSystem(b, 10)
    ensures var (begun, ok) := BeginSpec(b, idle, 10, U_FLASH);
            && ok && Staged(begun) && begun.error == ERROR_OK && begun.buffered == [] && begun.target == ""
            && begun.size == 10 && begun.command == U_FLASH && Remaining(begun) == 10
            && begun.start == begun.cur == b.fsStart - SECTOR && begun.chip == idle.chip && begun.rtc == idle.rtc
  {
    TenBytes();
    RoundsUp(b.sketchSize);
    BeginSpaceCheck(b, idle, 10);
    BeginStages(b, idle, 10);
  }

  lemma FaultyEnd(b: Board, s: Session, cells: seq<Byte>, stack: seq<Word>)
    requires Staged(s) && s.error == ERROR_OK && s.buffered != [] && s.target == "" && s.command == U_FLASH
    requires s.chip == FaultyChip(cells, s.start) && s.cur == s.start && s.start + SECTOR <= |cells|
    requires b.realSize >= 0x80000 && |stack| == ARG_COUNT - 3
    ensures var (t, ok) := EndSpec(b, s, true, stack);
            ok && t.error == ERROR_WRITE && t.rtc == CopyCommand(s.start, s.size, stack)
  {
    FaultyFlush(s, cells);
    hide Flush, EndSpec, CopyCommand, VerifyEnd;
    VerifyEndMeans(b, Flush(s).0.(size := s.size));
    EndIgnoresFailedFlush(b, s, true, stack);
  }

  lemma TenBytes()
    ensures RoundUp32(10) == SECTOR
  {}

  lemma RoundsUp(n: u32)
    requires 0 < n <= TWO_32 - SECTOR
    ensures SECTOR <= RoundUp32(n)
  {}

  lemma FaultyFlush(s: Session, cells: seq<Byte>)
    requires s.chip == FaultyChip(cells, s.start) && s.cur == s.start
    requires s.start % SECTOR == 0 && s.start + SECTOR <= |cells|
    ensures var (f, ok) := Flush(s);
            !ok && f.start == s.start && f.command == s.command && !f.chip.fails(f.chip.tick) &&
            |f.chip.cells| == |cells| && f.chip.cells[s.start] == 0xe9 && f.chip.cells[s.start + 3] == 0x00
  {
    assert s.cur / SECTOR * SECTOR == s.start;
  }

  // ---- reboot ----

  lemma CopyCommandRead(start: u32, size: u32, stack: seq<Word>)
    requires |stack| == ARG_COUNT - 3
    ensures var r := CopyCommand(start, size, stack);
            && BootAccepts(r) && !CoreAccepts(Cleared(r))
            && r[1] == ACTION_COPY_RAW && ToNat(r[2]) == start && ToNat(r[3]) == 0 && ToNat(r[4]) == size
  {
    hide FromNat, ToNat, Seal, BootAccepts, CoreAccepts;
    var args := [FromNat(start), FromNat(0), FromNat(size)] + stack;
    var r := CopyCommand(start, size, stack);
    SealRoundTrip(ACTION_COPY_RAW, args);
    assert r[2] == r[2..CRC_INDEX][0] && r[3] == r[2..CRC_INDEX][1] && r[4] == r[2..CRC_INDEX][2];
    WordRoundTrip(start);
    WordRoundTrip(0);
    WordRoundTrip(size);
    ClearedRecord(r);
  }

  /** Booting a staged image copies it to address 0, starts it and leaves the command cleared. */
  lemma BootInstalls(chip: Chip, start: u32, size: u32, stack: seq<Word>)
    requires |stack| == ARG_COUNT - 3 && start % SECTOR == 0 && 0 < start
    requires size <= TWO_32 - SECTOR && start + size <= |chip.cells|
    requires Boot(chip, CopyCommand(start, size, stack)).res == 0
    ensures var o := Boot(chip, CopyCommand(start, size, stack));
            && |o.chip.cells| == |chip.cells|
            && o.chip.cells[..size] == chip.cells[start..start + size]
            && o.loadsFrom == Some(0) && !CoreAccepts(o.rtc)
            && SameOutside(chip, o.chip, 0, RoundUp32(size))
  {
    hide CopyCommand, CopyLoop, RoundUp32, BootAccepts, CoreAccepts, Cleared, ToNat;
    CopyCommandRead(start, size, stack);
    var r := CopyCommand(start, size, stack);
    var left := RoundUp32(size);
    SizeCovered(size);
    var powered := chip.(tick := chip.tick + 1);
    EvenSector(start);
    CopyLoopCorrect(powered, start, 0, left);
    var o := Boot(chip, r);
    assert o.chip == CopyLoop(powered, start, 0, left).0;
    if left > 0 {
      FrontOfCopy(o.chip.cells, chip.cells, start, left, size);
    }
  }

  lemma FrontOfCopy(d: seq<Byte>, c: seq<Byte>, start: nat, left: nat, size: nat)
    requires size <= left <= |d| && start + left <= |c| && d[0..left] == c[start..start + left]
    ensures d[..size] == c[start..start + size]
  {
    forall k | 0 <= k < size ensures d[k] == c[start + k] {
      assert d[k] == d[0..left][k];
      assert c[start + k] == c[start..start + left][k];
    }
  }

  lemma EvenSector(start: nat)
    requires start % SECTOR == 0
    ensures start % 2 == 0
  {}

  /** Begin, any writes, end, reboot: whenever `begin` and `end` report success, no error is flagged and the
      bootloader's copy succeeds, the application at address 0 is started, and flash from there on holds the leading
      bytes of everything written if and only if every late write found the image's part of the last sector blank.
      They then start with the header of a sketch. */
  lemma EndToEnd(b: Board, idle: Session, size: u32, feeds: seq<Feed>, evenIfRemaining: bool, stack: seq<Word>)
    requires |idle.chip.cells| % SECTOR == 0 && |idle.chip.cells| + SECTOR < TWO_32 && |stack| == ARG_COUNT - 3
    requires b.fsStart % SECTOR == 0 && size <= b.fsStart <= |idle.chip.cells|
    requires 0 < b.sketchSize <= b.fsStart
    requires BeginSpec(b, idle, size, U_FLASH).1
    requires AllFair(BeginSpec(b, idle, size, U_FLASH).0, feeds)
    requires var fed := FeedAll(BeginSpec(b, idle, size, U_FLASH).0, feeds);
             var (t, ok) := EndSpec(b, fed, evenIfRemaining, stack);
             ok && t.error == ERROR_OK && Boot(t.chip, t.rtc).res == 0
    ensures var begun := BeginSpec(b, idle, size, U_FLASH).0;
            var image := TakenAll(begun, feeds);
            var t := EndSpec(b, FeedAll(begun, feeds), evenIfRemaining, stack).0;
            var o := Boot(t.chip, t.rtc);
            var n := if evenIfRemaining then |image| else size;
            && n <= |image| && o.loadsFrom == Some(0) && n <= |o.chip.cells|
            && (o.chip.cells[..n] == image[..n] <==> AllCareful(begun, feeds))
            && (AllCareful(begun, feeds) && n >= 4 ==> SketchHeader(b, image, 0))
  {
    hide BeginSpec, EndSpec, Boot, FeedAll, TakenAll, AllCareful, AllFair, RoundUp32, SketchHeader, Staged, Inside;
    hide Accepted, Done;
    var begun := BeginSpec(b, idle, size, U_FLASH).0;
    BeginStages(b, idle, size);
    var fed := FeedAll(begun, feeds);
    EndNeedsNoError(b, fed, evenIfRemaining, stack);
    FeedAllExact(begun, feeds);
    assert [] + TakenAll(begun, feeds) == TakenAll(begun, feeds);
    if AllCareful(begun, feeds) {
      EndAndBoot(b, fed, evenIfRemaining, stack);
    } else {
      SpoiledBoot(b, fed, evenIfRemaining, stack);
    }
  }

  /** The other case: the bootloader installs what a late write has left of the image. */
  lemma SpoiledBoot(b: Board, s: Session, evenIfRemaining: bool, stack: seq<Word>)
    requires Done(s) && s.command == U_FLASH && 0 < s.start && |stack| == ARG_COUNT - 3
    requires |Accepted(s)| == s.size && s.start + s.size <= |s.chip.cells|
    requires s.chip.cells[s.start..s.start + s.size] != Accepted(s)
    requires var (t, ok) := EndSpec(b, s, evenIfRemaining, stack);
             ok && Boot(t.chip, t.rtc).res == 0
    ensures var t := EndSpec(b, s, evenIfRemaining, stack).0;
            var o := Boot(t.chip, t.rtc);
            && o.loadsFrom == Some(0) && s.size <= |o.chip.cells|
            && o.chip.cells[..s.size] != Accepted(s)[..s.size]
  {
    hide EndSpec, Boot, CopyCommand, RoundUp32, SameOutside;
    DoneEnds(b, s, evenIfRemaining, stack);
    var t := EndSpec(b, s, evenIfRemaining, stack).0;
    BootInstalls(t.chip, s.start, s.size, stack);
    assert Accepted(s)[..s.size] == Accepted(s);
  }

  /** The last part of the way: `end` and reboot of any session in the invariant. */
  lemma EndAndBoot(b: Board, s: Session, evenIfRemaining: bool, stack: seq<Word>)
    requires Staged(s) && s.command == U_FLASH && 0 < s.start && |stack| == ARG_COUNT - 3
    requires var (t, ok) := EndSpec(b, s, evenIfRemaining, stack);
             ok && t.error == ERROR_OK && Boot(t.chip, t.rtc).res == 0
    ensures var t := EndSpec(b, s, evenIfRemaining, stack).0;
            var o := Boot(t.chip, t.rtc);
            var n := ImageSize(s, evenIfRemaining);
            && n <= |Accepted(s)| && o.loadsFrom == Some(0)
            && n <= |o.chip.cells| && o.chip.cells[..n] == Accepted(s)[..n]
            && (n >= 4 ==> SketchHeader(b, Accepted(s), 0))
  {
    hide EndSpec, Boot, CopyCommand, RoundUp32, SketchHeader, SameOutside;
    EndStages(b, s, evenIfRemaining, stack);
    var t := EndSpec(b, s, evenIfRemaining, stack).0;
    var n := ImageSize(s, evenIfRemaining);
    BootInstalls(t.chip, s.start, n, stack);
    if n >= 4 {
      HeaderMoves(b, t.chip.cells, s.start, Accepted(s), n);
    }
  }

  /** `end` of a finished session hands over what its staging area holds. */
  lemma DoneEnds(b: Board, s: Session, evenIfRemaining: bool, stack: seq<Word>)
    requires Done(s) && |stack| == ARG_COUNT - 3
    requires EndSpec(b, s, evenIfRemaining, stack).1
    ensures var t := EndSpec(b, s, evenIfRemaining, stack).0;
            && t.chip.cells == s.chip.cells
            && (s.command == U_FLASH ==> t.rtc == CopyCommand(s.start, s.size, stack))
  {
    hide CopyCommand, VerifyEnd, EndSpec;
    DoneStands(s);
    assert Settle(s, evenIfRemaining) == s;
    EndUnfolds(b, s, evenIfRemaining, stack);
    VerifyEndMeans(b, s);
  }

  lemma HeaderMoves(b: Board, cells: seq<Byte>, at: nat, image: seq<Byte>, n: nat)
    requires 4 <= n <= |image| && at + n <= |cells| && cells[at..at + n] == image[..n] && SketchHeader(b, cells, at)
    ensures SketchHeader(b, image, 0)
  {
    assert image[0] == image[..n][0] == cells[at] && image[3] == image[..n][3] == cells[at + 3];
  }

  lemma EndNeedsNoError(b: Board, s: Session, evenIfRemaining: bool, stack: seq<Word>)
    requires |stack| == ARG_COUNT - 3 && EndSpec(b, s, evenIfRemaining, stack).1
    ensures s.error == ERROR_OK && s.size > 0
  {}

  /** A successful `begin` starts the session in the invariant, with the staging area clear of the sketch. */
  lemma BeginStages(b: Board, idle: Session, size: u32)
    requires |idle.chip.cells| % SECTOR == 0 && |idle.chip.cells| + SECTOR < TWO_32
    requires b.fsStart % SECTOR == 0 && size <= b.fsStart <= |idle.chip.cells|
    requires 0 < b.sketchSize <= b.fsStart
    requires BeginSpec(b, idle, size, U_FLASH).1
    ensures var t := BeginSpec(b, idle, size, U_FLASH).0;
            && Staged(t) && Inside(t) && t.error == ERROR_OK && Accepted(t) == []
            && t.size == size && t.command == U_FLASH && 0 < t.start
            && RoundUp32(b.sketchSize) <= t.start && t.start + RoundUp32(size) == b.fsStart
            && t.chip == idle.chip && t.rtc == idle.rtc
  {
    BeginSpaceCheck(b, idle, size);
    SizeCovered(size);
    SizeCovered(b.sketchSize);
  }
}
