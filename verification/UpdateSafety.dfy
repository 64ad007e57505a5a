/** What every update session keeps. */
module UpdateSafety {
  import opened Numbers
  import opened Crc
  import opened Flash
  import opened BootCommand
  import opened Bootloader
  import opened Updater

  /** Everything taken so far: flushed (and hashed) bytes followed by buffered ones. */
  function Accepted(s: Session): seq<Byte> {
    s.hashed + s.buffered
  }

  /** Flash from the staging address holds exactly the bytes given to MD5. */
  ghost predicate Synced(s: Session) {
    var cells := s.chip.cells;
    && |cells| % SECTOR == 0 && |cells| + SECTOR < TWO_32
    && 0 < s.size && s.start % SECTOR == 0 && s.start + s.size <= |cells|
    && s.cur == s.start + |s.hashed| <= |cells|
    && cells[s.start..s.cur] == s.hashed
    && |s.buffered| <= SECTOR
  }

  /** Invariant of a running session without error. The write address stays sector aligned until the
      flush that completes the image; a completed image leaves nothing in the buffer. */
  ghost predicate Staged(s: Session) {
    && Synced(s)
    && (s.cur % SECTOR == 0 || (s.cur == s.start + s.size && s.buffered == []))
    && (s.cur + |s.buffered| == s.start + s.size ==> s.buffered == [])
  }

  ghost predicate SameJob(s: Session, t: Session) {
    s.start == t.start && s.size == t.size && s.command == t.command && s.target == t.target && s.rtc == t.rtc
  }

  lemma FlushKeeps(s: Session)
    requires Synced(s) && s.cur % SECTOR == 0
    ensures var (t, ok) := Flush(s);
            && SameJob(s, t)
            && SameOutside(s.chip, t.chip, s.cur, s.cur + SECTOR)
            && (ok ==> Synced(t) && t.error == s.error && t.buffered == [] && Accepted(t) == Accepted(s)
                       && t.cur == s.cur + |s.buffered| && s.cur + SECTOR <= |s.chip.cells|)
            && (!ok ==> t.error == ERROR_WRITE)
  {
    SyncedBounds(s);
    hide SameOutside, Synced;
    FlushCells(s.chip, s.cur, s.buffered);
    hide EraseSector, Program, Accepted;
    var (t, ok) := Flush(s);
    if ok {
      FlushSynced(s, t);
    }
  }

  lemma SyncedBounds(s: Session)
    requires Synced(s)
    ensures s.cur <= |s.chip.cells| && |s.buffered| <= SECTOR && |s.chip.cells| + SECTOR < TWO_32
  {}

  lemma FlushSynced(s: Session, t: Session)
    requires Synced(s) && SameJob(s, t) && s.cur + SECTOR <= |s.chip.cells|
    requires SameOutside(s.chip, t.chip, s.cur, s.cur + SECTOR)
    requires s.cur + |s.buffered| <= |t.chip.cells| && t.chip.cells[s.cur..s.cur + |s.buffered|] == s.buffered
    requires t.hashed == s.hashed + s.buffered && t.buffered == [] && t.cur == s.cur + |s.buffered|
    ensures Synced(t) && Accepted(t) == Accepted(s)
  {
    SizeKept(s.chip, t.chip, s.cur);
    CellsExtend(s.chip, t.chip, s.start, s.cur, |s.buffered|);
    hide SameOutside;
  }

  lemma SizeKept(c: Chip, d: Chip, cur: nat)
    requires SameOutside(c, d, cur, cur + SECTOR)
    ensures |c.cells| == |d.cells|
  {}

  /** What erasing a sector and programming its front does to the chip, step by step. */
  lemma FlushCells(c: Chip, cur: nat, data: seq<Byte>)
    requires cur % SECTOR == 0 && |data| <= SECTOR
    ensures var (erased, erasedOk) := EraseSector(c, cur / SECTOR);
            var (d, ok) := Program(erased, cur, data);
            && SameOutside(c, erased, cur, cur + SECTOR) && SameOutside(c, d, cur, cur + SECTOR)
            && (erasedOk && ok ==> cur + SECTOR <= |c.cells| == |d.cells| && d.cells[cur..cur + |data|] == data)
  {
    hide EraseSector, Program;
    assert cur / SECTOR * SECTOR == cur;
    var (erased, erasedOk) := EraseSector(c, cur / SECTOR);
    if erasedOk && Program(erased, cur, data).1 {
      EraseThenProgram(c, cur, data);
    }
  }

  lemma CellsExtend(c: Chip, d: Chip, start: nat, cur: nat, n: nat)
    requires SameOutside(c, d, cur, cur + SECTOR) && start <= cur && cur + n <= |c.cells|
    ensures d.cells[start..cur + n] == c.cells[start..cur] + d.cells[cur..cur + n]
  {
    assert d.cells[start..cur] == c.cells[start..cur];
    assert d.cells[start..cur + n] == d.cells[start..cur] + d.cells[cur..cur + n];
  }

  lemma {:induction false} FillKeeps(s: Session, data: seq<Byte>)
    requires Synced(s) && s.cur % SECTOR == 0
    ensures match FillSectors(s, data)
            case Stopped(t, left) =>
              SameJob(s, t) && t.error == ERROR_WRITE && 0 < left <= |data|
              && SameOutside(s.chip, t.chip, s.cur, s.cur + |s.buffered| + |data|)
            case Going(t, rest) =>
              SameJob(s, t) && Synced(t) && t.cur % SECTOR == 0 && t.error == s.error
              && |t.buffered| + |rest| <= SECTOR && |rest| <= |data| && (data != [] ==> rest != [])
              && Accepted(t) + rest == Accepted(s) + data
              && SameOutside(s.chip, t.chip, s.cur, s.cur + |s.buffered| + |data|)
    decreases |s.buffered| + |data|
  {
    hide Flush;
    if |s.buffered| + |data| > SECTOR {
      var toBuff := SECTOR - |s.buffered|;
      var full := s.(buffered := s.buffered + data[..toBuff]);
      FlushKeeps(full);
      var (t, ok) := Flush(full);
      if ok {
        FillKeeps(t, data[toBuff..]);
        DataSplits(s.hashed, s.buffered, data, toBuff);
      }
    }
  }

  lemma DataSplits(hashed: seq<Byte>, buffered: seq<Byte>, data: seq<Byte>, n: nat)
    requires n <= |data|
    ensures hashed + buffered + data == hashed + (buffered + data[..n]) + data[n..]
  {
    assert data == data[..n] + data[n..];
  }

  lemma RemainingInside(s: Session)
    requires Synced(s)
    ensures s.cur <= s.start + s.size ==> Remaining(s) == s.start + s.size - s.cur
    ensures s.cur > s.start + s.size ==> Remaining(s) > SECTOR
    ensures Finish(s) == s.start + s.size && Progress(s) == s.cur - s.start
  {}

  lemma SectorFits(from: nat, size: nat)
    requires from % SECTOR == 0 && from < size <= TWO_32 - SECTOR
    ensures from + SECTOR <= RoundUp32(size)
  {
    assert from / SECTOR * SECTOR == from;
    assert (size + SECTOR - 1) / SECTOR >= from / SECTOR + 1;
  }

  /** The image is complete and nothing is left in the buffer. */
  predicate Drained(s: Session) {
    Finished(s) && s.buffered == []
  }

  /** The tail of `write`: buffer the rest and flush if that completes the image. */
  function Tail(t: Session, rest: seq<Byte>): (Session, bool) {
    var u := t.(buffered := t.buffered + rest);
    if |u.buffered| == Remaining(u) then Flush(u) else (u, true)
  }

  lemma TailKeeps(t: Session, rest: seq<Byte>)
    requires Synced(t) && |t.buffered| + |rest| <= SECTOR && t.error == ERROR_OK
    requires t.cur % SECTOR == 0 || (t.cur == t.start + t.size && t.buffered == [] && rest == [])
    requires t.buffered == [] && rest == [] ==> t.cur != t.start + t.size
    ensures var (v, ok) := Tail(t, rest);
            && SameJob(t, v)
            && (ok ==> Staged(v) && v.error == ERROR_OK && Accepted(v) == Accepted(t) + rest)
            && (!ok ==> v.error == ERROR_WRITE)
  {
    hide Flush, Accepted;
    var u := t.(buffered := t.buffered + rest);
    AcceptedGrows(t, rest);
    RemainingInside(u);
    if |u.buffered| == Remaining(u) {
      FlushKeeps(u);
    }
  }

  lemma Itself(c: Chip, lo: int, hi: int)
    ensures SameOutside(c, c, lo, hi)
  {}

  lemma TailStaysInside(t: Session, rest: seq<Byte>)
    requires Synced(t) && |t.buffered| + |rest| <= SECTOR && t.cur % SECTOR == 0
    requires t.buffered == [] && rest == [] ==> t.cur != t.start + t.size
    requires t.cur + |t.buffered| + |rest| <= t.start + t.size
    ensures SameOutside(t.chip, Tail(t, rest).0.chip, t.start, t.start + RoundUp32(t.size))
  {
    hide Flush, RoundUp32, SameOutside;
    var u := t.(buffered := t.buffered + rest);
    RemainingInside(u);
    if |u.buffered| == Remaining(u) {
      FlushKeeps(u);
      SectorFits(u.cur - u.start, u.size);
      Outward(u.chip, Flush(u).0.chip, u.cur, u.cur + SECTOR, u.start, u.start + RoundUp32(u.size));
    } else {
      Itself(t.chip, t.start, t.start + RoundUp32(t.size));
    }
  }

  lemma WriteUnfolds(s: Session, data: seq<Byte>)
    requires |s.buffered| <= SECTOR && s.error == ERROR_OK && s.size > 0 && |data| <= Remaining(s)
    ensures match FillSectors(s, data)
            case Stopped(t, left) =>
              WriteSpec(s, data) == (t, if left <= |data| then |data| - left else 0)
            case Going(t, rest) =>
              var (v, ok) := Tail(t, rest);
              WriteSpec(s, data) == (v, if ok then |data| else if |rest| <= |data| then |data| - |rest| else 0)
  {
    hide Flush, FillSectors, Remaining;
  }

  lemma SizeCovered(size: nat)
    requires size <= TWO_32 - SECTOR
    ensures size <= RoundUp32(size)
  {}

  // ---- Writing to a finished session ----

  /** A finished session without error, whatever its flash holds. */
  ghost predicate Done(s: Session) {
    && |s.chip.cells| % SECTOR == 0 && |s.chip.cells| + SECTOR < TWO_32
    && 0 < s.size && s.start % SECTOR == 0 && s.start + s.size <= |s.chip.cells|
    && s.error == ERROR_OK && Drained(s)
  }

  lemma DoneStands(s: Session)
    requires Done(s)
    ensures s.cur == s.start + s.size && Remaining(s) == 0 && Roomy(s) && Inside(s)
  {}

  lemma StagedDone(s: Session)
    requires Staged(s) && s.error == ERROR_OK && Drained(s)
    ensures Done(s)
  {}

  /** The start of the sector at the write address. */
  function NextSector(s: Session): nat {
    s.cur / SECTOR * SECTOR
  }

  ghost predicate Blank(c: Chip, lo: nat, hi: nat) {
    hi <= |c.cells| && forall i :: lo <= i < hi ==> c.cells[i] == 0xff
  }

  /** The image has no byte in the sector at the write address, or only blank ones. */
  ghost predicate TailBlank(s: Session) {
    Blank(s.chip, NextSector(s), s.cur)
  }

  /** That sector is the last one of the staging area, or can be erased and is blank already. */
  ghost predicate NothingBehind(s: Session) {
    s.size % SECTOR != 0 || (Flush(s).1 && Blank(s.chip, NextSector(s), NextSector(s) + SECTOR))
  }

  /** An empty chunk for a finished session flushes the empty buffer. */
  lemma EmptyWriteAfterFinish(s: Session)
    requires Done(s)
    ensures WriteSpec(s, []) == (Flush(s).0, 0)
  {
    hide Flush, FillSectors, Remaining;
    DoneStands(s);
    WriteUnfolds(s, []);
    NothingToFill(s);
  }

  /** So does the template `write` as soon as its source has something: what is available is cut to the nothing that
      remains, and the buffer is then as long as what remains. */
  lemma SourceAfterFinish(s: Session, pending: seq<Byte>, arrivals: seq<seq<Byte>>, written: nat)
    requires Done(s) && pending != []
    ensures Roomy(s) && SourceSpec(s, pending, arrivals, written) == (Flush(s).0, written)
  {
    hide Flush, Remaining;
    DoneStands(s);
    assert s.(buffered := s.buffered + pending[..0]) == s;
    LateFlush(s);
    if Flush(s).1 {
      DoneStands(Flush(s).0);
    }
  }

  lemma NothingToFill(s: Session)
    requires |s.buffered| <= SECTOR
    ensures FillSectors(s, []) == Going(s, []) && s.(buffered := s.buffered + []) == s
  {
    assert s.buffered + [] == s.buffered;
  }

  /** That flush erases the sector at the write address and leaves the session finished, or fails. */
  lemma LateFlush(s: Session)
    requires Done(s)
    ensures var (t, ok) := Flush(s);
            var lo := NextSector(s);
            && SameJob(s, t) && SameOutside(s.chip, t.chip, lo, lo + SECTOR)
            && (ok ==> Done(t) && t.hashed == s.hashed && t.cur == s.cur && Blank(t.chip, lo, lo + SECTOR))
            && (!ok ==> t.error == ERROR_WRITE)
  {
    hide EraseSector, Program;
    DoneStands(s);
    var erased := EraseSector(s.chip, s.cur / SECTOR).0;
    var programmed := Program(erased, s.cur, []).0;
    assert SameOutside(erased, programmed, s.cur, s.cur);
    assert s.hashed + [] == s.hashed;
  }

  /** The image survives that flush exactly when its part of the erased sector was blank already, and a whole
      number of sectors has no such part. */
  lemma LateFlushImage(s: Session)
    requires Done(s) && Flush(s).1
    ensures var t := Flush(s).0;
            && s.start + s.size <= |t.chip.cells|
            && (t.chip.cells[s.start..s.start + s.size] == s.chip.cells[s.start..s.start + s.size] <==>
                TailBlank(s))
            && (s.size % SECTOR == 0 ==> TailBlank(s))
  {
    LateFlush(s);
    LateSector(s);
    DoneStands(s);
    hide Flush, NextSector, Done, SameOutside, Blank;
    BlankedTail(s.chip, Flush(s).0.chip, s.start, s.cur, NextSector(s));
  }

  lemma BlankedTail(c: Chip, d: Chip, from: nat, to: nat, lo: nat)
    requires from <= lo <= to <= lo + SECTOR && to <= |c.cells|
    requires SameOutside(c, d, lo, lo + SECTOR) && Blank(d, lo, lo + SECTOR)
    ensures to <= |d.cells| && (d.cells[from..to] == c.cells[from..to] <==> Blank(c, lo, to))
    ensures lo == to ==> Blank(c, lo, to)
  {
    if d.cells[from..to] == c.cells[from..to] {
      forall i | lo <= i < to ensures c.cells[i] == 0xff {
        assert d.cells[from..to][i - from] == c.cells[from..to][i - from];
      }
    }
  }

  /** It leaves everything outside the staging area alone exactly when the image is no whole number of sectors, or the
      erased sector was blank already. Otherwise that sector is the first one behind the staging area. */
  lemma LateFlushOutside(s: Session)
    requires Done(s) && Flush(s).1
    ensures SameOutside(s.chip, Flush(s).0.chip, s.start, s.start + RoundUp32(s.size)) <==>
            s.size % SECTOR != 0 || Blank(s.chip, NextSector(s), NextSector(s) + SECTOR)
    ensures s.size % SECTOR == 0 ==> NextSector(s) == s.start + RoundUp32(s.size)
  {
    hide Flush, RoundUp32, SameOutside, Blank;
    LateFlush(s);
    LateSector(s);
    var t, lo, end := Flush(s).0, NextSector(s), s.start + RoundUp32(s.size);
    if s.size % SECTOR == 0 {
      BlankedBehind(s.chip, t.chip, s.start, lo);
    } else {
      Outward(s.chip, t.chip, lo, lo + SECTOR, s.start, end);
    }
  }

  lemma BlankedBehind(c: Chip, d: Chip, from: nat, lo: nat)
    requires from <= lo && SameOutside(c, d, lo, lo + SECTOR) && Blank(d, lo, lo + SECTOR)
    ensures SameOutside(c, d, from, lo) <==> Blank(c, lo, lo + SECTOR)
  {
    if SameOutside(c, d, from, lo) {
      forall i | lo <= i < lo + SECTOR ensures c.cells[i] == 0xff {
        assert d.cells[i] == 0xff;
      }
    }
  }

  /** A flush that fails may leave anything, but only in that sector. */
  lemma LateFlushInside(s: Session)
    requires Done(s) && NothingBehind(s)
    ensures SameOutside(s.chip, Flush(s).0.chip, s.start, s.start + RoundUp32(s.size))
  {
    hide Flush, RoundUp32;
    LateFlush(s);
    LateSector(s);
    if s.size % SECTOR == 0 {
      LateFlushOutside(s);
    }
  }

  /** With a blank tail the invariant is kept. */
  lemma LateFlushKeeps(s: Session)
    requires Staged(s) && s.error == ERROR_OK && Drained(s) && TailBlank(s)
    ensures var (t, ok) := Flush(s);
            && SameJob(s, t)
            && (ok ==> Staged(t) && t.error == ERROR_OK && Drained(t) && Accepted(t) == Accepted(s))
            && (!ok ==> t.error == ERROR_WRITE)
  {
    hide Flush, TailBlank, NextSector, SameOutside, Blank;
    StagedDone(s);
    LateFlush(s);
    DoneStands(s);
    if Flush(s).1 {
      LateFlushImage(s);
      DoneStands(Flush(s).0);
    }
  }

  /** The sector at the write address is the last one of the staging area, or the first one behind it. */
  lemma LateSector(s: Session)
    requires Done(s)
    ensures s.start <= NextSector(s) <= s.cur < NextSector(s) + SECTOR
    ensures s.size % SECTOR != 0 ==> NextSector(s) + SECTOR == s.start + RoundUp32(s.size)
    ensures s.size % SECTOR == 0 ==> NextSector(s) == s.cur == s.start + RoundUp32(s.size)
  {
    DoneStands(s);
    var n := s.size / SECTOR;
    assert s.start / SECTOR * SECTOR == s.start;
    assert s.cur == s.start + n * SECTOR + s.size % SECTOR;
    assert NextSector(s) == s.start + n * SECTOR;
  }

  /** `write` takes the whole chunk or flags an error, and keeps the invariant; an empty chunk for a finished
      session keeps it if the image has nothing to lose in its last sector. The declared size is respected exactly
      when the bytes taken so far plus the chunk fit in it: the space check in `write` leaves the buffered bytes
      out. */
  lemma WriteKeeps(s: Session, data: seq<Byte>)
    requires Staged(s) && s.error == ERROR_OK
    requires data == [] && Drained(s) ==> TailBlank(s)
    ensures var (t, n) := WriteSpec(s, data);
            && SameJob(s, t)
            && (t.error == ERROR_OK ==> Staged(t) && n == |data| && Accepted(t) == Accepted(s) + data)
            && (t.error != ERROR_OK ==> t.error in {ERROR_WRITE, ERROR_SPACE} && (data != [] ==> n < |data|))
            && (t.error == ERROR_OK ==>
                 (t.cur + |t.buffered| <= t.start + t.size <==> |Accepted(s)| + |data| <= s.size))
  {
    hide Flush, FillSectors, Tail, Remaining, TailBlank;
    RemainingInside(s);
    if data == [] && Drained(s) {
      StagedDone(s);
      EmptyWriteAfterFinish(s);
      LateFlushKeeps(s);
    } else if |data| <= Remaining(s) {
      WriteUnfolds(s, data);
      FillKeeps(s, data);
      match FillSectors(s, data) {
        case Stopped(t, left) =>
        case Going(t, rest) => TailKeeps(t, rest);
      }
    } else {
      assert WriteSpec(s, data) == (s.(error := ERROR_SPACE), 0);
    }
  }

  /** As long as the chunks fit, `write` leaves flash outside the staging area alone, even when it fails; so does an
      empty chunk for a finished session, if the sector to be erased belongs to the staging area or loses nothing. */
  lemma WriteStaysInside(s: Session, data: seq<Byte>)
    requires Staged(s) && s.error == ERROR_OK
    requires data == [] && Drained(s) ==> NothingBehind(s)
    requires |Accepted(s)| + |data| <= s.size
    ensures SameOutside(s.chip, WriteSpec(s, data).0.chip, s.start, s.start + RoundUp32(s.size))
  {
    hide Flush, FillSectors, Tail, Remaining, RoundUp32, NothingBehind;
    RemainingInside(s);
    assert s.size <= RoundUp32(s.size) by { SizeCovered(s.size); }
    if data == [] && Drained(s) {
      StagedDone(s);
      EmptyWriteAfterFinish(s);
      LateFlushInside(s);
    } else if |data| <= Remaining(s) {
      WriteUnfolds(s, data);
      FillKeeps(s, data);
      match FillSectors(s, data) {
        case Stopped(t, left) =>
        case Going(t, rest) =>
          assert |Accepted(t) + rest| == |Accepted(s) + data|;
          TailStaysInside(t, rest);
      }
    }
  }

  // ---- The template write ----

  function Offered(pending: seq<Byte>, arrivals: seq<seq<Byte>>): seq<Byte>
    decreases arrivals
  {
    if arrivals == [] then pending else Offered(pending + arrivals[0], arrivals[1..])
  }

  lemma {:induction false} OfferedDrop(pending: seq<Byte>, arrivals: seq<seq<Byte>>, n: nat)
    requires n <= |pending|
    ensures n <= |Offered(pending, arrivals)|
    ensures Offered(pending, arrivals)[..n] == pending[..n]
    ensures Offered(pending, arrivals)[n..] == Offered(pending[n..], arrivals)
    decreases arrivals
  {
    if arrivals != [] {
      assert (pending + arrivals[0])[n..] == pending[n..] + arrivals[0];
      assert (pending + arrivals[0])[..n] == pending[..n];
      OfferedDrop(pending + arrivals[0], arrivals[1..], n);
    }
  }

  lemma OfferedStep(pending: seq<Byte>, arrivals: seq<seq<Byte>>)
    requires arrivals != []
    ensures Offered(pending, arrivals) == Offered(pending + arrivals[0], arrivals[1..])
  {}

  ghost predicate Inside(s: Session) {
    s.cur + |s.buffered| <= s.start + s.size
  }

  ghost predicate Healthy(s: Session) {
    Staged(s) && s.error == ERROR_OK && Inside(s)
  }

  /** From `s` to `t` exactly `data` was taken, or a write failed; flash outside the staging area is untouched. */
  ghost predicate Took(s: Session, t: Session, data: seq<Byte>) {
    && SameJob(s, t)
    && SameOutside(s.chip, t.chip, s.start, s.start + RoundUp32(s.size))
    && (t.error == ERROR_OK ==> Healthy(t) && Accepted(t) == Accepted(s) + data)
    && (t.error != ERROR_OK ==> t.error == ERROR_WRITE)
  }

  lemma TookTwice(s: Session, u: Session, t: Session, a: seq<Byte>, b: seq<Byte>)
    requires Took(s, u, a) && Took(u, t, b)
    ensures Took(s, t, a + b) || u.error != ERROR_OK
  {
    assert Accepted(s) + a + b == Accepted(s) + (a + b);
  }

  lemma HealthyRoomy(s: Session)
    requires Healthy(s)
    ensures Roomy(s) && Took(s, s, [])
    ensures Remaining(s) == s.start + s.size - s.cur
    ensures Drained(s) <==> Remaining(s) == 0
  {
    RemainingInside(s);
  }

  /** Buffering `data` and flushing, at a full buffer or at the end of the image. */
  lemma FlushTakes(s: Session, data: seq<Byte>)
    requires Healthy(s) && !Drained(s) && |s.buffered| + |data| <= SECTOR
    requires s.cur + |s.buffered| + |data| <= s.start + s.size
    requires |s.buffered| + |data| == SECTOR || s.cur + |s.buffered| + |data| == s.start + s.size
    ensures var (t, ok) := Flush(s.(buffered := s.buffered + data));
            Took(s, t, data) && (ok <==> t.error == ERROR_OK)
  {
    hide Flush, RoundUp32, Accepted, Remaining, SameOutside;
    RemainingInside(s);
    SectorFits(s.cur - s.start, s.size);
    AcceptedGrows(s, data);
    var u := s.(buffered := s.buffered + data);
    FlushKeeps(u);
    Outward(u.chip, Flush(u).0.chip, u.cur, u.cur + SECTOR, u.start, u.start + RoundUp32(u.size));
  }

  /** Buffering `data` without reaching the end of the image. */
  lemma BufferTakes(s: Session, data: seq<Byte>)
    requires Healthy(s) && !Drained(s) && |s.buffered| + |data| <= SECTOR
    requires s.cur + |s.buffered| + |data| < s.start + s.size
    ensures Took(s, s.(buffered := s.buffered + data), data)
  {
    hide RoundUp32, Accepted, Remaining;
    RemainingInside(s);
    AcceptedGrows(s, data);
  }

  /** How many bytes a pass takes, and whether it flushes. */
  function PassSize(s: Session, pending: nat): (k: nat)
    requires Roomy(s)
    ensures k <= pending
  {
    var n := if |s.buffered| + pending > Remaining(s) then Remaining(s) - |s.buffered| else pending;
    if |s.buffered| + n > SECTOR then SECTOR - |s.buffered| else n
  }

  predicate PassFlushes(s: Session, pending: nat)
    requires Roomy(s)
  {
    var filled := |s.buffered| + PassSize(s, pending);
    filled == Remaining(s) || (filled == SECTOR && |s.buffered| + pending > SECTOR)
  }

  lemma PassUnfolds(s: Session, pending: seq<Byte>)
    requires Roomy(s) && pending != []
    ensures var k := PassSize(s, |pending|);
            var u := s.(buffered := s.buffered + pending[..k]);
            var pass := SourcePass(s, pending);
            && pass.taken == k && (pass.ok ==> pass.counted == k)
            && (pass.s, pass.ok) == if PassFlushes(s, |pending|) then Flush(u) else (u, true)
  {
    hide Flush;
    SameRemaining(s, pending[..PassSize(s, |pending|)]);
  }

  lemma PassKeeps(s: Session, pending: seq<Byte>)
    requires Healthy(s) && !Drained(s) && pending != []
    ensures Roomy(s)
    ensures var pass := SourcePass(s, pending);
            && Took(s, pass.s, pending[..pass.taken])
            && (pass.ok <==> pass.s.error == ERROR_OK)
            && (pass.ok ==> pass.counted == pass.taken)
  {
    HealthyRoomy(s);
    PassUnfolds(s, pending);
    hide Flush, SourcePass, Took, Healthy, Drained, Remaining;
    var k := PassSize(s, |pending|);
    if PassFlushes(s, |pending|) {
      FlushTakes(s, pending[..k]);
    } else {
      BufferTakes(s, pending[..k]);
    }
  }

  lemma SameRemaining(s: Session, data: seq<Byte>)
    ensures Remaining(s.(buffered := s.buffered + data)) == Remaining(s)
  {}

  lemma AcceptedGrows(s: Session, data: seq<Byte>)
    ensures Accepted(s.(buffered := s.buffered + data)) == Accepted(s) + data
  {}

  /** The template `write` takes a prefix of what the source offers, never past the declared size, and stays inside the
      staging area. It needs no care from its caller about sizes while the image is not complete; called again on a
      finished session, while the source has something, it erases a sector, and that must have nothing to lose. */
  lemma {:induction false} SourceKeeps(s: Session, pending: seq<Byte>, arrivals: seq<seq<Byte>>, written: nat)
    requires Healthy(s) && (Drained(s) && pending != [] ==> TailBlank(s) && NothingBehind(s))
    ensures Roomy(s)
    ensures var (t, n) := SourceSpec(s, pending, arrivals, written);
            var offered := Offered(pending, arrivals);
            && written <= n
            && (t.error == ERROR_OK ==> n - written <= |offered|)
            && Took(s, t, if n - written <= |offered| then offered[..n - written] else [])
    decreases |arrivals|, |pending| + |s.buffered|, |pending|
  {
    hide SourcePass, Offered, Healthy, Took, Drained, Remaining, TailBlank, NothingBehind;
    HealthyRoomy(s);
    if pending != [] && Drained(s) {
      LateTakes(s);
      SourceAfterFinish(s, pending, arrivals, written);
      assert Offered(pending, arrivals)[..0] == [];
    } else if pending != [] {
      PassKeeps(s, pending);
      var pass := SourcePass(s, pending);
      var taken := pending[..pass.taken];
      TookFacts(s, pass.s, taken);
      OfferedDrop(pending, arrivals, pass.taken);
      if pass.ok {
        HealthyRoomy(pass.s);
        if Remaining(pass.s) != 0 {
          var rest := pending[pass.taken..];
          var offered, later := Offered(pending, arrivals), Offered(rest, arrivals);
          if arrivals == [] {
            SourceKeeps(pass.s, rest, [], written + pass.counted);
          } else {
            OfferedStep(rest, arrivals);
            SourceKeeps(pass.s, rest + arrivals[0], arrivals[1..], written + pass.counted);
          }
          var (t, n) := SourceSpec(s, pending, arrivals, written);
          var m := n - written - pass.taken;
          var more := if m <= |later| then later[..m] else [];
          TookTwice(s, pass.s, t, taken, more);
          TookFacts(pass.s, t, more);
          if m <= |later| {
            PrefixesJoin(offered, pass.taken, m);
          } else {
            TookFailed(s, t, taken + more);
          }
        }
      } else {
        TookFailed(s, pass.s, taken);
      }
    } else {
      assert Offered(pending, arrivals)[..0] == [];
    }
  }

  lemma LateTakes(s: Session)
    requires Healthy(s) && Drained(s) && TailBlank(s) && NothingBehind(s)
    ensures Done(s) && Took(s, Flush(s).0, [])
  {
    hide Flush, TailBlank, NothingBehind, RoundUp32;
    StagedDone(s);
    LateFlushKeeps(s);
    LateFlushInside(s);
    if Flush(s).1 {
      StagedDone(Flush(s).0);
      DoneStands(Flush(s).0);
    }
    assert Accepted(s) + [] == Accepted(s);
  }

  lemma PrefixesJoin(s: seq<Byte>, n: nat, m: nat)
    requires n + m <= |s|
    ensures s[..n + m] == s[..n] + s[n..][..m]
  {}

  lemma TookFacts(s: Session, t: Session, data: seq<Byte>)
    requires Took(s, t, data)
    ensures t.error == ERROR_OK ==> Healthy(t)
  {}

  lemma TookFailed(s: Session, t: Session, data: seq<Byte>)
    requires Took(s, t, data) && t.error != ERROR_OK
    ensures forall other :: Took(s, t, other)
  {}
}
