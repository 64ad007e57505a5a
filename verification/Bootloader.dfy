/** The eboot bootloader: copying a staged image and dispatching the command record. */
module Bootloader {
  import opened Numbers
  import opened Option
  import opened Crc
  import opened Flash
  import opened BootCommand

  const ACTION_COPY_RAW: Word := [0x01, 0x00, 0x00, 0x00]
  const ACTION_LOAD_APP: Word := [0xff, 0xff, 0xff, 0xff]

  /** Size rounded up to whole sectors in 32-bit arithmetic. */
  function RoundUp32(n: nat): (r: u32)
    ensures r % SECTOR == 0
    ensures n <= TWO_32 - SECTOR ==> n <= r < n + SECTOR
    ensures TWO_32 - SECTOR < n < TWO_32 ==> r == 0
  {
    (n + SECTOR - 1) % TWO_32 / SECTOR * SECTOR
  }

  function CopyLoop(c: Chip, saddr: nat, daddr: nat, left: nat): (Chip, int)
    requires left % SECTOR == 0
    decreases left
  {
    if left == 0 then (c, 0)
    else
      var (erased, erasedOk) := EraseSector(c, daddr / SECTOR);
      if !erasedOk then (erased, 2)
      else
        var (read, data) := Read(erased, saddr, SECTOR);
        if data.None? then (read, 3)
        else
          var (written, writtenOk) := Program(read, daddr, data.value);
          if !writtenOk then (written, 4)
          else CopyLoop(written, saddr + SECTOR, daddr + SECTOR, left - SECTOR)
  }

  /** `addr & 0xfff != 0` parses as `addr & (0xfff != 0)`: only odd addresses are refused. */
  function CopyRawSpec(c: Chip, src: nat, dst: nat, size: nat): (Chip, int) {
    if src % 2 == 1 || dst % 2 == 1 then (c, 1)
    else CopyLoop(c, src, dst, RoundUp32(size))
  }

  method CopyRaw(chip0: Chip, src: nat, dst: nat, size: nat) returns (chip: Chip, res: int)
    ensures (chip, res) == CopyRawSpec(chip0, src, dst, size)
  {
    chip := chip0;
    if src % 2 == 1 || dst % 2 == 1 {
      return chip, 1;
    }
    var left: nat := RoundUp32(size);
    var saddr: nat, daddr: nat := src, dst;
    while left > 0
      invariant left % SECTOR == 0
      invariant CopyLoop(chip, saddr, daddr, left) == CopyLoop(chip0, src, dst, RoundUp32(size))
    {
      var (erased, erasedOk) := EraseSector(chip, daddr / SECTOR);
      chip := erased;
      if !erasedOk {
        return chip, 2;
      }
      var (read, data) := Read(chip, saddr, SECTOR);
      chip := read;
      if data.None? {
        return chip, 3;
      }
      var (written, writtenOk) := Program(chip, daddr, data.value);
      chip := written;
      if !writtenOk {
        return chip, 4;
      }
      saddr := saddr + SECTOR;
      daddr := daddr + SECTOR;
      left := left - SECTOR;
    }
    res := 0;
  }

  // ---- What a successful copy leaves behind ----

  /** Erase-read-program of one sector: the destination sector ends up holding the source sector
      as it was before, provided erasing the destination does not touch the source. */
  lemma CopySector(c: Chip, saddr: nat, daddr: nat)
    requires daddr % SECTOR == 0
    requires daddr + SECTOR <= saddr || saddr + SECTOR <= daddr
    requires EraseSector(c, daddr / SECTOR).1
    requires Read(EraseSector(c, daddr / SECTOR).0, saddr, SECTOR).1.Some?
    ensures var (read, data) := Read(EraseSector(c, daddr / SECTOR).0, saddr, SECTOR);
            var (written, ok) := Program(read, daddr, data.value);
            && saddr + SECTOR <= |c.cells| && daddr + SECTOR <= |c.cells|
            && SameOutside(c, written, daddr, daddr + SECTOR)
            && (ok ==> written.cells[daddr..daddr + SECTOR] == c.cells[saddr..saddr + SECTOR])
  {
    assert daddr / SECTOR * SECTOR == daddr;
    var erased := EraseSector(c, daddr / SECTOR).0;
    var (read, data) := Read(erased, saddr, SECTOR);
    assert data.value == c.cells[saddr..saddr + SECTOR];
    var (written, ok) := Program(read, daddr, data.value);
    if ok {
      forall i | 0 <= i < SECTOR ensures written.cells[daddr + i] == data.value[i] {
        AndErased(data.value[i]);
      }
    }
  }

  /** Even where source and destination overlap, copying down by a sector or more reproduces the original source,
      which need not be aligned. */
  lemma {:induction false} CopyLoopCorrect(c: Chip, saddr: nat, daddr: nat, left: nat)
    requires left % SECTOR == 0 && daddr % SECTOR == 0
    requires daddr + SECTOR <= saddr || saddr + left <= daddr
    ensures var (d, res) := CopyLoop(c, saddr, daddr, left);
            && SameOutside(c, d, daddr, daddr + left)
            && (res == 0 && left > 0 ==>
                 && saddr + left <= |c.cells| && daddr + left <= |c.cells|
                 && d.cells[daddr..daddr + left] == c.cells[saddr..saddr + left])
    decreases left
  {
    hide EraseSector, Read, Program, CopyLoop, SameOutside;
    if left == 0 {
      CopyNothing(c, saddr, daddr);
    } else {
      var (first, res) := CopyOne(c, saddr, daddr);
      CopyFirst(c, saddr, daddr, left);
      if res == 0 {
        CopyLoopCorrect(first, saddr + SECTOR, daddr + SECTOR, left - SECTOR);
        var (d, res) := CopyLoop(first, saddr + SECTOR, daddr + SECTOR, left - SECTOR);
        CopyJoin(c, first, d, saddr, daddr, left, res);
      } else {
        Widen(c, first, daddr, left);
      }
    }
  }

  /** The first turn of the loop. */
  function CopyOne(c: Chip, saddr: nat, daddr: nat): (Chip, int) {
    var (erased, erasedOk) := EraseSector(c, daddr / SECTOR);
    if !erasedOk then (erased, 2)
    else
      var (read, data) := Read(erased, saddr, SECTOR);
      if data.None? then (read, 3)
      else
        var (written, writtenOk) := Program(read, daddr, data.value);
        if !writtenOk then (written, 4) else (written, 0)
  }

  lemma CopyNothing(c: Chip, saddr: nat, daddr: nat)
    ensures CopyLoop(c, saddr, daddr, 0) == (c, 0) && SameOutside(c, c, daddr, daddr)
  {}

  lemma CopyFirst(c: Chip, saddr: nat, daddr: nat, left: nat)
    requires left >= SECTOR && left % SECTOR == 0 && daddr % SECTOR == 0
    requires daddr + SECTOR <= saddr || saddr + SECTOR <= daddr
    ensures var (first, res) := CopyOne(c, saddr, daddr);
            && CopyLoop(c, saddr, daddr, left) ==
               (if res == 0 then CopyLoop(first, saddr + SECTOR, daddr + SECTOR, left - SECTOR) else (first, res))
            && SameOutside(c, first, daddr, daddr + SECTOR)
            && (res == 0 ==>
                 && saddr + SECTOR <= |c.cells| && daddr + SECTOR <= |c.cells|
                 && first.cells[daddr..daddr + SECTOR] == c.cells[saddr..saddr + SECTOR])
  {
    CopyFirstIs(c, saddr, daddr, left);
    assert daddr / SECTOR * SECTOR == daddr;
    var (erased, erasedOk) := EraseSector(c, daddr / SECTOR);
    if erasedOk && Read(erased, saddr, SECTOR).1.Some? {
      CopySector(c, saddr, daddr);
    }
  }

  lemma CopyFirstIs(c: Chip, saddr: nat, daddr: nat, left: nat)
    requires left >= SECTOR && left % SECTOR == 0
    ensures var (first, res) := CopyOne(c, saddr, daddr);
            CopyLoop(c, saddr, daddr, left) ==
            if res == 0 then CopyLoop(first, saddr + SECTOR, daddr + SECTOR, left - SECTOR) else (first, res)
  {
    hide EraseSector, Read, Program;
  }

  lemma Widen(c: Chip, d: Chip, daddr: nat, left: nat)
    requires left >= SECTOR && SameOutside(c, d, daddr, daddr + SECTOR)
    ensures SameOutside(c, d, daddr, daddr + left)
  {}

  lemma CopyJoin(c: Chip, written: Chip, d: Chip, saddr: nat, daddr: nat, left: nat, res: int)
    requires left >= SECTOR && left % SECTOR == 0 && daddr % SECTOR == 0
    requires daddr + SECTOR <= saddr || saddr + left <= daddr
    requires saddr + SECTOR <= |c.cells| && daddr + SECTOR <= |c.cells|
    requires SameOutside(c, written, daddr, daddr + SECTOR)
    requires written.cells[daddr..daddr + SECTOR] == c.cells[saddr..saddr + SECTOR]
    requires SameOutside(written, d, daddr + SECTOR, daddr + left)
    requires res == 0 && left > SECTOR ==>
               && saddr + left <= |c.cells| && daddr + left <= |c.cells|
               && d.cells[daddr + SECTOR..daddr + left] == written.cells[saddr + SECTOR..saddr + left]
    ensures SameOutside(c, d, daddr, daddr + left)
    ensures res == 0 ==>
              && saddr + left <= |c.cells| && daddr + left <= |c.cells|
              && d.cells[daddr..daddr + left] == c.cells[saddr..saddr + left]
  {
    if res == 0 && left > SECTOR {
      assert d.cells[daddr..daddr + left] == d.cells[daddr..daddr + SECTOR] + d.cells[daddr + SECTOR..daddr + left];
      assert c.cells[saddr..saddr + left] == c.cells[saddr..saddr + SECTOR] + c.cells[saddr + SECTOR..saddr + left];
      assert d.cells[daddr..daddr + SECTOR] == written.cells[daddr..daddr + SECTOR];
      assert written.cells[saddr + SECTOR..saddr + left] == c.cells[saddr + SECTOR..saddr + left];
    }
  }

  /** Copying a region onto itself does not preserve it: every sector is erased before it is read. */
  lemma {:induction false} CopyOntoItselfErases(c: Chip, addr: nat, left: nat)
    requires left % SECTOR == 0 && addr % SECTOR == 0
    ensures var (d, res) := CopyLoop(c, addr, addr, left);
            && SameOutside(c, d, addr, addr + left)
            && (res == 0 && left > 0 ==>
                 addr + left <= |c.cells| && forall i :: addr <= i < addr + left ==> d.cells[i] == 0xff)
    decreases left
  {
    hide EraseSector, Read, Program, CopyLoop, SameOutside;
    if left == 0 {
      CopyNothing(c, addr, addr);
    } else {
      var (first, res) := CopyOne(c, addr, addr);
      CopyFirstIs(c, addr, addr, left);
      EraseFirst(c, addr);
      if res == 0 {
        CopyOntoItselfErases(first, addr + SECTOR, left - SECTOR);
        var (d, res) := CopyLoop(first, addr + SECTOR, addr + SECTOR, left - SECTOR);
        EraseJoin(c, first, d, addr, left, res);
      } else {
        Widen(c, first, addr, left);
      }
    }
  }

  lemma EraseFirst(c: Chip, addr: nat)
    requires addr % SECTOR == 0
    ensures var (first, res) := CopyOne(c, addr, addr);
            && SameOutside(c, first, addr, addr + SECTOR)
            && (res == 0 ==>
                 addr + SECTOR <= |c.cells| && forall i :: addr <= i < addr + SECTOR ==> first.cells[i] == 0xff)
  {
    assert addr / SECTOR * SECTOR == addr;
    var (erased, erasedOk) := EraseSector(c, addr / SECTOR);
    if erasedOk {
      var (read, data) := Read(erased, addr, SECTOR);
      if data.Some? {
        var (written, ok) := Program(read, addr, data.value);
        if ok {
          forall i | addr <= i < addr + SECTOR ensures written.cells[i] == 0xff {
            assert data.value[i - addr] == 0xff;
          }
        }
      }
    }
  }

  lemma EraseJoin(c: Chip, first: Chip, d: Chip, addr: nat, left: nat, res: int)
    requires left >= SECTOR && addr + SECTOR <= |c.cells| && SameOutside(c, first, addr, addr + SECTOR)
    requires SameOutside(first, d, addr + SECTOR, addr + left)
    requires forall i :: addr <= i < addr + SECTOR ==> first.cells[i] == 0xff
    requires res == 0 && left > SECTOR ==>
               addr + left <= |c.cells| && forall i :: addr + SECTOR <= i < addr + left ==> d.cells[i] == 0xff
    ensures SameOutside(c, d, addr, addr + left)
    ensures res == 0 ==> addr + left <= |c.cells| && forall i :: addr <= i < addr + left ==> d.cells[i] == 0xff
  {}

  /** Copying upwards onto a region that starts `dst - src` behind the source repeats the first `dst - src` bytes over
      and over. */
  lemma {:induction false} CopyUpwardsRepeats(c: Chip, saddr: nat, daddr: nat, left: nat)
    requires left % SECTOR == 0 && daddr % SECTOR == 0 && saddr + SECTOR <= daddr
    ensures var (d, res) := CopyLoop(c, saddr, daddr, left);
            && SameOutside(c, d, daddr, daddr + left)
            && (res == 0 ==> (left > 0 ==> daddr + left <= |c.cells|) && Repeats(c, d, saddr, daddr, left))
    decreases left
  {
    hide EraseSector, Read, Program, CopyLoop, SameOutside, Repeats;
    if left == 0 {
      CopyNothing(c, saddr, daddr);
      RepeatsNothing(c, c, saddr, daddr);
    } else {
      var (first, res) := CopyOne(c, saddr, daddr);
      CopyFirst(c, saddr, daddr, left);
      if res == 0 {
        CopyUpwardsRepeats(first, saddr + SECTOR, daddr + SECTOR, left - SECTOR);
        var (d, res) := CopyLoop(first, saddr + SECTOR, daddr + SECTOR, left - SECTOR);
        RepeatsJoin(c, first, d, saddr, daddr, left, res);
      } else {
        Widen(c, first, daddr, left);
      }
    }
  }

  /** j modulo the gap. */
  function Cycle(j: nat, gap: nat): (r: nat)
    requires 0 < gap
    ensures r < gap
  {
    if j < gap then j else Cycle(j - gap, gap)
  }

  lemma {:induction false} NextInCycle(j: nat, gap: nat, step: nat)
    requires 0 < step <= gap
    ensures var r := Cycle(j, gap) + step; Cycle(j + step, gap) == if r < gap then r else r - gap
    decreases j
  {
    if j >= gap {
      NextInCycle(j - gap, gap, step);
    }
  }

  ghost predicate Repeats(c: Chip, d: Chip, saddr: nat, daddr: nat, left: nat)
    requires saddr < daddr
  {
    left > 0 ==>
      daddr + left <= |c.cells| == |d.cells| &&
      forall k :: daddr <= k < daddr + left ==> d.cells[k] == c.cells[saddr + Cycle(k - daddr, daddr - saddr)]
  }

  lemma RepeatsNothing(c: Chip, d: Chip, saddr: nat, daddr: nat)
    requires saddr < daddr
    ensures Repeats(c, d, saddr, daddr, 0)
  {}

  lemma RepeatsJoin(c: Chip, first: Chip, d: Chip, saddr: nat, daddr: nat, left: nat, res: int)
    requires left >= SECTOR && saddr + SECTOR <= daddr && daddr + SECTOR <= |c.cells|
    requires SameOutside(c, first, daddr, daddr + SECTOR)
    requires first.cells[daddr..daddr + SECTOR] == c.cells[saddr..saddr + SECTOR]
    requires SameOutside(first, d, daddr + SECTOR, daddr + left)
    requires res == 0 ==> Repeats(first, d, saddr + SECTOR, daddr + SECTOR, left - SECTOR)
    ensures SameOutside(c, d, daddr, daddr + left)
    ensures res == 0 ==> daddr + left <= |c.cells| && Repeats(c, d, saddr, daddr, left)
  {
    if res == 0 {
      forall k | daddr <= k < daddr + left
        ensures k < |d.cells| && d.cells[k] == c.cells[saddr + Cycle(k - daddr, daddr - saddr)]
      {
        RepeatsAt(c, first, d, saddr, daddr, left, k);
      }
    }
  }

  lemma FirstCopied(c: Chip, first: Chip, saddr: nat, daddr: nat, k: nat)
    requires saddr < daddr <= k < daddr + SECTOR <= |c.cells| == |first.cells|
    requires first.cells[daddr..daddr + SECTOR] == c.cells[saddr..saddr + SECTOR]
    ensures first.cells[k] == c.cells[saddr + (k - daddr)]
  {
    assert first.cells[k] == first.cells[daddr..daddr + SECTOR][k - daddr];
  }

  lemma RepeatsAt(c: Chip, first: Chip, d: Chip, saddr: nat, daddr: nat, left: nat, k: nat)
    requires left >= SECTOR && saddr + SECTOR <= daddr && daddr + SECTOR <= |c.cells|
    requires SameOutside(c, first, daddr, daddr + SECTOR)
    requires first.cells[daddr..daddr + SECTOR] == c.cells[saddr..saddr + SECTOR]
    requires SameOutside(first, d, daddr + SECTOR, daddr + left)
    requires Repeats(first, d, saddr + SECTOR, daddr + SECTOR, left - SECTOR)
    requires daddr <= k < daddr + left
    ensures k < |d.cells| && d.cells[k] == c.cells[saddr + Cycle(k - daddr, daddr - saddr)]
  {
    var gap := daddr - saddr;
    if k < daddr + SECTOR {
      FirstCopied(c, first, saddr, daddr, k);
    } else {
      var r := Cycle(k - daddr - SECTOR, gap);
      NextInCycle(k - daddr - SECTOR, gap, SECTOR);
      hide Cycle;
      assert d.cells[k] == first.cells[saddr + SECTOR + r];
      if r + SECTOR >= gap {
        FirstCopied(c, first, saddr, daddr, saddr + SECTOR + r);
      }
    }
  }

  /** The source of such a copy survives being copied. */
  ghost predicate CopiedRight(c: Chip, src: nat, dst: nat, left: nat)
    requires src + left <= |c.cells|
  {
    if dst == src then forall k :: src <= k < src + left ==> c.cells[k] == 0xff
    else if src < dst < src + left then
      forall k :: src <= k < src + left ==> c.cells[k] == c.cells[src + Cycle(k - src, dst - src)]
    else true
  }

  /** A successful copy to an aligned destination that is the source or a sector or more away from it, as with two
      aligned addresses, is a true copy exactly if the destination neither is the source nor starts inside it; or else
      if the source is blank, or repeats itself at the distance of the two. */
  lemma CopyExact(c: Chip, src: nat, dst: nat, left: nat)
    requires left % SECTOR == 0 && dst % SECTOR == 0 && 0 < left && src + left <= |c.cells|
    requires src == dst || src + SECTOR <= dst || dst + SECTOR <= src
    requires CopyLoop(c, src, dst, left).1 == 0
    ensures var d := CopyLoop(c, src, dst, left).0;
            dst + left <= |d.cells| && (SameBytes(d.cells, dst, c.cells, src, left) <==> CopiedRight(c, src, dst, left))
  {
    hide CopyLoop, SameOutside;
    var d := CopyLoop(c, src, dst, left).0;
    if dst == src {
      CopyOntoItselfErases(c, src, left);
      SameSize(c, d, src, src + left);
      Shifted(c.cells, src, d.cells, dst, left);
    } else if src < dst < src + left {
      CopyUpwardsRepeats(c, src, dst, left);
      Shifted(c.cells, src, d.cells, dst, left);
    } else {
      CopyLoopCorrect(c, src, dst, left);
      SameSize(c, d, dst, dst + left);
      SlicesAgree(d.cells, dst, c.cells, src, left);
    }
  }

  ghost predicate SameBytes(s: seq<Byte>, i: nat, t: seq<Byte>, k: nat, n: nat)
    requires i + n <= |s| && k + n <= |t|
  {
    forall x :: i <= x < i + n ==> s[x] == t[x - i + k]
  }

  /** The same comparison, by the places of the other sequence. */
  lemma Shifted(t: seq<Byte>, k: nat, s: seq<Byte>, i: nat, n: nat)
    requires i + n <= |s| && k + n <= |t|
    ensures SameBytes(s, i, t, k, n) <==> SameBytes(t, k, s, i, n)
  {
    if SameBytes(s, i, t, k, n) {
      forall y | k <= y < k + n ensures t[y] == s[y - k + i] {
        assert s[y - k + i] == t[y];
      }
    }
    if SameBytes(t, k, s, i, n) {
      forall x | i <= x < i + n ensures s[x] == t[x - i + k] {
        assert t[x - i + k] == s[x];
      }
    }
  }

  lemma SameSize(c: Chip, d: Chip, lo: int, hi: int)
    requires SameOutside(c, d, lo, hi)
    ensures |c.cells| == |d.cells|
  {}

  lemma SlicesAgree(s: seq<Byte>, i: nat, t: seq<Byte>, k: nat, n: nat)
    requires i + n <= |s| && k + n <= |t| && s[i..i + n] == t[k..k + n]
    ensures SameBytes(s, i, t, k, n)
  {
    forall x | i <= x < i + n ensures s[x] == t[x - i + k] {
      assert s[x] == s[i..i + n][x - i] == t[k..k + n][x - i];
    }
  }

  /** Whatever the addresses, nothing changes in front of the first destination sector or behind the last byte
      written. */
  lemma {:induction false} CopyFrame(c: Chip, saddr: nat, daddr: nat, left: nat)
    requires left % SECTOR == 0
    ensures SameOutside(c, CopyLoop(c, saddr, daddr, left).0, daddr / SECTOR * SECTOR, daddr + left)
    decreases left
  {
    hide EraseSector, Read, Program, CopyLoop, SameOutside;
    if left == 0 {
      CopyNothing(c, saddr, daddr);
      Outward(c, c, daddr, daddr, daddr / SECTOR * SECTOR, daddr);
    } else {
      var lo := daddr / SECTOR * SECTOR;
      assert lo <= (daddr + SECTOR) / SECTOR * SECTOR;
      var (first, res) := CopyOne(c, saddr, daddr);
      CopyFirstIs(c, saddr, daddr, left);
      CopyOneFrame(c, saddr, daddr);
      Outward(c, first, lo, daddr + SECTOR, lo, daddr + left);
      if res == 0 {
        CopyFrame(first, saddr + SECTOR, daddr + SECTOR, left - SECTOR);
        var d := CopyLoop(first, saddr + SECTOR, daddr + SECTOR, left - SECTOR).0;
        Outward(first, d, (daddr + SECTOR) / SECTOR * SECTOR, daddr + left, lo, daddr + left);
        OutsideTwice(c, first, d, lo, daddr + left);
      }
    }
  }

  lemma CopyOneFrame(c: Chip, saddr: nat, daddr: nat)
    ensures var (first, res) := CopyOne(c, saddr, daddr);
            && SameOutside(c, first, daddr / SECTOR * SECTOR, daddr + SECTOR)
            && (res == 0 ==> daddr <= |first.cells|)
            && (res == 0 ==> forall k :: daddr / SECTOR * SECTOR <= k < daddr ==> first.cells[k] == 0xff)
  {}

  lemma Outward(c: Chip, d: Chip, lo: int, hi: int, lo': int, hi': int)
    requires SameOutside(c, d, lo, hi) && lo' <= lo && hi <= hi'
    ensures SameOutside(c, d, lo', hi')
  {}

  lemma OutsideTwice(c: Chip, d: Chip, e: Chip, lo: int, hi: int)
    requires SameOutside(c, d, lo, hi) && SameOutside(d, e, lo, hi)
    ensures SameOutside(c, e, lo, hi)
  {}

  // ---- Any two addresses ----

  /** Byte k of the data read from the source. What is read may be erased at that moment, or written before. */
  function Fetched(c: Chip, src: nat, dst: nat, k: nat): Byte
    requires src + k < |c.cells|
    decreases k, 0
  {
    var p := src + k;
    var base := dst / SECTOR * SECTOR;
    var erasing := base + k / SECTOR * SECTOR;
    if erasing <= p < erasing + SECTOR then 0xff
    else if base <= p < erasing then (if p < dst then 0xff else Settled(c, src, dst, p - dst))
    else c.cells[p]
  }

  /** Byte m of a sector that was followed by another: the next erase blanks its end if the destination is unaligned. */
  function Settled(c: Chip, src: nat, dst: nat, m: nat): Byte
    requires src + m < |c.cells|
    decreases m, 1
  {
    if m % SECTOR < SECTOR - dst % SECTOR then Fetched(c, src, dst, m) else 0xff
  }

  /** Byte k of the destination in the end. The end of the last sector lands on flash that was not erased. */
  function Landed(c: Chip, src: nat, dst: nat, left: nat, k: nat): Byte
    requires src + k < |c.cells| && dst + k < |c.cells|
  {
    if k < left - SECTOR then Settled(c, src, dst, k)
    else if k % SECTOR < SECTOR - dst % SECTOR then Fetched(c, src, dst, k)
    else c.cells[dst + k] & Fetched(c, src, dst, k)
  }

  /** The sector in which the destination starts is blank in front of it, and behind that every byte is as computed. */
  ghost predicate Lands(c: Chip, d: Chip, src: nat, dst: nat, left: nat) {
    && |d.cells| == |c.cells| && src + left <= |c.cells| && dst + left <= |c.cells|
    && (forall i :: dst / SECTOR * SECTOR <= i < dst ==> d.cells[i] == 0xff)
    && (forall i :: dst <= i < dst + left ==> d.cells[i] == Landed(c, src, dst, left, i - dst))
  }

  /** What one turn of the loop leaves, for any two addresses. */
  ghost predicate Turned(c: Chip, first: Chip, src: nat, dst: nat) {
    var base := dst / SECTOR * SECTOR;
    && |first.cells| == |c.cells| && src + SECTOR <= |c.cells| && dst + SECTOR <= |c.cells|
    && (forall i :: 0 <= i < |c.cells| && !(base <= i < dst + SECTOR) ==> first.cells[i] == c.cells[i])
    && (forall i :: base <= i < dst ==> first.cells[i] == 0xff)
    && (forall i :: dst <= i < base + SECTOR ==> first.cells[i] == Fetched(c, src, dst, i - dst))
    && (forall i :: base + SECTOR <= i < dst + SECTOR ==> first.cells[i] == c.cells[i] & Fetched(c, src, dst, i - dst))
  }

  lemma FetchedFirst(c: Chip, src: nat, dst: nat, k: nat)
    requires src + k < |c.cells| && k < SECTOR
    ensures Fetched(c, src, dst, k) ==
            if dst / SECTOR * SECTOR <= src + k < dst / SECTOR * SECTOR + SECTOR then 0xff else c.cells[src + k]
  {}

  lemma TurnTurns(c: Chip, src: nat, dst: nat)
    requires CopyOne(c, src, dst).1 == 0
    ensures Turned(c, CopyOne(c, src, dst).0, src, dst)
  {
    hide Fetched, EraseSector, Read, Program;
    var erased := EraseSector(c, dst / SECTOR).0;
    var (read, data) := Read(erased, src, SECTOR);
    var first := Program(read, dst, data.value).0;
    forall i | dst <= i < dst + SECTOR
      ensures first.cells[i] == erased.cells[i] & Fetched(c, src, dst, i - dst)
      ensures i < dst / SECTOR * SECTOR + SECTOR ==> first.cells[i] == Fetched(c, src, dst, i - dst)
    {
      FetchedFirst(c, src, dst, i - dst);
      assert data.value[i - dst] == erased.cells[src + (i - dst)];
      AndErased(Fetched(c, src, dst, i - dst));
    }
  }

  lemma TurnedSize(c: Chip, first: Chip, src: nat, dst: nat)
    requires Turned(c, first, src, dst)
    ensures |first.cells| == |c.cells|
  {}

  lemma NextPlaces(dst: nat, k: nat)
    ensures (dst + SECTOR) / SECTOR * SECTOR == dst / SECTOR * SECTOR + SECTOR
    ensures (dst + SECTOR) % SECTOR == dst % SECTOR
    ensures (k + SECTOR) / SECTOR == k / SECTOR + 1 && (k + SECTOR) % SECTOR == k % SECTOR
  {}

  lemma FetchedIs(c: Chip, src: nat, dst: nat, k: nat, base: nat, erasing: nat)
    requires src + k < |c.cells| && base == dst / SECTOR * SECTOR && erasing == base + k / SECTOR * SECTOR
    ensures Fetched(c, src, dst, k) ==
            if erasing <= src + k < erasing + SECTOR then 0xff
            else if dst <= src + k < erasing then Settled(c, src, dst, src + k - dst)
            else if base <= src + k < erasing then 0xff
            else c.cells[src + k]
  {
    hide Settled;
  }

  /** After the first turn the rest of the loop fetches what the whole loop does. */
  lemma {:induction false} FetchedNext(c: Chip, first: Chip, src: nat, dst: nat, m: nat)
    requires Turned(c, first, src, dst) && src + SECTOR + m < |c.cells|
    ensures |first.cells| == |c.cells|
    ensures Fetched(first, src + SECTOR, dst + SECTOR, m) == Fetched(c, src, dst, m + SECTOR)
    decreases m
  {
    hide Fetched, Turned;
    TurnedSize(c, first, src, dst);
    NextPlaces(dst, m);
    var p, base := src + SECTOR + m, dst / SECTOR * SECTOR;
    var erasing := base + SECTOR + m / SECTOR * SECTOR;
    FetchedIs(first, src + SECTOR, dst + SECTOR, m, base + SECTOR, erasing);
    FetchedIs(c, src, dst, m + SECTOR, base, erasing);
    if dst + SECTOR <= p < erasing {
      FetchedNext(c, first, src, dst, p - dst - SECTOR);
      NextPlaces(dst, p - dst - SECTOR);
    } else if !(erasing <= p < erasing + SECTOR) {
      FirstAt(c, first, src, dst, p);
    }
  }

  /** What the first turn leaves in front of its end. */
  lemma FirstAt(c: Chip, first: Chip, src: nat, dst: nat, p: nat)
    requires Turned(c, first, src, dst) && p < |c.cells|
    ensures var base := dst / SECTOR * SECTOR;
            && (base <= p < dst ==> first.cells[p] == 0xff)
            && (dst <= p < base + SECTOR ==> first.cells[p] == Settled(c, src, dst, p - dst))
            && (p < base || dst + SECTOR <= p ==> first.cells[p] == c.cells[p])
            && (dst <= p < dst + SECTOR && base + SECTOR <= p ==> Settled(c, src, dst, p - dst) == 0xff)
  {
    hide Fetched;
  }

  lemma SettledNext(c: Chip, first: Chip, src: nat, dst: nat, m: nat)
    requires Turned(c, first, src, dst) && src + SECTOR + m < |c.cells|
    ensures |first.cells| == |c.cells|
    ensures Settled(first, src + SECTOR, dst + SECTOR, m) == Settled(c, src, dst, m + SECTOR)
  {
    hide Fetched, Turned;
    FetchedNext(c, first, src, dst, m);
    NextPlaces(dst, m);
  }

  lemma LandsOne(c: Chip, d: Chip, src: nat, dst: nat)
    requires Turned(c, d, src, dst)
    ensures Lands(c, d, src, dst, SECTOR)
  {
    hide Fetched;
  }

  lemma LandsAt(c: Chip, first: Chip, d: Chip, src: nat, dst: nat, left: nat, i: nat)
    requires left % SECTOR == 0 && SECTOR < left && dst <= i < dst + left
    requires Turned(c, first, src, dst) && Lands(first, d, src + SECTOR, dst + SECTOR, left - SECTOR)
    requires SameOutside(first, d, (dst + SECTOR) / SECTOR * SECTOR, dst + left)
    ensures d.cells[i] == Landed(c, src, dst, left, i - dst)
  {
    hide Fetched;
    var k := i - dst;
    if k >= SECTOR {
      SettledNext(c, first, src, dst, k - SECTOR);
      FetchedNext(c, first, src, dst, k - SECTOR);
      hide Settled;
      NextPlaces(dst, k - SECTOR);
      assert d.cells[i] == Landed(first, src + SECTOR, dst + SECTOR, left - SECTOR, k - SECTOR);
    }
  }

  lemma LandsFront(c: Chip, first: Chip, d: Chip, src: nat, dst: nat, left: nat)
    requires left % SECTOR == 0 && SECTOR < left
    requires Turned(c, first, src, dst) && Lands(first, d, src + SECTOR, dst + SECTOR, left - SECTOR)
    requires SameOutside(first, d, (dst + SECTOR) / SECTOR * SECTOR, dst + left)
    ensures |d.cells| == |c.cells| && src + left <= |c.cells| && dst + left <= |c.cells|
    ensures forall i :: dst / SECTOR * SECTOR <= i < dst ==> d.cells[i] == 0xff
  {
    hide Fetched, Landed;
    NextPlaces(dst, 0);
  }

  lemma LandsJoin(c: Chip, first: Chip, d: Chip, src: nat, dst: nat, left: nat)
    requires left % SECTOR == 0 && SECTOR < left
    requires Turned(c, first, src, dst) && Lands(first, d, src + SECTOR, dst + SECTOR, left - SECTOR)
    requires SameOutside(first, d, (dst + SECTOR) / SECTOR * SECTOR, dst + left)
    ensures Lands(c, d, src, dst, left)
  {
    hide Landed, Turned;
    LandsFront(c, first, d, src, dst, left);
    forall i | dst <= i < dst + left
      ensures d.cells[i] == Landed(c, src, dst, left, i - dst)
    {
      LandsAt(c, first, d, src, dst, left, i);
    }
  }

  /** What a successful copy leaves, for any two addresses: aligned or not, overlapping or not. */
  lemma {:induction false} CopyLands(c: Chip, src: nat, dst: nat, left: nat)
    requires left % SECTOR == 0 && 0 < left && CopyLoop(c, src, dst, left).1 == 0
    ensures var d := CopyLoop(c, src, dst, left).0;
            Lands(c, d, src, dst, left) && SameOutside(c, d, dst / SECTOR * SECTOR, dst + left)
    decreases left
  {
    hide CopyOne, CopyLoop, Lands, Turned;
    CopyFirstIs(c, src, dst, left);
    CopyFrame(c, src, dst, left);
    var first := CopyOne(c, src, dst).0;
    TurnTurns(c, src, dst);
    if left == SECTOR {
      CopyNothing(first, src + SECTOR, dst + SECTOR);
      LandsOne(c, first, src, dst);
    } else {
      CopyLands(first, src + SECTOR, dst + SECTOR, left - SECTOR);
      LandsJoin(c, first, CopyLoop(first, src + SECTOR, dst + SECTOR, left - SECTOR).0, src, dst, left);
    }
  }

  /** So it is a true copy exactly if every byte computed from the old contents is the one at the source. */
  lemma CopyTrueExactly(c: Chip, src: nat, dst: nat, left: nat)
    requires left % SECTOR == 0 && 0 < left && CopyLoop(c, src, dst, left).1 == 0
    ensures var d := CopyLoop(c, src, dst, left).0;
            && src + left <= |c.cells| && dst + left <= |d.cells| == |c.cells|
            && (SameBytes(d.cells, dst, c.cells, src, left) <==>
                forall k :: 0 <= k < left ==> Landed(c, src, dst, left, k) == c.cells[src + k])
  {
    hide CopyLoop, Landed;
    CopyLands(c, src, dst, left);
    var d := CopyLoop(c, src, dst, left).0;
    if SameBytes(d.cells, dst, c.cells, src, left) {
      forall k | 0 <= k < left ensures Landed(c, src, dst, left, k) == c.cells[src + k] {
        assert d.cells[dst + k] == c.cells[dst + k - dst + src];
      }
    }
  }

  /** With the source apart from all that is touched, that is: the bytes of the source meant for the front of a sector
      that is erased later are 0xff, and those that land on flash never erased have no bit that is clear there. */
  lemma ApartExact(c: Chip, src: nat, dst: nat, left: nat)
    requires left % SECTOR == 0 && 0 < left && CopyLoop(c, src, dst, left).1 == 0
    requires src + left <= dst / SECTOR * SECTOR || dst + left <= src
    ensures var d := CopyLoop(c, src, dst, left).0;
            && src + left <= |c.cells| && dst + left <= |d.cells| == |c.cells|
            && (SameBytes(d.cells, dst, c.cells, src, left) <==>
                forall k :: 0 <= k < left && k % SECTOR >= SECTOR - dst % SECTOR ==>
                  if k < left - SECTOR then c.cells[src + k] == 0xff
                  else c.cells[dst + k] & c.cells[src + k] == c.cells[src + k])
  {
    hide CopyLoop, Landed;
    CopyTrueExactly(c, src, dst, left);
    CopyLands(c, src, dst, left);
    if forall k :: 0 <= k < left ==> Landed(c, src, dst, left, k) == c.cells[src + k] {
      forall k | 0 <= k < left && k % SECTOR >= SECTOR - dst % SECTOR
        ensures if k < left - SECTOR then c.cells[src + k] == 0xff
                else c.cells[dst + k] & c.cells[src + k] == c.cells[src + k]
      {
        LandedApart(c, src, dst, left, k);
      }
    } else {
      var k :| 0 <= k < left && Landed(c, src, dst, left, k) != c.cells[src + k];
      LandedApart(c, src, dst, left, k);
    }
  }

  lemma LandedApart(c: Chip, src: nat, dst: nat, left: nat, k: nat)
    requires k < left && left % SECTOR == 0 && src + left <= |c.cells| && dst + left <= |c.cells|
    requires src + left <= dst / SECTOR * SECTOR || dst + left <= src
    ensures Landed(c, src, dst, left, k) ==
            if k % SECTOR < SECTOR - dst % SECTOR then c.cells[src + k]
            else if k < left - SECTOR then 0xff
            else c.cells[dst + k] & c.cells[src + k]
  {
    assert Fetched(c, src, dst, k) == c.cells[src + k];
    hide Fetched;
  }

  /** An even destination that is not sector aligned passes the check, but from the second sector on every erase
      destroys the end of what was copied before. The copy is a true one only of a source that is blank there. */
  lemma UnalignedCopyErases(c: Chip, src: nat, dst: nat, left: nat)
    requires left % SECTOR == 0 && 2 * SECTOR <= left && dst % SECTOR != 0
    requires CopyLoop(c, src, dst, left).1 == 0
    ensures var d := CopyLoop(c, src, dst, left).0;
            var end := SECTOR - dst % SECTOR;
            && src + left <= |c.cells| && dst + left <= |d.cells|
            && (forall k :: 0 <= k < left - SECTOR && k % SECTOR >= end ==> d.cells[dst + k] == 0xff)
            && (SameBytes(d.cells, dst, c.cells, src, left) ==>
                forall k :: 0 <= k < left - SECTOR && k % SECTOR >= end ==> c.cells[src + k] == 0xff)
  {
    hide CopyLoop, Fetched;
    CopyLands(c, src, dst, left);
    CopyTrueExactly(c, src, dst, left);
    var d := CopyLoop(c, src, dst, left).0;
    forall k | 0 <= k < left - SECTOR && k % SECTOR >= SECTOR - dst % SECTOR
      ensures d.cells[dst + k] == Landed(c, src, dst, left, k) == 0xff
    {
      assert dst <= dst + k < dst + left;
    }
  }

  // ---- When a copy succeeds ----

  /** One turn: which operation failed, if any. */
  lemma TurnExact(c: Chip, src: nat, dst: nat)
    ensures var (first, res) := CopyOne(c, src, dst);
            && Continues(c, first) && c.tick < first.tick <= c.tick + 3
            && (res == 0 <==> src + SECTOR <= |c.cells| && dst + SECTOR <= |c.cells| && Unfailed(c, first))
            && (res == 0 ==> first.tick == c.tick + 3)
            && (res != 0 ==> res == first.tick - c.tick + 1)
  {
    hide EraseSector, Read, Program;
    var (erased, erasedOk) := EraseSector(c, dst / SECTOR);
    EraseExact(c, dst / SECTOR);
    if erasedOk {
      var (read, data) := Read(erased, src, SECTOR);
      ReadExact(erased, src, SECTOR);
      UnfailedTwice(c, erased, read);
      if data.Some? {
        ProgramExact(read, dst, data.value);
        UnfailedTwice(c, read, Program(read, dst, data.value).0);
      }
    }
  }

  /** Exactly when a copy succeeds, for any two addresses: if both regions are on the chip and no operation fails. The
      error code otherwise tells whether the last operation was an erase, a read or a write. */
  lemma {:induction false} CopySucceeds(c: Chip, src: nat, dst: nat, left: nat)
    requires left % SECTOR == 0
    ensures var (d, res) := CopyLoop(c, src, dst, left);
            && Continues(c, d)
            && (res == 0 <==> (left == 0 || (src + left <= |c.cells| && dst + left <= |c.cells|)) && Unfailed(c, d))
            && (res != 0 ==> c.tick < d.tick && res == (d.tick - c.tick - 1) % 3 + 2)
    decreases left
  {
    hide CopyOne, CopyLoop;
    if left == 0 {
      CopyNothing(c, src, dst);
    } else {
      TurnExact(c, src, dst);
      CopyFirstIs(c, src, dst, left);
      var (first, res) := CopyOne(c, src, dst);
      if res == 0 {
        CopySucceeds(first, src + SECTOR, dst + SECTOR, left - SECTOR);
        UnfailedTwice(c, first, CopyLoop(first, src + SECTOR, dst + SECTOR, left - SECTOR).0);
      }
    }
  }

  /** The same of the whole: odd addresses are refused and nothing is touched. */
  lemma CopyRawExact(c: Chip, src: nat, dst: nat, size: nat)
    ensures var (d, res) := CopyRawSpec(c, src, dst, size);
            var left := RoundUp32(size);
            && (res == 1 <==> src % 2 == 1 || dst % 2 == 1) && (res == 1 ==> d == c)
            && (res == 0 <==>
                 && src % 2 == 0 && dst % 2 == 0 && Unfailed(c, d)
                 && (left == 0 || (src + left <= |c.cells| && dst + left <= |c.cells|)))
  {
    hide CopyLoop, RoundUp32;
    CopySucceeds(c, src, dst, RoundUp32(size));
  }

  // ---- Dispatch ----

  datatype Outcome = Outcome(chip: Chip, rtc: Record, res: int, loadsFrom: Option<nat>)

  /** Power-up: `loadsFrom` is the flash address whose application is started, if any. */
  function Boot(chip0: Chip, rtc: Record): Outcome {
    var chip := chip0.(tick := chip0.tick + 1);
    if !BootAccepts(rtc) then Outcome(chip, rtc, 9, Some(0))
    else if rtc[1] == ACTION_COPY_RAW then
      var (copied, res) := CopyRawSpec(chip, ToNat(rtc[2]), ToNat(rtc[3]), ToNat(rtc[4]));
      Outcome(copied, Cleared(rtc), res, if res == 0 then Some(ToNat(rtc[3])) else None)
    else Outcome(chip, Cleared(rtc), 9, if rtc[1] == ACTION_LOAD_APP then Some(ToNat(rtc[2])) else None)
  }

  /** What is started after power-up, and what is left of flash and command: without an accepted record the application
      at 0, with nothing changed; a load command starts the address in its first argument; a copy command starts its
      destination exactly if the copy succeeds; any other action starts nothing. */
  lemma BootLoads(chip0: Chip, rtc: Record)
    ensures var o := Boot(chip0, rtc);
            && (!BootAccepts(rtc) ==> o.loadsFrom == Some(0) && o.rtc == rtc && o.chip.cells == chip0.cells)
            && (BootAccepts(rtc) ==> o.rtc == Cleared(rtc))
            && (!BootAccepts(rtc) || rtc[1] != [1, 0, 0, 0] ==> o.res == 9)
            && (BootAccepts(rtc) && rtc[1] == [0xff, 0xff, 0xff, 0xff] ==>
                 o.loadsFrom == Some(ToNat(rtc[2])) && o.chip.cells == chip0.cells)
            && (BootAccepts(rtc) && rtc[1] == [1, 0, 0, 0] ==>
                 (o.loadsFrom == Some(ToNat(rtc[3])) || o.loadsFrom == None) &&
                 (o.loadsFrom.Some? <==>
                   var src, dst, left := ToNat(rtc[2]), ToNat(rtc[3]), RoundUp32(ToNat(rtc[4]));
                   && src % 2 == 0 && dst % 2 == 0 && Unfailed(chip0.(tick := chip0.tick + 1), o.chip)
                   && (left == 0 || (src + left <= |chip0.cells| && dst + left <= |chip0.cells|))))
            && (BootAccepts(rtc) && rtc[1] !in {[0xff, 0xff, 0xff, 0xff], [1, 0, 0, 0]} ==>
                 o.loadsFrom == None && o.chip.cells == chip0.cells)
  {
    hide BootAccepts, Cleared, ToNat, RoundUp32, CopyRawSpec;
    CopyRawExact(chip0.(tick := chip0.tick + 1), ToNat(rtc[2]), ToNat(rtc[3]), ToNat(rtc[4]));
  }

  method Start(chip0: Chip, mem: array<Word>) returns (o: Outcome)
    requires mem.Length == WORD_COUNT
    modifies mem
    ensures o == Boot(chip0, old(mem[..])) && o.rtc == mem[..]
    ensures !BootAccepts(old(mem[..])) ==>
              o.loadsFrom == Some(0) && mem[..] == old(mem[..]) && o.chip.cells == chip0.cells
    ensures BootAccepts(old(mem[..])) ==> mem[..] == Cleared(old(mem[..]))
    ensures !BootAccepts(old(mem[..])) || old(mem[1]) != [1, 0, 0, 0] ==> o.res == 9
    ensures BootAccepts(old(mem[..])) && old(mem[1]) == [0xff, 0xff, 0xff, 0xff] ==>
              o.loadsFrom == Some(old(ToNat(mem[2]))) && o.chip.cells == chip0.cells
    ensures BootAccepts(old(mem[..])) && old(mem[1]) == [1, 0, 0, 0] ==>
              (o.loadsFrom == if o.res == 0 then Some(old(ToNat(mem[3]))) else None)
    ensures BootAccepts(old(mem[..])) && old(mem[1]) !in {[0xff, 0xff, 0xff, 0xff], [1, 0, 0, 0]} ==>
              o.loadsFrom == None && o.chip.cells == chip0.cells
  {
    hide CopyRawSpec, ToNat;
    var res := 9;
    var loadsFrom := None;
    var chip := Read(chip0, 0x1010, 4).0;
    var status, cmd := BootCommandRead(mem);
    ghost var rtc := mem[..];
    assert cmd == rtc == mem[..WORD_COUNT];
    var action, first := cmd[1], ToNat(cmd[2]);
    if status == 0 {
      CommandClear(mem);
      assert mem[..] == mem[..WORD_COUNT];
    } else {
      action := ACTION_LOAD_APP;
      first := 0;
    }
    if action == ACTION_COPY_RAW {
      chip, res := CopyRaw(chip, ToNat(cmd[2]), ToNat(cmd[3]), ToNat(cmd[4]));
      if res == 0 {
        action := ACTION_LOAD_APP;
        first := ToNat(cmd[3]);
      }
    }
    if action == ACTION_LOAD_APP {
      loadsFrom := Some(first);
    }
    o := Outcome(chip, mem[..], res, loadsFrom);
  }
}
