/** The SPI flash chip as NOR hardware: erasing sets a sector to 0xFF, programming can only clear bits.
    `fails(t)` says whether operation number `t` fails; a failed erase or program leaves arbitrary
    bytes (`junk`) in the range it was working on. A statement for all chips is one for all fault patterns. */
module Flash {
  import opened Numbers
  import opened Option

  const SECTOR: nat := 4096

  datatype Chip = Chip(cells: seq<Byte>, tick: nat, fails: nat -> bool, junk: (nat, nat) -> Byte)

  /** The two chips differ at most in [lo, hi). */
  ghost predicate SameOutside(c: Chip, d: Chip, lo: int, hi: int) {
    && |c.cells| == |d.cells|
    && c.fails == d.fails && c.junk == d.junk
    && forall i :: 0 <= i < |c.cells| && !(lo <= i < hi) ==> d.cells[i] == c.cells[i]
  }

  function EraseSector(c: Chip, sector: nat): (r: (Chip, bool))
    ensures SameOutside(c, r.0, sector * SECTOR, sector * SECTOR + SECTOR)
    ensures r.1 ==> sector * SECTOR + SECTOR <= |c.cells|
    ensures r.1 ==> forall i :: sector * SECTOR <= i < sector * SECTOR + SECTOR ==> r.0.cells[i] == 0xff
  {
    var lo := sector * SECTOR;
    var d := c.(tick := c.tick + 1);
    if lo + SECTOR > |c.cells| then (d, false)
    else if c.fails(c.tick) then
      (d.(cells := seq(|c.cells|, i requires 0 <= i < |c.cells| =>
        if lo <= i < lo + SECTOR then c.junk(c.tick, i) else c.cells[i])), false)
    else
      (d.(cells := seq(|c.cells|, i requires 0 <= i < |c.cells| =>
        if lo <= i < lo + SECTOR then 0xff else c.cells[i])), true)
  }

  function Program(c: Chip, addr: nat, data: seq<Byte>): (r: (Chip, bool))
    ensures SameOutside(c, r.0, addr, addr + |data|)
    ensures r.1 ==> addr + |data| <= |c.cells|
    ensures r.1 ==> forall i :: 0 <= i < |data| ==> r.0.cells[addr + i] == c.cells[addr + i] & data[i]
  {
    var d := c.(tick := c.tick + 1);
    if addr + |data| > |c.cells| then (d, false)
    else if c.fails(c.tick) then
      (d.(cells := seq(|c.cells|, i requires 0 <= i < |c.cells| =>
        if addr <= i < addr + |data| then c.junk(c.tick, i) else c.cells[i])), false)
    else
      (d.(cells := seq(|c.cells|, i requires 0 <= i < |c.cells| =>
        if addr <= i < addr + |data| then c.cells[i] & data[i - addr] else c.cells[i])), true)
  }

  function Read(c: Chip, addr: nat, n: nat): (r: (Chip, Option<seq<Byte>>))
    ensures r.0 == c.(tick := c.tick + 1)
    ensures r.1.Some? ==> addr + n <= |c.cells| && r.1.value == c.cells[addr..addr + n]
  {
    var d := c.(tick := c.tick + 1);
    if addr + n > |c.cells| || c.fails(c.tick) then (d, None) else (d, Some(c.cells[addr..addr + n]))
  }

  // ---- Failures ----

  /** The chip `d` is the chip `c` some operations later. */
  ghost predicate Continues(c: Chip, d: Chip) {
    c.fails == d.fails && c.tick <= d.tick && |c.cells| == |d.cells|
  }

  /** None of the operations in between failed. */
  ghost predicate Unfailed(c: Chip, d: Chip) {
    forall k :: c.tick <= k < d.tick ==> !c.fails(k)
  }

  /** No operation from now on fails. */
  ghost predicate Reliable(c: Chip) {
    forall k :: c.tick <= k ==> !c.fails(k)
  }

  lemma ReliableStays(c: Chip, d: Chip)
    requires Reliable(c) && Continues(c, d)
    ensures Unfailed(c, d) && Reliable(d)
  {}

  lemma UnfailedTwice(c: Chip, d: Chip, e: Chip)
    requires Continues(c, d) && Continues(d, e)
    ensures Continues(c, e) && (Unfailed(c, e) <==> Unfailed(c, d) && Unfailed(d, e))
  {}

  /** An operation within the chip succeeds exactly when it does not fail; one beyond it never succeeds. */
  lemma EraseExact(c: Chip, sector: nat)
    ensures var (d, ok) := EraseSector(c, sector);
            && Continues(c, d) && d.tick == c.tick + 1
            && (ok <==> sector * SECTOR + SECTOR <= |c.cells| && Unfailed(c, d))
  {}

  lemma ProgramExact(c: Chip, addr: nat, data: seq<Byte>)
    ensures var (d, ok) := Program(c, addr, data);
            && Continues(c, d) && d.tick == c.tick + 1
            && (ok <==> addr + |data| <= |c.cells| && Unfailed(c, d))
  {}

  lemma ReadExact(c: Chip, addr: nat, n: nat)
    ensures var (d, data) := Read(c, addr, n);
            && Continues(c, d) && d.tick == c.tick + 1
            && (data.Some? <==> addr + n <= |c.cells| && Unfailed(c, d))
  {}

  lemma AndErased(b: Byte)
    ensures 0xff & b == b
  {}

  /** Erase then program one sector: after success it starts with `data`, the rest of it is blank. */
  lemma EraseThenProgram(c: Chip, addr: nat, data: seq<Byte>)
    requires addr % SECTOR == 0 && |data| <= SECTOR
    requires EraseSector(c, addr / SECTOR).1
    requires Program(EraseSector(c, addr / SECTOR).0, addr, data).1
    ensures var d := Program(EraseSector(c, addr / SECTOR).0, addr, data).0;
            && addr + SECTOR <= |d.cells| && SameOutside(c, d, addr, addr + SECTOR)
            && d.cells[addr..addr + |data|] == data
            && forall i :: addr + |data| <= i < addr + SECTOR ==> d.cells[i] == 0xff
  {
    assert addr / SECTOR * SECTOR == addr;
    var e := EraseSector(c, addr / SECTOR).0;
    var d := Program(e, addr, data).0;
    forall i | 0 <= i < |data| ensures d.cells[addr + i] == data[i] {
      AndErased(data[i]);
    }
    forall i | addr + |data| <= i < addr + SECTOR ensures d.cells[i] == 0xff {
      assert !(addr <= i < addr + |data|);
    }
  }
}
