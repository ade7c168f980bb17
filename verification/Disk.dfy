/** The ATA driver: a device that may fail any command, and the sector transfers built on it. */
module Disk {
  import opened Bytes

  const SECTOR_SIZE: nat := 512

  /** The number of sectors that the 28-bit LBA registers can address. */
  const REACH: nat := 0x1000_0000

  type Sector = s: seq<byte> | |s| == SECTOR_SIZE witness seq(SECTOR_SIZE, i => 0)

  /** What happens to one command. A failing command has transferred `done` whole sectors before the
      failure; a failing write may also have left `debris` in the sector it was working on. */
  datatype Fault = Fine | Fails(done: nat, debris: Sector)

  /** A failing write that leaves debris in the first sector it was to write. */
  predicate Spoils(f: Fault) {
    f.Fails? && f.done == 0
  }

  /** What such a write leaves there. */
  function Debris(f: Fault): Sector {
    if f.Fails? then f.debris else Zeros(SECTOR_SIZE)
  }

  /** The LBA that the four address registers select; only the low nibble of the drive register counts. */
  function Address(lba0: byte, lba1: byte, lba2: byte, drive: byte): (lba: nat)
    ensures lba < REACH
  {
    lba0 as int + 0x100 * lba1 as int + 0x1_0000 * lba2 as int + 0x100_0000 * (drive as int % 16)
  }

  /** The sector count register holds 0 for 256. */
  function SectorCount(register: byte): nat {
    if register == 0 then 256 else register
  }

  /** The device. `faults(k)` decides the fate of the k-th command it is given. */
  class AtaDevice {
    var medium: seq<byte>
    var clock: nat
    const faults: nat -> Fault

    ghost predicate Valid()
      reads `medium
    {
      |medium| == REACH * SECTOR_SIZE
    }

    /** From now on no command fails. */
    ghost predicate Works()
      reads `clock
    {
      WorksFrom(clock)
    }

    /** No command has failed from the k-th on. */
    ghost predicate FineSince(k: nat)
      reads `clock
    {
      FineBetween(k, clock)
    }

    ghost predicate FineBetween(k: nat, l: nat) {
      forall i | k <= i < l :: faults(i).Fine?
    }

    /** The fate of `n` commands from the k-th on. */
    ghost predicate AllFine(k: nat, n: nat) {
      forall i | k <= i < k + n :: faults(i).Fine?
    }

    ghost predicate AllFail(k: nat, n: nat) {
      forall i | k <= i < k + n :: faults(i).Fails?
    }

    /** They fail after overwriting the first sector with `debris`. */
    ghost predicate AllSpoil(k: nat, n: nat, debris: Sector) {
      forall i | k <= i < k + n :: Spoils(faults(i)) && Debris(faults(i)) == debris
    }

    /** No command will fail from the k-th on. */
    ghost predicate WorksFrom(k: nat) {
      forall i | k <= i :: faults(i).Fine?
    }

    constructor (medium: seq<byte>, faults: nat -> Fault)
      requires |medium| == REACH * SECTOR_SIZE
      ensures Valid() && this.medium == medium && this.faults == faults && clock == 0
    {
      this.medium, this.faults, this.clock := medium, faults, 0;
    }

    /** READ SECTORS or READ MULTIPLE: `data` is what came through the data port. */
    method Read(count: byte, lba0: byte, lba1: byte, lba2: byte, drive: byte) returns (ok: bool, data: seq<byte>)
      requires Valid()
      modifies this`clock
      ensures var at := SECTOR_SIZE * Address(lba0, lba1, lba2, drive);
              at + |data| <= |medium| && data == medium[at..at + |data|]
      ensures |data| <= SECTOR_SIZE * SectorCount(count)
      ensures ok ==> |data| == SECTOR_SIZE * SectorCount(count)
      ensures clock == old(clock) + 1
      ensures Address(lba0, lba1, lba2, drive) + SectorCount(count) <= REACH ==> ok == faults(old(clock)).Fine?
    {
      var lba, n := Address(lba0, lba1, lba2, drive), SectorCount(count);
      var fault := faults(clock);
      clock := clock + 1;
      ok := fault.Fine? && lba + n <= REACH;
      var done := if ok then n else if fault.Fails? && fault.done < n && lba + fault.done <= REACH then fault.done else 0;
      data := medium[SECTOR_SIZE * lba..SECTOR_SIZE * (lba + done)];
    }

    /** WRITE SECTORS or WRITE MULTIPLE with `data` fed to the data port. */
    method Write(count: byte, lba0: byte, lba1: byte, lba2: byte, drive: byte, data: seq<byte>) returns (ok: bool)
      requires Valid() && |data| == SECTOR_SIZE * SectorCount(count)
      modifies this
      ensures Valid()
      ensures var at := SECTOR_SIZE * Address(lba0, lba1, lba2, drive);
              && (ok ==> at + |data| <= |medium| && medium == Splice(old(medium), at, data))
              && SameOutside(old(medium), medium, at, at + |data|)
      ensures clock == old(clock) + 1
      ensures Address(lba0, lba1, lba2, drive) + SectorCount(count) <= REACH ==>
                && ok == faults(old(clock)).Fine?
                && (Spoils(faults(old(clock))) ==>
                      medium == Splice(old(medium), SECTOR_SIZE * Address(lba0, lba1, lba2, drive), Debris(faults(old(clock)))))
    {
      var lba, n := Address(lba0, lba1, lba2, drive), SectorCount(count);
      var fault := faults(clock);
      clock := clock + 1;
      ok := fault.Fine? && lba + n <= REACH;
      if ok {
        medium := Splice(medium, SECTOR_SIZE * lba, data);
      } else if fault.Fails? && fault.done < n && lba + fault.done < REACH {
        medium := Splice(medium, SECTOR_SIZE * lba, data[..SECTOR_SIZE * fault.done] + fault.debris);
      }
    }
  }

  /** A device that works but for `n` commands, from the k-th on. */
  function Outage(k: nat, n: nat, fault: Fault): nat -> Fault {
    i => if k <= i < k + n then fault else Fine
  }

  /** Every pattern of failures that the driver's contracts speak of is that of some device. */
  lemma OutageIs(dev: AtaDevice, k: nat, n: nat, fault: Fault, start: nat)
    requires dev.faults == Outage(k, n, fault) && fault.Fails? && start <= k
    ensures dev.AllFine(start, k - start) && dev.AllFail(k, n) && dev.WorksFrom(k + n)
    ensures Spoils(fault) ==> dev.AllSpoil(k, n, Debris(fault))
  {
  }

  lemma SpoilIs(dev: AtaDevice, k: nat, n: nat, debris: Sector)
    requires dev.AllSpoil(k, n, debris) && n > 0
    ensures dev.AllSpoil(k, n, Debris(dev.faults(k))) && Debris(dev.faults(k)) == debris
  {
  }

  /** The two contents agree everywhere but in the window [lo, hi). */
  ghost predicate SameOutside(m: seq<byte>, m': seq<byte>, lo: nat, hi: nat) {
    && |m| == |m'|
    && (forall i | 0 <= i < lo && i < |m| :: m'[i] == m[i])
    && (forall i | hi <= i < |m| :: m'[i] == m[i])
  }

  /** The contents of LBA0, LBA1, LBA2 and the drive register for one address. */
  datatype Registers = Registers(lba0: byte, lba1: byte, lba2: byte, drive: byte)

  /** How the driver splits a 32-bit address; 0xE0 selects the master drive in LBA mode. */
  method SplitAddress(lba: nat) returns (r: Registers)
    requires lba < TWO32
    ensures Address(r.lba0, r.lba1, r.lba2, r.drive) == lba % REACH
    ensures lba < REACH ==> Address(r.lba0, r.lba1, r.lba2, r.drive) == lba
    ensures lba % 0x1000_0000 == r.lba0 + 256 * (r.lba1 + 256 * (r.lba2 + 256 * (r.drive - 0xE0))) && 0xE0 <= r.drive < 0xF0
  {
    SplitIsShift(lba);
    ghost var q1 := lba / 0x100;
    ghost var q2 := q1 / 0x100;
    ghost var q3 := q2 / 0x100;
    assert lba == lba % 0x100 + 0x100 * (q1 % 0x100) + 0x1_0000 * (q2 % 0x100) + 0x100_0000 * q3;
    DropHighNibble(lba, q3);
    r := Registers(lba % 0x100, lba / 0x100 % 0x100, lba / 0x1_0000 % 0x100, 0xE0 + lba / 0x100_0000 % 0x10);
  }

  lemma SplitIsShift(lba: nat)
    ensures lba / 0x1_0000 == lba / 0x100 / 0x100
    ensures lba / 0x100_0000 == lba / 0x100 / 0x100 / 0x100
  {
    var q1 := lba / 0x100;
    var q2 := q1 / 0x100;
    var q3 := q2 / 0x100;
    assert lba == 0x1_0000 * q2 + (0x100 * (q1 % 0x100) + lba % 0x100);
    assert lba == 0x100_0000 * q3 + (0x1_0000 * (q2 % 0x100) + 0x100 * (q1 % 0x100) + lba % 0x100);
  }

  lemma DropHighNibble(lba: nat, q3: nat)
    requires 0x100_0000 * q3 <= lba < 0x100_0000 * (q3 + 1)
    ensures lba % REACH == lba - 0x100_0000 * q3 + 0x100_0000 * (q3 % 0x10)
  {
    assert lba == REACH * (q3 / 0x10) + (lba - 0x100_0000 * q3 + 0x100_0000 * (q3 % 0x10));
  }

  /** The reference: n sectors written one after the other. */
  ghost function OneByOne(m: seq<byte>, lba: nat, data: seq<byte>, n: nat): (r: seq<byte>)
    requires |data| == SECTOR_SIZE * n && SECTOR_SIZE * (lba + n) <= |m|
    ensures |r| == |m|
    decreases n
  {
    if n == 0 then m
    else OneByOne(Splice(m, SECTOR_SIZE * lba, data[..SECTOR_SIZE]), lba + 1, data[SECTOR_SIZE..], n - 1)
  }

  lemma {:induction false} OneByOneIsSplice(m: seq<byte>, lba: nat, data: seq<byte>, n: nat)
    requires |data| == SECTOR_SIZE * n && SECTOR_SIZE * (lba + n) <= |m|
    ensures OneByOne(m, lba, data, n) == Splice(m, SECTOR_SIZE * lba, data)
    decreases n
  {
    if n > 0 {
      var first, rest := data[..SECTOR_SIZE], data[SECTOR_SIZE..];
      OneByOneIsSplice(Splice(m, SECTOR_SIZE * lba, first), lba + 1, rest, n - 1);
      SpliceJoin(m, SECTOR_SIZE * lba, first, rest);
      assert first + rest == data;
    } else {
      assert Splice(m, SECTOR_SIZE * lba, data) == m;
    }
  }

  /** What an earlier failed attempt left inside the window does not survive writing the window. */
  lemma SpliceForgets(m: seq<byte>, m': seq<byte>, at: nat, data: seq<byte>)
    requires at + |data| <= |m| && SameOutside(m, m', at, at + |data|)
    ensures Splice(m', at, data) == Splice(m, at, data)
  {
  }

  lemma SpoiledTwice(m: seq<byte>, at: nat, debris: Sector)
    requires at + SECTOR_SIZE <= |m|
    ensures Splice(Splice(m, at, debris), at, debris) == Splice(m, at, debris)
  {
  }

  /** How many commands must fail for a transfer of `n` sectors to fail: the multi-sector command and then the first
      single one. */
  function Attempts(n: nat): nat {
    if 1 < n <= 256 then 2 else 1
  }

  /** disk_read_sector: one sector into `buffer` at `off`. */
  method ReadSector(dev: AtaDevice, lba: nat, buffer: array<byte>, off: nat) returns (result: int)
    requires dev.Valid() && lba < REACH && off + SECTOR_SIZE <= buffer.Length
    modifies dev`clock, buffer
    ensures dev.clock == old(dev.clock) + 1 && (result == 0 <==> dev.faults(old(dev.clock)).Fine?)
    ensures SameOutside(old(buffer[..]), buffer[..], off, off + SECTOR_SIZE)
    ensures result == 0 ==> buffer[off..off + SECTOR_SIZE] == dev.medium[SECTOR_SIZE * lba..SECTOR_SIZE * (lba + 1)]
  {
    var r := SplitAddress(lba);
    var ok, data := dev.Read(1, r.lba0, r.lba1, r.lba2, r.drive);
    if !ok { return -3; }
    forall i | 0 <= i < SECTOR_SIZE { buffer[off + i] := data[i]; }
    return 0;
  }

  /** disk_write_sector. */
  method WriteSector(dev: AtaDevice, lba: nat, buffer: array<byte>, off: nat) returns (result: int)
    requires dev.Valid() && lba < REACH && off + SECTOR_SIZE <= buffer.Length
    modifies dev
    ensures dev.Valid() && dev.clock == old(dev.clock) + 1 && (result == 0 <==> dev.faults(old(dev.clock)).Fine?)
    ensures SameOutside(old(dev.medium), dev.medium, SECTOR_SIZE * lba, SECTOR_SIZE * (lba + 1))
    ensures result == 0 ==> dev.medium == Splice(old(dev.medium), SECTOR_SIZE * lba, buffer[off..off + SECTOR_SIZE])
    ensures Spoils(dev.faults(old(dev.clock))) ==>
              dev.medium == Splice(old(dev.medium), SECTOR_SIZE * lba, Debris(dev.faults(old(dev.clock))))
  {
    var r := SplitAddress(lba);
    var data := buffer[off..off + SECTOR_SIZE];
    assert Address(r.lba0, r.lba1, r.lba2, r.drive) == lba;
    var ok := dev.Write(1, r.lba0, r.lba1, r.lba2, r.drive, data);
    return if ok then 0 else -5;
  }

  /** The loop of disk_read_sectors_multi_pio over the sectors that came through the data port. */
  method CopySectors(buffer: array<byte>, data: seq<byte>, n: nat) returns (complete: bool)
    requires |data| <= SECTOR_SIZE * n <= buffer.Length
    modifies buffer
    ensures complete <==> |data| == SECTOR_SIZE * n
    ensures SameOutside(old(buffer[..]), buffer[..], 0, SECTOR_SIZE * n)
    ensures complete ==> buffer[..SECTOR_SIZE * n] == data
  {
    var sector := 0;
    while sector < n
      invariant 0 <= sector <= n && SECTOR_SIZE * sector <= |data|
      invariant SameOutside(old(buffer[..]), buffer[..], 0, SECTOR_SIZE * n)
      invariant buffer[..SECTOR_SIZE * sector] == data[..SECTOR_SIZE * sector]
    {
      if |data| < SECTOR_SIZE * (sector + 1) { return false; }
      forall i | SECTOR_SIZE * sector <= i < SECTOR_SIZE * (sector + 1) { buffer[i] := data[i]; }
      sector := sector + 1;
    }
    assert data[..SECTOR_SIZE * n] == data;
    return true;
  }

  /** disk_read_sectors_multi_pio; the count register receives the low byte of `n`. */
  method ReadSectorsMulti(dev: AtaDevice, lba: nat, buffer: array<byte>, n: nat) returns (result: int)
    requires dev.Valid() && n < TWO16 && lba + n <= REACH && lba < REACH && SECTOR_SIZE * n <= buffer.Length
    modifies dev`clock, buffer
    ensures n == 0 || n > 256 ==> result != 0 && dev.clock == old(dev.clock)
    ensures 0 < n <= 256 ==> dev.clock == old(dev.clock) + 1 && (result == 0 <==> dev.faults(old(dev.clock)).Fine?)
    ensures SameOutside(old(buffer[..]), buffer[..], 0, SECTOR_SIZE * n)
    ensures result == 0 ==> buffer[..SECTOR_SIZE * n] == dev.medium[SECTOR_SIZE * lba..SECTOR_SIZE * (lba + n)]
  {
    if n == 0 || n > 256 { return -1; }
    var r := SplitAddress(lba);
    assert SectorCount(n % 256) == n && Address(r.lba0, r.lba1, r.lba2, r.drive) == lba;
    var ok, data := dev.Read(n % 256, r.lba0, r.lba1, r.lba2, r.drive);
    var complete := CopySectors(buffer, data, n);
    if !complete { return -3; }
    return if ok then 0 else -3;
  }

  /** disk_read_sectors: the multi-sector command when it applies, single sectors otherwise or after it failed. */
  method ReadSectors(dev: AtaDevice, lba: nat, buffer: array<byte>, n: nat) returns (result: int)
    requires dev.Valid() && n < TWO16 && lba + n <= REACH && SECTOR_SIZE * n <= buffer.Length
    modifies dev`clock, buffer
    ensures dev.clock >= old(dev.clock) && (n == 0 ==> result != 0)
    ensures n > 0 && dev.FineSince(old(dev.clock)) ==> result == 0
    ensures 0 < n <= 256 && dev.faults(old(dev.clock)).Fine? ==> result == 0 && dev.clock == old(dev.clock) + 1
    ensures n > 0 && dev.AllFail(old(dev.clock), Attempts(n)) ==>
              result != 0 && dev.clock == old(dev.clock) + Attempts(n)
    ensures SameOutside(old(buffer[..]), buffer[..], 0, SECTOR_SIZE * n)
    ensures result == 0 ==> buffer[..SECTOR_SIZE * n] == dev.medium[SECTOR_SIZE * lba..SECTOR_SIZE * (lba + n)]
  {
    if n == 0 { return -1; }
    if 1 < n <= 256 {
      result := ReadSectorsMulti(dev, lba, buffer, n);
      if result == 0 { return 0; }
    }
    result := ReadSectorsSingly(dev, lba, buffer, n);
  }

  /** The fallback loop of disk_read_sectors. */
  method ReadSectorsSingly(dev: AtaDevice, lba: nat, buffer: array<byte>, n: nat) returns (result: int)
    requires dev.Valid() && lba + n <= REACH && SECTOR_SIZE * n <= buffer.Length
    modifies dev`clock, buffer
    ensures dev.clock >= old(dev.clock) && (dev.FineSince(old(dev.clock)) ==> result == 0)
    ensures result == 0 ==> dev.clock == old(dev.clock) + n
    ensures n == 1 ==> (result == 0 <==> dev.faults(old(dev.clock)).Fine?)
    ensures n > 0 && dev.faults(old(dev.clock)).Fails? ==> result != 0 && dev.clock == old(dev.clock) + 1
    ensures SameOutside(old(buffer[..]), buffer[..], 0, SECTOR_SIZE * n)
    ensures result == 0 ==> buffer[..SECTOR_SIZE * n] == dev.medium[SECTOR_SIZE * lba..SECTOR_SIZE * (lba + n)]
  {
    var i := 0;
    while i < n
      invariant 0 <= i <= n && dev.clock == old(dev.clock) + i
      invariant forall k | old(dev.clock) <= k < dev.clock :: dev.faults(k).Fine?
      invariant SameOutside(old(buffer[..]), buffer[..], 0, SECTOR_SIZE * n)
      invariant buffer[..SECTOR_SIZE * i] == dev.medium[SECTOR_SIZE * lba..SECTOR_SIZE * (lba + i)]
    {
      ghost var before := buffer[..];
      result := ReadSector(dev, lba + i, buffer, SECTOR_SIZE * i);
      if result != 0 { return; }
      SliceJoin(dev.medium, SECTOR_SIZE * lba, SECTOR_SIZE * (lba + i), SECTOR_SIZE * (lba + i + 1));
      SliceJoin(buffer[..], 0, SECTOR_SIZE * i, SECTOR_SIZE * (i + 1));
      assert buffer[..SECTOR_SIZE * i] == before[..SECTOR_SIZE * i];
      i := i + 1;
    }
    return 0;
  }

  /** disk_write_sectors_multi_pio. */
  method WriteSectorsMulti(dev: AtaDevice, lba: nat, buffer: array<byte>, n: nat) returns (result: int)
    requires dev.Valid() && n < TWO16 && lba + n <= REACH && lba < REACH && SECTOR_SIZE * n <= buffer.Length
    modifies dev
    ensures dev.Valid()
    ensures n == 0 || n > 256 ==> result != 0 && dev.clock == old(dev.clock) && dev.medium == old(dev.medium)
    ensures 0 < n <= 256 ==> dev.clock == old(dev.clock) + 1 && (result == 0 <==> dev.faults(old(dev.clock)).Fine?)
    ensures SameOutside(old(dev.medium), dev.medium, SECTOR_SIZE * lba, SECTOR_SIZE * (lba + n))
    ensures result == 0 ==> dev.medium == Splice(old(dev.medium), SECTOR_SIZE * lba, buffer[..SECTOR_SIZE * n])
    ensures 0 < n <= 256 && Spoils(dev.faults(old(dev.clock))) ==>
              dev.medium == Splice(old(dev.medium), SECTOR_SIZE * lba, Debris(dev.faults(old(dev.clock))))
  {
    if n == 0 || n > 256 { return -1; }
    var r := SplitAddress(lba);
    var data := buffer[..SECTOR_SIZE * n];
    assert SectorCount(n % 256) == n && Address(r.lba0, r.lba1, r.lba2, r.drive) == lba;
    var ok := dev.Write(n % 256, r.lba0, r.lba1, r.lba2, r.drive, data);
    return if ok then 0 else -5;
  }

  /** disk_write_sectors: whatever the device did to a failed multi-sector command, a success leaves exactly
      what n one-sector writes leave. */
  method WriteSectors(dev: AtaDevice, lba: nat, buffer: array<byte>, n: nat) returns (result: int)
    requires dev.Valid() && n < TWO16 && lba + n <= REACH && SECTOR_SIZE * n <= buffer.Length
    modifies dev
    ensures dev.Valid() && dev.clock >= old(dev.clock) && (n == 0 ==> result != 0)
    ensures n > 0 && dev.FineSince(old(dev.clock)) ==> result == 0
    ensures SameOutside(old(dev.medium), dev.medium, SECTOR_SIZE * lba, SECTOR_SIZE * (lba + n))
    ensures result == 0 ==> dev.medium == Splice(old(dev.medium), SECTOR_SIZE * lba, buffer[..SECTOR_SIZE * n])
    ensures result == 0 ==> dev.medium == OneByOne(old(dev.medium), lba, buffer[..SECTOR_SIZE * n], n)
    ensures 0 < n <= 256 && dev.faults(old(dev.clock)).Fine? ==> result == 0 && dev.clock == old(dev.clock) + 1
    ensures n > 0 && dev.AllSpoil(old(dev.clock), Attempts(n), Debris(dev.faults(old(dev.clock)))) ==>
              && result != 0 && dev.clock == old(dev.clock) + Attempts(n)
              && dev.medium == Splice(old(dev.medium), SECTOR_SIZE * lba, Debris(dev.faults(old(dev.clock))))
  {
    OneByOneIsSplice(dev.medium, lba, buffer[..SECTOR_SIZE * n], n);
    if n == 0 { return -1; }
    if 1 < n <= 256 {
      result := WriteSectorsMulti(dev, lba, buffer, n);
      if result == 0 { return 0; }
    }
    SpliceForgets(old(dev.medium), dev.medium, SECTOR_SIZE * lba, buffer[..SECTOR_SIZE * n]);
    SpoiledTwice(old(dev.medium), SECTOR_SIZE * lba, Debris(dev.faults(old(dev.clock))));
    result := WriteSectorsSingly(dev, lba, buffer, n);
  }

  /** The fallback loop of disk_write_sectors. */
  method WriteSectorsSingly(dev: AtaDevice, lba: nat, buffer: array<byte>, n: nat) returns (result: int)
    requires dev.Valid() && lba + n <= REACH && SECTOR_SIZE * n <= buffer.Length
    modifies dev
    ensures dev.Valid() && dev.clock >= old(dev.clock) && (dev.FineSince(old(dev.clock)) ==> result == 0)
    ensures SameOutside(old(dev.medium), dev.medium, SECTOR_SIZE * lba, SECTOR_SIZE * (lba + n))
    ensures result == 0 ==> dev.medium == Splice(old(dev.medium), SECTOR_SIZE * lba, buffer[..SECTOR_SIZE * n])
    ensures result == 0 ==> dev.clock == old(dev.clock) + n
    ensures n == 1 ==> (result == 0 <==> dev.faults(old(dev.clock)).Fine?)
    ensures n > 0 && Spoils(dev.faults(old(dev.clock))) ==>
              && result != 0 && dev.clock == old(dev.clock) + 1
              && dev.medium == Splice(old(dev.medium), SECTOR_SIZE * lba, Debris(dev.faults(old(dev.clock))))
  {
    hide Splice;
    ghost var m := dev.medium;
    var i := 0;
    SpliceNothing(m, SECTOR_SIZE * lba);
    assert buffer[..0] == [];
    while i < n
      invariant 0 <= i <= n && dev.Valid() && |m| == |dev.medium| && dev.clock == old(dev.clock) + i
      invariant forall k | old(dev.clock) <= k < dev.clock :: dev.faults(k).Fine?
      invariant SameOutside(m, dev.medium, SECTOR_SIZE * lba, SECTOR_SIZE * (lba + n))
      invariant dev.medium == Splice(m, SECTOR_SIZE * lba, buffer[..SECTOR_SIZE * i])
    {
      result := WriteSector(dev, lba + i, buffer, SECTOR_SIZE * i);
      if result != 0 { return; }
      var head, next := buffer[..SECTOR_SIZE * i], buffer[SECTOR_SIZE * i..SECTOR_SIZE * (i + 1)];
      SpliceJoin(m, SECTOR_SIZE * lba, head, next);
      assert head + next == buffer[..SECTOR_SIZE * (i + 1)];
      i := i + 1;
    }
    return 0;
  }
}
