/** Mounting a volume again after its caches were written back. */
module Remounts {
  import opened Bytes
  import opened Disk
  import opened Geometry
  import opened Chains
  import opened Volumes
  import opened FatTable
  import opened Space
  import opened Outcomes
  import opened Paths
  import opened Fat12
  import opened Driver

  /** The sectors that a mount loads as the table hold the entries of the cached one. */
  ghost predicate TableOnDisk(fs: FileSystem)
    requires fs.Mounted() && fs.geo.baseLba + fs.geo.fatStart + fs.geo.sectorsPerFat <= REACH
    reads fs, fs.table, fs.table.bytes, fs.root, fs.dev`medium
  {
    var e := Entries(SectorsOf(fs.geo, fs.dev.medium, fs.geo.fatStart, fs.geo.sectorsPerFat), fs.geo.fatSize);
    Top(fs.geo) <= |e| && e[..Top(fs.geo)] == fs.View().fat
  }

  /** A mount shows the volume that the clean caches show. */
  ghost predicate Remountable(fs: FileSystem)
    requires fs.Mounted()
    reads fs, fs.table, fs.table.bytes, fs.root, fs.dev`medium
  {
    && AcceptedAt(fs.dev.medium, fs.geo.baseLba) == Accepted(fs.geo)
    && (fs.geo.numFats == 0 ==>
          fs.geo.baseLba + fs.geo.fatStart + fs.geo.sectorsPerFat <= REACH && TableOnDisk(fs))
  }

  /** After a flush, mounting again on a working disk gives the same layout and the same volume exactly when the boot sector
      is still the one of this layout, and, on a volume without FAT copies, when the sectors read in their place happen to
      hold the table. */
  method Remount(fs: FileSystem) returns (res: int, again: FileSystem)
    requires fs.Mounted() && !fs.rootDirty && !fs.table.dirty && VolumeInReach(fs.dev.medium, fs.geo.baseLba)
    modifies fs.dev`clock
    ensures fs.Mounted() && fs.View() == old(fs.View()) && again.dev == fs.dev
    ensures res == OK ==> again.Mounted() && again.tree == fs.tree
    ensures old(Remountable(fs)) ==> res == OK || res == ERR_IO
    ensures old(Remountable(fs)) && res == OK ==> again.geo == fs.geo && again.View() == fs.View()
    ensures old(Remountable(fs)) && res == OK && fs.mirrored ==> again.mirrored
    ensures fs.dev.FineSince(old(fs.dev.clock)) ==>
              (old(Remountable(fs)) <==> res == OK && again.geo == fs.geo && again.View() == fs.View())
  {
    hide ParseBpb, FileSystem.Synced, Reachable, Booted;
    again := new FileSystem(fs.dev);
    CleanOnDisk(fs);
    res := again.Init(fs.geo.baseLba, fs.tree);
    if fs.mirrored { CleanCopiesAgree(fs); }
  }

  lemma CleanCopiesAgree(fs: FileSystem)
    requires fs.Mounted() && !fs.table.dirty && fs.mirrored
    ensures forall k | 0 <= k < fs.geo.numFats :: FatCopy(fs.geo, fs.dev.medium, k) == FatCopy(fs.geo, fs.dev.medium, 0)
  {
  }

  lemma CleanOnDisk(fs: FileSystem)
    requires fs.Mounted() && !fs.rootDirty && !fs.table.dirty && VolumeInReach(fs.dev.medium, fs.geo.baseLba)
    ensures AcceptedAt(fs.dev.medium, fs.geo.baseLba) == Accepted(fs.geo) ==>
              (Remountable(fs) <==> DiskImage(fs.geo, fs.dev.medium) == fs.View())
  {
    hide Capacity;
    FatsInReach(fs.geo);
    if fs.geo.numFats > 0 {
      fs.CleanView();
    } else if AcceptedAt(fs.dev.medium, fs.geo.baseLba) == Accepted(fs.geo) {
      fs.ImageOfPrefixes();
      fs.ValuesBelowTop(0);
      assert RootCopy(fs.geo, fs.dev.medium) == fs.root[..fs.geo.rootDirSectors * SECTOR_SIZE];
    }
  }

  /** With a FAT copy, and a reserved sector that keeps it off the boot sector, nothing is lost. */
  lemma RegularIsRemountable(fs: FileSystem)
    requires fs.Mounted() && fs.geo.numFats > 0 && fs.geo.reservedSectors > 0
    ensures VolumeInReach(fs.dev.medium, fs.geo.baseLba) && Remountable(fs)
  {
  }

  /** A flush that succeeds and then a fresh mount rebuild the same volume, provided that it has a FAT copy to hold
      the table and a reserved area that keeps the FAT off the boot sector. */
  method FlushAndRemount(driver: Fat12Driver) returns (res: int, again: FileSystem)
    requires driver.Ready() && driver.fs.geo.numFats > 0 && driver.fs.geo.reservedSectors > 0
    modifies driver.fs`rootDirty, driver.fs`mirrored, driver.fs.table`dirty, driver.fs.dev
    ensures driver.fs.dev.FineSince(old(driver.fs.dev.clock)) ==> res == OK
    ensures driver.fs.Mounted() && driver.fs.View() == old(driver.fs.View())
    ensures res == OK ==> again.Whole({}) && again.dev == driver.fs.dev && again.geo == driver.fs.geo
    ensures res == OK && old(driver.fs.mirrored) ==> again.mirrored
    ensures res == OK ==> again.View() == old(driver.fs.View()) && again.tree == driver.fs.tree
  {
    hide WellFormed, PositionOk, FileSystem.View, FileSystem.Synced, Remountable, Reachable, Booted;
    driver.ReadyParts();
    res := driver.fs.Flush();
    if res != OK {
      again := new FileSystem(driver.fs.dev);
      return;
    }
    RegularIsRemountable(driver.fs);
    res, again := Remount(driver.fs);
  }

  // ---------------------------------------------------------------- the layouts that lose something

  /** Without reserved sectors the first FAT copy lies over the boot sector. */
  lemma FatOverBootSector(fs: FileSystem)
    requires fs.Mounted() && !fs.table.dirty && fs.geo.reservedSectors == 0 && fs.geo.numFats > 0
    ensures AcceptedAt(fs.dev.medium, fs.geo.baseLba) == Accept(ParseBpb(fs.table.bytes[..SECTOR_SIZE]), fs.geo.baseLba)
  {
    FirstFatCopy(fs.geo, fs.dev.medium);
    var at := SECTOR_SIZE * fs.geo.baseLba;
    assert fs.table.bytes[..fs.geo.fatSize] == FatCopy(fs.geo, fs.dev.medium, 0);
    assert fs.table.bytes[..fs.geo.fatSize][..SECTOR_SIZE] == fs.table.bytes[..SECTOR_SIZE];
    assert fs.dev.medium[at..at + fs.geo.fatSize][..SECTOR_SIZE] == fs.dev.medium[at..at + SECTOR_SIZE];
  }

  /** The boot sector lies under a table in which cluster 7 is taken. */
  ghost predicate Overlaid(fs: FileSystem)
    reads fs, fs.table, fs.table.bytes, fs.root, fs.dev`medium
  {
    && fs.Mounted() && fs.geo.reservedSectors == 0 && fs.geo.numFats > 0
    && 7 < |fs.View().fat| && fs.View().fat[7] >= 0x10
  }

  /** What is on the disk is refused by a mount. */
  ghost predicate Unmountable(fs: FileSystem)
    reads fs, fs.table, fs.table.bytes, fs.root, fs.dev`medium
  {
    fs.Mounted() && AcceptedAt(fs.dev.medium, fs.geo.baseLba) == BadBpb && !Remountable(fs)
  }

  /** So when cluster 7 has been given to a file and the table was written back, the volume can no longer be mounted. */
  lemma BootSectorLost(fs: FileSystem)
    requires Overlaid(fs) && !fs.table.dirty
    ensures Unmountable(fs)
  {
    hide Booted, Clusters, FatCopy, SectorsOf, FileSystem.Synced;
    FatOverBootSector(fs);
    fs.ValuesBelowTop(7);
    SeventhEntry(fs.table.bytes[..], fs.table.size);
    assert fs.table.bytes[..SECTOR_SIZE][11..13] == fs.table.bytes[..][11..13];
  }

  /** A flush that succeeds can be what loses the volume. */
  method FlushLosesBootSector(fs: FileSystem) returns (res: int)
    requires Overlaid(fs) && fs.dev.Works()
    modifies fs`rootDirty, fs`mirrored, fs.table`dirty, fs.dev
    ensures res == OK && Unmountable(fs) && fs.View() == old(fs.View())
  {
    hide FileSystem.View, FileSystem.Synced, Remountable, Unmountable, Reachable, Booted;
    res := fs.Flush();
    BootSectorLost(fs);
  }

  lemma SeventhEntry(b: seq<byte>, size: nat)
    requires size <= |b| && 7 < Capacity(size) && |b| >= 13 && Get(b, size, 7) >= 0x10
    ensures FromLe16(b[11..13]) != SECTOR_SIZE
  {
  }

  /** At the time of the mount that entry was too small for that: the boot sector holds 512 there. */
  lemma SeventhEntryAtMount(b: seq<byte>, size: nat)
    requires size <= |b| && 7 < Capacity(size) && |b| >= 13 && FromLe16(b[11..13]) == SECTOR_SIZE
    ensures Get(b, size, 7) < 0x10
  {
  }

  /** A boot sector with a name of seven characters and a NUL, without reserved sectors, with a FAT copy and a cluster 7. */
  ghost predicate SevenLetters(m: seq<byte>, baseLba: nat) {
    && IsMedium(m) && baseLba < REACH && AcceptedAt(m, baseLba).Accepted?
    && (var g := AcceptedAt(m, baseLba).geometry; g.reservedSectors == 0 && g.numFats > 0 && 7 < Top(g))
    && (var s := m[SECTOR_SIZE * baseLba..SECTOR_SIZE * baseLba + SECTOR_SIZE];
        s[10] == 0 && forall i | 3 <= i < 10 :: s[i] != 0)
  }

  lemma SevenLettersExist()
    ensures exists m :: SevenLetters(m, 0) && VolumeInReach(m, 0)
  {
    var s := BootOverFat();
    BootOverFatParses();
    var m := s + Zeros((REACH - 1) * SECTOR_SIZE);
    assert m[0..SECTOR_SIZE] == s;
    assert SevenLetters(m, 0) && VolumeInReach(m, 0);
  }

  /** Such a boot sector: 20480 sectors, 8 to a cluster, no reserved ones, two FAT copies of 8 sectors and 256 root entries. */
  function BootOverFat(): (s: Sector) {
    [0xEB, 0x3C, 0x90, 0x4D, 0x53, 0x44, 0x4F, 0x53, 0x35, 0x2E, 0x00,
     0x00, 0x02, 0x08, 0x00, 0x00, 0x02, 0x00, 0x01, 0x00, 0x50, 0xF8, 0x08, 0x00]
    + Zeros(SECTOR_SIZE - 24)
  }

  lemma BootOverFatParses()
    ensures ParseBpb(BootOverFat()) == Bpb(512, 8, 0, 2, 256, 20480, 8, 0)
  {
    var s := BootOverFat();
    assert s[11..13] == [0x00, 0x02] && s[14..16] == [0x00, 0x00] && s[17..19] == [0x00, 0x01] && s[19..21] == [0x00, 0x50];
    assert s[22..24] == [0x08, 0x00] && s[32..36] == [0, 0, 0, 0];
  }

  /** In its table the letters take the clusters 2 to 6, and the NUL leaves cluster 7. */
  lemma SeventhIsFirstFree(fs: FileSystem)
    requires fs.Mounted() && !fs.table.dirty && SevenLetters(fs.dev.medium, fs.geo.baseLba)
    requires AcceptedAt(fs.dev.medium, fs.geo.baseLba) == Accepted(fs.geo)
    ensures 7 < |fs.View().fat| && fs.View().fat[7] == FREE && forall c | 2 <= c < 7 :: fs.View().fat[c] != FREE
  {
    FirstFatCopy(fs.geo, fs.dev.medium);
    var at := SECTOR_SIZE * fs.geo.baseLba;
    var b, s := fs.table.bytes[..], fs.dev.medium[at..at + SECTOR_SIZE];
    assert fs.table.bytes[..fs.geo.fatSize] == FatCopy(fs.geo, fs.dev.medium, 0);
    assert fs.table.bytes[..fs.geo.fatSize][..SECTOR_SIZE] == b[..SECTOR_SIZE];
    assert fs.dev.medium[at..at + fs.geo.fatSize][..SECTOR_SIZE] == s;
    assert forall i | 0 <= i < SECTOR_SIZE :: b[i] == b[..SECTOR_SIZE][i] == s[i];
    assert s[11] == 0 by { assert s[11..13][0] == s[11]; }
    fs.ValuesBelowTop(7);
    forall c | 2 <= c <= 7 ensures fs.View().fat[c] == Get(b, fs.table.size, c) {
      fs.ValuesBelowTop(c);
    }
    LettersAsTable(b, fs.table.size);
  }

  lemma LettersAsTable(b: seq<byte>, size: nat)
    requires size <= |b| && 7 < Capacity(size) && |b| >= 12 && b[10] == b[11] == 0 && forall i | 3 <= i < 10 :: b[i] != 0
    ensures Get(b, size, 7) == FREE && forall c | 2 <= c < 7 :: Get(b, size, c) != FREE
  {
    forall c | 2 <= c < 7 ensures Get(b, size, c) != FREE {
      CoveredIsBelowCapacity(size, c);
      if c == 2 { assert Index(c) == 3; }
      else if c == 3 { assert Index(c) == 4; }
      else if c == 4 { assert Index(c) == 6; }
      else if c == 5 { assert Index(c) == 7; }
      else { assert Index(c) == 9; }
    }
    CoveredIsBelowCapacity(size, 7);
    assert Index(7) == 10;
  }

  lemma MountedThere(m: seq<byte>, baseLba: nat, g: Geometry)
    requires SevenLetters(m, baseLba) && AcceptedAt(m, baseLba) == Accepted(g)
    ensures g.baseLba == baseLba && g.reservedSectors == 0 && g.numFats > 0
  {
  }

  lemma SevenLettersAccepted(m: seq<byte>, baseLba: nat)
    requires SevenLetters(m, baseLba)
    ensures IsMedium(m) && baseLba < REACH && AcceptedAt(m, baseLba).Accepted?
  {
  }

  /** The first allocation takes cluster 7. */
  method TakeSeventh(fs: FileSystem)
    requires fs.Mounted() && fs.geo.reservedSectors == 0 && fs.geo.numFats > 0
    requires 7 < |fs.View().fat| && fs.View().fat[7] == FREE && forall c | 2 <= c < 7 :: fs.View().fat[c] != FREE
    requires fs.dev.Works()
    modifies fs.dev, fs.table`dirty, fs.table.bytes, fs.buffer, fs`tree
    ensures Overlaid(fs) && fs.dev.Works()
  {
    hide FileSystem.View, FileSystem.Synced, Reachable, Booted, FileSystem.Whole, FileSystem.Sturdy, FreeCount, OnlyDiffersAt;
    ghost var img := fs.View();
    FreeAtLeastOne(img.fat, 7);
    var c := fs.AllocateCluster({});
    assert c == 7;
  }

  lemma {:induction false} FreeAtLeastOne(fat: seq<nat>, c: nat)
    requires 2 <= c < |fat| && fat[c] == FREE
    ensures FreeCount(fat) > 0
  {
    FreeCountUpdate(fat, c, EOC);
  }

  /** Mounting such a volume on a working disk, giving one cluster away and writing the table back makes it unmountable. */
  method MountAllocateFlush(fs: FileSystem, baseLba: nat, ghost t: Tree)
    requires fs.Buffers() && VolumeInReach(fs.dev.medium, baseLba) && SevenLetters(fs.dev.medium, baseLba) && fs.dev.Works()
    modifies fs, fs.table, fs.table.bytes, fs.root, fs.buffer, fs.dev
    ensures Unmountable(fs) && fs.geo.baseLba == baseLba
  {
    hide FileSystem.View, FileSystem.Synced, FileSystem.Buffers, Remountable, Unmountable, Reachable, Booted, SevenLetters,
         AcceptedAt, Overlaid;
    ghost var m := fs.dev.medium;
    SevenLettersAccepted(m, baseLba);
    var res := fs.Init(baseLba, t);
    MountedThere(m, baseLba, fs.geo);
    SeventhIsFirstFree(fs);
    TakeSeventh(fs);
    res := FlushLosesBootSector(fs);
  }

  /** Without FAT copies a mount reads the root directory as the table. */
  lemma RootIsTable(fs: FileSystem)
    requires fs.Mounted() && !fs.rootDirty && fs.geo.numFats == 0 && fs.geo.rootDirSectors > 0
    requires fs.geo.baseLba + fs.geo.fatStart + fs.geo.sectorsPerFat <= REACH
    ensures SectorsOf(fs.geo, fs.dev.medium, fs.geo.fatStart, fs.geo.sectorsPerFat)[..SECTOR_SIZE] == fs.root[..SECTOR_SIZE]
  {
    var g, m := fs.geo, fs.dev.medium;
    var at := SECTOR_SIZE * (g.baseLba + g.fatStart);
    assert RootCopy(g, m) == fs.root[..g.rootDirSectors * SECTOR_SIZE];
    assert RootCopy(g, m)[..SECTOR_SIZE] == m[at..at + SECTOR_SIZE];
    assert fs.root[..g.rootDirSectors * SECTOR_SIZE][..SECTOR_SIZE] == fs.root[..SECTOR_SIZE];
  }

  /** So a first directory entry whose fourth character is there makes a free cluster 2 look taken. */
  lemma TableLost(fs: FileSystem)
    requires fs.Mounted() && !fs.rootDirty && fs.geo.numFats == 0 && fs.geo.rootDirSectors > 0
    requires fs.geo.baseLba + fs.geo.fatStart + fs.geo.sectorsPerFat <= REACH
    requires 2 < |fs.View().fat| && fs.View().fat[2] == FREE && fs.root[3] != 0
    ensures !TableOnDisk(fs) && !Remountable(fs)
  {
    RootIsTable(fs);
    fs.ValuesBelowTop(2);
    var b := SectorsOf(fs.geo, fs.dev.medium, fs.geo.fatStart, fs.geo.sectorsPerFat);
    assert b[3] == b[..SECTOR_SIZE][3] == fs.root[..SECTOR_SIZE][3];
    CoveredIsBelowCapacity(fs.geo.fatSize, 2);
    assert Entries(b, fs.geo.fatSize)[2] == Get(b, fs.geo.fatSize, 2) != FREE;
  }
}
