/** The FAT12 driver: its static state, and the operations that the kernel calls. */
module Fat12 {
  import opened Bytes
  import opened Disk
  import opened Geometry
  import opened Chains
  import opened Contents
  import opened Directories
  import opened ShortNames
  import opened Volumes
  import opened EntrySteps
  import opened Costs
  import opened FatTable
  import opened Space
  import opened Walks
  import opened Listings
  import opened Outcomes

  /** The clusters that the allocator can hand out end here: those of the volume that the FAT has entries for. */
  function Top(g: Geometry): nat {
    if Capacity(g.fatSize) < g.totalClusters + 2 then Capacity(g.fatSize) else g.totalClusters + 2
  }

  /** The clusters of a volume are those behind the root directory whose entry lies in the FAT with both its bytes. */
  lemma TopIs(g: Geometry, c: nat)
    ensures c < Top(g) <==> c < g.totalClusters + 2 && c + c / 2 + 1 < g.fatSize
  {
    CoveredIsBelowCapacity(g.fatSize, c);
  }

  /** The volume as a value, from the cached table, the cached root directory and the disk. */
  ghost function ImageOf(g: Geometry, values: seq<nat>, rootBytes: seq<byte>, medium: seq<byte>): Image
    requires Reachable(g) && IsMedium(medium)
    requires |values| == Capacity(g.fatSize) && |rootBytes| >= DIR_ENTRY_SIZE * g.rootEntryCount
  {
    Image(values[..Top(g)], rootBytes[..DIR_ENTRY_SIZE * g.rootEntryCount], Clusters(g, medium))
  }

  /** The volume as a value, from the disk alone: what a mount loads. */
  ghost function DiskImage(g: Geometry, medium: seq<byte>): Image {
    if Reachable(g) && IsMedium(medium) && g.baseLba + g.fatStart + g.sectorsPerFat <= REACH then
      ImageOf(g, Entries(SectorsOf(g, medium, g.fatStart, g.sectorsPerFat), g.fatSize), RootCopy(g, medium), medium)
    else Image([], [], [])
  }

  lemma TableFits(g: Geometry)
    requires Reachable(g)
    ensures g.fatSize <= FAT_BUFFER
  {
  }

  /** A write inside the sectors of cluster `c` changes the data of that cluster at most. */
  lemma ClusterWritten(g: Geometry, values: seq<nat>, rootBytes: seq<byte>, m: seq<byte>, m': seq<byte>, c: nat)
    requires Booted(g, m) && IsMedium(m') && 2 <= c
    requires |values| == Capacity(g.fatSize) && |rootBytes| >= DIR_ENTRY_SIZE * g.rootEntryCount
    requires SameOutside(m, m', SECTOR_SIZE * (g.baseLba + ClusterSector(g, c)),
                         SECTOR_SIZE * (g.baseLba + ClusterSector(g, c) + g.sectorsPerCluster))
    ensures Booted(g, m') && RootCopy(g, m') == RootCopy(g, m)
    ensures forall k | 0 <= k < g.numFats :: FatCopy(g, m', k) == FatCopy(g, m, k)
    ensures var img, img' := ImageOf(g, values, rootBytes, m), ImageOf(g, values, rootBytes, m');
            && img'.fat == img.fat && OnlyDiffersAt(img, img', {c})
            && (InVolume(g, c) ==> c < |img.data| && |img.data[c]| == |img'.data[c]| == g.clusterSize)
  {
    hide Booted, Capacity, SameOutside, FatCopy, RootCopy, ClusterSector;
    BootedReach(g, m);
    SystemAreaFrame(g, m, m', c);
    BootedFrame(g, m, m');
    OtherClustersFrame(g, m, m', c);
    if InVolume(g, c) {
      SplicedCluster(g, m, c, []);
      SplicedCluster(g, m', c, []);
    }
  }

  lemma BootedReach(g: Geometry, m: seq<byte>)
    requires Booted(g, m)
    ensures Reachable(g) && IsMedium(m)
  {
  }

  /** A cluster number that the walks accept, and whose sectors the driver can address. */
  predicate OnDevice(g: Geometry, cluster: nat) {
    IsLink(cluster) && g.baseLba + ClusterSector(g, cluster) + g.sectorsPerCluster <= REACH
  }

  ghost predicate AllOnDevice(g: Geometry) {
    forall c | IsLink(c) :: OnDevice(g, c)
  }

  lemma WholeClusters(n: nat)
    requires n >= 1
    ensures 2 * SLOT_SIZE <= n * SECTOR_SIZE && n * SECTOR_SIZE % SLOT_SIZE == 0
  {
  }

  datatype Scan = Found(index: nat, entry: Slot) | Ended | Exhausted

  /** The scan of fat12_find_entry over `n` slots of a buffer. */
  method ScanFor(bytes: array<byte>, n: nat, name: ShortName) returns (scan: Scan, ghost seen: nat)
    requires SLOT_SIZE * n <= bytes.Length
    ensures var slots := Slots(bytes[..SLOT_SIZE * n]);
            && |slots| == n && NoneBefore(slots, name, seen)
            && (scan.Found? ==> seen == scan.index < n && slots[seen] == scan.entry && Matches(slots[seen], name))
            && (scan.Ended? ==> seen < n && slots[seen][0] == END_MARK)
            && (scan.Exhausted? ==> seen == n)
  {
    ghost var slots := Slots(bytes[..SLOT_SIZE * n]);
    for i := 0 to n
      invariant NoneBefore(slots, name, i)
    {
      assert slots[i] == bytes[SLOT_SIZE * i..SLOT_SIZE * i + SLOT_SIZE];
      if bytes[SLOT_SIZE * i] == END_MARK { return Ended, i; }
      if bytes[SLOT_SIZE * i] == DELETED_MARK { continue; }
      if bytes[SLOT_SIZE * i..SLOT_SIZE * i + 11] == name {
        assert slots[i][..11] == bytes[SLOT_SIZE * i..SLOT_SIZE * i + 11];
        return Found(i, bytes[SLOT_SIZE * i..SLOT_SIZE * i + SLOT_SIZE]), i;
      }
    }
    return Exhausted, n;
  }

  /** The scan of fat12_find_free_entry over `n` slots of a buffer. */
  method ScanForFree(bytes: array<byte>, n: nat) returns (found: bool, index: nat)
    requires SLOT_SIZE * n <= bytes.Length
    ensures var slots := Slots(bytes[..SLOT_SIZE * n]);
            && |slots| == n && AllLiveBefore(slots, index)
            && (if found then index < n && IsFree(slots[index]) else index == n)
  {
    ghost var slots := Slots(bytes[..SLOT_SIZE * n]);
    for i := 0 to n
      invariant AllLiveBefore(slots, i)
    {
      assert slots[i] == bytes[SLOT_SIZE * i..SLOT_SIZE * i + SLOT_SIZE];
      if bytes[SLOT_SIZE * i] == END_MARK || bytes[SLOT_SIZE * i] == DELETED_MARK { return true, i; }
    }
    return false, n;
  }

  /** The table and its slack have only lost the clusters `s`. */
  ghost predicate OnlyLost(before: seq<byte>, now: seq<byte>, size: nat, s: seq<nat>) {
    && |before| == |now| == FAT_BUFFER && size <= FAT_BUFFER && TakenFrom(Entries(before, size), Entries(now, size), s)
    && SameSlack(before, now, size)
  }

  class FileSystem {
    const dev: AtaDevice
    /** g_fat_primary and g_fat_dirty. */
    const table: Table
    /** g_root_dir. */
    const root: array<byte>
    /** g_cluster_buffer. */
    const buffer: array<byte>
    /** g_fs and g_fs_ready. */
    var geo: Geometry
    var ready: bool
    var rootDirty: bool
    /** The directory tree of the mounted volume. */
    ghost var tree: Tree
    /** Whether all FAT copies on the disk agreed at mount, or have been written since. */
    ghost var mirrored: bool

    ghost predicate Buffers()
      reads table, dev`medium
    {
      && dev.Valid() && table.Valid()
      && root.Length == MAX_ROOT_DIR_SECTORS * SECTOR_SIZE
      && buffer.Length == MAX_SECTORS_PER_CLUSTER * SECTOR_SIZE
      && root != buffer && table.bytes != root && table.bytes != buffer
    }

    /** The caches agree with the disk unless they are marked dirty. */
    ghost predicate Synced()
      requires Reachable(geo) && IsMedium(dev.medium) && table.Valid() && table.size == geo.fatSize
      requires root.Length == MAX_ROOT_DIR_SECTORS * SECTOR_SIZE
      reads `geo, `rootDirty, `mirrored, table, table.bytes, root, dev`medium
    {
      && (!table.dirty ==> forall k | 0 <= k < geo.numFats && (k == 0 || mirrored) ::
            FatCopy(geo, dev.medium, k) == table.bytes[..geo.fatSize])
      && (!rootDirty ==> RootCopy(geo, dev.medium) == root[..geo.rootDirSectors * SECTOR_SIZE])
    }

    ghost predicate Mounted()
      reads `geo, `ready, `rootDirty, `mirrored, table, table.bytes, root, dev`medium
    {
      Buffers() && ready && Reachable(geo) && table.size == geo.fatSize && Synced() && Booted(geo, dev.medium)
    }

    ghost function View(): Image
      requires Mounted()
      reads `geo, `ready, `rootDirty, `mirrored, table, table.bytes, root, dev`medium
    {
      ImageOf(geo, table.Values(), root[..], dev.medium)
    }

    /** The mounted volume is a file system, but for some chains that no entry leads to yet or any more. */
    ghost predicate Whole(loose: set<nat>)
      reads `geo, `ready, `rootDirty, `mirrored, `tree, table, table.bytes, root, dev`medium
    {
      Mounted() && WellFormed(View(), tree, geo.clusterSize, loose)
    }

    /** Every walk through the table ends, and wherever one leads, its clusters can be addressed: what it takes to get
        through any directory contents, damaged ones included. */
    ghost predicate Sturdy()
      reads `geo, table`size, table.bytes
    {
      table.Valid() && AllOnDevice(geo) && AllEnd(table.Values())
    }

    ghost predicate IsWalk(d: nat, s: seq<nat>)
      requires table.Valid()
      reads `geo, table`size, table.bytes
    {
      Leads(table.Values(), d, s) && forall i | 0 <= i < |s| :: OnDevice(geo, s[i])
    }

    /** The static state before the first mount. */
    constructor (dev: AtaDevice)
      requires dev.Valid()
      ensures Buffers() && !ready && this.dev == dev && fresh(table) && fresh(table.bytes) && fresh(root) && fresh(buffer)
    {
      this.dev := dev;
      table := new Table();
      root := new byte[MAX_ROOT_DIR_SECTORS * SECTOR_SIZE](i => 0);
      buffer := new byte[MAX_SECTORS_PER_CLUSTER * SECTOR_SIZE](i => 0);
      geo := Geometry(0, 0, 0, 0, 0, 0, 0, 0, 0, 0, 0, 0, 0, 0, 0);
      ready, rootDirty, mirrored := false, false, false;
      tree := Tree(Allocation(map[], map[]), {}, map[], map[]);
    }

    // ---------------------------------------------------------------- clusters

    lemma VolumeIsOnDevice(cluster: nat)
      requires Mounted() && InVolume(geo, cluster)
      ensures OnDevice(geo, cluster)
    {
      ClusterInsideVolume(geo, cluster);
    }

    /** fat12_read_cluster. */
    method ReadCluster(cluster: nat) returns (ok: bool)
      requires Mounted() && OnDevice(geo, cluster)
      modifies dev`clock, buffer
      ensures Mounted() && View() == old(View()) && dev.clock >= old(dev.clock)
      ensures dev.FineSince(old(dev.clock)) ==> ok
      ensures dev.faults(old(dev.clock)).Fine? ==> ok && dev.clock == old(dev.clock) + 1
      ensures dev.AllFail(old(dev.clock), Attempts(geo.sectorsPerCluster)) ==>
                !ok && dev.clock == old(dev.clock) + Attempts(geo.sectorsPerCluster)
      ensures ok && InVolume(geo, cluster) ==> geo.clusterSize <= buffer.Length && buffer[..geo.clusterSize] == View().data[cluster]
    {
      hide Booted, Get;
      var lba := if cluster < 2 then geo.dataStart else geo.dataStart + (cluster - 2) * geo.sectorsPerCluster;
      var result := ReadSectors(dev, geo.baseLba + lba, buffer, geo.sectorsPerCluster);
      ok := result == 0;
      if InVolume(geo, cluster) { ClusterInsideVolume(geo, cluster); }
    }

    /** fat12_write_cluster: the first bytes of the cluster buffer. */
    method WriteCluster(cluster: nat) returns (ok: bool)
      requires Mounted() && OnDevice(geo, cluster)
      modifies dev
      ensures Mounted() && dev.clock >= old(dev.clock)
      ensures View().fat == old(View().fat) && OnlyDiffersAt(old(View()), View(), {cluster})
      ensures InVolume(geo, cluster) ==> |View().data[cluster]| == |old(View()).data[cluster]| == geo.clusterSize
      ensures dev.FineSince(old(dev.clock)) ==> ok
      ensures dev.faults(old(dev.clock)).Fine? ==> ok && dev.clock == old(dev.clock) + 1
      ensures ok ==> geo.clusterSize <= buffer.Length
      ensures ok && InVolume(geo, cluster) ==> View().data[cluster] == buffer[..geo.clusterSize]
      ensures var debris := Debris(dev.faults(old(dev.clock)));
              dev.AllSpoil(old(dev.clock), Attempts(geo.sectorsPerCluster), debris) && InVolume(geo, cluster) ==>
                !ok && View().data[cluster] == Splice(old(View()).data[cluster], 0, debris)
    {
      hide Booted, Get, Entries, Splice, Clusters, FatCopy, RootCopy, Capacity, SameOutside, OnlyDiffersAt;
      ghost var before := dev.medium;
      var lba := if cluster < 2 then geo.dataStart else geo.dataStart + (cluster - 2) * geo.sectorsPerCluster;
      var result := WriteSectors(dev, geo.baseLba + lba, buffer, geo.sectorsPerCluster);
      ok := result == 0;
      ClusterWritten(geo, table.Values(), root[..], before, dev.medium, cluster);
      if InVolume(geo, cluster) {
        SplicedCluster(geo, before, cluster, buffer[..SECTOR_SIZE * geo.sectorsPerCluster]);
        SplicedCluster(geo, before, cluster, Debris(dev.faults(old(dev.clock))));
      }
    }

    /** memset(g_cluster_buffer, 0, cluster size). */
    method ClearBuffer()
      requires Buffers() && geo.clusterSize <= buffer.Length
      modifies buffer
      ensures buffer[..geo.clusterSize] == Zeros(geo.clusterSize)
    {
      forall i | 0 <= i < geo.clusterSize { buffer[i] := 0; }
    }

    /** The table entries below Top are what View shows. */
    lemma ValuesBelowTop(c: nat)
      requires Mounted()
      ensures Top(geo) <= |table.Values()| && |View().fat| == Top(geo) <= geo.totalClusters + 2 == |View().data|
      ensures c < Top(geo) ==> View().fat[c] == table.Values()[c]
      ensures 2 <= c < Top(geo) ==> InVolume(geo, c) && OnDevice(geo, c)
      ensures Top(geo) < EOC && SECTOR_SIZE <= geo.clusterSize <= buffer.Length
    {
      if 2 <= c < Top(geo) { ClusterInsideVolume(geo, c); }
    }

    /** A cluster has room for the two dot entries. */
    lemma BigClusters()
      requires Mounted()
      ensures 2 * SLOT_SIZE <= geo.clusterSize && geo.clusterSize % SLOT_SIZE == 0
    {
      WholeClusters(geo.sectorsPerCluster);
    }

    /** fat12_set_fat_entry, seen from the volume. */
    method SetEntry(cluster: nat, value: nat)
      requires Mounted() && cluster < EOC
      modifies table`dirty, table.bytes
      ensures Mounted() && table.dirty
      ensures View() == old(View()).(fat := Put1(old(View().fat), cluster, value % 0x1000))
      ensures table.Values() == Put1(old(table.Values()), cluster, value % 0x1000)
      ensures cluster < |old(table.Values())| ==> SameSlack(old(table.bytes[..]), table.bytes[..], table.size)
    {
      ValuesBelowTop(cluster);
      table.SetEntry(cluster, value);
    }

    /** The entry set back to free: the table is what it was before the cluster was claimed. */
    method Unclaim(cluster: nat, ghost before: seq<byte>)
      requires Mounted() && 2 <= cluster < Top(geo) && |before| == FAT_BUFFER
      requires cluster < |Entries(before, table.size)| && Entries(before, table.size)[cluster] == FREE
      requires table.Values() == Entries(before, table.size)[cluster := EOC] && SameSlack(before, table.bytes[..], table.size)
      modifies table`dirty, table.bytes
      ensures Mounted() && table.bytes[..] == before && cluster < |old(View()).fat|
      ensures View() == old(View()).(fat := old(View()).fat[cluster := FREE])
    {
      hide Booted, Put, Get, Entries, Clusters, FatCopy, RootCopy, SameSlack, Reachable, View, Synced, Capacity;
      ghost var marked: seq<byte>, values: seq<nat> := table.bytes[..], table.Values();
      ValuesBelowTop(cluster);
      SetEntry(cluster, FREE);
      SlackJoins(before, marked, table.bytes[..], table.size);
      assert values[cluster := FREE] == Entries(before, table.size);
      EntriesDetermineBytes(before, table.bytes[..], table.size);
    }

    /** The body of fat12_allocate_cluster's loop: mark the free cluster, zero it on the disk, or take it back. */
    method ClaimCluster(cluster: nat) returns (ok: bool)
      requires Mounted() && 2 <= cluster < Top(geo) && View().fat[cluster] == FREE
      modifies dev, table`dirty, table.bytes, buffer
      ensures Mounted() && dev.clock >= old(dev.clock) && (dev.FineSince(old(dev.clock)) ==> ok)
      ensures dev.faults(old(dev.clock)).Fine? ==> ok && dev.clock == old(dev.clock) + 1
      ensures OnlyDiffersAt(old(View()), View(), {cluster}) && |View().data[cluster]| == geo.clusterSize
      ensures !ok ==> table.bytes[..] == old(table.bytes[..])
      ensures !ok ==> View().fat == old(View()).fat
      ensures ok ==> table.Values() == old(table.Values())[cluster := EOC] && table.dirty
      ensures ok ==> View().fat == old(View()).fat[cluster := EOC]
      ensures ok ==> SameSlack(old(table.bytes[..]), table.bytes[..], table.size)
      ensures ok ==> View().data[cluster] == Zeros(geo.clusterSize)
    {
      hide Booted, Put, Get, Entries, Clusters, FatCopy, RootCopy, SameSlack, Reachable, View, Synced, Zeros, Capacity,
           ClusterBytes;
      ghost var before := table.bytes[..];
      ghost var fat: seq<nat> := View().fat;
      ValuesBelowTop(cluster);
      SetEntry(cluster, EOC);
      ClearBuffer();
      ok := WriteCluster(cluster);
      if !ok {
        Unclaim(cluster, before);
        assert fat[cluster := EOC][cluster := FREE] == fat;
      }
    }

    /** fat12_allocate_cluster, as far as the table and the disk are concerned; 0 when it fails. `scratch` is the
        free cluster that a failed attempt may have written to. */
    method TakeCluster() returns (cluster: nat, ghost scratch: set<nat>)
      requires Mounted()
      modifies dev, table`dirty, table.bytes, buffer
      ensures Mounted() && dev.clock >= old(dev.clock) && OnlyDiffersAt(old(View()), View(), scratch)
      ensures forall c | c in scratch ::
                2 <= c < |old(View().fat)| && old(View().fat)[c] == FREE && |View().data[c]| == geo.clusterSize
      ensures cluster == 0 ==> table.bytes[..] == old(table.bytes[..]) && View().fat == old(View().fat)
      ensures cluster == 0 && dev.FineSince(old(dev.clock)) ==> forall c | 2 <= c < |old(View().fat)| :: old(View().fat)[c] != FREE
      ensures dev.faults(old(dev.clock)).Fine? ==>
                if cluster != 0 then dev.clock == old(dev.clock) + 1
                else forall c | 2 <= c < |old(View().fat)| :: old(View().fat)[c] != FREE
      ensures forall c | 2 <= c < cluster && c < |old(View().fat)| :: old(View().fat)[c] != FREE
      ensures cluster != 0 ==> scratch == {cluster} && 2 <= cluster < |old(View().fat)| && table.dirty
      ensures cluster != 0 ==> cluster < |old(table.Values())| && old(table.Values())[cluster] == FREE
      ensures cluster != 0 ==> table.Values() == old(table.Values())[cluster := EOC]
      ensures cluster != 0 ==> View().fat == old(View().fat)[cluster := EOC]
      ensures cluster != 0 ==> SameSlack(old(table.bytes[..]), table.bytes[..], table.size)
      ensures cluster != 0 ==> View().data[cluster] == Zeros(geo.clusterSize)
    {
      hide Reachable, View, Synced, Zeros, Capacity;
      ghost var fat: seq<nat> := View().fat;
      cluster := 2;
      while cluster < geo.totalClusters + 2
        invariant 2 <= cluster && Mounted() && View() == old(View()) && table.bytes[..] == old(table.bytes[..])
        invariant table.Values() == old(table.Values()) && dev.clock == old(dev.clock)
        invariant forall c | 2 <= c < cluster && c < |fat| :: fat[c] != FREE
      {
        ValuesBelowTop(cluster);
        var value := table.GetEntry(cluster);
        if value == FREE {
          var ok := ClaimCluster(cluster);
          scratch := {cluster};
          if !ok { cluster := 0; }
          return;
        }
        cluster := cluster + 1;
      }
      ValuesBelowTop(0);
      return 0, {};
    }

    /** fat12_allocate_cluster. It fails on a working disk exactly when no cluster is free. In a file system the new
        cluster is a loose chain of its own. */
    method AllocateCluster(ghost loose: set<nat>) returns (cluster: nat)
      requires Mounted()
      modifies dev, table`dirty, table.bytes, buffer, `tree
      ensures Mounted() && dev.clock >= old(dev.clock) && (old(Sturdy()) ==> Sturdy())
      ensures cluster == 0 ==> table.bytes[..] == old(table.bytes[..]) && View().fat == old(View().fat) && tree == old(tree)
      ensures cluster == 0 && dev.FineSince(old(dev.clock)) ==> FreeCount(View().fat) == 0
      ensures dev.faults(old(dev.clock)).Fine? && FreeCount(old(View().fat)) > 0 ==>
                cluster != 0 && dev.clock == old(dev.clock) + 1
      ensures forall c | 2 <= c < cluster && c < |old(View().fat)| :: old(View().fat)[c] != FREE
      ensures cluster != 0 ==> 2 <= cluster < |old(View().fat)| && old(View().fat)[cluster] == FREE
      ensures cluster != 0 ==> View().fat == old(View().fat)[cluster := EOC]
      ensures cluster != 0 ==> FreeCount(View().fat) + 1 == FreeCount(old(View().fat))
      ensures cluster != 0 ==> OnlyDiffersAt(old(View()), View(), {cluster})
      ensures cluster != 0 ==> View().data[cluster] == Zeros(geo.clusterSize)
      ensures cluster != 0 ==> cluster < |old(table.Values())| && old(table.Values())[cluster] == FREE
      ensures cluster != 0 ==> table.Values() == old(table.Values())[cluster := EOC]
      ensures cluster != 0 ==> SameSlack(old(table.bytes[..]), table.bytes[..], table.size)
      ensures old(Whole(loose)) ==> Undisturbed(old(View()), old(tree), View(), tree)
      ensures old(Whole(loose)) && cluster == 0 ==> Whole(loose)
      ensures old(Whole(loose)) && cluster != 0 ==>
                && Whole(loose + {cluster}) && tree == old(tree).(alloc := WithNew(old(tree).alloc, cluster))
                && cluster !in old(tree).alloc.at && cluster !in old(tree).alloc.chains && cluster !in loose
    {
      hide Booted, Put, Get, Entries, Clusters, FatCopy, RootCopy, SameSlack, Reachable, View, Synced, Zeros, Capacity,
           Partition, Physical, Undisturbed, WellFormed, AllEnd, AllOnDevice, OnDevice;
      ghost var img, t, values := View(), tree, table.Values();
      ghost var scratch;
      ghost var whole, sturdy := Whole(loose), Sturdy();
      if whole { WholeParts(loose); }
      NoFreeCluster(img.fat);
      cluster, scratch := TakeCluster();
      if cluster != 0 {
        FreeCountUpdate(img.fat, cluster, EOC);
        if sturdy { StopKeepsEnds(values, cluster, EOC); }
      }
      if whole {
        forall c | c in scratch ensures c !in t.alloc.at && c !in t.alloc.chains {
          FreeClusterIsUnowned(img.fat, t.alloc, c);
        }
        if cluster != 0 {
          AllocateStep(img, t, geo.clusterSize, loose, View(), cluster);
          tree := t.(alloc := WithNew(t.alloc, cluster));
        } else {
          ScratchStep(img, t, geo.clusterSize, loose, View(), scratch);
        }
      }
    }

    /** A file system is such a volume, if its clusters can be addressed and the table entries behind its last cluster lead
        nowhere. */
    lemma WholeIsSturdy()
      requires Whole({}) && AllOnDevice(geo)
      requires forall c | Top(geo) <= c < |table.Values()| :: !IsLink(table.Values()[c])
      ensures Sturdy()
    {
      WholeParts({});
      ValuesBelowTop(0);
      forall c | 0 <= c < |View().fat| ensures table.Values()[c] == View().fat[c] { ValuesBelowTop(c); }
      forall x: nat ensures Ends(table.Values(), x) { PartitionEnds(table.Values(), View().fat, tree.alloc, x); }
    }

    lemma WholeParts(loose: set<nat>)
      requires Whole(loose)
      ensures Mounted()
      ensures Physical(View(), tree.alloc, geo.clusterSize) && Partition(View().fat, tree.alloc)
      ensures 0 !in tree.alloc.chains && 0 !in tree.dirs && 0 !in loose
      ensures loose <= tree.alloc.chains.Keys && tree.dirs <= tree.alloc.chains.Keys && tree.dirs !! loose
    {
      ZeroIsNoChain(View(), tree, geo.clusterSize, loose);
    }

    /** The two table entries that are set when a chain grows: `prev` leads to `c`, and `c` ends the chain. */
    method LinkEntries(prev: nat, c: nat)
      requires Mounted() && IsLink(prev) && 2 <= c < |View().fat|
      modifies table`dirty, table.bytes
      ensures Mounted() && table.dirty
      ensures View() == old(View()).(fat := Appended(old(View()).fat, prev, c))
      ensures c < |old(table.Values())| && table.Values() == Appended(old(table.Values()), prev, c)
      ensures prev < |old(table.Values())| ==> SameSlack(old(table.bytes[..]), table.bytes[..], table.size)
    {
      ghost var before, values, fat := table.bytes[..], table.Values(), View().fat;
      ValuesBelowTop(c);
      PutTwice(values, prev, c);
      PutTwice(fat, prev, c);
      SetEntry(prev, c);
      ghost var linked := table.bytes[..];
      SetEntry(c, EOC);
      if prev < |values| { SlackJoins(before, linked, table.bytes[..], table.size); }
    }

    /** Links the new cluster `c` behind `prev` and ends the chain there, as the driver does both when a file and when a
        directory grows. In a file system `prev` is the last cluster of the loose chain or full directory `h`. */
    method LinkCluster(ghost loose: set<nat>, ghost h: nat, prev: nat, c: nat)
      requires Mounted() && IsLink(prev) && 2 <= c < |View().fat|
      modifies table`dirty, table.bytes, `tree
      ensures Mounted() && table.dirty && (old(Sturdy()) ==> Sturdy()) && View().data == old(View()).data
      ensures prev < |old(table.Values())| ==> SameSlack(old(table.bytes[..]), table.bytes[..], table.size)
      ensures old(Whole(loose) && Linkable(View(), tree, geo.clusterSize, loose, h, prev, c)) ==>
                && Whole(loose - {c}) && tree == old(tree).(alloc := WithLink(old(tree).alloc, h, c))
                && Linked(old(View()), old(tree), View(), tree, loose, h, prev, c)
                && prev < |old(table.Values())| && table.Values() == old(table.Values())[prev := c]
    {
      hide Booted, FatCopy, RootCopy, SameSlack, Reachable, Synced, Capacity, WellFormed, Linkable, Linked, AllEnd,
           AllOnDevice, OnDevice, View;
      ghost var img, t, values := View(), tree, table.Values();
      ghost var linkable, sturdy := Whole(loose) && Linkable(img, t, geo.clusterSize, loose, h, prev, c), Sturdy();
      ValuesBelowTop(c);
      ValuesBelowTop(prev);
      LinkEntries(prev, c);
      if sturdy { AppendKeepsEnds(values, prev, c); }
      if linkable {
        LinkEffect(img, t, geo.clusterSize, loose, View(), h, prev, c);
        AppendedToEnd(values, prev, c);
        tree := t.(alloc := WithLink(t.alloc, h, c));
      }
    }

    /** fat12_free_chain: from any number, on any table. On a chain it frees exactly the chain. */
    method FreeChain(first: nat, ghost s: seq<nat>)
      requires Mounted()
      modifies table`dirty, table.bytes
      ensures Mounted() && (old(Sturdy()) ==> Sturdy())
      ensures View().data == old(View()).data && View().root == old(View()).root
      ensures old(IsChain(View().fat, s)) && Distinct(s) && first == s[0] ==>
                && View() == old(View()).(fat := Zeroed(old(View()).fat, s))
                && table.Values() == Zeroed(old(table.Values()), s)
                && SameSlack(old(table.bytes[..]), table.bytes[..], table.size)
    {
      hide Put, Get, Clusters, FatCopy, RootCopy, SameSlack, Capacity, AllEnd, AllOnDevice, OnDevice;
      ghost var values := table.Values();
      ValuesBelowTop(0);
      if Sturdy() { FreeKeepsEnds(table.bytes[..], table.size, first); }
      if IsChain(View().fat, s) && Distinct(s) && first == s[0] {
        forall i | 0 <= i < |s| ensures View().fat[s[i]] == values[s[i]] { ValuesBelowTop(s[i]); }
        assert IsChain(values, s);
        FreedOnChain(table.bytes[..], table.size, s);
      }
      table.FreeChain(first);
    }

    /** fat12_free_chain; on a chain that no entry leads to it gives back the chain's clusters. */
    method FreeLoose(ghost loose: set<nat>, first: nat)
      requires Mounted()
      modifies table`dirty, table.bytes, `tree
      ensures Mounted() && (old(Sturdy()) ==> Sturdy())
      ensures View().data == old(View()).data && View().root == old(View()).root
      ensures old(Whole(loose)) && first in loose ==>
                && first in old(tree).alloc.chains && tree == old(tree).(alloc := Without(old(tree).alloc, first))
                && Whole(loose - {first}) && Undisturbed(old(View()), old(tree), View(), tree)
                && table.Values() == Zeroed(old(table.Values()), old(tree).alloc.chains[first])
                && SameSlack(old(table.bytes[..]), table.bytes[..], table.size)
    {
      hide Reachable, View, Synced, Capacity, Partition, Undisturbed, WellFormed, AllOnDevice;
      ghost var img, t := View(), tree;
      ghost var s := [];
      if Whole(loose) && first in loose {
        WholeParts(loose);
        ChainsInRange(img.fat, t.alloc);
        ChainIsDistinct(img.fat, t.alloc, first);
        s := t.alloc.chains[first];
      }
      FreeChain(first, s);
      if s != [] {
        FreeStep(img, t, geo.clusterSize, loose, View(), first);
        tree := t.(alloc := Without(t.alloc, first));
      }
    }

    // ---------------------------------------------------------------- directory entries

    /** The scanned part of the cluster buffer is all of it. */
    lemma BufferHolds(b: seq<byte>)
      requires Buffers() && geo.clusterSize <= buffer.Length && geo.clusterSize % SLOT_SIZE == 0
      requires buffer[..geo.clusterSize] == b
      ensures SLOT_SIZE * (geo.clusterSize / SLOT_SIZE) == geo.clusterSize
      ensures buffer[..SLOT_SIZE * (geo.clusterSize / SLOT_SIZE)] == b
    {
    }

    ghost predicate CanScan(d: nat)
      reads `geo, `ready, `rootDirty, `mirrored, `tree, table, table.bytes, root, dev`medium
    {
      Mounted() && Scannable(View(), tree.alloc, geo.clusterSize, d)
    }

    lemma Apart()
      requires Mounted()
      ensures table.Valid() && table.bytes != buffer && root != buffer && table.bytes != root
    {
    }

    /** The clusters that a scan of directory `d` visits. */
    lemma PickWalk(d: nat) returns (s: seq<nat>)
      requires Mounted() && d != 0 && (CanScan(d) || Sturdy())
      ensures IsWalk(d, s)
      ensures CanScan(d) ==> d in tree.alloc.chains && s == tree.alloc.chains[d] && IsLink(d)
    {
      if CanScan(d) {
        s := tree.alloc.chains[d];
        ValuesBelowTop(0);
        forall i | 0 <= i < |s| ensures OnDevice(geo, s[i]) { ValuesBelowTop(s[i]); }
        forall c | 0 <= c < |View().fat| ensures table.Values()[c] == View().fat[c] { ValuesBelowTop(c); }
        ChainLeads(table.Values(), View().fat, s);
      } else {
        assert Ends(table.Values(), d);
        s :| Leads(table.Values(), d, s);
      }
    }

    /** One step of a walk. */
    lemma OnWalk(d: nat, s: seq<nat>, j: nat)
      requires table.Valid() && IsWalk(d, s) && j <= |s|
      ensures j == 0 ==> if s == [] then !IsLink(d) else s[0] == d
      ensures j < |s| ==> OnDevice(geo, s[j])
      ensures j < |s| ==> if j + 1 < |s| then Next(table.Values(), s[j]) == s[j + 1] else !IsLink(Next(table.Values(), s[j]))
    {
    }

    lemma RootView()
      requires Mounted()
      ensures DIR_ENTRY_SIZE * geo.rootEntryCount <= root.Length
      ensures View().root == root[..SLOT_SIZE * geo.rootEntryCount] && |View().root| == SLOT_SIZE * geo.rootEntryCount
      ensures SlotsOf(View(), tree.alloc, 0) == Slots(root[..SLOT_SIZE * geo.rootEntryCount])
    {
    }

    /** A place that the driver can write an entry to. */
    predicate Addressable(oc: nat, idx: nat)
      reads `geo
    {
      if oc == 0 then idx < geo.rootEntryCount
      else OnDevice(geo, oc) && SLOT_SIZE * idx + SLOT_SIZE <= geo.clusterSize
    }

    /** What a successful lookup hands out: the entry, and where it is. */
    ghost predicate FoundAt(d: nat, name: ShortName, entry: Slot, oc: nat, idx: nat, i: nat, j: nat)
      reads `geo, `ready, `rootDirty, `mirrored, `tree, table, table.bytes, root, dev`medium
    {
      && Mounted() && Entry(View(), tree.alloc, d, name) == Some(entry)
      && IsAt(SlotsOf(View(), tree.alloc, d), name, i) && SlotsOf(View(), tree.alloc, d)[i] == entry
      && Located(View(), tree.alloc, d, i, oc, idx, j)
    }

    /** Cluster reads that a lookup in `d` takes. */
    ghost function Cost(d: nat, name: ShortName): nat
      requires Mounted()
      reads `geo, `ready, `rootDirty, `mirrored, `tree, table, table.bytes, root, dev`medium
    {
      if d == 0 then 0 else Reads(View(), tree.alloc, geo.clusterSize, d, name)
    }

    /** fat12_find_entry in the root directory. */
    method FindInRoot(name: ShortName) returns (res: int, entry: Slot, idx: nat)
      requires Mounted()
      ensures res == OK || res == ERR_NOT_FOUND
      ensures res == OK ==> Addressable(0, idx)
      ensures CanScan(0) && res == OK ==> FoundAt(0, name, entry, 0, idx, idx, 0)
      ensures CanScan(0) && res == ERR_NOT_FOUND ==> Entry(View(), tree.alloc, 0, name) == None
    {
      hide Synced, Zeros, Capacity, Buffers, SlotsOf;
      RootView();
      entry, idx := Zeros(SLOT_SIZE), 0;
      var scan;
      ghost var seen;
      scan, seen := ScanFor(root, geo.rootEntryCount, name);
      match scan
      case Found(i, e) =>
        if CanScan(0) { LookupAt(SlotsOf(View(), tree.alloc, 0), name, i); }
        return OK, e, i;
      case _ =>
        if CanScan(0) { ScanIsComplete(SlotsOf(View(), tree.alloc, 0), name, seen); }
        return ERR_NOT_FOUND, entry, 0;
    }

    /** The scan of one cluster of a directory, placed in the directory: the name is found, or shown to be missing, or
        not among the slots seen so far. */
    lemma ScannedCluster(d: nat, name: ShortName, j: nat, scan: Scan, seen: nat)
      requires CanScan(d) && d != 0 && j < |tree.alloc.chains[d]| && geo.clusterSize <= buffer.Length
      requires Searching(View(), tree.alloc, geo.clusterSize, d, name, j)
      requires buffer[..geo.clusterSize] == View().data[tree.alloc.chains[d][j]]
      requires var n := geo.clusterSize / SLOT_SIZE; var slots := Slots(buffer[..SLOT_SIZE * n]);
               && |slots| == n && NoneBefore(slots, name, seen)
               && (scan.Found? ==> seen == scan.index < n && slots[seen] == scan.entry && Matches(slots[seen], name))
               && (scan.Ended? ==> seen < n && slots[seen][0] == END_MARK)
               && (scan.Exhausted? ==> seen == n)
      ensures scan.Found? ==>
                && FoundAt(d, name, scan.entry, tree.alloc.chains[d][j], scan.index, SlotBase(View(), tree.alloc, d, j) + scan.index, j)
                && Reads(View(), tree.alloc, geo.clusterSize, d, name) == j + 1
      ensures scan.Ended? ==>
                Entry(View(), tree.alloc, d, name) == None && Reads(View(), tree.alloc, geo.clusterSize, d, name) == j + 1
      ensures scan.Exhausted? ==> Searching(View(), tree.alloc, geo.clusterSize, d, name, j + 1)
    {
      hide Entries, Clusters, Reachable, View, SlotsOf, Slots, ZeroTail, UniqueNames, Located, ChainBytes, IsChain;
      var img, a, cs := View(), tree.alloc, geo.clusterSize;
      var slots, base := SlotsOf(img, a, d), SlotBase(img, a, d, j);
      BufferHolds(img.data[a.chains[d][j]]);
      ScanContinues(img, a, cs, d, j, name, seen);
      SlotsWindow(img, a, cs, d, j);
      match scan
      case Found(k, e) =>
        LocatedInCluster(img, a, cs, d, j, k);
        LookupAt(slots, name, base + k);
        ReadsHere(img, a, cs, d, name, j, k);
      case Ended =>
        ScanIsComplete(slots, name, base + seen);
        ReadsHere(img, a, cs, d, name, j, seen);
      case Exhausted => SearchGoesOn(img, a, cs, d, name, j + 1);
    }

    /** One round of fat12_find_entry's loop: a cluster is read and scanned. */
    method FindInCluster(cluster: nat, d: nat, name: ShortName, ghost j: nat, ghost scans: bool) returns (ok: bool, scan: Scan)
      requires Mounted() && OnDevice(geo, cluster)
      requires scans ==> CanScan(d) && d != 0 && j < |tree.alloc.chains[d]| && cluster == tree.alloc.chains[d][j]
      requires scans ==> Searching(View(), tree.alloc, geo.clusterSize, d, name, j)
      modifies dev`clock, buffer
      ensures Mounted() && View() == old(View()) && dev.clock >= old(dev.clock) && (dev.FineSince(old(dev.clock)) ==> ok)
      ensures dev.faults(old(dev.clock)).Fine? ==> ok && dev.clock == old(dev.clock) + 1
      ensures dev.AllFail(old(dev.clock), Attempts(geo.sectorsPerCluster)) ==>
                !ok && dev.clock == old(dev.clock) + Attempts(geo.sectorsPerCluster)
      ensures ok && scan.Found? ==> Addressable(cluster, scan.index)
      ensures ok && scans && scan.Found? ==>
                && FoundAt(d, name, scan.entry, cluster, scan.index, SlotBase(View(), tree.alloc, d, j) + scan.index, j)
                && Reads(View(), tree.alloc, geo.clusterSize, d, name) == j + 1
      ensures ok && scans && scan.Ended? ==>
                Entry(View(), tree.alloc, d, name) == None && Reads(View(), tree.alloc, geo.clusterSize, d, name) == j + 1
      ensures ok && scans && scan.Exhausted? ==> Searching(View(), tree.alloc, geo.clusterSize, d, name, j + 1)
    {
      hide Booted, Reachable, View, Synced, Capacity, SlotsOf, Slots, SlotBase, Matches, Scannable, FoundAt, Reads,
           NoneBefore;
      scan := Ended;
      ValuesBelowTop(0);
      if scans { ScanInVolume(d, j); }
      ok := ReadCluster(cluster);
      if !ok { return; }
      ghost var seen;
      scan, seen := ScanFor(buffer, geo.clusterSize / SLOT_SIZE, name);
      if scans { ScannedCluster(d, name, j, scan, seen); }
    }

    /** The outcome of a lookup in a directory that can be scanned. */
    ghost predicate LookedUp(d: nat, name: ShortName, res: int, entry: Slot, oc: nat, idx: nat, i: nat, j: nat)
      requires Mounted()
      reads `geo, `ready, `rootDirty, `mirrored, `tree, table, table.bytes, root, dev`medium
    {
      && (res == OK ==> FoundAt(d, name, entry, oc, idx, i, j))
      && (res == ERR_NOT_FOUND ==> Entry(View(), tree.alloc, d, name) == None)
    }

    /** One round of fat12_find_entry's loop; `fine` says that the commands of the lookup do not fail. */
    method LookInCluster(cluster: nat, d: nat, name: ShortName, ghost j: nat, ghost scans: bool, ghost fine: bool)
      returns (done: bool, res: int, entry: Slot, idx: nat, ghost i: nat)
      requires Mounted() && OnDevice(geo, cluster)
      requires scans ==> CanScan(d) && d != 0 && j < |tree.alloc.chains[d]| && cluster == tree.alloc.chains[d][j]
      requires scans ==> Searching(View(), tree.alloc, geo.clusterSize, d, name, j)
      requires fine ==> scans && dev.faults(dev.clock).Fine?
      modifies dev`clock, buffer
      ensures Mounted() && View() == old(View()) && dev.clock >= old(dev.clock)
      ensures done ==> res == OK || res == ERR_NOT_FOUND || (res == ERR_IO && !dev.FineSince(old(dev.clock)))
      ensures done && res == OK ==> Addressable(cluster, idx)
      ensures done && scans ==> LookedUp(d, name, res, entry, cluster, idx, i, j)
      ensures !done && scans ==> Searching(View(), tree.alloc, geo.clusterSize, d, name, j + 1)
      ensures fine ==> dev.clock == old(dev.clock) + 1
      ensures fine && done ==> res != ERR_IO && Reads(View(), tree.alloc, geo.clusterSize, d, name) == j + 1
      ensures dev.AllFail(old(dev.clock), Attempts(geo.sectorsPerCluster)) ==>
                done && res == ERR_IO && dev.clock == old(dev.clock) + Attempts(geo.sectorsPerCluster)
    {
      hide Synced, SlotBase, Scannable, FoundAt, Searching, Entry;
      done, res, entry, idx, i := true, ERR_IO, Zeros(SLOT_SIZE), 0, 0;
      var ok, scan := FindInCluster(cluster, d, name, j, scans);
      if !ok { return; }
      match scan {
        case Found(k, e) => return true, OK, e, k, SlotBase(View(), tree.alloc, d, j) + k;
        case Ended => return true, ERR_NOT_FOUND, entry, 0, 0;
        case Exhausted => return false, OK, entry, 0, 0;
      }
    }

    /** fat12_find_entry along the clusters of a subdirectory. */
    method FindInChain(d: nat, name: ShortName) returns (res: int, entry: Slot, oc: nat, idx: nat, ghost i: nat, ghost j: nat)
      requires Mounted() && d != 0 && (CanScan(d) || Sturdy())
      modifies dev`clock, buffer
      ensures Mounted() && View() == old(View()) && dev.clock >= old(dev.clock)
      ensures res == OK || res == ERR_NOT_FOUND || (res == ERR_IO && !dev.FineSince(old(dev.clock)))
      ensures res == OK ==> oc != 0 && Addressable(oc, idx)
      ensures old(CanScan(d)) ==> LookedUp(d, name, res, entry, oc, idx, i, j)
      ensures old(CanScan(d)) ==>
                var cost := Reads(View(), tree.alloc, geo.clusterSize, d, name);
                dev.AllFine(old(dev.clock), cost) ==> res != ERR_IO && dev.clock == old(dev.clock) + cost
      ensures IsLink(d) && dev.AllFail(old(dev.clock), Attempts(geo.sectorsPerCluster)) ==>
                res == ERR_IO && dev.clock == old(dev.clock) + Attempts(geo.sectorsPerCluster)
    {
      hide Booted, Put, Get, Entries, SlotsOf, Reachable, View, Synced, SlotBase, IsWalk, Scannable, FoundAt, Reads, Sturdy,
           Searching, Entry, Addressable, Mounted, LookedUp;
      Apart();
      res, entry, oc, idx, i := ERR_NOT_FOUND, Zeros(SLOT_SIZE), 0, 0, 0;
      ghost var img, a, cs, scans := View(), tree.alloc, geo.clusterSize, CanScan(d);
      ghost var s := PickWalk(d);
      ghost var cost := Reads(img, a, cs, d, name);
      ghost var fine := scans && dev.AllFine(dev.clock, cost);
      var cluster := d;
      j := 0;
      OnWalk(d, s, 0);
      if scans { StartOfSearch(d, name); }
      while IsLink(cluster)
        invariant 0 <= j <= |s| && Mounted() && View() == img && dev.clock >= old(dev.clock)
        invariant if j < |s| then cluster == s[j] else !IsLink(cluster)
        invariant scans ==> Searching(img, a, cs, d, name, j)
        invariant fine ==> dev.clock == old(dev.clock) + j
        invariant if j == 0 then cluster == d && dev.clock == old(dev.clock)
                  else !dev.AllFail(old(dev.clock), Attempts(geo.sectorsPerCluster))
        decreases |s| - j
      {
        OnWalk(d, s, j);
        if fine { StillSearching(img, a, cs, d, name, j); }
        var done;
        done, res, entry, idx, i := LookInCluster(cluster, d, name, j, scans, fine);
        if done { return res, entry, cluster, idx, i, j; }
        cluster := table.GetEntry(cluster);
        j := j + 1;
      }
      OnWalk(d, s, j);
      assert j == |s|;
      if scans { EndOfSearch(d, name); }
      return ERR_NOT_FOUND, entry, 0, 0, 0, 0;
    }

    lemma StartOfSearch(d: nat, name: ShortName)
      requires CanScan(d) && d != 0
      ensures Searching(View(), tree.alloc, geo.clusterSize, d, name, 0)
    {
      SlotBaseEnds(View(), tree.alloc, geo.clusterSize, d);
      SearchGoesOn(View(), tree.alloc, geo.clusterSize, d, name, 0);
    }

    lemma EndOfSearch(d: nat, name: ShortName)
      requires CanScan(d) && d != 0 && Searching(View(), tree.alloc, geo.clusterSize, d, name, |tree.alloc.chains[d]|)
      ensures Entry(View(), tree.alloc, d, name) == None && Reads(View(), tree.alloc, geo.clusterSize, d, name) == |tree.alloc.chains[d]|
      ensures forall e, oc, idx, i, j :: LookedUp(d, name, ERR_NOT_FOUND, e, oc, idx, i, j)
    {
      SlotBaseEnds(View(), tree.alloc, geo.clusterSize, d);
      ScanIsComplete(SlotsOf(View(), tree.alloc, d), name, |SlotsOf(View(), tree.alloc, d)|);
    }

    lemma ScanInVolume(d: nat, j: nat)
      requires CanScan(d) && d != 0 && j < |tree.alloc.chains[d]|
      ensures InVolume(geo, tree.alloc.chains[d][j]) && geo.clusterSize % SLOT_SIZE == 0
    {
      ValuesBelowTop(tree.alloc.chains[d][j]);
    }

    /** fat12_find_entry. The root directory is searched in memory, so that search cannot fail. */
    method FindEntry(d: nat, name: ShortName) returns (res: int, entry: Slot, oc: nat, idx: nat, ghost i: nat, ghost j: nat)
      requires Mounted() && (CanScan(d) || Sturdy())
      modifies dev`clock, buffer
      ensures Mounted() && View() == old(View()) && dev.clock >= old(dev.clock)
      ensures res == OK || res == ERR_NOT_FOUND || (res == ERR_IO && !dev.FineSince(old(dev.clock)))
      ensures d == 0 ==> res != ERR_IO && dev.clock == old(dev.clock)
      ensures res == OK ==> Addressable(oc, idx) && (oc == 0 <==> d == 0)
      ensures CanScan(d) && res == OK ==> FoundAt(d, name, entry, oc, idx, i, j)
      ensures CanScan(d) && res == ERR_NOT_FOUND ==> Entry(View(), tree.alloc, d, name) == None
      ensures CanScan(d) && dev.AllFine(old(dev.clock), Cost(d, name)) ==>
                res != ERR_IO && dev.clock == old(dev.clock) + Cost(d, name)
      ensures IsLink(d) && dev.AllFail(old(dev.clock), Attempts(geo.sectorsPerCluster)) ==>
                res == ERR_IO && dev.clock == old(dev.clock) + Attempts(geo.sectorsPerCluster)
    {
      hide Reachable, Booted, Sturdy, SlotsOf, Scannable;
      if d == 0 {
        res, entry, idx := FindInRoot(name);
        oc, i, j := 0, idx, 0;
      } else {
        res, entry, oc, idx, i, j := FindInChain(d, name);
      }
    }

    /** A slot of a directory can be written. */
    lemma PlaceIsAddressable(d: nat, i: nat, oc: nat, idx: nat, j: nat)
      requires CanScan(d) && Located(View(), tree.alloc, d, i, oc, idx, j)
      ensures Addressable(oc, idx) && (oc == 0 <==> d == 0)
      ensures d != 0 ==> InVolume(geo, oc) && d in tree.alloc.chains && j < |tree.alloc.chains[d]| && oc == tree.alloc.chains[d][j]
    {
      RootView();
      ValuesBelowTop(oc);
    }

    /** fat12_write_entry. `kept` says that a failure came before the disk was touched. */
    method WriteEntry(oc: nat, idx: nat, e: Slot) returns (res: int, kept: bool)
      requires Mounted() && Addressable(oc, idx)
      modifies `rootDirty, root, dev, buffer
      ensures Mounted() && dev.clock >= old(dev.clock)
      ensures res == OK || (res == ERR_IO && !dev.FineSince(old(dev.clock)))
      ensures kept || res == ERR_IO
      ensures oc == 0 ==> res == OK && dev.clock == old(dev.clock)
      ensures res == OK && (oc == 0 || InVolume(geo, oc)) ==> View() == Stored(old(View()), oc, idx, e)
      ensures View().fat == old(View()).fat
      ensures oc != 0 ==> root[..] == old(root[..]) && OnlyDiffersAt(old(View()), View(), {oc})
      ensures kept && res != OK ==> View() == old(View())
      ensures oc != 0 && InVolume(geo, oc) && dev.faults(old(dev.clock)).Fine?
              && dev.AllSpoil(old(dev.clock) + 1, Attempts(geo.sectorsPerCluster), Debris(dev.faults(old(dev.clock) + 1))) ==>
                && res == ERR_IO && !kept && |old(View()).data[oc]| == geo.clusterSize
                && View().data[oc] == Splice(old(View()).data[oc], 0, Debris(dev.faults(old(dev.clock) + 1)))
    {
      hide Stored;
      RootView();
      ValuesBelowTop(oc);
      kept := true;
      if oc == 0 {
        if idx >= geo.rootEntryCount { return ERR_OUT_OF_RANGE, true; }
        StoreInRoot(idx, e);
        return OK, true;
      }
      res, kept := WriteEntryInCluster(oc, idx, e);
    }

    /** The memcpy into g_root_dir. */
    method StoreInRoot(idx: nat, e: Slot)
      requires Mounted() && idx < geo.rootEntryCount
      modifies `rootDirty, root
      ensures Mounted() && rootDirty && View() == Stored(old(View()), 0, idx, e) && View().fat == old(View()).fat
    {
      hide RootCopy;
      ghost var before := root[..];
      RootView();
      CopyToRoot(SLOT_SIZE * idx, e);
      SplicePrefix(before, SLOT_SIZE * idx, e, SLOT_SIZE * geo.rootEntryCount);
      rootDirty := true;
    }

    method CopyToRoot(at: nat, e: Slot)
      requires at + SLOT_SIZE <= root.Length
      modifies root
      ensures root[..] == Splice(old(root[..]), at, e)
    {
      forall k | 0 <= k < SLOT_SIZE { root[at + k] := e[k]; }
    }

    /** Read the directory cluster, patch the entry, write it back. */
    method WriteEntryInCluster(oc: nat, idx: nat, e: Slot) returns (res: int, kept: bool)
      requires Mounted() && OnDevice(geo, oc) && SLOT_SIZE * idx + SLOT_SIZE <= geo.clusterSize
      modifies dev, buffer
      ensures Mounted() && dev.clock >= old(dev.clock)
      ensures res == OK || (res == ERR_IO && !dev.FineSince(old(dev.clock)))
      ensures kept || res == ERR_IO
      ensures res == OK && InVolume(geo, oc) ==> View() == Stored(old(View()), oc, idx, e)
      ensures View().fat == old(View()).fat && OnlyDiffersAt(old(View()), View(), {oc})
      ensures kept && res != OK ==> View() == old(View())
      ensures InVolume(geo, oc) && dev.faults(old(dev.clock)).Fine?
              && dev.AllSpoil(old(dev.clock) + 1, Attempts(geo.sectorsPerCluster), Debris(dev.faults(old(dev.clock) + 1))) ==>
                && res == ERR_IO && !kept && |old(View()).data[oc]| == geo.clusterSize
                && View().data[oc] == Splice(old(View()).data[oc], 0, Debris(dev.faults(old(dev.clock) + 1)))
    {
      hide Booted, Reachable, Synced, View;
      ghost var img := View();
      ValuesBelowTop(oc);
      var ok := ReadCluster(oc);
      if !ok { return ERR_IO, true; }
      var maxEntries := geo.clusterSize / SLOT_SIZE;
      if idx >= maxEntries { return ERR_OUT_OF_RANGE, true; }
      ghost var before := buffer[..geo.clusterSize];
      PatchBuffer(idx, e);
      ok := WriteCluster(oc);
      if !ok { return ERR_IO, false; }
      if InVolume(geo, oc) { assert View().data == img.data[oc := Splice(img.data[oc], SLOT_SIZE * idx, e)]; }
      return OK, true;
    }

    /** The memcpy into the cluster buffer. */
    method PatchBuffer(idx: nat, e: Slot)
      requires SLOT_SIZE * idx + SLOT_SIZE <= geo.clusterSize <= buffer.Length
      modifies buffer
      ensures buffer[..geo.clusterSize] == Splice(old(buffer[..geo.clusterSize]), SLOT_SIZE * idx, e)
    {
      forall k | 0 <= k < SLOT_SIZE { buffer[SLOT_SIZE * idx + k] := e[k]; }
    }

    /** `d` is a full directory that ends at cluster `prev`. */
    ghost predicate Growable(loose: set<nat>, d: nat, prev: nat)
      reads `geo, `ready, `rootDirty, `mirrored, `tree, table, table.bytes, root, dev`medium
    {
      && Whole(loose) && d in tree.dirs && d in tree.alloc.chains && |tree.alloc.chains[d]| > 0
      && prev == LastOf(tree.alloc, d) && prev != 0 && DirFull(View(), tree.alloc, d)
    }

    /** The freshly allocated cluster can be linked to the full directory. */
    lemma GrownIsLinkable(loose: set<nat>, img0: Image, t0: Tree, d: nat, prev: nat, c: nat)
      requires WellFormed(img0, t0, geo.clusterSize, loose) && d in t0.dirs && d in t0.alloc.chains && |t0.alloc.chains[d]| > 0
      requires Whole(loose + {c}) && tree == t0.(alloc := WithNew(t0.alloc, c)) && c !in t0.alloc.chains
      requires prev == LastOf(t0.alloc, d) && c < |View().fat| && View().fat[c] == EOC
      requires c < |View().data| && View().data[c] == Zeros(geo.clusterSize)
      ensures Linkable(View(), tree, geo.clusterSize, loose + {c}, d, prev, c)
    {
      hide WellFormed, View, Zeros;
    }

    lemma DirectoryIsGrown(loose: set<nat>, img0: Image, t0: Tree, img1: Image, t1: Tree, d: nat, prev: nat, c: nat)
      requires WellFormed(img0, t0, geo.clusterSize, loose) && d in t0.dirs && d in t0.alloc.chains && DirFull(img0, t0.alloc, d)
      requires WellFormed(img1, t1, geo.clusterSize, loose + {c}) && t1 == t0.(alloc := WithNew(t0.alloc, c))
      requires c !in t0.alloc.at && c !in t0.alloc.chains && c !in loose && c != 0 && Mounted()
      requires SameFiles(img0, t0, img1, t1) && OnlyDiffersAt(img0, img1, {c})
      requires c < |img1.data| && img1.data[c] == Zeros(geo.clusterSize)
      requires Linked(img1, t1, View(), tree, loose + {c}, d, prev, c) && tree == t1.(alloc := WithLink(t1.alloc, d, c))
      ensures SameFiles(img0, t0, View(), tree) && DirectoryGrown(loose, img0, t0, View(), tree, d, c)
    {
      hide View, SameFiles, Linked, DirectoryGrown, OwnerOk, EntryOk, DirOk, SlotsOf, AllLiveBefore, Partition, OnlyDiffersAt, Zeros;
      ValuesBelowTop(0);
      LinkedFiles(img1, t1, View(), tree, loose + {c}, d, prev, c);
      SameFilesJoin(img0, t0, img1, t1, View(), tree);
      GrowthEffect(img0, t0, geo.clusterSize, loose, img1, View(), tree, d, c);
    }

    /** Growing a full directory: fat12_find_free_entry past the last cluster. */
    method GrowDirectory(ghost loose: set<nat>, ghost d: nat, prev: nat) returns (cluster: nat)
      requires Mounted() && (prev == 0 || IsLink(prev))
      modifies dev, table`dirty, table.bytes, buffer, `tree
      ensures Mounted() && dev.clock >= old(dev.clock) && (old(Sturdy()) ==> Sturdy())
      ensures cluster == 0 ==> table.bytes[..] == old(table.bytes[..]) && View().fat == old(View()).fat && tree == old(tree)
      ensures cluster == 0 && dev.FineSince(old(dev.clock)) ==> FreeCount(old(View().fat)) == 0
      ensures dev.faults(old(dev.clock)).Fine? && FreeCount(old(View().fat)) > 0 ==>
                cluster != 0 && dev.clock == old(dev.clock) + 1
      ensures cluster != 0 ==> Addressable(cluster, 0) && InVolume(geo, cluster) && FreeCount(old(View().fat)) > 0
      ensures old(Growable(loose, d, prev)) ==> Whole(loose) && SameFiles(old(View()), old(tree), View(), tree)
      ensures old(Growable(loose, d, prev)) && cluster == 0 ==> SlotsOf(View(), tree.alloc, d) == SlotsOf(old(View()), old(tree).alloc, d)
      ensures old(Growable(loose, d, prev)) && cluster != 0 ==>
                DirectoryGrown(loose, old(View()), old(tree), View(), tree, d, cluster)
    {
      hide Booted, Put, Get, Entries, Reachable, Synced, View, Partition, Physical, SameFiles, Undisturbed, ChainData,
           SameSlack, AllLiveBefore, DirectoryGrown, WellFormed, Sturdy, Linked, IsLink, FreeCount;
      ghost var img0, t0 := View(), tree;
      ghost var growable := Growable(loose, d, prev);
      ValuesBelowTop(0);
      cluster := AllocateCluster(loose);
      if growable { UndisturbedParts(img0, t0, View(), tree, d); }
      if cluster == 0 { return; }
      ValuesBelowTop(cluster);
      ghost var img1, t1 := View(), tree;
      if growable { GrownIsLinkable(loose, img0, t0, d, prev, cluster); }
      if prev != 0 { LinkCluster(loose + {cluster}, d, prev, cluster); }
      if growable {
        assert loose + {cluster} - {cluster} == loose;
        DirectoryIsGrown(loose, img0, t0, img1, t1, d, prev, cluster);
      }
    }

    method FindFreeInRoot() returns (res: int, idx: nat)
      requires Mounted()
      ensures res == OK || res == ERR_DIR_FULL
      ensures res == OK ==> Addressable(0, idx)
      ensures res == OK ==>
                && Located(View(), tree.alloc, 0, idx, 0, idx, 0) && AllLiveBefore(SlotsOf(View(), tree.alloc, 0), idx)
                && idx < |SlotsOf(View(), tree.alloc, 0)| && IsFree(SlotsOf(View(), tree.alloc, 0)[idx])
      ensures res == ERR_DIR_FULL <==> DirFull(View(), tree.alloc, 0)
    {
      RootView();
      var found, index := ScanForFree(root, geo.rootEntryCount);
      return if found then OK else ERR_DIR_FULL, index;
    }

    /** The scan of one cluster for a free slot, placed in the directory. */
    lemma FreeScanned(d: nat, j: nat, found: bool, index: nat)
      requires CanScan(d) && d != 0 && j < |tree.alloc.chains[d]| && AllTaken(View(), tree.alloc, geo.clusterSize, d, j)
      requires var slots, n := Slots(View().data[tree.alloc.chains[d][j]]), geo.clusterSize / SLOT_SIZE;
               && |slots| == n && AllLiveBefore(slots, index) && (if found then index < n && IsFree(slots[index]) else index == n)
      ensures found ==>
                var i := SlotBase(View(), tree.alloc, d, j) + index;
                && Located(View(), tree.alloc, d, i, tree.alloc.chains[d][j], index, j)
                && AllLiveBefore(SlotsOf(View(), tree.alloc, d), i)
                && i < |SlotsOf(View(), tree.alloc, d)| && IsFree(SlotsOf(View(), tree.alloc, d)[i])
                && FreeReads(View(), tree.alloc, geo.clusterSize, d) == j + 1
      ensures !found ==> AllTaken(View(), tree.alloc, geo.clusterSize, d, j + 1)
    {
      hide View, SlotsOf, Slots, SlotBase, Scannable, AllLiveBefore, IsFree, Located, FreeReads;
      var img, a, cs := View(), tree.alloc, geo.clusterSize;
      FreeScanContinues(img, a, cs, d, j, index);
      ScanWindow(d, j, index);
      if found { FreeReadsHere(img, a, cs, d, j, index); } else { TakenGoesOn(img, a, cs, d, j + 1); }
    }

    /** One round of the loop of fat12_find_free_entry. */
    method FindFreeInCluster(cluster: nat, ghost d: nat, ghost j: nat, ghost scans: bool) returns (ok: bool, found: bool, index: nat)
      requires Mounted() && OnDevice(geo, cluster)
      requires scans ==> CanScan(d) && d != 0 && j < |tree.alloc.chains[d]| && cluster == tree.alloc.chains[d][j]
      requires scans ==> AllTaken(View(), tree.alloc, geo.clusterSize, d, j)
      modifies dev`clock, buffer
      ensures Mounted() && View() == old(View()) && dev.clock >= old(dev.clock) && (dev.FineSince(old(dev.clock)) ==> ok)
      ensures dev.faults(old(dev.clock)).Fine? ==> ok && dev.clock == old(dev.clock) + 1
      ensures ok && found ==> Addressable(cluster, index)
      ensures ok && found && scans ==> FreeReads(View(), tree.alloc, geo.clusterSize, d) == j + 1
      ensures ok && found && scans ==>
                var i := SlotBase(View(), tree.alloc, d, j) + index;
                && Located(View(), tree.alloc, d, i, cluster, index, j) && AllLiveBefore(SlotsOf(View(), tree.alloc, d), i)
                && i < |SlotsOf(View(), tree.alloc, d)| && IsFree(SlotsOf(View(), tree.alloc, d)[i])
      ensures ok && !found && scans ==> AllTaken(View(), tree.alloc, geo.clusterSize, d, j + 1)
    {
      hide Booted, Get, Reachable, View, Synced, Capacity, SlotsOf, Slots, SlotBase, Scannable, AllLiveBefore, IsFree,
           Located;
      found, index := false, 0;
      ValuesBelowTop(0);
      if scans { ScanInVolume(d, j); }
      ok := ReadCluster(cluster);
      if !ok { return; }
      found, index := ScanForFree(buffer, geo.clusterSize / SLOT_SIZE);
      if scans {
        BufferHolds(View().data[cluster]);
        FreeScanned(d, j, found, index);
      }
    }

    lemma ScanWindow(d: nat, j: nat, index: nat)
      requires CanScan(d) && d != 0 && j < |tree.alloc.chains[d]| && index <= geo.clusterSize / SLOT_SIZE
      ensures index == geo.clusterSize / SLOT_SIZE ==>
                SlotBase(View(), tree.alloc, d, j) + index == SlotBase(View(), tree.alloc, d, j + 1)
      ensures index < geo.clusterSize / SLOT_SIZE ==>
                var i := SlotBase(View(), tree.alloc, d, j) + index; var oc := tree.alloc.chains[d][j];
                && Located(View(), tree.alloc, d, i, oc, index, j)
                && i < |SlotsOf(View(), tree.alloc, d)| && index < |Slots(View().data[oc])|
                && SlotsOf(View(), tree.alloc, d)[i] == Slots(View().data[oc])[index]
    {
      hide View, Slots;
      SlotsWindow(View(), tree.alloc, geo.clusterSize, d, j);
      if index < geo.clusterSize / SLOT_SIZE { LocatedInCluster(View(), tree.alloc, geo.clusterSize, d, j, index); }
    }

    /** The walk over the clusters of a subdirectory; NOT_FOUND when every slot is taken, with the last cluster. */
    method FindFreeInChain(d: nat) returns (res: int, oc: nat, idx: nat, ghost i: nat, ghost j: nat, last: nat)
      requires Mounted() && d != 0 && (CanScan(d) || Sturdy())
      modifies dev`clock, buffer
      ensures Mounted() && View() == old(View()) && dev.clock >= old(dev.clock)
      ensures res == OK || res == ERR_NOT_FOUND || (res == ERR_IO && !dev.FineSince(old(dev.clock)))
      ensures old(CanScan(d)) ==>
                var cost := FreeReads(View(), tree.alloc, geo.clusterSize, d);
                dev.AllFine(old(dev.clock), cost) ==> res != ERR_IO && dev.clock == old(dev.clock) + cost
      ensures res == OK ==> oc != 0 && Addressable(oc, idx)
      ensures last == 0 || IsLink(last)
      ensures old(CanScan(d)) && res == OK ==>
                && Located(View(), tree.alloc, d, i, oc, idx, j) && AllLiveBefore(SlotsOf(View(), tree.alloc, d), i)
                && i < |SlotsOf(View(), tree.alloc, d)| && IsFree(SlotsOf(View(), tree.alloc, d)[i])
      ensures old(CanScan(d)) && res == ERR_NOT_FOUND ==>
                && d in tree.alloc.chains && |tree.alloc.chains[d]| > 0 && last == LastOf(tree.alloc, d)
                && DirFull(View(), tree.alloc, d)
    {
      hide Booted, Get, Entries, Reachable, View, Synced, SlotsOf, SlotBase, IsWalk, Scannable, Sturdy, AllLiveBefore,
           IsFree, Located, Addressable, Mounted, CanScan, FreeReads;
      Apart();
      oc, idx, i, last := 0, 0, 0, 0;
      ghost var img, a, scans := View(), tree.alloc, CanScan(d);
      ghost var s := PickWalk(d);
      ghost var cs := geo.clusterSize;
      ghost var cost := FreeReads(img, a, cs, d);
      ghost var fine := scans && dev.AllFine(dev.clock, cost);
      var cluster := d;
      j := 0;
      OnWalk(d, s, 0);
      if scans { FreeScanBounds(d); }
      while IsLink(cluster)
        invariant 0 <= j <= |s| && Mounted() && View() == img && dev.clock >= old(dev.clock)
        invariant if j < |s| then cluster == s[j] else !IsLink(cluster)
        invariant if j > 0 then last == s[j - 1] && IsLink(last) else last == 0
        invariant scans ==> AllTaken(img, a, cs, d, j)
        invariant fine ==> dev.clock == old(dev.clock) + j
        decreases |s| - j
      {
        OnWalk(d, s, j);
        if fine { StillTaken(img, a, cs, d, j); }
        var ok, found, index := FindFreeInCluster(cluster, d, j, scans);
        if !ok { return ERR_IO, 0, 0, 0, 0, last; }
        if found { return OK, cluster, index, SlotBase(img, a, d, j) + index, j, last; }
        last := cluster;
        cluster := table.GetEntry(cluster);
        j := j + 1;
      }
      OnWalk(d, s, j);
      assert j == |s|;
      return ERR_NOT_FOUND, 0, 0, 0, 0, last;
    }

    lemma FreeScanBounds(d: nat)
      requires CanScan(d) && d != 0
      ensures d in tree.alloc.chains && |tree.alloc.chains[d]| > 0
      ensures SlotBase(View(), tree.alloc, d, 0) == 0
      ensures AllTaken(View(), tree.alloc, geo.clusterSize, d, 0)
      ensures AllTaken(View(), tree.alloc, geo.clusterSize, d, |tree.alloc.chains[d]|) ==>
                DirFull(View(), tree.alloc, d) && FreeReads(View(), tree.alloc, geo.clusterSize, d) == |tree.alloc.chains[d]|
    {
      SlotBaseEnds(View(), tree.alloc, geo.clusterSize, d);
      TakenGoesOn(View(), tree.alloc, geo.clusterSize, d, 0);
    }

    /** A file system but for the chains of `loose`, with `d` one of its directories. */
    ghost predicate Intact(loose: set<nat>, d: nat)
      reads `geo, `ready, `rootDirty, `mirrored, `tree, table, table.bytes, root, dev`medium
    {
      Whole(loose) && IsDir(tree, d)
    }

    lemma IntactParts(loose: set<nat>, d: nat)
      requires Intact(loose, d)
      ensures CanScan(d) && (d != 0 ==> IsLink(d) && d in tree.alloc.chains && |tree.alloc.chains[d]| > 0)
      ensures d < TWO16 && 2 * SLOT_SIZE <= geo.clusterSize && geo.clusterSize % SLOT_SIZE == 0
    {
      DirectoriesAreScannable(View(), tree, geo.clusterSize, loose, d);
      WholeParts(loose);
      ChainsInRange(View().fat, tree.alloc);
      ValuesBelowTop(0);
      BigClusters();
    }

    /** Whether the search succeeds after `cost` commands, if none of them fails. */
    ghost predicate Timely(res: int, start: nat, cost: nat)
      reads dev`clock
    {
      dev.AllFine(start, cost) ==> res == OK && dev.clock == start + cost
    }

    /** fat12_find_free_entry. */
    method FindFreeEntry(ghost loose: set<nat>, d: nat)
      returns (res: int, oc: nat, idx: nat, ghost i: nat, ghost j: nat)
      requires Mounted() && (Intact(loose, d) || Sturdy())
      modifies dev, table`dirty, table.bytes, buffer, `tree
      ensures Mounted() && dev.clock >= old(dev.clock) && (old(Sturdy()) ==> Sturdy())
      ensures res in {OK, ERR_DIR_FULL, ERR_NO_FREE_CLUSTER} || (res == ERR_IO && !dev.FineSince(old(dev.clock)))
      ensures old(Intact(loose, d) && d != 0 && (DirFull(View(), tree.alloc, d) ==> FreeCount(View().fat) > 0)) ==>
                Timely(res, old(dev.clock), FreeCost(old(View()), old(tree).alloc, geo.clusterSize, d))
      ensures d == 0 ==> (res == OK || res == ERR_DIR_FULL) && dev.clock == old(dev.clock)
      ensures res == OK ==> Addressable(oc, idx) && (oc == 0 <==> d == 0)
      ensures res != OK ==> table.bytes[..] == old(table.bytes[..]) && tree == old(tree)
      ensures res == ERR_DIR_FULL ==> d == 0
      ensures res == ERR_NO_FREE_CLUSTER ==> d != 0 && (dev.FineSince(old(dev.clock)) ==> FreeCount(old(View().fat)) == 0)
      ensures old(Intact(loose, d)) ==>
                Intact(loose, d) && FreeEffect(res, old(View()), old(tree), View(), tree, loose, d, oc, idx, i, j)
    {
      hide Booted, Put, Get, Entries, Reachable, Synced, View, SameFiles, WellFormed, Sturdy, SlotsOf, IsFree, Located,
           Scannable, Addressable, AllLiveBefore, FreeCount, DirectoryGrown, CanScan, FreeEffect;
      ghost var intact, img, t := Intact(loose, d), View(), tree;
      if intact { IntactParts(loose, d); }
      if d == 0 {
        res, idx := FindFreeInRoot();
        oc, i, j := 0, idx, 0;
      } else {
        var last;
        res, oc, idx, i, j, last := FindFreeInChain(d);
        if res == ERR_NOT_FOUND {
          if intact { WholeParts(loose); }
          var cluster := GrowDirectory(loose, d, last);
          if cluster == 0 {
            if intact { NotGrown(img, t, View(), loose, d, 0, 0, 0, 0); }
            return ERR_NO_FREE_CLUSTER, 0, 0, 0, 0;
          }
          if intact {
            GrownIsFreePlace(loose, img, t, View(), tree, d, cluster);
            FreeEffectFiles(OK, img, t, View(), tree, loose, d, cluster, 0, |SlotsOf(img, t.alloc, d)|, |t.alloc.chains[d]|);
          }
          i, j := |SlotsOf(img, t.alloc, d)|, if d in t.alloc.chains then |t.alloc.chains[d]| else 0;
          return OK, cluster, 0, i, j;
        }
      }
      if intact { FreeHere(res, img, t, geo.clusterSize, loose, d, oc, idx, i, j); }
    }

    /** Commands before the place of an entry is known. */
    ghost function EntryCost(d: nat, name: ShortName): nat
      requires Mounted()
      reads `geo, `ready, `rootDirty, `mirrored, `tree, table, table.bytes, root, dev`medium
    {
      PlaceCost(View(), tree.alloc, geo.clusterSize, d, name)
    }

    /** The disk fails when a slot of the directory is written back, and leaves garbage there. */
    ghost predicate GarblesOn(res: int, kept: bool, img: Image, a: Allocation, cost: nat, start: nat, d: nat)
      reads `geo
    {
      dev.AllFine(start, cost) && dev.AllSpoil(start + cost, Attempts(geo.sectorsPerCluster), Garbage()) ==>
        res == ERR_IO && !kept && Garbled(img, a, d)
    }

    lemma GarblesLater(res: int, kept: bool, img: Image, a: Allocation, before: nat, cost: nat, start: nat, d: nat)
      requires dev.AllFine(start, before) ==> GarblesOn(res, kept, img, a, cost, start + before, d)
      ensures GarblesOn(res, kept, img, a, before + cost, start, d)
    {
      hide Garbled;
    }

    lemma GarblesNot(res: int, kept: bool, img: Image, a: Allocation, before: nat, cost: nat, start: nat, d: nat)
      requires !dev.AllFine(start, before) && before <= cost
      ensures GarblesOn(res, kept, img, a, cost, start, d)
    {
    }

    lemma MayGarble(mid: Image, kept: bool, d: nat, j: nat, oc: nat)
      requires Mounted() && d != 0 && Scannable(mid, tree.alloc, geo.clusterSize, d) && View().fat == mid.fat
      requires j < |tree.alloc.chains[d]| && oc == tree.alloc.chains[d][j] && OnlyDiffersAt(mid, View(), {oc})
      ensures oc < |mid.data| == |View().data|
      ensures View().data[oc] == Splice(mid.data[oc], 0, Garbage()) ==> Garbled(View(), tree.alloc, d)
    {
      ValuesBelowTop(0);
      if View().data[oc] == Splice(mid.data[oc], 0, Garbage()) {
        GarbledDirectory(mid, tree.alloc, geo.clusterSize, View(), d, j);
      }
    }

    /** The place for a name that the directory does not hold. */
    method FindNewPlace(ghost loose: set<nat>, d: nat, ghost name: ShortName)
      returns (res: int, oc: nat, idx: nat, ghost i: nat, ghost j: nat)
      requires Mounted() && (Intact(loose, d) || Sturdy())
      requires Intact(loose, d) ==> Entry(View(), tree.alloc, d, name).None?
      modifies dev, table`dirty, table.bytes, buffer, `tree
      ensures Mounted() && dev.clock >= old(dev.clock) && (old(Sturdy()) ==> Sturdy())
      ensures res in {OK, ERR_DIR_FULL, ERR_NO_FREE_CLUSTER} || (res == ERR_IO && !dev.FineSince(old(dev.clock)))
      ensures d == 0 ==> res != ERR_IO
      ensures res == OK ==> Addressable(oc, idx) && (oc == 0 <==> d == 0)
      ensures res == ERR_DIR_FULL ==> d == 0
      ensures res != OK ==> table.bytes[..] == old(table.bytes[..]) && tree == old(tree)
      ensures old(Intact(loose, d)) ==>
                && Intact(loose, d)
                && PlaceEffect(res, false, dev.FineSince(old(dev.clock)), old(View()), old(tree), View(), tree, loose, d, name,
                               oc, idx, i, j)
      ensures old(Intact(loose, d) && d != 0 && StoreOutcome(View(), tree.alloc, d, name, 0) == OK) ==>
                Timely(res, old(dev.clock), FreeCost(old(View()), old(tree).alloc, geo.clusterSize, d))
    {
      hide Booted, Put, Get, Entries, Reachable, Synced, View, SameFiles, WellFormed, Sturdy, SlotsOf, Addressable, DirFull, FreeCount,
           FreePlace, Lookup, FreeCost, FreeEffect, PlaceEffect, Fullness, StoreOutcome;
      ghost var intact, img0, t0 := Intact(loose, d), View(), tree;
      if intact && StoreOutcome(img0, t0.alloc, d, name, 0) == OK && DirFull(img0, t0.alloc, d) { RoomToGrow(img0, t0.alloc, d, name); }
      res, oc, idx, i, j := FindFreeEntry(loose, d);
      if intact {
        SearchedIsFull(res, dev.FineSince(old(dev.clock)), img0, t0, View(), tree, loose, d, name, oc, idx, i, j);
        FreeIsPlace(res, dev.FineSince(old(dev.clock)), img0, t0, View(), tree, loose, d, name, oc, idx, i, j);
      }
    }

    /** The place of an entry: where the name is, or the first free slot. */
    method FindPlace(ghost loose: set<nat>, d: nat, name: ShortName)
      returns (res: int, replaced: bool, oc: nat, idx: nat, ghost i: nat, ghost j: nat)
      requires Mounted() && (Intact(loose, d) || Sturdy())
      modifies dev, table`dirty, table.bytes, buffer, `tree
      ensures Mounted() && dev.clock >= old(dev.clock) && (old(Sturdy()) ==> Sturdy())
      ensures res in {OK, ERR_DIR_FULL, ERR_NO_FREE_CLUSTER} || (res == ERR_IO && !dev.FineSince(old(dev.clock)))
      ensures d == 0 ==> res != ERR_IO
      ensures res == OK ==> Addressable(oc, idx) && (oc == 0 <==> d == 0)
      ensures res == ERR_DIR_FULL ==> d == 0
      ensures res != OK ==> table.bytes[..] == old(table.bytes[..]) && tree == old(tree)
      ensures old(Intact(loose, d)) ==> Intact(loose, d)
      ensures old(Intact(loose, d)) ==>
                PlaceEffect(res, replaced, dev.FineSince(old(dev.clock)), old(View()), old(tree), View(), tree, loose, d, name,
                            oc, idx, i, j)
      ensures old(Intact(loose, d) && d != 0 && StoreOutcome(View(), tree.alloc, d, name, 0) == OK) ==>
                Timely(res, old(dev.clock), old(EntryCost(d, name)))
    {
      hide Booted, Put, Get, Entries, Reachable, Synced, View, WellFormed, Sturdy, SlotsOf, Scannable, Addressable, DirFull, FreeCount,
           FoundAt, Lookup, Reads, FreeCost, PlaceEffect, StoreOutcome;
      ghost var intact, img0, t0 := Intact(loose, d), View(), tree;
      if intact { IntactParts(loose, d); }
      var found;
      res, found, oc, idx, i, j := FindEntry(d, name);
      replaced := res == OK;
      if res == OK {
        if intact {
          FoundPlace(d, name, found, oc, idx, i, j);
          FoundIsPlace(dev.FineSince(old(dev.clock)), img0, t0, geo.clusterSize, loose, d, name, oc, idx, i, j);
        }
        return;
      }
      if res != ERR_NOT_FOUND {
        NotSearched(dev.FineSince(old(dev.clock)), img0, t0, loose, d, name, oc, idx, i, j);
        return;
      }
      ghost var half := dev.clock;
      res, oc, idx, i, j := FindNewPlace(loose, d, name);
      if intact {
        LaterIsPlace(res, dev.FineSince(half), dev.FineSince(old(dev.clock)), img0, t0, View(), tree, loose, d, name, oc, idx, i, j);
      }
    }

    lemma FoundPlace(d: nat, name: ShortName, entry: Slot, oc: nat, idx: nat, i: nat, j: nat)
      requires FoundAt(d, name, entry, oc, idx, i, j)
      ensures Mounted() && Entry(View(), tree.alloc, d, name) == Some(entry)
      ensures IsAt(SlotsOf(View(), tree.alloc, d), name, i) && Located(View(), tree.alloc, d, i, oc, idx, j)
    {
    }

    /** The entry is written to its place. */
    method StoreEntry(ghost loose: set<nat>, ghost d: nat, oc: nat, idx: nat, e: Slot, ghost i: nat, ghost j: nat)
      returns (res: int, kept: bool)
      requires Mounted() && Addressable(oc, idx) && (oc == 0 <==> d == 0) && !IsFree(e)
      modifies dev, buffer, root, `rootDirty
      ensures Mounted() && dev.clock >= old(dev.clock) && View().fat == old(View()).fat
      ensures (res == OK || (res == ERR_IO && !dev.FineSince(old(dev.clock)))) && (kept || res == ERR_IO) && (d == 0 ==> res == OK)
      ensures res != OK ==> root[..] == old(root[..])
      ensures old(Placed(loose, d, Name(e), i, oc, idx, j)) ==>
                && (res == OK ==> EntryChanged(old(View()), tree, View(), geo.clusterSize, d, Name(e), Some(e)))
                && (kept && res != OK ==> View() == old(View()))
                && (!kept ==> d != 0 && Scarred(old(View()), tree.alloc, View(), d))
      ensures old(Placed(loose, d, Name(e), i, oc, idx, j)) && d != 0 ==> GarblesOn(res, kept, View(), tree.alloc, 1, old(dev.clock), d)
    {
      hide Booted, Put, Get, Entries, Reachable, Synced, View, WellFormed, SlotsOf, IsFree, Located, Scannable, Addressable, EntryChanged,
           Stored, Name, IsPlaceFor, Garbled, Garbage;
      ghost var placed, img := Placed(loose, d, Name(e), i, oc, idx, j), View();
      if placed {
        IntactParts(loose, d);
        PlaceIsAddressable(d, i, oc, idx, j);
      }
      ghost var k, n := dev.clock + 1, Attempts(geo.sectorsPerCluster);
      ghost var spoils := dev.AllFine(dev.clock, 1) && dev.AllSpoil(k, n, Garbage());
      if spoils {
        SpoilIs(dev, k, n, Garbage());
        assert dev.faults(dev.clock).Fine?;
      }
      res, kept := WriteEntry(oc, idx, e);
      if placed {
        if res == OK { StoreAtPlace(img, tree, geo.clusterSize, loose, d, i, oc, idx, j, e); }
        if d != 0 {
          FailureScars(img, tree.alloc, View(), d, oc);
          MayGarble(img, kept, d, j, oc);
        }
      }
    }

    /** The file system has a place for the name. */
    ghost predicate Placed(loose: set<nat>, d: nat, name: ShortName, i: nat, oc: nat, idx: nat, j: nat)
      reads `geo, `ready, `rootDirty, `mirrored, `tree, table, table.bytes, root, dev`medium
    {
      Intact(loose, d) && Located(View(), tree.alloc, d, i, oc, idx, j) && IsPlaceFor(SlotsOf(View(), tree.alloc, d), name, i)
    }

    /** fat12_write_directory_entry. `replaced` says that the name was there already, `kept` that no write to the
        directory failed; `mid` is the volume just before the slot is written. */
    method WriteDirectoryEntry(ghost loose: set<nat>, d: nat, name: ShortName, e: Slot)
      returns (res: int, kept: bool, replaced: bool, ghost mid: Image)
      requires Mounted() && (Intact(loose, d) || Sturdy()) && Name(e) == name && !IsFree(e)
      modifies dev, table`dirty, table.bytes, buffer, root, `rootDirty, `tree
      ensures Mounted() && dev.clock >= old(dev.clock) && (old(Sturdy()) ==> Sturdy())
      ensures kept || res == ERR_IO
      ensures res in {OK, ERR_DIR_FULL, ERR_NO_FREE_CLUSTER} || (res == ERR_IO && !dev.FineSince(old(dev.clock)))
      ensures d == 0 ==> kept && res != ERR_IO
      ensures res != OK ==> root[..] == old(root[..])
      ensures res == ERR_DIR_FULL ==> d == 0
      ensures res == ERR_DIR_FULL || res == ERR_NO_FREE_CLUSTER ==> table.bytes[..] == old(table.bytes[..]) && tree == old(tree)
      ensures old(Intact(loose, d)) ==>
                EntryEffect(res, kept, replaced, dev.FineSince(old(dev.clock)), old(View()), old(tree), mid, View(), tree,
                            geo.clusterSize, loose, d, name, e)
      ensures old(Intact(loose, d) && d != 0 && StoreOutcome(View(), tree.alloc, d, name, 0) == OK) ==>
                GarblesOn(res, kept, View(), tree.alloc, old(EntryCost(d, name)) + 1, old(dev.clock), d)
    {
      hide Booted, Put, Get, Entries, Reachable, Synced, View, SameFiles, WellFormed, Sturdy, SlotsOf, IsFree, Located, Addressable,
           Fullness, EntryChanged, Name, IsPlaceFor, Lengthened, PlaceCost, StoreOutcome, Garbled;
      ghost var intact, img0, t0 := Intact(loose, d), View(), tree;
      kept, replaced := true, false;
      var oc, idx;
      ghost var i, j;
      res, replaced, oc, idx, i, j := FindPlace(loose, d, name);
      mid := View();
      ghost var fine := dev.FineSince(old(dev.clock));
      if res != OK { return; }
      res, kept := StoreEntry(loose, d, oc, idx, e, i, j);
      if intact { FullnessAfter(res, kept, fine, dev.FineSince(old(dev.clock)), img0, t0.alloc, d, name); }
    }

    // ---------------------------------------------------------------- writing a file's data

    ghost function Pending(first: nat): set<nat> {
      if first == 0 then {} else {first}
    }

    /** The clusters of the chain under construction. */
    ghost function Taken(first: nat): seq<nat>
      reads `tree
    {
      if first != 0 && first in tree.alloc.chains then tree.alloc.chains[first] else []
    }

    /** `prev` ends the chain under construction, if there is one yet. */
    ghost predicate Extendable(first: nat, prev: nat)
      reads `geo, `ready, `rootDirty, `mirrored, `tree, table, table.bytes, root, dev`medium
    {
      && Whole(Pending(first))
      && if first == 0 then prev == 0 else prev >= 2 && first in tree.alloc.chains
                                           && |tree.alloc.chains[first]| > 0 && prev == LastOf(tree.alloc, first)
    }

    /** The new cluster `c` can join the chain under construction, or start it. */
    ghost predicate Joinable(first: nat, prev: nat, c: nat)
      reads `geo, `ready, `rootDirty, `mirrored, `tree, table, table.bytes, root, dev`medium
    {
      if first == 0 then Whole({c}) && prev == 0 && c in tree.alloc.chains && tree.alloc.chains[c] == [c]
      else Whole({first, c}) && first != c && IsLink(prev) && Linkable(View(), tree, geo.clusterSize, {first, c}, first, prev, c)
    }

    /** The end of a chain is marked once more: nothing changes. */
    method EndAgain(c: nat)
      requires Mounted() && c < |View().fat| && View().fat[c] == EOC && c < |table.Values()| && table.Values()[c] == EOC
      modifies table`dirty, table.bytes
      ensures Mounted() && View() == old(View()) && table.Values() == old(table.Values())
      ensures SameSlack(old(table.bytes[..]), table.bytes[..], table.size)
    {
      hide Get, Reachable, SameSlack;
      ValuesBelowTop(c);
      SetEntry(c, EOC);
    }

    /** It is linked after `prev`, and marked as the end. */
    method JoinCluster(first: nat, prev: nat, c: nat)
      requires Mounted() && (prev == 0 || IsLink(prev)) && 2 <= c < |View().fat|
      requires View().fat[c] == EOC && c < |table.Values()| && table.Values()[c] == EOC
      modifies table`dirty, table.bytes, `tree
      ensures Mounted() && (old(Sturdy()) ==> Sturdy())
      ensures old(Joinable(first, prev, c)) ==>
                && Whole({if first == 0 then c else first}) && Undisturbed(old(View()), old(tree), View(), tree)
                && SameSlack(old(table.bytes[..]), table.bytes[..], table.size)
      ensures old(Joinable(first, prev, c)) ==>
                && Taken(if first == 0 then c else first) == old(Taken(first)) + [c]
                && FreeCount(View().fat) == FreeCount(old(View().fat))
                && View().data == old(View()).data && View().root == old(View()).root
      ensures old(Joinable(first, prev, c)) && first == 0 ==> table.Values() == old(table.Values())
      ensures old(Joinable(first, prev, c)) && first != 0 ==>
                prev < |old(table.Values())| && table.Values() == old(table.Values())[prev := c]
    {
      hide Booted, Put, Get, Entries, Reachable, Synced, View, Undisturbed, SameSlack, WellFormed, Linked, AllEnd,
           AllOnDevice, FreeCount, SameFiles;
      ghost var img, t, joinable := View(), tree, Joinable(first, prev, c);
      ValuesBelowTop(c);
      if prev >= 2 {
        if joinable {
          WholeParts({first, c});
          ValuesBelowTop(prev);
          assert {first, c} - {c} == {first};
        }
        LinkCluster({first, c}, first, prev, c);
        if joinable { LinkedFiles(img, t, View(), tree, {first, c}, first, prev, c); }
      } else {
        EndAgain(c);
        UndisturbedRefl(img, t);
        if joinable { WholeParts({c}); }
      }
    }

    /** One more cluster for the file: allocated, and joined to what there is. */
    method AppendCluster(first: nat, prev: nat) returns (c: nat)
      requires Mounted() && (prev == 0 || IsLink(prev))
      modifies dev, table`dirty, table.bytes, buffer, `tree
      ensures Mounted() && dev.clock >= old(dev.clock) && (old(Sturdy()) ==> Sturdy())
      ensures c == 0 ==> tree == old(tree) && table.bytes[..] == old(table.bytes[..])
      ensures c == 0 && dev.FineSince(old(dev.clock)) ==> FreeCount(old(View().fat)) == 0
      ensures dev.faults(old(dev.clock)).Fine? && FreeCount(old(View().fat)) > 0 ==> c != 0 && dev.clock == old(dev.clock) + 1
      ensures c != 0 ==> IsLink(c) && InVolume(geo, c) && OnDevice(geo, c) && FreeCount(old(View().fat)) > 0
      ensures old(Extendable(first, prev)) ==> Undisturbed(old(View()), old(tree), View(), tree)
      ensures old(Extendable(first, prev)) && c == 0 ==> Whole(Pending(first))
      ensures old(Extendable(first, prev)) && c != 0 ==>
                var f := if first == 0 then c else first;
                && Whole({f}) && SameSlack(old(table.bytes[..]), table.bytes[..], table.size)
                && Extended(old(View()), old(table.Values()), old(Taken(first)), View(), table.Values(), Taken(f), c)
    {
      hide View, Undisturbed, SameSlack, Extended, Partition, Physical, OnlyDiffersAt, FreeCount, Linkable;
      ghost var extendable, img0, t0, values0, s0 := Extendable(first, prev), View(), tree, table.Values(), Taken(first);
      ghost var b0 := table.bytes[..];
      if extendable {
        WholeParts(Pending(first));
        ChainsInRange(img0.fat, t0.alloc);
      }
      c := AllocateCluster(Pending(first));
      if c == 0 { return; }
      ghost var img1, t1, values1, b1 := View(), tree, table.Values(), table.bytes[..];
      ValuesBelowTop(c);
      assert Pending(first) + {c} == if first == 0 then {c} else {first, c};
      if extendable { PendingIsLinkable(img0, t0, img1, t1, geo.clusterSize, first, prev, c); }
      JoinCluster(first, prev, c);
      if extendable {
        SlackJoins(b0, b1, table.bytes[..], table.size);
        UndisturbedJoin(img0, t0, img1, t1, View(), tree);
        ExtendedIs(img0, values0, s0, img1, values1, View(), table.Values(), Taken(if first == 0 then c else first), prev, c);
      }
    }

    /** The cluster buffer goes to cluster `c` of a chain that no entry leads to: its data is free to change. */
    method WriteLoose(ghost first: nat, c: nat) returns (ok: bool)
      requires Mounted() && InVolume(geo, c) && OnDevice(geo, c)
      modifies dev
      ensures Mounted() && dev.clock >= old(dev.clock) && (dev.FineSince(old(dev.clock)) ==> ok)
      ensures dev.faults(old(dev.clock)).Fine? ==> ok && dev.clock == old(dev.clock) + 1
      ensures View().fat == old(View()).fat && OnlyDiffersAt(old(View()), View(), {c})
      ensures ok ==> geo.clusterSize <= buffer.Length && View().data[c] == buffer[..geo.clusterSize]
      ensures old(Whole({first})) && first in tree.alloc.chains && c in tree.alloc.chains[first] ==>
                Whole({first}) && Undisturbed(old(View()), tree, View(), tree)
    {
      hide Booted, Put, Get, Entries, Reachable, Synced, View, Undisturbed, WellFormed;
      ghost var img, pending := View(), Whole({first}) && first in tree.alloc.chains && c in tree.alloc.chains[first];
      if pending {
        WholeParts({first});
        PendingIsUnowned(img, tree, geo.clusterSize, first, c);
      }
      ok := WriteCluster(c);
      if pending { ScratchStep(img, tree, geo.clusterSize, {first}, View(), {c}); }
    }

    /** Fills the newest cluster of the pending chain; the data of a chain that no entry leads to is free to change. */
    method FillCluster(ghost first: nat, c: nat, chunk: seq<byte>) returns (ok: bool)
      requires Mounted() && InVolume(geo, c) && OnDevice(geo, c) && |chunk| <= geo.clusterSize
      modifies dev, buffer
      ensures Mounted() && dev.clock >= old(dev.clock) && (dev.FineSince(old(dev.clock)) ==> ok)
      ensures dev.faults(old(dev.clock)).Fine? ==> ok && dev.clock == old(dev.clock) + 1
      ensures View().fat == old(View()).fat && OnlyDiffersAt(old(View()), View(), {c})
      ensures ok ==> View().data[c] == Padded(chunk, geo.clusterSize)
      ensures old(Whole({first})) && first in tree.alloc.chains && c in tree.alloc.chains[first] ==>
                Whole({first}) && Undisturbed(old(View()), tree, View(), tree)
    {
      hide Booted, Put, Get, Entries, Reachable, Synced, View, Undisturbed, WellFormed, Padded;
      ValuesBelowTop(c);
      FillBuffer(chunk);
      ok := WriteLoose(first, c);
    }

    /** memset and memcpy of a chunk into the cluster buffer. */
    method FillBuffer(chunk: seq<byte>)
      requires Buffers() && |chunk| <= geo.clusterSize <= buffer.Length
      modifies buffer
      ensures buffer[..geo.clusterSize] == Padded(chunk, geo.clusterSize)
    {
      ClearBuffer();
      forall i | 0 <= i < |chunk| { buffer[i] := chunk[i]; }
      ZerosTail(geo.clusterSize, |chunk|);
    }

    /** The table and its slack have only lost the pending chain's clusters since `before`. */
    ghost predicate OnlyTaken(before: seq<byte>, first: nat)
      requires table.Valid()
      reads `tree, table, table.bytes
    {
      OnlyLost(before, table.bytes[..], table.size, Taken(first))
    }

    lemma NothingTaken()
      requires Mounted()
      ensures OnlyTaken(table.bytes[..], 0)
    {
    }

    lemma OneMoreTaken(before: seq<byte>, img: Image, values: seq<nat>, bytes: seq<byte>, s: seq<nat>, c: nat, first: nat)
      requires Mounted() && |before| == FAT_BUFFER && TakenFrom(Entries(before, table.size), values, s)
      requires SameSlack(before, bytes, table.size) && SameSlack(bytes, table.bytes[..], table.size)
      requires Extended(img, values, s, View(), table.Values(), Taken(first), c)
      ensures OnlyTaken(before, first)
    {
      TakenMore(Entries(before, table.size), values, s, c, table.Values());
      SlackJoins(before, bytes, table.bytes[..], table.size);
    }

    /** The chain under construction is a chain of the table. */
    ghost predicate Dangles(first: nat)
      requires Mounted()
      reads `geo, `ready, `rootDirty, `mirrored, `tree, table, table.bytes, root, dev`medium
    {
      first != 0 ==> && first in tree.alloc.chains && IsChain(View().fat, tree.alloc.chains[first])
                     && Distinct(tree.alloc.chains[first]) && tree.alloc.chains[first][0] == first
    }

    /** fat12_free_chain on the chain under construction. If nothing but its clusters had been taken, the table is
        again, byte for byte, what it was. */
    method Abandon(first: nat, ghost before: seq<byte>)
      requires Mounted()
      modifies table`dirty, table.bytes, `tree
      ensures Mounted() && (old(Sturdy()) ==> Sturdy())
      ensures View().data == old(View()).data && View().root == old(View()).root
      ensures old(Dangles(first)) ==> tree == old(tree).(alloc := if first == 0 then old(tree).alloc else Without(old(tree).alloc, first))
      ensures old(Dangles(first)) ==>
                View().fat == if first != 0 then Zeroed(old(View()).fat, old(Taken(first))) else old(View()).fat
      ensures old(Dangles(first) && OnlyTaken(before, first)) ==> table.bytes[..] == before
      ensures old(Dangles(first) && Whole(Pending(first))) ==> Whole({}) && Undisturbed(old(View()), old(tree), View(), tree)
    {
      hide Reachable, Synced, View, Undisturbed, SameSlack, WellFormed, Sturdy, TakenFrom, IsChain;
      ghost var img, t, values, taken, bytes := View(), tree, table.Values(), Taken(first), table.bytes[..];
      ghost var dangles, whole := Dangles(first), Dangles(first) && Whole(Pending(first));
      ghost var only := dangles && OnlyTaken(before, first);
      if only { GivingBack(Entries(before, table.size), values, taken); }
      UndisturbedRefl(img, t);
      if first >= 2 {
        FreeChain(first, taken);
        if dangles { tree := t.(alloc := Without(t.alloc, first)); }
        if only { SlackJoins(before, bytes, table.bytes[..], table.size); }
        if whole {
          FreeStep(img, t, geo.clusterSize, Pending(first), View(), first);
          assert Pending(first) - {first} == {};
        }
      } else {
        ChainHeadsAreLinks(first);
        assert dangles ==> Zeroed(values, taken) == values;
      }
      if only { EntriesDetermineBytes(before, table.bytes[..], table.size); }
    }

    lemma ChainHeadsAreLinks(first: nat)
      requires Mounted()
      ensures Dangles(first) ==> first == 0 || first >= 2
    {
    }

    /** The loop of fat12_write_file after `written` bytes: the chain holds them, and nothing else has changed in the table
        since `before`. */
    ghost predicate Storing(data: seq<byte>, written: nat, first: nat, prev: nat, before: seq<byte>)
      reads `geo, `ready, `rootDirty, `mirrored, `tree, table, table.bytes, root, dev`medium
    {
      && Extendable(first, prev) && OnlyTaken(before, first)
      && if first == 0 then written == 0 else Progress(View(), tree.alloc, first, data, written, geo.clusterSize)
    }

    /** The chain under construction, `s0` before, has got the cluster `c`. */
    ghost predicate Longer(first: nat, c: nat, before: seq<byte>, img0: Image, s0: seq<nat>)
      reads `geo, `ready, `rootDirty, `mirrored, `tree, table, table.bytes, root, dev`medium
    {
      var f := if first == 0 then c else first;
      && f != 0 && Whole({f}) && OnlyTaken(before, f) && Taken(f) == s0 + [c] && c !in s0
      && f in tree.alloc.chains && c in tree.alloc.chains[f]
      && OnlyDiffersAt(img0, View(), {c}) && FreeCount(View().fat) + 1 == FreeCount(img0.fat)
    }

    /** The chain grows by a free cluster, which holds zeros so far. */
    method ExtendChain(first: nat, prev: nat, ghost data: seq<byte>, ghost written: nat, ghost before: seq<byte>) returns (c: nat)
      requires Mounted() && (prev == 0 || IsLink(prev))
      modifies dev, table`dirty, table.bytes, buffer, `tree
      ensures Mounted() && dev.clock >= old(dev.clock) && (old(Sturdy()) ==> Sturdy())
      ensures c == 0 && dev.FineSince(old(dev.clock)) ==> FreeCount(old(View().fat)) == 0
      ensures dev.faults(old(dev.clock)).Fine? && FreeCount(old(View().fat)) > 0 ==> c != 0 && dev.clock == old(dev.clock) + 1
      ensures c != 0 ==> IsLink(c) && InVolume(geo, c) && OnDevice(geo, c)
      ensures old(Storing(data, written, first, prev, before)) ==> Undisturbed(old(View()), old(tree), View(), tree)
      ensures old(Storing(data, written, first, prev, before)) && c == 0 ==> Whole(Pending(first)) && OnlyTaken(before, first)
      ensures old(Storing(data, written, first, prev, before)) && c != 0 ==>
                Longer(first, c, before, old(View()), old(Taken(first)))
    {
      hide Booted, Put, Get, Entries, Reachable, Synced, View, Undisturbed, SameSlack, WellFormed, Sturdy, TakenFrom, Extendable,
           Partition, Physical, OnlyDiffersAt, FreeCount, Progress, ChainData, Extended, OnlyLost, Storing;
      ghost var storing, img0, s0 := Storing(data, written, first, prev, before), View(), Taken(first);
      ghost var values0, bytes0 := table.Values(), table.bytes[..];
      if storing { StoringParts(data, written, first, prev, before); }
      c := AppendCluster(first, prev);
      if c == 0 { return; }
      ghost var f := if first == 0 then c else first;
      if storing {
        ExtendedParts(img0, values0, s0, View(), table.Values(), Taken(f), c);
        OneMoreTaken(before, img0, values0, bytes0, s0, c, f);
        JoinedChain(f, s0, c);
      }
    }

    /** One round of the loop of fat12_write_file: a cluster is added and given the next chunk. */
    method StoreChunk(data: seq<byte>, written: nat, first: nat, prev: nat, ghost before: seq<byte>)
      returns (res: int, c: nat, n: nat)
      requires Mounted() && written < |data| && (prev == 0 || IsLink(prev))
      modifies dev, table`dirty, table.bytes, buffer, `tree
      ensures Mounted() && dev.clock >= old(dev.clock) && (old(Sturdy()) ==> Sturdy())
      ensures res in {OK, ERR_NO_FREE_CLUSTER} || (res == ERR_IO && !dev.FineSince(old(dev.clock)))
      ensures res == ERR_NO_FREE_CLUSTER && dev.FineSince(old(dev.clock)) ==> FreeCount(old(View().fat)) == 0
      ensures dev.AllFine(old(dev.clock), 2) && FreeCount(old(View().fat)) > 0 ==> res == OK && dev.clock == old(dev.clock) + 2
      ensures res != ERR_NO_FREE_CLUSTER ==> IsLink(c)
      ensures res == OK ==> n == |Chunk(data, written, geo.clusterSize)| && 0 < n <= |data| - written
      ensures old(Storing(data, written, first, prev, before)) ==> Undisturbed(old(View()), old(tree), View(), tree)
      ensures old(Storing(data, written, first, prev, before)) && res != OK ==>
                var f := if res == ERR_IO && first == 0 then c else first;
                Whole(Pending(f)) && OnlyTaken(before, f)
      ensures old(Storing(data, written, first, prev, before)) && res == OK ==>
                && Storing(data, written + n, if first == 0 then c else first, c, before)
                && FreeCount(View().fat) + 1 == FreeCount(old(View().fat))
    {
      hide Booted, Put, Get, Entries, Reachable, Synced, View, Undisturbed, WellFormed, Sturdy, TakenFrom, Extendable, OnlyDiffersAt,
           FreeCount, Progress, Padded, Chunk, ChainData, OnlyLost, Storing, Whole, OnDevice;
      ghost var storing, img0, t0, s0 := Storing(data, written, first, prev, before), View(), tree, Taken(first);
      n := 0;
      if storing { StoringParts(data, written, first, prev, before); }
      ValuesBelowTop(0);
      c := ExtendChain(first, prev, data, written, before);
      if c == 0 { return ERR_NO_FREE_CLUSTER, 0, 0; }
      ghost var f, img1, t1 := if first == 0 then c else first, View(), tree;
      var ok;
      ok, n := FillNext(f, c, data, written);
      ValuesBelowTop(c);
      if storing { UndisturbedJoin(img0, t0, img1, t1, View(), tree); }
      if !ok { return ERR_IO, c, n; }
      if storing {
        RoundDone(img0, t0, first, s0, img1, f, c, data, written, before);
      }
      return OK, c, n;
    }

    lemma StoringParts(data: seq<byte>, written: nat, first: nat, prev: nat, before: seq<byte>)
      requires Storing(data, written, first, prev, before)
      ensures Mounted() && Extendable(first, prev) && Whole(Pending(first)) && OnlyTaken(before, first)
      ensures |before| == FAT_BUFFER && TakenFrom(Entries(before, table.size), table.Values(), Taken(first))
      ensures SameSlack(before, table.bytes[..], table.size)
      ensures if first == 0 then written == 0 && Taken(first) == []
              else && first in tree.alloc.chains && Taken(first) == tree.alloc.chains[first]
                   && Progress(View(), tree.alloc, first, data, written, geo.clusterSize)
    {
      hide WellFormed, View, Progress, TakenFrom, SameSlack;
    }

    lemma RoundDone(img0: Image, t0: Tree, first: nat, s0: seq<nat>, img1: Image, f: nat, c: nat, data: seq<byte>, written: nat,
                    before: seq<byte>)
      requires Whole({f}) && f != 0 && OnlyTaken(before, f) && Taken(f) == s0 + [c] && IsLink(c)
      requires f == (if first == 0 then c else first) && written < |data|
      requires OnlyDiffersAt(img0, img1, {c}) && OnlyDiffersAt(img1, View(), {c}) && c < |View().data| && c !in s0
      requires View().data[c] == Padded(Chunk(data, written, geo.clusterSize), geo.clusterSize)
      requires if first == 0 then written == 0 && s0 == []
               else first in t0.alloc.chains && s0 == t0.alloc.chains[first]
                    && Progress(img0, t0.alloc, first, data, written, geo.clusterSize)
      ensures Storing(data, written + |Chunk(data, written, geo.clusterSize)|, f, c, before)
    {
      hide WellFormed, View, Progress, OnlyTaken, Chunk, OnlyDiffersAt;
      ChunkStored(img0, t0, first, s0, img1, f, c, data, written);
      JoinedChain(f, s0, c);
    }

    /** Where the chain stands after a cluster has joined it. */
    lemma JoinedChain(f: nat, s0: seq<nat>, c: nat)
      requires Whole({f}) && f != 0 && Taken(f) == s0 + [c]
      ensures f in tree.alloc.chains && c in tree.alloc.chains[f] && tree.alloc.chains[f] == s0 + [c]
      ensures c == LastOf(tree.alloc, f) && InRange(View().data, tree.alloc.chains[f])
    {
      WholeParts({f});
      ChainIsSized(View(), tree.alloc, geo.clusterSize, f);
      assert tree.alloc.chains[f][|s0|] == c;
    }

    /** The chunk is in its cluster, so the chain holds that much more of the data. */
    lemma ChunkStored(img0: Image, t0: Tree, first: nat, s0: seq<nat>, img1: Image, f: nat, c: nat,
                      data: seq<byte>, written: nat)
      requires Whole({f}) && f != 0 && Taken(f) == s0 + [c] && f == (if first == 0 then c else first) && written < |data|
      requires OnlyDiffersAt(img0, img1, {c}) && OnlyDiffersAt(img1, View(), {c}) && c < |View().data| && c !in s0
      requires View().data[c] == Padded(Chunk(data, written, geo.clusterSize), geo.clusterSize)
      requires if first == 0 then written == 0 && s0 == []
               else first in t0.alloc.chains && s0 == t0.alloc.chains[first]
                    && Progress(img0, t0.alloc, first, data, written, geo.clusterSize)
      ensures Progress(View(), tree.alloc, f, data, written + |Chunk(data, written, geo.clusterSize)|, geo.clusterSize)
    {
      hide View, WellFormed, Chunk, ChainData;
      ValuesBelowTop(0);
      JoinedChain(f, s0, c);
      OnlyThere(img0, img1, View(), c);
      ChunkAdded(img0, t0.alloc, View(), tree.alloc, first, s0, c, data, written, geo.clusterSize);
    }

    /** The newest cluster gets the next chunk of the data. */
    method FillNext(ghost f: nat, c: nat, data: seq<byte>, written: nat) returns (ok: bool, n: nat)
      requires Mounted() && InVolume(geo, c) && OnDevice(geo, c) && written < |data|
      modifies dev, buffer
      ensures Mounted() && dev.clock >= old(dev.clock) && (dev.FineSince(old(dev.clock)) ==> ok)
      ensures dev.faults(old(dev.clock)).Fine? ==> ok && dev.clock == old(dev.clock) + 1
      ensures View().fat == old(View()).fat && OnlyDiffersAt(old(View()), View(), {c})
      ensures n == |Chunk(data, written, geo.clusterSize)| && 0 < n <= |data| - written
      ensures ok ==> View().data[c] == Padded(Chunk(data, written, geo.clusterSize), geo.clusterSize)
      ensures old(Whole({f})) && f in tree.alloc.chains && c in tree.alloc.chains[f] ==>
                Whole({f}) && Undisturbed(old(View()), tree, View(), tree)
    {
      hide Undisturbed, WellFormed;
      ValuesBelowTop(0);
      var chunk := NextChunk(data, written);
      n := |chunk|;
      ok := FillCluster(f, c, chunk);
    }

    /** to_copy bytes from data + bytes_written. */
    method NextChunk(data: seq<byte>, written: nat) returns (chunk: seq<byte>)
      requires written < |data| && geo.clusterSize > 0
      ensures chunk == Chunk(data, written, geo.clusterSize) && 0 < |chunk| <= |data| - written && |chunk| <= geo.clusterSize
    {
      var toCopy := geo.clusterSize;
      if toCopy > |data| - written { toCopy := |data| - written; }
      chunk := data[written..written + toCopy];
    }

    /** A whole round: when it fails, the chain is given back. */
    method StoreRound(data: seq<byte>, written: nat, first: nat, prev: nat, ghost before: seq<byte>)
      returns (res: int, c: nat, n: nat)
      requires Mounted() && written < |data| && (prev == 0 || IsLink(prev)) && (first == 0 || IsLink(first))
      modifies dev, table`dirty, table.bytes, buffer, `tree
      ensures Mounted() && dev.clock >= old(dev.clock) && (old(Sturdy()) ==> Sturdy())
      ensures res in {OK, ERR_NO_FREE_CLUSTER} || (res == ERR_IO && !dev.FineSince(old(dev.clock)))
      ensures res == ERR_NO_FREE_CLUSTER && dev.FineSince(old(dev.clock)) ==> FreeCount(old(View().fat)) == 0
      ensures dev.AllFine(old(dev.clock), 2) && FreeCount(old(View().fat)) > 0 ==> res == OK && dev.clock == old(dev.clock) + 2
      ensures res == OK ==> IsLink(c) && n == |Chunk(data, written, geo.clusterSize)| && 0 < n <= |data| - written
      ensures old(Storing(data, written, first, prev, before)) ==> Undisturbed(old(View()), old(tree), View(), tree)
      ensures old(Storing(data, written, first, prev, before)) && res != OK ==> Whole({}) && table.bytes[..] == before
      ensures old(Storing(data, written, first, prev, before)) && res == OK ==>
                && Storing(data, written + n, if first == 0 then c else first, c, before)
                && FreeCount(View().fat) + 1 == FreeCount(old(View().fat))
    {
      hide Booted, Put, Get, Entries, Reachable, Synced, View, Undisturbed, WellFormed, Sturdy, FreeCount, OnlyTaken, Storing, Chunk;
      ghost var storing, img0, t0 := Storing(data, written, first, prev, before), View(), tree;
      res, c, n := StoreChunk(data, written, first, prev, before);
      if res != OK {
        var f := if res == ERR_IO && first == 0 then c else first;
        ghost var img, t := View(), tree;
        if storing { PendingDangles(f); }
        Abandon(f, before);
        if storing { UndisturbedJoin(img0, t0, img, t, View(), tree); }
      }
    }

    lemma StoringStarts(data: seq<byte>)
      requires Whole({})
      ensures Storing(data, 0, 0, 0, table.bytes[..])
    {
      hide WellFormed, View;
      NothingTaken();
    }

    lemma StoringEnds(data: seq<byte>, first: nat, prev: nat, before: seq<byte>)
      requires Storing(data, |data|, first, prev, before) && (first == 0 <==> data == []) && (first == 0 || IsLink(first))
      ensures Whole(Pending(first)) && OnlyTaken(before, first) && Holds(View(), tree.alloc, first, data, geo.clusterSize)
    {
      hide WellFormed, View, OnlyTaken, Progress;
    }

    /** The allocation loop of fat12_write_file. Wherever it fails, the table is restored byte for byte; on a working disk
        it fails exactly when there are fewer free clusters than the file takes. */
    method StoreData(data: seq<byte>) returns (res: int, first: nat)
      requires Mounted()
      modifies dev, table`dirty, table.bytes, buffer, `tree
      ensures Mounted() && dev.clock >= old(dev.clock) && (old(Sturdy()) ==> Sturdy())
      ensures res in {OK, ERR_NO_FREE_CLUSTER} || (res == ERR_IO && !dev.FineSince(old(dev.clock)))
      ensures var n := ClustersNeeded(|data|, geo.clusterSize);
              old(Whole({})) && n <= FreeCount(old(View().fat)) && dev.AllFine(old(dev.clock), 2 * n) ==>
                res == OK && dev.clock == old(dev.clock) + 2 * n
      ensures geo.clusterSize > 0 && (res == OK ==> first < TWO16)
      ensures old(Whole({})) ==> Undisturbed(old(View()), old(tree), View(), tree)
      ensures old(Whole({})) && res == OK ==>
                && Whole(Pending(first)) && OnlyTaken(old(table.bytes[..]), first)
                && Holds(View(), tree.alloc, first, data, geo.clusterSize)
                && FreeCount(View().fat) + ClustersNeeded(|data|, geo.clusterSize) == FreeCount(old(View().fat))
      ensures old(Whole({})) && res != OK ==> Whole({}) && table.bytes[..] == old(table.bytes[..])
      ensures old(Whole({})) && dev.FineSince(old(dev.clock)) && res == ERR_NO_FREE_CLUSTER ==>
                FreeCount(old(View().fat)) < ClustersNeeded(|data|, geo.clusterSize)
    {
      hide Booted, Put, Get, Entries, Reachable, Synced, View, Undisturbed, WellFormed, Sturdy, FreeCount, Progress,
           OnlyTaken, ChainData, ClustersNeeded, Storing;
      ghost var whole, img0, t0, before := Whole({}), View(), tree, table.bytes[..];
      ValuesBelowTop(0);
      ghost var total := ClustersNeeded(|data|, geo.clusterSize);
      ghost var fine := whole && total <= FreeCount(img0.fat) && dev.AllFine(dev.clock, 2 * total);
      UndisturbedRefl(img0, t0);
      if whole { StoringStarts(data); }
      first := 0;
      var prev, written := 0, 0;
      while written < |data|
        invariant Mounted() && dev.clock >= old(dev.clock) && (old(Sturdy()) ==> Sturdy()) && written <= |data|
        invariant (prev == 0 || IsLink(prev)) && (first == 0 || IsLink(first))
        invariant first == 0 <==> written == 0
        invariant whole ==> Storing(data, written, first, prev, before) && Undisturbed(img0, t0, View(), tree)
        invariant fine ==> dev.clock + 2 * ClustersNeeded(|data| - written, geo.clusterSize) == old(dev.clock) + 2 * total
        invariant whole ==>
                    FreeCount(View().fat) + total == FreeCount(img0.fat) + ClustersNeeded(|data| - written, geo.clusterSize)
      {
        ghost var img1, t1 := View(), tree;
        NeededNext(|data| - written, geo.clusterSize);
        var c, n;
        res, c, n := StoreRound(data, written, first, prev, before);
        if whole { UndisturbedJoin(img0, t0, img1, t1, View(), tree); }
        if res != OK { return; }
        if first == 0 { first := c; }
        written := written + n;
        prev := c;
      }
      NeededNext(0, geo.clusterSize);
      if whole { StoringEnds(data, first, prev, before); }
      return OK, first;
    }

    lemma PendingDangles(first: nat)
      requires Whole(Pending(first))
      ensures Dangles(first)
    {
      if first != 0 { PendingChain(View(), tree, geo.clusterSize, {first}, first); }
    }

    // ---------------------------------------------------------------- writing the caches back

    /** fat12_flush_root. */
    method FlushRoot() returns (res: int)
      requires Mounted()
      modifies `rootDirty, dev
      ensures Mounted() && View() == old(View()) && dev.clock >= old(dev.clock)
      ensures res == OK || (res == ERR_IO && !dev.FineSince(old(dev.clock)))
      ensures if res == OK then !rootDirty else rootDirty == old(rootDirty)
      ensures SameFats(geo, old(dev.medium), dev.medium) && SameReserved(geo, old(dev.medium), dev.medium)
    {
      hide Booted, Put, Get, Entries, FatCopy, Clusters, Capacity, SectorsOf;
      if !rootDirty { return OK; }
      ghost var m0 := dev.medium;
      var i := 0;
      EmptyRun(geo, m0, geo.rootStart, root[..]);
      while i < geo.rootDirSectors
        invariant 0 <= i <= geo.rootDirSectors && Mounted() && rootDirty && Clusters(geo, dev.medium) == Clusters(geo, m0)
        invariant dev.clock >= old(dev.clock)
        invariant SameFats(geo, m0, dev.medium) && SameReserved(geo, m0, dev.medium)
        invariant RunHolds(geo, dev.medium, geo.rootStart, i, root[..])
      {
        ghost var m := dev.medium;
        res := WriteSector(dev, geo.baseLba + geo.rootStart + i, root, SECTOR_SIZE * i);
        RootSectorFrame(geo, m, dev.medium, i);
        BootedFrame(geo, m, dev.medium);
        if res != 0 { return ERR_IO; }
        RunExtends(geo, m, dev.medium, geo.rootStart, i, root[..]);
        i := i + 1;
      }
      rootDirty := false;
      return OK;
    }

    /** The table as it is written to each copy. */
    ghost function TableImage(): seq<byte>
      requires Mounted()
      reads `geo, `ready, `rootDirty, `mirrored, table, table.bytes, root, dev`medium
    {
      table.bytes[..geo.fatSize]
    }

    /** One sector of the k-th FAT copy. */
    method FlushFatSector(k: nat, sector: nat) returns (res: int)
      requires Mounted() && table.dirty && k < geo.numFats && sector < geo.sectorsPerFat
      requires FatsHold(geo, dev.medium, k, TableImage()) && RunHolds(geo, dev.medium, FatSector(geo, k), sector, TableImage())
      modifies dev
      ensures Mounted() && View() == old(View()) && dev.clock >= old(dev.clock)
      ensures res == OK || (res == ERR_IO && !dev.FineSince(old(dev.clock)))
      ensures FatsHold(geo, dev.medium, k, TableImage()) && SameReserved(geo, old(dev.medium), dev.medium)
      ensures res == OK ==> RunHolds(geo, dev.medium, FatSector(geo, k), sector + 1, TableImage())
    {
      hide Booted, Put, Get, Entries, FatCopy, RootCopy, Clusters, Capacity, SectorsOf, FatsHold, RunHolds, SameReserved;
      ghost var m, want := dev.medium, TableImage();
      FatCopyInsideFats(geo, k);
      var result := WriteSector(dev, geo.baseLba + geo.fatStart + k * geo.sectorsPerFat + sector, table.bytes, SECTOR_SIZE * sector);
      FatSectorFrame(geo, m, dev.medium, k, sector);
      BootedFrame(geo, m, dev.medium);
      CopiesBefore(geo, m, dev.medium, k, want);
      if result != 0 { return ERR_IO; }
      assert want[SECTOR_SIZE * sector..SECTOR_SIZE * sector + SECTOR_SIZE] ==
             table.bytes[SECTOR_SIZE * sector..SECTOR_SIZE * sector + SECTOR_SIZE];
      RunExtends(geo, m, dev.medium, FatSector(geo, k), sector, want);
      return OK;
    }

    /** One round of fat12_flush_fats: the k-th copy, sector by sector. */
    method FlushFatCopy(k: nat) returns (res: int)
      requires Mounted() && table.dirty && k < geo.numFats && FatsHold(geo, dev.medium, k, TableImage())
      modifies dev
      ensures Mounted() && View() == old(View()) && dev.clock >= old(dev.clock)
      ensures res == OK || (res == ERR_IO && !dev.FineSince(old(dev.clock)))
      ensures res == OK ==> FatsHold(geo, dev.medium, k + 1, TableImage())
      ensures SameReserved(geo, old(dev.medium), dev.medium)
    {
      hide Booted, Synced, View, SectorsOf, FatsHold, RunHolds, SameReserved;
      ghost var m0, want := dev.medium, TableImage();
      FatCopyInsideFats(geo, k);
      EmptyRun(geo, m0, FatSector(geo, k), want);
      SameReservedRefl(geo, m0);
      var sector := 0;
      while sector < geo.sectorsPerFat
        invariant 0 <= sector <= geo.sectorsPerFat && Mounted() && View() == old(View()) && dev.clock >= old(dev.clock)
        invariant FatsHold(geo, dev.medium, k, want) && SameReserved(geo, m0, dev.medium)
        invariant RunHolds(geo, dev.medium, FatSector(geo, k), sector, want)
      {
        ghost var m := dev.medium;
        res := FlushFatSector(k, sector);
        SameReservedJoin(geo, m0, m, dev.medium);
        if res != OK { return; }
        sector := sector + 1;
      }
      OneMoreCopy(geo, dev.medium, k, want);
      return OK;
    }

    /** The loop of fat12_flush_fats over the copies. */
    method FlushFatCopies() returns (res: int)
      requires Mounted() && table.dirty
      modifies dev
      ensures Mounted() && View() == old(View()) && dev.clock >= old(dev.clock)
      ensures res == OK || (res == ERR_IO && !dev.FineSince(old(dev.clock)))
      ensures res == OK ==> FatsHold(geo, dev.medium, geo.numFats, TableImage())
      ensures SameReserved(geo, old(dev.medium), dev.medium)
      ensures geo.numFats == 0 ==> dev.medium == old(dev.medium)
    {
      hide View;
      SameReservedRefl(geo, dev.medium);
      NoCopies(geo, dev.medium, TableImage());
      var k := 0;
      while k < geo.numFats
        invariant 0 <= k <= geo.numFats && Mounted() && table.dirty && View() == old(View())
        invariant dev.clock >= old(dev.clock)
        invariant geo.numFats == 0 ==> dev.medium == old(dev.medium)
        invariant FatsHold(geo, dev.medium, k, TableImage()) && SameReserved(geo, old(dev.medium), dev.medium)
      {
        ghost var m := dev.medium;
        res := FlushFatCopy(k);
        SameReservedJoin(geo, old(dev.medium), m, dev.medium);
        if res != OK { return ERR_IO; }
        k := k + 1;
      }
      return OK;
    }

    /** fat12_flush_fats. */
    method FlushFats() returns (res: int)
      requires Mounted()
      modifies `mirrored, table`dirty, dev
      ensures Mounted() && View() == old(View()) && dev.clock >= old(dev.clock)
      ensures res == OK || (res == ERR_IO && !dev.FineSince(old(dev.clock)))
      ensures if res == OK then !table.dirty else table.dirty == old(table.dirty)
      ensures SameReserved(geo, old(dev.medium), dev.medium) && (old(mirrored) ==> mirrored)
      ensures old(table.dirty) && res == OK ==> mirrored
      ensures geo.numFats == 0 ==> dev.medium == old(dev.medium)
    {
      hide SameReserved;
      SameReservedRefl(geo, dev.medium);
      if !table.dirty { return OK; }
      res := FlushFatCopies();
      if res == OK {
        table.dirty := false;
        mirrored := true;
      }
    }

    /** The two flushes at the end of every operation that changes a directory; their results are ignored. */
    method FlushQuietly()
      requires Mounted()
      modifies `rootDirty, `mirrored, table`dirty, dev
      ensures Mounted() && View() == old(View()) && dev.clock >= old(dev.clock) && (old(mirrored) ==> mirrored)
      ensures dev.FineSince(old(dev.clock)) ==> !rootDirty && !table.dirty
    {
      var ignored := FlushRoot();
      ignored := FlushFats();
    }

    /** fat12_flush: afterwards the disk holds what the caches hold. */
    method Flush() returns (res: int)
      requires Buffers() && (ready ==> Mounted())
      modifies `rootDirty, `mirrored, table`dirty, dev
      ensures !ready ==> res == ERR_NOT_INITIALIZED && dev.medium == old(dev.medium)
      ensures dev.clock >= old(dev.clock)
      ensures ready ==> Mounted() && View() == old(View()) && (res == OK || (res == ERR_IO && !dev.FineSince(old(dev.clock))))
      ensures ready && res == OK ==> !rootDirty && !table.dirty && (old(table.dirty) ==> mirrored)
      ensures ready ==> SameReserved(geo, old(dev.medium), dev.medium) && (old(mirrored) ==> mirrored)
    {
      hide Reachable;
      if !ready { return ERR_NOT_INITIALIZED; }
      ghost var m0 := dev.medium;
      res := FlushRoot();
      if res != OK { return; }
      ghost var m1 := dev.medium;
      res := FlushFats();
      SameReservedJoin(geo, m0, m1, dev.medium);
    }

    // ---------------------------------------------------------------- files

    /** The commands that storing `n` clusters and an entry takes, up to the one that writes the entry's slot. */
    ghost function CostToEnter(d: nat, name: ShortName, n: nat): nat
      requires Mounted()
      reads `geo, `ready, `rootDirty, `mirrored, `tree, table, table.bytes, root, dev`medium
    {
      EnterCost(View(), tree.alloc, geo.clusterSize, d, name, n)
    }

    /** A write of `n` clusters, or a new directory, in a subdirectory and with room. */
    ghost predicate WritesBelow(d: nat, name: ShortName, n: nat)
      reads `geo, `ready, `rootDirty, `mirrored, `tree, table, table.bytes, root, dev`medium
    {
      Intact({}, d) && d != 0 && WriteOutcome(View(), tree, d, name, n) == OK
    }

    ghost predicate MakesBelow(d: nat, name: ShortName)
      reads `geo, `ready, `rootDirty, `mirrored, `tree, table, table.bytes, root, dev`medium
    {
      Intact({}, d) && d != 0 && MakeOutcome(View(), tree, d, name) == OK
    }

    /** fat12_write_file, once its path is resolved to directory `d` and the name. `kept` says that no write to a
        directory cluster failed. */
    method WriteFileAt(d: nat, name: ShortName, data: seq<byte>) returns (res: int, kept: bool)
      requires Mounted() && (Intact({}, d) || Sturdy()) && IsValidChar(name[0]) && |data| < TWO32
      modifies dev, table`dirty, table.bytes, buffer, root, `rootDirty, `mirrored, `tree
      ensures Mounted() && dev.clock >= old(dev.clock) && (old(Sturdy()) ==> Sturdy()) && (old(mirrored) ==> mirrored)
      ensures res == OK && dev.FineSince(old(dev.clock)) ==> !rootDirty && !table.dirty
      ensures res in {OK, ERR_ALREADY_EXISTS, ERR_DIR_FULL, ERR_NO_FREE_CLUSTER} || (res == ERR_IO && !dev.FineSince(old(dev.clock)))
      ensures kept || res == ERR_IO
      ensures old(Intact({}, d)) && (kept || Unharmed(old(View()), old(tree).alloc, View(), tree.alloc, d)) ==> Intact({}, d)
      ensures old(Intact({}, d)) ==>
                WriteEffect(res, kept, old(View()), old(tree), View(), tree, d, name, data, ClustersNeeded(|data|, geo.clusterSize))
      ensures old(Intact({}, d)) && res in {ERR_ALREADY_EXISTS, ERR_DIR_FULL, ERR_NO_FREE_CLUSTER} ==>
                table.bytes[..] == old(table.bytes[..]) && root[..] == old(root[..])
      ensures old(Intact({}, d)) && dev.FineSince(old(dev.clock)) ==>
                res == WriteOutcome(old(View()), old(tree), d, name, ClustersNeeded(|data|, geo.clusterSize))
      ensures var n := ClustersNeeded(|data|, geo.clusterSize);
              old(WritesBelow(d, name, n)) ==>
                GarblesOn(res, kept, View(), tree.alloc, old(CostToEnter(d, name, n)), old(dev.clock), d)
    {
      hide Booted, Reachable, Synced, View, SameFiles, WellFormed, Sturdy, SlotsOf, Entry, Scannable, Addressable, FoundAt, WriteEffect,
           PublishEffect, WriteOutcome, ClustersNeeded, StoreOutcome, PlaceCost, Reads, Lengthened, GarblesOn, AtaDevice.AllFine,
           IsAt, FileSize;
      ghost var intact, img0, t0 := Intact({}, d), View(), tree;
      ghost var n := ClustersNeeded(|data|, geo.clusterSize);
      ghost var cost := Cost(d, name);
      kept := true;
      if intact {
        IntactParts({}, d);
        FolderByEntry(img0, t0, d, name);
      }
      var existing, oc, idx;
      ghost var i, j;
      res, existing, oc, idx, i, j := FindEntry(d, name);
      if intact && res == OK { FoundEntry(d, name, existing, oc, idx, i, j); }
      if res == OK {
        if IsDirectory(existing) {
          if intact { NothingWritten(ERR_ALREADY_EXISTS, dev.FineSince(old(dev.clock)), img0, t0, d, name, data, n); }
          return ERR_ALREADY_EXISTS, true;
        }
      } else if res != ERR_NOT_FOUND {
        if intact {
          NothingWritten(res, dev.FineSince(old(dev.clock)), img0, t0, d, name, data, n);
          if d != 0 {
            GarblesNot(res, kept, img0, t0.alloc, cost, EnterCost(img0, t0.alloc, geo.clusterSize, d, name, n), old(dev.clock), d);
          }
        }
        return;
      }
      var hasExisting := res == OK;
      var oldCluster := if hasExisting then FirstCluster(existing) else 0;
      ghost var half := dev.clock;
      res, kept := StoreAndPublish(d, name, data, hasExisting, oldCluster);
      if intact {
        FileWritten(res, kept, dev.FineSince(half), img0, t0, View(), tree, d, name, data, n);
        if d != 0 && WriteOutcome(img0, t0, d, name, n) == OK {
          GarblesLater(res, kept, View(), tree.alloc, cost, 2 * n + PlaceCost(img0, t0.alloc, geo.clusterSize, d, name) + 1,
                       old(dev.clock), d);
        }
      }
    }

    /** What the lookup of fat12_write_file has shown: no folder of that name, and what the file of that name starts with. */
    ghost predicate Writable(d: nat, name: ShortName, hasExisting: bool, oldCluster: nat)
      reads `geo, `ready, `rootDirty, `mirrored, `tree, table, table.bytes, root, dev`medium
    {
      && Intact({}, d)
      && (var was := Entry(View(), tree.alloc, d, name);
          NoFolder(was) && hasExisting == was.Some? && oldCluster == if was.Some? then FirstCluster(was.value) else 0)
    }

    /** The data is stored, and then the entry written. */
    method StoreAndPublish(d: nat, name: ShortName, data: seq<byte>, hasExisting: bool, oldCluster: nat) returns (res: int, kept: bool)
      requires Mounted() && (Writable(d, name, hasExisting, oldCluster) || Sturdy()) && IsValidChar(name[0]) && |data| < TWO32
      modifies dev, table`dirty, table.bytes, buffer, root, `rootDirty, `mirrored, `tree
      ensures Mounted() && dev.clock >= old(dev.clock) && (old(Sturdy()) ==> Sturdy()) && (old(mirrored) ==> mirrored)
      ensures res == OK && dev.FineSince(old(dev.clock)) ==> !rootDirty && !table.dirty
      ensures res in {OK, ERR_DIR_FULL, ERR_NO_FREE_CLUSTER} || (res == ERR_IO && !dev.FineSince(old(dev.clock)))
      ensures kept || res == ERR_IO
      ensures old(Writable(d, name, hasExisting, oldCluster)) && (kept || Unharmed(old(View()), old(tree).alloc, View(), tree.alloc, d)) ==>
                Intact({}, d)
      ensures old(Writable(d, name, hasExisting, oldCluster)) ==>
                PublishEffect(res, kept, dev.FineSince(old(dev.clock)), old(View()), old(tree), View(), tree, d, name, data,
                              ClustersNeeded(|data|, geo.clusterSize))
      ensures old(Writable(d, name, hasExisting, oldCluster)) && res in {ERR_DIR_FULL, ERR_NO_FREE_CLUSTER} ==>
                table.bytes[..] == old(table.bytes[..]) && root[..] == old(root[..])
      ensures var n := ClustersNeeded(|data|, geo.clusterSize);
              old(Writable(d, name, hasExisting, oldCluster) && d != 0 && StoreOutcome(View(), tree.alloc, d, name, n) == OK) ==>
                GarblesOn(res, kept, View(), tree.alloc, 2 * n + old(EntryCost(d, name)) + 1, old(dev.clock), d)
    {
      hide Reachable, Synced, View, SlotsOf, SameFiles, WellFormed, Sturdy, Entry, FirstCluster, DirFull, FreeCount, OnlyTaken,
           Holds, FileChanged, ElsewhereSame, PlaceCost, Lengthened, Garbled, StoreOutcome;
      ghost var sound, img0, t0, before := Writable(d, name, hasExisting, oldCluster), View(), tree, table.bytes[..];
      ghost var n := ClustersNeeded(|data|, geo.clusterSize);
      if sound { FewAreNotEnough(img0, t0.alloc, d, name, n); }
      kept := true;
      var first;
      res, first := StoreData(data);
      ghost var img1, t1 := View(), tree;
      if sound { UndisturbedParts(img0, t0, img1, t1, d); }
      if res != OK { return; }
      if sound {
        SameSlotsSameCosts(img0, t0.alloc, img1, t1.alloc, geo.clusterSize, d, name);
        OutcomeShift(img0, t0.alloc, img1, t1.alloc, d, name, n);
      }
      res, kept := PublishFile(d, name, data, first, hasExisting, oldCluster, before);
      if sound { StoredThenPublished(res, kept, dev.FineSince(old(dev.clock)), img0, t0, img1, t1, View(), tree, d, name, data, n); }
    }

    lemma FoundEntry(d: nat, name: ShortName, entry: Slot, oc: nat, idx: nat, i: nat, j: nat)
      requires FoundAt(d, name, entry, oc, idx, i, j)
      ensures Mounted() && Entry(View(), tree.alloc, d, name) == Some(entry)
    {
    }

    /** The file's chain is stored but no entry leads to it yet, and `d` holds no folder of that name. */
    ghost predicate Publishable(d: nat, name: ShortName, data: seq<byte>, first: nat, hasExisting: bool, oldCluster: nat)
      reads `geo, `ready, `rootDirty, `mirrored, `tree, table, table.bytes, root, dev`medium
    {
      && Intact(Pending(first), d) && Holds(View(), tree.alloc, first, data, geo.clusterSize)
      && (var was := Entry(View(), tree.alloc, d, name);
          NoFolder(was) && hasExisting == was.Some? && oldCluster == if was.Some? then FirstCluster(was.value) else 0)
    }

    /** A failed write of an entry has changed nothing, or some of the bytes of the directory. */
    lemma FailedWrite(res: int, kept: bool, replaced: bool, fine: bool, img0: Image, t0: Tree, mid: Image, loose: set<nat>, d: nat,
                      name: ShortName, e: Slot)
      requires Mounted() && IsDir(t0, d) && res != OK
      requires EntryEffect(res, kept, replaced, fine, img0, t0, mid, View(), tree, geo.clusterSize, loose, d, name, e)
      ensures IsDir(tree, d) && WellFormed(mid, tree, geo.clusterSize, loose) && SameFiles(img0, t0, mid, tree)
      ensures View().fat == mid.fat && (View() == mid || Scarred(mid, tree.alloc, View(), d))
      ensures kept || Unharmed(img0, t0.alloc, View(), tree.alloc, d) ==> View() == mid
    {
      hide View, WellFormed, SameFiles, Scarred, Fullness, Lengthened;
      SameDirs(img0, t0, mid, tree, d);
      DataIsSized();
      if !kept && Unharmed(img0, t0.alloc, View(), tree.alloc, d) {
        UnharmedIsSame(img0, t0, mid, View(), tree, geo.clusterSize, loose, d);
      }
    }

    lemma DataIsSized()
      requires Mounted()
      ensures |View().fat| <= |View().data| && forall c | 2 <= c < |View().data| :: |View().data[c]| == geo.clusterSize
    {
    }

    /** The rest of fat12_write_file: the entry is written, then the replaced chain is freed and the caches flushed. */
    method PublishFile(d: nat, name: ShortName, data: seq<byte>, first: nat, hasExisting: bool, oldCluster: nat,
                       ghost before: seq<byte>) returns (res: int, kept: bool)
      requires Mounted() && (Publishable(d, name, data, first, hasExisting, oldCluster) || Sturdy())
      requires IsValidChar(name[0]) && |data| < TWO32 && first < TWO16
      modifies dev, table`dirty, table.bytes, buffer, root, `rootDirty, `mirrored, `tree
      ensures Mounted() && dev.clock >= old(dev.clock) && (old(Sturdy()) ==> Sturdy()) && (old(mirrored) ==> mirrored)
      ensures res == OK && dev.FineSince(old(dev.clock)) ==> !rootDirty && !table.dirty
      ensures res in {OK, ERR_DIR_FULL, ERR_NO_FREE_CLUSTER} || (res == ERR_IO && !dev.FineSince(old(dev.clock)))
      ensures (kept || res == ERR_IO) && (d == 0 ==> res != ERR_IO)
      ensures res != OK ==> root[..] == old(root[..])
      ensures old(Publishable(d, name, data, first, hasExisting, oldCluster)) ==>
                kept || Unharmed(old(View()), old(tree).alloc, View(), tree.alloc, d) ==> Intact({}, d)
      ensures old(Publishable(d, name, data, first, hasExisting, oldCluster)) ==>
                PublishEffect(res, kept, dev.FineSince(old(dev.clock)), old(View()), old(tree), View(), tree, d, name, data, 0)
      ensures old(Publishable(d, name, data, first, hasExisting, oldCluster) && OnlyTaken(before, first)) ==>
                res in {ERR_DIR_FULL, ERR_NO_FREE_CLUSTER} ==> table.bytes[..] == before
      ensures old(Publishable(d, name, data, first, hasExisting, oldCluster) && d != 0
                  && StoreOutcome(View(), tree.alloc, d, name, 0) == OK) ==>
                GarblesOn(res, kept, View(), tree.alloc, old(EntryCost(d, name)) + 1, old(dev.clock), d)
    {
      hide Reachable, Synced, View, SameFiles, WellFormed, Sturdy, Entry, DirFull, SameSlack, Holds, FileChanged,
           ElsewhereSame, EntryChanged, MakeEntry, IsDirectory, FirstCluster, Scarred, EntryEffect, PublishEffect, StoreOutcome, Garbled,
           Lengthened, SlotsOf, LooseKept;
      ghost var sound, img0, t0 := Publishable(d, name, data, first, hasExisting, oldCluster), View(), tree;
      ghost var only, bytes0 := OnlyTaken(before, first), table.bytes[..];
      MadeEntryIsLive(name, ATTR_ARCHIVE, first, |data|);
      ArchiveIsNoFolder();
      var newEntry := MakeEntry(name, ATTR_ARCHIVE, first, |data|);
      var replaced;
      ghost var mid;
      res, kept, replaced, mid := WriteDirectoryEntry(Pending(first), d, name, newEntry);
      if res != OK {
        if table.bytes[..] == bytes0 && tree == t0 { assert OnlyTaken(before, first) == only; }
        WithdrawEntry(first, before, sound, res, kept, replaced, dev.FineSince(old(dev.clock)), mid, img0, t0, d, name, newEntry,
                      data, 0);
        return;
      }
      if sound {
        EntryParts(kept, replaced, dev.FineSince(old(dev.clock)), img0, t0, mid, View(), tree, geo.clusterSize, Pending(first), d,
                   name, newEntry);
      }
      EnterFile(d, name, data, first, hasExisting, oldCluster, newEntry, sound, mid, img0, t0);
      if sound { FileEffect(dev.FineSince(old(dev.clock)), img0, t0, View(), tree, d, name, data); }
    }

    /** The new entry is in the directory, and `d` was a directory before. */
    ghost predicate Entered(first: nat, d: nat, name: ShortName, e: Slot, mid: Image, img0: Image, t0: Tree)
      reads `geo, `ready, `rootDirty, `mirrored, `tree, table, table.bytes, root, dev`medium
    {
      && Mounted() && IsDir(t0, d) && WellFormed(mid, tree, geo.clusterSize, Pending(first))
      && SameFiles(img0, t0, mid, tree) && LooseKept(Pending(first), img0, t0, mid, tree)
      && EntryChanged(mid, tree, View(), geo.clusterSize, d, name, Some(e))
    }

    /** The tree follows, the replaced chain is freed, and the caches are flushed. */
    method EnterFile(d: nat, name: ShortName, ghost data: seq<byte>, first: nat, hasExisting: bool, oldCluster: nat, ghost e: Slot,
                     ghost sound: bool, ghost mid: Image, ghost img0: Image, ghost t0: Tree)
      requires Mounted()
      requires sound ==> && Entered(first, d, name, e, mid, img0, t0) && Holds(img0, t0.alloc, first, data, geo.clusterSize)
                         && Attr(e) == ATTR_ARCHIVE && !IsDirectory(e) && FirstCluster(e) == first && FileSize(e) == |data|
      requires sound ==> var was := Entry(img0, t0.alloc, d, name);
                         && NoFolder(was) && hasExisting == was.Some?
                         && oldCluster == if was.Some? then FirstCluster(was.value) else 0
      modifies dev, table`dirty, table.bytes, `rootDirty, `mirrored, `tree
      ensures Mounted() && dev.clock >= old(dev.clock) && (old(Sturdy()) ==> Sturdy()) && (old(mirrored) ==> mirrored)
      ensures dev.FineSince(old(dev.clock)) ==> !rootDirty && !table.dirty
      ensures sound ==> Intact({}, d) && FileChanged(img0, t0, View(), tree, d, name, Some(data))
    {
      hide Synced, Reachable, Booted, View, SameFiles, WellFormed, Sturdy, Entry, Holds, FileChanged, Entered, IsDirectory,
           FirstCluster, FileSize;
      if sound {
        EnteredParts(first, d, name, e, mid, img0, t0);
        tree := FileEntered(img0, t0, mid, first, d, name, data, hasExisting, oldCluster, e);
      }
      ghost var img, t := View(), tree;
      FreeReplaced(hasExisting, oldCluster, first);
      if sound { ChangedThenSame(img0, t0, img, t, View(), tree, d, name, Some(data)); }
      FlushQuietly();
    }

    lemma EnteredParts(first: nat, d: nat, name: ShortName, e: Slot, mid: Image, img0: Image, t0: Tree)
      requires Entered(first, d, name, e, mid, img0, t0)
      ensures IsDir(t0, d) && IsDir(tree, d) && Mounted()
    {
      SameDirs(img0, t0, mid, tree, d);
    }

    /** The entry could not be written, or not be written back: the new chain is freed again. */
    method Withdraw(first: nat, ghost before: seq<byte>, ghost sound: bool, ghost mid: Image, ghost img0: Image, ghost t0: Tree,
                    ghost d: nat)
      requires Mounted()
      requires sound ==> && WellFormed(mid, tree, geo.clusterSize, Pending(first)) && IsDir(tree, d)
                         && SameFiles(img0, t0, mid, tree) && View().fat == mid.fat
                         && (View() == mid || Scarred(mid, tree.alloc, View(), d))
      modifies table`dirty, table.bytes, `tree
      ensures Mounted() && (old(Sturdy()) ==> Sturdy())
      ensures sound && old(View()) == mid ==> Intact({}, d) && SameFiles(img0, t0, View(), tree)
      ensures sound ==> ElsewhereSame(img0, t0, View(), tree, d)
      ensures sound ==> SlotsOf(View(), tree.alloc, d) == SlotsOf(old(View()), old(tree).alloc, d)
      ensures sound && Garbled(old(View()), old(tree).alloc, d) ==> Garbled(View(), tree.alloc, d)
      ensures sound && old(OnlyTaken(before, first)) ==> table.bytes[..] == before
    {
      hide Reachable, Booted, View, SameFiles, Undisturbed, WellFormed, Sturdy, OnlyTaken, ElsewhereSame, Scarred, IsChain,
           Distinct, Garbled, SlotsOf;
      ghost var img1, t1 := View(), tree;
      if sound {
        DanglesHere(first, mid);
        if img1 == mid { assert Whole(Pending(first)); }
      }
      Abandon(first, before);
      if sound {
        WithdrawnSlots(img1, t1, View(), tree, mid, geo.clusterSize, first, d);
        if img1 == mid {
          UndisturbedParts(img1, t1, View(), tree, d);
          SameFilesJoin(img0, t0, img1, t1, View(), tree);
          SameIsElsewhere(img0, t0, View(), tree, d);
        } else {
          StillElsewhere(img0, t0, mid, t1, img1, View(), tree, geo.clusterSize, Pending(first), d, first);
        }
      }
    }

    /** What that leaves of an operation that stores an entry. */
    method WithdrawEntry(first: nat, ghost before: seq<byte>, ghost sound: bool, ghost res: int, ghost kept: bool, ghost replaced: bool,
                         ghost fine: bool, ghost mid: Image, ghost img0: Image, ghost t0: Tree, ghost d: nat, ghost name: ShortName,
                         ghost e: Slot, ghost data: seq<byte>, ghost h: nat)
      requires Mounted()
      requires sound ==>
                 && IsDir(t0, d) && (if res == ERR_IO then !fine else res in {ERR_DIR_FULL, ERR_NO_FREE_CLUSTER} && kept)
                 && EntryEffect(res, kept, replaced, fine, img0, t0, mid, View(), tree, geo.clusterSize, Pending(first), d, name, e)
      modifies table`dirty, table.bytes, `tree
      ensures Mounted() && (old(Sturdy()) ==> Sturdy())
      ensures sound && (kept || Unharmed(img0, t0.alloc, View(), tree.alloc, d)) ==> Intact({}, d)
      ensures sound ==>
                && PublishEffect(res, kept, fine, img0, t0, View(), tree, d, name, data, 0)
                && MakeEffect(res, kept, img0, t0, View(), tree, d, name, h, 0)
                && (fine ==> res == StoreOutcome(img0, t0.alloc, d, name, 0))
      ensures sound && Garbled(old(View()), old(tree).alloc, d) ==> Garbled(View(), tree.alloc, d)
      ensures sound && old(OnlyTaken(before, first)) ==> table.bytes[..] == before
    {
      hide Reachable, Booted, Synced, View, SameFiles, WellFormed, Sturdy, OnlyTaken, ElsewhereSame, Scarred, Garbled, SlotsOf,
           EntryEffect, PublishEffect, MakeEffect, StoreOutcome, Lengthened;
      ghost var img1, t1 := View(), tree;
      if sound { FailedWrite(res, kept, replaced, fine, img0, t0, mid, Pending(first), d, name, e); }
      Withdraw(first, before, sound, mid, img0, t0, d);
      if sound {
        WithdrawnEffect(res, kept, replaced, fine, img0, t0, mid, img1, t1, View(), tree, geo.clusterSize, Pending(first), d, name,
                        e, data, h);
      }
    }

    /** Whether the entry was written or not, the chain under construction is still a chain. */
    lemma DanglesHere(first: nat, mid: Image)
      requires Mounted() && WellFormed(mid, tree, geo.clusterSize, Pending(first)) && View().fat == mid.fat
      ensures Dangles(first)
    {
      if first != 0 { PendingChain(mid, tree, geo.clusterSize, {first}, first); }
    }

    /** The entry is written: the tree follows, and the chain that it led to before is loose. */
    lemma FileEntered(img0: Image, t0: Tree, mid: Image, first: nat, d: nat, name: ShortName, data: seq<byte>,
                      hasExisting: bool, oldCluster: nat, e: Slot) returns (t2: Tree)
      requires Entered(first, d, name, e, mid, img0, t0)
      requires Attr(e) == ATTR_ARCHIVE && !IsDirectory(e) && FirstCluster(e) == first && FileSize(e) == |data|
      requires Holds(img0, t0.alloc, first, data, geo.clusterSize)
      requires var was := Entry(img0, t0.alloc, d, name);
               NoFolder(was) && hasExisting == was.Some? && oldCluster == if was.Some? then FirstCluster(was.value) else 0
      ensures t2 == tree.(owner := t2.owner) && FileChanged(img0, t0, View(), t2, d, name, Some(data))
      ensures WellFormed(View(), t2, geo.clusterSize, if hasExisting && oldCluster >= 2 then {oldCluster} else {})
      ensures hasExisting && oldCluster >= 2 ==> oldCluster != first
    {
      hide WellFormed, LooseKept, EntryChanged, Entry, FirstCluster, Heads, ReadyFile, FileChanged, Owners, Content,
           SlotsOf, DirOk;
      var cs, img1 := geo.clusterSize, View();
      SameEntry(img0, t0, mid, tree, d, name);
      SameDirs(img0, t0, mid, tree, d);
      FileIsReady(img0, t0, mid, tree, cs, first, data, e);
      var was := Entry(mid, tree.alloc, d, name);
      t2 := tree.(owner := Owners(tree, d, name, was, Some(e)));
      FileEntryStep(mid, tree, cs, Pending(first), img1, d, name, Some(e));
      FileEntryChanges(mid, tree, cs, Pending(first), img1, d, name, Some(e));
      SameThenChanged(img0, t0, mid, tree, img1, t2, d, name, Some(data));
      HeadsByCluster(mid, tree, cs, Pending(first), d, name);
      assert Pending(first) - Heads(Some(e)) + Heads(was) == if hasExisting && oldCluster >= 2 then {oldCluster} else {};
    }

    /** The replaced file's chain, if it had one, is freed. */
    method FreeReplaced(hasExisting: bool, oldCluster: nat, first: nat)
      requires Mounted()
      modifies table`dirty, table.bytes, `tree
      ensures Mounted() && (old(Sturdy()) ==> Sturdy())
      ensures (hasExisting && oldCluster >= 2 ==> oldCluster != first)
              && old(Whole(if hasExisting && oldCluster >= 2 then {oldCluster} else {})) ==>
                && Whole({}) && SameFiles(old(View()), old(tree), View(), tree)
                && tree == old(tree).(alloc := tree.alloc)
    {
      hide Sturdy, Undisturbed;
      ghost var img, t := View(), tree;
      SameFilesRefl(img, t);
      if hasExisting && oldCluster >= 2 && oldCluster != first {
        FreeLoose({oldCluster}, oldCluster);
        assert {oldCluster} - {oldCluster} == {};
        if Undisturbed(img, t, View(), tree) { UndisturbedParts(img, t, View(), tree, 0); }
      }
    }

    /** fat12_read_file on a resolved name: the copying loop. */
    method ReadFileAt(d: nat, name: ShortName, out: array<byte>, maxSize: nat) returns (res: int, size: nat)
      requires Mounted() && (Intact({}, d) || Sturdy()) && IsValidChar(name[0]) && maxSize <= out.Length
      requires out != root && out != buffer && out != table.bytes
      modifies dev`clock, buffer, out
      ensures Mounted() && View() == old(View()) && dev.clock >= old(dev.clock)
      ensures res in {OK, ERR_NOT_FOUND, ERR_NOT_FILE, ERR_BUFFER_SMALL} || (res == ERR_IO && !dev.FineSince(old(dev.clock)))
      ensures res == OK ==> size <= maxSize && forall k | size <= k < out.Length :: out[k] == old(out[k])
      ensures res != OK && res != ERR_IO ==> out[..] == old(out[..])
      ensures old(Intact({}, d)) && res == OK ==> FileAt(View(), tree, d, name) == Some(out[..size])
      ensures old(Intact({}, d)) && res == ERR_NOT_FOUND ==>
                FileAt(View(), tree, d, name).None? && FolderAt(View(), tree, d, name).None?
      ensures old(Intact({}, d)) && res == ERR_NOT_FILE ==> FolderAt(View(), tree, d, name).Some?
      ensures old(Intact({}, d)) && res == ERR_BUFFER_SMALL ==>
                FileAt(View(), tree, d, name).Some? && |FileAt(View(), tree, d, name).value| > maxSize
    {
      hide Clusters, Synced, View, Partition, Physical, EntryOk, OwnerOk, Slots, SlotsOf, Lookup, ChainData, WellFormed,
           Located, FirstCluster, Attr, Matches, FileAt, FolderAt, AttrAt;
      size := 0;
      ghost var img := View();
      ghost var intact := Intact({}, d);
      if intact {
        IntactParts({}, d);
        FolderByEntry(img, tree, d, name);
      }
      var entry, oc, idx;
      ghost var i, j;
      res, entry, oc, idx, i, j := FindEntry(d, name);
      if res != OK { return; }
      if IsDirectory(entry) { return ERR_NOT_FILE, 0; }
      if intact { FileByEntry(img, tree, geo.clusterSize, d, name); }
      if FileSize(entry) > maxSize { return ERR_BUFFER_SMALL, 0; }
      var ok := CopyChain(FirstCluster(entry), FileSize(entry), out);
      if !ok { return ERR_IO, 0; }
      return OK, FileSize(entry);
    }

    /** The loop of fat12_read_file. It succeeds on a chain that is too short as well, having copied what there is;
        on one that is long enough it copies exactly the file. */
    method CopyChain(first: nat, size: nat, out: array<byte>) returns (ok: bool)
      requires Mounted() && size <= out.Length && out != root && out != buffer && out != table.bytes
      requires AllOnDevice(geo) || (Whole({}) && (size > 0 ==> first in tree.alloc.chains))
      modifies dev`clock, buffer, out
      ensures Mounted() && View() == old(View()) && dev.clock >= old(dev.clock)
      ensures dev.FineSince(old(dev.clock)) ==> ok
      ensures forall k | size <= k < out.Length :: out[k] == old(out[k])
      ensures ok && old(Whole({}) && first in tree.alloc.chains) ==>
                var b := ChainData(View(), tree.alloc, first); var n := if |b| < size then |b| else size;
                out[..n] == b[..n] && forall k | n <= k < out.Length :: out[k] == old(out[k])
    {
      hide Booted, Put, Get, Entries, FatCopy, RootCopy, Reachable, Zeros, Capacity, Clusters, Synced, View, Partition,
           Physical, EntryOk, OwnerOk, Slots, SlotsOf, Lookup, ChainBytes, WellFormed, Entry, Located, DirOk, Offset,
           IsChain, AllSized, ChainData, AllOnDevice, Whole, CopiedSoFar;
      ValuesBelowTop(0);
      ghost var img, sound := View(), Whole({}) && first in tree.alloc.chains;
      ghost var s: seq<nat>, b: seq<byte> := [], [];
      if sound {
        s, b := tree.alloc.chains[first], ChainData(img, tree.alloc, first);
        FirstToCopy(first, size);
      }
      var remaining, cursor, cluster := size, 0, first;
      ghost var j := 0;
      while remaining > 0 && IsLink(cluster)
        invariant Mounted() && View() == img && dev.clock >= old(dev.clock) && remaining == size - cursor && cursor <= size
        invariant sound ==> CopiedSoFar(img, s, b, size, cluster, cursor, j) && cursor <= |b| && out[..cursor] == b[..cursor]
        invariant forall k | cursor <= k < out.Length :: out[k] == old(out[k])
        decreases remaining
      {
        if sound { NextToCopy(img, s, b, size, cluster, cursor, j); }
        ReadableCluster(cluster);
        var toCopy;
        ok, toCopy := CopyCluster(cluster, out, cursor, remaining, b, sound);
        if !ok { return; }
        cursor := cursor + toCopy;
        remaining := remaining - toCopy;
        cluster := table.GetEntry(cluster);
        j := j + 1;
      }
      if sound { AllCopied(img, s, b, size, cluster, cursor, j); }
      ok := true;
    }

    /** The loop of fat12_read_file before cluster `j` of the chain `s`, which holds the bytes `b`. */
    ghost predicate CopiedSoFar(img: Image, s: seq<nat>, b: seq<byte>, size: nat, cluster: nat, cursor: nat, j: nat)
      reads `geo
    {
      && InRange(img.data, s) && AllSized(img.data, s, geo.clusterSize) && IsChain(img.fat, s) && b == ChainBytes(img.data, s)
      && j <= |s| && (if j < |s| then cluster == s[j] else !IsLink(cluster)) && cursor <= |b|
      && cursor == if Offset(img.data, s, j) <= size then Offset(img.data, s, j) else size
    }

    lemma ClusterIsSized(data: Data, s: seq<nat>, j: nat)
      requires InRange(data, s) && AllSized(data, s, geo.clusterSize) && j < |s|
      ensures |data[s[j]]| == geo.clusterSize
    {
    }

    lemma FirstToCopy(first: nat, size: nat)
      requires Whole({}) && first in tree.alloc.chains
      ensures CopiedSoFar(View(), tree.alloc.chains[first], ChainData(View(), tree.alloc, first), size, first, 0, 0)
    {
      hide View, ChainBytes;
      ChainFacts(first);
      OffsetEnds(View().data, tree.alloc.chains[first]);
    }

    lemma AllCopied(img: Image, s: seq<nat>, b: seq<byte>, size: nat, cluster: nat, cursor: nat, j: nat)
      requires CopiedSoFar(img, s, b, size, cluster, cursor, j) && cursor <= size && (cursor == size || !IsLink(cluster))
      ensures cursor == if |b| < size then |b| else size
    {
      hide ChainBytes, Offset;
      OffsetEnds(img.data, s);
      if cursor < size && j < |s| { ChainStep(img.fat, s, j); }
    }

    lemma NextToCopy(img: Image, s: seq<nat>, b: seq<byte>, size: nat, cluster: nat, cursor: nat, j: nat)
      requires CopiedSoFar(img, s, b, size, cluster, cursor, j) && cursor < size && IsLink(cluster) && geo.clusterSize > 0
      ensures j < |s| && cluster == s[j] && 2 <= cluster < |img.fat| && cluster < |img.data| && |img.data[cluster]| == geo.clusterSize
      ensures cursor + geo.clusterSize <= |b| && b[cursor..cursor + geo.clusterSize] == img.data[cluster]
      ensures var n := if geo.clusterSize > size - cursor then size - cursor else geo.clusterSize;
              CopiedSoFar(img, s, b, size, img.fat[cluster], cursor + n, j + 1)
    {
      hide ChainBytes, Offset, IsChain;
      assert j < |s|;
      ChainBytesWindow(img.data, s, j);
      OffsetNext(img.data, s, j);
      ChainStep(img.fat, s, j);
      ClusterIsSized(img.data, s, j);
    }

    /** One cluster of the file: all of it, or what remains. */
    method CopyCluster(cluster: nat, out: array<byte>, cursor: nat, remaining: nat, ghost b: seq<byte>, ghost sound: bool)
      returns (ok: bool, toCopy: nat)
      requires Mounted() && OnDevice(geo, cluster) && out != root && out != buffer && out != table.bytes
      requires cursor + remaining <= out.Length
      requires sound ==>
                 && InVolume(geo, cluster) && cursor + geo.clusterSize <= |b| && out[..cursor] == b[..cursor]
                 && b[cursor..cursor + geo.clusterSize] == View().data[cluster] && |View().data[cluster]| == geo.clusterSize
      modifies dev`clock, buffer, out
      ensures Mounted() && View() == old(View()) && dev.clock >= old(dev.clock) && (dev.FineSince(old(dev.clock)) ==> ok)
      ensures ok ==> toCopy == (if geo.clusterSize > remaining then remaining else geo.clusterSize)
      ensures ok && sound ==> out[..cursor + toCopy] == b[..cursor + toCopy]
      ensures forall k | cursor + remaining <= k < out.Length :: out[k] == old(out[k])
      ensures ok ==> forall k | cursor + toCopy <= k < out.Length :: out[k] == old(out[k])
    {
      hide View;
      toCopy := geo.clusterSize;
      if toCopy > remaining { toCopy := remaining; }
      ValuesBelowTop(cluster);
      ok := ReadCluster(cluster);
      if !ok { return; }
      CopyOut(out, cursor, toCopy);
      if sound { CopiedOut(out[..], b, buffer[..geo.clusterSize], cursor, toCopy); }
    }

    /** memcpy(buffer + cursor, g_cluster_buffer, to_copy). */
    method CopyOut(out: array<byte>, cursor: nat, n: nat)
      requires cursor + n <= out.Length && n <= buffer.Length && out != buffer
      modifies out
      ensures out[..cursor] == old(out[..cursor]) && out[cursor..cursor + n] == buffer[..n]
      ensures forall k | cursor + n <= k < out.Length :: out[k] == old(out[k])
    {
      forall k | 0 <= k < n { out[cursor + k] := buffer[k]; }
    }

    lemma CopiedOut(o: seq<byte>, b: seq<byte>, window: seq<byte>, cursor: nat, n: nat)
      requires cursor + n <= |o| && n <= |window| && cursor + |window| <= |b|
      requires o[..cursor] == b[..cursor] && o[cursor..cursor + n] == window[..n] && b[cursor..cursor + |window|] == window
      ensures o[..cursor + n] == b[..cursor + n]
    {
      assert b[cursor..cursor + n] == window[..n];
      assert o[..cursor + n] == o[..cursor] + o[cursor..cursor + n];
      assert b[..cursor + n] == b[..cursor] + b[cursor..cursor + n];
    }

    lemma ReadableCluster(cluster: nat)
      requires Mounted() && IsLink(cluster) && (AllOnDevice(geo) || cluster < |View().fat|)
      ensures OnDevice(geo, cluster)
      ensures cluster < |View().fat| ==> InVolume(geo, cluster) && View().fat[cluster] == Next(table.Values(), cluster)
      ensures SECTOR_SIZE <= geo.clusterSize
    {
      ValuesBelowTop(cluster);
    }

    lemma ChainFacts(first: nat)
      requires Whole({}) && first in tree.alloc.chains
      ensures var s := tree.alloc.chains[first];
              && IsChain(View().fat, s) && s[0] == first && |s| > 0
              && InRange(View().data, s) && AllSized(View().data, s, geo.clusterSize)
              && ChainData(View(), tree.alloc, first) == ChainBytes(View().data, s)
    {
      ChainsInRange(View().fat, tree.alloc);
      ChainIsSized(View(), tree.alloc, geo.clusterSize, first);
    }

    // ---------------------------------------------------------------- deleting

    /** The chain of the file entry `first` belongs to a file of directory `d`, if it is a chain at all. */
    ghost predicate Owned(first: nat, d: nat)
      reads `geo, `ready, `rootDirty, `mirrored, `tree, table, table.bytes, root, dev`medium
    {
      Intact({}, d) && (first >= 2 ==> first in tree.alloc.chains && !IsDir(tree, first))
    }

    /** fat12_free_chain on the chain of a file that is about to be deleted. */
    method FreeOwned(first: nat, ghost d: nat)
      requires Mounted()
      modifies table`dirty, table.bytes, `tree
      ensures Mounted() && (old(Sturdy()) ==> Sturdy())
      ensures View().data == old(View()).data && View().root == old(View()).root
      ensures old(Owned(first, d)) ==>
                && tree == old(tree).(alloc := tree.alloc)
                && ChainFreed(old(View()), old(tree), View(), tree.alloc, first) && CanScan(d)
                && SlotsOf(View(), tree.alloc, d) == SlotsOf(old(View()), old(tree).alloc, d)
                && (first >= 2 ==> first < |View().fat| && View().fat[first] == FREE)
    {
      hide Booted, Located, Partition, Entries, Reachable, Synced, View, WellFormed, SlotsOf, Scannable, Sturdy;
      ghost var img, t, owned := View(), tree, Owned(first, d);
      if owned {
        WholeParts({});
        ChainsInRange(img.fat, t.alloc);
      }
      if first >= 2 {
        if owned { ChainIsDistinct(img.fat, t.alloc, first); }
        FreeChain(first, if owned then t.alloc.chains[first] else []);
        if owned { tree := t.(alloc := Without(t.alloc, first)); }
      }
      if owned { FreedKeepsDirectory(img, t, geo.clusterSize, View(), tree.alloc, first, d); }
    }

    /** fat12_mark_entry_deleted. */
    method MarkEntryDeleted(d: nat, name: ShortName)
      returns (res: int, kept: bool, ghost e: Slot, ghost oc: nat, ghost idx: nat, ghost i: nat, ghost j: nat)
      requires Mounted() && (CanScan(d) || Sturdy())
      modifies `rootDirty, root, dev, buffer
      ensures Mounted() && dev.clock >= old(dev.clock)
      ensures res == OK || res == ERR_NOT_FOUND || (res == ERR_IO && !dev.FineSince(old(dev.clock)))
      ensures d == 0 ==> kept && res != ERR_IO
      ensures kept || res == ERR_IO
      ensures View().fat == old(View()).fat
      ensures kept && res != OK ==> View() == old(View())
      ensures old(CanScan(d)) && res == OK ==>
                && View() == Stored(old(View()), oc, idx, e) && e[0] == DELETED_MARK
                && Located(old(View()), tree.alloc, d, i, oc, idx, j) && IsAt(SlotsOf(old(View()), tree.alloc, d), name, i)
      ensures old(CanScan(d)) && res == ERR_NOT_FOUND ==> Entry(old(View()), tree.alloc, d, name) == None
      ensures old(CanScan(d)) && !kept ==> Scarred(old(View()), tree.alloc, View(), d)
      ensures IsLink(d) && dev.AllFail(old(dev.clock), Attempts(geo.sectorsPerCluster)) ==> res == ERR_IO && kept
      ensures old(CanScan(d)) && d != 0 && Entry(old(View()), tree.alloc, d, name).Some? ==>
                var cost := old(Cost(d, name));
                dev.AllFine(old(dev.clock), cost + 1)
                && dev.AllSpoil(old(dev.clock) + cost + 1, Attempts(geo.sectorsPerCluster), Zeros(SECTOR_SIZE)) ==>
                  res == ERR_IO && !kept && Spoilt(View(), tree.alloc, d, name)
    {
      hide Booted, Put, Get, Entries, Reachable, Synced, View, SlotsOf, Stored, Located, Entry, Sturdy, Addressable,
           Scannable, Reads, IsAt, Scarred, DirOk, FromLe16, FromLe32, Le16, Le32;
      kept := true;
      ghost var scans, img, start := CanScan(d), View(), dev.clock;
      ghost var cost := Cost(d, name);
      var entry, owner, index;
      res, entry, owner, index, i, j := FindEntry(d, name);
      oc, idx, e := owner, index, entry;
      if res != OK { return; }
      if scans { PlaceIsAddressable(d, i, oc, idx, j); }
      ValuesBelowTop(0);
      var marked := [DELETED_MARK] + entry[1..26] + Le16(0) + Le32(0);
      e := marked;
      ghost var middle := dev.clock;
      res, kept := WriteEntry(owner, index, marked);
      if scans && d != 0 {
        FailureScars(img, tree.alloc, View(), d, oc);
        if !kept && oc < |img.data| && SECTOR_SIZE <= |img.data[oc]| && View().data[oc] == Splice(img.data[oc], 0, Zeros(SECTOR_SIZE)) {
          SpoiledDirectory(img, tree.alloc, geo.clusterSize, View(), d, name, i, oc, idx, j, SECTOR_SIZE);
        }
      }
    }

    /** fat12_delete_file on a resolved name. The chain is freed before the entry is marked, so a disk failure in between
        leaves a live entry that leads to free clusters, and a failed write may lose the entry: `kept` is false then. In the
        root directory neither can happen; in any other directory some disk makes it happen. */
    method DeleteFileAt(d: nat, name: ShortName) returns (res: int, kept: bool)
      requires Mounted() && (Intact({}, d) || Sturdy()) && IsValidChar(name[0])
      modifies dev, table`dirty, table.bytes, buffer, root, `rootDirty, `mirrored, `tree
      ensures Mounted() && dev.clock >= old(dev.clock) && (old(Sturdy()) ==> Sturdy()) && (old(mirrored) ==> mirrored)
      ensures res == OK && dev.FineSince(old(dev.clock)) ==> !rootDirty && !table.dirty
      ensures res in {OK, ERR_NOT_FOUND, ERR_NOT_FILE} || (res == ERR_IO && !dev.FineSince(old(dev.clock)))
      ensures old(Intact({}, d)) ==> (kept || res == ERR_IO) && (d == 0 ==> kept && res != ERR_IO)
      ensures old(Intact({}, d)) && kept ==> Intact({}, d)
      ensures old(Intact({}, d)) && res != ERR_IO ==> res == DeleteOutcome(old(View()), old(tree), d, name)
      ensures old(Intact({}, d)) && res == OK ==>
                FileAt(old(View()), old(tree), d, name).Some? && FileChanged(old(View()), old(tree), View(), tree, d, name, None)
      ensures old(Intact({}, d)) && res != OK && kept ==> View() == old(View()) && tree == old(tree)
      ensures old(Intact({}, d)) && !kept ==> Undeleted(old(View()), old(tree), View(), tree, geo.clusterSize, d, name)
      ensures old(Intact({}, d)) && d != 0 && FileAt(old(View()), old(tree), d, name).Some? ==>
                && DanglesOn(res, kept, old(View()), View(), old(tree).alloc, old(Cost(d, name)), old(dev.clock), d, name)
                && LosesOn(res, kept, View(), tree.alloc, old(Cost(d, name)), old(dev.clock), d, name)
    {
      hide Booted, Put, Get, Entries, Reachable, Synced, View, SlotsOf, Stored, Located, Entry, Sturdy, Addressable,
           Scannable, Reads, IsAt, Scarred, Spoilt, WellFormed, FileAt, FolderAt, AttrAt, FileChanged, FirstCluster, FileSize,
           IsDirectory, Undeleted, ChainFreed, Heads, ElsewhereSame;
      ghost var intact, img0, t0, cs := Intact({}, d), View(), tree, geo.clusterSize;
      kept := true;
      if intact {
        IntactParts({}, d);
        FolderByEntry(img0, t0, d, name);
        OutcomeByEntry(img0, t0, d, name);
      }
      var entry, found, idx;
      ghost var i, j;
      res, entry, found, idx, i, j := FindEntry(d, name);
      if intact && res == OK { FoundEntry(d, name, entry, found, idx, i, j); }
      if res != OK { return; }
      if IsDirectory(entry) { return ERR_NOT_FILE, true; }
      res, kept := FreeAndMark(d, name, FirstCluster(entry));
    }

    /** Directory `d` holds a file of that name, which starts at cluster `first`. */
    ghost predicate Deletable(d: nat, name: ShortName, first: nat)
      reads `geo, `ready, `rootDirty, `mirrored, `tree, table, table.bytes, root, dev`medium
    {
      && Intact({}, d)
      && (var was := Entry(View(), tree.alloc, d, name);
          was.Some? && !IsDirectory(was.value) && FirstCluster(was.value) == first)
    }

    /** The rest of fat12_delete_file. */
    method FreeAndMark(d: nat, name: ShortName, first: nat) returns (res: int, kept: bool)
      requires Mounted() && (Deletable(d, name, first) || Sturdy())
      modifies dev, table`dirty, table.bytes, buffer, root, `rootDirty, `mirrored, `tree
      ensures Mounted() && dev.clock >= old(dev.clock) && (old(Sturdy()) ==> Sturdy()) && (old(mirrored) ==> mirrored)
      ensures res == OK && dev.FineSince(old(dev.clock)) ==> !rootDirty && !table.dirty
      ensures res in {OK, ERR_NOT_FOUND} || (res == ERR_IO && !dev.FineSince(old(dev.clock)))
      ensures old(Deletable(d, name, first)) ==>
                && (res == OK || res == ERR_IO) && (kept || res == ERR_IO) && (d == 0 ==> kept && res != ERR_IO)
                && (kept ==> Intact({}, d))
                && (res == OK ==> FileChanged(old(View()), old(tree), View(), tree, d, name, None))
                && (res != OK && kept ==> View() == old(View()) && tree == old(tree))
                && (!kept ==> Undeleted(old(View()), old(tree), View(), tree, geo.clusterSize, d, name))
      ensures old(Deletable(d, name, first)) && d != 0 && first >= 2
              && dev.AllFail(old(dev.clock), Attempts(geo.sectorsPerCluster)) ==>
                res == ERR_IO && !kept && View().data == old(View()).data && View().root == old(View()).root
      ensures old(Deletable(d, name, first)) && d != 0 ==>
                var cost := old(Cost(d, name));
                dev.AllFine(old(dev.clock), cost + 1)
                && dev.AllSpoil(old(dev.clock) + cost + 1, Attempts(geo.sectorsPerCluster), Zeros(SECTOR_SIZE)) ==>
                  res == ERR_IO && !kept && Spoilt(View(), tree.alloc, d, name)
    {
      hide Booted, Entries, Reachable, Synced, View, SlotsOf, Located, Scannable, IsAt, Stored, WellFormed, FileChanged,
           FirstCluster, IsDirectory, Undeleted, Scarred, Spoilt, Reads, Sturdy, ChainFreed, Heads;
      ghost var sound, img0, t0, cs := Deletable(d, name, first), View(), tree, geo.clusterSize;
      if sound {
        IntactParts({}, d);
        HeadsByCluster(img0, t0, cs, {}, d, name);
      }
      FreeOwned(first, d);
      ghost var img1, a1 := View(), tree.alloc;
      if sound {
        SameSlotsSameEntry(img0, t0.alloc, img1, a1, d, name);
        SameSlotsSameCosts(img0, t0.alloc, img1, a1, cs, d, name);
        NothingToFree(img0, t0, img1, a1, first);
      }
      ghost var e, at, slot, place, nth;
      res, kept, e, at, slot, place, nth := MarkEntryDeleted(d, name);
      if res != OK {
        kept := kept && first < 2;
        if sound && !kept { UndeletedHere(img0, t0, img1, View(), a1, cs, d, name); }
        return;
      }
      if sound {
        DeletionEffect(img0, t0, cs, d, name, first, img1, a1, place, at, slot, nth, e);
        tree := t0.(alloc := a1, owner := Owners(t0, d, name, Entry(img0, t0.alloc, d, name), None));
      }
      kept := true;
      FlushQuietly();
    }

    /** The disk fails as soon as the entry has been found: the file's clusters are free, and the entry is still there. */
    ghost predicate DanglesOn(res: int, kept: bool, img0: Image, img: Image, a0: Allocation, cost: nat, start: nat, d: nat,
                              name: ShortName)
      reads `geo
    {
      var was := Entry(img0, a0, d, name);
      was.Some? && FirstCluster(was.value) >= 2
      && dev.AllFine(start, cost) && dev.AllFail(start + cost, Attempts(geo.sectorsPerCluster)) ==>
        res == ERR_IO && !kept && img.data == img0.data && img.root == img0.root
    }

    /** The disk fails when the marked entry is written, and leaves zeros in the directory. */
    ghost predicate LosesOn(res: int, kept: bool, img: Image, a: Allocation, cost: nat, start: nat, d: nat, name: ShortName)
      reads `geo
    {
      dev.AllFine(start, 2 * cost + 1)
      && dev.AllSpoil(start + 2 * cost + 1, Attempts(geo.sectorsPerCluster), Zeros(SECTOR_SIZE)) ==>
        res == ERR_IO && !kept && Spoilt(img, a, d, name)
    }

    // ---------------------------------------------------------------- new directories

    /** The two dot entries and zeros, in the cluster buffer. */
    method FillFolderBuffer(self: nat, parent: nat)
      requires Buffers() && self < TWO16 && parent < TWO16 && 2 * SLOT_SIZE <= geo.clusterSize <= buffer.Length
      modifies buffer
      ensures buffer[..geo.clusterSize] == FolderBytes(self, parent, geo.clusterSize)
    {
      hide MakeEntry;
      var dot := MakeEntry([DOT] + seq(10, i => SPACE), ATTR_DIRECTORY, self, 0);
      var dotdot := MakeEntry([DOT, DOT] + seq(9, i => SPACE), ATTR_DIRECTORY, parent, 0);
      assert [DOT] + seq(10, i => SPACE) == DotName() && [DOT, DOT] + seq(9, i => SPACE) == DotDotName();
      ClearBuffer();
      assert forall k | 0 <= k < geo.clusterSize :: buffer[k] == buffer[..geo.clusterSize][k] == 0;
      forall k | 0 <= k < SLOT_SIZE { buffer[k] := dot[k]; }
      assert buffer[..SLOT_SIZE] == dot;
      forall k | 0 <= k < SLOT_SIZE { buffer[SLOT_SIZE + k] := dotdot[k]; }
      assert buffer[..SLOT_SIZE] == dot && buffer[SLOT_SIZE..2 * SLOT_SIZE] == dotdot;
      assert buffer[..geo.clusterSize][SLOT_SIZE..2 * SLOT_SIZE] == buffer[SLOT_SIZE..2 * SLOT_SIZE];
      FolderBytesIs(buffer[..geo.clusterSize], self, parent);
    }

    /** The rest of fat12_create_directory: the cluster is allocated, filled and entered. */
    method MakeFolder(d: nat, name: ShortName) returns (res: int, kept: bool, h: nat)
      requires Mounted() && (Intact({}, d) || Sturdy()) && IsValidChar(name[0]) && d < TWO16
      modifies dev, table`dirty, table.bytes, buffer, root, `rootDirty, `mirrored, `tree
      ensures Mounted() && dev.clock >= old(dev.clock) && (old(Sturdy()) ==> Sturdy()) && (old(mirrored) ==> mirrored)
      ensures res == OK && dev.FineSince(old(dev.clock)) ==> !rootDirty && !table.dirty
      ensures res in {OK, ERR_DIR_FULL, ERR_NO_FREE_CLUSTER} || (res == ERR_IO && !dev.FineSince(old(dev.clock)))
      ensures old(Intact({}, d)) && (kept || (res != OK && Unharmed(old(View()), old(tree).alloc, View(), tree.alloc, d))) ==> Intact({}, d)
      ensures old(Intact({}, d)) ==>
                && MakeEffect(res, kept, old(View()), old(tree), View(), tree, d, name, h, 1)
                && (dev.FineSince(old(dev.clock)) ==> res == StoreOutcome(old(View()), old(tree).alloc, d, name, 1))
      ensures old(Intact({}, d)) && res in {ERR_DIR_FULL, ERR_NO_FREE_CLUSTER} ==>
                table.bytes[..] == old(table.bytes[..]) && root[..] == old(root[..])
      ensures old(Intact({}, d) && d != 0 && StoreOutcome(View(), tree.alloc, d, name, 1) == OK) ==>
                GarblesOn(res, kept, View(), tree.alloc, 3 + old(EntryCost(d, name)), old(dev.clock), d)
    {
      hide Booted, Put, Get, Entries, Reachable, Synced, View, SlotsOf, Entry, Sturdy, SameFiles, Undisturbed, WellFormed, FreeCount,
           FolderChanged, ElsewhereSame, Overwritten, DirFull, SameSlack, TakenFrom, PlaceCost, Lengthened, Garbled, StoreOutcome;
      ghost var intact, img0, t0, before, values := Intact({}, d), View(), tree, table.bytes[..], table.Values();
      kept := true;
      FewAreNotEnough(img0, t0.alloc, d, name, 1);
      h := AllocateCluster({});
      ghost var img1, t1 := View(), tree;
      if intact { UndisturbedParts(img0, t0, img1, t1, d); }
      if h == 0 { return ERR_NO_FREE_CLUSTER, true, 0; }
      ValuesBelowTop(h);
      if intact {
        JustTaken(before, values, h);
        SameSlotsSameCosts(img0, t0.alloc, img1, t1.alloc, geo.clusterSize, d, name);
        OutcomeShift(img0, t0.alloc, img1, t1.alloc, d, name, 1);
        assert {} + {h} == {h};
      }
      res, kept := PublishFolder(d, name, h, before);
      if intact { MadeThenSame(res, kept, img0, t0, img1, t1, View(), tree, d, name, h, 1, 0); }
    }

    /** After an allocation only the new cluster has been taken. */
    lemma JustTaken(before: seq<byte>, values: seq<nat>, c: nat)
      requires Mounted() && |before| == FAT_BUFFER
      requires Entries(before, table.size) == values && SameSlack(before, table.bytes[..], table.size)
      requires c != 0 && c < |values| && values[c] == FREE && table.Values() == values[c := EOC]
      requires c in tree.alloc.chains && tree.alloc.chains[c] == [c]
      ensures OnlyTaken(before, c) && Taken(c) == [c]
    {
    }

    /** A taken name in a subdirectory, and a free cluster. */
    ghost predicate TakenBelow(d: nat, name: ShortName)
      reads `geo, `ready, `rootDirty, `mirrored, `tree, table, table.bytes, root, dev`medium
    {
      Intact({}, d) && d != 0 && Entry(View(), tree.alloc, d, name).Some? && FreeCount(View().fat) > 0
    }

    /** fat12_create_directory on a resolved name; `h` is the new directory. The driver only looks whether the first
        lookup succeeded, so in a subdirectory a name that is taken gets past it when that lookup fails on the disk: the
        entry is overwritten then, and `kept` is false. */
    method CreateDirectoryAt(d: nat, name: ShortName) returns (res: int, kept: bool, h: nat)
      requires Mounted() && (Intact({}, d) || Sturdy()) && IsValidChar(name[0]) && d < TWO16
      modifies dev, table`dirty, table.bytes, buffer, root, `rootDirty, `mirrored, `tree
      ensures Mounted() && dev.clock >= old(dev.clock) && (old(Sturdy()) ==> Sturdy()) && (old(mirrored) ==> mirrored)
      ensures res == OK && dev.FineSince(old(dev.clock)) ==> !rootDirty && !table.dirty
      ensures res in {OK, ERR_ALREADY_EXISTS, ERR_DIR_FULL, ERR_NO_FREE_CLUSTER} || (res == ERR_IO && !dev.FineSince(old(dev.clock)))
      ensures old(Intact({}, d)) && (kept || (res != OK && Unharmed(old(View()), old(tree).alloc, View(), tree.alloc, d))) ==> Intact({}, d)
      ensures old(Intact({}, d)) && d == 0 ==> kept
      ensures old(Intact({}, d)) ==> MakeEffect(res, kept, old(View()), old(tree), View(), tree, d, name, h, 1)
      ensures old(Intact({}, d)) && res in {ERR_ALREADY_EXISTS, ERR_DIR_FULL, ERR_NO_FREE_CLUSTER} ==>
                table.bytes[..] == old(table.bytes[..]) && root[..] == old(root[..])
      ensures old(Intact({}, d)) && dev.FineSince(old(dev.clock)) ==> kept && res == MakeOutcome(old(View()), old(tree), d, name)
      ensures old(TakenBelow(d, name)) ==> OverwritesOn(res, kept, old(dev.clock))
      ensures old(MakesBelow(d, name)) ==>
                GarblesOn(res, kept, View(), tree.alloc, old(CostToEnter(d, name, 1)), old(dev.clock), d)
    {
      hide Booted, Put, Get, Entries, Reachable, Synced, View, SlotsOf, Entry, Sturdy, SameFiles, WellFormed, FreeCount, FolderChanged,
           ElsewhereSame, Overwritten, DirFull, FoundAt, Addressable, Scannable, Reads, PlaceCost, Lengthened, Garbled;
      ghost var intact, img0, t0 := Intact({}, d), View(), tree;
      kept, h := true, 0;
      SameFilesRefl(img0, t0);
      if intact { IntactParts({}, d); }
      var existing, oc, idx;
      ghost var i, j;
      res, existing, oc, idx, i, j := FindEntry(d, name);
      if res == OK {
        if intact { FoundEntry(d, name, existing, oc, idx, i, j); }
        return ERR_ALREADY_EXISTS, true, 0;
      }
      res, kept, h := MakeFolder(d, name);
    }

    /** The disk fails the first lookup and works from then on: an entry that is there is overwritten. */
    ghost predicate OverwritesOn(res: int, kept: bool, start: nat)
      reads `geo
    {
      var n := Attempts(geo.sectorsPerCluster);
      dev.AllFail(start, n) && dev.WorksFrom(start + n) ==> res == OK && !kept
    }

    /** The new directory's cluster is written. */
    method WriteFolderCluster(c: nat, parent: nat) returns (ok: bool)
      requires Mounted() && InVolume(geo, c) && OnDevice(geo, c) && parent < TWO16
      modifies dev, buffer
      ensures Mounted() && dev.clock >= old(dev.clock) && (dev.FineSince(old(dev.clock)) ==> ok)
      ensures dev.faults(old(dev.clock)).Fine? ==> ok && dev.clock == old(dev.clock) + 1
      ensures View().fat == old(View()).fat && c < TWO16 && 2 * SLOT_SIZE <= geo.clusterSize && geo.clusterSize % SLOT_SIZE == 0
      ensures ok ==> View().data[c] == FolderBytes(c, parent, geo.clusterSize)
      ensures old(Intact({c}, parent) && Taken(c) == [c]) ==> Intact({c}, parent) && Undisturbed(old(View()), tree, View(), tree)
    {
      hide Booted, Put, Get, Entries, Reachable, Synced, View, Undisturbed, WellFormed, FolderBytes;
      ValuesBelowTop(c);
      BigClusters();
      if Whole({c}) { WholeParts({c}); }
      FillFolderBuffer(c, parent);
      ok := WriteLoose(c, c);
    }

    /** The new cluster is filled with the dot entries, entered into the parent, and the caches are flushed. */
    method PublishFolder(d: nat, name: ShortName, c: nat, ghost before: seq<byte>) returns (res: int, kept: bool)
      requires Mounted() && ((Intact({c}, d) && Taken(c) == [c]) || Sturdy())
      requires IsValidChar(name[0]) && InVolume(geo, c) && OnDevice(geo, c) && d < TWO16
      modifies dev, table`dirty, table.bytes, buffer, root, `rootDirty, `mirrored, `tree
      ensures Mounted() && dev.clock >= old(dev.clock) && (old(Sturdy()) ==> Sturdy()) && (old(mirrored) ==> mirrored)
      ensures res == OK && dev.FineSince(old(dev.clock)) ==> !rootDirty && !table.dirty
      ensures res in {OK, ERR_DIR_FULL, ERR_NO_FREE_CLUSTER} || (res == ERR_IO && !dev.FineSince(old(dev.clock)))
      ensures res != OK ==> root[..] == old(root[..])
      ensures old(Intact({c}, d) && Taken(c) == [c])
              && (kept || (res != OK && Unharmed(old(View()), old(tree).alloc, View(), tree.alloc, d))) ==>
                Intact({}, d)
      ensures old(Intact({c}, d) && Taken(c) == [c]) ==>
                && MakeEffect(res, kept, old(View()), old(tree), View(), tree, d, name, c, 0)
                && (dev.FineSince(old(dev.clock)) ==> res == StoreOutcome(old(View()), old(tree).alloc, d, name, 0))
      ensures old(Intact({c}, d) && Taken(c) == [c] && OnlyTaken(before, c)) ==>
                res in {ERR_DIR_FULL, ERR_NO_FREE_CLUSTER} ==> table.bytes[..] == before
      ensures old(Intact({c}, d) && Taken(c) == [c] && d != 0 && StoreOutcome(View(), tree.alloc, d, name, 0) == OK) ==>
                GarblesOn(res, kept, View(), tree.alloc, 2 + old(EntryCost(d, name)), old(dev.clock), d)
    {
      hide Booted, Put, Get, Entries, Reachable, Synced, View, SlotsOf, Entry, Sturdy, SameFiles, Undisturbed, WellFormed,
           FreeCount, FolderChanged, ElsewhereSame, Overwritten, DirFull, TakenFrom, SameSlack, Lengthened, PlaceCost, Garbled,
           StoreOutcome, FolderBytes;
      ghost var sound, img0, t0 := Intact({c}, d) && Taken(c) == [c], View(), tree;
      ghost var only := OnlyTaken(before, c);
      kept := true;
      var ok := WriteFolderCluster(c, d);
      ghost var img1 := View();
      ValuesBelowTop(c);
      if sound { UndisturbedParts(img0, t0, img1, t0, d); }
      assert OnlyTaken(before, c) == only;
      if !ok {
        Withdraw(c, before, sound, img1, img0, t0, d);
        return ERR_IO, true;
      }
      if sound {
        SameSlotsSameCosts(img0, t0.alloc, img1, t0.alloc, geo.clusterSize, d, name);
        OutcomeShift(img0, t0.alloc, img1, t0.alloc, d, name, 0);
      }
      res, kept := EnterFolder(d, name, c, before);
      if sound { MadeThenSame(res, kept, img0, t0, img1, t0, View(), tree, d, name, c, 0, 0); }
    }

    /** The cluster of the new directory is filled, but no entry leads to it. */
    ghost predicate Enterable(d: nat, c: nat)
      reads `geo, `ready, `rootDirty, `mirrored, `tree, table, table.bytes, root, dev`medium
    {
      && Intact({c}, d) && Taken(c) == [c] && InVolume(geo, c) && d < TWO16 && c < TWO16
      && 2 * SLOT_SIZE <= geo.clusterSize && geo.clusterSize % SLOT_SIZE == 0
      && View().data[c] == FolderBytes(c, d, geo.clusterSize)
    }

    /** It is entered into the parent, and the caches are flushed; or it is given back. */
    method EnterFolder(d: nat, name: ShortName, c: nat, ghost before: seq<byte>) returns (res: int, kept: bool)
      requires Mounted() && (Enterable(d, c) || Sturdy()) && IsValidChar(name[0]) && c < TWO16
      modifies dev, table`dirty, table.bytes, buffer, root, `rootDirty, `mirrored, `tree
      ensures Mounted() && dev.clock >= old(dev.clock) && (old(Sturdy()) ==> Sturdy()) && (old(mirrored) ==> mirrored)
      ensures res == OK && dev.FineSince(old(dev.clock)) ==> !rootDirty && !table.dirty
      ensures res in {OK, ERR_DIR_FULL, ERR_NO_FREE_CLUSTER} || (res == ERR_IO && !dev.FineSince(old(dev.clock)))
      ensures res != OK ==> root[..] == old(root[..])
      ensures old(Enterable(d, c)) && (kept || (res != OK && Unharmed(old(View()), old(tree).alloc, View(), tree.alloc, d))) ==>
                Intact({}, d)
      ensures old(Enterable(d, c)) ==>
                && MakeEffect(res, kept, old(View()), old(tree), View(), tree, d, name, c, 0)
                && (dev.FineSince(old(dev.clock)) ==> res == StoreOutcome(old(View()), old(tree).alloc, d, name, 0))
      ensures old(Enterable(d, c) && OnlyTaken(before, c)) ==> res in {ERR_DIR_FULL, ERR_NO_FREE_CLUSTER} ==> table.bytes[..] == before
      ensures old(Enterable(d, c) && d != 0 && StoreOutcome(View(), tree.alloc, d, name, 0) == OK) ==>
                GarblesOn(res, kept, View(), tree.alloc, old(EntryCost(d, name)) + 1, old(dev.clock), d)
    {
      hide Booted, Put, Get, Entries, Reachable, Synced, View, SlotsOf, Entry, Sturdy, SameFiles, WellFormed, FreeCount, FolderChanged,
           ElsewhereSame, Overwritten, DirFull, TakenFrom, SameSlack, MakeEntry, IsFree, Name, IsDirectory, FirstCluster,
           EntryChanged, Scarred, FolderBytes, LooseKept, IsDot, Lengthened, PlaceCost, Garbled, StoreOutcome, EntryEffect, MakeEffect;
      ghost var sound, img0, t0 := Enterable(d, c), View(), tree;
      if sound { ChainHeadIsLink(c); }
      ghost var only, bytes0 := OnlyTaken(before, c), table.bytes[..];
      ValuesBelowTop(0);
      MadeEntryIsLive(name, ATTR_DIRECTORY, c, 0);
      DirectoryAttr(name, c);
      var newEntry := MakeEntry(name, ATTR_DIRECTORY, c, 0);
      var replaced;
      ghost var mid;
      res, kept, replaced, mid := WriteDirectoryEntry({c}, d, name, newEntry);
      if res != OK {
        if table.bytes[..] == bytes0 && tree == t0 { assert OnlyTaken(before, c) == only; }
        WithdrawEntry(c, before, sound, res, kept, replaced, dev.FineSince(old(dev.clock)), mid, img0, t0, d, name, newEntry, [], c);
        return;
      }
      kept := !replaced;
      if sound {
        EntryParts(true, replaced, dev.FineSince(old(dev.clock)), img0, t0, mid, View(), tree, geo.clusterSize, {c}, d, name, newEntry);
        FolderIsWritten(d, name, c, newEntry, mid, img0, t0);
      }
      AdmitFolder(d, name, c, newEntry, sound, kept, mid, img0, t0);
    }

    /** The entry of the new directory is written: the tree follows, unless a live entry was overwritten. */
    method AdmitFolder(ghost d: nat, ghost name: ShortName, ghost c: nat, ghost e: Slot, ghost sound: bool, ghost kept: bool,
                       ghost mid: Image, ghost img0: Image, ghost t0: Tree)
      requires Mounted() && IsValidChar(name[0])
      requires sound ==> && FolderWritten(d, name, c, e, img0, mid, img0, t0) && kept == Entry(img0, t0.alloc, d, name).None?
                         && StoreOutcome(img0, t0.alloc, d, name, 0) == OK
      modifies dev, table`dirty, `rootDirty, `mirrored, `tree
      ensures Mounted() && dev.clock >= old(dev.clock) && (old(Sturdy()) ==> Sturdy()) && (old(mirrored) ==> mirrored)
      ensures dev.FineSince(old(dev.clock)) ==> !rootDirty && !table.dirty
      ensures sound ==> (kept ==> Intact({}, d)) && MakeEffect(OK, kept, img0, t0, View(), tree, d, name, c, 0)
    {
      hide Reachable, Synced, Booted, View, Entry, Sturdy, WellFormed, FolderChanged, ElsewhereSame, Overwritten, FolderWritten,
           MakeEffect, StoreOutcome;
      if sound {
        if kept { tree := FolderEntered(img0, t0, img0, mid, c, d, name, e); }
        else { FolderReplaced(img0, t0, img0, mid, c, d, name, e); }
      }
      FlushQuietly();
      if sound { FolderEffect(kept, img0, t0, View(), tree, d, name, c); }
    }

    lemma ChainHeadIsLink(c: nat)
      requires Whole({c})
      ensures c != 0 && Pending(c) == {c}
    {
      WholeParts({c});
    }

    lemma FolderIsWritten(d: nat, name: ShortName, c: nat, e: Slot, mid: Image, img0: Image, t0: Tree)
      requires Mounted() && WellFormed(img0, t0, geo.clusterSize, {c}) && IsDir(t0, d) && c in t0.alloc.chains && t0.alloc.chains[c] == [c]
      requires WellFormed(mid, tree, geo.clusterSize, {c}) && SameFiles(img0, t0, mid, tree) && View().fat == mid.fat
      requires EntryChanged(mid, tree, View(), geo.clusterSize, d, name, Some(e)) && LooseKept({c}, img0, t0, mid, tree)
      requires Attr(e) == ATTR_DIRECTORY && IsDirectory(e) && !IsDot(e) && FirstCluster(e) == c && d < TWO16 && c < TWO16 && c < |img0.data|
      requires 2 * SLOT_SIZE <= geo.clusterSize && geo.clusterSize % SLOT_SIZE == 0
      requires img0.data[c] == FolderBytes(c, d, geo.clusterSize)
      ensures FolderWritten(d, name, c, e, img0, mid, img0, t0)
    {
      hide View, WellFormed, SameFiles, EntryChanged, LooseKept, IsDirectory, IsDot, FirstCluster, FolderBytes;
      ZeroIsNoChain(img0, t0, geo.clusterSize, {c});
      SameDirs(img0, t0, mid, tree, d);
    }

    /** The filled cluster `c` is loose, and the directory `d` has the new entry. */
    ghost predicate FolderWritten(d: nat, name: ShortName, c: nat, e: Slot, img1: Image, mid: Image, img0: Image, t0: Tree)
      reads `geo, `ready, `rootDirty, `mirrored, `tree, table, table.bytes, root, dev`medium
    {
      && Mounted() && IsDir(t0, d) && IsDir(tree, d) && WellFormed(mid, tree, geo.clusterSize, {c}) && View().fat == mid.fat
      && SameFiles(img0, t0, mid, tree) && LooseKept({c}, img1, t0, mid, tree)
      && EntryChanged(mid, tree, View(), geo.clusterSize, d, name, Some(e))
      && Attr(e) == ATTR_DIRECTORY && IsDirectory(e) && !IsDot(e) && FirstCluster(e) == c
      && c in t0.alloc.chains && t0.alloc.chains[c] == [c] && 0 < c < TWO16 && c < |img1.data| && d < TWO16
      && geo.clusterSize >= 2 * SLOT_SIZE && geo.clusterSize % SLOT_SIZE == 0
      && img1.data[c] == FolderBytes(c, d, geo.clusterSize)
    }

    lemma FolderReplaced(img0: Image, t0: Tree, img1: Image, mid: Image, c: nat, d: nat, name: ShortName, e: Slot)
      requires FolderWritten(d, name, c, e, img1, mid, img0, t0) && Entry(img0, t0.alloc, d, name).Some? && IsValidChar(name[0])
      ensures Overwritten(img0, t0, View(), tree, d, name, c) && ElsewhereSame(img0, t0, View(), tree, d)
    {
      FolderOverwrites(img0, t0, mid, tree, View(), geo.clusterSize, d, name, e, c);
    }

    /** The new directory joins the tree. */
    lemma FolderEntered(img0: Image, t0: Tree, img1: Image, mid: Image, c: nat, d: nat, name: ShortName, e: Slot) returns (t2: Tree)
      requires FolderWritten(d, name, c, e, img1, mid, img0, t0) && Entry(img0, t0.alloc, d, name).None?
      ensures t2.alloc == tree.alloc && IsDir(t2, d) && WellFormed(View(), t2, geo.clusterSize, {})
      ensures FolderChanged(img0, t0, View(), t2, d, name, c)
    {
      hide Entry, FolderChanged, FolderBytes, FreshFolder;
      SameEntry(img0, t0, mid, tree, d, name);
      FolderIsFresh(img1, t0, mid, tree, geo.clusterSize, c, d);
      t2 := WithFolder(tree, d, name, c);
      FolderEntryStep(mid, tree, geo.clusterSize, {c}, View(), d, name, e);
      FolderEntryChanges(mid, tree, geo.clusterSize, {c}, View(), d, name, e);
      assert {c} - {c} == {};
      SameThenFolder(img0, t0, mid, tree, View(), t2, d, name, c);
    }

    // ---------------------------------------------------------------- listing

    /** fat12_iterate_directory_internal. The callback sees entry after entry and may end the listing; `stop` tells from
        the entries it has been shown whether it does. */
    method IterateDirectory(d: nat, stop: seq<Info> -> bool) returns (res: int, infos: seq<Info>, ghost names: seq<ShortName>)
      requires Mounted() && (CanScan(d) || Sturdy())
      modifies dev`clock, buffer
      ensures Mounted() && View() == old(View()) && dev.clock >= old(dev.clock)
      ensures res == OK || (res == ERR_IO && !dev.FineSince(old(dev.clock)))
      ensures old(CanScan(d)) && res == OK ==> Shown(Infos(Listing(SlotsOf(View(), tree.alloc, d))), stop, infos)
      ensures old(Intact({}, d)) && res == OK ==>
                && AllTell(View(), tree, d, names, infos)
                && (infos == [] || !stop(infos) ==> AllListed(View(), tree, d, names))
    {
      hide View, Synced, WellFormed, Listing, SlotsOf, Shown, AllTell, AllListed, Scannable, Sturdy;
      ghost var intact := Intact({}, d);
      names := [];
      if intact { IntactParts({}, d); }
      if d == 0 {
        res := OK;
        infos := IterateRoot(stop);
      } else {
        res, infos := IterateChain(d, stop);
      }
      if intact && res == OK { names := ShownTells(View(), tree, geo.clusterSize, d, stop, infos); }
    }

    method IterateRoot(stop: seq<Info> -> bool) returns (infos: seq<Info>)
      requires Mounted()
      ensures CanScan(0) ==> Shown(Infos(Listing(SlotsOf(View(), tree.alloc, 0))), stop, infos)
    {
      hide Booted, Synced, View, Reachable, SlotsOf, Listing, InfoOf, ShownSoFar, Shown;
      var done;
      ghost var seen;
      ghost var slots := SlotsOf(View(), tree.alloc, 0);
      NothingShown(slots, stop);
      RootView();
      infos, done, seen := ListSlots(root, geo.rootEntryCount, slots, 0, [], stop);
      if CanScan(0) { ListingEnds(slots, seen, stop, infos, done); }
    }

    /** One round of the loop: a cluster is read and its entries are shown. */
    method ListCluster(cluster: nat, ghost d: nat, ghost j: nat, ghost scans: bool, ghost read: seq<Slot>, before: seq<Info>,
                       stop: seq<Info> -> bool)
      returns (ok: bool, infos: seq<Info>, done: bool, ghost read': seq<Slot>)
      requires Mounted() && OnDevice(geo, cluster)
      requires scans ==> CanScan(d) && d != 0 && j < |tree.alloc.chains[d]| && cluster == tree.alloc.chains[d][j]
      requires if scans then ShownSoFar(SlotsOf(View(), tree.alloc, d), SlotBase(View(), tree.alloc, d, j), stop, before)
               else ShownSoFar(read, |read|, stop, before)
      modifies dev`clock, buffer
      ensures Mounted() && View() == old(View()) && dev.clock >= old(dev.clock) && (dev.FineSince(old(dev.clock)) ==> ok)
      ensures scans && ok && done ==> Shown(Infos(Listing(SlotsOf(View(), tree.alloc, d))), stop, infos)
      ensures ok && !done ==>
                if scans then ShownSoFar(SlotsOf(View(), tree.alloc, d), SlotBase(View(), tree.alloc, d, j + 1), stop, infos)
                else ShownSoFar(read', |read'|, stop, infos)
    {
      hide Booted, Put, Get, Entries, Reachable, View, Synced, SlotsOf, Slots, SlotBase, Listing, InfoOf, Infos, DirOk,
           ShownSoFar, Shown, IsChain, ShownToEnd;
      infos, done, read' := [], false, read;
      ValuesBelowTop(0);
      if scans { ScanInVolume(d, j); }
      ok := ReadCluster(cluster);
      if !ok { return; }
      var n := geo.clusterSize / SLOT_SIZE;
      SlotsFit(n);
      ghost var all, base := SlotsAhead(cluster, d, j, scans, read, before, stop, n);
      ghost var seen;
      infos, done, seen := ListSlots(buffer, n, all, base, before, stop);
      read' := all;
      if scans && done { ListingEnds(all, base + seen, stop, infos, true); }
    }

    /** Where the slots in the buffer stand: among those of the directory, or behind all that were read. */
    lemma SlotsAhead(cluster: nat, d: nat, j: nat, scans: bool, read: seq<Slot>, before: seq<Info>, stop: seq<Info> -> bool, n: nat)
      returns (all: seq<Slot>, base: nat)
      requires Mounted() && geo.clusterSize <= buffer.Length && n == geo.clusterSize / SLOT_SIZE && SLOT_SIZE * n <= buffer.Length
      requires |Slots(buffer[..SLOT_SIZE * n])| == n
      requires if scans then ShownSoFar(SlotsOf(View(), tree.alloc, d), SlotBase(View(), tree.alloc, d, j), stop, before)
               else ShownSoFar(read, |read|, stop, before)
      requires scans ==> CanScan(d) && d != 0 && j < |tree.alloc.chains[d]| && cluster == tree.alloc.chains[d][j]
                         && InVolume(geo, cluster) && buffer[..geo.clusterSize] == View().data[cluster] && geo.clusterSize % SLOT_SIZE == 0
      ensures base + n <= |all| && ShownSoFar(all, base, stop, before)
      ensures forall k | 0 <= k < n :: all[base + k] == Slots(buffer[..SLOT_SIZE * n])[k]
      ensures if scans then all == SlotsOf(View(), tree.alloc, d) && base + n == SlotBase(View(), tree.alloc, d, j + 1) && DirOk(all)
              else base + n == |all|
    {
      hide View, SlotsOf, Slots, SlotBase, Listing, Infos, DirOk, ShownSoFar, IsChain;
      if scans {
        all, base := SlotsOf(View(), tree.alloc, d), SlotBase(View(), tree.alloc, d, j);
        BufferHolds(View().data[cluster]);
        SlotsWindow(View(), tree.alloc, geo.clusterSize, d, j);
      } else {
        all, base := read + Slots(buffer[..SLOT_SIZE * n]), |read|;
        ShownInLonger(read, Slots(buffer[..SLOT_SIZE * n]), stop, before);
      }
    }

    lemma SlotsFit(n: nat)
      requires Mounted() && geo.clusterSize <= buffer.Length && n == geo.clusterSize / SLOT_SIZE
      ensures SLOT_SIZE * n <= buffer.Length && |Slots(buffer[..SLOT_SIZE * n])| == n
    {
    }

    lemma ListingBounds(d: nat)
      requires CanScan(d) && d != 0
      ensures var slots := SlotsOf(View(), tree.alloc, d);
              && DirOk(slots) && d in tree.alloc.chains && SlotBase(View(), tree.alloc, d, 0) == 0
              && SlotBase(View(), tree.alloc, d, |tree.alloc.chains[d]|) == |slots|
    {
      SlotBaseEnds(View(), tree.alloc, geo.clusterSize, d);
    }

    method IterateChain(d: nat, stop: seq<Info> -> bool) returns (res: int, infos: seq<Info>)
      requires Mounted() && d != 0 && (CanScan(d) || Sturdy())
      modifies dev`clock, buffer
      ensures Mounted() && View() == old(View()) && dev.clock >= old(dev.clock)
      ensures res == OK || (res == ERR_IO && !dev.FineSince(old(dev.clock)))
      ensures old(CanScan(d)) && res == OK ==> Shown(Infos(Listing(SlotsOf(View(), tree.alloc, d))), stop, infos)
    {
      hide Booted, Put, Get, Entries, Reachable, View, Synced, SlotsOf, Slots, SlotBase, Scannable, Sturdy, Listing, Infos, DirOk,
           ShownSoFar, Shown, IsWalk, IsChain, Mounted;
      Apart();
      ghost var img, a, scans := View(), tree.alloc, CanScan(d);
      ghost var read: seq<Slot> := [];
      ghost var slots := SlotsOf(img, a, d);
      ghost var s := PickWalk(d);
      NothingShown(slots, stop);
      NothingShown(read, stop);
      var cluster := d;
      ghost var j := 0;
      infos := [];
      OnWalk(d, s, 0);
      if scans { ListingBounds(d); }
      while IsLink(cluster)
        invariant 0 <= j <= |s| && Mounted() && View() == img && dev.clock >= old(dev.clock)
        invariant if j < |s| then cluster == s[j] else !IsLink(cluster)
        invariant if scans then ShownSoFar(slots, SlotBase(img, a, d, j), stop, infos) else ShownSoFar(read, |read|, stop, infos)
        decreases |s| - j
      {
        OnWalk(d, s, j);
        var ok, done;
        ok, infos, done, read := ListCluster(cluster, d, j, scans, read, infos, stop);
        if !ok { return ERR_IO, []; }
        if done { return OK, infos; }
        cluster := table.GetEntry(cluster);
        j := j + 1;
      }
      OnWalk(d, s, j);
      assert j == |s|;
      if scans { ListingEnds(slots, |slots|, stop, infos, false); }
      return OK, infos;
    }

    // ---------------------------------------------------------------- mounting

    /** The loops of fat12_init that load a run of sectors into a buffer. */
    method LoadRun(s: nat, n: nat, target: array<byte>) returns (ok: bool)
      requires dev.Valid() && geo.baseLba + s + n <= REACH && SECTOR_SIZE * n <= target.Length
      modifies dev`clock, target
      ensures dev.clock >= old(dev.clock) && (dev.FineSince(old(dev.clock)) ==> ok)
      ensures ok ==> RunHolds(geo, dev.medium, s, n, target[..])
    {
      var i := 0;
      while i < n
        invariant 0 <= i <= n && dev.clock >= old(dev.clock) && RunHolds(geo, dev.medium, s, i, target[..])
      {
        ghost var before := target[..];
        var result := ReadSector(dev, geo.baseLba + s + i, target, SECTOR_SIZE * i);
        if result != 0 { return false; }
        LoadExtends(geo, dev.medium, s, i, before, target[..]);
        i := i + 1;
      }
      return true;
    }

    /** The three loading phases of fat12_init; the second FAT is read but never used. */
    method LoadAll() returns (ok: bool)
      requires Buffers() && Reachable(geo)
      requires geo.numFats == 0 ==> geo.baseLba + geo.fatStart + geo.sectorsPerFat <= REACH
      modifies dev`clock, table.bytes, root
      ensures Buffers() && dev.clock >= old(dev.clock) && (dev.FineSince(old(dev.clock)) ==> ok)
      ensures ok ==> RunHolds(geo, dev.medium, geo.fatStart, geo.sectorsPerFat, table.bytes[..])
      ensures ok ==> RunHolds(geo, dev.medium, geo.rootStart, geo.rootDirSectors, root[..])
    {
      FatsInReach(geo);
      ok := LoadRun(geo.fatStart, geo.sectorsPerFat, table.bytes);
      if !ok { return; }
      ghost var loaded := table.bytes[..];
      if geo.numFats > 1 {
        var secondary := new byte[FAT_BUFFER];
        ok := LoadRun(geo.fatStart + geo.sectorsPerFat, geo.sectorsPerFat, secondary);
        if !ok { return; }
      }
      ok := LoadRun(geo.rootStart, geo.rootDirSectors, root);
      assert table.bytes[..] == loaded;
    }

    /** The loaded caches are in step with the disk. */
    lemma LoadedIsSynced()
      requires Buffers() && Reachable(geo) && table.size == geo.fatSize && !table.dirty && !rootDirty
      requires RunHolds(geo, dev.medium, geo.fatStart, geo.sectorsPerFat, table.bytes[..])
      requires RunHolds(geo, dev.medium, geo.rootStart, geo.rootDirSectors, root[..])
      requires mirrored <==> forall k | 0 <= k < geo.numFats :: FatCopy(geo, dev.medium, k) == FatCopy(geo, dev.medium, 0)
      ensures Synced()
    {
      if geo.numFats > 0 { FirstFatCopy(geo, dev.medium); }
      assert table.bytes[..][..SECTOR_SIZE * geo.sectorsPerFat] == table.bytes[..geo.fatSize];
      assert root[..][..SECTOR_SIZE * geo.rootDirSectors] == root[..geo.rootDirSectors * SECTOR_SIZE];
    }

    /** Clean caches show what is on the disk. */
    lemma CleanView()
      requires Mounted() && !table.dirty && !rootDirty && geo.numFats > 0
      ensures View() == DiskImage(geo, dev.medium)
    {
      FirstFatCopy(geo, dev.medium);
      assert table.bytes[..geo.fatSize] == FatCopy(geo, dev.medium, 0);
      ImageOfPrefixes();
    }

    /** Only the parts of the buffers that a mount loads show. */
    lemma ImageOfPrefixes()
      requires Buffers() && Reachable(geo) && table.size == geo.fatSize
      ensures geo.rootDirSectors * SECTOR_SIZE <= root.Length && geo.rootDirSectors * SECTOR_SIZE >= DIR_ENTRY_SIZE * geo.rootEntryCount
      ensures ImageOf(geo, table.Values(), root[..], dev.medium) ==
              ImageOf(geo, Entries(table.bytes[..geo.fatSize], geo.fatSize), root[..geo.rootDirSectors * SECTOR_SIZE], dev.medium)
    {
      EntriesOfPrefix(table.bytes[..], geo.fatSize);
      assert table.bytes[..][..geo.fatSize] == table.bytes[..geo.fatSize];
      var n := DIR_ENTRY_SIZE * geo.rootEntryCount;
      assert root[..geo.rootDirSectors * SECTOR_SIZE][..n] == root[..][..n];
    }

    /** So do caches that have just been loaded. */
    lemma LoadedView()
      requires Buffers() && Reachable(geo) && table.size == geo.fatSize
      requires RunHolds(geo, dev.medium, geo.fatStart, geo.sectorsPerFat, table.bytes[..])
      requires RunHolds(geo, dev.medium, geo.rootStart, geo.rootDirSectors, root[..])
      ensures Mounted() ==> View() == DiskImage(geo, dev.medium)
    {
      ImageOfPrefixes();
      assert table.bytes[..][..SECTOR_SIZE * geo.sectorsPerFat] == table.bytes[..geo.fatSize];
      assert root[..][..SECTOR_SIZE * geo.rootDirSectors] == root[..geo.rootDirSectors * SECTOR_SIZE];
    }

    /** fat12_init. `t` is the directory tree of the volume on the disk, if it is one. */
    method Init(baseLba: nat, ghost t: Tree) returns (res: int)
      requires Buffers() && VolumeInReach(dev.medium, baseLba)
      modifies this, table, table.bytes, root, dev`clock
      ensures res in {OK, ERR_BAD_BPB, ERR_NOT_FAT12} || (res == ERR_IO && !dev.FineSince(old(dev.clock)))
      ensures res == OK ==> Mounted() && !table.dirty && !rootDirty && tree == t
      ensures res == OK ==> AcceptedAt(dev.medium, baseLba) == Accepted(geo)
      ensures res == OK ==> View() == DiskImage(geo, dev.medium)
      ensures res == OK ==>
                (mirrored <==> forall k | 0 <= k < geo.numFats :: FatCopy(geo, dev.medium, k) == FatCopy(geo, dev.medium, 0))
      ensures res == ERR_BAD_BPB ==> AcceptedAt(dev.medium, baseLba) == BadBpb
      ensures res == ERR_NOT_FAT12 ==> AcceptedAt(dev.medium, baseLba) == NotFat12
      ensures dev.clock >= old(dev.clock) && (ready <==> old(ready) || res == OK)
    {
      hide Accept, ParseBpb, RunHolds, RootCopy, Synced, Booted, View, DiskImage, Reachable;
      var acceptance;
      res, acceptance := ReadBpb(baseLba);
      if res != OK { return; }
      geo := acceptance.geometry;
      TableFits(geo);
      var ok := LoadAll();
      if !ok { return ERR_IO; }
      table.size, table.dirty := geo.fatSize, false;
      rootDirty, ready, tree := false, true, t;
      mirrored := forall k | 0 <= k < geo.numFats :: FatCopy(geo, dev.medium, k) == FatCopy(geo, dev.medium, 0);
      LoadedIsSynced();
      LoadedView();
      return OK;
    }

    /** The boot sector, read and judged. */
    method ReadBpb(baseLba: nat) returns (res: int, acceptance: Acceptance)
      requires dev.Valid() && VolumeInReach(dev.medium, baseLba)
      modifies dev`clock
      ensures dev.clock >= old(dev.clock)
      ensures res in {OK, ERR_BAD_BPB, ERR_NOT_FAT12} || (res == ERR_IO && !dev.FineSince(old(dev.clock)))
      ensures res != ERR_IO ==> acceptance == AcceptedAt(dev.medium, baseLba)
      ensures res == OK <==> res != ERR_IO && acceptance.Accepted?
      ensures res == ERR_BAD_BPB ==> acceptance == BadBpb
      ensures res == ERR_NOT_FAT12 ==> acceptance == NotFat12
      ensures res == OK ==>
                var g := acceptance.geometry;
                && Reachable(g) && g.baseLba == baseLba && Booted(g, dev.medium)
                && (g.numFats == 0 ==> g.baseLba + g.fatStart + g.sectorsPerFat <= REACH)
    {
      hide Sound;
      acceptance := BadBpb;
      var sector := new byte[SECTOR_SIZE];
      var result := ReadSector(dev, baseLba, sector, 0);
      if result != 0 { return ERR_IO, acceptance; }
      assert sector[..] == sector[0..SECTOR_SIZE];
      var bpb := ParseBpb(sector[..]);
      acceptance := Accept(bpb, baseLba);
      match acceptance
      case BadBpb => return ERR_BAD_BPB, acceptance;
      case NotFat12 => return ERR_NOT_FAT12, acceptance;
      case Accepted(g) =>
        AcceptedIsSound(bpb, baseLba);
        AcceptedCopies(bpb, baseLba);
        return OK, acceptance;
    }
  }
}
