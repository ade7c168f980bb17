/** The script that builds the first volume: its allocator, FAT writer and cluster writer, and the image they make. */
module ImageBuilder {
  import opened Bytes
  import opened Disk
  import opened Geometry
  import opened Chains
  import opened Contents
  import opened Directories
  import opened ShortNames
  import opened Volumes
  import opened EntrySteps
  import opened SeedVolume
  import Fat12
  import FatTable

  const IMAGE_SIZE: nat := TOTAL_SECTORS * SECTOR_SIZE
  const FAT_SIZE: nat := SECTORS_PER_FAT * SECTOR_SIZE
  const ROOT_SIZE: nat := ROOT_DIR_SECTORS * SECTOR_SIZE
  const END_CLUSTER: nat := TOTAL_CLUSTERS + 2

  // ---------------------------------------------------------------- names

  function Before(s: seq<byte>, n: nat): seq<byte> {
    if |s| <= n then s else s[..n]
  }

  /** to_short_name: what stands before the first dot and between the first and the second, upper-cased, cut and
      filled up with blanks. */
  function ToShortName(name: seq<byte>): (n: ShortName) {
    var ext := Extension(name);
    Pad(Upper(Before(Base(name), 8)), 8) + Pad(Upper(Before(ext[..DotIndex(ext)], 3)), 3)
  }

  lemma {:induction false} NoDots(s: seq<byte>)
    requires forall i | 0 <= i < |s| :: s[i] != DOT
    ensures DotIndex(s) == |s|
  {
    if s != [] { NoDots(s[1..]); }
  }

  lemma {:induction false} UpperKeepsDots(s: seq<byte>)
    ensures DotIndex(Upper(s)) == DotIndex(s)
  {
    if s != [] && s[0] != DOT {
      assert Upper(s)[1..] == Upper(s[1..]);
      UpperKeepsDots(s[1..]);
    }
  }

  lemma BeforeAll(s: seq<byte>, n: nat)
    requires |s| <= n
    ensures Before(s, n) == s
  {
  }

  /** Capitals change neither the parts of a name nor the dots. */
  lemma UpperParts(name: seq<byte>)
    requires Encodable(name)
    ensures Base(Upper(name)) == Upper(Base(name)) && Extension(Upper(name)) == Upper(Extension(name))
    ensures DotIndex(Extension(name)) == |Extension(name)|
  {
    UpperKeepsDots(name);
    var u, ext := Upper(name), Extension(name);
    assert Base(u) == Upper(Base(name)) && Extension(u) == Upper(ext);
    forall i | 0 <= i < |ext| ensures ext[i] != DOT {
      assert IsValidChar(Upper(ext)[i]);
    }
    NoDots(ext);
  }

  /** On every name that the kernel accepts the builder writes the same eleven bytes. */
  lemma ToShortNameAgrees(name: seq<byte>)
    requires Encodable(name)
    ensures Encode(name) == Some(ToShortName(name))
  {
    hide DotIndex, Pad, Before;
    UpperParts(name);
    var base, ext := Base(name), Extension(name);
    assert |base| <= 8 && |ext| <= 3 by { assert |Upper(base)| == |base| && |Upper(ext)| == |ext|; }
    BeforeAll(base, 8);
    BeforeAll(ext, 3);
    assert ext[..|ext|] == ext;
  }

  /** Such a name never looks like a free slot. */
  lemma EncodableIsTaken(name: seq<byte>)
    requires Encodable(name)
    ensures ToShortName(name)[0] != END_MARK && ToShortName(name)[0] != DELETED_MARK
  {
    ToShortNameAgrees(name);
    EncodedFirstByte(name);
  }

  lemma MadeEntryIsTaken(name: ShortName, attr: byte, first: nat, size: nat)
    requires first < TWO16 && size < TWO32 && name[0] != END_MARK && name[0] != DELETED_MARK
    ensures !IsFree(MakeEntry(name, attr, first, size))
  {
    assert MakeEntry(name, attr, first, size)[0] == name[0];
  }

  lemma {:induction false} DotAt(s: seq<byte>, k: nat)
    requires k < |s| && s[k] == DOT && forall i | 0 <= i < k :: s[i] != DOT
    ensures DotIndex(s) == k
  {
    if k > 0 { DotAt(s[1..], k - 1); }
  }

  /** The names `README.TXT`, `SYSTEM.CFG`, `DOCS` and `INFO.TXT`. */
  const README: seq<byte> := [82, 69, 65, 68, 77, 69, 46, 84, 88, 84]
  const CONFIG: seq<byte> := [83, 89, 83, 84, 69, 77, 46, 67, 70, 71]
  const DOCS: seq<byte> := [68, 79, 67, 83]
  const INFO: seq<byte> := [73, 78, 70, 79, 46, 84, 88, 84]

  lemma ScriptNames()
    ensures Encodable(DOCS) && Encodable(INFO) && Encodable(README) && Encodable(CONFIG)
  {
    DocsName();
    InfoName();
    ReadmeName();
    ConfigName();
  }

  lemma DocsName()
    ensures Encodable(DOCS)
  {
    NoDots(Upper(DOCS));
    assert Base(Upper(DOCS)) == DOCS;
  }

  lemma InfoName()
    ensures Encodable(INFO)
  {
    DottedName(INFO, 4);
  }

  lemma ReadmeName()
    ensures Encodable(README)
  {
    DottedName(README, 6);
  }

  lemma ConfigName()
    ensures Encodable(CONFIG)
  {
    DottedName(CONFIG, 6);
  }

  lemma DottedName(name: seq<byte>, k: nat)
    requires 1 <= k <= 8 && k < |name| <= k + 4 && name[k] == DOT
    requires forall i | 0 <= i < |name| && i != k :: IsValidChar(name[i])
    ensures Encodable(name)
  {
    var u := Upper(name);
    DotAt(u, k);
    assert u[..k] == name[..k] && u[k + 1..] == name[k + 1..];
  }

  // ---------------------------------------------------------------- the builder

  /** The masks of set_fat_entry drop nothing. */
  lemma TwelveBits(v: nat)
    requires v < 0x1000
    ensures v / 0x100 % 0x10 == v / 0x100 && v / 0x10 % 0x100 == v / 0x10
  {
  }

  ghost function EmptyTree(): Tree {
    Tree(Allocation(map[], map[]), {}, map[], map[])
  }

  lemma EmptyFat(b: seq<byte>)
    requires |b| == FAT_SIZE && forall i | 3 <= i < FAT_SIZE :: b[i] == 0
    ensures forall c | 2 <= c < END_CLUSTER :: FatTable.Get(b, FAT_SIZE, c) == FREE
  {
    forall c | 2 <= c < END_CLUSTER ensures FatTable.Get(b, FAT_SIZE, c) == FREE {
      var i := FatTable.Index(c);
      assert 3 <= i && i + 1 < FAT_SIZE;
    }
  }

  /** A volume without a used cluster or entry is a file system with nothing in it. */
  lemma EmptyIsWhole(img: Image)
    requires |img.fat| <= |img.data| && |img.fat| <= EOC && |img.root| % SLOT_SIZE == 0
    requires forall c | 2 <= c < |img.fat| :: img.fat[c] == FREE && |img.data[c]| == CLUSTER_SIZE
    requires forall k | 0 <= k < |Slots(img.root)| :: Slots(img.root)[k][0] == END_MARK
    ensures WellFormed(img, EmptyTree(), CLUSTER_SIZE, {})
    ensures forall d, n :: FileAt(img, EmptyTree(), d, n) == None && FolderAt(img, EmptyTree(), d, n) == None
  {
    var t := EmptyTree();
    assert Partition(img.fat, t.alloc);
    assert SlotsOf(img, t.alloc, 0) == Slots(img.root);
    forall n ensures Entry(img, t.alloc, 0, n) == None {
      ScanIsComplete(Slots(img.root), n, 0);
    }
  }

  class Builder {
    /** image, fat_primary and root_dir. */
    const image: array<byte>
    const fat: array<byte>
    const rootDir: array<byte>
    var nextCluster: nat
    var rootIndex: nat
    /** Where on a disk the image will be, and what is around it. */
    ghost const lba: nat
    ghost const before: seq<byte>
    ghost const after: seq<byte>
    ghost var tree: Tree

    ghost predicate Valid()
      reads `nextCluster, `rootIndex, fat, rootDir
    {
      && image.Length == IMAGE_SIZE && fat.Length == FAT_SIZE && rootDir.Length == ROOT_SIZE
      && image != fat && image != rootDir && fat != rootDir
      && |before| == SECTOR_SIZE * lba && |before| + IMAGE_SIZE + |after| == REACH * SECTOR_SIZE
      && 2 <= nextCluster <= END_CLUSTER && rootIndex <= ROOT_ENTRIES
      && (forall c | nextCluster <= c < END_CLUSTER :: FatTable.Get(fat[..], FAT_SIZE, c) == FREE)
      && RootFilled(rootDir[..], rootIndex)
    }

    /** The disk with the image on it. */
    ghost function OnDisk(): (m: seq<byte>)
      requires image.Length == IMAGE_SIZE && |before| + IMAGE_SIZE + |after| == REACH * SECTOR_SIZE
      reads image
      ensures IsMedium(m)
    {
      before + image[..] + after
    }

    ghost function View(): Image
      requires Valid()
      reads `nextCluster, `rootIndex, fat, rootDir, image
    {
      SeedFits();
      Fat12.ImageOf(Seed(lba), FatTable.Entries(fat[..], FAT_SIZE), rootDir[..], OnDisk())
    }

    lemma SeedFits()
      requires |before| == SECTOR_SIZE * lba && |before| + IMAGE_SIZE + |after| == REACH * SECTOR_SIZE
      ensures Reachable(Seed(lba)) && FatTable.Capacity(FAT_SIZE) == FatTable.Capacity(Seed(lba).fatSize)
      ensures Fat12.Top(Seed(lba)) == END_CLUSTER <= FatTable.Capacity(FAT_SIZE)
    {
      SeedIsAccepted(lba);
    }

    ghost predicate Whole(loose: set<nat>)
      reads `nextCluster, `rootIndex, `tree, fat, rootDir, image
    {
      Valid() && WellFormed(View(), tree, CLUSTER_SIZE, loose)
    }

    // ---------------------------------------------------------------- the empty image

    /** The zeroed buffers, with the media descriptor in front of the FAT. */
    constructor (ghost lba: nat, ghost before: seq<byte>, ghost after: seq<byte>)
      requires |before| == SECTOR_SIZE * lba && |before| + IMAGE_SIZE + |after| == REACH * SECTOR_SIZE
      ensures Whole({}) && nextCluster == 2 && rootIndex == 0 && fresh(image) && fresh(fat) && fresh(rootDir)
      ensures this.lba == lba && this.before == before && this.after == after
      ensures forall d, n :: FileAt(View(), tree, d, n) == None && FolderAt(View(), tree, d, n) == None
    {
      hide WellFormed, Slots, FatTable.Entries, FatTable.Get, Clusters;
      this.lba, this.before, this.after := lba, before, after;
      image := new byte[IMAGE_SIZE](i => 0);
      fat := new byte[FAT_SIZE](i => 0);
      rootDir := new byte[ROOT_SIZE](i => 0);
      nextCluster, rootIndex, tree := 2, 0, EmptyTree();
      new;
      fat[0], fat[1], fat[2] := 0xF8, 0xFF, 0xFF;
      EmptyFat(fat[..]);
      assert rootDir[..] == Zeros(ROOT_SIZE);
      SlotsOfZeros(ROOT_SIZE);
      SeedFits();
      RootView();
      FreeFrontier();
      EmptyIsWhole(View());
    }

    // ---------------------------------------------------------------- the FAT

    /** set_fat_entry: the kernel's encoding of the table, byte for byte. */
    method SetFatEntry(cluster: nat, value: nat)
      requires FatTable.Index(cluster) + 1 < fat.Length
      modifies fat
      ensures fat[..] == FatTable.Put(old(fat[..]), cluster, value)
      ensures FatTable.Packed(fat[..], FatTable.Entries(fat[..], fat.Length))
      ensures cluster < |FatTable.Entries(old(fat[..]), fat.Length)|
      ensures FatTable.Entries(fat[..], fat.Length) == FatTable.Entries(old(fat[..]), fat.Length)[cluster := value % 4096]
    {
      hide FatTable.Packed;
      ghost var was: seq<byte> := fat[..];
      var v := value % 0x1000;
      TwelveBits(v);
      var index := cluster + cluster / 2;
      if cluster % 2 == 0 {
        fat[index] := v % 0x100;
        fat[index + 1] := fat[index + 1] / 0x10 * 0x10 + v / 0x100 % 0x10;
      } else {
        fat[index] := fat[index] % 0x10 + v % 0x10 * 0x10;
        fat[index + 1] := v / 0x10 % 0x100;
      }
      ghost var low, high: byte := fat[index], fat[index + 1];
      ghost var half: seq<byte> := was[index := low];
      assert fat[..] == half[index + 1 := high];
      FatTable.CoveredIsBelowCapacity(fat.Length, cluster);
      FatTable.PutRefinesUpdate(was, fat.Length, cluster, value);
      FatTable.EntriesArePacked(fat[..], fat.Length);
    }

    /** The allocator's first loop: the next `count` clusters, or the error that the disk is full. */
    method Reserve(count: nat) returns (clusters: Option<seq<nat>>)
      requires 2 <= nextCluster <= END_CLUSTER
      modifies `nextCluster
      ensures clusters.Some? <==> old(nextCluster) + count <= END_CLUSTER
      ensures clusters.Some? ==> clusters.value == Run(old(nextCluster), count) && nextCluster == old(nextCluster) + count
    {
      var list: seq<nat> := [];
      for k := 0 to count
        invariant nextCluster == old(nextCluster) + k <= END_CLUSTER && list == Run(old(nextCluster), k)
      {
        if nextCluster >= TOTAL_CLUSTERS + 2 { return None; }
        RunNext(old(nextCluster), k);
        list := list + [nextCluster];
        nextCluster := nextCluster + 1;
      }
      return Some(list);
    }

    /** The allocator's second loop: each cluster is linked to the next, the last one ends the chain. */
    method LinkAll(clusters: seq<nat>)
      requires fat.Length == FAT_SIZE && clusters != [] && clusters[0] + |clusters| <= END_CLUSTER
      requires clusters == Run(clusters[0], |clusters|)
      modifies fat
      ensures FatTable.Entries(fat[..], FAT_SIZE) ==
              Linked(old(FatTable.Entries(fat[..], FAT_SIZE)), clusters[0], |clusters|, |clusters|)
    {
      hide FatTable.Put, FatTable.Get, Linked;
      ghost var was, n, k := FatTable.Entries(fat[..], FAT_SIZE), clusters[0], |clusters|;
      LinkedNone(was, n, k);
      for idx := 0 to |clusters|
        invariant FatTable.Entries(fat[..], FAT_SIZE) == Linked(was, n, k, idx)
      {
        var value := if idx + 1 < |clusters| then clusters[idx + 1] else LAST_CLUSTER;
        FatTable.CoveredIsBelowCapacity(FAT_SIZE, clusters[idx]);
        FatTable.PutRefinesUpdate(fat[..], FAT_SIZE, clusters[idx], value);
        SetFatEntry(clusters[idx], value);
        LinkedNext(was, n, k, idx);
      }
    }

    /** create_allocator's allocate: the clusters join the volume as one loose chain. */
    method Allocate(count: nat, ghost loose: set<nat>) returns (clusters: Option<seq<nat>>)
      requires Whole(loose)
      modifies fat, `nextCluster, `tree
      ensures clusters.Some? <==> old(nextCluster) + count <= END_CLUSTER
      ensures count == 0 ==> clusters == Some([]) && Whole(loose) && tree == old(tree) && View() == old(View())
      ensures clusters.Some? && count > 0 ==>
                var n := old(nextCluster);
                && clusters.value == Run(n, count) && nextCluster == n + count && n !in loose
                && tree == old(tree).(alloc := WithRun(old(tree).alloc, n, count))
                && Whole(loose + {n}) && SameFiles(old(View()), old(tree), View(), tree)
                && View().root == old(View()).root && View().data == old(View()).data
    {
      hide WellFormed, SameFiles, FatTable.Get, FatTable.Entries, RootFilled, Clusters;
      if count == 0 { return Some([]); }
      ghost var img, t, n := View(), tree, nextCluster;
      FreeFrontier();
      clusters := Reserve(count);
      if clusters == None { return; }
      LinkAll(clusters.value);
      tree := t.(alloc := WithRun(t.alloc, n, count));
      RunStep(img, t, CLUSTER_SIZE, loose, n, count);
      StillFree(img, n, count);
      assert View() == img.(fat := Linked(img.fat, n, count, count));
    }

    /** No cluster from `nextCluster` on is in use. */
    lemma FreeFrontier()
      requires Valid()
      ensures |View().fat| == END_CLUSTER == |View().data|
      ensures forall c | nextCluster <= c < END_CLUSTER :: View().fat[c] == FREE
      ensures forall c | 2 <= c < END_CLUSTER :: |View().data[c]| == CLUSTER_SIZE
    {
      SeedFits();
    }

    /** The cached root directory is the volume's. */
    lemma RootView()
      requires Valid()
      ensures View().root == rootDir[..] && RootFilled(rootDir[..], rootIndex) && |Slots(rootDir[..])| == ROOT_ENTRIES
    {
      SeedFits();
    }

    lemma StillFree(img: Image, n: nat, count: nat)
      requires fat.Length == FAT_SIZE && n + count <= END_CLUSTER
      requires |FatTable.Entries(fat[..], FAT_SIZE)| >= END_CLUSTER
      ensures forall c | 0 <= c < END_CLUSTER :: FatTable.Get(fat[..], FAT_SIZE, c) == FatTable.Entries(fat[..], FAT_SIZE)[c]
    {
    }

    // ---------------------------------------------------------------- clusters and files

    /** The part of the image in front of the clusters, boot sector first. */
    ghost function Front(): seq<byte>
      requires image.Length == IMAGE_SIZE
      reads image
    {
      image[..SECTOR_SIZE * DATA_START]
    }

    /** image[at:at + len(data)] = data, for a whole slice. */
    method Overwrite(at: nat, data: seq<byte>)
      requires at + |data| <= image.Length
      modifies image
      ensures image[..] == Splice(old(image[..]), at, data)
    {
      forall i | 0 <= i < |data| { image[at + i] := data[i]; }
    }

    /** The image is a window of the disk. */
    lemma DiskWindow(was: seq<byte>, at: nat, data: seq<byte>)
      requires |was| == image.Length == IMAGE_SIZE && |before| + IMAGE_SIZE + |after| == REACH * SECTOR_SIZE
      requires at + |data| <= |was| && image[..] == Splice(was, at, data)
      ensures |before| + at + |data| <= |before + was + after|
      ensures OnDisk() == Splice(before + was + after, |before| + at, data)
    {
      SpliceLeft(before + was, after, |before| + at, data);
      SpliceRight(before, was, at, data);
    }

    /** write_cluster, at the place that cluster_to_offset gives. */
    method WriteCluster(cluster: nat, data: seq<byte>)
      requires Valid() && 2 <= cluster < END_CLUSTER && |data| <= CLUSTER_SIZE
      modifies image
      ensures Valid() && View().fat == old(View()).fat && OnlyDiffersAt(old(View()), View(), {cluster})
      ensures View().data[cluster] == Padded(data, CLUSTER_SIZE)
      ensures Front() == old(Front())
    {
      hide Splice;
      SeedFits();
      ghost var was, disk := image[..], OnDisk();
      var start := ((cluster - 2) * SECTORS_PER_CLUSTER + DATA_START) * SECTOR_SIZE;
      ClusterInImage(cluster);
      Overwrite(start, Padded(data, CLUSTER_SIZE));
      SpliceOutside(was, start, Padded(data, CLUSTER_SIZE), 0, SECTOR_SIZE * DATA_START);
      DiskWindow(was, start, Padded(data, CLUSTER_SIZE));
      ClusterWritten(Seed(lba), disk, OnDisk(), cluster, Padded(data, CLUSTER_SIZE));
    }

    lemma ClusterInImage(c: nat)
      requires 2 <= c < END_CLUSTER
      ensures ((c - 2) * SECTORS_PER_CLUSTER + DATA_START) * SECTOR_SIZE + CLUSTER_SIZE <= IMAGE_SIZE
      ensures ((c - 2) * SECTORS_PER_CLUSTER + DATA_START) * SECTOR_SIZE == SECTOR_SIZE * ClusterSector(Seed(lba), c)
    {
    }

    /** write_file: the number of the first cluster, 0 for an empty file. */
    method WriteFile(data: seq<byte>, ghost loose: set<nat>) returns (first: Option<nat>)
      requires Whole(loose)
      modifies image, fat, `nextCluster, `tree
      ensures first.Some? <==> old(nextCluster) + ClustersFor(data) <= END_CLUSTER
      ensures first.Some? ==>
                && nextCluster == old(nextCluster) + ClustersFor(data)
                && first.value == (if data == [] then 0 else old(nextCluster))
                && Whole(if data == [] then loose else loose + {first.value}) && (data != [] ==> first.value !in loose)
                && View().root == old(View()).root && SameFiles(old(View()), old(tree), View(), tree)
                && FileStored(View(), tree.alloc, first.value, data)
                && LooseSame(loose, old(View()), old(tree).alloc, View(), tree.alloc)
      ensures image.Length == IMAGE_SIZE && Front() == old(Front())
    {
      hide WellFormed, SameFiles, FatTable.Get, FatTable.Entries, RootFilled, Clusters, View, ChainData, Partition;
      ghost var img, t, n := View(), tree, nextCluster;
      if data == [] {
        SameFilesRefl(img, t);
        return Some(0);
      }
      var count := (|data| + CLUSTER_SIZE - 1) / CLUSTER_SIZE;
      var clusters := Allocate(count, loose);
      if clusters == None { return None; }
      ghost var imgA := View();
      FreeFrontier();
      RunBesideLoose(img, t, loose, imgA, n, count);
      for i := 0 to count
        invariant Valid() && nextCluster == n + count && tree == t.(alloc := WithRun(t.alloc, n, count))
        invariant View().root == img.root && Front() == old(Front())
        invariant Filling(img, t, View(), tree, loose, n, count, i, data)
      {
        ghost var was := View();
        ChunkStartIs(i, CLUSTER_SIZE);
        ChunkBounds(data, i);
        FreeFrontier();
        WriteCluster(clusters.value[i], Chunk(data, i * CLUSTER_SIZE, CLUSTER_SIZE));
        ChunkWritten(img, t, was, tree, loose, View(), n, count, i, data);
      }
      FreeFrontier();
      FileIsStored(View(), tree, loose, n, count, data);
      return Some(clusters.value[0]);
    }

    // ---------------------------------------------------------------- directory entries

    /** add_root_entry, for any name whose first byte does not look like a free slot. */
    method AddRootEntry(name: seq<byte>, attr: byte, first: nat, size: nat) returns (ok: bool)
      requires Valid() && first < TWO16 && size < TWO32 && ToShortName(name)[0] != END_MARK && ToShortName(name)[0] != DELETED_MARK
      modifies rootDir, `rootIndex
      ensures ok <==> old(rootIndex) < ROOT_ENTRIES
      ensures ok ==> Valid() && rootIndex == old(rootIndex) + 1
                     && View() == Stored(old(View()), 0, old(rootIndex), MakeEntry(ToShortName(name), attr, first, size))
    {
      hide FatTable.Get, FatTable.Entries, Clusters, MakeEntry, ToShortName, Encode, Encodable, Splice, IsFree, RootFilled;
      if rootIndex >= ROOT_ENTRIES { return false; }
      RootView();
      MadeEntryIsTaken(ToShortName(name), attr, first, size);
      var entry := BuildDirEntry(ToShortName(name), attr, first, size);
      ghost var was, table, bytes := rootDir[..], fat[..], image[..];
      var offset := rootIndex * 32;
      RootFilledNext(was, rootIndex, entry);
      forall i | 0 <= i < 32 { rootDir[offset + i] := entry[i]; }
      assert rootDir[..] == Splice(was, SLOT_SIZE * rootIndex, entry) by { Overwritten(was, rootDir[..], offset, entry); }
      rootIndex := rootIndex + 1;
      assert fat[..] == table && image[..] == bytes;
      RootView();
      return true;
    }

    /** The script's pair of calls for one file in the root: write_file, and an archive entry for it. */
    method AddFile(name: seq<byte>, data: seq<byte>) returns (ok: bool)
      requires Whole({}) && Encodable(name)
      requires FileAt(View(), tree, 0, ToShortName(name)) == None && FolderAt(View(), tree, 0, ToShortName(name)) == None
      modifies image, fat, rootDir, `nextCluster, `rootIndex, `tree
      ensures ok <==> old(nextCluster) + ClustersFor(data) <= END_CLUSTER && old(rootIndex) < ROOT_ENTRIES
      ensures ok ==>
                && nextCluster == old(nextCluster) + ClustersFor(data) && rootIndex == old(rootIndex) + 1 && Whole({})
                && FileChanged(old(View()), old(tree), View(), tree, 0, ToShortName(name), Some(data))
      ensures image.Length == IMAGE_SIZE && Front() == old(Front())
    {
      hide WellFormed, SameFiles, Valid, View, FileAt, FolderAt, AttrAt, MakeEntry, ToShortName, Encode, Encodable, Stored,
           FileStored, LooseSame, RootFilled, Slots, Entry, Owners;
      ghost var img, t, n := View(), tree, ToShortName(name);
      var first := WriteFile(data, {});
      if first == None { return false; }
      ghost var img1, t1, i := View(), tree, rootIndex;
      ghost var loose := if data == [] then {} else {first.value};
      assert {} + {first.value} == {first.value};
      SizesFit(data);
      RootView();
      EncodableIsTaken(name);
      ok := AddRootEntry(name, ATTR_ARCHIVE, first.value, |data|);
      if !ok { return; }
      ghost var e := MakeEntry(n, ATTR_ARCHIVE, first.value, |data|);
      ToShortNameAgrees(name);
      EncodedFirstByte(name);
      FileEntryReady(img1, t1, loose, loose, n, first.value, data);
      NameIsFree(img, t, img1, t1, n);
      RootFileStep(img1, t1, CLUSTER_SIZE, loose, i, e);
      tree := t1.(owner := Owners(t1, 0, n, None, Some(e)));
      SameThenChanged(img, t, img1, t1, View(), tree, 0, n, Some(data));
      assert loose - loose == {};
    }

    // ---------------------------------------------------------------- the DOCS directory

    /** docs_cluster and docs_buffer with its dot entries. */
    method StartDocs() returns (docs: Option<nat>, buffer: array<byte>)
      requires Whole({})
      modifies fat, `nextCluster, `tree
      ensures docs.Some? <==> old(nextCluster) + 1 <= END_CLUSTER
      ensures fresh(buffer) && buffer.Length == CLUSTER_SIZE
      ensures docs.Some? ==>
                && 2 <= docs.value == old(nextCluster) < TWO16 && nextCluster == docs.value + 1 && Whole({docs.value})
                && SameFiles(old(View()), old(tree), View(), tree) && View().root == old(View()).root
                && docs.value in tree.alloc.chains && tree.alloc.chains[docs.value] == Run(docs.value, 1)
                && buffer[..] == FolderBytes(docs.value, 0, CLUSTER_SIZE)
    {
      hide WellFormed, SameFiles, View, FolderBytes;
      buffer := new byte[CLUSTER_SIZE](i => 0);
      assert 2 <= nextCluster by { Bounds(); }
      var clusters := Allocate(1, {});
      if clusters == None { return None, buffer; }
      var h := clusters.value[0];
      assert {} + {h} == {h};
      Bounds();
      var dot := BuildDirEntry(Pad([DOT], 11), ATTR_DIRECTORY, h, 0);
      var dotdot := BuildDirEntry(Pad([DOT, DOT], 11), ATTR_DIRECTORY, 0, 0);
      assert buffer[..] == Zeros(CLUSTER_SIZE);
      PutSlot(buffer, 0, dot);
      PutSlot(buffer, 32, dotdot);
      DotsInPlace(h, buffer[..]);
      return Some(h), buffer;
    }

    lemma Bounds()
      requires Valid()
      ensures 2 <= nextCluster <= END_CLUSTER && rootIndex <= ROOT_ENTRIES
      ensures fat != rootDir && image != fat && image != rootDir && image.Length == IMAGE_SIZE
    {
    }

    /** The entry of the file, the cluster of the directory, and the directory's entry in the root. */
    method FinishDocs(docs: nat, buffer: array<byte>, first: nat, info: seq<byte>) returns (ok: bool)
      requires Valid() && 2 <= docs < END_CLUSTER && first < TWO16 && |info| < TWO32
      requires buffer.Length == CLUSTER_SIZE && buffer[..] == FolderBytes(docs, 0, CLUSTER_SIZE)
      requires buffer != image && buffer != rootDir && buffer != fat
      modifies image, rootDir, `rootIndex, buffer
      ensures ok <==> old(rootIndex) < ROOT_ENTRIES
      ensures ok ==>
                var e, d := MakeEntry(ToShortName(INFO), ATTR_ARCHIVE, first, |info|),
                            MakeEntry(ToShortName(DOCS), ATTR_DIRECTORY, docs, 0);
                && Valid() && SLOT_SIZE * old(rootIndex) + SLOT_SIZE <= |old(View()).root| && docs < |old(View()).data|
                && View() == old(View()).(root := Splice(old(View()).root, SLOT_SIZE * old(rootIndex), d),
                                          data := old(View()).data[docs := DocsBytes(docs, e, CLUSTER_SIZE)])
      ensures image.Length == IMAGE_SIZE && Front() == old(Front())
    {
      hide Valid, View, MakeEntry, FolderBytes, ToShortName, Encode, Encodable, Padded, DocsBytes, Clusters;
      ghost var img, i := View(), rootIndex;
      Bounds();
      ScriptNames();
      FreeFrontier();
      RootView();
      var entry := BuildDirEntry(ToShortName(INFO), ATTR_ARCHIVE, first, |info|);
      PutSlot(buffer, 64, entry);
      WriteCluster(docs, buffer[..]);
      FullCluster(docs, entry, buffer[..]);
      EncodableIsTaken(DOCS);
      ok := AddRootEntry(DOCS, ATTR_DIRECTORY, docs, 0);
      if !ok { return; }
      BothWrites(img, View(), docs, i, MakeEntry(ToShortName(DOCS), ATTR_DIRECTORY, docs, 0), entry);
    }

    /** The script's steps for the directory and the one file in it; `h` is the directory's cluster. */
    method AddDocs(info: seq<byte>) returns (ok: bool, ghost h: nat)
      requires Whole({})
      requires FileAt(View(), tree, 0, ToShortName(DOCS)) == None && FolderAt(View(), tree, 0, ToShortName(DOCS)) == None
      modifies image, fat, rootDir, `nextCluster, `rootIndex, `tree
      ensures ok <==> old(nextCluster) + 1 + ClustersFor(info) <= END_CLUSTER && old(rootIndex) < ROOT_ENTRIES
      ensures ok ==> Whole({}) && h == old(nextCluster) && DocsAdded(old(View()), old(tree), View(), tree, h, info)
      ensures image.Length == IMAGE_SIZE && Front() == old(Front())
    {
      hide WellFormed, FileAt, FolderAt, AttrAt, MakeEntry, ToShortName, LooseSame, RootFilled, Slots, DocsPending, Run, Content,
           FolderBytes;
      ghost var img, t := View(), tree;
      h := nextCluster;
      Bounds();
      var docs, buffer := StartDocs();
      if docs == None { return false, h; }
      ghost var img0, t0 := View(), tree;
      var first := WriteFile(info, {h});
      if first == None { return false, h; }
      ghost var img1, t1, i := View(), tree, rootIndex;
      assert DocsLoose(h, first.value, info) == if info == [] then {h} else {h} + {first.value};
      SizesFit(info);
      Bounds();
      RootView();
      FreeFrontier();
      ok := FinishDocs(docs.value, buffer, first.value, info);
      if !ok { return; }
      ghost var e, d := MakeEntry(ToShortName(INFO), ATTR_ARCHIVE, first.value, |info|),
                        MakeEntry(ToShortName(DOCS), ATTR_DIRECTORY, h, 0);
      DocsArePending(img, t, img0, t0, img1, t1, h, i, first.value, info);
      DocsStep(img1, t1, CLUSTER_SIZE, DocsLoose(h, first.value, info), h, i, d, e);
      tree := WithFolder(t1, 0, Name(d), h).(owner := Owners(WithFolder(t1, 0, Name(d), h), h, Name(e), None, Some(e)));
      DocsEffect(img, t, img0, t0, img1, t1, View(), tree, h, info);
    }

    // ---------------------------------------------------------------- the areas in front of the clusters

    /** A slice assignment in front of the data area leaves every cluster alone. */
    method WriteSystem(at: nat, data: seq<byte>)
      requires Valid() && at + |data| <= SECTOR_SIZE * DATA_START
      modifies image
      ensures Valid() && View() == old(View()) && image[..] == Splice(old(image[..]), at, data)
    {
      SeedFits();
      ghost var was, disk := image[..], OnDisk();
      Overwrite(at, data);
      DiskWindow(was, at, data);
      SystemWritten(lba, disk, OnDisk(), at, data);
    }

    /** The boot sector, stage 2 and the kernel, or the error that one of them does not fit. */
    method PlaceBoot(boot: seq<byte>, stage2: Option<seq<byte>>, kernel: seq<byte>) returns (ok: bool)
      requires Valid()
      modifies image
      ensures ok <==> BootFits(boot, stage2, kernel)
      ensures ok ==> Valid() && View() == old(View()) && Placed(Front(), boot, stage2, kernel)
    {
      hide View;
      Bounds();
      if |boot| != SECTOR_SIZE { return false; }
      WriteSystem(0, boot);
      if stage2.Some? {
        if |stage2.value| > SECTOR_SIZE { return false; }
        WriteSystem(SECTOR_SIZE, stage2.value);
      }
      var kernelSectors := (|kernel| + SECTOR_SIZE - 1) / SECTOR_SIZE;
      var start := if stage2.Some? then 2 else 1;
      if kernelSectors > RESERVED_SECTORS - start { return false; }
      ghost var sofar := image[..];
      WriteSystem(start * SECTOR_SIZE, kernel);
      KernelPlaced(sofar, boot, stage2, kernel);
      FrontIsPrefix();
      ReservedPrefix(image[..]);
      PlacedInReserved(image[..], Front(), boot, stage2, kernel);
      return true;
    }

    /** The last steps: both FAT copies and the root directory go into the image. */
    method Assemble()
      requires Valid()
      modifies image
      ensures Valid() && View() == old(View())
      ensures image[..SECTOR_SIZE * RESERVED_SECTORS] == old(image[..SECTOR_SIZE * RESERVED_SECTORS])
      ensures Sectors(RESERVED_SECTORS, SECTORS_PER_FAT) == Sectors(RESERVED_SECTORS + SECTORS_PER_FAT, SECTORS_PER_FAT) == fat[..]
      ensures Sectors(RESERVED_SECTORS + NUM_FATS * SECTORS_PER_FAT, ROOT_DIR_SECTORS) == rootDir[..]
    {
      ghost var table, rootBytes := fat[..], rootDir[..];
      WriteSystem(RESERVED_SECTORS * SECTOR_SIZE, fat[..]);
      assert Sectors(RESERVED_SECTORS, SECTORS_PER_FAT) == table;
      WriteSystem(RESERVED_SECTORS * SECTOR_SIZE + SECTORS_PER_FAT * SECTOR_SIZE, fat[..]);
      assert Sectors(RESERVED_SECTORS, SECTORS_PER_FAT) == Sectors(RESERVED_SECTORS + SECTORS_PER_FAT, SECTORS_PER_FAT) == table;
      WriteSystem((RESERVED_SECTORS + NUM_FATS * SECTORS_PER_FAT) * SECTOR_SIZE, rootDir[..]);
      assert fat[..] == table && rootDir[..] == rootBytes;
    }

    /** `n` sectors of the image, from sector `s` on. */
    ghost function Sectors(s: nat, n: nat): seq<byte>
      requires image.Length == IMAGE_SIZE && s + n <= TOTAL_SECTORS
      reads image
    {
      image[SECTOR_SIZE * s..SECTOR_SIZE * (s + n)]
    }

    lemma SectorsAreOnDisk(s: nat, n: nat)
      requires image.Length == IMAGE_SIZE && |before| == SECTOR_SIZE * lba && s + n <= TOTAL_SECTORS
      requires |before| + IMAGE_SIZE + |after| == REACH * SECTOR_SIZE
      ensures lba + s + n <= REACH && SectorsOf(Seed(lba), OnDisk(), s, n) == Sectors(s, n)
    {
    }

    /** The finished image, on its disk: the kernel accepts its boot sector with the builder's layout, both FAT copies
        agree, and the volume is a file system. */
    ghost predicate Finished()
      reads `nextCluster, `rootIndex, `tree, fat, rootDir, image
    {
      && Valid() && VolumeInReach(OnDisk(), lba) && Reachable(Seed(lba))
      && AcceptedAt(OnDisk(), lba) == Accepted(Seed(lba))
      && FatCopy(Seed(lba), OnDisk(), 1) == FatCopy(Seed(lba), OnDisk(), 0)
      && Fat12.DiskImage(Seed(lba), OnDisk()) == View() && WellFormed(View(), tree, CLUSTER_SIZE, {})
    }

    lemma AssembledIsFinished()
      requires Whole({}) && ParseBpb(image[..SECTOR_SIZE]) == SEED_BPB
      requires Sectors(RESERVED_SECTORS, SECTORS_PER_FAT) == Sectors(RESERVED_SECTORS + SECTORS_PER_FAT, SECTORS_PER_FAT) == fat[..]
      requires Sectors(RESERVED_SECTORS + NUM_FATS * SECTORS_PER_FAT, ROOT_DIR_SECTORS) == rootDir[..]
      ensures Finished()
    {
      hide WellFormed, Sectors, RootFilled, FatTable.Entries, FatTable.Get, Clusters, Accept, ParseBpb;
      var g, m := Seed(lba), OnDisk();
      SeedFits();
      SeedIsAccepted(lba);
      SectorsAreOnDisk(0, 1);
      assert Sectors(0, 1) == image[..SECTOR_SIZE] by { FirstSector(); }
      SectorsAreOnDisk(RESERVED_SECTORS, SECTORS_PER_FAT);
      SectorsAreOnDisk(RESERVED_SECTORS + SECTORS_PER_FAT, SECTORS_PER_FAT);
      SectorsAreOnDisk(RESERVED_SECTORS + NUM_FATS * SECTORS_PER_FAT, ROOT_DIR_SECTORS);
      assert FatCopy(g, m, 0) == fat[..] && FatCopy(g, m, 1) == fat[..] && RootCopy(g, m) == rootDir[..];
    }

    lemma FrontIsPrefix()
      requires image.Length == IMAGE_SIZE
      ensures Front() == image[..][..SECTOR_SIZE * DATA_START]
    {
    }

    lemma FirstSector()
      requires image.Length == IMAGE_SIZE
      ensures Sectors(0, 1) == image[..SECTOR_SIZE]
    {
    }

    // ---------------------------------------------------------------- the whole script

    /** The files of the root directory, one after the other. */
    method AddFiles(files: seq<SeedFile>) returns (ok: bool)
      requires Whole({}) && NamesOk(files)
      requires forall i | 0 <= i < |files| :: NotThere(View(), tree, ToShortName(files[i].name))
      requires NotThere(View(), tree, ToShortName(DOCS))
      modifies image, fat, rootDir, `nextCluster, `rootIndex, `tree
      ensures ok <==> old(nextCluster) + ClustersForAll(files) <= END_CLUSTER && old(rootIndex) + |files| <= ROOT_ENTRIES
      ensures ok ==>
                && Whole({}) && nextCluster == old(nextCluster) + ClustersForAll(files) && rootIndex == old(rootIndex) + |files|
                && NotThere(View(), tree, ToShortName(DOCS)) && OnlyAdded(files, old(View()), old(tree), View(), tree)
      ensures image.Length == IMAGE_SIZE && Front() == old(Front())
    {
      hide WellFormed, View, FileAt, FolderAt, AttrAt, ToShortName, Encodable, FileChanged;
      Bounds();
      assert files[..0] == [];
      for i := 0 to |files|
        invariant Whole({}) && nextCluster == old(nextCluster) + ClustersForAll(files[..i]) <= END_CLUSTER
        invariant rootIndex == old(rootIndex) + i <= ROOT_ENTRIES && Front() == old(Front())
        invariant NotThere(View(), tree, ToShortName(DOCS)) && OnlyAdded(files[..i], old(View()), old(tree), View(), tree)
        invariant forall k | i <= k < |files| :: NotThere(View(), tree, ToShortName(files[k].name))
      {
        ghost var img, t := View(), tree;
        assert files[..i + 1] == files[..i] + [files[i]];
        ClustersGrow(files, i);
        ok := AddFile(files[i].name, files[i].content);
        if !ok { return; }
        FileJoins(files, i, old(View()), old(tree), img, t, View(), tree);
      }
      assert files[..|files|] == files;
      return true;
    }

    /** build_image, for any boot sector and any files that fit; the kernel's view of the result is that of the builder when
        the boot sector holds the parameter block of boot.asm. The script itself passes two files, README.TXT and SYSTEM.CFG. */
    method Build(boot: seq<byte>, stage2: Option<seq<byte>>, kernel: seq<byte>, files: seq<SeedFile>, info: seq<byte>)
      returns (ok: bool, ghost h: nat)
      requires Whole({}) && nextCluster == 2 && rootIndex == 0 && NamesOk(files)
      requires forall d, n :: FileAt(View(), tree, d, n) == None && FolderAt(View(), tree, d, n) == None
      modifies image, fat, rootDir, `nextCluster, `rootIndex, `tree
      ensures ok <==>
                && BootFits(boot, stage2, kernel) && |files| < ROOT_ENTRIES
                && ClustersForAll(files) + 1 + ClustersFor(info) <= TOTAL_CLUSTERS
      ensures ok ==> Whole({}) && |boot| == SECTOR_SIZE && (ParseBpb(boot) == SEED_BPB ==> Finished())
      ensures ok && boot[11..36] == SEED_BYTES ==> Finished()
      ensures ok ==> image.Length == IMAGE_SIZE && Placed(image[..], boot, stage2, kernel)
      ensures ok ==> forall d, n :: FileAt(View(), tree, d, n) ==
                       if d == h && n == ToShortName(INFO) then Some(info)
                       else if d == 0 then Seeded(files, n) else None
      ensures ok ==> forall d, n :: FolderAt(View(), tree, d, n) ==
                       if d == 0 && n == ToShortName(DOCS) then Some(h) else None
      ensures ok ==> h != 0
    {
      hide WellFormed, View, FolderAt, AttrAt, ToShortName, Encodable, ParseBpb, Finished, DocsAdded, OnlyAdded, Sectors, Placed,
           BootFits, Front;
      h := 0;
      ok := PlaceBoot(boot, stage2, kernel);
      if !ok { return; }
      ghost var img, t := View(), tree;
      Bounds();
      ghost var front := Front();
      ok := AddFiles(files);
      if !ok { return; }
      ghost var img1, t1 := View(), tree;
      Bounds();
      ok, h := AddDocs(info);
      if !ok { return; }
      ContentsAre(files, img, t, img1, t1, View(), tree, h, info);
      Bounds();
      ghost var full := image[..];
      FrontIsPrefix();
      Assemble();
      assert image[..][..SECTOR_SIZE * RESERVED_SECTORS] == full[..SECTOR_SIZE * RESERVED_SECTORS];
      ReservedPrefix(full);
      PlacedInReserved(front, image[..], boot, stage2, kernel);
      BootIsFirst(image[..], boot, stage2, kernel);
      assert image[..][..SECTOR_SIZE] == image[..SECTOR_SIZE];
      if boot[11..36] == SEED_BYTES { SeedBytesParse(boot); }
      if ParseBpb(boot) == SEED_BPB { AssembledIsFinished(); }
    }
  }

  /** One of the script's files. */
  datatype SeedFile = SeedFile(name: seq<byte>, content: seq<byte>)

  /** Names that the kernel can look up, all different from each other and from DOCS. */
  predicate NamesOk(files: seq<SeedFile>) {
    && (forall i | 0 <= i < |files| :: Encodable(files[i].name) && ToShortName(files[i].name) != ToShortName(DOCS))
    && (forall i, j | 0 <= i < j < |files| :: ToShortName(files[i].name) != ToShortName(files[j].name))
  }

  function ClustersForAll(files: seq<SeedFile>): nat {
    if files == [] then 0 else ClustersForAll(files[..|files| - 1]) + ClustersFor(files[|files| - 1].content)
  }

  /** The two files of the script, README.TXT and SYSTEM.CFG, have such names. */
  lemma ScriptFilesAreOk(readme: seq<byte>, config: seq<byte>)
    ensures NamesOk([SeedFile(README, readme), SeedFile(CONFIG, config)])
  {
    hide Encodable, ToShortName;
    ScriptNames();
    NameStarts(README);
    NameStarts(CONFIG);
    NameStarts(DOCS);
  }

  lemma NameStarts(name: seq<byte>)
    requires Encodable(name)
    ensures ToShortName(name)[0] == Upper(name)[0]
  {
    ToShortNameAgrees(name);
    assert Base(Upper(name))[0] == Upper(name)[0];
  }

  lemma {:induction false} ClustersGrow(files: seq<SeedFile>, i: nat)
    requires i < |files|
    ensures ClustersForAll(files[..i + 1]) == ClustersForAll(files[..i]) + ClustersFor(files[i].content)
    ensures ClustersForAll(files[..i + 1]) <= ClustersForAll(files)
  {
    assert files[..i + 1][..i] == files[..i];
    if i + 1 == |files| {
      assert files[..i + 1] == files;
    } else {
      var rest := files[..|files| - 1];
      ClustersGrow(rest, i);
      assert rest[..i + 1] == files[..i + 1];
    }
  }

  /** What the list of files says about a name. */
  ghost function Seeded(files: seq<SeedFile>, n: ShortName): Option<seq<byte>> {
    if files == [] then None
    else
      var last := files[|files| - 1];
      if ToShortName(last.name) == n then Some(last.content) else Seeded(files[..|files| - 1], n)
  }

  ghost predicate NotThere(img: Image, t: Tree, n: ShortName) {
    FileAt(img, t, 0, n) == None && FolderAt(img, t, 0, n) == None
  }

  /** The files of the list have been added to the root, and nothing else. */
  ghost predicate OnlyAdded(files: seq<SeedFile>, img: Image, t: Tree, img': Image, t': Tree) {
    && (forall d, n :: FileAt(img', t', d, n) ==
          if d == 0 && Seeded(files, n).Some? then Seeded(files, n) else FileAt(img, t, d, n))
    && (forall d, n :: FolderAt(img', t', d, n) == FolderAt(img, t, d, n))
  }

  lemma FileJoins(files: seq<SeedFile>, i: nat, img0: Image, t0: Tree, img: Image, t: Tree, img': Image, t': Tree)
    requires i < |files| && NamesOk(files) && OnlyAdded(files[..i], img0, t0, img, t)
    requires FileChanged(img, t, img', t', 0, ToShortName(files[i].name), Some(files[i].content))
    ensures OnlyAdded(files[..i + 1], img0, t0, img', t')
    ensures NotThere(img, t, ToShortName(DOCS)) ==> NotThere(img', t', ToShortName(DOCS))
    ensures forall k | i < k < |files| && NotThere(img, t, ToShortName(files[k].name)) ::
              NotThere(img', t', ToShortName(files[k].name))
  {
    hide ToShortName;
    assert files[..i + 1][..i] == files[..i];
  }

  /** On an empty volume: these files, the directory, and its file. */
  lemma ContentsAre(files: seq<SeedFile>, img0: Image, t0: Tree, img: Image, t: Tree, img': Image, t': Tree, h: nat,
                    info: seq<byte>)
    requires forall d, n :: FileAt(img0, t0, d, n) == None && FolderAt(img0, t0, d, n) == None
    requires OnlyAdded(files, img0, t0, img, t) && DocsAdded(img, t, img', t', h, info)
    ensures forall d, n :: FileAt(img', t', d, n) ==
              if d == h && n == ToShortName(INFO) then Some(info) else if d == 0 then Seeded(files, n) else None
    ensures forall d, n :: FolderAt(img', t', d, n) == if d == 0 && n == ToShortName(DOCS) then Some(h) else None
  {
  }

  predicate BootFits(boot: seq<byte>, stage2: Option<seq<byte>>, kernel: seq<byte>) {
    && |boot| == SECTOR_SIZE && (stage2.Some? ==> |stage2.value| <= SECTOR_SIZE)
    && |kernel| <= SECTOR_SIZE * (RESERVED_SECTORS - if stage2.Some? then 2 else 1)
  }

  function KernelStart(stage2: Option<seq<byte>>): nat {
    if stage2.Some? then 2 * SECTOR_SIZE else SECTOR_SIZE
  }

  /** The reserved area starts with the boot sector, stage 2 if there is one, and the kernel. */
  predicate Placed(front: seq<byte>, boot: seq<byte>, stage2: Option<seq<byte>>, kernel: seq<byte>) {
    && BootFits(boot, stage2, kernel) && |front| >= SECTOR_SIZE * RESERVED_SECTORS
    && front[..SECTOR_SIZE] == boot
    && (stage2.Some? ==> front[SECTOR_SIZE..SECTOR_SIZE + |stage2.value|] == stage2.value)
    && front[KernelStart(stage2)..KernelStart(stage2) + |kernel|] == kernel
  }

  lemma KernelPlaced(m: seq<byte>, boot: seq<byte>, stage2: Option<seq<byte>>, kernel: seq<byte>)
    requires BootFits(boot, stage2, kernel) && |m| == IMAGE_SIZE && m[..SECTOR_SIZE] == boot
    requires stage2.Some? ==> m[SECTOR_SIZE..SECTOR_SIZE + |stage2.value|] == stage2.value
    ensures Placed(Splice(m, KernelStart(stage2), kernel), boot, stage2, kernel)
  {
    var at := KernelStart(stage2);
    SpliceOutside(m, at, kernel, 0, SECTOR_SIZE);
    if stage2.Some? { SpliceOutside(m, at, kernel, SECTOR_SIZE, SECTOR_SIZE + |stage2.value|); }
    SpliceInside(m, at, kernel);
  }

  lemma ReservedPrefix(m: seq<byte>)
    requires |m| == IMAGE_SIZE
    ensures m[..SECTOR_SIZE * DATA_START][..SECTOR_SIZE * RESERVED_SECTORS] == m[..SECTOR_SIZE * RESERVED_SECTORS]
  {
  }

  lemma BootIsFirst(front: seq<byte>, boot: seq<byte>, stage2: Option<seq<byte>>, kernel: seq<byte>)
    requires Placed(front, boot, stage2, kernel)
    ensures BootFits(boot, stage2, kernel) && |front| >= SECTOR_SIZE && |boot| == SECTOR_SIZE && front[..SECTOR_SIZE] == boot
  {
  }

  /** Nothing behind the reserved area matters for that. */
  lemma PlacedInReserved(front: seq<byte>, front': seq<byte>, boot: seq<byte>, stage2: Option<seq<byte>>, kernel: seq<byte>)
    requires Placed(front, boot, stage2, kernel) && |front'| >= SECTOR_SIZE * RESERVED_SECTORS
    requires front'[..SECTOR_SIZE * RESERVED_SECTORS] == front[..SECTOR_SIZE * RESERVED_SECTORS]
    ensures Placed(front', boot, stage2, kernel)
  {
    var r := SECTOR_SIZE * RESERVED_SECTORS;
    var at := KernelStart(stage2);
    SameWindow(front, front', r, 0, SECTOR_SIZE);
    if stage2.Some? { SameWindow(front, front', r, SECTOR_SIZE, SECTOR_SIZE + |stage2.value|); }
    SameWindow(front, front', r, at, at + |kernel|);
  }

  lemma SameWindow(a: seq<byte>, b: seq<byte>, r: nat, lo: nat, hi: nat)
    requires lo <= hi <= r <= |a| && r <= |b| && a[..r] == b[..r]
    ensures a[lo..hi] == b[lo..hi]
  {
    assert a[lo..hi] == a[..r][lo..hi];
    assert b[lo..hi] == b[..r][lo..hi];
  }

  lemma SystemWritten(lba: nat, m: seq<byte>, m': seq<byte>, at: nat, data: seq<byte>)
    requires Reachable(Seed(lba)) && IsMedium(m) && at + |data| <= SECTOR_SIZE * DATA_START
    requires SECTOR_SIZE * lba + at + |data| <= |m| && m' == Splice(m, SECTOR_SIZE * lba + at, data)
    ensures Clusters(Seed(lba), m') == Clusters(Seed(lba), m)
  {
    assert SameOutside(m, m', SECTOR_SIZE * (lba + 0), SECTOR_SIZE * (lba + DATA_START));
    ClustersFrame(Seed(lba), m, m', 0, DATA_START);
  }

  /** docs_buffer[at:at + 32] = entry. */
  method PutSlot(buffer: array<byte>, at: nat, entry: Slot)
    requires at + SLOT_SIZE <= buffer.Length
    modifies buffer
    ensures buffer[..] == Splice(old(buffer[..]), at, entry)
  {
    ghost var was := buffer[..];
    forall i | 0 <= i < 32 { buffer[at + i] := entry[i]; }
    Overwritten(was, buffer[..], at, entry);
  }

  lemma NamesAgree()
    ensures Encode(DOCS) == Some(ToShortName(DOCS)) && Encode(INFO) == Some(ToShortName(INFO))
    ensures IsValidChar(ToShortName(DOCS)[0]) && IsValidChar(ToShortName(INFO)[0])
  {
    ScriptNames();
    ToShortNameAgrees(DOCS);
    ToShortNameAgrees(INFO);
    EncodedFirstByte(DOCS);
    EncodedFirstByte(INFO);
  }

  lemma DotsInPlace(h: nat, b: seq<byte>)
    requires h < TWO16
    requires b == Splice(Splice(Zeros(CLUSTER_SIZE), 0, MakeEntry(Pad([DOT], 11), ATTR_DIRECTORY, h, 0)),
                         32, MakeEntry(Pad([DOT, DOT], 11), ATTR_DIRECTORY, 0, 0))
    ensures b == FolderBytes(h, 0, CLUSTER_SIZE)
  {
    var e: seq<byte>, f: seq<byte> := MakeEntry(DotName(), ATTR_DIRECTORY, h, 0), MakeEntry(DotDotName(), ATTR_DIRECTORY, 0, 0);
    assert Splice(Zeros(CLUSTER_SIZE), 0, e) == e + Zeros(CLUSTER_SIZE - 32);
    assert Splice(e + Zeros(CLUSTER_SIZE - 32), 32, f) == e + f + Zeros(CLUSTER_SIZE - 64);
  }

  lemma FullCluster(h: nat, e: Slot, b: seq<byte>)
    requires h < TWO16 && |b| == CLUSTER_SIZE && b == Splice(FolderBytes(h, 0, CLUSTER_SIZE), 64, e)
    ensures Padded(b, CLUSTER_SIZE) == DocsBytes(h, e, CLUSTER_SIZE)
  {
    assert b + Zeros(0) == b;
  }

  ghost function DocsLoose(h: nat, first: nat, info: seq<byte>): set<nat> {
    {h} + if info == [] then {} else {first}
  }

  /** When both chains are there and the entry's slot is free, the directory can be put into the tree. */
  lemma DocsArePending(img: Image, t: Tree, img0: Image, t0: Tree, img1: Image, t1: Tree, h: nat, i: nat, first: nat,
                       info: seq<byte>)
    requires SameFiles(img, t, img0, t0) && SameFiles(img0, t0, img1, t1) && h in t0.alloc.chains && t0.alloc.chains[h] == Run(h, 1)
    requires LooseSame({h}, img0, t0.alloc, img1, t1.alloc) && FileStored(img1, t1.alloc, first, info)
    requires WellFormed(img1, t1, CLUSTER_SIZE, DocsLoose(h, first, info)) && (info != [] ==> first !in {h})
    requires h < TWO16 && first < TWO16 && |info| < TWO32 && |img1.fat| == |img1.data|
    requires RootFilled(img1.root, i) && i < |Slots(img1.root)|
    requires FileAt(img, t, 0, ToShortName(DOCS)) == None && FolderAt(img, t, 0, ToShortName(DOCS)) == None
    ensures var docs, e := MakeEntry(ToShortName(DOCS), ATTR_DIRECTORY, h, 0),
                           MakeEntry(ToShortName(INFO), ATTR_ARCHIVE, first, |info|);
            && DocsPending(img1, t1, CLUSTER_SIZE, DocsLoose(h, first, info), h, i, docs, e)
            && Content(img1, t1.alloc, e) == info && DocsLoose(h, first, info) == {h} + Heads(Some(e))
  {
    hide WellFormed, MakeEntry, ToShortName, Slots, ChainData, Content, Encode;
    NamesAgree();
    SameFilesJoin(img, t, img0, t0, img1, t1);
    NameIsFree(img, t, img1, t1, ToShortName(DOCS));
    var loose := if info == [] then {} else {first};
    FileEntryReady(img1, t1, DocsLoose(h, first, info), loose, ToShortName(INFO), first, info);
    assert DocsLoose(h, first, info) - {h} == loose;
    var docs := MakeEntry(ToShortName(DOCS), ATTR_DIRECTORY, h, 0);
    assert docs[0] == Name(docs)[0];
    var e := MakeEntry(ToShortName(INFO), ATTR_ARCHIVE, first, |info|);
    assert e[0] == Name(e)[0];
    assert Run(h, 1) == [h];
  }

  /** The cluster and the root entry, written one after the other. */
  lemma BothWrites(img1: Image, now: Image, h: nat, i: nat, docs: Slot, e: Slot)
    requires h < |img1.data| == |now.data| && h < TWO16 && SLOT_SIZE * i + SLOT_SIZE <= |img1.root| && now.fat == img1.fat
    requires now.root == Splice(img1.root, SLOT_SIZE * i, docs) && now.data[h] == DocsBytes(h, e, CLUSTER_SIZE)
    requires forall c | 0 <= c < |img1.data| && c != h :: now.data[c] == img1.data[c]
    ensures now == img1.(root := Splice(img1.root, SLOT_SIZE * i, docs),
                         data := img1.data[h := DocsBytes(h, e, CLUSTER_SIZE)])
  {
    assert now.data == img1.data[h := DocsBytes(h, e, CLUSTER_SIZE)];
  }

  /** The root has the directory DOCS, which holds INFO.TXT; all other files and directories are as they were. */
  ghost predicate DocsAdded(img: Image, t: Tree, img': Image, t': Tree, h: nat, info: seq<byte>) {
    && (forall x, m :: FileAt(img', t', x, m) ==
          if x == h && m == ToShortName(INFO) then Some(info) else FileAt(img, t, x, m))
    && (forall x, m :: FolderAt(img', t', x, m) ==
          if x == 0 && m == ToShortName(DOCS) then Some(h) else FolderAt(img, t, x, m))
  }

  lemma DocsEffect(img: Image, t: Tree, img0: Image, t0: Tree, img1: Image, t1: Tree, img2: Image, t2: Tree, h: nat,
                   info: seq<byte>)
    requires SameFiles(img, t, img0, t0) && SameFiles(img0, t0, img1, t1) && DocsAdded(img1, t1, img2, t2, h, info)
    ensures DocsAdded(img, t, img2, t2, h, info)
  {
  }

  /** build_dir_entry. */
  method BuildDirEntry(name: ShortName, attr: byte, first: nat, size: nat) returns (e: Slot)
    requires first < TWO16 && size < TWO32
    ensures e == MakeEntry(name, attr, first, size)
  {
    var entry := new byte[32](i => 0);
    forall i | 0 <= i < 11 { entry[i] := name[i]; }
    entry[11] := attr;
    var low, high := Le16(first), Le32(size);
    forall i | 0 <= i < 2 { entry[26 + i] := low[i]; }
    forall i | 0 <= i < 4 { entry[28 + i] := high[i]; }
    e := entry[..];
    assert e == name + [attr] + Zeros(14) + Le16(first) + Le32(size);
  }

  lemma Overwritten(was: seq<byte>, now: seq<byte>, at: nat, data: seq<byte>)
    requires |was| == |now| && at + |data| <= |was|
    requires forall i | 0 <= i < |data| :: now[at + i] == data[i]
    requires forall i | 0 <= i < |was| && !(at <= i < at + |data|) :: now[i] == was[i]
    ensures now == Splice(was, at, data)
  {
  }

  lemma SizesFit(data: seq<byte>)
    requires ClustersFor(data) <= END_CLUSTER
    ensures |data| < TWO32
  {
  }

  /** A chain that holds the file is ready for the file's entry. */
  lemma FileEntryReady(img: Image, t: Tree, all: set<nat>, loose: set<nat>, n: ShortName, first: nat, data: seq<byte>)
    requires FileStored(img, t.alloc, first, data) && loose == (if data == [] then {} else {first})
    requires WellFormed(img, t, CLUSTER_SIZE, all) && first < TWO16 && |data| < TWO32 && IsValidChar(n[0])
    ensures var e := MakeEntry(n, ATTR_ARCHIVE, first, |data|);
            && ReadyFile(img, t, CLUSTER_SIZE, loose, e) && Content(img, t.alloc, e) == data && Name(e) == n
            && !IsFree(e) && Heads(Some(e)) == loose
  {
    hide IsDirectory, IsDot, FirstCluster, FileSize;
    ArchiveIsFile(n, first, |data|);
    MadeEntryIsLive(n, ATTR_ARCHIVE, first, |data|);
    ZeroIsNoChain(img, t, CLUSTER_SIZE, all);
  }

  lemma ArchiveIsFile(n: ShortName, first: nat, size: nat)
    requires first < TWO16 && size < TWO32
    ensures !IsDirectory(MakeEntry(n, ATTR_ARCHIVE, first, size))
  {
    ArchiveIsNoFolder();
  }

  lemma NameIsFree(img: Image, t: Tree, img': Image, t': Tree, n: ShortName)
    requires SameFiles(img, t, img', t') && IsValidChar(n[0])
    requires FileAt(img, t, 0, n) == None && FolderAt(img, t, 0, n) == None
    ensures Entry(img', t'.alloc, 0, n) == None
  {
    FolderByEntry(img', t', 0, n);
  }

  lemma ChunkBounds(data: seq<byte>, i: nat)
    requires i < ClustersFor(data)
    ensures i * CLUSTER_SIZE <= |data|
  {
  }

  /** The chain at `first` holds the file, with zeros behind it to the end of its last cluster. */
  ghost predicate FileStored(img: Image, a: Allocation, first: nat, data: seq<byte>) {
    if data == [] then first == 0
    else first in a.chains && ChainData(img, a, first) == Padded(data, ClustersFor(data) * CLUSTER_SIZE)
  }

  /** The other chains that wait for an entry are as they were. */
  ghost predicate LooseSame(loose: set<nat>, img: Image, a: Allocation, img': Image, a': Allocation) {
    forall h | h in loose :: h in a.chains ==>
      h in a'.chains && a'.chains[h] == a.chains[h] && ChainData(img', a', h) == ChainData(img, a, h)
  }

  lemma RunBesideLoose(img: Image, t: Tree, loose: set<nat>, img': Image, n: nat, k: nat)
    requires img'.data == img.data && n !in loose
    ensures LooseSame(loose, img, t.alloc, img', WithRun(t.alloc, n, k))
  {
  }

  /** The first `i` of the new chain's `k` clusters hold their chunks of the file; nothing else has changed. */
  ghost predicate Filling(img0: Image, t0: Tree, img: Image, t: Tree, loose: set<nat>, n: nat, k: nat, i: nat, data: seq<byte>) {
    && n !in loose && t.alloc == WithRun(t0.alloc, n, k) && n + k <= |img.data|
    && WellFormed(img, t, CLUSTER_SIZE, loose + {n}) && SameFiles(img0, t0, img, t)
    && LooseSame(loose, img0, t0.alloc, img, t.alloc)
    && forall j: nat | j < i :: HoldsChunk(img.data, n, j, data, CLUSTER_SIZE)
  }

  /** One more chunk of the new file has been written. */
  lemma ChunkWritten(img0: Image, t0: Tree, img: Image, t: Tree, loose: set<nat>, img': Image, n: nat, k: nat, i: nat,
                     data: seq<byte>)
    requires i < k && img'.fat == img.fat && OnlyDiffersAt(img, img', {n + i})
    requires HoldsChunk(img'.data, n, i, data, CLUSTER_SIZE)
    requires Filling(img0, t0, img, t, loose, n, k, i, data)
    ensures Filling(img0, t0, img', t, loose, n, k, i + 1, data)
  {
    hide WellFormed, ChainData, Partition, HoldsChunk;
    ChunkSized(img'.data, n, i, data);
    RunIsUnowned(img, t, CLUSTER_SIZE, loose + {n}, n, k, n + i);
    ScratchStep(img, t, CLUSTER_SIZE, loose + {n}, img', {n + i});
    SameFilesJoin(img0, t0, img, t, img', t);
    LooseDataSame(img, t, loose, img', n, k, i);
    forall j: nat | j < i + 1 ensures HoldsChunk(img'.data, n, j, data, CLUSTER_SIZE) {
      if j < i { ChunkKept(img.data, img'.data, n, j, i, data); }
    }
  }

  lemma ChunkSized(d: Data, n: nat, i: nat, data: seq<byte>)
    requires HoldsChunk(d, n, i, data, CLUSTER_SIZE)
    ensures n + i < |d| && |d[n + i]| == CLUSTER_SIZE
  {
  }

  lemma ChunkKept(d: Data, d': Data, n: nat, j: nat, i: nat, data: seq<byte>)
    requires HoldsChunk(d, n, j, data, CLUSTER_SIZE) && j != i && |d'| == |d|
    requires forall c | 0 <= c < |d| && c != n + i :: d'[c] == d[c]
    ensures HoldsChunk(d', n, j, data, CLUSTER_SIZE)
  {
  }

  lemma LooseDataSame(img: Image, t: Tree, loose: set<nat>, img': Image, n: nat, k: nat, i: nat)
    requires WellFormed(img, t, CLUSTER_SIZE, loose + {n}) && n !in loose && n in t.alloc.chains && t.alloc.chains[n] == Run(n, k)
    requires OnlyDiffersAt(img, img', {n + i}) && i < k
    ensures forall h | h in loose && h in t.alloc.chains :: ChainData(img', t.alloc, h) == ChainData(img, t.alloc, h)
  {
    hide Partition;
    forall h | h in loose && h in t.alloc.chains ensures ChainData(img', t.alloc, h) == ChainData(img, t.alloc, h) {
      OtherChainsMiss(img, t.alloc, n, i, h);
      OtherChainSame(img, img', t.alloc, n + i, h);
    }
  }

  lemma FileIsStored(img: Image, t: Tree, loose: set<nat>, n: nat, k: nat, data: seq<byte>)
    requires n in t.alloc.chains && t.alloc.chains[n] == Run(n, k) && n + k <= |img.data|
    requires data != [] && k == ClustersFor(data) && forall i: nat | i < k :: HoldsChunk(img.data, n, i, data, CLUSTER_SIZE)
    ensures FileStored(img, t.alloc, n, data)
  {
    ChunkStartIs(k, CLUSTER_SIZE);
    ChunkStartIs(k - 1, CLUSTER_SIZE);
    RunHoldsFile(img.data, n, k, data, CLUSTER_SIZE);
  }

  /** The number of clusters that a file takes. */
  function ClustersFor(data: seq<byte>): (n: nat)
    ensures n * CLUSTER_SIZE < |data| + CLUSTER_SIZE && |data| <= n * CLUSTER_SIZE
  {
    (|data| + CLUSTER_SIZE - 1) / CLUSTER_SIZE
  }

  /** Writing a cluster's sectors changes that cluster only. */
  lemma ClusterWritten(g: Geometry, m: seq<byte>, m': seq<byte>, c: nat, data: seq<byte>)
    requires Reachable(g) && IsMedium(m) && InVolume(g, c) && |data| == g.clusterSize
    requires SECTOR_SIZE * (g.baseLba + ClusterSector(g, c)) + |data| <= |m|
    requires m' == Splice(m, SECTOR_SIZE * (g.baseLba + ClusterSector(g, c)), data)
    ensures |Clusters(g, m')| == |Clusters(g, m)| && Clusters(g, m')[c] == data
    ensures forall d | 0 <= d < g.totalClusters + 2 && d != c :: Clusters(g, m')[d] == Clusters(g, m)[d]
  {
    ClusterInsideVolume(g, c);
    OtherClustersFrame(g, m, m', c);
    SpliceInside(m, SECTOR_SIZE * (g.baseLba + ClusterSector(g, c)), data);
  }
}
