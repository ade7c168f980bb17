/** The volume that the image builder lays out, as a value: its geometry, and the steps that fill it. */
module SeedVolume {
  import opened Bytes
  import opened Disk
  import opened Geometry
  import opened Chains
  import opened Contents
  import opened Directories
  import opened ShortNames
  import opened Volumes
  import opened EntrySteps

  const SECTORS_PER_CLUSTER: nat := 8
  const RESERVED_SECTORS: nat := 128
  const NUM_FATS: nat := 2
  const SECTORS_PER_FAT: nat := 8
  const ROOT_ENTRIES: nat := 256
  const ROOT_DIR_SECTORS: nat := 16
  const TOTAL_SECTORS: nat := 20480
  const DATA_START: nat := RESERVED_SECTORS + NUM_FATS * SECTORS_PER_FAT + ROOT_DIR_SECTORS
  const CLUSTER_SIZE: nat := SECTOR_SIZE * SECTORS_PER_CLUSTER
  const TOTAL_CLUSTERS: nat := (TOTAL_SECTORS - DATA_START) / SECTORS_PER_CLUSTER
  const LAST_CLUSTER: nat := 0xFFF

  /** The parameter block of boot.asm. */
  const SEED_BPB := Bpb(512, 8, 128, 2, 256, 20480, 8, 0)

  /** The bytes 11 to 35 that boot.asm lays out. */
  const SEED_BYTES: seq<byte> :=
    [0x00, 0x02, 0x08, 0x80, 0x00, 0x02, 0x00, 0x01, 0x00, 0x50, 0xF8, 0x08, 0x00, 0x3F, 0x00, 0x10, 0x00,
     0x00, 0x00, 0x00, 0x00, 0x00, 0x00, 0x00, 0x00]

  lemma BpbFields(boot: Sector, r: seq<byte>)
    requires r == SEED_BYTES
    requires boot[11] == r[0] && boot[12] == r[1] && boot[13] == r[2] && boot[14] == r[3] && boot[15] == r[4] && boot[16] == r[5]
    requires boot[17] == r[6] && boot[18] == r[7] && boot[19] == r[8] && boot[20] == r[9] && boot[22] == r[11] && boot[23] == r[12]
    requires boot[32] == r[21] && boot[33] == r[22] && boot[34] == r[23] && boot[35] == r[24]
    ensures ParseBpb(boot) == SEED_BPB
  {
  }

  /** A boot sector with these bytes has these parameters. */
  lemma SeedBytesParse(boot: Sector)
    requires boot[11..36] == SEED_BYTES
    ensures ParseBpb(boot) == SEED_BPB
  {
    var r := boot[11..36];
    assert boot[11] == r[0] && boot[12] == r[1] && boot[13] == r[2] && boot[14] == r[3] && boot[15] == r[4] && boot[16] == r[5];
    assert boot[17] == r[6] && boot[18] == r[7] && boot[19] == r[8] && boot[20] == r[9] && boot[22] == r[11] && boot[23] == r[12];
    assert boot[32] == r[21] && boot[33] == r[22] && boot[34] == r[23] && boot[35] == r[24];
    BpbFields(boot, SEED_BYTES);
  }

  /** The builder's own constants, as a layout. */
  function Seed(lba: nat): Geometry {
    Geometry(lba, SECTORS_PER_CLUSTER, RESERVED_SECTORS, NUM_FATS, ROOT_ENTRIES, ROOT_DIR_SECTORS, TOTAL_SECTORS,
             SECTORS_PER_FAT, RESERVED_SECTORS, RESERVED_SECTORS + NUM_FATS * SECTORS_PER_FAT, DATA_START,
             TOTAL_SECTORS - DATA_START, TOTAL_CLUSTERS, CLUSTER_SIZE, SECTORS_PER_FAT * SECTOR_SIZE)
  }

  /** The kernel computes the same layout from the boot sector that the builder assumes. */
  lemma SeedIsAccepted(lba: nat)
    ensures Accept(SEED_BPB, lba) == Accepted(Seed(lba)) && Sound(Seed(lba))
  {
  }

  // ---------------------------------------------------------------- a run of clusters becomes a chain

  function Run(n: nat, k: nat): (s: seq<nat>)
    ensures |s| == k && forall i | 0 <= i < k :: s[i] == n + i
  {
    seq(k, i requires 0 <= i => n + i)
  }

  lemma RunMembers(n: nat, k: nat)
    ensures forall c: nat :: c in Run(n, k) <==> n <= c < n + k
  {
    forall c: nat | n <= c < n + k ensures c in Run(n, k) {
      assert Run(n, k)[c - n] == c;
    }
  }

  /** The first `j` of `k` clusters from `n` on are linked, the last of all ends the chain. */
  ghost function Linked(fat: seq<nat>, n: nat, k: nat, j: nat): (r: seq<nat>)
    ensures |r| == |fat|
  {
    seq(|fat|, c requires 0 <= c < |fat| =>
      if n <= c < n + j then (if c == n + k - 1 then LAST_CLUSTER else c + 1) else fat[c])
  }

  lemma LinkedNext(fat: seq<nat>, n: nat, k: nat, j: nat)
    requires j < k && n + k <= |fat|
    ensures Linked(fat, n, k, j)[n + j := if j + 1 < k then n + j + 1 else LAST_CLUSTER] == Linked(fat, n, k, j + 1)
  {
  }

  lemma LinkedNone(fat: seq<nat>, n: nat, k: nat)
    ensures Linked(fat, n, k, 0) == fat
  {
  }

  function WithRun(a: Allocation, n: nat, k: nat): Allocation {
    Allocation(a.chains[n := Run(n, k)], a.at + (map c | c in Run(n, k) :: (n, if c >= n then c - n else 0)))
  }

  lemma RunIsChain(fat: seq<nat>, n: nat, k: nat)
    requires k > 0 && 2 <= n && n + k <= |fat| <= EOC
    ensures IsChain(Linked(fat, n, k, k), Run(n, k))
  {
    var s, fat' := Run(n, k), Linked(fat, n, k, k);
    assert forall i | 0 <= i < k - 1 :: fat'[s[i]] == s[i + 1];
  }

  lemma RunPlaces(a: Allocation, n: nat, k: nat, i: nat)
    requires i < k
    ensures Run(n, k)[i] in WithRun(a, n, k).at && WithRun(a, n, k).at[Run(n, k)[i]] == (n, i)
  {
  }

  lemma RunOwnsItself(fat: seq<nat>, a: Allocation, n: nat, k: nat)
    requires k > 0 && 2 <= n && n + k <= |fat| <= EOC
    ensures Owns(Linked(fat, n, k, k), WithRun(a, n, k), n)
  {
    RunIsChain(fat, n, k);
    forall i | 0 <= i < k ensures Run(n, k)[i] in WithRun(a, n, k).at && WithRun(a, n, k).at[Run(n, k)[i]] == (n, i) {
      RunPlaces(a, n, k, i);
    }
  }

  lemma OwnsBesideRun(fat: seq<nat>, a: Allocation, n: nat, k: nat, h: nat)
    requires Partition(fat, a) && k > 0 && 2 <= n && n + k <= |fat| <= EOC && h in a.chains && h != n
    requires forall c | n <= c < n + k :: fat[c] == FREE
    ensures Owns(Linked(fat, n, k, k), WithRun(a, n, k), h)
  {
    hide IsChain;
    RunMembers(n, k);
    ChainMembers(fat, a, h);
    assert Owns(fat, a, h);
    OwnsFrame(fat, a, Linked(fat, n, k, k), WithRun(a, n, k), h);
  }

  lemma RunHeads(a: Allocation, n: nat, k: nat, h: nat)
    requires h in WithRun(a, n, k).chains
    ensures h == n || h in a.chains
  {
  }

  lemma OnChainBesideRun(fat: seq<nat>, a: Allocation, n: nat, k: nat, c: nat)
    requires Partition(fat, a) && k > 0 && 2 <= n && n + k <= |fat| && fat[n] == FREE && c in WithRun(a, n, k).at
    ensures OnChain(WithRun(a, n, k), c)
  {
    hide Owns, IsChain;
    RunMembers(n, k);
    if !(n <= c < n + k) {
      assert OnChain(a, c);
      FreeClusterIsUnowned(fat, a, n);
    }
  }

  /** The clusters in use. */
  lemma RunUses(fat: seq<nat>, a: Allocation, n: nat, k: nat)
    requires Partition(fat, a) && k > 0 && 2 <= n && n + k <= |fat| <= EOC
    ensures forall c | 2 <= c < |fat| :: Linked(fat, n, k, k)[c] != FREE <==> c in WithRun(a, n, k).at
  {
    hide Owns, OnChain;
    RunMembers(n, k);
  }

  /** Free neighbouring clusters become one chain. */
  lemma RunKeepsPartition(fat: seq<nat>, a: Allocation, n: nat, k: nat)
    requires Partition(fat, a) && k > 0 && 2 <= n && n + k <= |fat| <= EOC
    requires forall c | n <= c < n + k :: fat[c] == FREE
    ensures n !in a.chains && Partition(Linked(fat, n, k, k), WithRun(a, n, k))
  {
    hide IsChain, Run, Linked, WithRun, Owns, OnChain;
    var fat', a' := Linked(fat, n, k, k), WithRun(a, n, k);
    FreeClusterIsUnowned(fat, a, n);
    forall h | h in a'.chains ensures Owns(fat', a', h) {
      RunHeads(a, n, k, h);
      if h == n { RunOwnsItself(fat, a, n, k); } else { OwnsBesideRun(fat, a, n, k, h); }
    }
    forall c | c in a'.at ensures OnChain(a', c) { OnChainBesideRun(fat, a, n, k, c); }
    RunUses(fat, a, n, k);
  }

  /** The allocator's step: the run joins the volume as a loose chain. */
  lemma RunStep(img: Image, t: Tree, cs: nat, loose: set<nat>, n: nat, k: nat)
    requires WellFormed(img, t, cs, loose) && k > 0 && 2 <= n && n + k <= |img.fat|
    requires forall c | n <= c < n + k :: img.fat[c] == FREE
    ensures n !in t.alloc.chains && n !in loose
    ensures var img', t' := img.(fat := Linked(img.fat, n, k, k)), t.(alloc := WithRun(t.alloc, n, k));
            WellFormed(img', t', cs, loose + {n}) && SameFiles(img, t, img', t')
  {
    hide Partition, OwnerOk;
    var img' := img.(fat := Linked(img.fat, n, k, k));
    RunKeepsPartition(img.fat, t.alloc, n, k);
    assert OnlyDiffersAt(img, img', {});
    OwnedDataSameFrom(img, t, img', {});
    LooseStep(img, t, cs, loose, img', WithRun(t.alloc, n, k), loose + {n});
  }

  /** The clusters of a loose run belong to no entry. */
  lemma RunIsUnowned(img: Image, t: Tree, cs: nat, loose: set<nat>, n: nat, k: nat, c: nat)
    requires WellFormed(img, t, cs, loose) && n in loose && t.alloc.chains[n] == Run(n, k) && n <= c < n + k
    ensures Unowned(t, c)
  {
    hide Entry;
    assert Owns(img.fat, t.alloc, n);
    assert Run(n, k)[c - n] == c;
  }

  // ---------------------------------------------------------------- the bytes of a run

  lemma RunNext(n: nat, k: nat)
    ensures Run(n, k + 1) == Run(n, k) + [n + k]
  {
  }

  lemma RunInRange(d: Data, n: nat, k: nat)
    requires n + k <= |d|
    ensures InRange(d, Run(n, k))
  {
  }

  /** Where the i-th chunk of a file starts. */
  function ChunkStart(i: nat, cs: nat): nat {
    if i == 0 then 0 else ChunkStart(i - 1, cs) + cs
  }

  lemma {:induction false} ChunkStartIs(i: nat, cs: nat)
    ensures ChunkStart(i, cs) == i * cs
  {
    if i > 0 {
      ChunkStartIs(i - 1, cs);
      assert i * cs == (i - 1) * cs + cs;
    }
  }

  /** Cluster `n + i` holds the i-th chunk of the file. */
  ghost predicate HoldsChunk(d: Data, n: nat, i: nat, data: seq<byte>, cs: nat) {
    var at := ChunkStart(i, cs);
    n + i < |d| && at <= |data| && d[n + i] == Padded(Chunk(data, at, cs), cs)
  }

  /** Full chunks, one cluster each, hold a prefix of the file. */
  lemma {:induction false} ChunksInOrder(d: Data, n: nat, j: nat, data: seq<byte>, cs: nat)
    requires ChunkStart(j, cs) <= |data| && n + j <= |d| && forall i: nat | i < j :: HoldsChunk(d, n, i, data, cs)
    ensures InRange(d, Run(n, j)) && ChainBytes(d, Run(n, j)) == data[..ChunkStart(j, cs)]
  {
    hide ChainBytes;
    RunInRange(d, n, j);
    if j == 0 {
      NoBytes(d, n);
    } else {
      var at := ChunkStart(j - 1, cs);
      ChunksInOrder(d, n, j - 1, data, cs);
      FullChunk(d, n, j - 1, data, cs);
      RunNext(n, j - 1);
      ChainBytesAppend(d, Run(n, j - 1), n + (j - 1));
      assert data[..at] + data[at..at + cs] == data[..at + cs];
    }
  }

  lemma NoBytes(d: Data, n: nat)
    ensures ChainBytes(d, Run(n, 0)) == []
  {
  }

  lemma FullChunk(d: Data, n: nat, i: nat, data: seq<byte>, cs: nat)
    requires HoldsChunk(d, n, i, data, cs) && ChunkStart(i, cs) + cs <= |data|
    ensures n + i < |d| && d[n + i] == data[ChunkStart(i, cs)..ChunkStart(i, cs) + cs]
  {
    assert Chunk(data, ChunkStart(i, cs), cs) == data[ChunkStart(i, cs)..ChunkStart(i, cs) + cs];
  }

  /** The run holds the file, and zeros to the end of its last cluster. */
  lemma RunHoldsFile(d: Data, n: nat, k: nat, data: seq<byte>, cs: nat)
    requires k > 0 && ChunkStart(k - 1, cs) < |data| <= ChunkStart(k, cs) && n + k <= |d|
    requires forall i: nat | i < k :: HoldsChunk(d, n, i, data, cs)
    ensures InRange(d, Run(n, k)) && ChainBytes(d, Run(n, k)) == Padded(data, ChunkStart(k, cs))
  {
    var done := ChunkStart(k - 1, cs);
    RunInRange(d, n, k);
    ChunksInOrder(d, n, k - 1, data, cs);
    RunNext(n, k - 1);
    ChainBytesAppend(d, Run(n, k - 1), n + (k - 1));
    assert HoldsChunk(d, n, k - 1, data, cs);
    assert Chunk(data, done, cs) == data[done..];
    assert data[..done] + (data[done..] + Zeros(done + cs - |data|)) == data + Zeros(done + cs - |data|);
  }

  // ---------------------------------------------------------------- entries

  /** Only the first `i` slots of the root are in use. */
  ghost predicate RootFilled(root: seq<byte>, i: nat) {
    var slots := Slots(root);
    i <= |slots| && (forall k | 0 <= k < i :: !IsFree(slots[k])) && (forall k | i <= k < |slots| :: slots[k][0] == END_MARK)
  }

  lemma RootFilledNext(root: seq<byte>, i: nat, e: Slot)
    requires RootFilled(root, i) && i < |Slots(root)| && !IsFree(e) && |root| % SLOT_SIZE == 0
    ensures SLOT_SIZE * i + SLOT_SIZE <= |root| && RootFilled(Splice(root, SLOT_SIZE * i, e), i + 1)
  {
    SlotsSplice(root, i, e);
  }

  /** An entry of a new name goes into the next root slot. */
  lemma RootEntryChanges(img: Image, t: Tree, cs: nat, loose: set<nat>, i: nat, e: Slot)
    requires WellFormed(img, t, cs, loose) && RootFilled(img.root, i) && i < |Slots(img.root)| && !IsFree(e)
    requires Entry(img, t.alloc, 0, Name(e)) == None
    ensures SLOT_SIZE * i + SLOT_SIZE <= |img.root|
    ensures EntryChanged(img, t, Stored(img, 0, i, e), cs, 0, Name(e), Some(e))
  {
    StoredInRoot(img, t.alloc, cs, i, e);
    StoreChangesEntry(img, t, cs, loose, Stored(img, 0, i, e), 0, i, e);
  }

  /** A file joins the root directory. */
  lemma RootFileStep(img: Image, t: Tree, cs: nat, loose: set<nat>, i: nat, e: Slot)
    requires WellFormed(img, t, cs, loose) && RootFilled(img.root, i) && i < |Slots(img.root)| && !IsFree(e)
    requires Entry(img, t.alloc, 0, Name(e)) == None && ReadyFile(img, t, cs, loose, e)
    ensures var img', t' := Stored(img, 0, i, e), t.(owner := Owners(t, 0, Name(e), None, Some(e)));
            && WellFormed(img', t', cs, loose - Heads(Some(e)))
            && FileChanged(img, t, img', t', 0, Name(e), Some(Content(img, t.alloc, e)))
  {
    hide EntryChanged, ReadyFile, Heads, FileChanged, Slots, RootFilled;
    RootEntryChanges(img, t, cs, loose, i, e);
    FileEntryStep(img, t, cs, loose, Stored(img, 0, i, e), 0, Name(e), Some(e));
    FileEntryChanges(img, t, cs, loose, Stored(img, 0, i, e), 0, Name(e), Some(e));
    NoHeads();
    assert loose - Heads(Some(e)) + {} == loose - Heads(Some(e));
  }

  // ---------------------------------------------------------------- the DOCS directory

  /** The cluster of the directory: the dot entries, one file, and never-used slots. */
  ghost function DocsBytes(h: nat, e: Slot, cs: nat): seq<byte>
    requires h < TWO16 && cs >= 3 * SLOT_SIZE
  {
    Splice(FolderBytes(h, 0, cs), 2 * SLOT_SIZE, e)
  }

  /** Two loose chains are waiting: the directory's one cluster and the chain of the file in it. */
  ghost predicate DocsPending(img: Image, t: Tree, cs: nat, loose: set<nat>, h: nat, i: nat, docs: Slot, e: Slot) {
    && WellFormed(img, t, cs, loose) && h in loose && h in t.alloc.chains && t.alloc.chains[h] == [h] && h < TWO16
    && cs >= 3 * SLOT_SIZE && |img.fat| == |img.data|
    && RootFilled(img.root, i) && i < |Slots(img.root)| && Entry(img, t.alloc, 0, Name(docs)) == None
    && docs == MakeEntry(Name(docs), ATTR_DIRECTORY, h, 0) && IsValidChar(docs[0])
    && ReadyFile(img, t, cs, loose - {h}, e) && IsValidChar(e[0])
  }

  ghost function WithDots(img: Image, h: nat, cs: nat): Image
    requires h < |img.data| && h < TWO16 && cs >= 2 * SLOT_SIZE
  {
    img.(data := img.data[h := FolderBytes(h, 0, cs)])
  }

  lemma PendingFacts(img: Image, t: Tree, cs: nat, loose: set<nat>, h: nat, i: nat, docs: Slot, e: Slot)
    requires DocsPending(img, t, cs, loose, h, i, docs, e)
    ensures 2 <= h < |img.data| && |img.data| == |img.fat| && cs % SLOT_SIZE == 0 && Unowned(t, h) && 0 !in t.dirs && !IsDir(t, h)
    ensures docs == MakeEntry(Name(docs), ATTR_DIRECTORY, h, 0) && !IsFree(docs) && IsDirectory(docs) && !IsDot(docs)
    ensures FirstCluster(docs) == h && IsValidChar(Name(docs)[0]) && IsValidChar(Name(e)[0]) && !IsFree(e)
  {
    hide Partition, EntryOk, OwnerOk, DirOk, SlotsOf, Entry, MakeEntry, RootFilled, ReadyFile, Slots, ChainData;
    ZeroIsNoChain(img, t, cs, loose);
    ChainsInRange(img.fat, t.alloc);
    assert [h] == Run(h, 1);
    RunIsUnowned(img, t, cs, loose, h, 1, h);
    MadeEntryIsLive(Name(docs), ATTR_DIRECTORY, h, 0);
    DirectoryAttr(Name(docs), h);
  }

  /** First the cluster is given its dot entries. */
  lemma DocsDots(img: Image, t: Tree, cs: nat, loose: set<nat>, h: nat, i: nat, docs: Slot, e: Slot)
    requires DocsPending(img, t, cs, loose, h, i, docs, e)
    ensures h < |img.data|
    ensures var imgA := WithDots(img, h, cs);
            && WellFormed(imgA, t, cs, loose) && SameFiles(img, t, imgA, t) && FreshFolder(imgA, t.alloc, h, 0)
            && SlotsOf(imgA, t.alloc, h) == Slots(FolderBytes(h, 0, cs))
            && ReadyFile(imgA, t, cs, loose - {h}, e) && Content(imgA, t.alloc, e) == Content(img, t.alloc, e)
  {
    hide WellFormed;
    PendingFacts(img, t, cs, loose, h, i, docs, e);
    var imgA := WithDots(img, h, cs);
    FolderBytesSize(h, cs);
    ScratchStep(img, t, cs, loose, imgA, {h});
    ChainOfOne(imgA, t.alloc, h);
    FolderBytesFresh(imgA, t.alloc, h, 0, cs);
    DirOfChain(imgA, t.alloc, h);
    ReadyKept(img, t, cs, loose, imgA, h, e);
  }

  lemma FolderBytesSize(h: nat, cs: nat)
    requires h < TWO16 && cs >= 2 * SLOT_SIZE
    ensures |FolderBytes(h, 0, cs)| == cs
  {
  }

  lemma DirOfChain(img: Image, a: Allocation, h: nat)
    requires h != 0
    ensures SlotsOf(img, a, h) == Slots(ChainData(img, a, h))
  {
  }

  lemma ReadyKept(img: Image, t: Tree, cs: nat, loose: set<nat>, img': Image, h: nat, e: Slot)
    requires WellFormed(img, t, cs, loose) && h in loose && h in t.alloc.chains && t.alloc.chains[h] == [h]
    requires ReadyFile(img, t, cs, loose - {h}, e) && OnlyDiffersAt(img, img', {h})
    ensures ReadyFile(img', t, cs, loose - {h}, e) && Content(img', t.alloc, e) == Content(img, t.alloc, e)
  {
    hide Partition;
    var f := FirstCluster(e);
    ZeroIsNoChain(img, t, cs, loose);
    if f in t.alloc.chains && f != h {
      OtherChainsMiss(img, t.alloc, h, 0, f);
      OtherChainSame(img, img', t.alloc, h, f);
    } else if f !in t.alloc.chains {
      NoChainNoData(img, t.alloc, f);
      NoChainNoData(img', t.alloc, f);
    }
  }

  /** Then the directory's entry joins the root. */
  lemma DocsEntry(img: Image, t: Tree, cs: nat, loose: set<nat>, h: nat, i: nat, docs: Slot, e: Slot)
    requires DocsPending(img, t, cs, loose, h, i, docs, e)
    ensures h < |img.data| && SLOT_SIZE * i + SLOT_SIZE <= |img.root|
    ensures var imgA, tB := WithDots(img, h, cs), WithFolder(t, 0, Name(docs), h);
            var imgB := Stored(imgA, 0, i, docs);
            && WellFormed(imgB, tB, cs, loose - {h}) && FolderChanged(img, t, imgB, tB, 0, Name(docs), h)
            && SlotsOf(imgB, t.alloc, h) == Slots(FolderBytes(h, 0, cs)) && Entry(imgB, t.alloc, h, Name(e)) == None
            && ReadyFile(imgB, tB, cs, loose - {h}, e) && Content(imgB, t.alloc, e) == Content(img, t.alloc, e)
  {
    hide WellFormed, EntryChanged, IsFree;
    PendingFacts(img, t, cs, loose, h, i, docs, e);
    DocsDots(img, t, cs, loose, h, i, docs, e);
    var imgA := WithDots(img, h, cs);
    var imgB := Stored(imgA, 0, i, docs);
    SameRootEntry(img, t, imgA, Name(docs));
    RootEntryChanges(imgA, t, cs, loose, i, docs);
    FolderEntryStep(imgA, t, cs, loose, imgB, 0, Name(docs), docs);
    FolderEntryChanges(imgA, t, cs, loose, imgB, 0, Name(docs), docs);
    SameThenFolder(img, t, imgA, t, imgB, WithFolder(t, 0, Name(docs), h), 0, Name(docs), h);
    FolderSlotsKept(imgA, t, cs, loose, imgB, 0, Name(docs), Some(docs), h);
    OnlyDots(imgB, t.alloc, h, Name(e));
    ReadyBesideRoot(imgA, t, imgB, WithFolder(t, 0, Name(docs), h), cs, loose - {h}, e);
  }

  lemma SameRootEntry(img: Image, t: Tree, img': Image, n: ShortName)
    requires SameFiles(img, t, img', t)
    ensures Entry(img', t.alloc, 0, n) == Entry(img, t.alloc, 0, n)
  {
  }

  lemma OnlyDots(img: Image, a: Allocation, h: nat, n: ShortName)
    requires FreshFolder(img, a, h, 0) && IsValidChar(n[0])
    ensures Entry(img, a, h, n) == None
  {
    if Entry(img, a, h, n).Some? { NamedEntryIsNoDot(img, a, h, n); }
  }

  lemma ReadyBesideRoot(img: Image, t: Tree, img': Image, t': Tree, cs: nat, loose: set<nat>, e: Slot)
    requires ReadyFile(img, t, cs, loose, e) && img'.data == img.data && t'.alloc == t.alloc
    ensures ReadyFile(img', t', cs, loose, e) && Content(img', t.alloc, e) == Content(img, t.alloc, e)
  {
  }

  /** Then the file's entry follows the dot entries. */
  lemma DocsFile(img: Image, t: Tree, cs: nat, loose: set<nat>, h: nat, e: Slot)
    requires WellFormed(img, t, cs, loose) && h in t.dirs && h in t.alloc.chains && t.alloc.chains[h] == [h] && h < |img.data|
    requires h < TWO16 && cs >= 3 * SLOT_SIZE && cs % SLOT_SIZE == 0 && img.data[h] == FolderBytes(h, 0, cs)
    requires SlotsOf(img, t.alloc, h) == Slots(FolderBytes(h, 0, cs)) && Entry(img, t.alloc, h, Name(e)) == None
    requires ReadyFile(img, t, cs, loose, e) && !IsFree(e) && h != 0
    ensures var img', t' := Stored(img, h, 2, e), t.(owner := Owners(t, h, Name(e), None, Some(e)));
            && WellFormed(img', t', cs, loose - Heads(Some(e)))
            && FileChanged(img, t, img', t', h, Name(e), Some(Content(img, t.alloc, e)))
            && img' == img.(data := img.data[h := DocsBytes(h, e, cs)])
  {
    hide WellFormed, FirstCluster, FileSize, IsFree, EntryChanged, Content, Heads, Located, ChainBytes;
    var img' := Stored(img, h, 2, e);
    DocsLocated(img, t.alloc, h, cs);
    FolderBytesSlots(h, 0, cs);
    DotsAreLive(h, cs);
    FreePlaceIsPlace(img, t.alloc, h, Name(e), 2);
    StoreAtPlace(img, t, cs, loose, h, 2, h, 2, 0, e);
    FileEntryStep(img, t, cs, loose, img', h, Name(e), Some(e));
    FileEntryChanges(img, t, cs, loose, img', h, Name(e), Some(e));
    NoHeads();
    assert loose - Heads(Some(e)) + {} == loose - Heads(Some(e));
    StoredThere(img, h, e, cs);
  }

  lemma StoredThere(img: Image, h: nat, e: Slot, cs: nat)
    requires h != 0 && h < |img.data| && h < TWO16 && cs >= 3 * SLOT_SIZE && img.data[h] == FolderBytes(h, 0, cs)
    ensures Stored(img, h, 2, e) == img.(data := img.data[h := DocsBytes(h, e, cs)])
  {
  }

  lemma DocsLocated(img: Image, a: Allocation, h: nat, cs: nat)
    requires h != 0 && h in a.chains && a.chains[h] == [h] && h < |img.data| && h < TWO16 && cs >= 3 * SLOT_SIZE
    requires img.data[h] == FolderBytes(h, 0, cs)
    ensures Located(img, a, h, 2, h, 2, 0)
  {
    assert [h][..0] == [];
    assert ChainBytes(img.data, []) == [];
  }

  /** The first free slot of the new directory is the third. */
  lemma DotsAreLive(h: nat, cs: nat)
    requires h < TWO16 && cs >= 3 * SLOT_SIZE && cs % SLOT_SIZE == 0
    ensures var slots := Slots(FolderBytes(h, 0, cs)); |slots| > 2 && AllLiveBefore(slots, 2) && IsFree(slots[2])
  {
    hide Slots;
    FolderBytesSlots(h, 0, cs);
    DotEntriesAreDots(h);
    DotEntriesAreDots(0);
    FolderBytesSize(h, cs);
  }

  /** Both steps together are what the builder writes: the finished cluster, and one root entry. */
  lemma DocsStep(img: Image, t: Tree, cs: nat, loose: set<nat>, h: nat, i: nat, docs: Slot, e: Slot)
    requires DocsPending(img, t, cs, loose, h, i, docs, e) && loose == {h} + Heads(Some(e))
    ensures h < |img.data| && SLOT_SIZE * i + SLOT_SIZE <= |img.root|
    ensures var t1 := WithFolder(t, 0, Name(docs), h);
            var t2 := t1.(owner := Owners(t1, h, Name(e), None, Some(e)));
            var img2 := img.(root := Splice(img.root, SLOT_SIZE * i, docs), data := img.data[h := DocsBytes(h, e, cs)]);
            && WellFormed(img2, t2, cs, {})
            && (forall x, m :: FileAt(img2, t2, x, m) ==
                  if x == h && m == Name(e) then Some(Content(img, t.alloc, e)) else FileAt(img, t, x, m))
            && (forall x, m :: FolderAt(img2, t2, x, m) ==
                  if x == 0 && m == Name(docs) then Some(h) else FolderAt(img, t, x, m))
  {
    hide WellFormed, FirstCluster, IsFree, Content, Heads, FileAt, FolderAt, AttrAt, DocsBytes, DocsPending;
    PendingFacts(img, t, cs, loose, h, i, docs, e);
    PendingParts(img, t, cs, loose, h, i, docs, e);
    DocsEntry(img, t, cs, loose, h, i, docs, e);
    var imgB, t1 := Stored(WithDots(img, h, cs), 0, i, docs), WithFolder(t, 0, Name(docs), h);
    DocsFile(imgB, t1, cs, loose - {h}, h, e);
    assert loose - {h} - Heads(Some(e)) == {};
    assert Stored(imgB, h, 2, e) ==
           img.(root := Splice(img.root, SLOT_SIZE * i, docs), data := img.data[h := DocsBytes(h, e, cs)]);
  }

  lemma PendingParts(img: Image, t: Tree, cs: nat, loose: set<nat>, h: nat, i: nat, docs: Slot, e: Slot)
    requires DocsPending(img, t, cs, loose, h, i, docs, e)
    ensures h in t.alloc.chains && t.alloc.chains[h] == [h] && h < TWO16 && cs >= 3 * SLOT_SIZE
  {
  }
}
