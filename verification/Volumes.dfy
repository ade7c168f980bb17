/** A mounted volume as a value: the table, the root directory and the data area, and what makes them a file
    system. */
module Volumes {
  import opened Bytes
  import opened Chains
  import opened Contents
  import opened Directories
  import opened ShortNames

  /** `fat` holds the entries of the allocatable clusters, `root` the root directory's slots. */
  datatype Image = Image(fat: seq<nat>, root: seq<byte>, data: Data)

  /** The directory tree over the chains: which chains are directories, and for each chain the directory and the
      name of the one entry that owns it. `depth` grows from a directory to its subdirectories. */
  datatype Tree = Tree(alloc: Allocation, dirs: set<nat>, owner: map<nat, (nat, ShortName)>, depth: map<nat, nat>)

  ghost function ChainData(img: Image, a: Allocation, h: nat): seq<byte> {
    if h in a.chains && InRange(img.data, a.chains[h]) then ChainBytes(img.data, a.chains[h]) else []
  }

  /** A directory is named by its first cluster; 0 names the root. */
  ghost function DirBytes(img: Image, a: Allocation, d: nat): seq<byte> {
    if d == 0 then img.root else ChainData(img, a, d)
  }

  ghost function SlotsOf(img: Image, a: Allocation, d: nat): seq<Slot> {
    Slots(DirBytes(img, a, d))
  }

  ghost function Entry(img: Image, a: Allocation, d: nat, n: ShortName): Option<Slot> {
    Lookup(SlotsOf(img, a, d), n)
  }

  ghost predicate IsDir(t: Tree, d: nat) {
    d == 0 || d in t.dirs
  }

  ghost function Depth(t: Tree, d: nat): nat {
    if d in t.depth then t.depth[d] else 0
  }

  /** Sizes, and the partition of the clusters into chains. */
  ghost predicate Physical(img: Image, a: Allocation, clusterSize: nat) {
    && Partition(img.fat, a)
    && |img.fat| <= |img.data| && |img.fat| <= EOC
    && clusterSize > 0 && clusterSize % SLOT_SIZE == 0 && |img.root| % SLOT_SIZE == 0
    && (forall c | 2 <= c < |img.fat| :: |img.data[c]| == clusterSize)
  }

  ghost predicate OwnedBy(t: Tree, h: nat, d: nat, n: ShortName) {
    h in t.owner && t.owner[h] == (d, n)
  }

  /** A live entry leads to its own chain; a file's chain has exactly the clusters that its size needs. */
  ghost predicate EntryOk(img: Image, t: Tree, clusterSize: nat, d: nat, n: ShortName, e: Slot) {
    var h := FirstCluster(e);
    if IsDot(e) then true
    else if IsDirectory(e) then h in t.dirs && OwnedBy(t, h, d, n)
    else if FileSize(e) == 0 then h == 0
    else
      && h !in t.dirs && OwnedBy(t, h, d, n)
      && FileSize(e) <= |ChainData(img, t.alloc, h)| < FileSize(e) + clusterSize
  }

  /** The entry that owns a chain is there, in a directory nearer to the root. */
  ghost predicate OwnerOk(img: Image, t: Tree, h: nat)
    requires h in t.owner
  {
    var (d, n) := t.owner[h];
    && IsDir(t, d)
    && Entry(img, t.alloc, d, n).Some?
    && (var e := Entry(img, t.alloc, d, n).value; !IsDot(e) && FirstCluster(e) == h && (IsDirectory(e) <==> h in t.dirs))
    && (h in t.dirs ==> Depth(t, d) < Depth(t, h))
  }

  /** `loose` holds the chains that no entry leads to: none between operations. */
  ghost predicate WellFormed(img: Image, t: Tree, clusterSize: nat, loose: set<nat>) {
    && Physical(img, t.alloc, clusterSize)
    && t.owner.Keys !! loose && t.alloc.chains.Keys == t.owner.Keys + loose
    && t.dirs <= t.owner.Keys
    && (forall d | IsDir(t, d) :: DirOk(SlotsOf(img, t.alloc, d)))
    && (forall d, n | IsDir(t, d) && Entry(img, t.alloc, d, n).Some? ::
          EntryOk(img, t, clusterSize, d, n, Entry(img, t.alloc, d, n).value))
    && (forall h | h in t.owner :: OwnerOk(img, t, h))
  }

  // ---------------------------------------------------------------- the file system that a volume stands for

  ghost function Content(img: Image, a: Allocation, e: Slot): seq<byte> {
    var b := ChainData(img, a, FirstCluster(e));
    if FileSize(e) <= |b| then b[..FileSize(e)] else b
  }

  /** The contents of the file `n` in directory `d`. */
  ghost function FileAt(img: Image, t: Tree, d: nat, n: ShortName): Option<seq<byte>> {
    if !IsDir(t, d) then None
    else match Entry(img, t.alloc, d, n)
      case None => None
      case Some(e) => if IsDirectory(e) then None else Some(Content(img, t.alloc, e))
  }

  /** The subdirectory `n` of directory `d`. */
  ghost function FolderAt(img: Image, t: Tree, d: nat, n: ShortName): Option<nat> {
    if !IsDir(t, d) then None
    else match Entry(img, t.alloc, d, n)
      case None => None
      case Some(e) => if IsDirectory(e) && !IsDot(e) then Some(FirstCluster(e)) else None
  }

  /** The attributes of the entry `n` of directory `d`. */
  ghost function AttrAt(img: Image, t: Tree, d: nat, n: ShortName): Option<byte> {
    if IsDir(t, d) && Entry(img, t.alloc, d, n).Some? then Some(Attr(Entry(img, t.alloc, d, n).value)) else None
  }

  /** The same directories, holding the same entries, and the same file contents. */
  ghost predicate SameFiles(img: Image, t: Tree, img': Image, t': Tree) {
    && t'.dirs == t.dirs
    && (forall d, n :: FileAt(img', t', d, n) == FileAt(img, t, d, n))
    && (forall d, n :: FolderAt(img', t', d, n) == FolderAt(img, t, d, n))
    && (forall d, n | IsDir(t, d) :: Entry(img', t'.alloc, d, n) == Entry(img, t.alloc, d, n))
  }

  lemma SameFilesJoin(img: Image, t: Tree, img': Image, t': Tree, img'': Image, t'': Tree)
    requires SameFiles(img, t, img', t') && SameFiles(img', t', img'', t'')
    ensures SameFiles(img, t, img'', t'')
  {
  }

  lemma SameFilesRefl(img: Image, t: Tree)
    ensures SameFiles(img, t, img, t)
  {
  }

  /** Nothing but chains that no entry leads to has moved: even the slots of every directory are the same. */
  ghost predicate Undisturbed(img: Image, t: Tree, img': Image, t': Tree) {
    && t' == t.(alloc := t'.alloc) && SameFiles(img, t, img', t')
    && (forall d | IsDir(t, d) :: SlotsOf(img', t'.alloc, d) == SlotsOf(img, t.alloc, d))
  }

  lemma UndisturbedJoin(img: Image, t: Tree, img': Image, t': Tree, img'': Image, t'': Tree)
    requires Undisturbed(img, t, img', t') && Undisturbed(img', t', img'', t'')
    ensures Undisturbed(img, t, img'', t'')
  {
  }

  lemma UndisturbedRefl(img: Image, t: Tree)
    ensures Undisturbed(img, t, img, t)
  {
  }

  lemma UndisturbedParts(img: Image, t: Tree, img': Image, t': Tree, d: nat)
    requires Undisturbed(img, t, img', t')
    ensures SameFiles(img, t, img', t') && t' == t.(alloc := t'.alloc)
    ensures IsDir(t, d) ==> SlotsOf(img', t'.alloc, d) == SlotsOf(img, t.alloc, d)
    ensures IsDir(t, d) ==> forall n :: Entry(img', t'.alloc, d, n) == Entry(img, t.alloc, d, n)
  {
  }

  // ---------------------------------------------------------------- frames

  lemma EntryIsOk(img: Image, t: Tree, cs: nat, loose: set<nat>, d: nat, n: ShortName)
    requires WellFormed(img, t, cs, loose) && IsDir(t, d) && Entry(img, t.alloc, d, n).Some?
    ensures EntryOk(img, t, cs, d, n, Entry(img, t.alloc, d, n).value)
  {
  }

  lemma NoChainNoData(img: Image, a: Allocation, h: nat)
    requires h !in a.chains
    ensures ChainData(img, a, h) == []
  {
  }

  lemma ZeroIsNoChain(img: Image, t: Tree, cs: nat, loose: set<nat>)
    requires WellFormed(img, t, cs, loose)
    ensures 0 !in t.alloc.chains && 0 !in t.dirs && ChainData(img, t.alloc, 0) == []
  {
    ChainsInRange(img.fat, t.alloc);
  }

  /** `img'` with allocation `a'` shows the same entries and the same file data as `img` with tree `t`. */
  ghost predicate LooksAlike(img: Image, t: Tree, img': Image, a': Allocation) {
    && (forall d | IsDir(t, d) :: DirOk(SlotsOf(img', a', d)))
    && (forall d, n | IsDir(t, d) :: Entry(img', a', d, n) == Entry(img, t.alloc, d, n))
    && (forall h | h in t.owner && h !in t.dirs :: ChainData(img', a', h) == ChainData(img, t.alloc, h))
  }

  /** Everything but the chains themselves only depends on what the directories show. */
  lemma WellFormedFrame(img: Image, t: Tree, cs: nat, loose: set<nat>, img': Image, a': Allocation, loose': set<nat>)
    requires WellFormed(img, t, cs, loose) && Physical(img', a', cs) && LooksAlike(img, t, img', a')
    requires t.owner.Keys !! loose' && a'.chains.Keys == t.owner.Keys + loose'
    ensures WellFormed(img', t.(alloc := a'), cs, loose')
    ensures SameFiles(img, t, img', t.(alloc := a'))
  {
    hide Partition, Lookup, Slots, DirOk, FileAt, FolderAt, AttrAt, ChainData, EntryOk, FirstCluster, IsDirectory, IsDot, SlotsOf,
         DirBytes, Entry;
    ChainsInRange(img'.fat, a');
    FilesFrame(img, t, cs, loose, img', a');
    var t' := t.(alloc := a');
    forall d, n | IsDir(t', d) && Entry(img', a', d, n).Some?
      ensures EntryOk(img', t', cs, d, n, Entry(img', a', d, n).value)
    {
      EntryFrame(img, t, cs, loose, img', a', d, n);
    }
    forall h | h in t'.owner ensures OwnerOk(img', t', h) {
      assert OwnerOk(img, t, h);
      var (d, n) := t.owner[h];
      assert Entry(img', a', d, n) == Entry(img, t.alloc, d, n);
    }
  }

  lemma EntryFrame(img: Image, t: Tree, cs: nat, loose: set<nat>, img': Image, a': Allocation, d: nat, n: ShortName)
    requires WellFormed(img, t, cs, loose) && LooksAlike(img, t, img', a')
    requires IsDir(t, d) && Entry(img', a', d, n).Some?
    ensures EntryOk(img', t.(alloc := a'), cs, d, n, Entry(img', a', d, n).value)
  {
    assert Entry(img', a', d, n) == Entry(img, t.alloc, d, n);
    assert EntryOk(img, t, cs, d, n, Entry(img, t.alloc, d, n).value);
  }

  lemma FileFrame(img: Image, t: Tree, cs: nat, loose: set<nat>, img': Image, a': Allocation, d: nat, n: ShortName)
    requires WellFormed(img, t, cs, loose) && LooksAlike(img, t, img', a') && 0 !in a'.chains
    ensures FileAt(img', t.(alloc := a'), d, n) == FileAt(img, t, d, n)
    ensures FolderAt(img', t.(alloc := a'), d, n) == FolderAt(img, t, d, n)
  {
    hide Slots, ChainData, WellFormed;
    ZeroIsNoChain(img, t, cs, loose);
    NoChainNoData(img', a', 0);
    if IsDir(t, d) {
      assert Entry(img', a', d, n) == Entry(img, t.alloc, d, n);
      if Entry(img, t.alloc, d, n).Some? {
        EntryIsOk(img, t, cs, loose, d, n);
      }
    }
  }

  lemma FilesFrame(img: Image, t: Tree, cs: nat, loose: set<nat>, img': Image, a': Allocation)
    requires WellFormed(img, t, cs, loose) && LooksAlike(img, t, img', a') && 0 !in a'.chains
    ensures SameFiles(img, t, img', t.(alloc := a'))
  {
    forall d, n
      ensures FileAt(img', t.(alloc := a'), d, n) == FileAt(img, t, d, n)
      ensures FolderAt(img', t.(alloc := a'), d, n) == FolderAt(img, t, d, n)
    {
      FileFrame(img, t, cs, loose, img', a', d, n);
    }
  }

  // ---------------------------------------------------------------- steps that leave every directory as it is

  /** Every cluster of every chain that an entry owns holds the same bytes. */
  ghost predicate OwnedDataSame(img: Image, t: Tree, img': Image) {
    && |img'.data| == |img.data| && img'.root == img.root
    && (forall h, i | h in t.owner && h in t.alloc.chains && 0 <= i < |t.alloc.chains[h]| && t.alloc.chains[h][i] < |img.data| ::
          img'.data[t.alloc.chains[h][i]] == img.data[t.alloc.chains[h][i]])
  }

  lemma ChainDataSame(img: Image, t: Tree, img': Image, a': Allocation, h: nat)
    requires OwnedDataSame(img, t, img') && h in t.owner
    requires h in t.alloc.chains <==> h in a'.chains
    requires h in a'.chains ==> a'.chains[h] == t.alloc.chains[h]
    ensures ChainData(img', a', h) == ChainData(img, t.alloc, h)
  {
    if h in a'.chains && InRange(img.data, a'.chains[h]) {
      ChainBytesFrame(img.data, img'.data, a'.chains[h]);
    }
  }

  lemma AlikeByData(img: Image, t: Tree, cs: nat, loose: set<nat>, img': Image, a': Allocation)
    requires WellFormed(img, t, cs, loose) && img'.root == img.root
    requires forall h | h in t.owner :: ChainData(img', a', h) == ChainData(img, t.alloc, h)
    ensures LooksAlike(img, t, img', a')
    ensures forall d | IsDir(t, d) :: SlotsOf(img', a', d) == SlotsOf(img, t.alloc, d)
  {
    assert forall d | IsDir(t, d) :: SlotsOf(img', a', d) == SlotsOf(img, t.alloc, d);
  }

  /** Owned chains and their data unchanged: then only the bookkeeping of loose chains has moved. */
  lemma LooseStep(img: Image, t: Tree, cs: nat, loose: set<nat>, img': Image, a': Allocation, loose': set<nat>)
    requires WellFormed(img, t, cs, loose) && Physical(img', a', cs) && OwnedDataSame(img, t, img')
    requires forall h | h in t.owner :: h in a'.chains && a'.chains[h] == t.alloc.chains[h]
    requires t.owner.Keys !! loose' && a'.chains.Keys == t.owner.Keys + loose'
    ensures WellFormed(img', t.(alloc := a'), cs, loose')
    ensures Undisturbed(img, t, img', t.(alloc := a'))
  {
    hide Partition;
    assert img'.root == img.root by { RootSame(img, t, img'); }
    forall h | h in t.owner ensures ChainData(img', a', h) == ChainData(img, t.alloc, h) {
      ChainDataSame(img, t, img', a', h);
    }
    AlikeByData(img, t, cs, loose, img', a');
    WellFormedFrame(img, t, cs, loose, img', a', loose');
  }

  lemma RootSame(img: Image, t: Tree, img': Image)
    requires OwnedDataSame(img, t, img')
    ensures img'.root == img.root
  {
  }

  /** The bytes of the clusters in `free` are all that differs, and no entry's chain holds one of them. */
  ghost predicate OnlyDiffersAt(img: Image, img': Image, changed: set<nat>) {
    && |img'.data| == |img.data| && img'.root == img.root
    && (forall c | 0 <= c < |img.data| && c !in changed :: img'.data[c] == img.data[c])
  }

  ghost predicate Unowned(t: Tree, c: nat) {
    c in t.alloc.at ==> t.alloc.at[c].0 !in t.owner
  }

  lemma OwnedDataSameFrom(img: Image, t: Tree, img': Image, changed: set<nat>)
    requires Partition(img.fat, t.alloc) && OnlyDiffersAt(img, img', changed)
    requires forall c | c in changed :: Unowned(t, c)
    ensures OwnedDataSame(img, t, img')
  {
    forall h, i | h in t.owner && h in t.alloc.chains && 0 <= i < |t.alloc.chains[h]| && t.alloc.chains[h][i] < |img.data|
      ensures img'.data[t.alloc.chains[h][i]] == img.data[t.alloc.chains[h][i]]
    {
      assert Owns(img.fat, t.alloc, h);
      assert t.alloc.at[t.alloc.chains[h][i]] == (h, i);
    }
  }

  /** Bytes of clusters that no entry leads to may change freely. */
  lemma ScratchStep(img: Image, t: Tree, cs: nat, loose: set<nat>, img': Image, changed: set<nat>)
    requires WellFormed(img, t, cs, loose) && img'.fat == img.fat && OnlyDiffersAt(img, img', changed)
    requires forall c | c in changed :: Unowned(t, c)
    requires forall c | 2 <= c < |img.fat| && c in changed :: |img'.data[c]| == cs
    ensures WellFormed(img', t, cs, loose) && Undisturbed(img, t, img', t)
  {
    OwnedDataSameFrom(img, t, img', changed);
    LooseStep(img, t, cs, loose, img', t.alloc, loose);
    assert t.(alloc := t.alloc) == t;
  }

  /** fat12_allocate_cluster took the free cluster `c` and wrote it. */
  lemma AllocateStep(img: Image, t: Tree, cs: nat, loose: set<nat>, img': Image, c: nat)
    requires WellFormed(img, t, cs, loose) && 2 <= c < |img.fat| && img.fat[c] == FREE
    requires img'.fat == img.fat[c := EOC] && OnlyDiffersAt(img, img', {c}) && |img'.data[c]| == cs
    ensures c !in loose && c !in t.owner && c !in t.alloc.chains
    ensures WellFormed(img', t.(alloc := WithNew(t.alloc, c)), cs, loose + {c})
    ensures Undisturbed(img, t, img', t.(alloc := WithNew(t.alloc, c)))
  {
    hide Partition, OwnerOk;
    FreeClusterIsUnowned(img.fat, t.alloc, c);
    AllocateKeepsPartition(img.fat, t.alloc, c);
    OwnedDataSameFrom(img, t, img', {c});
    LooseStep(img, t, cs, loose, img', WithNew(t.alloc, c), loose + {c});
  }

  ghost function LastOf(a: Allocation, h: nat): nat
    requires h in a.chains && |a.chains[h]| > 0
  {
    a.chains[h][|a.chains[h]| - 1]
  }

  /** The loose cluster `c` was linked to the end of the loose chain `h`. */
  lemma LinkStep(img: Image, t: Tree, cs: nat, loose: set<nat>, img': Image, h: nat, c: nat)
    requires WellFormed(img, t, cs, loose) && h in loose && c in loose && h != c && t.alloc.chains[c] == [c]
    requires |t.alloc.chains[h]| > 0 && LastOf(t.alloc, h) < |img.fat|
    requires img' == img.(fat := img.fat[LastOf(t.alloc, h) := c])
    ensures WellFormed(img', t.(alloc := WithLink(t.alloc, h, c)), cs, loose - {c})
    ensures Undisturbed(img, t, img', t.(alloc := WithLink(t.alloc, h, c)))
  {
    hide Partition, OwnerOk;
    LinkKeepsPartition(img.fat, t.alloc, h, c);
    assert OnlyDiffersAt(img, img', {});
    OwnedDataSameFrom(img, t, img', {});
    LooseStep(img, t, cs, loose, img', WithLink(t.alloc, h, c), loose - {c});
  }

  /** A loose chain was freed. */
  lemma FreeStep(img: Image, t: Tree, cs: nat, loose: set<nat>, img': Image, h: nat)
    requires WellFormed(img, t, cs, loose) && h in loose
    requires img' == img.(fat := Zeroed(img.fat, t.alloc.chains[h]))
    ensures WellFormed(img', t.(alloc := Without(t.alloc, h)), cs, loose - {h})
    ensures Undisturbed(img, t, img', t.(alloc := Without(t.alloc, h)))
  {
    hide Partition, OwnerOk;
    FreeKeepsPartition(img.fat, t.alloc, h);
    assert OnlyDiffersAt(img, img', {});
    OwnedDataSameFrom(img, t, img', {});
    LooseStep(img, t, cs, loose, img', Without(t.alloc, h), loose - {h});
  }
}
