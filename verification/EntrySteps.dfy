/** What writing one directory entry, or growing a directory by a cluster, does to the file system. */
module EntrySteps {
  import opened Bytes
  import opened Chains
  import opened Contents
  import opened Directories
  import opened ShortNames
  import opened Volumes

  // ---------------------------------------------------------------- where an entry is stored

  /** fat12_write_entry: the image with the entry stored at slot `idx` of cluster `oc`, or of the root for 0. */
  ghost function Stored(img: Image, oc: nat, idx: nat, e: Slot): Image {
    if oc == 0 then
      if SLOT_SIZE * idx + SLOT_SIZE <= |img.root| then img.(root := Splice(img.root, SLOT_SIZE * idx, e)) else img
    else
      if oc < |img.data| && SLOT_SIZE * idx + SLOT_SIZE <= |img.data[oc]| then
        img.(data := img.data[oc := Splice(img.data[oc], SLOT_SIZE * idx, e)])
      else img
  }

  /** Slot `i` of directory `d` is slot `idx` of its j-th cluster `oc`; the root has no clusters. */
  ghost predicate Located(img: Image, a: Allocation, d: nat, i: nat, oc: nat, idx: nat, j: nat) {
    if d == 0 then
      oc == 0 && idx == i && SLOT_SIZE * i + SLOT_SIZE <= |img.root|
    else
      && d in a.chains && InRange(img.data, a.chains[d]) && j < |a.chains[d]| && oc == a.chains[d][j] && oc != 0
      && SLOT_SIZE * idx + SLOT_SIZE <= |img.data[oc]|
      && SLOT_SIZE * i == Offset(img.data, a.chains[d], j) + SLOT_SIZE * idx
  }

  /** `img'` is `img` with slot `i` of directory `d` replaced, and nothing else changed. */
  ghost predicate SlotChanged(img: Image, a: Allocation, img': Image, cs: nat, d: nat, i: nat, e: Slot) {
    && Physical(img', a, cs) && img'.fat == img.fat
    && i < |SlotsOf(img, a, d)| && SlotsOf(img', a, d) == SlotsOf(img, a, d)[i := e]
    && (d != 0 ==> img'.root == img.root)
    && (forall h | h in a.chains && h != d :: ChainData(img', a, h) == ChainData(img, a, h))
  }

  lemma StoredInRoot(img: Image, a: Allocation, cs: nat, i: nat, e: Slot)
    requires Physical(img, a, cs) && SLOT_SIZE * i + SLOT_SIZE <= |img.root|
    ensures SlotChanged(img, a, Stored(img, 0, i, e), cs, 0, i, e)
  {
    SlotsSplice(img.root, i, e);
  }

  lemma OtherChainsMiss(img: Image, a: Allocation, d: nat, j: nat, h: nat)
    requires Partition(img.fat, a) && d in a.chains && h in a.chains && h != d && j < |a.chains[d]|
    ensures a.chains[d][j] !in a.chains[h]
  {
    forall i | 0 <= i < |a.chains[h]| ensures a.chains[h][i] != a.chains[d][j] {
      ChainsAreDisjoint(img.fat, a, d, j, h, i);
    }
  }

  lemma OwnClustersDiffer(img: Image, a: Allocation, d: nat, j: nat)
    requires Partition(img.fat, a) && d in a.chains && j < |a.chains[d]|
    ensures forall i | 0 <= i < |a.chains[d]| && i != j :: a.chains[d][i] != a.chains[d][j]
  {
    ChainIsDistinct(img.fat, a, d);
  }

  lemma StoredInCluster(img: Image, a: Allocation, cs: nat, d: nat, i: nat, oc: nat, idx: nat, j: nat, e: Slot)
    requires Physical(img, a, cs) && d != 0 && Located(img, a, d, i, oc, idx, j)
    ensures i < |SlotsOf(img, a, d)|
    ensures SlotsOf(Stored(img, oc, idx, e), a, d) == SlotsOf(img, a, d)[i := e]
  {
    hide Partition, ChainBytes;
    var img' := Stored(img, oc, idx, e);
    var s := a.chains[d];
    OwnClustersDiffer(img, a, d, j);
    assert Patched(img.data, img'.data, s, j, SLOT_SIZE * idx, e);
    ChainBytesPatch(img.data, img'.data, s, j, SLOT_SIZE * idx, e);
    SlotsSplice(ChainBytes(img.data, s), i, e);
    SlotsOfChain(img, a, d);
    SlotsOfChain(img', a, d);
  }

  lemma SlotsOfChain(img: Image, a: Allocation, d: nat)
    requires d != 0 && d in a.chains && InRange(img.data, a.chains[d])
    ensures SlotsOf(img, a, d) == Slots(ChainBytes(img.data, a.chains[d]))
  {
  }

  /** Writing an entry at a location changes that slot of that directory only. */
  lemma StoredChangesSlot(img: Image, a: Allocation, cs: nat, d: nat, i: nat, oc: nat, idx: nat, j: nat, e: Slot)
    requires Physical(img, a, cs) && Located(img, a, d, i, oc, idx, j)
    ensures SlotChanged(img, a, Stored(img, oc, idx, e), cs, d, i, e)
  {
    hide Partition;
    if d == 0 {
      StoredInRoot(img, a, cs, i, e);
    } else {
      StoredInCluster(img, a, cs, d, i, oc, idx, j, e);
      var img' := Stored(img, oc, idx, e);
      forall h | h in a.chains && h != d ensures ChainData(img', a, h) == ChainData(img, a, h) {
        OtherChainsMiss(img, a, d, j, h);
        OtherChainSame(img, img', a, oc, h);
      }
    }
  }

  lemma OtherChainSame(img: Image, img': Image, a: Allocation, oc: nat, h: nat)
    requires h in a.chains && oc !in a.chains[h] && |img'.data| == |img.data|
    requires forall c | 0 <= c < |img.data| && c != oc :: img'.data[c] == img.data[c]
    ensures ChainData(img', a, h) == ChainData(img, a, h)
  {
    if InRange(img.data, a.chains[h]) {
      ChainBytesFrame(img.data, img'.data, a.chains[h]);
    }
  }

  // ---------------------------------------------------------------- the effect on entries

  /** Every directory is well formed, `n` in `d` now names `now`, and every other name names what it did. */
  ghost predicate EntryChanged(img: Image, t: Tree, img': Image, cs: nat, d: nat, n: ShortName, now: Option<Slot>) {
    && Physical(img', t.alloc, cs)
    && (forall x | IsDir(t, x) :: DirOk(SlotsOf(img', t.alloc, x)))
    && (forall x, m | IsDir(t, x) ::
          Entry(img', t.alloc, x, m) == if x == d && m == n then now else Entry(img, t.alloc, x, m))
    && (forall h | h in t.alloc.chains && h !in t.dirs :: ChainData(img', t.alloc, h) == ChainData(img, t.alloc, h))
  }

  lemma SlotChangedElsewhere(img: Image, a: Allocation, img': Image, cs: nat, d: nat, i: nat, e: Slot, x: nat)
    requires SlotChanged(img, a, img', cs, d, i, e) && x != d && (x == 0 || x in a.chains)
    ensures SlotsOf(img', a, x) == SlotsOf(img, a, x)
  {
  }

  lemma StoreChangesEntry(img: Image, t: Tree, cs: nat, loose: set<nat>, img': Image, d: nat, i: nat, e: Slot)
    requires WellFormed(img, t, cs, loose) && IsDir(t, d) && SlotChanged(img, t.alloc, img', cs, d, i, e)
    requires !IsFree(e) && IsPlaceFor(SlotsOf(img, t.alloc, d), Name(e), i)
    ensures EntryChanged(img, t, img', cs, d, Name(e), Some(e))
  {
    hide Partition, OwnerOk;
    StoreKeepsDirOk(SlotsOf(img, t.alloc, d), e, i);
    forall x | IsDir(t, x) ensures DirOk(SlotsOf(img', t.alloc, x)) {
      if x != d { SlotChangedElsewhere(img, t.alloc, img', cs, d, i, e, x); }
    }
    forall x, m | IsDir(t, x)
      ensures Entry(img', t.alloc, x, m) == if x == d && m == Name(e) then Some(e) else Entry(img, t.alloc, x, m)
    {
      if x == d {
        StoreUpdatesLookup(SlotsOf(img, t.alloc, d), e, i, m);
      } else {
        SlotChangedElsewhere(img, t.alloc, img', cs, d, i, e, x);
      }
    }
    ZeroIsNoChain(img, t, cs, loose);
  }

  lemma EraseChangesEntry(img: Image, t: Tree, cs: nat, loose: set<nat>, img': Image, d: nat, n: ShortName, i: nat, e: Slot)
    requires WellFormed(img, t, cs, loose) && IsDir(t, d) && SlotChanged(img, t.alloc, img', cs, d, i, e)
    requires e[0] == DELETED_MARK && IsAt(SlotsOf(img, t.alloc, d), n, i)
    ensures EntryChanged(img, t, img', cs, d, n, None)
  {
    hide Partition, OwnerOk;
    forall x | IsDir(t, x) ensures DirOk(SlotsOf(img', t.alloc, x)) {
      if x != d {
        SlotChangedElsewhere(img, t.alloc, img', cs, d, i, e, x);
      } else {
        EraseUpdatesLookup(SlotsOf(img, t.alloc, d), n, e, i, n);
      }
    }
    forall x, m | IsDir(t, x)
      ensures Entry(img', t.alloc, x, m) == if x == d && m == n then None else Entry(img, t.alloc, x, m)
    {
      if x == d {
        EraseUpdatesLookup(SlotsOf(img, t.alloc, d), n, e, i, m);
      } else {
        SlotChangedElsewhere(img, t.alloc, img', cs, d, i, e, x);
      }
    }
    ZeroIsNoChain(img, t, cs, loose);
  }

  // ---------------------------------------------------------------- file entries come and go

  /** The chain that a file entry leads to, if it has one. */
  ghost function Heads(e: Option<Slot>): set<nat> {
    if e.Some? && FileSize(e.value) > 0 then {FirstCluster(e.value)} else {}
  }

  ghost predicate NoFolder(e: Option<Slot>) {
    e.Some? ==> !IsDirectory(e.value)
  }

  /** The entry is for an empty file or leads to a loose chain of the right length. */
  ghost predicate ReadyFile(img: Image, t: Tree, cs: nat, loose: set<nat>, e: Slot) {
    && Attr(e) == ATTR_ARCHIVE && !IsDirectory(e)
    && (FileSize(e) == 0 ==> FirstCluster(e) == 0)
    && (FileSize(e) > 0 ==>
          FirstCluster(e) in loose && FileSize(e) <= |ChainData(img, t.alloc, FirstCluster(e))| < FileSize(e) + cs)
  }

  ghost function Owners(t: Tree, d: nat, n: ShortName, was: Option<Slot>, now: Option<Slot>): map<nat, (nat, ShortName)> {
    (t.owner - Heads(was)) + map h | h in Heads(now) :: (d, n)
  }

  /** Only the entry's own name owns its chain. */
  lemma HeadsOwnedHere(img: Image, t: Tree, cs: nat, loose: set<nat>, d: nat, n: ShortName)
    requires WellFormed(img, t, cs, loose) && IsDir(t, d) && NoFolder(Entry(img, t.alloc, d, n))
    ensures forall h | h in t.owner :: h in Heads(Entry(img, t.alloc, d, n)) <==> t.owner[h] == (d, n)
    ensures Heads(Entry(img, t.alloc, d, n)) <= t.owner.Keys - t.dirs
  {
    hide FirstCluster, IsDirectory, IsDot, Physical, Entry;
    var was := Entry(img, t.alloc, d, n);
    if was.Some? {
      EntryIsOk(img, t, cs, loose, d, n);
      DotsAreFolders(was.value);
    }
    ZeroIsNoChain(img, t, cs, loose);
    forall h | h in t.owner ensures h in Heads(was) <==> t.owner[h] == (d, n) {
      assert OwnerOk(img, t, h);
      assert h in t.alloc.chains;
    }
  }

  lemma DotsAreFolders(e: Slot)
    ensures IsDot(e) ==> IsDirectory(e)
  {
  }

  /** A file entry replaced, added or removed: the tree follows, and the chain it used to lead to is loose. */
  lemma FileEntryStep(img: Image, t: Tree, cs: nat, loose: set<nat>, img': Image, d: nat, n: ShortName, now: Option<Slot>)
    requires WellFormed(img, t, cs, loose) && IsDir(t, d) && EntryChanged(img, t, img', cs, d, n, now)
    requires NoFolder(Entry(img, t.alloc, d, n)) && (now.Some? ==> ReadyFile(img, t, cs, loose, now.value))
    ensures var was := Entry(img, t.alloc, d, n);
            WellFormed(img', t.(owner := Owners(t, d, n, was, now)), cs, loose - Heads(now) + Heads(was))
  {
    hide SlotsOf, IsDirectory, Physical, Entry, EntryOk, OwnerOk, Heads, EntryChanged, ReadyFile;
    var was := Entry(img, t.alloc, d, n);
    var t' := t.(owner := Owners(t, d, n, was, now));
    var loose' := loose - Heads(now) + Heads(was);
    HeadsOwnedHere(img, t, cs, loose, d, n);
    HeadsAreLoose(img, t, cs, loose, now);
    assert t'.alloc.chains.Keys == t'.owner.Keys + loose';
    forall x, m | IsDir(t', x) && Entry(img', t'.alloc, x, m).Some?
      ensures EntryOk(img', t', cs, x, m, Entry(img', t'.alloc, x, m).value)
    {
      EntryOkAfter(img, t, cs, loose, img', d, n, now, x, m);
    }
    forall h | h in t'.owner ensures OwnerOk(img', t', h) {
      OwnerOkAfter(img, t, cs, loose, img', d, n, now, h);
    }
    EntryChangedParts(img, t, img', cs, d, n, now);
  }

  lemma EntryChangedParts(img: Image, t: Tree, img': Image, cs: nat, d: nat, n: ShortName, now: Option<Slot>)
    requires EntryChanged(img, t, img', cs, d, n, now)
    ensures Physical(img', t.alloc, cs) && forall x | IsDir(t, x) :: DirOk(SlotsOf(img', t.alloc, x))
  {
  }

  lemma HeadsAreLoose(img: Image, t: Tree, cs: nat, loose: set<nat>, now: Option<Slot>)
    requires now.Some? ==> ReadyFile(img, t, cs, loose, now.value)
    ensures Heads(now) <= loose
  {
  }

  lemma EntryOkAfter(img: Image, t: Tree, cs: nat, loose: set<nat>, img': Image, d: nat, n: ShortName, now: Option<Slot>,
                     x: nat, m: ShortName)
    requires WellFormed(img, t, cs, loose) && IsDir(t, d) && EntryChanged(img, t, img', cs, d, n, now)
    requires NoFolder(Entry(img, t.alloc, d, n)) && (now.Some? ==> ReadyFile(img, t, cs, loose, now.value))
    requires IsDir(t, x) && Entry(img', t.alloc, x, m).Some?
    ensures var t' := t.(owner := Owners(t, d, n, Entry(img, t.alloc, d, n), now));
            EntryOk(img', t', cs, x, m, Entry(img', t.alloc, x, m).value)
  {
    hide SlotsOf, ChainData, IsDirectory, Physical, OwnerOk;
    HeadsOwnedHere(img, t, cs, loose, d, n);
    HeadsAreLoose(img, t, cs, loose, now);
    var e := Entry(img', t.alloc, x, m).value;
    DotsAreFolders(e);
    if x == d && m == n {
      assert Some(e) == now;
      assert t.dirs <= t.owner.Keys;
    } else {
      assert Entry(img, t.alloc, x, m) == Some(e);
      EntryIsOk(img, t, cs, loose, x, m);
    }
  }

  lemma OwnerOkAfter(img: Image, t: Tree, cs: nat, loose: set<nat>, img': Image, d: nat, n: ShortName, now: Option<Slot>,
                     h: nat)
    requires WellFormed(img, t, cs, loose) && IsDir(t, d) && EntryChanged(img, t, img', cs, d, n, now)
    requires NoFolder(Entry(img, t.alloc, d, n)) && (now.Some? ==> ReadyFile(img, t, cs, loose, now.value))
    requires h in Owners(t, d, n, Entry(img, t.alloc, d, n), now)
    ensures OwnerOk(img', t.(owner := Owners(t, d, n, Entry(img, t.alloc, d, n), now)), h)
  {
    hide SlotsOf, DirOk, FirstCluster, IsDirectory, IsDot, Physical, Entry, EntryOk;
    HeadsOwnedHere(img, t, cs, loose, d, n);
    HeadsAreLoose(img, t, cs, loose, now);
    if h in Heads(now) {
      assert Entry(img', t.alloc, d, n) == now;
      DotsAreFolders(now.value);
    } else {
      assert OwnerOk(img, t, h);
      var (x, m) := t.owner[h];
      assert Entry(img', t.alloc, x, m) == Entry(img, t.alloc, x, m);
    }
  }

  /** What that does to the files: this name's content changes, no other file and no directory does. */
  lemma FileEntryEffect(img: Image, t: Tree, cs: nat, loose: set<nat>, img': Image, d: nat, n: ShortName, now: Option<Slot>,
                        x: nat, m: ShortName)
    requires WellFormed(img, t, cs, loose) && IsDir(t, d) && EntryChanged(img, t, img', cs, d, n, now)
    requires NoFolder(Entry(img, t.alloc, d, n)) && (now.Some? ==> ReadyFile(img, t, cs, loose, now.value))
    ensures var t' := t.(owner := Owners(t, d, n, Entry(img, t.alloc, d, n), now));
            && FileAt(img', t', x, m) ==
                 (if x == d && m == n then (if now.Some? then Some(Content(img, t.alloc, now.value)) else None)
                  else FileAt(img, t, x, m))
            && FolderAt(img', t', x, m) == FolderAt(img, t, x, m)
            && AttrAt(img', t', x, m) ==
                 if x == d && m == n then (if now.Some? then Some(0x20) else None) else AttrAt(img, t, x, m)
  {
    hide Partition, SlotsOf, DirOk, ChainData, FileSize, IsDirectory, Physical, Entry, OwnerOk;
    ZeroIsNoChain(img, t, cs, loose);
    NoChainNoData(img', t.alloc, 0);
    if IsDir(t, x) {
      assert Entry(img', t.alloc, x, m) == if x == d && m == n then now else Entry(img, t.alloc, x, m);
      if Entry(img, t.alloc, x, m).Some? {
        EntryIsOk(img, t, cs, loose, x, m);
        DotsAreFolders(Entry(img, t.alloc, x, m).value);
      }
      if now.Some? { DotsAreFolders(now.value); }
    }
  }

  // ---------------------------------------------------------------- a directory entry is added

  ghost function DotName(): ShortName {
    Pad([DOT], 11)
  }

  ghost function DotDotName(): ShortName {
    Pad([DOT, DOT], 11)
  }

  ghost predicate LeadsTo(entry: Option<Slot>, c: nat) {
    entry.Some? && IsDirectory(entry.value) && FirstCluster(entry.value) == c
  }

  /** `.` in directory `h` leads to itself and `..` to `parent`, which is 0 for the root. */
  ghost predicate Links(img: Image, a: Allocation, h: nat, parent: nat) {
    LeadsTo(Entry(img, a, h, DotName()), h) && LeadsTo(Entry(img, a, h, DotDotName()), parent)
  }

  /** The loose chain `h` holds a new directory: dot entries and never-used slots. */
  ghost predicate FreshFolder(img: Image, a: Allocation, h: nat, parent: nat) {
    && DirOk(SlotsOf(img, a, h)) && Links(img, a, h, parent)
    && (forall m | Entry(img, a, h, m).Some? :: IsDot(Entry(img, a, h, m).value))
  }

  ghost function WithFolder(t: Tree, d: nat, n: ShortName, h: nat): Tree {
    t.(dirs := t.dirs + {h}, owner := t.owner[h := (d, n)], depth := t.depth[h := Depth(t, d) + 1])
  }

  lemma FolderSlotsKept(img: Image, t: Tree, cs: nat, loose: set<nat>, img': Image, d: nat, n: ShortName, now: Option<Slot>,
                        h: nat)
    requires WellFormed(img, t, cs, loose) && EntryChanged(img, t, img', cs, d, n, now) && h in loose
    ensures SlotsOf(img', t.alloc, h) == SlotsOf(img, t.alloc, h) && h != 0 && !IsDir(t, h)
    ensures forall p | FreshFolder(img, t.alloc, h, p) :: FreshFolder(img', t.alloc, h, p)
  {
    ZeroIsNoChain(img, t, cs, loose);
    assert forall m :: Entry(img', t.alloc, h, m) == Entry(img, t.alloc, h, m);
  }

  ghost predicate FolderAdded(img: Image, t: Tree, cs: nat, loose: set<nat>, img': Image, d: nat, n: ShortName, e: Slot) {
    && WellFormed(img, t, cs, loose) && IsDir(t, d) && EntryChanged(img, t, img', cs, d, n, Some(e))
    && Entry(img, t.alloc, d, n) == None
    && Attr(e) == ATTR_DIRECTORY && IsDirectory(e) && !IsDot(e) && FirstCluster(e) in loose && FreshFolder(img, t.alloc, FirstCluster(e), d)
  }

  lemma FolderEntryOkAfter(img: Image, t: Tree, cs: nat, loose: set<nat>, img': Image, d: nat, n: ShortName, e: Slot,
                           x: nat, m: ShortName)
    requires FolderAdded(img, t, cs, loose, img', d, n, e)
    requires IsDir(WithFolder(t, d, n, FirstCluster(e)), x) && Entry(img', t.alloc, x, m).Some?
    ensures EntryOk(img', WithFolder(t, d, n, FirstCluster(e)), cs, x, m, Entry(img', t.alloc, x, m).value)
  {
    hide ChainData, FirstCluster, IsDirectory, IsDot, Physical, Entry, OwnerOk;
    var h := FirstCluster(e);
    FolderSlotsKept(img, t, cs, loose, img', d, n, Some(e), h);
    if x != h && !(x == d && m == n) {
      assert Entry(img', t.alloc, x, m) == Entry(img, t.alloc, x, m);
      EntryIsOk(img, t, cs, loose, x, m);
    }
  }

  lemma FolderOwnerOkAfter(img: Image, t: Tree, cs: nat, loose: set<nat>, img': Image, d: nat, n: ShortName, e: Slot, k: nat)
    requires FolderAdded(img, t, cs, loose, img', d, n, e)
    requires k in WithFolder(t, d, n, FirstCluster(e)).owner
    ensures OwnerOk(img', WithFolder(t, d, n, FirstCluster(e)), k)
  {
    hide Slots, SlotsOf, DirOk, Lookup, ChainData, FirstCluster, FileSize, IsDirectory, IsDot, Physical, Entry, EntryOk;
    var h := FirstCluster(e);
    FolderSlotsKept(img, t, cs, loose, img', d, n, Some(e), h);
    if k == h {
      assert Entry(img', t.alloc, d, n) == Some(e);
    } else {
      assert OwnerOk(img, t, k);
      var (x, m) := t.owner[k];
      assert Entry(img', t.alloc, x, m) == Entry(img, t.alloc, x, m);
    }
  }

  /** A new directory: its chain is owned, and it joins the tree below its parent. */
  lemma FolderEntryStep(img: Image, t: Tree, cs: nat, loose: set<nat>, img': Image, d: nat, n: ShortName, e: Slot)
    requires FolderAdded(img, t, cs, loose, img', d, n, e)
    ensures WellFormed(img', WithFolder(t, d, n, FirstCluster(e)), cs, loose - {FirstCluster(e)})
  {
    hide FirstCluster, Physical, OwnerOk, EntryChanged;
    var h := FirstCluster(e);
    var t' := WithFolder(t, d, n, h);
    FolderSlotsKept(img, t, cs, loose, img', d, n, Some(e), h);
    EntryChangedParts(img, t, img', cs, d, n, Some(e));
    forall x, m | IsDir(t', x) && Entry(img', t'.alloc, x, m).Some?
      ensures EntryOk(img', t', cs, x, m, Entry(img', t'.alloc, x, m).value)
    {
      FolderEntryOkAfter(img, t, cs, loose, img', d, n, e, x, m);
    }
    forall k | k in t'.owner ensures OwnerOk(img', t', k) {
      FolderOwnerOkAfter(img, t, cs, loose, img', d, n, e, k);
    }
  }

  /** No file changes, and the directory tree gains exactly the new directory. */
  lemma FolderEntryEffect(img: Image, t: Tree, cs: nat, loose: set<nat>, img': Image, d: nat, n: ShortName, e: Slot,
                          x: nat, m: ShortName)
    requires FolderAdded(img, t, cs, loose, img', d, n, e)
    ensures var t' := WithFolder(t, d, n, FirstCluster(e));
            && FileAt(img', t', x, m) == FileAt(img, t, x, m)
            && FolderAt(img', t', x, m) == (if x == d && m == n then Some(FirstCluster(e)) else FolderAt(img, t, x, m))
            && (x != FirstCluster(e) ==>
                  AttrAt(img', t', x, m) == if x == d && m == n then Some(0x10) else AttrAt(img, t, x, m))
  {
    hide Partition, SlotsOf, DirOk, ChainData, FileSize, IsDirectory, Physical, Entry, OwnerOk;
    ZeroIsNoChain(img, t, cs, loose);
    NoChainNoData(img', t.alloc, 0);
    var h := FirstCluster(e);
    FolderSlotsKept(img, t, cs, loose, img', d, n, Some(e), h);
    if IsDir(t, x) {
      assert Entry(img', t.alloc, x, m) == if x == d && m == n then Some(e) else Entry(img, t.alloc, x, m);
      if Entry(img, t.alloc, x, m).Some? {
        EntryIsOk(img, t, cs, loose, x, m);
        DotsAreFolders(Entry(img, t.alloc, x, m).value);
      }
    } else if x == h && Entry(img', t.alloc, x, m).Some? {
      DotsAreFolders(Entry(img', t.alloc, x, m).value);
    }
  }

  // ---------------------------------------------------------------- a directory grows by a cluster

  lemma {:induction false} ChainBytesWhole(data: Data, s: seq<nat>, cs: nat)
    requires InRange(data, s) && AllSized(data, s, cs) && cs % SLOT_SIZE == 0
    ensures |ChainBytes(data, s)| % SLOT_SIZE == 0
  {
    if s != [] {
      ChainBytesWhole(data, s[..|s| - 1], cs);
      WholePlusWhole(|ChainBytes(data, s[..|s| - 1])|, cs);
    }
  }

  lemma WholePlusWhole(a: nat, b: nat)
    requires a % SLOT_SIZE == 0 && b % SLOT_SIZE == 0
    ensures (a + b) % SLOT_SIZE == 0
  {
  }

  lemma ChainIsSized(img: Image, a: Allocation, cs: nat, h: nat)
    requires Physical(img, a, cs) && h in a.chains
    ensures InRange(img.data, a.chains[h]) && AllSized(img.data, a.chains[h], cs) && |a.chains[h]| > 0 && a.chains[h][0] == h
  {
    assert Owns(img.fat, a, h);
  }

  ghost function ChainOf(a: Allocation, h: nat): seq<nat> {
    if h in a.chains then a.chains[h] else []
  }

  /** The chain of a file holds its bytes and has no cluster to spare. */
  lemma FileFits(img: Image, t: Tree, cs: nat, loose: set<nat>, d: nat, n: ShortName, e: Slot)
    requires WellFormed(img, t, cs, loose) && IsDir(t, d) && Entry(img, t.alloc, d, n) == Some(e)
    requires !IsDot(e) && !IsDirectory(e)
    ensures var s := ChainOf(t.alloc, FirstCluster(e));
            InRange(img.data, s) && AllSized(img.data, s, cs) && cs > 0 && (s == [] <==> FileSize(e) == 0)
            && (FileSize(e) > 0 ==> Fits(img.data, s, cs, FileSize(e)))
    ensures FirstCluster(e) == 0 <==> FileSize(e) == 0
  {
    hide OwnerOk, DirOk, Entry;
    EntryIsOk(img, t, cs, loose, d, n);
    ZeroIsNoChain(img, t, cs, loose);
    if FileSize(e) > 0 { ChainIsSized(img, t.alloc, cs, FirstCluster(e)); }
  }

  /** In a file system the chain of every file has as many clusters as its size divided by the cluster size, rounded up. */
  lemma FileChainIsCeiling(img: Image, t: Tree, cs: nat, loose: set<nat>, d: nat, n: ShortName, e: Slot)
    requires WellFormed(img, t, cs, loose) && IsDir(t, d) && Entry(img, t.alloc, d, n) == Some(e) && cs > 0
    requires !IsDot(e) && !IsDirectory(e)
    ensures |ChainOf(t.alloc, FirstCluster(e))| == (FileSize(e) + cs - 1) / cs && (FirstCluster(e) == 0 <==> FileSize(e) == 0)
  {
    hide *;
    FileFits(img, t, cs, loose, d, n, e);
    if FileSize(e) > 0 {
      FitsIsCeiling(img.data, ChainOf(t.alloc, FirstCluster(e)), cs, FileSize(e));
    } else {
      DivisionBounds(cs - 1, cs);
    }
  }

  lemma GrownSlots(img: Image, a: Allocation, cs: nat, img': Image, a': Allocation, d: nat, c: nat)
    requires Physical(img, a, cs) && d != 0 && d in a.chains && d in a'.chains && a'.chains[d] == a.chains[d] + [c]
    requires c < |img.data| && img'.data == img.data && img.data[c] == Zeros(cs) && DirOk(SlotsOf(img, a, d))
    ensures SlotsOf(img', a', d) == SlotsOf(img, a, d) + Slots(Zeros(cs))
    ensures DirOk(SlotsOf(img', a', d))
    ensures forall n :: Entry(img', a', d, n) == Entry(img, a, d, n)
  {
    ChainIsSized(img, a, cs, d);
    ChainBytesAppend(img.data, a.chains[d], c);
    ChainBytesWhole(img.data, a.chains[d], cs);
    SlotsAppend(ChainBytes(img.data, a.chains[d]), img.data[c]);
    SlotsOfZeros(cs);
    GrowKeepsDirectory(SlotsOf(img, a, d), Slots(Zeros(cs)));
  }

  /** fat12_find_free_entry linked a zeroed cluster to a full directory: it shows the same entries. */
  lemma GrowStep(img: Image, t: Tree, cs: nat, loose: set<nat>, img': Image, d: nat, c: nat)
    requires WellFormed(img, t, cs, loose) && d in t.dirs && c in loose && t.alloc.chains[c] == [c]
    requires img.data[c] == Zeros(cs) && |t.alloc.chains[d]| > 0 && LastOf(t.alloc, d) < |img.fat|
    requires img' == img.(fat := img.fat[LastOf(t.alloc, d) := c])
    ensures WellFormed(img', t.(alloc := WithLink(t.alloc, d, c)), cs, loose - {c})
    ensures SameFiles(img, t, img', t.(alloc := WithLink(t.alloc, d, c)))
  {
    hide Partition, DirOk, ChainData, OwnerOk, SlotsOf, SameFiles;
    LinkKeepsPartition(img.fat, t.alloc, d, c);
    ZeroIsNoChain(img, t, cs, loose);
    ChainIsSized(img, t.alloc, cs, c);
    var a' := WithLink(t.alloc, d, c);
    GrownSlots(img, t.alloc, cs, img', a', d, c);
    forall h | h in t.owner && h != d ensures ChainData(img', a', h) == ChainData(img, t.alloc, h) {
      SameChainSameData(img, t.alloc, img', a', h);
    }
    forall x | IsDir(t, x) && x != d ensures SlotsOf(img', a', x) == SlotsOf(img, t.alloc, x) {
      OtherSlotsSame(img, t.alloc, img', a', x);
    }
    EntriesFromSlots(img, t, img', a', d);
    WellFormedFrame(img, t, cs, loose, img', a', loose - {c});
  }

  lemma SameChainSameData(img: Image, a: Allocation, img': Image, a': Allocation, h: nat)
    requires h in a.chains && h in a'.chains && a'.chains[h] == a.chains[h] && img'.data == img.data
    ensures ChainData(img', a', h) == ChainData(img, a, h)
  {
  }

  lemma OtherSlotsSame(img: Image, a: Allocation, img': Image, a': Allocation, x: nat)
    requires img'.root == img.root && (x == 0 || ChainData(img', a', x) == ChainData(img, a, x))
    ensures SlotsOf(img', a', x) == SlotsOf(img, a, x)
  {
  }

  lemma EntriesFromSlots(img: Image, t: Tree, img': Image, a': Allocation, d: nat)
    requires forall x | IsDir(t, x) && x != d :: SlotsOf(img', a', x) == SlotsOf(img, t.alloc, x)
    requires forall n :: Entry(img', a', d, n) == Entry(img, t.alloc, d, n)
    ensures forall x, n | IsDir(t, x) :: Entry(img', a', x, n) == Entry(img, t.alloc, x, n)
  {
  }

  // ---------------------------------------------------------------- walking a directory cluster by cluster

  /** A directory whose chain can be walked to its end. */
  ghost predicate Scannable(img: Image, a: Allocation, cs: nat, d: nat) {
    && cs > 0 && cs % SLOT_SIZE == 0 && |img.root| % SLOT_SIZE == 0
    && DirOk(SlotsOf(img, a, d))
    && (d != 0 ==>
          && d in a.chains && IsChain(img.fat, a.chains[d]) && a.chains[d][0] == d
          && InRange(img.data, a.chains[d]) && AllSized(img.data, a.chains[d], cs))
  }

  lemma DirectoriesAreScannable(img: Image, t: Tree, cs: nat, loose: set<nat>, d: nat)
    requires WellFormed(img, t, cs, loose) && IsDir(t, d)
    ensures Scannable(img, t.alloc, cs, d)
  {
    if d != 0 {
      ChainsInRange(img.fat, t.alloc);
      ChainIsSized(img, t.alloc, cs, d);
    }
  }

  /** The number of slots in the first j clusters of a directory. */
  ghost function SlotBase(img: Image, a: Allocation, d: nat, j: nat): nat {
    if d in a.chains && InRange(img.data, a.chains[d]) && j <= |a.chains[d]| then
      Offset(img.data, a.chains[d], j) / SLOT_SIZE
    else 0
  }

  /** The slots of the j-th cluster are a window of the directory's slots. */
  lemma SlotsWindow(img: Image, a: Allocation, cs: nat, d: nat, j: nat)
    requires Scannable(img, a, cs, d) && d != 0 && j < |a.chains[d]|
    ensures SLOT_SIZE * SlotBase(img, a, d, j) == Offset(img.data, a.chains[d], j)
    ensures SlotBase(img, a, d, j + 1) == SlotBase(img, a, d, j) + cs / SLOT_SIZE <= |SlotsOf(img, a, d)|
    ensures |Slots(img.data[a.chains[d][j]])| == cs / SLOT_SIZE
    ensures forall k | 0 <= k < cs / SLOT_SIZE ::
              SlotsOf(img, a, d)[SlotBase(img, a, d, j) + k] == Slots(img.data[a.chains[d][j]])[k]
  {
    hide IsChain, DirOk, ChainBytes, Slots;
    var s := a.chains[d];
    var b := ChainBytes(img.data, s);
    ChainBytesWhole(img.data, s[..j], cs);
    ChainBytesWindow(img.data, s, j);
    OffsetNext(img.data, s, j);
    var off := Offset(img.data, s, j);
    SlotsOfSlice(b, off, img.data[s[j]]);
  }

  lemma SlotBaseEnds(img: Image, a: Allocation, cs: nat, d: nat)
    requires Scannable(img, a, cs, d) && d != 0
    ensures SlotBase(img, a, d, 0) == 0
    ensures SlotBase(img, a, d, |a.chains[d]|) == |SlotsOf(img, a, d)|
  {
    var s := a.chains[d];
    assert s[..0] == [] && s[..|s|] == s;
  }

  /** A scan of the first n slots met neither the name nor a never-used slot. */
  ghost predicate NoneBefore(slots: seq<Slot>, name: ShortName, n: nat) {
    n <= |slots| && forall k | 0 <= k < n :: slots[k][0] != END_MARK && !Matches(slots[k], name)
  }

  ghost predicate AllLiveBefore(slots: seq<Slot>, n: nat) {
    n <= |slots| && forall k | 0 <= k < n :: !IsFree(slots[k])
  }

  /** A scan of one cluster continues the scan of the directory. */
  lemma ScanContinues(img: Image, a: Allocation, cs: nat, d: nat, j: nat, name: ShortName, seen: nat)
    requires Scannable(img, a, cs, d) && d != 0 && j < |a.chains[d]|
    requires NoneBefore(SlotsOf(img, a, d), name, SlotBase(img, a, d, j))
    requires NoneBefore(Slots(img.data[a.chains[d][j]]), name, seen)
    ensures NoneBefore(SlotsOf(img, a, d), name, SlotBase(img, a, d, j) + seen)
  {
    SlotsWindow(img, a, cs, d, j);
    var base, slots := SlotBase(img, a, d, j), SlotsOf(img, a, d);
    forall k | 0 <= k < base + seen ensures slots[k][0] != END_MARK && !Matches(slots[k], name) {
      if k >= base { assert slots[base + (k - base)] == Slots(img.data[a.chains[d][j]])[k - base]; }
    }
  }

  lemma FreeScanContinues(img: Image, a: Allocation, cs: nat, d: nat, j: nat, seen: nat)
    requires Scannable(img, a, cs, d) && d != 0 && j < |a.chains[d]|
    requires AllLiveBefore(SlotsOf(img, a, d), SlotBase(img, a, d, j))
    requires AllLiveBefore(Slots(img.data[a.chains[d][j]]), seen)
    ensures AllLiveBefore(SlotsOf(img, a, d), SlotBase(img, a, d, j) + seen)
  {
    hide SlotBase;
    SlotsWindow(img, a, cs, d, j);
    var base, slots := SlotBase(img, a, d, j), SlotsOf(img, a, d);
    forall k | 0 <= k < base + seen ensures !IsFree(slots[k]) {
      if k >= base { assert slots[base + (k - base)] == Slots(img.data[a.chains[d][j]])[k - base]; }
    }
  }

  /** A slot of the j-th cluster is located there. */
  lemma LocatedInCluster(img: Image, a: Allocation, cs: nat, d: nat, j: nat, idx: nat)
    requires Scannable(img, a, cs, d) && d != 0 && j < |a.chains[d]| && idx < cs / SLOT_SIZE
    ensures var i := SlotBase(img, a, d, j) + idx;
            && Located(img, a, d, i, a.chains[d][j], idx, j)
            && i < |SlotsOf(img, a, d)| && idx < |Slots(img.data[a.chains[d][j]])|
            && SlotsOf(img, a, d)[i] == Slots(img.data[a.chains[d][j]])[idx]
  {
    SlotsWindow(img, a, cs, d, j);
  }

  /** Every slot of the directory is in use. */
  ghost predicate DirFull(img: Image, a: Allocation, d: nat) {
    AllLiveBefore(SlotsOf(img, a, d), |SlotsOf(img, a, d)|)
  }

  // ---------------------------------------------------------------- loose chains beside a change

  /** Allocating a cluster leaves the bytes of every chain alone. */
  lemma AllocateKeepsData(img: Image, a: Allocation, img': Image, c: nat, h: nat)
    requires Partition(img.fat, a) && c !in a.at && h in a.chains && OnlyDiffersAt(img, img', {c})
    ensures h != c && c !in a.chains[h]
    ensures h in WithNew(a, c).chains && WithNew(a, c).chains[h] == a.chains[h]
    ensures ChainData(img', WithNew(a, c), h) == ChainData(img, a, h)
  {
    hide ChainBytes;
    HeadsAreOwned(img.fat, a);
    assert Owns(img.fat, a, h);
    if InRange(img.data, a.chains[h]) {
      ChainBytesFrame(img.data, img'.data, a.chains[h]);
    }
  }

  /** The new last cluster of a full directory is the place for one more entry. */
  lemma GrownPlace(img: Image, a: Allocation, cs: nat, img': Image, a': Allocation, d: nat, c: nat)
    requires Physical(img, a, cs) && d != 0 && d in a.chains && d in a'.chains && a'.chains[d] == a.chains[d] + [c]
    requires 0 < c < |img.data| && img'.data == img.data && img.data[c] == Zeros(cs) && DirOk(SlotsOf(img, a, d))
    requires AllLiveBefore(SlotsOf(img, a, d), |SlotsOf(img, a, d)|) && cs >= SLOT_SIZE
    ensures var i := |SlotsOf(img, a, d)|;
            && Located(img', a', d, i, c, 0, |a.chains[d]|)
            && AllLiveBefore(SlotsOf(img', a', d), i) && i < |SlotsOf(img', a', d)| && IsFree(SlotsOf(img', a', d)[i])
  {
    hide Partition, DirOk, Lookup, ChainBytes, Zeros;
    GrownSlots(img, a, cs, img', a', d, c);
    ChainIsSized(img, a, cs, d);
    ChainBytesWhole(img.data, a.chains[d], cs);
    SlotsOfZeros(cs);
    var s := a.chains[d];
    assert (s + [c])[..|s|] == s;
    assert |Slots(Zeros(cs))| > 0;
  }

  /** The loose chains are the same clusters with the same bytes. */
  ghost predicate LooseKept(loose: set<nat>, img: Image, t: Tree, img': Image, t': Tree) {
    forall h | h in loose ::
      && h in t.alloc.chains && h in t'.alloc.chains && t'.alloc.chains[h] == t.alloc.chains[h]
      && ChainData(img', t'.alloc, h) == ChainData(img, t.alloc, h)
  }

  /** The same slots, with never-used ones behind them. */
  ghost predicate Lengthened(slots: seq<Slot>, slots': seq<Slot>) {
    slots <= slots' && forall k | |slots| <= k < |slots'| :: slots'[k] == Zeros(SLOT_SIZE)
  }

  /** Directory `d` shows the same entries and has a free slot at the start of its new last cluster `c`. */
  ghost predicate DirectoryGrown(loose: set<nat>, img: Image, t: Tree, img': Image, t': Tree, d: nat, c: nat) {
    && d in t.alloc.chains && t' == t.(alloc := t'.alloc) && LooseKept(loose, img, t, img', t')
    && (forall n :: Entry(img', t'.alloc, d, n) == Entry(img, t.alloc, d, n))
    && Lengthened(SlotsOf(img, t.alloc, d), SlotsOf(img', t'.alloc, d))
    && (var i := |SlotsOf(img, t.alloc, d)|;
        && Located(img', t'.alloc, d, i, c, 0, |t.alloc.chains[d]|)
        && AllLiveBefore(SlotsOf(img', t'.alloc, d), i)
        && i < |SlotsOf(img', t'.alloc, d)| && IsFree(SlotsOf(img', t'.alloc, d)[i]))
  }

  lemma ZeroSlots(n: nat)
    ensures forall k | 0 <= k < |Slots(Zeros(n))| :: Slots(Zeros(n))[k] == Zeros(SLOT_SIZE)
  {
  }

  lemma GrowthEffect(img: Image, t: Tree, cs: nat, loose: set<nat>, img1: Image, img2: Image, t2: Tree, d: nat, c: nat)
    requires WellFormed(img, t, cs, loose) && d in t.dirs && c !in t.alloc.at && c != 0
    requires AllLiveBefore(SlotsOf(img, t.alloc, d), |SlotsOf(img, t.alloc, d)|) && cs >= SLOT_SIZE
    requires Physical(img1, WithNew(t.alloc, c), cs) && OnlyDiffersAt(img, img1, {c})
    requires c < |img1.data| && img1.data[c] == Zeros(cs) && img2.data == img1.data && d in t.alloc.chains
    requires t2 == t.(alloc := WithLink(WithNew(t.alloc, c), d, c))
    ensures DirectoryGrown(loose, img, t, img2, t2, d, c)
  {
    hide Partition, Slots, DirOk, Lookup, ChainData, OwnerOk, AllLiveBefore, Located;
    PartitionOf(img, t, cs, loose);
    var a1 := WithNew(t.alloc, c);
    forall h | h in t.alloc.chains ensures h != c && h in a1.chains && a1.chains[h] == t.alloc.chains[h]
                                           && ChainData(img1, a1, h) == ChainData(img, t.alloc, h)
    {
      AllocateKeepsData(img, t.alloc, img1, c, h);
    }
    ZeroIsNoChain(img, t, cs, loose);
    GrownPlace(img1, a1, cs, img2, t2.alloc, d, c);
    GrownSlots(img1, a1, cs, img2, t2.alloc, d, c);
    ZeroSlots(cs);
    forall h | h in loose ensures ChainData(img2, t2.alloc, h) == ChainData(img, t.alloc, h) {
      SameChainSameData(img1, a1, img2, t2.alloc, h);
    }
  }

  lemma PartitionOf(img: Image, t: Tree, cs: nat, loose: set<nat>)
    requires WellFormed(img, t, cs, loose)
    ensures Partition(img.fat, t.alloc)
  {
  }

  /** Before an entry is written: the same file system, with slot `i` of `d` the first free one. */
  ghost predicate FreePlace(loose: set<nat>, img: Image, t: Tree, img': Image, t': Tree, d: nat, oc: nat, idx: nat, i: nat, j: nat) {
    && t' == t.(alloc := t'.alloc) && LooseKept(loose, img, t, img', t')
    && (forall n :: Entry(img', t'.alloc, d, n) == Entry(img, t.alloc, d, n))
    && Lengthened(SlotsOf(img, t.alloc, d), SlotsOf(img', t'.alloc, d))
    && Located(img', t'.alloc, d, i, oc, idx, j)
    && AllLiveBefore(SlotsOf(img', t'.alloc, d), i)
    && i < |SlotsOf(img', t'.alloc, d)| && IsFree(SlotsOf(img', t'.alloc, d)[i])
  }

  lemma FreePlaceHere(img: Image, t: Tree, cs: nat, loose: set<nat>, d: nat, oc: nat, idx: nat, i: nat, j: nat)
    requires WellFormed(img, t, cs, loose) && Located(img, t.alloc, d, i, oc, idx, j)
    requires AllLiveBefore(SlotsOf(img, t.alloc, d), i)
    requires i < |SlotsOf(img, t.alloc, d)| && IsFree(SlotsOf(img, t.alloc, d)[i])
    ensures FreePlace(loose, img, t, img, t, d, oc, idx, i, j)
  {
  }

  /** The first free slot is the place for a name that the directory does not hold. */
  lemma FreePlaceIsPlace(img: Image, a: Allocation, d: nat, name: ShortName, i: nat)
    requires Entry(img, a, d, name) == None && AllLiveBefore(SlotsOf(img, a, d), i)
    requires i < |SlotsOf(img, a, d)| && IsFree(SlotsOf(img, a, d)[i])
    ensures IsPlaceFor(SlotsOf(img, a, d), name, i)
  {
  }

  /** So is the slot that holds the name already. */
  lemma TakenPlaceIsPlace(img: Image, a: Allocation, d: nat, name: ShortName, i: nat)
    requires IsAt(SlotsOf(img, a, d), name, i)
    ensures IsPlaceFor(SlotsOf(img, a, d), name, i)
  {
  }

  lemma LooseKeptRefl(img: Image, t: Tree, cs: nat, loose: set<nat>)
    requires WellFormed(img, t, cs, loose)
    ensures LooseKept(loose, img, t, img, t)
  {
  }

  /** Writing an entry at its place changes that one entry. */
  lemma StoreAtPlace(img: Image, t: Tree, cs: nat, loose: set<nat>, d: nat, i: nat, oc: nat, idx: nat, j: nat, e: Slot)
    requires WellFormed(img, t, cs, loose) && IsDir(t, d) && Located(img, t.alloc, d, i, oc, idx, j)
    requires !IsFree(e) && IsPlaceFor(SlotsOf(img, t.alloc, d), Name(e), i)
    ensures EntryChanged(img, t, Stored(img, oc, idx, e), cs, d, Name(e), Some(e))
  {
    StoredChangesSlot(img, t.alloc, cs, d, i, oc, idx, j, e);
    StoreChangesEntry(img, t, cs, loose, Stored(img, oc, idx, e), d, i, e);
  }

  /** Overwriting an entry with a deleted one removes it. */
  lemma EraseAtPlace(img: Image, t: Tree, cs: nat, loose: set<nat>, d: nat, n: ShortName, i: nat, oc: nat, idx: nat, j: nat,
                     e: Slot)
    requires WellFormed(img, t, cs, loose) && IsDir(t, d) && Located(img, t.alloc, d, i, oc, idx, j)
    requires e[0] == DELETED_MARK && IsAt(SlotsOf(img, t.alloc, d), n, i)
    ensures EntryChanged(img, t, Stored(img, oc, idx, e), cs, d, n, None)
  {
    StoredChangesSlot(img, t.alloc, cs, d, i, oc, idx, j, e);
    EraseChangesEntry(img, t, cs, loose, Stored(img, oc, idx, e), d, n, i, e);
  }

  // ---------------------------------------------------------------- a file's chain while it is written

  /** What one cluster of a file is given: the chunk, and zeros to the end. */
  function Padded(chunk: seq<byte>, cs: nat): (r: seq<byte>)
    requires |chunk| <= cs
    ensures |r| == cs
  {
    chunk + Zeros(cs - |chunk|)
  }

  /** The chain holds the first `written` bytes of `data`, and its last cluster is needed for them. */
  ghost predicate Progress(img: Image, a: Allocation, first: nat, data: seq<byte>, written: nat, cs: nat) {
    var b := ChainData(img, a, first);
    && first in a.chains && 0 < written <= |data| && written <= |b| < written + cs
    && b[..written] == data[..written] && (written < |data| ==> |b| == written)
  }

  function Chunk(data: seq<byte>, written: nat, cs: nat): (c: seq<byte>)
    requires written <= |data|
    ensures |c| <= cs
  {
    if |data| - written > cs then data[written..written + cs] else data[written..]
  }

  lemma ProgressStarts(img: Image, a: Allocation, c: nat, data: seq<byte>, cs: nat)
    requires c in a.chains && a.chains[c] == [c] && c < |img.data| && data != [] && cs > 0
    requires img.data[c] == Padded(Chunk(data, 0, cs), cs)
    ensures Progress(img, a, c, data, |Chunk(data, 0, cs)|, cs)
  {
    ChainBytesOfOne(img.data, c);
  }

  /** A chunk and what it is padded to. */
  lemma ChunkExtends(data: seq<byte>, written: nat, cs: nat)
    requires written < |data| && cs > 0
    ensures var chunk := Chunk(data, written, cs);
            && 0 < |chunk| <= cs && written + |chunk| <= |data| && (written + |chunk| < |data| ==> |chunk| == cs)
            && data[..written] + chunk == data[..written + |chunk|] && Padded(chunk, cs)[..|chunk|] == chunk
            && (data[..written] + Padded(chunk, cs))[..written + |chunk|] == data[..written] + chunk
  {
    var chunk := Chunk(data, written, cs);
    assert data[..written] + chunk == data[..written + |chunk|];
  }

  lemma ProgressContinues(img: Image, a: Allocation, img': Image, a': Allocation, first: nat, c: nat, data: seq<byte>,
                          written: nat, cs: nat)
    requires Progress(img, a, first, data, written, cs) && written < |data| && cs > 0
    requires first in a'.chains && a'.chains[first] == a.chains[first] + [c] && c < |img'.data|
    requires InRange(img.data, a.chains[first]) && OnlyDiffersAt(img, img', {c}) && c !in a.chains[first]
    requires img'.data[c] == Padded(Chunk(data, written, cs), cs)
    ensures Progress(img', a', first, data, written + |Chunk(data, written, cs)|, cs)
  {
    hide ChainBytes, Chunk, Padded;
    var s, chunk := a.chains[first], Chunk(data, written, cs);
    var b := ChainData(img, a, first);
    ChainBytesFrame(img.data, img'.data, s);
    ChainBytesAppend(img'.data, s, c);
    assert ChainData(img', a', first) == b + img'.data[c];
    assert b == data[..written];
    ChunkExtends(data, written, cs);
    assert (b + Padded(chunk, cs))[..written + |chunk|] == data[..written + |chunk|];
  }

  /** The table differs from `before` exactly in the clusters `s`, which were free. */
  ghost predicate TakenFrom(before: seq<nat>, now: seq<nat>, s: seq<nat>) {
    && |now| == |before|
    && (forall i | 0 <= i < |s| :: s[i] < |before| && before[s[i]] == FREE)
    && (forall c | 0 <= c < |before| && c !in s :: now[c] == before[c])
  }

  /** Freeing them restores the table. */
  lemma GivingBack(before: seq<nat>, now: seq<nat>, s: seq<nat>)
    requires TakenFrom(before, now, s)
    ensures Zeroed(now, s) == before
  {
  }

  lemma TakenMore(before: seq<nat>, now: seq<nat>, s: seq<nat>, c: nat, now': seq<nat>)
    requires TakenFrom(before, now, s) && c < |now| && now[c] == FREE && c !in s && |now'| == |now|
    requires forall x | 0 <= x < |now| && x != c && x !in s :: now'[x] == now[x]
    ensures TakenFrom(before, now', s + [c])
  {
    assert forall x :: x in s + [c] <==> x in s || x == c;
  }

  // ---------------------------------------------------------------- the effect of whole operations

  /** The file `n` of directory `d` now has this content, or is gone; everything else is as it was. */
  ghost predicate FileChanged(img: Image, t: Tree, img': Image, t': Tree, d: nat, n: ShortName, content: Option<seq<byte>>) {
    && t'.dirs == t.dirs
    && (forall x, m :: FileAt(img', t', x, m) == if x == d && m == n then content else FileAt(img, t, x, m))
    && (forall x, m :: FolderAt(img', t', x, m) == FolderAt(img, t, x, m))
    && (forall x, m :: AttrAt(img', t', x, m) ==
          if x == d && m == n then (if content.Some? then Some(0x20) else None) else AttrAt(img, t, x, m))
  }

  lemma SameAttributes(img: Image, t: Tree, img': Image, t': Tree)
    requires SameFiles(img, t, img', t')
    ensures forall d, n :: AttrAt(img', t', d, n) == AttrAt(img, t, d, n)
  {
    hide FileAt, FolderAt, Entry;
  }

  lemma SameThenChanged(img: Image, t: Tree, img1: Image, t1: Tree, img2: Image, t2: Tree, d: nat, n: ShortName,
                        content: Option<seq<byte>>)
    requires SameFiles(img, t, img1, t1) && FileChanged(img1, t1, img2, t2, d, n, content)
    ensures FileChanged(img, t, img2, t2, d, n, content)
  {
  }

  lemma ChangedThenSame(img: Image, t: Tree, img1: Image, t1: Tree, img2: Image, t2: Tree, d: nat, n: ShortName,
                        content: Option<seq<byte>>)
    requires FileChanged(img, t, img1, t1, d, n, content) && SameFiles(img1, t1, img2, t2)
    ensures FileChanged(img, t, img2, t2, d, n, content)
  {
    hide FileAt, FolderAt, AttrAt, Entry;
    SameAttributes(img1, t1, img2, t2);
  }

  lemma FileEntryChanges(img: Image, t: Tree, cs: nat, loose: set<nat>, img': Image, d: nat, n: ShortName, now: Option<Slot>)
    requires WellFormed(img, t, cs, loose) && IsDir(t, d) && EntryChanged(img, t, img', cs, d, n, now)
    requires NoFolder(Entry(img, t.alloc, d, n)) && (now.Some? ==> ReadyFile(img, t, cs, loose, now.value))
    ensures FileChanged(img, t, img', t.(owner := Owners(t, d, n, Entry(img, t.alloc, d, n), now)), d, n,
                        if now.Some? then Some(Content(img, t.alloc, now.value)) else None)
  {
    forall x, m
      ensures var t' := t.(owner := Owners(t, d, n, Entry(img, t.alloc, d, n), now));
              && FileAt(img', t', x, m) ==
                   (if x == d && m == n then (if now.Some? then Some(Content(img, t.alloc, now.value)) else None)
                    else FileAt(img, t, x, m))
              && FolderAt(img', t', x, m) == FolderAt(img, t, x, m)
              && AttrAt(img', t', x, m) ==
                   if x == d && m == n then (if now.Some? then Some(0x20) else None) else AttrAt(img, t, x, m)
    {
      FileEntryEffect(img, t, cs, loose, img', d, n, now, x, m);
    }
  }

  /** The entry that fat12_write_file makes for the chain it has filled. */
  lemma FileIsReady(img: Image, t: Tree, mid: Image, t': Tree, cs: nat, first: nat, data: seq<byte>, e: Slot)
    requires WellFormed(mid, t', cs, if first == 0 then {} else {first})
    requires Attr(e) == ATTR_ARCHIVE && !IsDirectory(e) && FirstCluster(e) == first && FileSize(e) == |data|
    requires if data == [] then first == 0
             else first != 0 && Progress(img, t.alloc, first, data, |data|, cs) && LooseKept({first}, img, t, mid, t')
    ensures ReadyFile(mid, t', cs, if first == 0 then {} else {first}, e)
    ensures Content(mid, t'.alloc, e) == data
    ensures Heads(Some(e)) == if first == 0 then {} else {first}
  {
    hide ChainData, Partition, OwnerOk, EntryOk, DirOk, SlotsOf;
    ZeroIsNoChain(mid, t', cs, if first == 0 then {} else {first});
    assert data[..|data|] == data;
  }

  /** The entry being replaced or removed leads to a chain exactly when its first cluster is a real one. */
  lemma HeadsByCluster(img: Image, t: Tree, cs: nat, loose: set<nat>, d: nat, n: ShortName)
    requires WellFormed(img, t, cs, loose) && IsDir(t, d) && NoFolder(Entry(img, t.alloc, d, n))
    ensures var was := Entry(img, t.alloc, d, n);
            && Heads(was) == (if was.Some? && FirstCluster(was.value) >= 2 then {FirstCluster(was.value)} else {})
            && Heads(was) !! loose && Heads(was) <= t.alloc.chains.Keys - t.dirs
  {
    hide Partition;
    HeadsOwnedHere(img, t, cs, loose, d, n);
    var was := Entry(img, t.alloc, d, n);
    if was.Some? {
      EntryIsOk(img, t, cs, loose, d, n);
      DotsAreFolders(was.value);
      ChainsInRange(img.fat, t.alloc);
    }
  }

  lemma PendingChain(img: Image, t: Tree, cs: nat, loose: set<nat>, first: nat)
    requires WellFormed(img, t, cs, loose) && first in loose
    ensures first >= 2 && first in t.alloc.chains && IsChain(img.fat, t.alloc.chains[first])
    ensures Distinct(t.alloc.chains[first]) && t.alloc.chains[first][0] == first
  {
    ChainsInRange(img.fat, t.alloc);
    ChainIsDistinct(img.fat, t.alloc, first);
  }

  /** A name that starts with a valid character never names a dot entry. */
  lemma NamedEntryIsNoDot(img: Image, a: Allocation, d: nat, n: ShortName)
    requires IsValidChar(n[0]) && Entry(img, a, d, n).Some?
    ensures !IsDot(Entry(img, a, d, n).value) && !IsFree(Entry(img, a, d, n).value) && Name(Entry(img, a, d, n).value) == n
  {
    var slots := SlotsOf(img, a, d);
    var i: nat :| IsAt(slots, n, i) && Lookup(slots, n) == Some(slots[i]);
    assert IsAt(slots, n, i);
    assert Name(slots[i])[0] == slots[i][0];
  }

  lemma FolderByEntry(img: Image, t: Tree, d: nat, n: ShortName)
    requires IsDir(t, d) && IsValidChar(n[0])
    ensures FolderAt(img, t, d, n).Some? <==> Entry(img, t.alloc, d, n).Some? && IsDirectory(Entry(img, t.alloc, d, n).value)
    ensures FolderAt(img, t, d, n).Some? ==> FolderAt(img, t, d, n).value == FirstCluster(Entry(img, t.alloc, d, n).value)
    ensures FileAt(img, t, d, n).Some? <==> Entry(img, t.alloc, d, n).Some? && !IsDirectory(Entry(img, t.alloc, d, n).value)
  {
    if Entry(img, t.alloc, d, n).Some? { NamedEntryIsNoDot(img, t.alloc, d, n); }
  }

  /** A fresh entry under such a name is live and no dot entry. */
  lemma MadeEntryIsLive(name: ShortName, attr: byte, first: nat, size: nat)
    requires first < TWO16 && size < TWO32 && IsValidChar(name[0])
    ensures !IsFree(MakeEntry(name, attr, first, size)) && !IsDot(MakeEntry(name, attr, first, size))
  {
    assert MakeEntry(name, attr, first, size)[0] == name[0];
  }

  // ---------------------------------------------------------------- damage stays where it was done

  /** Every file and folder of every directory but `d` is as it was. */
  ghost predicate ElsewhereSame(img: Image, t: Tree, img': Image, t': Tree, d: nat) {
    forall x, m | IsDir(t, x) && x != d ::
      && FileAt(img', t', x, m) == FileAt(img, t, x, m) && FolderAt(img', t', x, m) == FolderAt(img, t, x, m)
      && AttrAt(img', t', x, m) == AttrAt(img, t, x, m)
  }

  /** Bytes of the clusters of directory `d` are all that differs. */
  ghost predicate Scarred(img: Image, a: Allocation, img': Image, d: nat) {
    d != 0 && d in a.chains && OnlyDiffersAt(img, img', set c | c in a.chains[d])
  }

  /** If the slots are the same after all, so is everything. */
  lemma UnscarredIsSame(img: Image, a: Allocation, cs: nat, img': Image, d: nat)
    requires Scarred(img, a, img', d) && img'.fat == img.fat && Scannable(img, a, cs, d)
    requires forall c | c in a.chains[d] && c < |img'.data| :: |img'.data[c]| == cs
    requires SlotsOf(img', a, d) == SlotsOf(img, a, d)
    ensures img' == img
  {
    hide IsChain, Slots, DirOk, ChainBytes;
    var s := a.chains[d];
    SlotsOfChain(img, a, d);
    SlotsOfChain(img', a, d);
    ChainBytesLength(img.data, s, cs);
    ChainBytesLength(img'.data, s, cs);
    WholeSlots(|s|, cs);
    SlotsDetermineBytes(ChainBytes(img.data, s), ChainBytes(img'.data, s));
    forall j | 0 <= j < |s| ensures img'.data[s[j]] == img.data[s[j]] {
      ChainBytesWindow(img.data, s, j);
      ChainBytesWindow(img'.data, s, j);
      SameOffsets(img.data, img'.data, s, cs, j);
    }
    assert img'.data == img.data;
  }

  lemma WholeSlots(n: nat, cs: nat)
    requires cs % SLOT_SIZE == 0
    ensures n * cs % SLOT_SIZE == 0
  {
    assert cs == cs / SLOT_SIZE * SLOT_SIZE;
    assert n * cs == n * (cs / SLOT_SIZE) * SLOT_SIZE;
  }

  lemma SameOffsets(data: Data, data': Data, s: seq<nat>, cs: nat, j: nat)
    requires InRange(data, s) && InRange(data', s) && AllSized(data, s, cs) && AllSized(data', s, cs) && j <= |s|
    ensures Offset(data, s, j) == Offset(data', s, j)
  {
    ChainBytesLength(data, s[..j], cs);
    ChainBytesLength(data', s[..j], cs);
  }

  /** The chains that entries outside `d` lead to, and those of the other directories, are the same clusters. */
  ghost predicate OtherChainsKept(t: Tree, a': Allocation, d: nat) {
    0 !in a'.chains && forall h | h in t.owner && h in t.alloc.chains && h != d && (h in t.dirs || t.owner[h].0 != d) ::
      h in a'.chains && a'.chains[h] == t.alloc.chains[h]
  }

  lemma SparedChain(img: Image, t: Tree, img': Image, a': Allocation, d: nat, h: nat)
    requires Partition(img.fat, t.alloc) && Scarred(img, t.alloc, img', d) && OtherChainsKept(t, a', d)
    requires h in t.alloc.chains && h in t.owner && h != d && (h in t.dirs || t.owner[h].0 != d)
    ensures ChainData(img', a', h) == ChainData(img, t.alloc, h)
  {
    var s := t.alloc.chains[h];
    forall i | 0 <= i < |s| && s[i] < |img.data| ensures img'.data[s[i]] == img.data[s[i]] {
      if s[i] in t.alloc.chains[d] {
        var j :| 0 <= j < |t.alloc.chains[d]| && t.alloc.chains[d][j] == s[i];
        ChainsAreDisjoint(img.fat, t.alloc, h, i, d, j);
      }
    }
    if InRange(img.data, s) { ChainBytesFrame(img.data, img'.data, s); }
  }

  /** A failed write to directory `d` spares the rest of the file system. */
  lemma ScarSpares(img: Image, t: Tree, cs: nat, loose: set<nat>, img': Image, a': Allocation, d: nat)
    requires WellFormed(img, t, cs, loose) && d in t.dirs && Scarred(img, t.alloc, img', d) && OtherChainsKept(t, a', d)
    ensures ElsewhereSame(img, t, img', t.(alloc := a'), d)
  {
    hide OwnerOk;
    forall x, m | IsDir(t, x) && x != d
      ensures FileAt(img', t.(alloc := a'), x, m) == FileAt(img, t, x, m)
      ensures FolderAt(img', t.(alloc := a'), x, m) == FolderAt(img, t, x, m)
      ensures AttrAt(img', t.(alloc := a'), x, m) == AttrAt(img, t, x, m)
    {
      EntrySpared(img, t, cs, loose, img', a', d, x, m);
    }
  }

  lemma EntrySpared(img: Image, t: Tree, cs: nat, loose: set<nat>, img': Image, a': Allocation, d: nat, x: nat, m: ShortName)
    requires WellFormed(img, t, cs, loose) && d in t.dirs && Scarred(img, t.alloc, img', d) && OtherChainsKept(t, a', d)
    requires IsDir(t, x) && x != d
    ensures FileAt(img', t.(alloc := a'), x, m) == FileAt(img, t, x, m)
    ensures FolderAt(img', t.(alloc := a'), x, m) == FolderAt(img, t, x, m)
    ensures AttrAt(img', t.(alloc := a'), x, m) == AttrAt(img, t, x, m)
  {
    hide Partition, OwnerOk, Lookup, ChainData, FirstCluster, FileSize, IsDirectory;
    ZeroIsNoChain(img, t, cs, loose);
    if x != 0 { SparedChain(img, t, img', a', d, x); }
    assert Entry(img', a', x, m) == Entry(img, t.alloc, x, m);
    if Entry(img, t.alloc, x, m).Some? {
      var e := Entry(img, t.alloc, x, m).value;
      EntryIsOk(img, t, cs, loose, x, m);
      DotsAreFolders(e);
      if !IsDirectory(e) && FileSize(e) > 0 {
        SparedChain(img, t, img', a', d, FirstCluster(e));
      }
    }
  }

  /** Neither does a changed entry reach beyond its directory. */
  lemma EntryChangeSpares(img: Image, t: Tree, cs: nat, loose: set<nat>, img': Image, d: nat, n: ShortName, now: Option<Slot>)
    requires WellFormed(img, t, cs, loose) && EntryChanged(img, t, img', cs, d, n, now)
    ensures ElsewhereSame(img, t, img', t, d)
  {
    hide SlotsOf, FileSize, IsDirectory, Entry, Physical;
    ZeroIsNoChain(img, t, cs, loose);
    forall x, m | IsDir(t, x) && x != d
      ensures FileAt(img', t, x, m) == FileAt(img, t, x, m) && FolderAt(img', t, x, m) == FolderAt(img, t, x, m)
      ensures AttrAt(img', t, x, m) == AttrAt(img, t, x, m)
    {
      assert Entry(img', t.alloc, x, m) == Entry(img, t.alloc, x, m);
      NoChainNoData(img', t.alloc, 0);
      if Entry(img, t.alloc, x, m).Some? {
        EntryIsOk(img, t, cs, loose, x, m);
        DotsAreFolders(Entry(img, t.alloc, x, m).value);
      }
    }
  }

  lemma SameThenElsewhere(img: Image, t: Tree, img1: Image, t1: Tree, img2: Image, t2: Tree, d: nat)
    requires SameFiles(img, t, img1, t1) && ElsewhereSame(img1, t1, img2, t2, d)
    ensures ElsewhereSame(img, t, img2, t2, d)
  {
  }

  // ---------------------------------------------------------------- new directories

  /** The first cluster of a new directory: its two dot entries and never-used slots. */
  ghost function FolderBytes(self: nat, parent: nat, cs: nat): seq<byte>
    requires self < TWO16 && parent < TWO16 && cs >= 2 * SLOT_SIZE
  {
    MakeEntry(DotName(), ATTR_DIRECTORY, self, 0) + MakeEntry(DotDotName(), ATTR_DIRECTORY, parent, 0)
    + Zeros(cs - 2 * SLOT_SIZE)
  }

  lemma FolderBytesIs(b: seq<byte>, self: nat, parent: nat)
    requires self < TWO16 && parent < TWO16 && |b| >= 2 * SLOT_SIZE
    requires b[..SLOT_SIZE] == MakeEntry(DotName(), ATTR_DIRECTORY, self, 0)
    requires b[SLOT_SIZE..2 * SLOT_SIZE] == MakeEntry(DotDotName(), ATTR_DIRECTORY, parent, 0)
    requires forall k | 2 * SLOT_SIZE <= k < |b| :: b[k] == 0
    ensures b == FolderBytes(self, parent, |b|)
  {
    assert b == b[..SLOT_SIZE] + b[SLOT_SIZE..2 * SLOT_SIZE] + b[2 * SLOT_SIZE..];
    assert b[2 * SLOT_SIZE..] == Zeros(|b| - 2 * SLOT_SIZE);
  }

  lemma DotEntriesAreDots(first: nat)
    requires first < TWO16
    ensures IsDot(MakeEntry(DotName(), ATTR_DIRECTORY, first, 0)) && IsDot(MakeEntry(DotDotName(), ATTR_DIRECTORY, first, 0))
  {
    var e, f := MakeEntry(DotName(), ATTR_DIRECTORY, first, 0), MakeEntry(DotDotName(), ATTR_DIRECTORY, first, 0);
    assert e[0] == DotName()[0] && e[1] == DotName()[1] && e[2] == DotName()[2];
    assert f[0] == DotDotName()[0] && f[1] == DotDotName()[1] && f[2] == DotDotName()[2];
  }

  lemma FolderBytesSlots(self: nat, parent: nat, cs: nat)
    requires self < TWO16 && parent < TWO16 && cs >= 2 * SLOT_SIZE && cs % SLOT_SIZE == 0
    ensures var slots := Slots(FolderBytes(self, parent, cs));
            && |slots| >= 2 && slots[0] == MakeEntry(DotName(), ATTR_DIRECTORY, self, 0)
            && slots[1] == MakeEntry(DotDotName(), ATTR_DIRECTORY, parent, 0)
            && forall k | 2 <= k < |slots| :: slots[k][0] == END_MARK
  {
    var b := FolderBytes(self, parent, cs);
    assert b[0..32] == MakeEntry(DotName(), ATTR_DIRECTORY, self, 0);
    assert b[32..64] == MakeEntry(DotDotName(), ATTR_DIRECTORY, parent, 0);
  }

  lemma FolderBytesFresh(img: Image, a: Allocation, h: nat, parent: nat, cs: nat)
    requires 0 < h < TWO16 && parent < TWO16 && cs >= 2 * SLOT_SIZE && cs % SLOT_SIZE == 0
    requires ChainData(img, a, h) == FolderBytes(h, parent, cs)
    ensures FreshFolder(img, a, h, parent)
  {
    hide Slots, ChainData, FolderBytes, Links;
    FolderBytesSlots(h, parent, cs);
    DotEntriesAreDots(h);
    DotEntriesAreDots(parent);
    var slots := SlotsOf(img, a, h);
    assert slots == Slots(FolderBytes(h, parent, cs));
    assert Name(slots[0]) == DotName() && Name(slots[1]) == DotDotName() && DotName()[1] != DotDotName()[1];
    forall m | Entry(img, a, h, m).Some? ensures IsDot(Entry(img, a, h, m).value) {
      var i: nat :| IsAt(slots, m, i) && Entry(img, a, h, m).value == slots[i];
      assert IsAt(slots, m, i);
    }
    DotsLink(img, a, h, parent);
  }

  lemma DotsLink(img: Image, a: Allocation, h: nat, parent: nat)
    requires h < TWO16 && parent < TWO16 && |SlotsOf(img, a, h)| >= 2 && DirOk(SlotsOf(img, a, h))
    requires SlotsOf(img, a, h)[0] == MakeEntry(DotName(), ATTR_DIRECTORY, h, 0)
    requires SlotsOf(img, a, h)[1] == MakeEntry(DotDotName(), ATTR_DIRECTORY, parent, 0)
    ensures Links(img, a, h, parent)
  {
    hide SlotsOf, MakeEntry, FirstCluster, IsDirectory;
    var slots := SlotsOf(img, a, h);
    DirectoryAttr(DotName(), h);
    DirectoryAttr(DotDotName(), parent);
    assert slots[0][0] == Name(slots[0])[0] && slots[1][0] == Name(slots[1])[0];
    assert IsAt(slots, DotName(), 0) && IsAt(slots, DotDotName(), 1);
    LookupAt(slots, DotName(), 0);
    LookupAt(slots, DotDotName(), 1);
  }

  lemma ChainOfOne(img: Image, a: Allocation, c: nat)
    requires c in a.chains && a.chains[c] == [c] && c < |img.data|
    ensures ChainData(img, a, c) == img.data[c]
  {
    ChainBytesOfOne(img.data, c);
  }

  /** Directory `d` has the new subdirectory `n`, whose dot entries lead to itself and to `d`; every file and every other directory
      is as it was. */
  ghost predicate FolderChanged(img: Image, t: Tree, img': Image, t': Tree, d: nat, n: ShortName, h: nat) {
    && h !in t.dirs && t'.dirs == t.dirs + {h} && Links(img', t'.alloc, h, d)
    && (forall x, m :: FileAt(img', t', x, m) == FileAt(img, t, x, m))
    && (forall x, m :: FolderAt(img', t', x, m) == if x == d && m == n then Some(h) else FolderAt(img, t, x, m))
    && (forall x, m | x != h :: AttrAt(img', t', x, m) == if x == d && m == n then Some(0x10) else AttrAt(img, t, x, m))
  }

  lemma FolderEntryChanges(img: Image, t: Tree, cs: nat, loose: set<nat>, img': Image, d: nat, n: ShortName, e: Slot)
    requires FolderAdded(img, t, cs, loose, img', d, n, e)
    ensures FolderChanged(img, t, img', WithFolder(t, d, n, FirstCluster(e)), d, n, FirstCluster(e))
  {
    hide FileAt, FolderAt, AttrAt, EntryChanged, WellFormed, DirOk, Entry, Physical, Links;
    FolderSlotsKept(img, t, cs, loose, img', d, n, Some(e), FirstCluster(e));
    forall x, m
      ensures var t' := WithFolder(t, d, n, FirstCluster(e));
              && FileAt(img', t', x, m) == FileAt(img, t, x, m)
              && FolderAt(img', t', x, m) == (if x == d && m == n then Some(FirstCluster(e)) else FolderAt(img, t, x, m))
              && (x != FirstCluster(e) ==>
                    AttrAt(img', t', x, m) == if x == d && m == n then Some(0x10) else AttrAt(img, t, x, m))
    {
      FolderEntryEffect(img, t, cs, loose, img', d, n, e, x, m);
    }
  }

  lemma SameThenFolder(img: Image, t: Tree, img1: Image, t1: Tree, img2: Image, t2: Tree, d: nat, n: ShortName, h: nat)
    requires SameFiles(img, t, img1, t1) && FolderChanged(img1, t1, img2, t2, d, n, h)
    ensures FolderChanged(img, t, img2, t2, d, n, h)
  {
  }

  // ---------------------------------------------------------------- deletion frees first and marks second

  /** The volume after the chain of the entry, if it has one, was freed but before the entry is marked. */
  ghost predicate ChainFreed(img: Image, t: Tree, img': Image, a': Allocation, head: nat) {
    if head >= 2 then
      && head in t.alloc.chains && a' == Without(t.alloc, head)
      && img' == img.(fat := Zeroed(img.fat, t.alloc.chains[head]))
    else img' == img && a' == t.alloc
  }

  lemma FreedKeepsDirectory(img: Image, t: Tree, cs: nat, img': Image, a': Allocation, head: nat, d: nat)
    requires WellFormed(img, t, cs, {}) && IsDir(t, d) && ChainFreed(img, t, img', a', head) && (head >= 2 ==> !IsDir(t, head))
    ensures SlotsOf(img', a', d) == SlotsOf(img, t.alloc, d) && Scannable(img', a', cs, d)
    ensures forall i, oc, idx, j :: Located(img', a', d, i, oc, idx, j) <==> Located(img, t.alloc, d, i, oc, idx, j)
  {
    DirectoriesAreScannable(img, t, cs, {}, d);
    if head >= 2 && d != 0 {
      FreeKeepsPartition(img.fat, t.alloc, head);
      ChainsInRange(img'.fat, a');
    }
    SameClustersSameSlots(img, t.alloc, img', a', d);
  }

  lemma SameClustersSameSlots(img: Image, a: Allocation, img': Image, a': Allocation, d: nat)
    requires img'.root == img.root && img'.data == img.data
    requires d != 0 ==> d in a.chains && d in a'.chains && a'.chains[d] == a.chains[d]
    ensures SlotsOf(img', a', d) == SlotsOf(img, a, d)
    ensures forall i, oc, idx, j :: Located(img', a', d, i, oc, idx, j) <==> Located(img, a, d, i, oc, idx, j)
  {
  }

  lemma StoredBesideFat(img: Image, fat: seq<nat>, oc: nat, idx: nat, e: Slot)
    ensures Stored(img.(fat := fat), oc, idx, e) == Stored(img, oc, idx, e).(fat := fat)
    ensures Stored(img, oc, idx, e).fat == img.fat
  {
  }

  /** The marking step, on a table whose chain is not yet freed. */
  lemma MarkingStep(img: Image, t: Tree, cs: nat, d: nat, n: ShortName, head: nat, i: nat, oc: nat, idx: nat, j: nat, e: Slot)
    requires WellFormed(img, t, cs, {}) && IsDir(t, d) && NoFolder(Entry(img, t.alloc, d, n))
    requires Heads(Entry(img, t.alloc, d, n)) == if head >= 2 then {head} else {}
    requires Located(img, t.alloc, d, i, oc, idx, j) && IsAt(SlotsOf(img, t.alloc, d), n, i) && e[0] == DELETED_MARK
    ensures var t2 := t.(owner := Owners(t, d, n, Entry(img, t.alloc, d, n), None));
            && WellFormed(Stored(img, oc, idx, e), t2, cs, if head >= 2 then {head} else {})
            && FileChanged(img, t, Stored(img, oc, idx, e), t2, d, n, None)
  {
    hide EntryChanged, WellFormed, Located, IsAt, Heads, NoFolder, Entry, Owners, FileChanged, Stored, IsDir;
    EraseAtPlace(img, t, cs, {}, d, n, i, oc, idx, j, e);
    FileEntryStep(img, t, cs, {}, Stored(img, oc, idx, e), d, n, None);
    FileEntryChanges(img, t, cs, {}, Stored(img, oc, idx, e), d, n, None);
    NoHeads();
    assert {} - Heads(None) + Heads(Entry(img, t.alloc, d, n)) == if head >= 2 then {head} else {};
  }

  /** The freeing step, on a volume whose entry is already marked. */
  lemma FreeingStep(img: Image, t: Tree, tA: Tree, cs: nat, d: nat, n: ShortName, head: nat, img1: Image, a1: Allocation,
                    oc: nat, idx: nat, e: Slot)
    requires ChainFreed(img, t, img1, a1, head) && tA.alloc == t.alloc
    requires WellFormed(Stored(img, oc, idx, e), tA, cs, if head >= 2 then {head} else {})
    requires FileChanged(img, t, Stored(img, oc, idx, e), tA, d, n, None)
    ensures WellFormed(Stored(img1, oc, idx, e), tA.(alloc := a1), cs, {})
    ensures FileChanged(img, t, Stored(img1, oc, idx, e), tA.(alloc := a1), d, n, None)
  {
    hide WellFormed, FileChanged, Stored;
    if head >= 2 {
      StoredBesideFat(img, Zeroed(img.fat, t.alloc.chains[head]), oc, idx, e);
      assert {head} - {head} == {};
      FreeStep(Stored(img, oc, idx, e), tA, cs, {head}, Stored(img1, oc, idx, e), head);
      ChangedThenSame(img, t, Stored(img, oc, idx, e), tA, Stored(img1, oc, idx, e), tA.(alloc := a1), d, n, None);
    } else {
      assert tA.(alloc := a1) == tA;
    }
  }

  /** Freeing the chain and then marking the entry ends in the volume without the file. */
  lemma DeletionEffect(img: Image, t: Tree, cs: nat, d: nat, n: ShortName, head: nat, img1: Image, a1: Allocation,
                       i: nat, oc: nat, idx: nat, j: nat, e: Slot)
    requires WellFormed(img, t, cs, {}) && IsDir(t, d) && NoFolder(Entry(img, t.alloc, d, n)) && (head >= 2 ==> !IsDir(t, head))
    requires Heads(Entry(img, t.alloc, d, n)) == if head >= 2 then {head} else {}
    requires ChainFreed(img, t, img1, a1, head) && Located(img1, a1, d, i, oc, idx, j)
    requires IsAt(SlotsOf(img1, a1, d), n, i) && e[0] == DELETED_MARK
    ensures var t2 := t.(alloc := a1, owner := Owners(t, d, n, Entry(img, t.alloc, d, n), None));
            && WellFormed(Stored(img1, oc, idx, e), t2, cs, {})
            && FileChanged(img, t, Stored(img1, oc, idx, e), t2, d, n, None)
  {
    hide WellFormed, FileChanged, Stored, Located, IsAt, Heads, NoFolder, Entry, Owners, ChainFreed;
    var was := Entry(img, t.alloc, d, n);
    FreedKeepsDirectory(img, t, cs, img1, a1, head, d);
    MarkingStep(img, t, cs, d, n, head, i, oc, idx, j, e);
    FreeingStep(img, t, t.(owner := Owners(t, d, n, was, None)), cs, d, n, head, img1, a1, oc, idx, e);
  }

  lemma NoHeads()
    ensures Heads(None) == {}
  {
  }

  /** An entry that leads to a free cluster fits no well-formed volume. */
  lemma DanglingIsNotWhole(img: Image, t: Tree, cs: nat, loose: set<nat>, d: nat, n: ShortName)
    requires IsDir(t, d) && Entry(img, t.alloc, d, n).Some?
    requires var e := Entry(img, t.alloc, d, n).value;
             !IsDirectory(e) && FileSize(e) > 0 && FirstCluster(e) < |img.fat| && img.fat[FirstCluster(e)] == FREE
    ensures !WellFormed(img, t, cs, loose)
  {
    if WellFormed(img, t, cs, loose) {
      EntryIsOk(img, t, cs, loose, d, n);
      DotsAreFolders(Entry(img, t.alloc, d, n).value);
      UsedHeads(img.fat, t.alloc);
      assert false;
    }
  }

  /** That holds whatever tree one tries: the directory's clusters are fixed by the table. */
  lemma DanglingForEveryTree(img: Image, a: Allocation, cs: nat, d: nat, n: ShortName, t: Tree, loose: set<nat>)
    requires Scannable(img, a, cs, d) && Entry(img, a, d, n).Some? && IsDir(t, d)
    requires var e := Entry(img, a, d, n).value;
             !IsDirectory(e) && FileSize(e) > 0 && FirstCluster(e) < |img.fat| && img.fat[FirstCluster(e)] == FREE
    ensures !WellFormed(img, t, cs, loose)
  {
    if WellFormed(img, t, cs, loose) {
      ChainsInRange(img.fat, t.alloc);
      if d != 0 { ChainIsUnique(img.fat, a.chains[d], t.alloc.chains[d]); }
      DanglingIsNotWhole(img, t, cs, loose, d, n);
    }
  }

  lemma UsedHeads(fat: seq<nat>, a: Allocation)
    requires Partition(fat, a)
    ensures forall h | h in a.chains :: 2 <= h < |fat| && fat[h] != FREE
  {
    HeadsAreOwned(fat, a);
    ChainsInRange(fat, a);
  }

  lemma FolderIsFresh(img: Image, t: Tree, mid: Image, t': Tree, cs: nat, c: nat, parent: nat)
    requires c in t.alloc.chains && t.alloc.chains[c] == [c] && 0 < c < TWO16 && c < |img.data| && parent < TWO16
    requires cs >= 2 * SLOT_SIZE && cs % SLOT_SIZE == 0 && img.data[c] == FolderBytes(c, parent, cs)
    requires LooseKept({c}, img, t, mid, t')
    ensures FreshFolder(mid, t'.alloc, c, parent)
  {
    ChainOfOne(img, t.alloc, c);
    assert ChainData(mid, t'.alloc, c) == ChainData(img, t.alloc, c);
    FolderBytesFresh(mid, t'.alloc, c, parent, cs);
  }

  lemma DirectoryAttr(name: ShortName, first: nat)
    requires first < TWO16
    ensures IsDirectory(MakeEntry(name, ATTR_DIRECTORY, first, 0))
  {
  }

  lemma OnlyThere(img0: Image, img1: Image, img: Image, c: nat)
    requires OnlyDiffersAt(img0, img1, {c}) && OnlyDiffersAt(img1, img, {c})
    ensures OnlyDiffersAt(img0, img, {c})
  {
  }

  lemma ChainKnown(a: Allocation, a': Allocation, img: Image, first: nat, c: nat)
    requires first in a.chains && first in a'.chains && a'.chains[first] == a.chains[first] + [c]
    requires InRange(img.data, a'.chains[first])
    ensures InRange(img.data, a.chains[first])
  {
    forall i | 0 <= i < |a.chains[first]| ensures a.chains[first][i] < |img.data| {
      assert a'.chains[first][i] == a.chains[first][i];
    }
  }

  lemma ChunkAdded(img0: Image, a0: Allocation, img: Image, a: Allocation, first: nat, s0: seq<nat>, c: nat, data: seq<byte>,
                   written: nat, cs: nat)
    requires written < |data| && cs > 0 && c < |img.data| && img.data[c] == Padded(Chunk(data, written, cs), cs)
    requires OnlyDiffersAt(img0, img, {c})
    requires if first == 0 then written == 0 && s0 == [] && c in a.chains && a.chains[c] == [c]
             else && first in a0.chains && s0 == a0.chains[first] && first in a.chains && a.chains[first] == s0 + [c]
                  && InRange(img.data, a.chains[first]) && c !in s0 && Progress(img0, a0, first, data, written, cs)
    ensures Progress(img, a, if first == 0 then c else first, data, written + |Chunk(data, written, cs)|, cs)
  {
    if first == 0 {
      ProgressStarts(img, a, c, data, cs);
    } else {
      ChainKnown(a0, a, img, first, c);
      ProgressContinues(img0, a0, img, a, first, c, data, written, cs);
    }
  }

  lemma ArchiveIsNoFolder()
    ensures forall n: ShortName, f: nat, z: nat | f < TWO16 && z < TWO32 :: !IsDirectory(MakeEntry(n, ATTR_ARCHIVE, f, z))
  {
  }

  lemma SameEntry(img: Image, t: Tree, img': Image, t': Tree, d: nat, n: ShortName)
    requires SameFiles(img, t, img', t') && IsDir(t, d)
    ensures Entry(img', t'.alloc, d, n) == Entry(img, t.alloc, d, n)
  {
  }

  lemma SameDirs(img: Image, t: Tree, img': Image, t': Tree, d: nat)
    requires SameFiles(img, t, img', t')
    ensures IsDir(t', d) == IsDir(t, d)
  {
  }

  /** What a file entry says about its chain. */
  lemma FileByEntry(img: Image, t: Tree, cs: nat, d: nat, n: ShortName)
    requires WellFormed(img, t, cs, {}) && IsDir(t, d) && Entry(img, t.alloc, d, n).Some?
    requires !IsDirectory(Entry(img, t.alloc, d, n).value)
    ensures var e := Entry(img, t.alloc, d, n).value;
            && (FileSize(e) == 0 ==> FirstCluster(e) == 0)
            && (FileSize(e) > 0 ==> FirstCluster(e) in t.alloc.chains)
            && FileSize(e) <= |ChainData(img, t.alloc, FirstCluster(e))|
            && FileAt(img, t, d, n) == Some(ChainData(img, t.alloc, FirstCluster(e))[..FileSize(e)])
  {
    hide Partition, Physical, OwnerOk, Slots, SlotsOf, DirOk, Lookup, ChainData, FirstCluster, FileSize, IsDirectory, IsDot,
         Entry;
    EntryIsOk(img, t, cs, {}, d, n);
    DotsAreFolders(Entry(img, t.alloc, d, n).value);
    ZeroIsNoChain(img, t, cs, {});
  }

  lemma PendingIsUnowned(img: Image, t: Tree, cs: nat, first: nat, c: nat)
    requires WellFormed(img, t, cs, {first}) && first in t.alloc.chains && c in t.alloc.chains[first]
    ensures Unowned(t, c)
  {
    assert Owns(img.fat, t.alloc, first);
  }
}
