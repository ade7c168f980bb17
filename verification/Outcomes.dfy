/** The result codes, what they mean, and what the driver's operations do to the volume, also when they fail. */
module Outcomes {
  import opened Bytes
  import opened Chains
  import opened Contents
  import opened Directories
  import opened ShortNames
  import opened Volumes
  import opened EntrySteps
  import opened Costs
  import opened Space
  import opened Walks

  const OK := 0
  const ERR_IO := -1
  const ERR_BAD_BPB := -2
  const ERR_NOT_FAT12 := -3
  const ERR_OUT_OF_RANGE := -4
  const ERR_NO_FREE_CLUSTER := -5
  const ERR_INVALID_NAME := -6
  const ERR_NOT_FOUND := -7
  const ERR_NOT_DIRECTORY := -8
  const ERR_ALREADY_EXISTS := -9
  const ERR_DIR_FULL := -10
  const ERR_BUFFER_SMALL := -11
  const ERR_NOT_FILE := -12
  const ERR_NOT_INITIALIZED := -13

  /** The result of storing an entry and `n` clusters on a disk that works; the entry takes another cluster when it is a
      new one and its directory is full, and the root directory cannot grow. */
  ghost function StoreOutcome(img: Image, a: Allocation, d: nat, name: ShortName, n: nat): int {
    if FreeCount(img.fat) < n then ERR_NO_FREE_CLUSTER
    else if Entry(img, a, d, name).Some? || !DirFull(img, a, d) then OK
    else if d == 0 then ERR_DIR_FULL
    else if FreeCount(img.fat) == n then ERR_NO_FREE_CLUSTER
    else OK
  }

  /** The result of fat12_write_file on a disk that works, for a file that takes `n` clusters. */
  ghost function WriteOutcome(img: Image, t: Tree, d: nat, name: ShortName, n: nat): int {
    if FolderAt(img, t, d, name).Some? then ERR_ALREADY_EXISTS else StoreOutcome(img, t.alloc, d, name, n)
  }

  /** The result of fat12_create_directory on a disk that works. */
  ghost function MakeOutcome(img: Image, t: Tree, d: nat, name: ShortName): int {
    if Entry(img, t.alloc, d, name).Some? then ERR_ALREADY_EXISTS else StoreOutcome(img, t.alloc, d, name, 1)
  }

  /** The result of fat12_delete_file, unless the disk fails. */
  ghost function DeleteOutcome(img: Image, t: Tree, d: nat, name: ShortName): int {
    if FileAt(img, t, d, name).Some? then OK
    else if FolderAt(img, t, d, name).Some? then ERR_NOT_FILE
    else ERR_NOT_FOUND
  }

  /** No slot of the directory is free. */
  ghost predicate EverySlotTaken(img: Image, a: Allocation, d: nat) {
    forall i | 0 <= i < |SlotsOf(img, a, d)| :: SlotsOf(img, a, d)[i][0] != 0x00 && SlotsOf(img, a, d)[i][0] != 0xE5
  }

  /** What the results of writing, of making a directory and of deleting tell: -9 a name that is taken, -10 a full root, -5 too few
      free clusters, counting the one that a full subdirectory needs for a new name, -12 a directory, -7 no such name. */
  lemma OutcomesTell(img: Image, t: Tree, d: nat, name: ShortName, n: nat)
    requires IsDir(t, d) && IsValidChar(name[0])
    ensures var file, folder := FileAt(img, t, d, name).Some?, FolderAt(img, t, d, name).Some?;
            var full := EverySlotTaken(img, t.alloc, d);
            var more := if d != 0 && full then 1 else 0;
            && WriteOutcome(img, t, d, name, n) ==
                 (if folder then -9
                  else if file then (if n <= FreeCount(img.fat) then 0 else -5)
                  else if n + more > FreeCount(img.fat) then -5
                  else if d == 0 && full then -10
                  else 0)
            && MakeOutcome(img, t, d, name) ==
                 (if file || folder then -9 else if 1 + more > FreeCount(img.fat) then -5 else if d == 0 && full then -10 else 0)
            && DeleteOutcome(img, t, d, name) == (if file then 0 else if folder then -12 else -7)
  {
    hide FileAt, FolderAt, AttrAt, FreeCount, Entry, SlotsOf;
    FolderByEntry(img, t, d, name);
    FullIsTaken(img, t.alloc, d);
  }

  lemma FullIsTaken(img: Image, a: Allocation, d: nat)
    ensures DirFull(img, a, d) <==> EverySlotTaken(img, a, d)
  {
    hide SlotsOf;
  }

  lemma OutcomeByEntry(img: Image, t: Tree, d: nat, name: ShortName)
    requires IsDir(t, d) && IsValidChar(name[0])
    ensures var was := Entry(img, t.alloc, d, name);
            DeleteOutcome(img, t, d, name) == if was.None? then ERR_NOT_FOUND else if IsDirectory(was.value) then ERR_NOT_FILE else OK
  {
    FolderByEntry(img, t, d, name);
  }

  /** What the result of writing an entry says about the directory and the free clusters before; `fine` says that no command
      has failed, and `kept` that no write to the directory did. */
  ghost predicate Fullness(res: int, kept: bool, fine: bool, img: Image, a: Allocation, d: nat, name: ShortName) {
    var isNew := Entry(img, a, d, name).None? && DirFull(img, a, d);
    && (res == ERR_DIR_FULL ==> d == 0 && isNew)
    && (res == ERR_NO_FREE_CLUSTER ==> d != 0 && isNew && (fine ==> FreeCount(img.fat) == 0))
    && (res == OK || !kept ==> StoreOutcome(img, a, d, name, 0) == OK)
  }

  /** Storing `n` clusters first and the entry afterwards. */
  lemma OutcomeShift(img: Image, a: Allocation, img1: Image, a1: Allocation, d: nat, name: ShortName, n: nat)
    requires SlotsOf(img1, a1, d) == SlotsOf(img, a, d) && FreeCount(img1.fat) + n == FreeCount(img.fat)
    ensures StoreOutcome(img, a, d, name, n) == StoreOutcome(img1, a1, d, name, 0)
  {
    hide SlotsOf, FreeCount;
    SameSlotsSameFull(img, a, img1, a1, d);
    SameSlotsSameEntry(img, a, img1, a1, d, name);
  }

  lemma SameSlotsSameFull(img: Image, a: Allocation, img': Image, a': Allocation, d: nat)
    requires SlotsOf(img', a', d) == SlotsOf(img, a, d)
    ensures DirFull(img', a', d) == DirFull(img, a, d)
  {
  }

  lemma SameSlotsSameEntry(img: Image, a: Allocation, img': Image, a': Allocation, d: nat, name: ShortName)
    requires SlotsOf(img', a', d) == SlotsOf(img, a, d)
    ensures Entry(img', a', d, name) == Entry(img, a, d, name)
  {
  }

  lemma PlaceIsFree(img: Image, a: Allocation, d: nat, i: nat)
    requires i < |SlotsOf(img, a, d)| && IsFree(SlotsOf(img, a, d)[i])
    ensures !DirFull(img, a, d)
  {
  }

  /** `c` is a loose cluster that ends where it starts, and `prev` the last one of the loose chain or full directory `h`. */
  ghost predicate Linkable(img: Image, t: Tree, cs: nat, loose: set<nat>, h: nat, prev: nat, c: nat) {
    && c in loose && c in t.alloc.chains && t.alloc.chains[c] == [c] && h in t.alloc.chains && h != c
    && |t.alloc.chains[h]| > 0 && prev == LastOf(t.alloc, h) && c < |img.fat| && img.fat[c] == EOC
    && (h in loose || (h in t.dirs && c < |img.data| && img.data[c] == Zeros(cs)))
  }

  /** What linking it does to the volume. */
  ghost predicate Linked(img: Image, t: Tree, img': Image, t': Tree, loose: set<nat>, h: nat, prev: nat, c: nat) {
    && prev < |img.fat| && img' == img.(fat := img.fat[prev := c]) && FreeCount(img'.fat) == FreeCount(img.fat)
    && SameFiles(img, t, img', t') && (h in loose ==> Undisturbed(img, t, img', t'))
  }

  lemma LinkEffect(img: Image, t: Tree, cs: nat, loose: set<nat>, img': Image, h: nat, prev: nat, c: nat)
    requires WellFormed(img, t, cs, loose) && Linkable(img, t, cs, loose, h, prev, c)
    requires img' == img.(fat := Appended(img.fat, prev, c))
    ensures h in t.alloc.chains && prev < |img.fat| && c < |img.fat| && img.fat[c] == EOC && prev != c
    ensures Linked(img, t, img', t.(alloc := WithLink(t.alloc, h, c)), loose, h, prev, c)
    ensures WellFormed(img', t.(alloc := WithLink(t.alloc, h, c)), cs, loose - {c})
  {
    hide Owns, OnChain;
    LastIsNotSingle(img.fat, t.alloc, h, c);
    LinkedClusters(img.fat, t.alloc, h, c);
    FreeCountUpdate(img.fat, prev, c);
    assert img'.fat == img.fat[prev := c];
    if h in loose {
      LinkStep(img, t, cs, loose, img', h, c);
    } else {
      GrowStep(img, t, cs, loose, img', h, c);
    }
  }

  lemma LinkedFiles(img: Image, t: Tree, img': Image, t': Tree, loose: set<nat>, h: nat, prev: nat, c: nat)
    requires Linked(img, t, img', t', loose, h, prev, c)
    ensures SameFiles(img, t, img', t') && img'.data == img.data && img'.root == img.root
    ensures FreeCount(img'.fat) == FreeCount(img.fat) && prev < |img.fat| && img'.fat == img.fat[prev := c]
    ensures h in loose ==> Undisturbed(img, t, img', t')
  {
  }

  lemma GrownIsFreePlace(loose: set<nat>, img: Image, t: Tree, img': Image, t': Tree, d: nat, c: nat)
    requires DirectoryGrown(loose, img, t, img', t', d, c) && SameFiles(img, t, img', t') && d != 0 && FreeCount(img.fat) > 0
    ensures d in t.alloc.chains
    ensures FreeEffect(OK, img, t, img', t', loose, d, c, 0, |SlotsOf(img, t.alloc, d)|, |t.alloc.chains[d]|)
  {
    hide SameFiles, LooseKept, Lengthened, SlotsOf, Located, AllLiveBefore, FreeCount, DirFull, Entry;
  }

  /** The chain `s` of clusters taken for a file has become `s'`, by the free cluster `c`. */
  ghost predicate Extended(img: Image, values: seq<nat>, s: seq<nat>, img': Image, values': seq<nat>, s': seq<nat>, c: nat) {
    && 2 <= c < |img.fat| && s' == s + [c] && c !in s
    && OnlyDiffersAt(img, img', {c}) && FreeCount(img'.fat) + 1 == FreeCount(img.fat)
    && c < |values| && values[c] == FREE && |values'| == |values|
    && (forall x | 0 <= x < |values| && x != c && x !in s :: values'[x] == values[x])
  }

  lemma ExtendedParts(img: Image, values: seq<nat>, s: seq<nat>, img': Image, values': seq<nat>, s': seq<nat>, c: nat)
    requires Extended(img, values, s, img', values', s', c)
    ensures s' == s + [c] && c !in s && OnlyDiffersAt(img, img', {c}) && FreeCount(img'.fat) + 1 == FreeCount(img.fat)
  {
  }

  lemma ExtendedIs(img: Image, values: seq<nat>, s: seq<nat>, img1: Image, values1: seq<nat>, img': Image, values': seq<nat>,
                   s': seq<nat>, prev: nat, c: nat)
    requires 2 <= c < |img.fat| && s' == s + [c] && c !in s && OnlyDiffersAt(img, img1, {c})
    requires img'.data == img1.data && img'.root == img1.root
    requires FreeCount(img1.fat) + 1 == FreeCount(img.fat) && FreeCount(img'.fat) == FreeCount(img1.fat)
    requires c < |values| && values[c] == FREE && values1 == values[c := EOC]
    requires if s == [] then values' == values1 else prev in s && prev < |values| && values' == values1[prev := c]
    ensures Extended(img, values, s, img', values', s', c)
  {
  }

  /** A freshly allocated cluster can be linked to the chain under construction. */
  lemma PendingIsLinkable(img0: Image, t0: Tree, img: Image, t: Tree, cs: nat, first: nat, prev: nat, c: nat)
    requires Partition(img0.fat, t0.alloc)
    requires t == t0.(alloc := WithNew(t0.alloc, c)) && c !in t0.alloc.at && c !in t0.alloc.chains
    requires c < |img.fat| && img.fat[c] == EOC
    requires first != 0 ==> first in t0.alloc.chains && |t0.alloc.chains[first]| > 0 && prev == LastOf(t0.alloc, first)
    ensures first != 0 ==>
              Linkable(img, t, cs, {first, c}, first, prev, c) && c !in t0.alloc.chains[first] && prev in t0.alloc.chains[first]
  {
    UsedClustersAreKnown(img0.fat, t0.alloc, c);
  }

  /** The chain holds the data, and has no cluster to spare. */
  ghost predicate Holds(img: Image, a: Allocation, first: nat, data: seq<byte>, cs: nat) {
    if data == [] then first == 0 else first >= 2 && Progress(img, a, first, data, |data|, cs)
  }

  lemma FailureScars(img: Image, a: Allocation, img': Image, d: nat, oc: nat)
    requires d != 0 && d in a.chains && oc in a.chains[d] && OnlyDiffersAt(img, img', {oc})
    ensures Scarred(img, a, img', d)
  {
  }

  /** A failed write to the directory, and the chain given back: the other directories do not notice. */
  lemma StillElsewhere(img0: Image, t0: Tree, mid: Image, t1: Tree, img1: Image, img: Image, t: Tree, cs: nat,
                       loose: set<nat>, d: nat, first: nat)
    requires SameFiles(img0, t0, mid, t1) && WellFormed(mid, t1, cs, loose) && IsDir(t1, d)
    requires Scarred(mid, t1.alloc, img1, d) && img.data == img1.data && img.root == img1.root
    requires loose == if first == 0 then {} else {first}
    requires first != 0 ==> first in t1.alloc.chains
    requires t == t1.(alloc := if first == 0 then t1.alloc else Without(t1.alloc, first))
    ensures ElsewhereSame(img0, t0, img, t, d)
  {
    ZeroIsNoChain(mid, t1, cs, loose);
    ScarSpares(mid, t1, cs, loose, img, t.alloc, d);
    SameThenElsewhere(img0, t0, mid, t1, img, t, d);
  }

  lemma SameIsElsewhere(img: Image, t: Tree, img': Image, t': Tree, d: nat)
    requires SameFiles(img, t, img', t')
    ensures ElsewhereSame(img, t, img', t', d)
  {
    hide FileAt, FolderAt, AttrAt, Entry;
    SameAttributes(img, t, img', t');
  }

  /** With fewer than `n` free clusters nothing is stored. */
  lemma FewAreNotEnough(img: Image, a: Allocation, d: nat, name: ShortName, n: nat)
    ensures FreeCount(img.fat) < n <==> StoreOutcome(img, a, d, name, n) == ERR_NO_FREE_CLUSTER && FreeCount(img.fat) < n
    ensures StoreOutcome(img, a, d, name, n) == OK ==> n <= FreeCount(img.fat)
  {
  }

  lemma StoredThenPublished(res: int, kept: bool, fine: bool, img0: Image, t0: Tree, img1: Image, t1: Tree, img: Image, t: Tree, d: nat,
                            name: ShortName, data: seq<byte>, n: nat)
    requires PublishEffect(res, kept, fine, img1, t1, img, t, d, name, data, 0)
    requires SameFiles(img0, t0, img1, t1) && IsDir(t0, d) && SlotsOf(img1, t1.alloc, d) == SlotsOf(img0, t0.alloc, d)
    requires StoreOutcome(img0, t0.alloc, d, name, n) == StoreOutcome(img1, t1.alloc, d, name, 0)
    ensures PublishEffect(res, kept, fine, img0, t0, img, t, d, name, data, n)
    ensures Unharmed(img0, t0.alloc, img, t.alloc, d) <==> Unharmed(img1, t1.alloc, img, t.alloc, d)
  {
    hide SameFiles, FileChanged, ElsewhereSame, SlotsOf, Lengthened, StoreOutcome, DirFull, Entry;
    SameSlotsSameFull(img0, t0.alloc, img1, t1.alloc, d);
    SameSlotsSameEntry(img0, t0.alloc, img1, t1.alloc, d, name);
    if res == OK { SameThenChanged(img0, t0, img1, t1, img, t, d, name, Some(data)); }
    if SameFiles(img1, t1, img, t) { SameFilesJoin(img0, t0, img1, t1, img, t); }
    if ElsewhereSame(img1, t1, img, t, d) { SameThenElsewhere(img0, t0, img1, t1, img, t, d); }
  }

  /** Giving the chain under construction back does not touch the directory. */
  lemma WithdrawnSlots(img1: Image, t1: Tree, img: Image, t: Tree, mid: Image, cs: nat, first: nat, d: nat)
    requires WellFormed(mid, t1, cs, if first == 0 then {} else {first}) && IsDir(t1, d) && img1.fat == mid.fat
    requires img.data == img1.data && img.root == img1.root
    requires t == t1.(alloc := if first == 0 then t1.alloc else Without(t1.alloc, first))
    requires img.fat == if first != 0 && first in t1.alloc.chains then Zeroed(img1.fat, t1.alloc.chains[first]) else img1.fat
    ensures SlotsOf(img, t.alloc, d) == SlotsOf(img1, t1.alloc, d)
    ensures Garbled(img1, t1.alloc, d) ==> Garbled(img, t.alloc, d)
  {
    hide SlotsOf, DirOk, EntryOk, OwnerOk, IsChain;
    var loose := if first == 0 then {} else {first};
    ZeroIsNoChain(mid, t1, cs, loose);
    PartitionOf(mid, t1, cs, loose);
    if d != 0 {
      ChainsInRange(img1.fat, t1.alloc);
      if first != 0 {
        FreeKeepsPartition(img1.fat, t1.alloc, first);
        ChainsInRange(img.fat, t.alloc);
      }
    }
    SameClustersSameSlots(img1, t1.alloc, img, t.alloc, d);
  }

  /** The directory no longer holds the name, or has live slots behind never-used ones. */
  ghost predicate Spoilt(img: Image, a: Allocation, d: nat, name: ShortName) {
    !(DirOk(SlotsOf(img, a, d)) && Entry(img, a, d, name).Some?)
  }

  /** A deletion that failed half way. The file's clusters are free; if its entry is still the same, the volume is no file
      system any more, whatever tree one tries. The files of other directories are not affected. */
  ghost predicate Undeleted(img0: Image, t0: Tree, img: Image, t: Tree, cs: nat, d: nat, name: ShortName) {
    var was := Entry(img0, t0.alloc, d, name);
    && d != 0 && was.Some? && !IsDirectory(was.value) && ElsewhereSame(img0, t0, img, t, d)
    && (FirstCluster(was.value) >= 2 ==> FirstCluster(was.value) < |img.fat| && img.fat[FirstCluster(was.value)] == FREE)
    && (FirstCluster(was.value) >= 2 && img.data == img0.data && img.root == img0.root ==>
          Entry(img, t.alloc, d, name) == was && forall t', loose | IsDir(t', d) :: !WellFormed(img, t', cs, loose))
  }

  lemma UndeletedHere(img0: Image, t0: Tree, img1: Image, img: Image, a1: Allocation, cs: nat, d: nat, name: ShortName)
    requires WellFormed(img0, t0, cs, {}) && IsDir(t0, d) && Entry(img0, t0.alloc, d, name).Some?
    requires var was := Entry(img0, t0.alloc, d, name).value;
             && !IsDirectory(was) && ChainFreed(img0, t0, img1, a1, FirstCluster(was)) && SlotsOf(img1, a1, d) == SlotsOf(img0, t0.alloc, d)
             && Scannable(img1, a1, cs, d)
             && (FirstCluster(was) >= 2 ==> FirstCluster(was) < |img1.fat| && img1.fat[FirstCluster(was)] == FREE)
    requires img.fat == img1.fat && (img == img1 || Scarred(img1, a1, img, d)) && d != 0
    ensures Undeleted(img0, t0, img, t0.(alloc := a1), cs, d, name)
  {
    hide WellFormed;
    var was := Entry(img0, t0.alloc, d, name).value;
    DeletionSpares(img0, t0, img1, img, a1, cs, d, name);
    if FirstCluster(was) >= 2 && img.data == img0.data && img.root == img0.root {
      assert img == img1;
      SameSlotsSameEntry(img0, t0.alloc, img1, a1, d, name);
      EntryIsOk(img0, t0, cs, {}, d, name);
      forall t', loose | IsDir(t', d) ensures !WellFormed(img, t', cs, loose) {
        DanglingForEveryTree(img, a1, cs, d, name, t', loose);
      }
    }
  }

  lemma DeletionSpares(img0: Image, t0: Tree, img1: Image, img: Image, a1: Allocation, cs: nat, d: nat, name: ShortName)
    requires WellFormed(img0, t0, cs, {}) && IsDir(t0, d) && d != 0 && Entry(img0, t0.alloc, d, name).Some?
    requires var was := Entry(img0, t0.alloc, d, name).value;
             !IsDirectory(was) && ChainFreed(img0, t0, img1, a1, FirstCluster(was))
    requires img == img1 || Scarred(img1, a1, img, d)
    ensures ElsewhereSame(img0, t0, img, t0.(alloc := a1), d)
  {
    hide SlotsOf, DirOk, Entry, FirstCluster, IsDirectory, ElsewhereSame, EntryOk, OwnerOk, Heads;
    ZeroIsNoChain(img0, t0, cs, {});
    HeadsOwnedHere(img0, t0, cs, {}, d, name);
    HeadsByCluster(img0, t0, cs, {}, d, name);
    ScarSpares(img0, t0, cs, {}, img, a1, d);
  }

  lemma NothingToFree(img: Image, t: Tree, img': Image, a': Allocation, head: nat)
    requires ChainFreed(img, t, img', a', head)
    ensures head < 2 ==> img' == img && t.(alloc := a') == t
    ensures img'.data == img.data && img'.root == img.root
  {
  }

  /** The entry `name` of `d` was there, and is now the entry of a new directory; no other entry has changed. The clusters of
      an overwritten file stay taken, although no entry leads to them any more. */
  ghost predicate Overwritten(img0: Image, t0: Tree, img: Image, t: Tree, d: nat, name: ShortName, h: nat) {
    && t.dirs == t0.dirs && Entry(img0, t0.alloc, d, name).Some? && Entry(img, t.alloc, d, name).Some?
    && IsDirectory(Entry(img, t.alloc, d, name).value) && FirstCluster(Entry(img, t.alloc, d, name).value) == h
    && (forall m | m != name :: Entry(img, t.alloc, d, m) == Entry(img0, t0.alloc, d, m))
    && (var was := Entry(img0, t0.alloc, d, name).value;
        !IsDirectory(was) && FileSize(was) > 0 ==> FirstCluster(was) < |img.fat| && img.fat[FirstCluster(was)] != FREE)
  }

  /** The slots of the directory are what they were, or have never-used ones behind them. */
  ghost predicate Unharmed(img: Image, a: Allocation, img': Image, a': Allocation, d: nat) {
    Lengthened(SlotsOf(img, a, d), SlotsOf(img', a', d))
  }

  /** What the search for the place of an entry did: in the file system there is now one, or the result tells why not. */
  ghost predicate PlaceEffect(res: int, replaced: bool, fine: bool, img0: Image, t0: Tree, img: Image, t: Tree, loose: set<nat>, d: nat,
                              name: ShortName, oc: nat, idx: nat, i: nat, j: nat) {
    && SameFiles(img0, t0, img, t) && t == t0.(alloc := t.alloc) && Unharmed(img0, t0.alloc, img, t.alloc, d)
    && Fullness(res, true, fine, img0, t0.alloc, d, name)
    && (res == OK ==> && LooseKept(loose, img0, t0, img, t) && Located(img, t.alloc, d, i, oc, idx, j)
                      && IsPlaceFor(SlotsOf(img, t.alloc, d), name, i) && replaced == Entry(img0, t0.alloc, d, name).Some?)
  }

  lemma UnharmedRefl(img: Image, a: Allocation, img': Image, a': Allocation, d: nat)
    requires SlotsOf(img', a', d) == SlotsOf(img, a, d)
    ensures Unharmed(img, a, img', a', d)
  {
    hide SlotsOf;
  }

  lemma NotSearched(fine: bool, img: Image, t: Tree, loose: set<nat>, d: nat, name: ShortName, oc: nat, idx: nat, i: nat, j: nat)
    ensures PlaceEffect(ERR_IO, false, fine, img, t, img, t, loose, d, name, oc, idx, i, j)
  {
    hide SlotsOf, Located, IsPlaceFor, LooseKept;
    SameFilesRefl(img, t);
  }

  /** What the search for a free slot did: there is one now, or the directory is full. */
  ghost predicate FreeEffect(res: int, img0: Image, t0: Tree, img: Image, t: Tree, loose: set<nat>, d: nat, oc: nat, idx: nat,
                             i: nat, j: nat) {
    && SameFiles(img0, t0, img, t) && t == t0.(alloc := t.alloc)
    && (res == OK ==> FreePlace(loose, img0, t0, img, t, d, oc, idx, i, j))
    && (res != OK ==> Unharmed(img0, t0.alloc, img, t.alloc, d))
    && (res in {ERR_DIR_FULL, ERR_NO_FREE_CLUSTER} ==> DirFull(img0, t0.alloc, d))
    && (res == OK && DirFull(img0, t0.alloc, d) ==> d != 0 && FreeCount(img0.fat) > 0)
  }

  lemma FreeHere(res: int, img: Image, t: Tree, cs: nat, loose: set<nat>, d: nat, oc: nat, idx: nat, i: nat, j: nat)
    requires WellFormed(img, t, cs, loose)
    requires res == OK ==> Located(img, t.alloc, d, i, oc, idx, j) && AllLiveBefore(SlotsOf(img, t.alloc, d), i)
                           && i < |SlotsOf(img, t.alloc, d)| && IsFree(SlotsOf(img, t.alloc, d)[i])
    requires res in {ERR_DIR_FULL, ERR_NO_FREE_CLUSTER} ==> DirFull(img, t.alloc, d)
    ensures res == OK ==> !DirFull(img, t.alloc, d)
    ensures FreeEffect(res, img, t, img, t, loose, d, oc, idx, i, j)
  {
    hide WellFormed, SameFiles, FreePlace, SlotsOf, Located, AllLiveBefore, IsFree, FreeCount, DirFull;
    SameFilesRefl(img, t);
    if res == OK {
      FreePlaceHere(img, t, cs, loose, d, oc, idx, i, j);
      PlaceIsFree(img, t.alloc, d, i);
    } else {
      UnharmedRefl(img, t.alloc, img, t.alloc, d);
    }
  }

  lemma NotGrown(img0: Image, t0: Tree, img: Image, loose: set<nat>, d: nat, oc: nat, idx: nat, i: nat, j: nat)
    requires SameFiles(img0, t0, img, t0) && SlotsOf(img, t0.alloc, d) == SlotsOf(img0, t0.alloc, d) && DirFull(img0, t0.alloc, d)
    ensures FreeEffect(ERR_NO_FREE_CLUSTER, img0, t0, img, t0, loose, d, oc, idx, i, j)
  {
    hide SameFiles, SlotsOf, FreePlace, FreeCount, DirFull;
    UnharmedRefl(img0, t0.alloc, img, t0.alloc, d);
  }

  lemma FreeEffectFiles(res: int, img0: Image, t0: Tree, img: Image, t: Tree, loose: set<nat>, d: nat, oc: nat, idx: nat, i: nat, j: nat)
    requires FreeEffect(res, img0, t0, img, t, loose, d, oc, idx, i, j)
    ensures SameFiles(img0, t0, img, t) && t == t0.(alloc := t.alloc)
  {
  }

  lemma SearchedIsFull(res: int, fine: bool, img: Image, t: Tree, img': Image, t': Tree, loose: set<nat>, d: nat, name: ShortName,
                       oc: nat, idx: nat, i: nat, j: nat)
    requires FreeEffect(res, img, t, img', t', loose, d, oc, idx, i, j) && Entry(img, t.alloc, d, name).None?
    requires res == ERR_DIR_FULL ==> d == 0
    requires res == ERR_NO_FREE_CLUSTER ==> d != 0 && (fine ==> FreeCount(img.fat) == 0)
    ensures Fullness(res, true, fine, img, t.alloc, d, name)
  {
    hide DirFull, Entry, FreeCount, SameFiles, FreePlace, SlotsOf, Lengthened;
  }

  lemma RoomToGrow(img: Image, a: Allocation, d: nat, name: ShortName)
    requires StoreOutcome(img, a, d, name, 0) == OK && Entry(img, a, d, name).None? && DirFull(img, a, d)
    ensures d != 0 && FreeCount(img.fat) > 0
  {
    hide DirFull, Entry, FreeCount;
  }

  lemma FullnessAfter(res: int, kept: bool, fine: bool, fine': bool, img: Image, a: Allocation, d: nat, name: ShortName)
    requires Fullness(OK, true, fine, img, a, d, name) && (res == OK || res == ERR_IO)
    ensures Fullness(res, kept, fine', img, a, d, name)
  {
    hide StoreOutcome, DirFull, Entry;
  }

  lemma FoundIsPlace(fine: bool, img: Image, t: Tree, cs: nat, loose: set<nat>, d: nat, name: ShortName, oc: nat, idx: nat, i: nat,
                     j: nat)
    requires WellFormed(img, t, cs, loose) && IsAt(SlotsOf(img, t.alloc, d), name, i) && Located(img, t.alloc, d, i, oc, idx, j)
    requires Entry(img, t.alloc, d, name).Some?
    ensures PlaceEffect(OK, true, fine, img, t, img, t, loose, d, name, oc, idx, i, j)
    ensures StoreOutcome(img, t.alloc, d, name, 0) == OK
  {
    hide WellFormed, SlotsOf, Located, IsAt, IsPlaceFor, DirFull, Lookup;
    SameFilesRefl(img, t);
    LooseKeptRefl(img, t, cs, loose);
    TakenPlaceIsPlace(img, t.alloc, d, name, i);
  }

  lemma FreeIsPlace(res: int, fine: bool, img0: Image, t0: Tree, img: Image, t: Tree, loose: set<nat>, d: nat, name: ShortName, oc: nat,
                    idx: nat, i: nat, j: nat)
    requires FreeEffect(res, img0, t0, img, t, loose, d, oc, idx, i, j) && Entry(img0, t0.alloc, d, name).None?
    requires Fullness(res, true, fine, img0, t0.alloc, d, name)
    ensures PlaceEffect(res, false, fine, img0, t0, img, t, loose, d, name, oc, idx, i, j)
  {
    hide DirFull, SameFiles, SlotsOf, Located, IsPlaceFor, Fullness, Lookup, AllLiveBefore, LooseKept, Lengthened;
    if res == OK { FreePlaceIsPlace(img, t.alloc, d, name, i); }
  }

  lemma LaterIsPlace(res: int, fine: bool, fine': bool, img0: Image, t0: Tree, img: Image, t: Tree, loose: set<nat>, d: nat,
                     name: ShortName, oc: nat, idx: nat, i: nat, j: nat)
    requires PlaceEffect(res, false, fine, img0, t0, img, t, loose, d, name, oc, idx, i, j) && (fine' ==> fine)
    ensures PlaceEffect(res, false, fine', img0, t0, img, t, loose, d, name, oc, idx, i, j)
  {
    hide SameFiles, SlotsOf, Located, IsPlaceFor, LooseKept, Lengthened, StoreOutcome, DirFull, Entry;
  }

  /** What fat12_write_directory_entry did: `mid` is the file system just before the slot was written. */
  ghost predicate EntryEffect(res: int, kept: bool, replaced: bool, fine: bool, img0: Image, t0: Tree, mid: Image, img: Image,
                              t: Tree, cs: nat, loose: set<nat>, d: nat, name: ShortName, e: Slot) {
    && WellFormed(mid, t, cs, loose) && SameFiles(img0, t0, mid, t) && t == t0.(alloc := t.alloc) && img.fat == mid.fat
    && Unharmed(img0, t0.alloc, mid, t.alloc, d)
    && (res == OK ==> && EntryChanged(mid, t, img, cs, d, name, Some(e)) && LooseKept(loose, img0, t0, mid, t)
                      && replaced == Entry(img0, t0.alloc, d, name).Some?)
    && (kept && res != OK ==> img == mid)
    && (!kept ==> d != 0 && Scarred(mid, t.alloc, img, d))
    && Fullness(res, kept, fine, img0, t0.alloc, d, name)
  }

  /** A failed write after which the directory still has its slots has changed nothing. */
  lemma UnharmedIsSame(img0: Image, t0: Tree, mid: Image, img: Image, t: Tree, cs: nat, loose: set<nat>, d: nat)
    requires WellFormed(mid, t, cs, loose) && IsDir(t, d) && d != 0 && Scarred(mid, t.alloc, img, d) && img.fat == mid.fat
    requires forall c | 0 <= c < |img.fat| && 2 <= c < |img.data| :: |img.data[c]| == cs
    requires Unharmed(img0, t0.alloc, mid, t.alloc, d) && Unharmed(img0, t0.alloc, img, t.alloc, d)
    ensures img == mid
  {
    hide SlotsOf, DirOk, EntryOk, OwnerOk;
    DirectoriesAreScannable(mid, t, cs, loose, d);
    ChainsInRange(mid.fat, t.alloc);
    SameCount(mid, img, t.alloc, cs, d);
    var n := |SlotsOf(img0, t0.alloc, d)|;
    var slots, slots' := SlotsOf(mid, t.alloc, d), SlotsOf(img, t.alloc, d);
    assert forall k | 0 <= k < |slots| :: slots[k] == slots'[k] by {
      assert forall k | 0 <= k < n :: slots[k] == slots[..n][k] && slots'[k] == slots'[..n][k];
    }
    assert slots == slots';
    UnscarredIsSame(mid, t.alloc, cs, img, d);
  }

  lemma SameCount(img: Image, img': Image, a: Allocation, cs: nat, d: nat)
    requires Scannable(img, a, cs, d) && d != 0 && |img'.data| == |img.data|
    requires forall c | c in a.chains[d] && c < |img'.data| :: |img'.data[c]| == cs
    ensures |SlotsOf(img', a, d)| == |SlotsOf(img, a, d)|
  {
    hide Slots, DirOk, ChainBytes, IsChain;
    SlotsOfChain(img, a, d);
    SlotsOfChain(img', a, d);
    ChainBytesLength(img.data, a.chains[d], cs);
    ChainBytesLength(img'.data, a.chains[d], cs);
  }

  /** What storing `n` clusters and then the entry of a file did; `fine` says that no command has failed. */
  ghost predicate PublishEffect(res: int, kept: bool, fine: bool, img0: Image, t0: Tree, img: Image, t: Tree, d: nat, name: ShortName,
                                data: seq<byte>, n: nat) {
    && (fine ==> res == StoreOutcome(img0, t0.alloc, d, name, n))
    && (kept || (d != 0 && res == ERR_IO && StoreOutcome(img0, t0.alloc, d, name, n) == OK && ElsewhereSame(img0, t0, img, t, d)))
    && (res == OK ==> FileChanged(img0, t0, img, t, d, name, Some(data)))
    && (res != OK && (kept || Unharmed(img0, t0.alloc, img, t.alloc, d)) ==> SameFiles(img0, t0, img, t))
    && (res == ERR_DIR_FULL ==> d == 0 && Entry(img0, t0.alloc, d, name).None? && DirFull(img0, t0.alloc, d))
  }

  /** What fat12_write_file did on any disk, for a file of `n` clusters. It is not kept when the write to the directory failed,
      which takes a subdirectory, and a name, an amount of data and a number of free clusters with which it would succeed. */
  ghost predicate WriteEffect(res: int, kept: bool, img0: Image, t0: Tree, img: Image, t: Tree, d: nat, name: ShortName,
                              data: seq<byte>, n: nat) {
    && (kept || (d != 0 && res == ERR_IO && WriteOutcome(img0, t0, d, name, n) == OK && ElsewhereSame(img0, t0, img, t, d)))
    && (res == OK ==> FileChanged(img0, t0, img, t, d, name, Some(data)))
    && (res != OK && (kept || Unharmed(img0, t0.alloc, img, t.alloc, d)) ==> SameFiles(img0, t0, img, t))
    && (res == ERR_ALREADY_EXISTS ==> FolderAt(img0, t0, d, name).Some?)
    && (res in {OK, ERR_DIR_FULL, ERR_NO_FREE_CLUSTER} ==> FolderAt(img0, t0, d, name).None?)
    && (res == ERR_DIR_FULL ==> d == 0 && Entry(img0, t0.alloc, d, name).None? && DirFull(img0, t0.alloc, d))
  }

  /** What fat12_create_directory did on any disk. It is not kept when a write to the directory failed, or when it overwrote an
      entry whose lookup had failed. Either takes room for the entry, and `n` free clusters: one for the whole of it, none
      when that is taken already. */
  ghost predicate MakeEffect(res: int, kept: bool, img0: Image, t0: Tree, img: Image, t: Tree, d: nat, name: ShortName, h: nat,
                             n: nat) {
    && (kept || (&& (res == OK || (res == ERR_IO && d != 0)) && StoreOutcome(img0, t0.alloc, d, name, n) == OK
                 && ElsewhereSame(img0, t0, img, t, d)))
    && (res == OK ==> kept == Entry(img0, t0.alloc, d, name).None?)
    && (res == OK && kept ==> FolderChanged(img0, t0, img, t, d, name, h))
    && (res == OK && !kept ==> Overwritten(img0, t0, img, t, d, name, h))
    && (res != OK && (kept || Unharmed(img0, t0.alloc, img, t.alloc, d)) ==> SameFiles(img0, t0, img, t))
    && (res == ERR_ALREADY_EXISTS ==> Entry(img0, t0.alloc, d, name).Some?)
    && (res == ERR_DIR_FULL ==> d == 0 && Entry(img0, t0.alloc, d, name).None? && DirFull(img0, t0.alloc, d))
  }

  /** The entry got in. */
  lemma EntryParts(kept: bool, replaced: bool, fine: bool, img0: Image, t0: Tree, mid: Image, img: Image, t: Tree, cs: nat,
                   loose: set<nat>, d: nat, name: ShortName, e: Slot)
    requires EntryEffect(OK, kept, replaced, fine, img0, t0, mid, img, t, cs, loose, d, name, e) && kept
    ensures WellFormed(mid, t, cs, loose) && SameFiles(img0, t0, mid, t) && img.fat == mid.fat
    ensures EntryChanged(mid, t, img, cs, d, name, Some(e)) && LooseKept(loose, img0, t0, mid, t)
    ensures replaced == Entry(img0, t0.alloc, d, name).Some? && StoreOutcome(img0, t0.alloc, d, name, 0) == OK
  {
    hide WellFormed, SameFiles, SlotsOf, Lengthened, EntryChanged, LooseKept, Scarred, DirFull, Entry, FreeCount, StoreOutcome;
  }

  lemma FileEffect(fine: bool, img0: Image, t0: Tree, img: Image, t: Tree, d: nat, name: ShortName, data: seq<byte>)
    requires FileChanged(img0, t0, img, t, d, name, Some(data)) && StoreOutcome(img0, t0.alloc, d, name, 0) == OK
    ensures PublishEffect(OK, true, fine, img0, t0, img, t, d, name, data, 0)
  {
    hide FileChanged, StoreOutcome;
  }

  lemma NothingWritten(res: int, fine: bool, img: Image, t: Tree, d: nat, name: ShortName, data: seq<byte>, n: nat)
    requires if FolderAt(img, t, d, name).Some? && res != ERR_IO then res == ERR_ALREADY_EXISTS else res == ERR_IO && !fine
    ensures WriteEffect(res, true, img, t, img, t, d, name, data, n)
    ensures res != ERR_IO ==> WriteOutcome(img, t, d, name, n) != OK
    ensures fine ==> res == WriteOutcome(img, t, d, name, n)
  {
    hide FolderAt, AttrAt, StoreOutcome;
    SameFilesRefl(img, t);
  }

  lemma NothingMade(img: Image, t: Tree, d: nat, name: ShortName, h: nat, n: nat)
    ensures MakeEffect(ERR_IO, true, img, t, img, t, d, name, h, n)
  {
    hide StoreOutcome;
    SameFilesRefl(img, t);
  }

  lemma FileWritten(res: int, kept: bool, fine: bool, img0: Image, t0: Tree, img: Image, t: Tree, d: nat, name: ShortName,
                    data: seq<byte>, n: nat)
    requires PublishEffect(res, kept, fine, img0, t0, img, t, d, name, data, n) && FolderAt(img0, t0, d, name).None?
    requires res != ERR_ALREADY_EXISTS
    ensures WriteEffect(res, kept, img0, t0, img, t, d, name, data, n)
    ensures WriteOutcome(img0, t0, d, name, n) == StoreOutcome(img0, t0.alloc, d, name, n)
    ensures fine ==> res == WriteOutcome(img0, t0, d, name, n)
  {
    hide FolderAt, AttrAt, StoreOutcome, SameFiles, FileChanged, ElsewhereSame, Lengthened, SlotsOf, DirFull, Entry;
  }

  lemma FolderEffect(kept: bool, img0: Image, t0: Tree, img: Image, t: Tree, d: nat, name: ShortName, h: nat)
    requires StoreOutcome(img0, t0.alloc, d, name, 0) == OK && kept == Entry(img0, t0.alloc, d, name).None?
    requires if kept then FolderChanged(img0, t0, img, t, d, name, h)
             else Overwritten(img0, t0, img, t, d, name, h) && ElsewhereSame(img0, t0, img, t, d)
    ensures MakeEffect(OK, kept, img0, t0, img, t, d, name, h, 0)
  {
    hide FolderChanged, StoreOutcome, Overwritten, ElsewhereSame, Entry;
  }

  /** The entry did not get in, and what had been stored was given back. */
  lemma WithdrawnEffect(res: int, kept: bool, replaced: bool, fine: bool, img0: Image, t0: Tree, mid: Image, img1: Image, t1: Tree,
                        img: Image, t: Tree, cs: nat, loose: set<nat>, d: nat, name: ShortName, e: Slot, data: seq<byte>, h: nat)
    requires EntryEffect(res, kept, replaced, fine, img0, t0, mid, img1, t1, cs, loose, d, name, e)
    requires if res == ERR_IO then !fine else res in {ERR_DIR_FULL, ERR_NO_FREE_CLUSTER} && kept
    requires ElsewhereSame(img0, t0, img, t, d) && SlotsOf(img, t.alloc, d) == SlotsOf(img1, t1.alloc, d)
    requires kept || Unharmed(img0, t0.alloc, img1, t1.alloc, d) ==> img1 == mid
    requires img1 == mid ==> SameFiles(img0, t0, img, t)
    ensures Unharmed(img0, t0.alloc, img, t.alloc, d) ==> img1 == mid
    ensures PublishEffect(res, kept, fine, img0, t0, img, t, d, name, data, 0) && MakeEffect(res, kept, img0, t0, img, t, d, name, h, 0)
    ensures fine ==> res == StoreOutcome(img0, t0.alloc, d, name, 0)
  {
    hide WellFormed, SameFiles, ElsewhereSame, SlotsOf, Lengthened, EntryChanged, LooseKept, Scarred, DirFull, Entry, FreeCount;
  }

  lemma MadeThenSame(res: int, kept: bool, img0: Image, t0: Tree, img1: Image, t1: Tree, img: Image, t: Tree, d: nat, name: ShortName,
                     h: nat, n: nat, n1: nat)
    requires MakeEffect(res, kept, img1, t1, img, t, d, name, h, n1)
    requires SameFiles(img0, t0, img1, t1) && IsDir(t0, d) && SlotsOf(img1, t1.alloc, d) == SlotsOf(img0, t0.alloc, d)
    requires StoreOutcome(img0, t0.alloc, d, name, n) == StoreOutcome(img1, t1.alloc, d, name, n1)
    ensures MakeEffect(res, kept, img0, t0, img, t, d, name, h, n)
    ensures Unharmed(img0, t0.alloc, img, t.alloc, d) <==> Unharmed(img1, t1.alloc, img, t.alloc, d)
  {
    hide SameFiles, FolderChanged, ElsewhereSame, Overwritten, SlotsOf, Lengthened, StoreOutcome, DirFull, Entry;
    SameSlotsSameFull(img0, t0.alloc, img1, t1.alloc, d);
    SameSlotsSameEntry(img0, t0.alloc, img1, t1.alloc, d, name);
    if FolderChanged(img1, t1, img, t, d, name, h) { SameThenFolder(img0, t0, img1, t1, img, t, d, name, h); }
    if Overwritten(img1, t1, img, t, d, name, h) { SameThenOverwritten(img0, t0, img1, t1, img, t, d, name, h); }
    if SameFiles(img1, t1, img, t) { SameFilesJoin(img0, t0, img1, t1, img, t); }
    if ElsewhereSame(img1, t1, img, t, d) { SameThenElsewhere(img0, t0, img1, t1, img, t, d); }
  }

  /** The chain that starts at `d` is no directory any more. */
  ghost predicate Garbled(img: Image, a: Allocation, d: nat) {
    d != 0 && d in a.chains && IsChain(img.fat, a.chains[d]) && a.chains[d][0] == d && !DirOk(SlotsOf(img, a, d))
  }

  /** A volume with such a directory is no file system, whatever tree one tries. */
  lemma GarbledForEveryTree(img: Image, a: Allocation, cs: nat, d: nat, t: Tree, loose: set<nat>)
    requires Garbled(img, a, d) && IsDir(t, d)
    ensures !WellFormed(img, t, cs, loose)
  {
    hide EntryOk, OwnerOk, DirOk, Slots, ChainBytes;
    if WellFormed(img, t, cs, loose) {
      ChainsInRange(img.fat, t.alloc);
      ChainIsUnique(img.fat, a.chains[d], t.alloc.chains[d]);
    }
  }

  lemma SameThenOverwritten(img: Image, t: Tree, img1: Image, t1: Tree, img2: Image, t2: Tree, d: nat, n: ShortName, h: nat)
    requires SameFiles(img, t, img1, t1) && IsDir(t, d) && Overwritten(img1, t1, img2, t2, d, n, h)
    ensures Overwritten(img, t, img2, t2, d, n, h)
  {
  }

  lemma FolderOverwrites(img0: Image, t0: Tree, mid: Image, t: Tree, img: Image, cs: nat, d: nat, name: ShortName, e: Slot, c: nat)
    requires WellFormed(mid, t, cs, {c}) && IsDir(t, d) && IsDir(t0, d) && SameFiles(img0, t0, mid, t)
    requires EntryChanged(mid, t, img, cs, d, name, Some(e)) && IsDirectory(e) && FirstCluster(e) == c
    requires Entry(img0, t0.alloc, d, name).Some? && img.fat == mid.fat && IsValidChar(name[0])
    ensures Overwritten(img0, t0, img, t, d, name, c) && ElsewhereSame(img0, t0, img, t, d)
  {
    hide SlotsOf, OwnerOk, IsDot;
    EntryChangeSpares(mid, t, cs, {c}, img, d, name, Some(e));
    SameThenElsewhere(img0, t0, mid, t, img, t, d);
    EntryIsOk(mid, t, cs, {c}, d, name);
    NamedEntryIsNoDot(mid, t.alloc, d, name);
    UsedHeads(mid.fat, t.alloc);
  }
}
