/** How many commands a directory operation takes when none fails, and what a failed write can do to a directory. */
module Costs {
  import opened Bytes
  import opened Disk
  import opened Chains
  import opened Contents
  import opened Directories
  import opened ShortNames
  import opened Volumes
  import opened EntrySteps

  // ---------------------------------------------------------------- where a scan ends

  /** The slot that a lookup ends at: the one that holds the name, or the first never-used one, or none. */
  ghost function StopAt(slots: seq<Slot>, name: ShortName): (n: nat)
    ensures NoneBefore(slots, name, n)
    ensures n < |slots| ==> slots[n][0] == END_MARK || Matches(slots[n], name)
  {
    if slots == [] || slots[0][0] == END_MARK || Matches(slots[0], name) then 0 else 1 + StopAt(slots[1..], name)
  }

  lemma StopIs(slots: seq<Slot>, name: ShortName, n: nat)
    requires NoneBefore(slots, name, n) && n < |slots| && (slots[n][0] == END_MARK || Matches(slots[n], name))
    ensures StopAt(slots, name) == n
  {
  }

  /** The slot that the search for a free one ends at. */
  ghost function FirstFree(slots: seq<Slot>): (n: nat)
    ensures AllLiveBefore(slots, n) && (n < |slots| ==> IsFree(slots[n]))
  {
    if slots == [] || IsFree(slots[0]) then 0 else 1 + FirstFree(slots[1..])
  }

  lemma FreeIs(slots: seq<Slot>, n: nat)
    requires AllLiveBefore(slots, n) && n < |slots| && IsFree(slots[n])
    ensures FirstFree(slots) == n
  {
  }

  /** The cluster that the i-th slot lies in, with `per` slots in each. */
  function ClusterOf(i: nat, per: nat): nat {
    if per == 0 then 0 else i / per
  }

  /** The clusters that a scan reads which ends at slot `n` of `total`. */
  function ClustersTo(n: nat, total: nat, per: nat): nat {
    ClusterOf(n, per) + if n < total then 1 else 0
  }

  lemma SlotBaseIs(img: Image, a: Allocation, cs: nat, d: nat, j: nat)
    requires Scannable(img, a, cs, d) && d != 0 && j <= |a.chains[d]|
    ensures SlotBase(img, a, d, j) == j * (cs / SLOT_SIZE)
  {
    hide ChainBytes;
    var s, per := a.chains[d], cs / SLOT_SIZE;
    ChainBytesLength(img.data, s[..j], cs);
    assert cs == per * SLOT_SIZE;
    assert j * cs == (j * per) * SLOT_SIZE;
  }

  lemma Quotient(i: nat, j: nat, per: nat)
    requires per > 0 && i >= j * per
    ensures ClusterOf(i, per) >= j
    ensures i < (j + 1) * per ==> ClusterOf(i, per) == j
  {
    var q := i / per;
    assert q * per <= i < (q + 1) * per;
    Scale(q + 1, j, per);
    Scale(j + 1, q, per);
  }

  /** A scan that ends in the j-th cluster has read j + 1 clusters, one that does not end before has read more than j, and
      one that never ends has read them all. */
  lemma ClustersRead(img: Image, a: Allocation, cs: nat, d: nat, j: nat, n: nat)
    requires Scannable(img, a, cs, d) && d != 0 && j <= |a.chains[d]| && SlotBase(img, a, d, j) <= n <= |SlotsOf(img, a, d)|
    ensures var total, per := |SlotsOf(img, a, d)|, cs / SLOT_SIZE;
            && (j < |a.chains[d]| && n < SlotBase(img, a, d, j) + per ==> ClustersTo(n, total, per) == j + 1)
            && (j < |a.chains[d]| ==> ClustersTo(n, total, per) > j)
            && (j == |a.chains[d]| ==> ClustersTo(n, total, per) == j)
  {
    hide SlotsOf, ClusterOf, SlotBase, DirOk;
    var per := cs / SLOT_SIZE;
    SlotBaseIs(img, a, cs, d, j);
    SlotBaseIs(img, a, cs, d, |a.chains[d]|);
    SlotBaseEnds(img, a, cs, d);
    Quotient(n, j, per);
    Scale(j + 1, |a.chains[d]|, per);
    assert (j + 1) * per == j * per + per;
    if n == |SlotsOf(img, a, d)| { Quotient(n, |a.chains[d]|, per); }
  }

  /** The clusters that a lookup in a subdirectory reads. */
  ghost function Reads(img: Image, a: Allocation, cs: nat, d: nat, name: ShortName): nat {
    ClustersTo(StopAt(SlotsOf(img, a, d), name), |SlotsOf(img, a, d)|, cs / SLOT_SIZE)
  }

  /** The clusters that the search for a free slot reads. */
  ghost function FreeReads(img: Image, a: Allocation, cs: nat, d: nat): nat {
    ClustersTo(FirstFree(SlotsOf(img, a, d)), |SlotsOf(img, a, d)|, cs / SLOT_SIZE)
  }

  /** The commands that the search for a free slot takes: another cluster is zeroed when there is none. */
  ghost function FreeCost(img: Image, a: Allocation, cs: nat, d: nat): nat {
    FreeReads(img, a, cs, d) + if DirFull(img, a, d) then 1 else 0
  }

  /** The commands before the place of an entry is known: the lookup, and for a new name the search for a free slot. */
  ghost function PlaceCost(img: Image, a: Allocation, cs: nat, d: nat, name: ShortName): nat {
    Reads(img, a, cs, d, name) + if Entry(img, a, d, name).Some? then 0 else FreeCost(img, a, cs, d)
  }

  /** The commands before the slot is written back, for an operation that first looks the name up and stores `n` clusters, two
      commands each; the directory's cluster is read at last. */
  ghost function EnterCost(img: Image, a: Allocation, cs: nat, d: nat, name: ShortName, n: nat): nat {
    Reads(img, a, cs, d, name) + 2 * n + PlaceCost(img, a, cs, d, name) + 1
  }

  lemma SameSlotsSameCosts(img: Image, a: Allocation, img': Image, a': Allocation, cs: nat, d: nat, name: ShortName)
    requires SlotsOf(img', a', d) == SlotsOf(img, a, d)
    ensures Reads(img', a', cs, d, name) == Reads(img, a, cs, d, name)
    ensures PlaceCost(img', a', cs, d, name) == PlaceCost(img, a, cs, d, name)
  {
    hide SlotsOf, ClustersTo, StopAt, FirstFree, Lookup, AllLiveBefore;
  }

  /** The lookup has gone through `j` clusters without coming to an end. */
  ghost predicate Searching(img: Image, a: Allocation, cs: nat, d: nat, name: ShortName, j: nat) {
    && NoneBefore(SlotsOf(img, a, d), name, SlotBase(img, a, d, j))
    && d in a.chains && (if j < |a.chains[d]| then Reads(img, a, cs, d, name) > j else Reads(img, a, cs, d, name) == j)
  }

  lemma SearchGoesOn(img: Image, a: Allocation, cs: nat, d: nat, name: ShortName, j: nat)
    requires Scannable(img, a, cs, d) && d != 0 && j <= |a.chains[d]|
    requires NoneBefore(SlotsOf(img, a, d), name, SlotBase(img, a, d, j))
    ensures Searching(img, a, cs, d, name, j)
  {
    hide SlotsOf, ClustersTo, SlotBase, DirOk, Matches;
    ClustersRead(img, a, cs, d, j, StopAt(SlotsOf(img, a, d), name));
  }

  lemma StillSearching(img: Image, a: Allocation, cs: nat, d: nat, name: ShortName, j: nat)
    requires Searching(img, a, cs, d, name, j) && j < |a.chains[d]|
    ensures Reads(img, a, cs, d, name) > j
  {
  }

  lemma ReadsHere(img: Image, a: Allocation, cs: nat, d: nat, name: ShortName, j: nat, k: nat)
    requires Scannable(img, a, cs, d) && d != 0 && j < |a.chains[d]| && k < cs / SLOT_SIZE
    requires var n := SlotBase(img, a, d, j) + k;
             && NoneBefore(SlotsOf(img, a, d), name, n) && n < |SlotsOf(img, a, d)|
             && (SlotsOf(img, a, d)[n][0] == END_MARK || Matches(SlotsOf(img, a, d)[n], name))
    ensures Reads(img, a, cs, d, name) == j + 1
  {
    hide SlotsOf, ClustersTo, SlotBase, DirOk, Matches;
    StopIs(SlotsOf(img, a, d), name, SlotBase(img, a, d, j) + k);
    ClustersRead(img, a, cs, d, j, SlotBase(img, a, d, j) + k);
  }

  /** The search for a free slot has gone through `j` clusters without finding one. */
  ghost predicate AllTaken(img: Image, a: Allocation, cs: nat, d: nat, j: nat) {
    && AllLiveBefore(SlotsOf(img, a, d), SlotBase(img, a, d, j))
    && d in a.chains && (if j < |a.chains[d]| then FreeReads(img, a, cs, d) > j else FreeReads(img, a, cs, d) == j)
  }

  lemma TakenGoesOn(img: Image, a: Allocation, cs: nat, d: nat, j: nat)
    requires Scannable(img, a, cs, d) && d != 0 && j <= |a.chains[d]|
    requires AllLiveBefore(SlotsOf(img, a, d), SlotBase(img, a, d, j))
    ensures AllTaken(img, a, cs, d, j)
  {
    hide SlotsOf, ClustersTo, SlotBase, DirOk, IsFree;
    ClustersRead(img, a, cs, d, j, FirstFree(SlotsOf(img, a, d)));
  }

  lemma StillTaken(img: Image, a: Allocation, cs: nat, d: nat, j: nat)
    requires AllTaken(img, a, cs, d, j) && j < |a.chains[d]|
    ensures FreeReads(img, a, cs, d) > j
  {
  }

  lemma FreeReadsHere(img: Image, a: Allocation, cs: nat, d: nat, j: nat, k: nat)
    requires Scannable(img, a, cs, d) && d != 0 && j < |a.chains[d]| && k < cs / SLOT_SIZE
    requires var n := SlotBase(img, a, d, j) + k;
             AllLiveBefore(SlotsOf(img, a, d), n) && n < |SlotsOf(img, a, d)| && IsFree(SlotsOf(img, a, d)[n])
    ensures FreeReads(img, a, cs, d) == j + 1
  {
    hide SlotsOf, ClustersTo, SlotBase, DirOk, IsFree;
    FreeIs(SlotsOf(img, a, d), SlotBase(img, a, d, j) + k);
    ClustersRead(img, a, cs, d, j, SlotBase(img, a, d, j) + k);
  }

  // ---------------------------------------------------------------- what a failed write can do

  /** Overwriting the start of the cluster that holds an entry with zeros loses it, or leaves live slots behind
      never-used ones. */
  lemma SpoiledDirectory(img: Image, a: Allocation, cs: nat, img': Image, d: nat, name: ShortName, i: nat, oc: nat, idx: nat,
                         j: nat, n: nat)
    requires Scannable(img, a, cs, d) && d != 0 && Located(img, a, d, i, oc, idx, j) && IsAt(SlotsOf(img, a, d), name, i)
    requires img'.root == img.root && |img'.data| == |img.data|
    requires forall c | 0 <= c < |img.data| && c != oc :: img'.data[c] == img.data[c]
    requires SLOT_SIZE <= n <= |img.data[oc]| && img'.data[oc] == Splice(img.data[oc], 0, Zeros(n))
    ensures !(DirOk(SlotsOf(img', a, d)) && Entry(img', a, d, name).Some?)
  {
    hide IsChain, ChainBytes, Slots, Splice;
    var s, slots, slots' := a.chains[d], SlotsOf(img, a, d), SlotsOf(img', a, d);
    ChainsAreAcyclic(img.fat, s);
    assert Patched(img.data, img'.data, s, j, 0, Zeros(n));
    ChainBytesPatch(img.data, img'.data, s, j, 0, Zeros(n));
    var base := i - idx;
    var b, b' := ChainBytes(img.data, s), ChainBytes(img'.data, s);
    SlotsOfChain(img, a, d);
    SlotsOfChain(img', a, d);
    SpoiledSlots(b, base, n);
    forall k: nat | DirOk(slots') ensures !IsAt(slots', name, k) {
      assert k < base ==> !IsAt(slots, name, k);
      assert base < k < |slots'| ==> slots'[k][0] == END_MARK;
    }
  }

  lemma SpoiledSlots(b: seq<byte>, base: nat, n: nat)
    requires n >= SLOT_SIZE && SLOT_SIZE * base + n <= |b|
    ensures var slots := Slots(Splice(b, SLOT_SIZE * base, Zeros(n)));
            && base < |slots| == |Slots(b)| && slots[base][0] == END_MARK
            && forall k | 0 <= k < base :: slots[k] == Slots(b)[k]
  {
    var b' := Splice(b, SLOT_SIZE * base, Zeros(n));
    assert b'[SLOT_SIZE * base] == 0;
    forall k | 0 <= k < base ensures Slots(b')[k] == Slots(b)[k] {
      SpliceOutside(b, SLOT_SIZE * base, Zeros(n), SLOT_SIZE * k, SLOT_SIZE * k + SLOT_SIZE);
    }
  }

  /** A sector of equal live slots. */
  function Garbage(): Sector {
    seq(SECTOR_SIZE, i => 0x41)
  }

  /** In the place of the first sector of any cluster of a directory, it breaks the directory. */
  lemma GarbledDirectory(img: Image, a: Allocation, cs: nat, img': Image, d: nat, j: nat)
    requires Scannable(img, a, cs, d) && d != 0 && j < |a.chains[d]| && cs >= SECTOR_SIZE
    requires img'.root == img.root && |img'.data| == |img.data|
    requires forall c | 0 <= c < |img.data| && c != a.chains[d][j] :: img'.data[c] == img.data[c]
    requires img'.data[a.chains[d][j]] == Splice(img.data[a.chains[d][j]], 0, Garbage())
    ensures !DirOk(SlotsOf(img', a, d))
  {
    hide IsChain, ChainBytes, Slots, Splice, Garbage;
    var s, oc := a.chains[d], a.chains[d][j];
    ChainsAreAcyclic(img.fat, s);
    assert Patched(img.data, img'.data, s, j, 0, Garbage());
    ChainBytesPatch(img.data, img'.data, s, j, 0, Garbage());
    SlotsOfChain(img', a, d);
    SlotsWindow(img, a, cs, d, j);
    ChainBytesWindow(img.data, s, j);
    GarbledSlots(ChainBytes(img.data, s), SlotBase(img, a, d, j));
  }

  lemma GarbledSlots(b: seq<byte>, base: nat)
    requires SLOT_SIZE * base + SECTOR_SIZE <= |b|
    ensures !DirOk(Slots(Splice(b, SLOT_SIZE * base, Garbage())))
  {
    var b', slot := Splice(b, SLOT_SIZE * base, Garbage()), seq(SLOT_SIZE, i => 0x41);
    assert b'[SLOT_SIZE * base..SLOT_SIZE * base + SLOT_SIZE] == slot;
    assert b'[SLOT_SIZE * (base + 1)..SLOT_SIZE * (base + 1) + SLOT_SIZE] == slot;
    assert Slots(b')[base] == Slots(b')[base + 1] == slot;
  }
}
