/** Directory contents: 32-byte slots, and the finite map from names to entries that they stand for. */
module Directories {
  import opened Bytes
  import opened ShortNames

  const SLOT_SIZE: nat := 32
  const END_MARK: byte := 0x00
  const DELETED_MARK: byte := 0xE5
  const ATTR_VOLUME_ID: byte := 0x08
  const ATTR_DIRECTORY: byte := 0x10
  const ATTR_ARCHIVE: byte := 0x20

  type Slot = s: seq<byte> | |s| == SLOT_SIZE witness seq(SLOT_SIZE, i => 0)

  function Name(s: Slot): ShortName {
    s[..11]
  }

  function Attr(s: Slot): byte {
    s[11]
  }

  function FirstCluster(s: Slot): (c: nat)
    ensures c < TWO16
  {
    FromLe16(s[26..28])
  }

  function FileSize(s: Slot): (n: nat)
    ensures n < TWO32
  {
    FromLe32(s[28..32])
  }

  /** fat12_fill_dir_entry; build_dir_entry of the image builder lays out the same bytes. */
  function MakeEntry(name: ShortName, attr: byte, first: nat, size: nat): (s: Slot)
    requires first < TWO16 && size < TWO32
    ensures Name(s) == name && Attr(s) == attr && FirstCluster(s) == first && FileSize(s) == size
  {
    var s := name + [attr] + Zeros(14) + Le16(first) + Le32(size);
    assert s[26..28] == Le16(first) && s[28..32] == Le32(size);
    s
  }

  /** Where the fields of an entry lie: the name, its attributes at byte 11, the first cluster at bytes 26 and 27 and the size at
      bytes 28 to 31, low bytes first. */
  lemma EntryBytes(name: ShortName, attr: byte, first: nat, size: nat)
    requires first < TWO16 && size < TWO32
    ensures var s := MakeEntry(name, attr, first, size);
            && (forall i | 0 <= i < 11 :: s[i] == name[i]) && s[11] == attr && (forall i | 12 <= i < 26 :: s[i] == 0)
            && s[26] as int + 256 * s[27] as int == first
            && s[28] as int + 256 * s[29] as int + 65536 * s[30] as int + 16777216 * s[31] as int == size
  {
    hide Le16, Le32;
    var s := MakeEntry(name, attr, first, size);
    assert s[26..28] == Le16(first) && s[28..32] == Le32(size);
    assert s[26..28][0] == s[26] && s[26..28][1] == s[27];
    assert s[28..32][0] == s[28] && s[28..32][1] == s[29] && s[28..32][2] == s[30] && s[28..32][3] == s[31];
  }

  /** The driver reads the fields of every slot there: made again of what it reads, the slot has the same bytes in these places.
      Bit 4 of the attributes marks a directory, and a first byte of 0 or 0xE5 a free slot. */
  lemma SlotIsRead(s: Slot)
    ensures var r := MakeEntry(Name(s), Attr(s), FirstCluster(s), FileSize(s));
            r[..12] == s[..12] && r[26..] == s[26..]
    ensures IsDirectory(s) <==> s[11] as bv8 & 0x10 != 0
    ensures IsFree(s) <==> s[0] == 0x00 || s[0] == 0xE5
    ensures IsDot(s) <==> s[11] as bv8 & 0x10 != 0 && (s[..3] == [0x2E, 0x20, 0x20] || s[..3] == [0x2E, 0x2E, 0x20])
    ensures !IsDirectory(MakeEntry(Name(s), ATTR_ARCHIVE, 0, 0)) && MakeEntry(Name(s), ATTR_ARCHIVE, 0, 0)[11] == 0x20
    ensures IsDirectory(MakeEntry(Name(s), ATTR_DIRECTORY, 0, 0)) && MakeEntry(Name(s), ATTR_DIRECTORY, 0, 0)[11] == 0x10
  {
    BitFour(Attr(s));
    FieldsAgain(s);
  }

  lemma BitFour(a: byte)
    ensures a / 0x10 % 2 == 1 <==> a as bv8 & 0x10 != 0
  {
  }

  lemma FieldsAgain(s: Slot)
    ensures var r := MakeEntry(Name(s), Attr(s), FirstCluster(s), FileSize(s));
            r[..12] == s[..12] && r[26..] == s[26..]
  {
    hide Le16, Le32, FromLe16, FromLe32;
    LittleEndianAgain(s[26..28]);
    LittleEndianAgain(s[28..32]);
    var r := MakeEntry(Name(s), Attr(s), FirstCluster(s), FileSize(s));
    assert r[26..] == s[26..28] + s[28..32] == s[26..];
    assert r[..12] == s[..11] + [s[11]] == s[..12];
  }

  /** fat12_is_free_entry. */
  predicate IsFree(s: Slot) {
    s[0] == END_MARK || s[0] == DELETED_MARK
  }

  predicate IsDirectory(s: Slot) {
    Attr(s) / 0x10 % 2 == 1
  }

  predicate IsLabel(s: Slot) {
    Attr(s) == ATTR_VOLUME_ID
  }

  /** fat12_is_dot_entry. */
  predicate IsDot(s: Slot) {
    && IsDirectory(s) && s[0] == DOT
    && ((s[1] == SPACE && s[2] == SPACE) || (s[1] == DOT && s[2] == SPACE))
  }

  predicate Matches(s: Slot, name: ShortName) {
    !IsFree(s) && Name(s) == name
  }

  /** The slots of a directory whose bytes are `b`. */
  function Slots(b: seq<byte>): (r: seq<Slot>)
    ensures |r| == |b| / SLOT_SIZE
  {
    seq(|b| / SLOT_SIZE, i requires 0 <= i < |b| / SLOT_SIZE => b[SLOT_SIZE * i..SLOT_SIZE * i + SLOT_SIZE])
  }

  /** The slots of a part of the bytes, cut at slot boundaries. */
  lemma SlotsOfSlice(b: seq<byte>, off: nat, part: seq<byte>)
    requires off % SLOT_SIZE == 0 && |part| % SLOT_SIZE == 0 && off + |part| <= |b| && part == b[off..off + |part|]
    ensures off / SLOT_SIZE + |Slots(part)| <= |Slots(b)|
    ensures forall k | 0 <= k < |Slots(part)| :: Slots(b)[off / SLOT_SIZE + k] == Slots(part)[k]
  {
    forall k | 0 <= k < |Slots(part)| ensures Slots(b)[off / SLOT_SIZE + k] == Slots(part)[k] {
      SliceOfSlice(b, off, off + |part|, SLOT_SIZE * k, SLOT_SIZE * k + SLOT_SIZE);
    }
  }

  /** Storing an entry at its byte position replaces its slot. */
  lemma SlotsSplice(b: seq<byte>, i: nat, e: Slot)
    requires SLOT_SIZE * i + SLOT_SIZE <= |b|
    ensures i < |Slots(b)|
    ensures Slots(Splice(b, SLOT_SIZE * i, e)) == Slots(b)[i := e]
  {
    var b' := Splice(b, SLOT_SIZE * i, e);
    forall k | 0 <= k < |Slots(b)| ensures Slots(b')[k] == Slots(b)[i := e][k] {
      if k < i {
        SpliceOutside(b, SLOT_SIZE * i, e, SLOT_SIZE * k, SLOT_SIZE * k + SLOT_SIZE);
      } else if k > i {
        SpliceOutside(b, SLOT_SIZE * i, e, SLOT_SIZE * k, SLOT_SIZE * k + SLOT_SIZE);
      }
    }
  }

  /** The bytes of a directory of whole slots are those of its slots. */
  lemma SlotsDetermineBytes(b: seq<byte>, b': seq<byte>)
    requires |b| % SLOT_SIZE == 0 && |b'| % SLOT_SIZE == 0 && Slots(b) == Slots(b')
    ensures b == b'
  {
    assert |b| == SLOT_SIZE * |Slots(b)| && |b'| == SLOT_SIZE * |Slots(b')|;
    forall i | 0 <= i < |b| ensures b[i] == b'[i] {
      var k := i / SLOT_SIZE;
      assert b[i] == Slots(b)[k][i - SLOT_SIZE * k];
      assert b'[i] == Slots(b')[k][i - SLOT_SIZE * k];
    }
  }

  /** Appending whole slots. */
  lemma SlotsAppend(a: seq<byte>, b: seq<byte>)
    requires |a| % SLOT_SIZE == 0
    ensures Slots(a + b) == Slots(a) + Slots(b)
  {
    var n := |a| / SLOT_SIZE;
    assert |a + b| / SLOT_SIZE == n + |b| / SLOT_SIZE;
    forall k | 0 <= k < |Slots(a + b)| ensures Slots(a + b)[k] == (Slots(a) + Slots(b))[k] {
      if k >= n {
        assert SLOT_SIZE * k == |a| + SLOT_SIZE * (k - n);
        assert (a + b)[SLOT_SIZE * k..SLOT_SIZE * k + SLOT_SIZE] ==
               b[SLOT_SIZE * (k - n)..SLOT_SIZE * (k - n) + SLOT_SIZE];
      } else {
        assert (a + b)[SLOT_SIZE * k..SLOT_SIZE * k + SLOT_SIZE] == a[SLOT_SIZE * k..SLOT_SIZE * k + SLOT_SIZE];
      }
    }
  }

  lemma SlotsOfZeros(n: nat)
    ensures forall k | 0 <= k < |Slots(Zeros(n))| :: Slots(Zeros(n))[k][0] == END_MARK
  {
  }

  // ---------------------------------------------------------------- well-formed directories as maps

  /** Nothing but never-used slots follows the first never-used slot. */
  ghost predicate ZeroTail(slots: seq<Slot>) {
    forall i, j | 0 <= i < j < |slots| && slots[i][0] == END_MARK :: slots[j][0] == END_MARK
  }

  ghost predicate UniqueNames(slots: seq<Slot>) {
    forall i, j | 0 <= i < j < |slots| && !IsFree(slots[i]) && !IsFree(slots[j]) :: Name(slots[i]) != Name(slots[j])
  }

  ghost predicate DirOk(slots: seq<Slot>) {
    ZeroTail(slots) && UniqueNames(slots)
  }

  ghost predicate IsAt(slots: seq<Slot>, name: ShortName, i: nat) {
    i < |slots| && Matches(slots[i], name)
  }

  /** The entry that the directory holds under a name. */
  ghost function Lookup(slots: seq<Slot>, name: ShortName): Option<Slot> {
    if exists i: nat :: IsAt(slots, name, i) then
      var i: nat :| IsAt(slots, name, i);
      Some(slots[i])
    else None
  }

  ghost function Names(slots: seq<Slot>): set<ShortName> {
    set i | 0 <= i < |slots| && !IsFree(slots[i]) :: Name(slots[i])
  }

  /** The directory as a finite map. */
  ghost function DirMap(slots: seq<Slot>): (m: map<ShortName, Slot>)
    ensures forall n :: n in m <==> Lookup(slots, n).Some?
    ensures forall n | n in m :: m[n] == Lookup(slots, n).value
  {
    NamesAreBound(slots);
    map n | n in Names(slots) :: Lookup(slots, n).value
  }

  lemma NamesAreBound(slots: seq<Slot>)
    ensures forall n :: n in Names(slots) <==> Lookup(slots, n).Some?
  {
    forall n ensures n in Names(slots) <==> Lookup(slots, n).Some? {
      if n in Names(slots) {
        var i :| 0 <= i < |slots| && !IsFree(slots[i]) && Name(slots[i]) == n;
        assert IsAt(slots, n, i);
      }
    }
  }

  lemma LookupAt(slots: seq<Slot>, name: ShortName, i: nat)
    requires UniqueNames(slots) && IsAt(slots, name, i)
    ensures Lookup(slots, name) == Some(slots[i])
  {
    var k: nat :| IsAt(slots, name, k) && Lookup(slots, name) == Some(slots[k]);
    assert IsAt(slots, name, k);
    assert k == i;
  }

  lemma LookupAgrees(a: seq<Slot>, b: seq<Slot>, n: ShortName)
    requires UniqueNames(a) && UniqueNames(b)
    requires forall k: nat :: IsAt(a, n, k) <==> IsAt(b, n, k)
    requires forall k: nat | IsAt(a, n, k) :: k < |b| && a[k] == b[k]
    ensures Lookup(a, n) == Lookup(b, n)
  {
    if exists k: nat :: IsAt(a, n, k) {
      var k: nat :| IsAt(a, n, k);
      LookupAt(a, n, k);
      LookupAt(b, n, k);
    }
  }

  /** The map is determined by the lookups. */
  lemma MapFromLookups(slots: seq<Slot>, m: map<ShortName, Slot>)
    requires forall n :: n in m <==> Lookup(slots, n).Some?
    requires forall n | n in m :: m[n] == Lookup(slots, n).value
    ensures DirMap(slots) == m
  {
    var d := DirMap(slots);
    assert forall n :: n in d <==> n in m;
  }

  /** What a scan that stops at the first never-used slot has seen is all there is. */
  lemma ScanIsComplete(slots: seq<Slot>, name: ShortName, n: nat)
    requires ZeroTail(slots) && n <= |slots| && (n < |slots| ==> slots[n][0] == END_MARK)
    requires forall i | 0 <= i < n :: !Matches(slots[i], name)
    ensures Lookup(slots, name) == None
  {
    forall i: nat ensures !IsAt(slots, name, i) {
      assert n < |slots| && n < i < |slots| ==> slots[i][0] == END_MARK;
    }
  }

  /** Every way an entry is written: over the entry of the same name, or into the first free slot when there is
      none. Either way the directory stays well formed and its map is updated at that name alone. */
  ghost predicate IsPlaceFor(slots: seq<Slot>, name: ShortName, i: nat) {
    && i < |slots|
    && (Matches(slots[i], name)
        || (Lookup(slots, name) == None && IsFree(slots[i]) && forall k | 0 <= k < i :: !IsFree(slots[k])))
  }

  lemma StoreKeepsDirOk(slots: seq<Slot>, e: Slot, i: nat)
    requires DirOk(slots) && !IsFree(e) && IsPlaceFor(slots, Name(e), i)
    ensures DirOk(slots[i := e])
  {
    assert forall k: nat | k != i :: !IsAt(slots, Name(e), k);
    forall k | 0 <= k < |slots| && k != i && !IsFree(slots[k]) ensures Name(slots[k]) != Name(e) {
      assert !IsAt(slots, Name(e), k);
    }
  }

  lemma StoreUpdatesLookup(slots: seq<Slot>, e: Slot, i: nat, n: ShortName)
    requires DirOk(slots) && !IsFree(e) && IsPlaceFor(slots, Name(e), i)
    ensures Lookup(slots[i := e], n) == if n == Name(e) then Some(e) else Lookup(slots, n)
  {
    StoreKeepsDirOk(slots, e, i);
    var s' := slots[i := e];
    if n == Name(e) {
      LookupAt(s', n, i);
    } else {
      forall k: nat ensures IsAt(slots, n, k) <==> IsAt(s', n, k) {
      }
      LookupAgrees(slots, s', n);
    }
  }

  /** Insert or replace is map update. */
  lemma StoreIsMapUpdate(slots: seq<Slot>, e: Slot, i: nat)
    requires DirOk(slots) && !IsFree(e) && IsPlaceFor(slots, Name(e), i)
    ensures DirOk(slots[i := e]) && DirMap(slots[i := e]) == DirMap(slots)[Name(e) := e]
  {
    StoreKeepsDirOk(slots, e, i);
    var m := DirMap(slots);
    forall n ensures Lookup(slots[i := e], n) == if n == Name(e) then Some(e) else Lookup(slots, n) {
      StoreUpdatesLookup(slots, e, i, n);
    }
    MapFromLookups(slots[i := e], m[Name(e) := e]);
  }

  lemma EraseUpdatesLookup(slots: seq<Slot>, name: ShortName, e: Slot, i: nat, n: ShortName)
    requires DirOk(slots) && IsAt(slots, name, i) && e[0] == DELETED_MARK
    ensures Lookup(slots[i := e], n) == if n == name then None else Lookup(slots, n)
    ensures DirOk(slots[i := e])
  {
    var s' := slots[i := e];
    if n == name {
      assert forall k: nat | k != i :: !IsAt(slots, name, k);
      forall k: nat ensures !IsAt(s', n, k) {
        assert k != i && k < |slots| ==> IsAt(s', n, k) == IsAt(slots, n, k);
      }
    } else {
      forall k: nat ensures IsAt(slots, n, k) <==> IsAt(s', n, k) {
      }
      LookupAgrees(slots, s', n);
    }
  }

  /** Marking an entry deleted is map removal. */
  lemma EraseIsMapRemoval(slots: seq<Slot>, name: ShortName, e: Slot, i: nat)
    requires DirOk(slots) && IsAt(slots, name, i) && e[0] == DELETED_MARK
    ensures DirOk(slots[i := e]) && DirMap(slots[i := e]) == DirMap(slots) - {name}
  {
    var m := DirMap(slots);
    forall n ensures Lookup(slots[i := e], n) == if n == name then None else Lookup(slots, n) {
      EraseUpdatesLookup(slots, name, e, i, n);
    }
    EraseUpdatesLookup(slots, name, e, i, name);
    MapFromLookups(slots[i := e], m - {name});
  }

  /** Growing a directory by never-used slots keeps its map. */
  lemma GrowKeepsDirectory(slots: seq<Slot>, more: seq<Slot>)
    requires DirOk(slots) && forall i | 0 <= i < |more| :: more[i][0] == END_MARK
    ensures DirOk(slots + more)
    ensures forall n :: Lookup(slots + more, n) == Lookup(slots, n)
  {
    var all := slots + more;
    assert DirOk(all);
    forall n ensures Lookup(all, n) == Lookup(slots, n) {
      forall k: nat ensures IsAt(slots, n, k) <==> IsAt(all, n, k) {
      }
      LookupAgrees(slots, all, n);
    }
  }

  // ---------------------------------------------------------------- listing

  predicate IsListed(s: Slot) {
    !IsFree(s) && !IsLabel(s) && !IsDot(s)
  }

  /** The entries that a listing shows, in slot order. */
  ghost function Listing(slots: seq<Slot>): (r: seq<Slot>)
    ensures forall i | 0 <= i < |r| :: IsListed(r[i])
  {
    if slots == [] then []
    else Listing(slots[..|slots| - 1]) + (if IsListed(slots[|slots| - 1]) then [slots[|slots| - 1]] else [])
  }

  lemma ListingNext(slots: seq<Slot>, n: nat)
    requires n < |slots|
    ensures Listing(slots[..n + 1]) == Listing(slots[..n]) + (if IsListed(slots[n]) then [slots[n]] else [])
  {
    assert slots[..n + 1][..n] == slots[..n];
  }

  /** A listing may stop where only free slots are left. */
  lemma {:induction false} ListingStops(slots: seq<Slot>, n: nat)
    requires n <= |slots| && forall i | n <= i < |slots| :: IsFree(slots[i])
    ensures Listing(slots) == Listing(slots[..n])
  {
    if n == |slots| {
      assert slots[..n] == slots;
    } else {
      ListingStops(slots[..|slots| - 1], n);
      assert slots[..|slots| - 1][..n] == slots[..n];
    }
  }

  lemma {:induction false} ListingHasListed(slots: seq<Slot>, s: Slot)
    ensures s in Listing(slots) <==> s in slots && IsListed(s)
  {
    if slots != [] {
      var rest, last := slots[..|slots| - 1], slots[|slots| - 1];
      ListingHasListed(rest, s);
      assert slots == rest + [last];
    }
  }

  /** The listing is exactly the map without volume labels and dot entries. */
  lemma ListingIsMap(slots: seq<Slot>, s: Slot)
    requires DirOk(slots)
    ensures s in Listing(slots) <==>
            Name(s) in DirMap(slots) && DirMap(slots)[Name(s)] == s && !IsLabel(s) && !IsDot(s)
  {
    ListingHasListed(slots, s);
    if s in slots && !IsFree(s) {
      var i :| 0 <= i < |slots| && slots[i] == s;
      assert IsAt(slots, Name(s), i);
      LookupAt(slots, Name(s), i);
    }
  }

  /** No name is listed twice. */
  lemma {:induction false} ListingIsUnique(slots: seq<Slot>, i: nat, j: nat)
    requires UniqueNames(slots) && i < j < |Listing(slots)|
    ensures Name(Listing(slots)[i]) != Name(Listing(slots)[j])
  {
    var rest, last := slots[..|slots| - 1], slots[|slots| - 1];
    if j < |Listing(rest)| {
      ListingIsUnique(rest, i, j);
    } else {
      ListingHasListed(rest, Listing(rest)[i]);
      var k :| 0 <= k < |rest| && rest[k] == Listing(rest)[i];
      assert slots[k] == rest[k];
    }
  }

  /** fat12_dir_entry_info_t. */
  datatype Info = Info(name: seq<byte>, attr: byte, size: nat, firstCluster: nat)

  /** fat12_copy_entry_info. */
  function InfoOf(s: Slot): Info {
    Info(Display(Name(s)), Attr(s), FileSize(s), FirstCluster(s))
  }

  function Infos(s: seq<Slot>): (r: seq<Info>)
    ensures |r| == |s|
  {
    seq(|s|, i requires 0 <= i < |s| => InfoOf(s[i]))
  }

  /** The k-th item of a listing is the k-th listed entry. */
  lemma InfosNext(s: seq<Slot>, e: Slot)
    ensures Infos(s + [e]) == Infos(s) + [InfoOf(e)]
  {
  }
}
