/** Listing the slots of a directory for a callback that may end the listing. */
module Listings {
  import opened Bytes
  import opened Directories
  import opened ShortNames
  import opened Volumes
  import opened EntrySteps

  /** What a callback is shown of a listing: all of it, or the first entries, up to the one after which it ends it. */
  ghost predicate Shown(all: seq<Info>, stop: seq<Info> -> bool, infos: seq<Info>) {
    infos <= all && (forall k | 0 < k < |infos| :: !stop(all[..k])) && (infos == all || (infos != [] && stop(infos)))
  }

  /** The listing of the first `n` slots, none of which ended it. */
  ghost predicate ShownSoFar(slots: seq<Slot>, n: nat, stop: seq<Info> -> bool, infos: seq<Info>) {
    n <= |slots| && infos == Infos(Listing(slots[..n])) && forall k | 0 < k <= |infos| :: !stop(infos[..k])
  }

  /** The last of the first `n` slots ended it. */
  ghost predicate ShownToEnd(slots: seq<Slot>, n: nat, stop: seq<Info> -> bool, infos: seq<Info>) {
    && n <= |slots| && infos == Infos(Listing(slots[..n])) && infos != [] && stop(infos)
    && forall k | 0 < k < |infos| :: !stop(infos[..k])
  }

  lemma NothingShown(slots: seq<Slot>, stop: seq<Info> -> bool)
    ensures ShownSoFar(slots, 0, stop, [])
  {
  }

  lemma ShownInLonger(slots: seq<Slot>, more: seq<Slot>, stop: seq<Info> -> bool, infos: seq<Info>)
    requires ShownSoFar(slots, |slots|, stop, infos)
    ensures ShownSoFar(slots + more, |slots|, stop, infos)
  {
    assert (slots + more)[..|slots|] == slots[..|slots|];
  }

  /** The listing of the first slots is a prefix of the whole listing. */
  lemma {:induction false} ListingPrefix(slots: seq<Slot>, n: nat)
    requires n <= |slots|
    ensures Listing(slots[..n]) <= Listing(slots)
    decreases |slots| - n
  {
    if n == |slots| {
      assert slots[..n] == slots;
    } else {
      ListingNext(slots, n);
      ListingPrefix(slots, n + 1);
    }
  }

  /** A listing that was ended, or has met a never-used slot or the end, is what there was to show. */
  lemma ListingEnds(slots: seq<Slot>, n: nat, stop: seq<Info> -> bool, infos: seq<Info>, done: bool)
    requires DirOk(slots) && n <= |slots|
    requires ShownToEnd(slots, n, stop, infos) || ShownSoFar(slots, n, stop, infos)
    requires ShownToEnd(slots, n, stop, infos) || (n < |slots| ==> done && slots[n][0] == END_MARK)
    ensures Shown(Infos(Listing(slots)), stop, infos)
  {
    ListingPrefix(slots, n);
    var all := Infos(Listing(slots));
    assert infos <= all;
    assert forall k | 0 < k <= |infos| :: all[..k] == infos[..k];
    if !ShownToEnd(slots, n, stop, infos) {
      forall i | n <= i < |slots| ensures IsFree(slots[i]) {
        assert n < i ==> slots[i][0] == END_MARK;
      }
      ListingStops(slots, n);
    }
  }

  lemma OneMoreShown(slots: seq<Slot>, n: nat, stop: seq<Info> -> bool, infos: seq<Info>, info: Info)
    requires ShownSoFar(slots, n, stop, infos) && n < |slots| && IsListed(slots[n]) && info == InfoOf(slots[n])
    ensures if stop(infos + [info]) then ShownToEnd(slots, n + 1, stop, infos + [info])
            else ShownSoFar(slots, n + 1, stop, infos + [info])
  {
    ListingNext(slots, n);
    InfosNext(Listing(slots[..n]), slots[n]);
    var more := infos + [info];
    forall k | 0 < k <= |infos| ensures !stop(more[..k]) { assert more[..k] == infos[..k]; }
    assert more[..|more|] == more;
  }

  lemma NoneShown(slots: seq<Slot>, n: nat, stop: seq<Info> -> bool, infos: seq<Info>)
    requires ShownSoFar(slots, n, stop, infos) && n < |slots| && !IsListed(slots[n])
    ensures ShownSoFar(slots, n + 1, stop, infos)
  {
    ListingNext(slots, n);
    assert Listing(slots[..n]) + [] == Listing(slots[..n]);
  }

  /** The tests that skip an entry. */
  method IsListedEntry(entry: Slot) returns (listed: bool)
    ensures listed == IsListed(entry)
  {
    if entry[0] == END_MARK || entry[0] == DELETED_MARK { return false; }
    if Attr(entry) == ATTR_VOLUME_ID { return false; }
    if IsDot(entry) { return false; }
    return true;
  }

  /** fat12_copy_entry_info. */
  method CopyEntryInfo(entry: Slot) returns (info: Info)
    ensures info == InfoOf(entry)
  {
    var name := DirNameToString(Name(entry));
    return Info(name, Attr(entry), FileSize(entry), FirstCluster(entry));
  }

  /** The scan of fat12_iterate_directory_internal over `n` slots of a buffer, the slots of `all` from `base` on. */
  method ListSlots(bytes: array<byte>, n: nat, ghost all: seq<Slot>, ghost base: nat, before: seq<Info>, stop: seq<Info> -> bool)
    returns (infos: seq<Info>, done: bool, ghost seen: nat)
    requires SLOT_SIZE * n <= bytes.Length && base + n <= |all|
    requires |Slots(bytes[..SLOT_SIZE * n])| == n
    requires forall k | 0 <= k < n :: all[base + k] == Slots(bytes[..SLOT_SIZE * n])[k]
    requires ShownSoFar(all, base, stop, before)
    ensures seen <= n && (!done ==> seen == n)
    ensures ShownToEnd(all, base + seen, stop, infos) || ShownSoFar(all, base + seen, stop, infos)
    ensures !done ==> ShownSoFar(all, base + seen, stop, infos)
    ensures done ==> ShownToEnd(all, base + seen, stop, infos) || (seen < n && all[base + seen][0] == END_MARK)
  {
    hide Infos;
    infos := before;
    for i := 0 to n
      invariant ShownSoFar(all, base + i, stop, infos)
    {
      var entry: Slot := bytes[SLOT_SIZE * i..SLOT_SIZE * i + SLOT_SIZE];
      assert entry == Slots(bytes[..SLOT_SIZE * n])[i] == all[base + i];
      if entry[0] == END_MARK { return infos, true, i; }
      var listed := IsListedEntry(entry);
      if listed {
        var info := CopyEntryInfo(entry);
        OneMoreShown(all, base + i, stop, infos, info);
        infos := infos + [info];
        if stop(infos) { return infos, true, i + 1; }
      } else {
        NoneShown(all, base + i, stop, infos);
      }
    }
    return infos, false, n;
  }

  // ---------------------------------------------------------------- what a listing says of the files

  /** An item of a listing tells the truth about the file or subdirectory `n`; bit 4 of the attributes tells which it is. */
  ghost predicate Tells(img: Image, t: Tree, d: nat, n: ShortName, info: Info) {
    && info.name == Display(n)
    && (if info.attr / 16 % 2 == 1 then FolderAt(img, t, d, n) == Some(info.firstCluster)
        else && FileAt(img, t, d, n).Some? && |FileAt(img, t, d, n).value| == info.size
             && (info.size > 0 ==> && info.firstCluster in t.alloc.chains
                                   && FileAt(img, t, d, n).value <= ChainData(img, t.alloc, info.firstCluster)))
  }

  /** The items of a listing, which stand for different names, all tell the truth. */
  ghost predicate AllTell(img: Image, t: Tree, d: nat, names: seq<ShortName>, infos: seq<Info>) {
    && |names| == |infos| && (forall k | 0 <= k < |infos| :: Tells(img, t, d, names[k], infos[k]))
    && (forall i, j | 0 <= i < j < |names| :: names[i] != names[j])
  }

  /** A subdirectory, or a file that is no volume label. */
  ghost predicate Listable(img: Image, t: Tree, d: nat, n: ShortName) {
    || FolderAt(img, t, d, n).Some?
    || (FileAt(img, t, d, n).Some? && Entry(img, t.alloc, d, n).Some? && Entry(img, t.alloc, d, n).value[11] != 0x08)
  }

  ghost predicate AllListed(img: Image, t: Tree, d: nat, names: seq<ShortName>) {
    forall n :: n in names <==> Listable(img, t, d, n)
  }

  lemma ListedTells(img: Image, t: Tree, cs: nat, d: nat, s: Slot)
    requires WellFormed(img, t, cs, {}) && IsDir(t, d) && s in Listing(SlotsOf(img, t.alloc, d))
    ensures Tells(img, t, d, Name(s), InfoOf(s))
  {
    hide OwnerOk, EntryOk, Display, SlotsOf, FileSize, ChainData;
    var slots := SlotsOf(img, t.alloc, d);
    ListingHasListed(slots, s);
    var i :| 0 <= i < |slots| && slots[i] == s;
    assert IsAt(slots, Name(s), i);
    LookupAt(slots, Name(s), i);
    if !IsDirectory(s) { FileByEntry(img, t, cs, d, Name(s)); }
  }

  lemma NamedIsListed(img: Image, t: Tree, d: nat, n: ShortName)
    requires IsDir(t, d) && DirOk(SlotsOf(img, t.alloc, d)) && Entry(img, t.alloc, d, n).Some?
    requires IsListed(Entry(img, t.alloc, d, n).value)
    ensures Entry(img, t.alloc, d, n).value in Listing(SlotsOf(img, t.alloc, d)) && Name(Entry(img, t.alloc, d, n).value) == n
  {
    var slots := SlotsOf(img, t.alloc, d);
    var i: nat :| IsAt(slots, n, i) && Lookup(slots, n) == Some(slots[i]);
    ListingHasListed(slots, slots[i]);
  }

  lemma ListableIsListed(img: Image, t: Tree, d: nat, n: ShortName)
    requires Listable(img, t, d, n)
    ensures IsDir(t, d) && Entry(img, t.alloc, d, n).Some? && IsListed(Entry(img, t.alloc, d, n).value)
  {
    hide Content, ChainData, Slots, SlotsOf;
    var slots := SlotsOf(img, t.alloc, d);
    var i: nat :| IsAt(slots, n, i) && Lookup(slots, n) == Some(slots[i]);
  }

  lemma ListedIsListable(img: Image, t: Tree, cs: nat, d: nat, s: Slot)
    requires WellFormed(img, t, cs, {}) && IsDir(t, d) && s in Listing(SlotsOf(img, t.alloc, d))
    ensures Listable(img, t, d, Name(s))
  {
    hide OwnerOk, EntryOk;
    var slots := SlotsOf(img, t.alloc, d);
    ListingHasListed(slots, s);
    var i :| 0 <= i < |slots| && slots[i] == s;
    assert IsAt(slots, Name(s), i);
    LookupAt(slots, Name(s), i);
  }

  /** The names behind what a callback has been shown of a file system's directory. */
  lemma ShownTells(img: Image, t: Tree, cs: nat, d: nat, stop: seq<Info> -> bool, infos: seq<Info>) returns (names: seq<ShortName>)
    requires WellFormed(img, t, cs, {}) && IsDir(t, d) && Shown(Infos(Listing(SlotsOf(img, t.alloc, d))), stop, infos)
    ensures AllTell(img, t, d, names, infos)
    ensures infos == [] || !stop(infos) ==> AllListed(img, t, d, names)
  {
    hide Listable, WellFormed, OwnerOk, EntryOk, Tells, InfoOf, Listing, IsListed, FileAt, FolderAt, AttrAt, SlotsOf, Lookup;
    var listed := Listing(SlotsOf(img, t.alloc, d));
    var all := Infos(listed);
    names := seq(|infos|, k requires 0 <= k < |infos| => Name(listed[k]));
    DirectoryIsOk(img, t, cs, d);
    forall k | 0 <= k < |infos| ensures Tells(img, t, d, names[k], infos[k]) {
      assert infos[k] == all[k] == InfoOf(listed[k]);
      ListedTells(img, t, cs, d, listed[k]);
    }
    forall i, j | 0 <= i < j < |names| ensures names[i] != names[j] {
      ListingIsUnique(SlotsOf(img, t.alloc, d), i, j);
    }
    if infos == [] || !stop(infos) {
      forall n ensures n in names <==> Listable(img, t, d, n) {
        if Listable(img, t, d, n) {
          ListableIsListed(img, t, d, n);
          NamedIsListed(img, t, d, n);
          var k :| 0 <= k < |listed| && listed[k] == Entry(img, t.alloc, d, n).value;
          assert names[k] == n;
        }
        if n in names {
          var k :| 0 <= k < |names| && names[k] == n;
          ListedIsListable(img, t, cs, d, listed[k]);
        }
      }
    }
  }

  /** The name that an item shows for an 8.3 name leads to it. */
  lemma ShownNameEncodes(img: Image, t: Tree, d: nat, n: ShortName, info: Info, typed: seq<byte>)
    requires Tells(img, t, d, n, info) && Encode(typed) == Some(n)
    ensures Encode(info.name) == Some(n)
  {
    hide Encode, Display, FileAt, FolderAt, AttrAt;
    EncodeDecode(typed);
  }

  lemma DirectoryIsOk(img: Image, t: Tree, cs: nat, d: nat)
    requires WellFormed(img, t, cs, {}) && IsDir(t, d)
    ensures DirOk(SlotsOf(img, t.alloc, d)) && UniqueNames(SlotsOf(img, t.alloc, d))
  {
  }
}
