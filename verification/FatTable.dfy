/** The packed FAT: 12-bit entries, three bytes to every two of them, in g_fat_primary. */
module FatTable {
  import opened Bytes
  import opened Chains

  /** The size of the static buffer: 64 sectors. */
  const FAT_BUFFER: nat := 64 * 512

  function Index(cluster: nat): nat {
    cluster + cluster / 2
  }

  /** Whether both bytes of the entry lie inside the FAT. */
  predicate Covered(size: nat, cluster: nat) {
    Index(cluster) + 1 < size
  }

  /** The number of entries that lie inside a FAT of `size` bytes. */
  function Capacity(size: nat): nat {
    2 * size / 3
  }

  lemma CoveredIsBelowCapacity(size: nat, cluster: nat)
    ensures Covered(size, cluster) <==> cluster < Capacity(size)
  {
  }

  /** fat12_get_fat_entry on the bytes of the table. */
  function Get(b: seq<byte>, size: nat, cluster: nat): (v: nat)
    requires size <= |b|
    ensures v < 0x1000
  {
    var i := Index(cluster);
    if !Covered(size, cluster) then EOC
    else if cluster % 2 == 0 then b[i] as int + 0x100 * (b[i + 1] as int % 0x10)
    else b[i] as int / 0x10 + 0x10 * b[i + 1] as int
  }

  /** fat12_set_fat_entry on the bytes of the table; it does not look at the size of the FAT. */
  function Put(b: seq<byte>, cluster: nat, value: nat): (r: seq<byte>)
    requires Index(cluster) + 1 < |b|
    ensures |r| == |b|
  {
    var i, v := Index(cluster), value % 0x1000;
    if cluster % 2 == 0 then
      b[i := v % 0x100][i + 1 := b[i + 1] / 0x10 * 0x10 + v / 0x100]
    else
      b[i := b[i] % 0x10 + v % 0x10 * 0x10][i + 1 := v / 0x10]
  }

  /** The table as an array of 12-bit values. */
  function Entries(b: seq<byte>, size: nat): (e: seq<nat>)
    requires size <= |b|
    ensures |e| == Capacity(size)
    ensures forall c | 0 <= c < |e| :: e[c] == Get(b, size, c)
  {
    seq(Capacity(size), c requires 0 <= c => Get(b, size, c))
  }

  /** The values `e` lie in the bytes in pairs: every three bytes are a 24-bit number of two values, the even one below the odd
      one, and a last value without a partner is the lower half of its two bytes. */
  ghost predicate Packed(b: seq<byte>, e: seq<nat>) {
    && (forall k | 0 <= k && 2 * k + 1 < |e| ::
          3 * k + 2 < |b| && b[3 * k] as int + 256 * b[3 * k + 1] as int + 65536 * b[3 * k + 2] as int == e[2 * k] + 4096 * e[2 * k + 1])
    && (forall c | 0 <= c < |e| :: e[c] < 4096)
    && (|e| % 2 == 1 ==>
          var k := |e| / 2; 3 * k + 1 < |b| && (b[3 * k] as int + 256 * b[3 * k + 1] as int) % 4096 == e[2 * k])
  }

  /** This is how the entries lie in the bytes of every table. */
  lemma EntriesArePacked(b: seq<byte>, size: nat)
    requires size <= |b|
    ensures Packed(b, Entries(b, size))
  {
    var e := Entries(b, size);
    forall k | 0 <= k && 2 * k + 1 < |e|
      ensures 3 * k + 2 < |b| && b[3 * k] as int + 256 * b[3 * k + 1] as int + 65536 * b[3 * k + 2] as int == e[2 * k] + 4096 * e[2 * k + 1]
    {
      PairIsPacked(b, size, k);
    }
    if |e| % 2 == 1 { LastIsPacked(b, size, |e| / 2); }
  }

  lemma PairIsPacked(b: seq<byte>, size: nat, k: nat)
    requires size <= |b| && 2 * k + 1 < Capacity(size)
    ensures 3 * k + 2 < |b|
    ensures b[3 * k] as int + 256 * b[3 * k + 1] as int + 65536 * b[3 * k + 2] as int ==
            Get(b, size, 2 * k) + 4096 * Get(b, size, 2 * k + 1)
  {
    CoveredIsBelowCapacity(size, 2 * k);
    CoveredIsBelowCapacity(size, 2 * k + 1);
    assert Index(2 * k) == 3 * k && Index(2 * k + 1) == 3 * k + 1;
  }

  lemma LastIsPacked(b: seq<byte>, size: nat, k: nat)
    requires size <= |b| && 2 * k < Capacity(size)
    ensures 3 * k + 1 < |b| && (b[3 * k] as int + 256 * b[3 * k + 1] as int) % 4096 == Get(b, size, 2 * k)
  {
    CoveredIsBelowCapacity(size, 2 * k);
    assert Index(2 * k) == 3 * k;
    TwelveLow(b[3 * k] as int, b[3 * k + 1] as int);
  }

  lemma TwelveLow(low: nat, high: nat)
    requires low < 256
    ensures (low + 256 * high) % 4096 == low + 256 * (high % 16)
  {
    assert low + 256 * high == 4096 * (high / 16) + (low + 256 * (high % 16));
  }

  lemma PackedAt(b: seq<byte>, e: seq<nat>, e': seq<nat>, k: nat)
    requires Packed(b, e) && Packed(b, e') && |e| == |e'| && 2 * k < |e|
    ensures e[2 * k] == e'[2 * k] && (2 * k + 1 < |e| ==> e[2 * k + 1] == e'[2 * k + 1])
  {
    if 2 * k + 1 < |e| {
      TwoDigits(e[2 * k], e[2 * k + 1], e'[2 * k], e'[2 * k + 1]);
    } else {
      assert k == |e| / 2;
    }
  }

  /** And the bytes say what the values are. */
  lemma PackedDetermines(b: seq<byte>, e: seq<nat>, e': seq<nat>)
    requires Packed(b, e) && Packed(b, e') && |e| == |e'|
    ensures e == e'
  {
    forall c | 0 <= c < |e| ensures e[c] == e'[c] {
      PackedAt(b, e, e', c / 2);
      assert c == 2 * (c / 2) || c == 2 * (c / 2) + 1;
    }
  }

  lemma TwoDigits(a: nat, b: nat, a': nat, b': nat)
    requires a < 4096 && a' < 4096 && a + 4096 * b == a' + 4096 * b'
    ensures a == a' && b == b'
  {
  }

  lemma GetAfterPut(b: seq<byte>, size: nat, c: nat, v: nat, d: nat)
    requires size <= |b| && Index(c) + 1 < |b|
    ensures Get(Put(b, c, v), size, d) == if c == d && Covered(size, c) then v % 0x1000 else Get(b, size, d)
  {
    if c == d {
      GetSameAfterPut(b, size, c, v);
    } else {
      assert c < d ==> Index(c) < Index(d);
      assert d < c ==> Index(d) < Index(c);
      assert c + 1 < d ==> Index(c) + 1 < Index(d);
      assert d + 1 < c ==> Index(d) + 1 < Index(c);
      NeighboursKeepTheirNibble(b, c, v);
    }
  }

  lemma GetSameAfterPut(b: seq<byte>, size: nat, c: nat, v: nat)
    requires size <= |b| && Index(c) + 1 < |b|
    ensures Get(Put(b, c, v), size, c) == if Covered(size, c) then v % 0x1000 else EOC
  {
    var i, w := Index(c), v % 0x1000;
    var b' := Put(b, c, v);
    if c % 2 == 0 {
      Nibbles(b[i + 1] as int / 0x10, w / 0x100);
      assert b'[i] == w % 0x100 && b'[i + 1] == b[i + 1] / 0x10 * 0x10 + w / 0x100;
    } else {
      Nibbles(w % 0x10, b[i] as int % 0x10);
      assert b'[i] == b[i] % 0x10 + w % 0x10 * 0x10 && b'[i + 1] == w / 0x10;
    }
  }

  lemma Nibbles(high: nat, low: nat)
    requires low < 0x10
    ensures (high * 0x10 + low) / 0x10 == high && (high * 0x10 + low) % 0x10 == low
  {
  }

  /** The byte that two entries share keeps the other entry's half. */
  lemma NeighboursKeepTheirNibble(b: seq<byte>, c: nat, v: nat)
    requires Index(c) + 1 < |b|
    ensures c % 2 == 0 ==> Put(b, c, v)[Index(c) + 1] / 0x10 == b[Index(c) + 1] / 0x10
    ensures c % 2 == 1 ==> Put(b, c, v)[Index(c)] % 0x10 == b[Index(c)] % 0x10
  {
  }

  /** Writing the packed table refines updating the array of entries; a write past the last covered entry
      changes none of them. */
  lemma PutRefinesUpdate(b: seq<byte>, size: nat, c: nat, v: nat)
    requires size <= |b| && Index(c) + 1 < |b|
    ensures Entries(Put(b, c, v), size) ==
            if c < Capacity(size) then Entries(b, size)[c := v % 0x1000] else Entries(b, size)
  {
    CoveredIsBelowCapacity(size, c);
    forall d | 0 <= d < Capacity(size)
      ensures Get(Put(b, c, v), size, d) == if c == d then v % 0x1000 else Get(b, size, d)
    {
      GetAfterPut(b, size, c, v, d);
    }
  }

  /** The bytes, and the half byte, that no covered entry uses are the same. */
  ghost predicate SameSlack(b: seq<byte>, b': seq<byte>, size: nat) {
    var n := Capacity(size);
    && |b| == |b'|
    && (forall i | Index(n) <= i < |b| && !(n % 2 == 1 && i == Index(n)) :: b[i] == b'[i])
    && (n % 2 == 1 && Index(n) < |b| ==> b[Index(n)] / 0x10 == b'[Index(n)] / 0x10)
  }

  lemma PutKeepsSlack(b: seq<byte>, size: nat, c: nat, v: nat)
    requires size <= |b| && c < Capacity(size)
    ensures Index(c) + 1 < |b| && SameSlack(b, Put(b, c, v), size)
  {
    var n := Capacity(size);
    CoveredIsBelowCapacity(size, c);
    assert Index(c) < Index(n);
    NeighboursKeepTheirNibble(b, c, v);
  }

  lemma SlackJoins(a: seq<byte>, b: seq<byte>, c: seq<byte>, size: nat)
    requires SameSlack(a, b, size) && SameSlack(b, c, size)
    ensures SameSlack(a, c, size)
  {
  }

  /** The entries and the slack determine every byte. */
  lemma EntriesDetermineBytes(b: seq<byte>, b': seq<byte>, size: nat)
    requires size <= |b| && size <= |b'| && Entries(b, size) == Entries(b', size) && SameSlack(b, b', size)
    ensures b == b'
  {
    forall i | 0 <= i < |b| ensures b[i] == b'[i] {
      ByteFromEntries(b, b', size, i);
    }
  }

  lemma ByteFromEntries(b: seq<byte>, b': seq<byte>, size: nat, i: nat)
    requires size <= |b| && size <= |b'| && Entries(b, size) == Entries(b', size) && SameSlack(b, b', size)
    requires i < |b|
    ensures b[i] == b'[i]
  {
    var n, k := Capacity(size), i / 3;
    CoveredIsBelowCapacity(size, 2 * k);
    CoveredIsBelowCapacity(size, 2 * k + 1);
    assert 2 * k < n ==> Entries(b, size)[2 * k] == Entries(b', size)[2 * k];
    assert 2 * k + 1 < n ==> Entries(b, size)[2 * k + 1] == Entries(b', size)[2 * k + 1];
    assert Index(2 * k) == 3 * k && Index(2 * k + 1) == 3 * k + 1;
  }

  /** Only the bytes inside the FAT matter. */
  lemma EntriesOfPrefix(b: seq<byte>, size: nat)
    requires size <= |b|
    ensures Entries(b, size) == Entries(b[..size], size)
  {
    forall c | 0 <= c < Capacity(size) ensures Get(b, size, c) == Get(b[..size], size, c) {
      CoveredIsBelowCapacity(size, c);
    }
  }

  // ---------------------------------------------------------------- freeing a chain

  function InUse(e: seq<nat>): nat {
    if e == [] then 0 else (if e[|e| - 1] != FREE then 1 else 0) + InUse(e[..|e| - 1])
  }

  lemma {:induction false} FreeingOneCounts(e: seq<nat>, c: nat)
    requires c < |e| && e[c] != FREE
    ensures InUse(e[c := FREE]) == InUse(e) - 1
  {
    var n := |e| - 1;
    if c == n {
      assert e[c := FREE][..n] == e[..n];
    } else {
      FreeingOneCounts(e[..n], c);
      assert e[c := FREE][..n] == e[..n][c := FREE];
    }
  }

  /** What bounds the loop of fat12_free_chain: the entries still in use, plus the step about to be taken. */
  function StepsLeft(b: seq<byte>, size: nat, cluster: nat): nat
    requires size <= |b|
  {
    if IsLink(cluster) then 1 + InUse(Entries(b, size)) else 0
  }

  /** Whatever the table holds, each step brings the end of the loop nearer. */
  lemma FreeStepDecreases(b: seq<byte>, size: nat, cluster: nat)
    requires size <= |b| && IsLink(cluster) && Index(cluster) + 1 < |b|
    ensures StepsLeft(Put(b, cluster, FREE), size, Get(b, size, cluster)) < StepsLeft(b, size, cluster)
  {
    CoveredIsBelowCapacity(size, cluster);
    PutRefinesUpdate(b, size, cluster, FREE);
    if cluster < Capacity(size) && Get(b, size, cluster) != FREE {
      FreeingOneCounts(Entries(b, size), cluster);
    }
  }

  /** The table after fat12_free_chain from `cluster`. */
  function Freed(b: seq<byte>, size: nat, cluster: nat): (r: seq<byte>)
    requires size <= |b| && FAT_BUFFER <= |b|
    ensures |r| == |b|
    decreases StepsLeft(b, size, cluster)
  {
    if !IsLink(cluster) then b
    else
      FreeStepDecreases(b, size, cluster);
      Freed(Put(b, cluster, FREE), size, Get(b, size, cluster))
  }

  lemma EndOfFreed(b: seq<byte>, size: nat, cluster: nat)
    requires size <= |b| && FAT_BUFFER <= |b| && !IsLink(cluster)
    ensures Freed(b, size, cluster) == b
  {
  }

  /** On a chain whose clusters are distinct, exactly its entries become free and no other bit changes. */
  lemma {:induction false} FreedOnChain(b: seq<byte>, size: nat, s: seq<nat>)
    requires size <= |b| && FAT_BUFFER <= |b| && IsChain(Entries(b, size), s) && Distinct(s)
    ensures Entries(Freed(b, size, s[0]), size) == Zeroed(Entries(b, size), s)
    ensures SameSlack(b, Freed(b, size, s[0]), size)
    decreases |s|
  {
    hide Put, Get, Capacity;
    var c, e := s[0], Entries(b, size);
    var b' := Put(b, c, FREE);
    var e' := Entries(b', size);
    FreeStepDecreases(b, size, c);
    PutRefinesUpdate(b, size, c, FREE);
    PutKeepsSlack(b, size, c, FREE);
    assert Freed(b, size, c) == Freed(b', size, Get(b, size, c));
    if |s| == 1 {
      EndOfFreed(b', size, Get(b, size, c));
    } else {
      assert e[c] == s[1];
      TailIsChain(e, s);
      assert forall i | 0 <= i < |s| - 1 :: s[1..][i] == s[i + 1];
      assert forall x | x in s[1..] :: x != c && e'[x] == e[x];
      OwnLinksKept(e, e', s[1..]);
      FreedOnChain(b', size, s[1..]);
      SlackJoins(b, b', Freed(b', size, s[1]), size);
      assert forall x :: x in s <==> x == c || x in s[1..];
    }
  }

  lemma OwnLinksKept(fat: seq<nat>, fat': seq<nat>, s: seq<nat>)
    requires IsChain(fat, s) && |fat'| == |fat| && forall x | x in s :: fat'[x] == fat[x]
    ensures IsChain(fat', s)
  {
  }

  /** g_fat_primary, the size of the mounted FAT, and g_fat_dirty. */
  class Table {
    const bytes: array<byte>
    var size: nat
    var dirty: bool

    ghost predicate Valid()
      reads `size
    {
      bytes.Length == FAT_BUFFER && size <= FAT_BUFFER
    }

    ghost function Values(): seq<nat>
      requires Valid()
      reads `size, bytes
    {
      Entries(bytes[..], size)
    }

    constructor ()
      ensures Valid() && size == 0 && !dirty && fresh(bytes)
    {
      bytes := new byte[FAT_BUFFER](i => 0);
      size, dirty := 0, false;
    }

    /** fat12_get_fat_entry. */
    method GetEntry(cluster: nat) returns (value: nat)
      requires Valid()
      ensures value == Get(bytes[..], size, cluster)
      ensures Packed(bytes[..], Values())
      ensures value == if cluster < |Values()| then Values()[cluster] else EOC
    {
      hide Packed;
      CoveredIsBelowCapacity(size, cluster);
      EntriesArePacked(bytes[..], size);
      var index := cluster + cluster / 2;
      if index + 1 >= size { return EOC; }
      if cluster % 2 == 0 {
        value := bytes[index] as int + 0x100 * (bytes[index + 1] as int % 0x10);
      } else {
        value := bytes[index] as int / 0x10 + 0x10 * bytes[index + 1] as int;
      }
    }

    /** fat12_set_fat_entry. The callers only pass numbers below 0xFF8, which is what keeps it in the buffer. */
    method SetEntry(cluster: nat, value: nat)
      requires Valid() && cluster < EOC
      modifies this`dirty, bytes
      ensures Valid() && dirty && bytes[..] == Put(old(bytes[..]), cluster, value)
      ensures Packed(bytes[..], Values())
      ensures Values() == if cluster < |old(Values())| then old(Values())[cluster := value % 0x1000] else old(Values())
      ensures cluster < |old(Values())| ==> SameSlack(old(bytes[..]), bytes[..], size)
    {
      hide Packed;
      PutRefinesUpdate(bytes[..], size, cluster, value);
      if cluster < Capacity(size) { PutKeepsSlack(bytes[..], size, cluster, value); }
      var index, v := cluster + cluster / 2, value % 0x1000;
      if cluster % 2 == 0 {
        bytes[index] := v % 0x100;
        bytes[index + 1] := bytes[index + 1] / 0x10 * 0x10 + v / 0x100;
      } else {
        bytes[index] := bytes[index] % 0x10 + v % 0x10 * 0x10;
        bytes[index + 1] := v / 0x10;
      }
      dirty := true;
      EntriesArePacked(bytes[..], size);
    }

    /** fat12_free_chain: ends on every table, even one with cycles or links out of range. */
    method FreeChain(start: nat)
      requires Valid()
      modifies this`dirty, bytes
      ensures Valid() && bytes[..] == Freed(old(bytes[..]), size, start)
      ensures dirty == (old(dirty) || IsLink(start))
    {
      var cluster := start;
      while IsLink(cluster)
        invariant Valid() && Freed(bytes[..], size, cluster) == Freed(old(bytes[..]), size, start)
        invariant old(dirty) ==> dirty
        invariant dirty && !old(dirty) ==> IsLink(start)
        invariant dirty || cluster == start
        decreases StepsLeft(bytes[..], size, cluster)
      {
        FreeStepDecreases(bytes[..], size, cluster);
        var next := GetEntry(cluster);
        SetEntry(cluster, FREE);
        cluster := next;
      }
      EndOfFreed(bytes[..], size, cluster);
    }
  }
}
