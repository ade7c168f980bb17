/** The bytes that a chain of clusters holds. */
module Contents {
  import opened Bytes

  /** The data area: the contents of each cluster, by cluster number. */
  type Data = seq<seq<byte>>

  ghost predicate InRange(data: Data, s: seq<nat>) {
    forall i | 0 <= i < |s| :: s[i] < |data|
  }

  /** The clusters of a chain, one after the other. */
  ghost function ChainBytes(data: Data, s: seq<nat>): seq<byte>
    requires InRange(data, s)
  {
    if s == [] then [] else ChainBytes(data, s[..|s| - 1]) + data[s[|s| - 1]]
  }

  lemma ChainBytesAppend(data: Data, s: seq<nat>, c: nat)
    requires InRange(data, s) && c < |data|
    ensures InRange(data, s + [c]) && ChainBytes(data, s + [c]) == ChainBytes(data, s) + data[c]
  {
    assert (s + [c])[..|s|] == s;
  }

  lemma ChainBytesOfOne(data: Data, c: nat)
    requires c < |data|
    ensures ChainBytes(data, [c]) == data[c]
  {
    assert [c][..0] == [];
    assert ChainBytes(data, []) == [];
  }

  /** Only the chain's own clusters matter. */
  lemma {:induction false} ChainBytesFrame(data: Data, data': Data, s: seq<nat>)
    requires InRange(data, s) && InRange(data', s) && forall i | 0 <= i < |s| :: data'[s[i]] == data[s[i]]
    ensures ChainBytes(data', s) == ChainBytes(data, s)
  {
    if s != [] { ChainBytesFrame(data, data', s[..|s| - 1]); }
  }

  /** Where the j-th cluster of a chain lies in its bytes. */
  ghost function Offset(data: Data, s: seq<nat>, j: nat): nat
    requires InRange(data, s) && j <= |s|
  {
    |ChainBytes(data, s[..j])|
  }

  lemma OffsetNext(data: Data, s: seq<nat>, j: nat)
    requires InRange(data, s) && j < |s|
    ensures Offset(data, s, j + 1) == Offset(data, s, j) + |data[s[j]]|
    ensures ChainBytes(data, s[..j + 1]) == ChainBytes(data, s[..j]) + data[s[j]]
  {
    assert s[..j + 1] == s[..j] + [s[j]];
    ChainBytesAppend(data, s[..j], s[j]);
  }

  /** The first j clusters hold a prefix of the chain's bytes. */
  lemma {:induction false} ChainBytesPrefix(data: Data, s: seq<nat>, j: nat)
    requires InRange(data, s) && j <= |s|
    ensures Offset(data, s, j) <= |ChainBytes(data, s)|
    ensures ChainBytes(data, s)[..Offset(data, s, j)] == ChainBytes(data, s[..j])
    decreases |s|
  {
    if j == |s| {
      assert s[..j] == s;
    } else {
      var t := s[..|s| - 1];
      ChainBytesPrefix(data, t, j);
      assert t[..j] == s[..j];
    }
  }

  /** The j-th cluster's bytes are a window of the chain's bytes. */
  lemma ChainBytesWindow(data: Data, s: seq<nat>, j: nat)
    requires InRange(data, s) && j < |s|
    ensures Offset(data, s, j) + |data[s[j]]| <= |ChainBytes(data, s)|
    ensures ChainBytes(data, s)[Offset(data, s, j)..Offset(data, s, j) + |data[s[j]]|] == data[s[j]]
  {
    OffsetNext(data, s, j);
    ChainBytesPrefix(data, s, j + 1);
    assert ChainBytes(data, s[..j + 1])[Offset(data, s, j)..] == data[s[j]];
  }

  /** `data'` differs from `data`, as far as the chain `s` can see, by a patch to its j-th cluster. */
  ghost predicate Patched(data: Data, data': Data, s: seq<nat>, j: nat, at: nat, patch: seq<byte>)
    requires InRange(data, s) && InRange(data', s) && j < |s|
  {
    && at + |patch| <= |data[s[j]]| && data'[s[j]] == Splice(data[s[j]], at, patch)
    && forall i | 0 <= i < |s| && i != j :: data'[s[i]] == data[s[i]]
  }

  /** Patching one cluster patches the chain's bytes at the matching place. */
  lemma {:induction false} ChainBytesPatch(data: Data, data': Data, s: seq<nat>, j: nat, at: nat, patch: seq<byte>)
    requires InRange(data, s) && InRange(data', s) && j < |s| && Patched(data, data', s, j, at, patch)
    ensures Offset(data, s, j) + at + |patch| <= |ChainBytes(data, s)|
    ensures ChainBytes(data', s) == Splice(ChainBytes(data, s), Offset(data, s, j) + at, patch)
    decreases |s|
  {
    var last := |s| - 1;
    var t := s[..last];
    if j == last {
      ChainBytesFrame(data, data', t);
      SpliceRight(ChainBytes(data, t), data[s[last]], at, patch);
    } else {
      assert t[j] == s[j] && t[..j] == s[..j];
      ChainBytesPatch(data, data', t, j, at, patch);
      SpliceLeft(ChainBytes(data, t), data[s[last]], Offset(data, s, j) + at, patch);
    }
  }

  ghost predicate AllSized(data: Data, s: seq<nat>, size: nat)
    requires InRange(data, s)
  {
    forall i | 0 <= i < |s| :: |data[s[i]]| == size
  }

  lemma {:induction false} ChainBytesLength(data: Data, s: seq<nat>, size: nat)
    requires InRange(data, s) && AllSized(data, s, size)
    ensures |ChainBytes(data, s)| == |s| * size
  {
    if s != [] {
      ChainBytesLength(data, s[..|s| - 1], size);
      assert |s| * size == (|s| - 1) * size + size;
    }
  }

  /** The chain holds `size` bytes and has no cluster to spare. */
  ghost predicate Fits(data: Data, s: seq<nat>, clusterSize: nat, size: nat)
    requires InRange(data, s)
  {
    size <= |ChainBytes(data, s)| < size + clusterSize
  }

  /** In other words its length is the file size divided by the cluster size, rounded up. */
  lemma FitsIsCeiling(data: Data, s: seq<nat>, clusterSize: nat, size: nat)
    requires InRange(data, s) && AllSized(data, s, clusterSize) && clusterSize > 0
    ensures Fits(data, s, clusterSize, size) <==> |s| == (size + clusterSize - 1) / clusterSize
  {
    ChainBytesLength(data, s, clusterSize);
    CeilingIff(|s|, size, clusterSize);
  }

  lemma CeilingIff(n: nat, size: nat, w: nat)
    requires w > 0
    ensures size <= n * w < size + w <==> n == (size + w - 1) / w
  {
    var q := (size + w - 1) / w;
    DivisionBounds(size + w - 1, w);
    Multiples(n, q, w);
    Multiples(q, n, w);
  }

  lemma DivisionBounds(n: nat, w: nat)
    requires w > 0
    ensures n / w * w <= n < n / w * w + w
  {
  }

  lemma Multiples(a: nat, b: nat, w: nat)
    ensures a < b ==> a * w + w <= b * w
  {
    Scale(a + 1, b, w);
    assert (a + 1) * w == a * w + w;
  }

  lemma Scale(a: nat, b: nat, n: nat)
    ensures a <= b ==> a * n <= b * n
  {
  }

  lemma OffsetEnds(data: Data, s: seq<nat>)
    requires InRange(data, s)
    ensures Offset(data, s, 0) == 0 && Offset(data, s, |s|) == |ChainBytes(data, s)|
  {
    assert s[..0] == [] && s[..|s|] == s;
    ChainBytesEmpty(data);
  }

  lemma ChainBytesEmpty(data: Data)
    ensures ChainBytes(data, []) == []
  {
  }
}
