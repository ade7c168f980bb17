/** Cluster chains over an unpacked allocation table: a sequence of 12-bit values indexed by cluster number. */
module Chains {

  const FREE: nat := 0x000
  /** The kernel's end-of-chain mark and the smallest value that ends a chain. */
  const EOC: nat := 0xFF8

  /** The loop guard of every chain walk: 0xFF7 counts as a link. */
  predicate IsLink(v: nat) {
    2 <= v < EOC
  }

  ghost predicate Distinct(s: seq<nat>) {
    forall i, j | 0 <= i < j < |s| :: s[i] != s[j]
  }

  /** `s` is a chain of `fat`: its clusters are in range, each links to the next, the last ends it. */
  ghost predicate IsChain(fat: seq<nat>, s: seq<nat>) {
    && |s| > 0
    && (forall i | 0 <= i < |s| :: 2 <= s[i] < |fat| && s[i] < EOC)
    && (forall i | 0 <= i < |s| - 1 :: fat[s[i]] == s[i + 1])
    && fat[s[|s| - 1]] >= EOC
  }

  /** `fat` with the clusters of `s` marked free. */
  ghost function Zeroed(fat: seq<nat>, s: seq<nat>): (r: seq<nat>)
    ensures |r| == |fat|
  {
    seq(|fat|, c requires 0 <= c < |fat| => if c in s then FREE else fat[c])
  }

  /** How the volume's clusters are shared out: `chains` names every chain by its first cluster, and `at` is the
      inverse, giving for each used cluster its chain and its place in it. */
  datatype Allocation = Allocation(chains: map<nat, seq<nat>>, at: map<nat, (nat, nat)>)

  /** Every chain is in range, acyclic and ended, no two share a cluster, and a cluster is in use exactly when it
      lies on a chain: nothing is shared and nothing leaks. */
  ghost predicate Partition(fat: seq<nat>, a: Allocation) {
    && (forall h | h in a.chains :: Owns(fat, a, h))
    && (forall c | c in a.at :: OnChain(a, c))
    && (forall c | 2 <= c < |fat| :: fat[c] != FREE <==> c in a.at)
  }

  ghost predicate Owns(fat: seq<nat>, a: Allocation, h: nat)
    requires h in a.chains
  {
    var s := a.chains[h];
    IsChain(fat, s) && s[0] == h && forall i | 0 <= i < |s| :: s[i] in a.at && a.at[s[i]] == (h, i)
  }

  ghost predicate OnChain(a: Allocation, c: nat)
    requires c in a.at
  {
    var (h, i) := a.at[c];
    h in a.chains && i < |a.chains[h]| && a.chains[h][i] == c
  }

  // ---------------------------------------------------------------- what the partition means

  /** The partition in plain words: no cluster occurs twice, in one chain or in two. */
  lemma ChainsAreDisjoint(fat: seq<nat>, a: Allocation, h: nat, i: nat, k: nat, j: nat)
    requires Partition(fat, a) && h in a.chains && k in a.chains
    requires i < |a.chains[h]| && j < |a.chains[k]|
    ensures a.chains[h][i] == a.chains[k][j] <==> h == k && i == j
  {
    assert Owns(fat, a, h) && Owns(fat, a, k);
    assert a.at[a.chains[h][i]] == (h, i) && a.at[a.chains[k][j]] == (k, j);
  }

  lemma ChainIsDistinct(fat: seq<nat>, a: Allocation, h: nat)
    requires Partition(fat, a) && h in a.chains
    ensures Distinct(a.chains[h])
  {
    forall i, j | 0 <= i < j < |a.chains[h]| ensures a.chains[h][i] != a.chains[h][j] {
      ChainsAreDisjoint(fat, a, h, i, h, j);
    }
  }

  /** Two chains from the same cluster are the same chain. */
  lemma {:induction false} ChainIsUnique(fat: seq<nat>, s: seq<nat>, t: seq<nat>)
    requires IsChain(fat, s) && IsChain(fat, t) && s[0] == t[0]
    ensures s == t
  {
    assert |s| > 1 ==> fat[s[0]] == s[1] < EOC;
    assert |t| > 1 ==> fat[t[0]] == t[1] < EOC;
    if |s| == 1 {
    } else {
      assert fat[s[0]] == s[1] && fat[t[0]] == t[1];
      TailIsChain(fat, s);
      TailIsChain(fat, t);
      ChainIsUnique(fat, s[1..], t[1..]);
      assert s == [s[0]] + s[1..] && t == [t[0]] + t[1..];
    }
  }

  lemma TailIsChain(fat: seq<nat>, s: seq<nat>)
    requires IsChain(fat, s) && |s| > 1
    ensures IsChain(fat, s[1..])
  {
    forall i | 0 <= i < |s[1..]| - 1 ensures fat[s[1..][i]] == s[1..][i + 1] {
      assert s[1..][i] == s[i + 1];
    }
  }

  lemma TailFrom(fat: seq<nat>, s: seq<nat>, i: nat)
    requires IsChain(fat, s) && i < |s|
    ensures IsChain(fat, s[i..])
  {
    forall k | 0 <= k < |s[i..]| - 1 ensures fat[s[i..][k]] == s[i..][k + 1] {
      assert fat[s[i + k]] == s[i + k + 1];
    }
  }

  /** A chain that ends meets no cluster twice. */
  lemma ChainsAreAcyclic(fat: seq<nat>, s: seq<nat>)
    requires IsChain(fat, s)
    ensures Distinct(s)
  {
    forall i, j | 0 <= i < j < |s| ensures s[i] != s[j] {
      TailFrom(fat, s, i);
      TailFrom(fat, s, j);
      if s[i] == s[j] { ChainIsUnique(fat, s[i..], s[j..]); }
    }
  }

  /** A chain only depends on the entries and the ownership of its own clusters. */
  lemma OwnsFrame(fat: seq<nat>, a: Allocation, fat': seq<nat>, a': Allocation, h: nat)
    requires h in a.chains && h in a'.chains && a'.chains[h] == a.chains[h] && Owns(fat, a, h) && |fat'| == |fat|
    requires forall c | c in a.chains[h] :: fat'[c] == fat[c] && c in a'.at && a'.at[c] == (h, a.at[c].1)
    ensures Owns(fat', a', h)
  {
  }

  // ---------------------------------------------------------------- the three ways the kernel changes the table

  function WithNew(a: Allocation, c: nat): Allocation {
    Allocation(a.chains[c := [c]], a.at[c := (c, 0)])
  }

  lemma HeadsAreOwned(fat: seq<nat>, a: Allocation)
    requires Partition(fat, a)
    ensures forall h | h in a.chains :: h in a.at && a.at[h] == (h, 0)
  {
    forall h | h in a.chains ensures h in a.at && a.at[h] == (h, 0) {
      assert Owns(fat, a, h);
      assert a.at[a.chains[h][0]] == (h, 0);
    }
  }

  lemma ChainsInRange(fat: seq<nat>, a: Allocation)
    requires Partition(fat, a)
    ensures forall h | h in a.chains :: 2 <= h < |fat| && IsChain(fat, a.chains[h]) && a.chains[h][0] == h
  {
    forall h | h in a.chains ensures 2 <= h < |fat| && IsChain(fat, a.chains[h]) && a.chains[h][0] == h {
      assert Owns(fat, a, h);
    }
  }

  /** The clusters of a chain are those that it owns. */
  lemma ChainMembers(fat: seq<nat>, a: Allocation, h: nat)
    requires Partition(fat, a) && h in a.chains
    ensures forall c :: c in a.chains[h] <==> c in a.at && a.at[c].0 == h
    ensures forall c | c in a.chains[h] :: c < |fat|
  {
    assert Owns(fat, a, h);
    forall c | c in a.at ensures c in a.chains[h] <==> a.at[c].0 == h {
      assert OnChain(a, c);
    }
  }

  lemma FreeClusterIsUnowned(fat: seq<nat>, a: Allocation, c: nat)
    requires Partition(fat, a) && 2 <= c < |fat| && fat[c] == FREE
    ensures c !in a.at && c !in a.chains
  {
    HeadsAreOwned(fat, a);
  }

  lemma OwnsAfterAllocate(fat: seq<nat>, a: Allocation, c: nat, h: nat)
    requires Partition(fat, a) && 2 <= c < |fat| && c < EOC && fat[c] == FREE
    requires h in a.chains || h == c
    ensures Owns(fat[c := EOC], WithNew(a, c), h)
  {
    FreeClusterIsUnowned(fat, a, c);
    if h != c {
      assert Owns(fat, a, h);
      OwnsFrame(fat, a, fat[c := EOC], WithNew(a, c), h);
    }
  }

  /** A free cluster becomes a chain of its own. */
  lemma AllocateKeepsPartition(fat: seq<nat>, a: Allocation, c: nat)
    requires Partition(fat, a) && 2 <= c < |fat| && c < EOC && fat[c] == FREE
    ensures Partition(fat[c := EOC], WithNew(a, c))
  {
    hide Owns;
    FreeClusterIsUnowned(fat, a, c);
    var fat', a' := fat[c := EOC], WithNew(a, c);
    forall h | h in a'.chains ensures Owns(fat', a', h) {
      OwnsAfterAllocate(fat, a, c, h);
    }
    forall d | d in a'.at ensures OnChain(a', d) {
      if d != c {
        assert OnChain(a, d) && a'.at[d] == a.at[d];
      }
    }
  }

  function WithLink(a: Allocation, h: nat, c: nat): Allocation
    requires h in a.chains
  {
    Allocation((a.chains - {c})[h := a.chains[h] + [c]], a.at[c := (h, |a.chains[h]|)])
  }

  /** Appending a one-cluster chain to a chain. */
  lemma AppendOwns(fat: seq<nat>, a: Allocation, h: nat, c: nat)
    requires h in a.chains && c in a.chains && h != c && a.chains[c] == [c] && Owns(fat, a, h) && Owns(fat, a, c)
    ensures var last := a.chains[h][|a.chains[h]| - 1];
            last < |fat| && Owns(fat[last := c], WithLink(a, h, c), h)
  {
    var s := a.chains[h];
    var last := s[|s| - 1];
    var fat' := fat[last := c];
    var s' := s + [c];
    assert a.at[c] == (c, 0) && a.at[last] == (h, |s| - 1) by { assert a.chains[c][0] == c; }
    forall i | 0 <= i < |s'| - 1 ensures fat'[s'[i]] == s'[i + 1] {
      if i < |s| - 1 {
        assert a.at[s[i]] == (h, i);
        assert fat[s[i]] == s[i + 1];
      }
    }
    assert fat[a.chains[c][0]] >= EOC;
    assert IsChain(fat', s');
    forall i | 0 <= i < |s'| ensures s'[i] in WithLink(a, h, c).at && WithLink(a, h, c).at[s'[i]] == (h, i) {
      if i < |s| { assert a.at[s[i]] == (h, i); }
    }
  }

  lemma SingletonOwnsItself(fat: seq<nat>, a: Allocation, c: nat)
    requires Partition(fat, a) && c in a.chains && a.chains[c] == [c]
    ensures forall d | d in a.at && a.at[d].0 == c :: d == c
  {
    forall d | d in a.at && a.at[d].0 == c ensures d == c {
      assert OnChain(a, d);
    }
  }

  lemma LastIsNotSingle(fat: seq<nat>, a: Allocation, h: nat, c: nat)
    requires Partition(fat, a) && h in a.chains && c in a.chains && h != c && a.chains[c] == [c]
    ensures |a.chains[h]| > 0 && a.chains[h][|a.chains[h]| - 1] != c
  {
    assert Owns(fat, a, h);
    SingletonOwnsItself(fat, a, c);
    HeadsAreOwned(fat, a);
  }

  lemma OwnsAfterLink(fat: seq<nat>, a: Allocation, h: nat, c: nat, k: nat)
    requires Partition(fat, a) && h in a.chains && c in a.chains && h != c && a.chains[c] == [c]
    requires k in WithLink(a, h, c).chains
    ensures var last := a.chains[h][|a.chains[h]| - 1];
            last < |fat| && Owns(fat[last := c], WithLink(a, h, c), k)
  {
    assert Owns(fat, a, h) && Owns(fat, a, c) && Owns(fat, a, k);
    if k == h {
      AppendOwns(fat, a, h, c);
    } else {
      var last := a.chains[h][|a.chains[h]| - 1];
      assert a.at[last].0 == h && a.at[a.chains[c][0]].0 == c;
      OwnsFrame(fat, a, fat[last := c], WithLink(a, h, c), k);
    }
  }

  lemma LinkedClusters(fat: seq<nat>, a: Allocation, h: nat, c: nat)
    requires Partition(fat, a) && h in a.chains && c in a.chains && h != c && a.chains[c] == [c]
    ensures |a.chains[h]| > 0 && 2 <= c < |fat| && c in a.at && fat[c] != FREE
    ensures var last := a.chains[h][|a.chains[h]| - 1];
            2 <= last < |fat| && last in a.at && fat[last] != FREE
  {
    assert Owns(fat, a, h) && Owns(fat, a, c);
    HeadsAreOwned(fat, a);
    ChainMembers(fat, a, h);
    assert a.chains[h][|a.chains[h]| - 1] in a.chains[h];
    assert a.chains[c][0] == c;
  }

  lemma OnChainAfterLink(fat: seq<nat>, a: Allocation, h: nat, c: nat, d: nat)
    requires Partition(fat, a) && h in a.chains && c in a.chains && h != c && a.chains[c] == [c]
    requires d in WithLink(a, h, c).at
    ensures OnChain(WithLink(a, h, c), d)
  {
    hide Owns;
    if d != c {
      SingletonOwnsItself(fat, a, c);
      assert OnChain(a, d) && WithLink(a, h, c).at[d] == a.at[d];
    }
  }

  /** The last cluster of chain `h` is linked to the one-cluster chain `c`. */
  lemma LinkKeepsPartition(fat: seq<nat>, a: Allocation, h: nat, c: nat)
    requires Partition(fat, a) && h in a.chains && c in a.chains && h != c && a.chains[c] == [c]
    ensures var last := a.chains[h][|a.chains[h]| - 1];
            last < |fat| && Partition(fat[last := c], WithLink(a, h, c))
  {
    hide IsChain;
    LinkedClusters(fat, a, h, c);
    var s := a.chains[h];
    var last := s[|s| - 1];
    var fat', a' := fat[last := c], WithLink(a, h, c);
    forall k | k in a'.chains ensures Owns(fat', a', k) {
      OwnsAfterLink(fat, a, h, c, k);
    }
    forall d | d in a'.at ensures OnChain(a', d) {
      OnChainAfterLink(fat, a, h, c, d);
    }
  }

  function Without(a: Allocation, h: nat): Allocation
    requires h in a.chains
  {
    Allocation(a.chains - {h}, a.at - (set c | c in a.chains[h]))
  }

  /** Freeing exactly the clusters of one chain. */
  lemma FreeKeepsPartition(fat: seq<nat>, a: Allocation, h: nat)
    requires Partition(fat, a) && h in a.chains
    ensures Partition(Zeroed(fat, a.chains[h]), Without(a, h))
  {
    hide Owns;
    var s := a.chains[h];
    var fat', a' := Zeroed(fat, s), Without(a, h);
    ChainMembers(fat, a, h);
    forall k | k in a'.chains ensures Owns(fat', a', k) {
      ChainMembers(fat, a, k);
      OwnsFrame(fat, a, fat', a', k);
    }
    forall d | d in a'.at ensures OnChain(a', d) {
      assert d in a.at && d !in s;
      assert OnChain(a, d);
      assert a'.at[d] == a.at[d] && a.at[d].0 != h;
    }
  }

  /** From one cluster of a chain the table leads to the next, or to the end. */
  lemma ChainStep(fat: seq<nat>, s: seq<nat>, j: nat)
    requires IsChain(fat, s) && j < |s|
    ensures 2 <= s[j] < |fat| && s[j] < EOC
    ensures if j + 1 < |s| then fat[s[j]] == s[j + 1] else !IsLink(fat[s[j]])
  {
  }

  lemma UsedClustersAreKnown(fat: seq<nat>, a: Allocation, c: nat)
    requires Partition(fat, a) && c !in a.at
    ensures forall h | h in a.chains :: c !in a.chains[h]
  {
    forall h | h in a.chains ensures c !in a.chains[h] {
      assert Owns(fat, a, h);
    }
  }
}
