/** Following links through a table that may be damaged: when every walk comes to an end. */
module Walks {
  import opened Bytes
  import opened Chains
  import opened FatTable

  /** What fat12_get_fat_entry gives for a cluster. */
  function Next(values: seq<nat>, c: nat): nat {
    if c < |values| then values[c] else EOC
  }

  /** The clusters that a walk from `c` visits, until it meets something that is no link. */
  ghost predicate Leads(values: seq<nat>, c: nat, s: seq<nat>) {
    && (if s == [] then !IsLink(c) else s[0] == c && !IsLink(Next(values, s[|s| - 1])))
    && (forall i | 0 <= i < |s| :: IsLink(s[i]))
    && (forall i | 0 <= i < |s| - 1 :: Next(values, s[i]) == s[i + 1])
  }

  ghost predicate Ends(values: seq<nat>, c: nat) {
    exists s :: Leads(values, c, s)
  }

  /** No walk goes in circles, wherever it starts. */
  ghost predicate AllEnd(values: seq<nat>) {
    forall c: nat :: Ends(values, c)
  }

  /** Clusters that only lead to each other. */
  ghost predicate Trap(values: seq<nat>, trap: set<nat>) {
    forall c | c in trap :: IsLink(c) && Next(values, c) in trap
  }

  /** A walk goes on for ever exactly when it starts in such a trap or runs into one; the clusters it visits form one. */
  lemma EndsUnlessTrapped(values: seq<nat>, c: nat)
    ensures Ends(values, c) <==> !exists trap: set<nat> :: c in trap && Trap(values, trap)
  {
    if Ends(values, c) {
      var s :| Leads(values, c, s);
      forall trap: set<nat> | c in trap ensures !Trap(values, trap) {
        if Trap(values, trap) { TrapNeverEnds(values, trap, c, s); }
      }
    } else {
      var endless := set x: nat | x < EOC && IsLink(x) && !Ends(values, x);
      if !IsLink(c) { assert Leads(values, c, []); }
      assert c in endless;
      forall x | x in endless ensures IsLink(x) && Next(values, x) in endless { EndlessGoesOn(values, x); }
      assert Trap(values, endless);
    }
  }

  lemma {:induction false} TrapNeverEnds(values: seq<nat>, trap: set<nat>, c: nat, s: seq<nat>)
    requires Trap(values, trap) && c in trap && Leads(values, c, s)
    ensures false
    decreases |s|
  {
    if |s| > 1 { TrapNeverEnds(values, trap, s[1], s[1..]); }
  }

  lemma EndlessGoesOn(values: seq<nat>, x: nat)
    requires IsLink(x) && !Ends(values, x)
    ensures IsLink(Next(values, x)) && !Ends(values, Next(values, x))
  {
    var y := Next(values, x);
    if Ends(values, y) {
      var s :| Leads(values, y, s);
      assert Leads(values, x, [x] + s);
    } else if !IsLink(y) {
      assert Leads(values, y, []);
    }
  }

  /** Walks end at every number from 0xFF8 on and at those below 2; 0xFF7, which names no cluster, is followed all the same. */
  lemma WhereWalksStop(values: seq<nat>, v: nat)
    ensures v < 2 || v >= 0xFF8 ==> Leads(values, v, [])
    ensures 2 <= v < 0xFF8 && |values| <= v ==> Leads(values, v, [v])
  {
  }

  /** A chain of the volume is such a walk. */
  lemma ChainLeads(values: seq<nat>, fat: seq<nat>, s: seq<nat>)
    requires IsChain(fat, s) && |fat| <= |values| && forall c | 0 <= c < |fat| :: values[c] == fat[c]
    ensures Leads(values, s[0], s)
  {
    forall i | 0 <= i < |s| - 1 ensures Next(values, s[i]) == s[i + 1] {
      assert fat[s[i]] == s[i + 1];
    }
  }

  /** In a file system every walk ends, provided that the entries behind the volume's own are no links. */
  lemma PartitionEnds(values: seq<nat>, fat: seq<nat>, a: Allocation, x: nat)
    requires Partition(fat, a) && |fat| <= |values| && forall c | 0 <= c < |fat| :: values[c] == fat[c]
    requires forall c | |fat| <= c < |values| :: !IsLink(values[c])
    ensures Ends(values, x)
  {
    if !IsLink(x) {
      assert Leads(values, x, []);
    } else if x >= |fat| || fat[x] == FREE {
      assert Leads(values, x, [x]);
    } else {
      var (h, i) := a.at[x];
      assert OnChain(a, x) && Owns(fat, a, h);
      TailFrom(fat, a.chains[h], i);
      ChainLeads(values, fat, a.chains[h][i..]);
    }
  }

  /** The place where a walk first meets cluster `c`. */
  lemma {:induction false} FirstVisit(s: seq<nat>, c: nat) returns (i: nat)
    requires c in s
    ensures i < |s| && s[i] == c && forall k | 0 <= k < i :: s[k] != c
  {
    if s[0] == c {
      i := 0;
    } else {
      assert s == [s[0]] + s[1..];
      i := FirstVisit(s[1..], c);
      i := i + 1;
    }
  }

  /** Cutting the table at one entry cuts the walks that meet it. */
  lemma CutWalk(values: seq<nat>, values': seq<nat>, c: nat, x: nat, s: seq<nat>)
    requires Leads(values, x, s) && |values'| == |values| && !IsLink(Next(values', c))
    requires forall k | 0 <= k < |values| && k != c :: values'[k] == values[k]
    ensures Ends(values', x)
  {
    if c in s {
      var i := FirstVisit(s, c);
      assert Leads(values', x, s[..i + 1]);
    } else {
      assert Leads(values', x, s);
    }
  }

  /** An entry that is set to something that is no link ends walks and starts none. */
  lemma StopKeepsEnds(values: seq<nat>, c: nat, v: nat)
    requires AllEnd(values) && c < |values| && !IsLink(v)
    ensures AllEnd(values[c := v])
  {
    var cut := values[c := v];
    forall x: nat ensures Ends(cut, x) {
      assert Ends(values, x);
      var s :| Leads(values, x, s);
      CutWalk(values, cut, c, x, s);
    }
  }

  /** A link to a cluster that ends a chain. */
  lemma LinkWalk(values: seq<nat>, values': seq<nat>, prev: nat, end: nat, x: nat, s: seq<nat>)
    requires Leads(values, x, s) && |values'| == |values| && IsLink(end) && prev != end && prev < |values|
    requires !IsLink(Next(values', end)) && values'[prev] == end
    requires forall k | 0 <= k < |values| && k != prev :: values'[k] == values[k]
    ensures Ends(values', x)
  {
    if prev in s {
      var i := FirstVisit(s, prev);
      var t := s[..i + 1] + [end];
      forall k | 0 <= k < |t| - 1 ensures Next(values', t[k]) == t[k + 1] {
        if k < i { assert t[k] == s[k] && t[k + 1] == s[k + 1]; }
      }
      assert Leads(values', x, t);
    } else {
      assert Leads(values', x, s);
    }
  }

  /** What growing a chain does to the table: `last` is linked to the new cluster, which then ends the chain. It is
      harmless even when `last` is that cluster, or lies outside the table. */
  ghost function Appended(values: seq<nat>, last: nat, c: nat): (r: seq<nat>)
    requires c < |values|
    ensures |r| == |values|
  {
    (if last < |values| then values[last := c] else values)[c := EOC]
  }

  lemma AppendKeepsEnds(values: seq<nat>, last: nat, c: nat)
    requires AllEnd(values) && c < |values| && IsLink(c)
    ensures AllEnd(Appended(values, last, c))
  {
    StopKeepsEnds(values, c, EOC);
    var stopped := values[c := EOC];
    if last < |values| && last != c {
      assert Appended(values, last, c) == stopped[last := c];
      var linked := stopped[last := c];
      forall x: nat ensures Ends(linked, x) {
        assert Ends(stopped, x);
        var s :| Leads(stopped, x, s);
        LinkWalk(stopped, linked, last, c, x, s);
      }
    } else {
      assert Appended(values, last, c) == stopped;
    }
  }

  /** Freeing a chain keeps every walk finite, whatever the table looks like. */
  lemma {:induction false} FreeKeepsEnds(b: seq<byte>, size: nat, cluster: nat)
    requires size <= |b| && FAT_BUFFER <= |b| && AllEnd(Entries(b, size))
    ensures AllEnd(Entries(Freed(b, size, cluster), size))
    decreases StepsLeft(b, size, cluster)
  {
    if IsLink(cluster) {
      FreeStepDecreases(b, size, cluster);
      PutRefinesUpdate(b, size, cluster, FREE);
      if cluster < Capacity(size) { StopKeepsEnds(Entries(b, size), cluster, FREE); }
      FreeKeepsEnds(Put(b, cluster, FREE), size, Get(b, size, cluster));
    }
  }

  lemma AppendedToEnd(values: seq<nat>, prev: nat, c: nat)
    requires prev < |values| && c < |values| && prev != c && values[c] == EOC
    ensures Appended(values, prev, c) == values[prev := c]
  {
  }

  /** A table with one entry set; numbers beyond it name none. */
  function Put1(values: seq<nat>, c: nat, v: nat): (r: seq<nat>)
    ensures |r| == |values|
  {
    if c < |values| then values[c := v] else values
  }

  lemma PutTwice(values: seq<nat>, prev: nat, c: nat)
    requires c < |values| && c < EOC
    ensures Put1(Put1(values, prev, c % 0x1000), c, EOC % 0x1000) == Appended(values, prev, c)
  {
  }
}
