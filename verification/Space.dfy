/** How many clusters are free, and how many a file takes. */
module Space {
  import opened Chains
  import opened Contents

  /** The number of free clusters; the entries 0 and 1 belong to none. */
  function FreeCount(fat: seq<nat>): nat {
    if |fat| <= 2 then 0
    else FreeCount(fat[..|fat| - 1]) + if fat[|fat| - 1] == FREE then 1 else 0
  }

  lemma {:induction false} FreeCountUpdate(fat: seq<nat>, c: nat, v: nat)
    requires 2 <= c < |fat|
    ensures FreeCount(fat[c := v]) + (if fat[c] == FREE then 1 else 0) == FreeCount(fat) + if v == FREE then 1 else 0
  {
    var n := |fat| - 1;
    if c == n {
      assert fat[c := v][..n] == fat[..n];
    } else {
      FreeCountUpdate(fat[..n], c, v);
      assert fat[c := v][..n] == fat[..n][c := v];
    }
  }

  /** It is the size of the set of free clusters. */
  lemma {:induction false} FreeCountIsSize(fat: seq<nat>)
    ensures FreeCount(fat) == |FreeClusters(fat)|
  {
    if |fat| <= 2 {
      assert FreeClusters(fat) == {};
    } else {
      FreeCountIsSize(fat[..|fat| - 1]);
      LastCluster(fat);
    }
  }

  function FreeClusters(fat: seq<nat>): set<nat> {
    set c: nat | 2 <= c < |fat| && fat[c] == 0
  }

  lemma LastCluster(fat: seq<nat>)
    requires |fat| > 2
    ensures var n := |fat| - 1; var fewer := FreeClusters(fat[..n]);
            n !in fewer && FreeClusters(fat) == if fat[n] == 0 then fewer + {n} else fewer
  {
  }

  lemma {:induction false} NoFreeCluster(fat: seq<nat>)
    ensures FreeCount(fat) == 0 <==> forall c | 2 <= c < |fat| :: fat[c] != FREE
  {
    if |fat| > 2 {
      var rest := fat[..|fat| - 1];
      NoFreeCluster(rest);
      assert forall c | 2 <= c < |rest| :: rest[c] == fat[c];
    }
  }

  /** The rounds of the allocation loop for a file: a cluster for each chunk. */
  function ClustersNeeded(size: nat, clusterSize: nat): nat {
    if size == 0 || clusterSize == 0 then 0 else 1 + ClustersNeeded(if size > clusterSize then size - clusterSize else 0, clusterSize)
  }

  /** One round takes one cluster and a chunk. */
  lemma NeededNext(size: nat, clusterSize: nat)
    requires clusterSize > 0
    ensures size == 0 ==> ClustersNeeded(size, clusterSize) == 0
    ensures size > 0 ==>
              ClustersNeeded(size, clusterSize) == 1 + ClustersNeeded(if size > clusterSize then size - clusterSize else 0, clusterSize)
  {
  }

  lemma {:induction false} NeededIsEnough(size: nat, clusterSize: nat)
    requires clusterSize > 0
    ensures size <= ClustersNeeded(size, clusterSize) * clusterSize < size + clusterSize
    decreases size
  {
    if size > clusterSize {
      NeededIsEnough(size - clusterSize, clusterSize);
      var n := ClustersNeeded(size - clusterSize, clusterSize);
      assert (n + 1) * clusterSize == n * clusterSize + clusterSize;
    }
  }

  /** That is the size divided by the cluster size, rounded up. */
  lemma NeededIsCeiling(size: nat, clusterSize: nat)
    requires clusterSize > 0
    ensures ClustersNeeded(size, clusterSize) == (size + clusterSize - 1) / clusterSize
  {
    NeededIsEnough(size, clusterSize);
    CeilingIff(ClustersNeeded(size, clusterSize), size, clusterSize);
  }
}
