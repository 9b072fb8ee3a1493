/** Files that share no cluster (common/fat.c): what the operations on chains make of all of them at once. */
module FatTidy {
  import opened FatCells
  import opened FatTables
  import opened FatChains
  import opened FatVolumes

  ghost predicate InSome(chains: seq<seq<nat>>, k: nat)
  {
    exists i :: 0 <= i < |chains| && k in chains[i]
  }

  ghost predicate Apart(c: seq<nat>, d: seq<nat>)
  {
    forall k | 0 <= k < |c| :: c[k] !in d
  }

  /** The chains share no cluster, and exactly their clusters are in use, but for some that belong to no file: those
      marked as bad, or in chains that no file knows of. */
  ghost predicate Tidy(t: seq<nat>, chains: seq<seq<nat>>, others: set<nat>)
  {
    && |t| <= FIRST_END
    && (forall i | 0 <= i < |chains| :: IsChain(t, chains[i]))
    && (forall i, j | 0 <= i < |chains| && 0 <= j < |chains| && i != j :: Apart(chains[i], chains[j]))
    && (forall k | 2 <= k < |t| :: t[k] != 0 <==> InSome(chains, k) || k in others)
    && (forall k | k in others :: 2 <= k < |t| && !InSome(chains, k))
  }

  /** What the table says about the others. */
  ghost predicate OthersKept(t: seq<nat>, t2: seq<nat>, others: set<nat>)
  {
    forall k | k in others :: k < |t| && k < |t2| && t2[k] == t[k]
  }

  lemma InOneOf(chains: seq<seq<nat>>, i: nat, k: nat)
    requires i < |chains| && k in chains[i]
    ensures InSome(chains, k)
  {
  }

  lemma ApartFrom(chains: seq<seq<nat>>, t: seq<nat>, i: nat, j: nat, k: nat, others: set<nat>)
    requires Tidy(t, chains, others) && i < |chains| && j < |chains| && i != j && k in chains[i]
    ensures k !in chains[j]
  {
    hide IsChain, InSome;
    assert Apart(chains[i], chains[j]);
  }

  lemma ChainFacts(t: seq<nat>, c: seq<nat>)
    requires IsChain(t, c)
    ensures c != [] && forall k | 0 <= k < |c| :: 2 <= c[k] < |t|
  {
  }

  lemma AppendedAt(t: seq<nat>, last: nat, n: nat)
    requires last < |t| && 2 <= n < |t|
    ensures forall k | 0 <= k < |t| :: Appended(t, last, n)[k] == if k == last then n else if k == n then END_MARK else t[k]
  {
  }

  lemma SomeAppended(chains: seq<seq<nat>>, i: nat, n: nat, k: nat)
    requires i < |chains|
    ensures InSome(chains[i := chains[i] + [n]], k) <==> InSome(chains, k) || k == n
  {
    var more := chains[i := chains[i] + [n]];
    if InSome(chains, k) {
      var j :| 0 <= j < |chains| && k in chains[j];
      assert k in more[j];
    }
    assert n in more[i];
    if InSome(more, k) {
      var j :| 0 <= j < |more| && k in more[j];
      assert k == n || k in chains[j];
    }
  }

  /** append_cluster at the end of a file's chain. */
  lemma TidyAppended(t: seq<nat>, chains: seq<seq<nat>>, i: nat, n: nat, others: set<nat>)
    requires Tidy(t, chains, others) && i < |chains| && 2 <= n < |t| && t[n] == 0
    ensures chains[i] != [] && chains[i][|chains[i]| - 1] < |t|
    ensures var t2 := Appended(t, chains[i][|chains[i]| - 1], n);
            Tidy(t2, chains[i := chains[i] + [n]], others) && OthersKept(t, t2, others)
  {
    hide IsChain, Appended;
    var c := chains[i];
    ChainFacts(t, c);
    var last := c[|c| - 1];
    var t2, more := Appended(t, last, n), chains[i := c + [n]];
    AppendedChain(t, c, n);
    forall j | 0 <= j < |more|
      ensures IsChain(t2, more[j])
    {
      if j != i {
        assert Apart(chains[j], c);
        AppendedKeepsOthers(t, c, n, chains[j]);
      }
    }
    forall j, k | 0 <= j < |more| && 0 <= k < |more| && j != k
      ensures Apart(more[j], more[k])
    {
      FreeIsInNoChain(t, chains[j], n);
      FreeIsInNoChain(t, chains[k], n);
      assert Apart(chains[j], chains[k]);
    }
    AppendedAt(t, last, n);
    forall k | 2 <= k < |t|
      ensures t2[k] != 0 <==> InSome(more, k) || k in others
    {
      SomeAppended(chains, i, n, k);
      if k == last {
        InOneOf(chains, i, k);
      }
    }
  }

  lemma OneCluster(t: seq<nat>, n: nat)
    requires 2 <= n < |t| && t[n] == END_MARK
    ensures IsChain(t, [n])
  {
  }

  lemma SomeCreated(chains: seq<seq<nat>>, n: nat, k: nat)
    ensures InSome(chains + [[n]], k) <==> InSome(chains, k) || k == n
  {
    var more := chains + [[n]];
    if InSome(chains, k) {
      var j :| 0 <= j < |chains| && k in chains[j];
      assert k in more[j];
    }
    assert n in more[|chains|];
    if InSome(more, k) {
      var j :| 0 <= j < |more| && k in more[j];
      assert j == |chains| ==> k == n;
      assert j < |chains| ==> k in chains[j];
    }
  }

  /** A free cluster becomes the first of a new file. */
  lemma TidyCreated(t: seq<nat>, chains: seq<seq<nat>>, n: nat, others: set<nat>)
    requires Tidy(t, chains, others) && 2 <= n < |t| && t[n] == 0
    ensures Tidy(t[n := END_MARK], chains + [[n]], others) && OthersKept(t, t[n := END_MARK], others)
  {
    hide IsChain;
    var t2, more := t[n := END_MARK], chains + [[n]];
    forall j | 0 <= j < |more|
      ensures IsChain(t2, more[j])
    {
      if j < |chains| {
        FreeIsInNoChain(t, chains[j], n);
        ChainFacts(t, chains[j]);
        ChainKept(t, t2, chains[j]);
      } else {
        OneCluster(t2, n);
      }
    }
    forall j, k | 0 <= j < |more| && 0 <= k < |more| && j != k
      ensures Apart(more[j], more[k])
    {
      if j < |chains| {
        FreeIsInNoChain(t, chains[j], n);
      }
      if k < |chains| {
        FreeIsInNoChain(t, chains[k], n);
      }
      assert j < |chains| && k < |chains| ==> Apart(chains[j], chains[k]);
    }
    forall k | 2 <= k < |t|
      ensures InSome(more, k) <==> InSome(chains, k) || k == n
    {
      SomeCreated(chains, n, k);
    }
  }

  lemma SomeRemoved(t: seq<nat>, chains: seq<seq<nat>>, i: nat, k: nat, others: set<nat>)
    requires Tidy(t, chains, others) && i < |chains|
    ensures InSome(chains[..i] + chains[i + 1..], k) <==> InSome(chains, k) && k !in chains[i]
  {
    hide Tidy, IsChain;
    var rest := chains[..i] + chains[i + 1..];
    if InSome(rest, k) {
      var j :| 0 <= j < |rest| && k in rest[j];
      var m := if j < i then j else j + 1;
      assert rest[j] == chains[m];
      ApartFrom(chains, t, m, i, k, others);
    }
    if InSome(chains, k) && k !in chains[i] {
      var m :| 0 <= m < |chains| && k in chains[m];
      var j := if m < i then m else m - 1;
      assert rest[j] == chains[m];
    }
  }

  /** delete_clusters of a file's chain. */
  lemma TidyFreed(t: seq<nat>, chains: seq<seq<nat>>, i: nat, others: set<nat>)
    requires Tidy(t, chains, others) && i < |chains|
    ensures chains[i] != []
    ensures var t2 := Freed(t, chains[i][0]);
            Tidy(t2, chains[..i] + chains[i + 1..], others) && OthersKept(t, t2, others)
  {
    hide IsChain, Freed;
    var c := chains[i];
    ChainFacts(t, c);
    var t2, rest := Freed(t, c[0]), chains[..i] + chains[i + 1..];
    FreedChain(t, c);
    forall j | 0 <= j < |rest|
      ensures IsChain(t2, rest[j])
    {
      var m := if j < i then j else j + 1;
      assert rest[j] == chains[m] && Apart(chains[m], c);
      FreedKeepsOthers(t, c, chains[m]);
    }
    forall j, k | 0 <= j < |rest| && 0 <= k < |rest| && j != k
      ensures Apart(rest[j], rest[k])
    {
      var m, n := if j < i then j else j + 1, if k < i then k else k + 1;
      assert rest[j] == chains[m] && rest[k] == chains[n] && Apart(chains[m], chains[n]);
    }
    forall k | 2 <= k < |t|
      ensures t2[k] != 0 <==> InSome(rest, k) || k in others
    {
      SomeRemoved(t, chains, i, k, others);
    }
  }

  lemma ChainOf(t: seq<nat>, chains: seq<seq<nat>>, i: nat, others: set<nat>)
    requires Tidy(t, chains, others) && i < |chains|
    ensures IsChain(t, chains[i])
  {
  }

  lemma TwiceInChain(t: seq<nat>, c: seq<nat>, n: nat, k: nat)
    requires IsChain(t, c) && n <= |c| && k in c[..n]
    ensures k !in c[n..]
  {
  }

  lemma SomeShortened(t: seq<nat>, chains: seq<seq<nat>>, i: nat, n: nat, k: nat, others: set<nat>)
    requires Tidy(t, chains, others) && i < |chains| && 1 <= n <= |chains[i]|
    ensures InSome(chains[i := chains[i][..n]], k) <==> InSome(chains, k) && k !in chains[i][n..]
  {
    hide Tidy;
    var c := chains[i];
    var less := chains[i := c[..n]];
    assert c == c[..n] + c[n..];
    assert IsChain(t, c) by {
      ChainOf(t, chains, i, others);
    }
    if InSome(less, k) {
      var j :| 0 <= j < |less| && k in less[j];
      if j == i {
        assert k in c[..n];
        TwiceInChain(t, c, n, k);
      } else {
        assert k in chains[j];
        ApartFrom(chains, t, j, i, k, others);
      }
    }
    if InSome(chains, k) && k !in c[n..] {
      var j :| 0 <= j < |chains| && k in chains[j];
      assert k in less[j];
    }
  }

  /** delete_extra_clusters, when the chain is long enough. */
  lemma TidyTruncated(t: seq<nat>, chains: seq<seq<nat>>, i: nat, n: nat, others: set<nat>)
    requires Tidy(t, chains, others) && i < |chains| && 1 <= n <= |chains[i]|
    ensures var t2 := Truncated(t, chains[i], n);
            Tidy(t2, chains[i := chains[i][..n]], others) && OthersKept(t, t2, others)
  {
    hide IsChain;
    var c := chains[i];
    var t2, less := Truncated(t, c, n), chains[i := c[..n]];
    TruncatedChain(t, c, n);
    forall j | 0 <= j < |less|
      ensures IsChain(t2, less[j])
    {
      if j != i {
        assert Apart(chains[j], c);
        TruncatedKeepsOthers(t, c, n, chains[j]);
      }
    }
    forall j, k | 0 <= j < |less| && 0 <= k < |less| && j != k
      ensures Apart(less[j], less[k])
    {
      assert Apart(chains[j], chains[k]);
      assert forall x | x in c[..n] :: x in c;
    }
    forall k | 2 <= k < |t|
      ensures t2[k] != 0 <==> InSome(less, k) || k in others
    {
      SomeShortened(t, chains, i, n, k, others);
      if k == c[n - 1] {
        assert c[..n][n - 1] == k;
        InOneOf(less, i, k);
      }
    }
  }
}
