/** Cluster chains as the entries of a table spell them out, and what freeing and linking do to them. */
module FatChains {
  import opened FatCells
  import opened FatTables

  /** The entry is a link or the number of a cluster, not an end mark. */
  predicate IsLink(v: nat)
  {
    2 <= v < FIRST_END
  }

  /** Different clusters of the table, each linked to the next, the last one marked as the end. */
  ghost predicate IsChain(t: seq<nat>, c: seq<nat>)
  {
    && c != []
    && (forall k | 0 <= k < |c| :: 2 <= c[k] < |t|)
    && (forall j, k | 0 <= j < k < |c| :: c[j] != c[k])
    && (forall k | 0 <= k < |c| - 1 :: t[c[k]] == c[k + 1])
    && t[c[|c| - 1]] >= FIRST_END
  }

  /** Whatever is stored elsewhere, a chain stays. */
  lemma ChainKept(t: seq<nat>, t2: seq<nat>, c: seq<nat>)
    requires IsChain(t, c) && |t2| == |t| && forall k | 0 <= k < |c| :: t2[c[k]] == t[c[k]]
    ensures IsChain(t2, c)
  {
  }

  lemma ChainTail(t: seq<nat>, c: seq<nat>)
    requires IsChain(t, c) && |c| > 1
    ensures IsChain(t, c[1..]) && c[0] !in c[1..] && t[c[0]] == c[1]
  {
  }

  // ----- Freeing

  ghost function Used(t: seq<nat>): nat
  {
    |t| - Zeros(t)
  }

  lemma ClearUses(t: seq<nat>, k: nat)
    requires k < |t|
    ensures Used(t[k := 0]) == Used(t) - if t[k] == 0 then 0 else 1
  {
    ZerosWith(t, k, 0);
  }

  /** The table after delete_clusters: links are followed and cleared until there is no link to follow. */
  ghost function Freed(t: seq<nat>, start: nat): (r: seq<nat>)
    ensures |r| == |t|
    decreases Used(t)
  {
    if !IsLink(start) || start >= |t| || t[start] == 0 then t
    else
      ClearUses(t, start);
      Freed(t[start := 0], t[start])
  }

  /** The clusters that delete_clusters comes by. */
  ghost function Visited(t: seq<nat>, start: nat): set<nat>
    decreases Used(t)
  {
    if !IsLink(start) || start >= |t| then {}
    else if t[start] == 0 then {start}
    else
      ClearUses(t, start);
      {start} + Visited(t[start := 0], t[start])
  }

  /** On every table, even with loops and crossings: what was visited is free afterwards, and nothing else
      has changed. */
  lemma {:induction false} FreedIsVisited(t: seq<nat>, start: nat)
    ensures forall k | k in Visited(t, start) :: 2 <= k < |t|
    ensures forall k | 0 <= k < |t| :: Freed(t, start)[k] == if k in Visited(t, start) then 0 else t[k]
    decreases Used(t)
  {
    if IsLink(start) && start < |t| && t[start] != 0 {
      ClearUses(t, start);
      FreedIsVisited(t[start := 0], t[start]);
    }
  }

  ghost function Elements(c: seq<nat>): set<nat>
  {
    set k | 0 <= k < |c| :: c[k]
  }

  /** From the start of a chain, exactly the chain is visited. */
  lemma {:induction false} VisitedChain(t: seq<nat>, c: seq<nat>)
    requires IsChain(t, c) && |t| <= FIRST_END
    ensures Visited(t, c[0]) == Elements(c)
    decreases |c|
  {
    ClearUses(t, c[0]);
    var t2 := t[c[0] := 0];
    if |c| == 1 {
      assert Visited(t2, t[c[0]]) == {};
    } else {
      ChainTail(t, c);
      ChainKept(t, t2, c[1..]);
      VisitedChain(t2, c[1..]);
      assert Elements(c) == {c[0]} + Elements(c[1..]) by {
        assert c == [c[0]] + c[1..];
      }
    }
  }

  /** delete_clusters frees exactly its chain. */
  lemma FreedChain(t: seq<nat>, c: seq<nat>)
    requires IsChain(t, c) && |t| <= FIRST_END
    ensures forall k | 0 <= k < |t| :: Freed(t, c[0])[k] == if k in c then 0 else t[k]
  {
    VisitedChain(t, c);
    FreedIsVisited(t, c[0]);
    assert forall k :: k in Elements(c) <==> k in c;
  }

  /** Chains without a common cluster stay. */
  lemma FreedKeepsOthers(t: seq<nat>, c: seq<nat>, other: seq<nat>)
    requires IsChain(t, c) && IsChain(t, other) && |t| <= FIRST_END
    requires forall k | 0 <= k < |other| :: other[k] !in c
    ensures IsChain(Freed(t, c[0]), other)
  {
    FreedChain(t, c);
    ChainKept(t, Freed(t, c[0]), other);
  }

  // ----- Appending

  /** The table after a free cluster n has been linked behind cluster `last`. */
  ghost function Appended(t: seq<nat>, last: nat, n: nat): (r: seq<nat>)
    requires last < |t| && n < |t|
    ensures |r| == |t|
  {
    t[n := END_MARK][last := n]
  }

  lemma FreeIsInNoChain(t: seq<nat>, c: seq<nat>, n: nat)
    requires IsChain(t, c) && n < |t| && t[n] == 0
    ensures n !in c
  {
    forall k | 0 <= k < |c|
      ensures t[c[k]] != 0
    {
      if k < |c| - 1 {
        assert t[c[k]] == c[k + 1];
      }
    }
  }

  /** Appending to the last cluster of a chain adds one cluster, which was free, and keeps all other chains. */
  lemma AppendedChain(t: seq<nat>, c: seq<nat>, n: nat)
    requires IsChain(t, c) && 2 <= n < |t| && t[n] == 0
    ensures IsChain(Appended(t, c[|c| - 1], n), c + [n])
    ensures forall k | 0 <= k < |t| && k != n && k != c[|c| - 1] :: Appended(t, c[|c| - 1], n)[k] == t[k]
  {
    FreeIsInNoChain(t, c, n);
    var last := c[|c| - 1];
    var r, d := Appended(t, last, n), c + [n];
    assert last != n;
    forall k | 0 <= k < |d| - 1
      ensures r[d[k]] == d[k + 1]
    {
      if k < |c| - 1 {
        assert c[k] != last && c[k] != n;
      }
    }
  }

  lemma AppendedKeepsOthers(t: seq<nat>, c: seq<nat>, n: nat, other: seq<nat>)
    requires IsChain(t, c) && IsChain(t, other) && 2 <= n < |t| && t[n] == 0
    requires forall k | 0 <= k < |other| :: other[k] !in c
    ensures IsChain(Appended(t, c[|c| - 1], n), other) && n !in other
  {
    FreeIsInNoChain(t, other, n);
    assert c[|c| - 1] in c;
    ChainKept(t, Appended(t, c[|c| - 1], n), other);
  }

  /** What append_cluster checks before it links. */
  predicate Refuses(v: nat)
  {
    v > 2 && v < FIRST_END
  }

  /** The check keeps a chain whole, except that a link to cluster 2 gets past it: then, and only then, an
      append in the middle of a chain cuts the chain off behind the given cluster. */
  lemma AppendInTheMiddle(t: seq<nat>, c: seq<nat>, k: nat, n: nat)
    requires IsChain(t, c) && |t| <= FIRST_END && k < |c| - 1 && 2 <= n < |t| && t[n] == 0
    ensures !Refuses(t[c[k]]) <==> c[k + 1] == 2
    ensures IsChain(Appended(t, c[k], n), c[..k + 1] + [n]) && !IsChain(Appended(t, c[k], n), c)
  {
    FreeIsInNoChain(t, c, n);
    var r, d := Appended(t, c[k], n), c[..k + 1] + [n];
    forall j | 0 <= j < |d| - 1
      ensures r[d[j]] == d[j + 1]
    {
      if j < k {
        assert c[j] != c[k] && c[j] != n;
      }
    }
    assert r[c[k]] == n != c[k + 1];
  }

  /** What both callers of append_cluster have found the entry of the given cluster to be. */
  predicate NoLink(v: nat)
  {
    v < 2 || v >= FIRST_END
  }

  /** Behind such an entry, and only there, a chain has its end: the callers are never refused, and no chain is cut. */
  lemma CallersAppendAtEnd(t: seq<nat>, c: seq<nat>, k: nat)
    requires IsChain(t, c) && |t| <= FIRST_END && k < |c|
    ensures NoLink(t[c[k]]) <==> k == |c| - 1
    ensures NoLink(t[c[k]]) ==> !Refuses(t[c[k]])
  {
    assert k < |c| - 1 ==> t[c[k]] == c[k + 1];
  }

  // ----- Truncating

  /** The chain ends with its n-th cluster and the others are free. */
  ghost function Truncated(t: seq<nat>, c: seq<nat>, n: nat): (r: seq<nat>)
    requires IsChain(t, c) && 1 <= n <= |c|
    ensures |r| == |t|
  {
    seq(|t|, k requires 0 <= k < |t| => if k == c[n - 1] then END_MARK else if k in c[n..] then 0 else t[k])
  }

  lemma TruncatedChain(t: seq<nat>, c: seq<nat>, n: nat)
    requires IsChain(t, c) && 1 <= n <= |c|
    ensures IsChain(Truncated(t, c, n), c[..n])
    ensures forall k | n <= k < |c| :: Truncated(t, c, n)[c[k]] == 0
  {
    var r := Truncated(t, c, n);
    forall k | 0 <= k < n - 1
      ensures r[c[k]] == t[c[k]]
    {
      assert c[k] !in c[n..];
    }
    assert c[n - 1] !in c[n..];
    forall k | n <= k < |c|
      ensures r[c[k]] == 0
    {
      assert c[n..][k - n] == c[k];
      assert c[k] != c[n - 1];
    }
  }

  lemma TruncatedKeepsOthers(t: seq<nat>, c: seq<nat>, n: nat, other: seq<nat>)
    requires IsChain(t, c) && 1 <= n <= |c| && IsChain(t, other)
    requires forall k | 0 <= k < |other| :: other[k] !in c
    ensures IsChain(Truncated(t, c, n), other)
  {
    forall k | 0 <= k < |other|
      ensures Truncated(t, c, n)[other[k]] == t[other[k]]
    {
      assert c[n - 1] in c;
      assert forall x | x in c[n..] :: x in c;
    }
    ChainKept(t, Truncated(t, c, n), other);
  }

  lemma ChainSuffix(t: seq<nat>, c: seq<nat>, n: nat)
    requires IsChain(t, c) && n < |c|
    ensures IsChain(t, c[n..])
  {
  }

  /** Ending the chain and deleting what was linked behind it is truncating. */
  lemma EndThenFree(t: seq<nat>, c: seq<nat>, n: nat)
    requires IsChain(t, c) && |t| <= FIRST_END && 1 <= n <= |c|
    ensures var ended := t[c[n - 1] := END_MARK];
            Truncated(t, c, n) == if n < |c| then Freed(ended, c[n]) else ended
  {
    var ended := t[c[n - 1] := END_MARK];
    if n < |c| {
      ChainSuffix(t, c, n);
      ChainKept(t, ended, c[n..]);
      FreedChain(ended, c[n..]);
      assert c[n - 1] !in c[n..];
    } else {
      assert c[n..] == [];
    }
  }
}
