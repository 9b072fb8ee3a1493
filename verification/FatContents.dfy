/** The bytes of all files (common/fat.c): the operations on chains leave them alone. */
module FatContents {
  import opened Machine
  import opened Arithmetic
  import opened FatCells
  import opened FatTables
  import opened FatChains
  import opened FatVolumes
  import opened FatTidy
  import FatFiles

  /** The chain's clusters begin with these bytes. */
  ghost predicate FileHolds(t: seq<nat>, data: seq<seq<byte>>, c: seq<nat>, b: seq<byte>, size: nat)
  {
    && c != [] && FatFiles.Holds(t, data, c, c[0], |b|, size)
    && FatFiles.Contents(t, data, c, c[0], |b|, size) == b
  }

  ghost predicate FilesHold(t: seq<nat>, data: seq<seq<byte>>, chains: seq<seq<nat>>, files: seq<seq<byte>>, size: nat)
  {
    && size > 0 && |data| == |t| && AllSized(data, size) && |files| == |chains|
    && forall i | 0 <= i < |chains| :: FileHolds(t, data, chains[i], files[i], size)
  }

  /** A file whose chain and clusters are as before holds what it did. */
  lemma UntouchedHolds(t: seq<nat>, data: seq<seq<byte>>, t2: seq<nat>, data2: seq<seq<byte>>, c: seq<nat>, b: seq<byte>, size: nat)
    requires size > 0 && FileHolds(t, data, c, b, size)
    requires IsChain(t, c) && IsChain(t2, c) && |t2| == |t| && |data2| == |data| && AllSized(data2, size)
    requires forall k | 0 <= k < |c| && c[k] < |data| :: data2[c[k]] == data[c[k]]
    ensures FileHolds(t2, data2, c, b, size)
  {
    forall k, o | 0 <= k < |c| && 0 <= o < size && k * size + o < |b|
      ensures FatFiles.SameByte(data, c, data2, c, k, o)
    {
    }
    FatFiles.SameContents(t, data, c, t2, data2, c, c[0], |b|, size);
  }

  lemma NothingHolds(t: seq<nat>, data: seq<seq<byte>>, c: seq<nat>, size: nat)
    requires c != [] && |data| == |t| <= FIRST_END && AllSized(data, size)
    ensures FileHolds(t, data, c, [], size)
  {
  }

  /** A new file has no bytes, and the others keep theirs. */
  lemma CreatedHolds(t: seq<nat>, data: seq<seq<byte>>, chains: seq<seq<nat>>, files: seq<seq<byte>>, size: nat, n: nat,
                     others: set<nat>)
    requires FilesHold(t, data, chains, files, size) && Tidy(t, chains, others) && 2 <= n < |t| && t[n] == 0
    ensures FilesHold(t[n := END_MARK], data, chains + [[n]], files + [[]], size)
  {
    hide FileHolds, IsChain, InSome;
    var t2, more := t[n := END_MARK], chains + [[n]];
    TidyCreated(t, chains, n, others);
    forall i | 0 <= i < |more|
      ensures FileHolds(t2, data, more[i], (files + [[]])[i], size)
    {
      if i < |chains| {
        assert more[i] == chains[i] && IsChain(t2, more[i]);
        UntouchedHolds(t, data, t2, data, chains[i], files[i], size);
      } else {
        NothingHolds(t2, data, [n], size);
      }
    }
  }

  lemma WipedSized(data: seq<seq<byte>>, gone: set<nat>, size: nat)
    requires AllSized(data, size)
    ensures AllSized(Wiped(data, gone, size), size)
    ensures forall k | 0 <= k < |data| && k !in gone :: Wiped(data, gone, size)[k] == data[k]
  {
  }

  lemma OwnAppended(t: seq<nat>, data: seq<seq<byte>>, c: seq<nat>, b: seq<byte>, size: nat, n: nat, wipe: bool)
    requires size > 0 && FileHolds(t, data, c, b, size) && IsChain(t, c) && 2 <= n < |t| && t[n] == 0
    ensures FileHolds(Appended(t, c[|c| - 1], n), if wipe then Wiped(data, {n}, size) else data, c + [n], b, size)
  {
    hide Appended, Wiped;
    var t2 := Appended(t, c[|c| - 1], n);
    var data2 := if wipe then Wiped(data, {n}, size) else data;
    WipedSized(data, {n}, size);
    if b == [] {
      NothingHolds(t2, data2, c + [n], size);
    } else {
      FatFiles.AppendKeepsContents(t, data, c, c[0], |b|, size, n, wipe);
    }
  }

  /** One more cluster for a file: all files keep their bytes. */
  lemma AppendedHolds(t: seq<nat>, data: seq<seq<byte>>, chains: seq<seq<nat>>, files: seq<seq<byte>>, size: nat, i: nat, n: nat,
                      wipe: bool, others: set<nat>)
    requires FilesHold(t, data, chains, files, size) && Tidy(t, chains, others) && i < |chains|
    requires 2 <= n < |t| && t[n] == 0
    ensures chains[i] != [] && chains[i][|chains[i]| - 1] < |t|
    ensures var t2 := Appended(t, chains[i][|chains[i]| - 1], n);
            var data2 := if wipe then Wiped(data, {n}, size) else data;
            FilesHold(t2, data2, chains[i := chains[i] + [n]], files, size)
  {
    hide FileHolds, IsChain, InSome, Appended, AllSized;
    var c := chains[i];
    TidyAppended(t, chains, i, n, others);
    var t2 := Appended(t, c[|c| - 1], n);
    var data2, more := if wipe then Wiped(data, {n}, size) else data, chains[i := c + [n]];
    WipedSized(data, {n}, size);
    forall j | 0 <= j < |more|
      ensures FileHolds(t2, data2, more[j], files[j], size)
    {
      if j == i {
        OwnAppended(t, data, c, files[i], size, n, wipe);
      } else {
        FreeIsInNoChain(t, chains[j], n);
        assert more[j] == chains[j] && IsChain(t2, more[j]);
        UntouchedHolds(t, data, t2, data2, chains[j], files[j], size);
      }
    }
  }

  /** A file goes: the others keep their bytes. */
  lemma FreedHolds(t: seq<nat>, data: seq<seq<byte>>, chains: seq<seq<nat>>, files: seq<seq<byte>>, size: nat, i: nat,
                   others: set<nat>)
    requires FilesHold(t, data, chains, files, size) && Tidy(t, chains, others) && i < |chains|
    ensures chains[i] != []
    ensures FilesHold(Freed(t, chains[i][0]), Wiped(data, Visited(t, chains[i][0]), size),
                      chains[..i] + chains[i + 1..], files[..i] + files[i + 1..], size)
  {
    hide FileHolds, IsChain, InSome, Freed, Visited, AllSized;
    var c := chains[i];
    TidyFreed(t, chains, i, others);
    var t2, data2, rest := Freed(t, c[0]), Wiped(data, Visited(t, c[0]), size), chains[..i] + chains[i + 1..];
    VisitedChain(t, c);
    WipedSized(data, Visited(t, c[0]), size);
    forall j | 0 <= j < |rest|
      ensures FileHolds(t2, data2, rest[j], (files[..i] + files[i + 1..])[j], size)
    {
      var m := if j < i then j else j + 1;
      assert rest[j] == chains[m] && (files[..i] + files[i + 1..])[j] == files[m] && IsChain(t2, rest[j]);
      assert Apart(chains[m], c);
      assert forall k | 0 <= k < |chains[m]| :: chains[m][k] !in Elements(c);
      UntouchedHolds(t, data, t2, data2, chains[m], files[m], size);
    }
  }

  lemma NotCut(c: seq<nat>, n: nat, d: seq<nat>)
    requires Apart(d, c) && 1 <= n <= |c|
    ensures forall k | 0 <= k < |d| :: d[k] !in c[n..] && d[k] != c[n - 1]
  {
  }

  lemma ClustersPositive(bytes: nat, size: nat)
    requires size > 0 && bytes > 0
    ensures ClustersFor(bytes, size) >= 1
  {
  }

  function UpTo(b: seq<byte>, n: nat): (r: seq<byte>)
  {
    if |b| <= n then b else b[..n]
  }

  /** Fewer bytes of the same file. */
  lemma ContentsUpTo(t: seq<nat>, data: seq<seq<byte>>, c: seq<nat>, first: nat, bytes: nat, p: nat, size: nat)
    requires FatFiles.Holds(t, data, c, first, bytes, size) && p <= bytes
    ensures FatFiles.Holds(t, data, c, first, p, size)
    ensures FatFiles.Contents(t, data, c, first, p, size) == FatFiles.Contents(t, data, c, first, bytes, size)[..p]
  {
    if p > 0 {
      FatFiles.ConcatLength(data, c, size);
      var all := FatFiles.Concat(data, c);
      assert all[..bytes][..p] == all[..p];
    }
  }

  lemma WholeClusters(bytes: nat, size: nat, m: nat)
    requires size > 0 && ClustersFor(bytes, size) <= m
    ensures bytes <= m * size
  {
    var q := bytes / size;
    assert bytes == q * size + bytes % size;
    if bytes % size == 0 {
      Multiple(m - q, size);
      assert (m - q) * size == m * size - q * size;
    } else {
      Multiple(m - q - 1, size);
      assert (m - q - 1) * size == m * size - q * size - size;
    }
  }

  lemma OwnTruncated(t: seq<nat>, data: seq<seq<byte>>, c: seq<nat>, b: seq<byte>, size: nat, bytes: nat)
    requires size > 0 && bytes > 0 && FileHolds(t, data, c, b, size) && IsChain(t, c) && ClustersFor(bytes, size) <= |c|
    ensures var n := ClustersFor(bytes, size);
            1 <= n && FileHolds(Truncated(t, c, n), CutData(data, t, c[0], bytes, size), c[..n], UpTo(b, bytes), size)
  {
    hide IsChain, Truncated, CutData, ClustersFor, FatFiles.Contents;
    var n := ClustersFor(bytes, size);
    ClustersPositive(bytes, size);
    WholeClusters(bytes, size, |c|);
    FatFiles.CutKeepsContents(t, data, c, c[0], bytes, size);
    var t2, data2 := Truncated(t, c, n), CutData(data, t, c[0], bytes, size);
    var p := |UpTo(b, bytes)|;
    ContentsUpTo(t, data, c, c[0], bytes, p, size);
    ContentsUpTo(t2, data2, c[..n], c[0], bytes, p, size);
    ContentsUpTo(t, data, c, c[0], |b|, p, size);
  }

  /** A file is cut: it keeps its bytes up to the cut, and the others keep all. */
  lemma TruncatedHolds(t: seq<nat>, data: seq<seq<byte>>, chains: seq<seq<nat>>, files: seq<seq<byte>>, size: nat, i: nat,
                       bytes: nat, others: set<nat>)
    requires FilesHold(t, data, chains, files, size) && Tidy(t, chains, others) && i < |chains|
    requires bytes > 0 && ClustersFor(bytes, size) <= |chains[i]|
    ensures var c, n := chains[i], ClustersFor(bytes, size);
            && IsChain(t, c) && 1 <= n
            && FilesHold(Truncated(t, c, n), CutData(data, t, c[0], bytes, size), chains[i := c[..n]],
                         files[i := UpTo(files[i], bytes)], size)
  {
    hide FileHolds, IsChain, InSome, Truncated, CutData, AllSized, ClustersFor;
    var c, n := chains[i], ClustersFor(bytes, size);
    ClustersPositive(bytes, size);
    TidyTruncated(t, chains, i, n, others);
    var t2, data2, less := Truncated(t, c, n), CutData(data, t, c[0], bytes, size), chains[i := c[..n]];
    FatFiles.CutDataIs(t, data, c, bytes, size, n);
    forall j | 0 <= j < |less|
      ensures FileHolds(t2, data2, less[j], files[i := UpTo(files[i], bytes)][j], size)
    {
      if j == i {
        OwnTruncated(t, data, c, files[i], size, bytes);
      } else {
        assert less[j] == chains[j] && IsChain(t2, less[j]);
        assert Apart(chains[j], c);
        NotCut(c, n, chains[j]);
        UntouchedHolds(t, data, t2, data2, chains[j], files[j], size);
      }
    }
  }
}
