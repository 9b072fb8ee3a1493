/** Runs of the operations that change chains (common/fat.c): the files of a volume never come to share a cluster, no
    cluster gets lost, and the files keep their bytes.
 */
module FatRuns {
  import opened Machine
  import opened FatCells
  import opened FatTables
  import opened FatChains
  import opened FatBuffers
  import opened FatVolumes
  import opened FatTidy
  import opened FatContents

  datatype Op = Create | Append(file: nat, fast: bool) | Delete(file: nat) | Truncate(file: nat, bytes: nat)

  /** The files are known by their first clusters. */
  ghost predicate Heads(firsts: seq<nat>, chains: seq<seq<nat>>)
  {
    |firsts| == |chains| && forall i | 0 <= i < |chains| :: chains[i] != [] && firsts[i] == chains[i][0]
  }

  /** What became of an operation: nothing, or a cluster was taken, or the file was freed or cut. */
  datatype Result = Nothing | Taken(cluster: nat) | Done

  ghost predicate TakesFree(t: seq<nat>, r: Result)
  {
    r.Taken? && 2 <= r.cluster < |t| && t[r.cluster] == 0
  }

  /** When which result comes: a cluster is taken exactly if one is free, and it is a free one; a file that there is
      goes; and it is cut if its chain is long enough for the size. */
  ghost predicate Outcome(t: seq<nat>, size: nat, chains: seq<seq<nat>>, op: Op, r: Result)
    requires size > 0
  {
    match op
    case Create => if HasFree(t, 2) then TakesFree(t, r) else r == Nothing
    case Append(i, fast) => if i < |chains| && HasFree(t, 2) then TakesFree(t, r) else r == Nothing
    case Delete(i) => r == if i < |chains| then Done else Nothing
    case Truncate(i, bytes) =>
      r == if i < |chains| && bytes > 0 && ClustersFor(bytes, size) <= |chains[i]| then Done else Nothing
  }

  /** The chains after an operation with this result. */
  function ChainsAfter(size: nat, chains: seq<seq<nat>>, op: Op, r: Result): seq<seq<nat>>
    requires size > 0
  {
    if r.Nothing? then chains
    else
      match op
      case Create => if r.Taken? then chains + [[r.cluster]] else chains
      case Append(i, fast) => if r.Taken? && i < |chains| then chains[i := chains[i] + [r.cluster]] else chains
      case Delete(i) => if i < |chains| then chains[..i] + chains[i + 1..] else chains
      case Truncate(i, bytes) =>
        if i < |chains| && ClustersFor(bytes, size) <= |chains[i]| then
          chains[i := chains[i][..ClustersFor(bytes, size)]]
        else chains
  }

  /** The bytes of the files after an operation with this result: only what is cut off is lost. */
  function FilesAfter(files: seq<seq<byte>>, op: Op, r: Result): seq<seq<byte>>
  {
    if r.Nothing? then files
    else
      match op
      case Create => files + [[]]
      case Append(i, fast) => files
      case Delete(i) => if i < |files| then files[..i] + files[i + 1..] else files
      case Truncate(i, bytes) => if i < |files| then files[i := UpTo(files[i], bytes)] else files
  }

  function ChainsAfterAll(size: nat, chains: seq<seq<nat>>, ops: seq<Op>, results: seq<Result>): seq<seq<nat>>
    requires size > 0 && |results| == |ops|
  {
    if ops == [] then chains
    else
      var n := |ops| - 1;
      ChainsAfter(size, ChainsAfterAll(size, chains, ops[..n], results[..n]), ops[n], results[n])
  }

  function FilesAfterAll(files: seq<seq<byte>>, ops: seq<Op>, results: seq<Result>): seq<seq<byte>>
    requires |results| == |ops|
  {
    if ops == [] then files
    else
      var n := |ops| - 1;
      FilesAfter(FilesAfterAll(files, ops[..n], results[..n]), ops[n], results[n])
  }

  lemma LinkAt(t: seq<nat>, c: seq<nat>, k: nat)
    requires IsChain(t, c) && k + 1 < |c| && |t| <= FIRST_END
    ensures c[k] < |t| && IsLink(t[c[k]])
  {
    assert t[c[k]] == c[k + 1];
  }

  lemma ChainEnds(t: seq<nat>, c: seq<nat>, n: nat)
    requires IsChain(t, c) && 1 <= n <= |c| && |t| <= FIRST_END && !IsLink(t[c[n - 1]])
    ensures n == |c|
  {
    hide IsChain;
    if n < |c| {
      LinkAt(t, c, n - 1);
    }
  }

  lemma ChainGoesOn(t: seq<nat>, c: seq<nat>, n: nat)
    requires IsChain(t, c) && 1 <= n <= |c| && IsLink(t[c[n - 1]])
    ensures n < |c| && t[c[n - 1]] == c[n]
  {
  }

  // The length and the last cluster of a chain.
  method Measure(v: Volume, first: nat, ghost c: seq<nat>) returns (count: nat, last: nat)
    requires v.Valid() && IsChain(v.Cells(), c) && c[0] == first && |v.Cells()| <= FIRST_END
    modifies v.table`offset, v.table.buffer, v.table.dirty, v.table.disk1, v.table.disk2
    ensures v.Valid() && v.table.Flat() == old(v.table.Flat())
    ensures count == |c| && last == c[|c| - 1]
  {
    hide Table.Geometry, Table.Valid, Table.Flat, Entries, Table.OnDisk;
    ghost var t := v.Cells();
    count, last := 1, first;
    while true
      invariant 1 <= count <= |c| && last == c[count - 1]
      invariant v.Valid() && v.table.Flat() == old(v.table.Flat())
      decreases |c| - count
    {
      var next := v.table.Get(last);
      assert next == t[last];
      if !IsLink(next) {
        ChainEnds(t, c, count);
        return;
      }
      ChainGoesOn(t, c, count);
      count, last := count + 1, next;
    }
  }

  /** The chains share no cluster, and they hold the files. */
  ghost predicate Whole(t: seq<nat>, data: seq<seq<byte>>, chains: seq<seq<nat>>, others: set<nat>, files: seq<seq<byte>>,
                        size: nat)
  {
    Tidy(t, chains, others) && FilesHold(t, data, chains, files, size)
  }

  lemma WholeFacts(v: Volume, chains: seq<seq<nat>>, others: set<nat>, files: seq<seq<byte>>)
    requires v.Valid() && Whole(v.Cells(), v.Data(), chains, others, files, v.size)
    ensures Tidy(v.Cells(), chains, others) && FilesHold(v.Cells(), v.Data(), chains, files, v.size)
    ensures OthersKept(v.Cells(), v.Cells(), others) && |v.Cells()| <= FIRST_END && v.size > 0 && |files| == |chains|
    ensures v.Apart(v.buffers.disk) && v.Apart(v.buffers.cluster) && v.buffers.disk != v.buffers.cluster
  {
  }

  // The first cluster of a file, as fat_write gives it one.
  method StepCreate(v: Volume, firsts: seq<nat>, ghost chains: seq<seq<nat>>, ghost others: set<nat>,
                    ghost files: seq<seq<byte>>)
    returns (now: seq<nat>, r: Result)
    requires v.Valid() && Whole(v.Cells(), v.Data(), chains, others, files, v.size) && Heads(firsts, chains)
    modifies v, v.buffers, v.buffers.cluster, v.buffers.disk, v.table, v.table.buffer, v.table.dirty, v.table.disk1, v.table.disk2
    ensures v.Valid() && OthersKept(old(v.Cells()), v.Cells(), others)
    ensures if HasFree(old(v.Cells()), 2) then TakesFree(old(v.Cells()), r) else r == Nothing
    ensures r.Taken? ==>
              && now == firsts + [r.cluster]
              && Whole(v.Cells(), v.Data(), chains + [[r.cluster]], others, files + [[]], v.size)
    ensures !r.Taken? ==> now == firsts && Whole(v.Cells(), v.Data(), chains, others, files, v.size)
    ensures v.table.kind.Fat32? && CountIsRight(old(v.table.infoFree), old(v.Cells())) ==>
              CountIsRight(v.table.infoFree, v.Cells())
  {
    hide Table.Geometry, Table.Valid, Table.Flat, Entries, Table.OnDisk, CountIsRight, Tidy, IsChain, OthersKept;
    hide HasFree, FirstFree, AllocateFrom, FilesHold;
    WholeFacts(v, chains, others, files);
    hide Volume.Data, Volume.Shape, Buffers.Valid;
    ghost var t, data := v.Cells(), v.Data();
    now, r := firsts, Nothing;
    AllocateFromTwo(t, v.lastAllocated);
    ghost var from := AllocateFrom(t, v.lastAllocated);
    var status, n := v.AllocateCluster();
    if status == Ok {
      FreeInRange(t, from, n);
      TidyCreated(t, chains, n, others);
      CreatedHolds(t, data, chains, files, v.size, n, others);
      status := v.Store(n, END_MARK, false);
      now, r := firsts + [n], Taken(n);
    }
  }

  method StepAppend(v: Volume, firsts: seq<nat>, i: nat, fast: bool, ghost chains: seq<seq<nat>>, ghost others: set<nat>,
                    ghost files: seq<seq<byte>>)
    returns (r: Result)
    requires v.Valid() && Whole(v.Cells(), v.Data(), chains, others, files, v.size) && Heads(firsts, chains) && i < |firsts|
    modifies v, v.buffers, v.buffers.cluster, v.buffers.disk, v.table, v.table.buffer, v.table.dirty, v.table.disk1, v.table.disk2
    ensures v.Valid() && OthersKept(old(v.Cells()), v.Cells(), others)
    ensures if HasFree(old(v.Cells()), 2) then TakesFree(old(v.Cells()), r) else r == Nothing
    ensures r.Taken? ==> Whole(v.Cells(), v.Data(), chains[i := chains[i] + [r.cluster]], others, files, v.size)
    ensures !r.Taken? ==> Whole(v.Cells(), v.Data(), chains, others, files, v.size)
    ensures v.table.kind.Fat32? && CountIsRight(old(v.table.infoFree), old(v.Cells())) ==>
              CountIsRight(v.table.infoFree, v.Cells())
  {
    hide Table.Geometry, Table.Valid, Table.Flat, Entries, Table.OnDisk, CountIsRight, Tidy, IsChain;
    hide HasFree, AllocateFrom, Wiped, Appended, OthersKept, FilesHold;
    WholeFacts(v, chains, others, files);
    hide Volume.Data, Volume.Shape, Buffers.Valid;
    ghost var t, data, c := v.Cells(), v.Data(), chains[i];
    r := Nothing;
    ChainOf(t, chains, i, others);
    ChainFacts(t, c);
    var count, last := Measure(v, firsts[i], c);
    CallersAppendAtEnd(t, c, |c| - 1);
    var status := v.AppendCluster(last, fast);
    if status == Ok {
      r := Taken(v.lastAllocated);
      TidyAppended(t, chains, i, r.cluster, others);
      AppendedHolds(t, data, chains, files, v.size, i, r.cluster, !fast, others);
    }
  }

  method StepDelete(v: Volume, firsts: seq<nat>, i: nat, ghost chains: seq<seq<nat>>, ghost others: set<nat>,
                    ghost files: seq<seq<byte>>)
    requires v.Valid() && Whole(v.Cells(), v.Data(), chains, others, files, v.size) && Heads(firsts, chains) && i < |firsts|
    modifies v, v.buffers, v.buffers.cluster, v.buffers.disk, v.table, v.table.buffer, v.table.dirty, v.table.disk1, v.table.disk2
    ensures v.Valid() && OthersKept(old(v.Cells()), v.Cells(), others) && |files| == |chains|
    ensures Whole(v.Cells(), v.Data(), chains[..i] + chains[i + 1..], others, files[..i] + files[i + 1..], v.size)
    ensures v.table.kind.Fat32? && CountIsRight(old(v.table.infoFree), old(v.Cells())) ==>
              CountIsRight(v.table.infoFree, v.Cells())
  {
    hide Table.Geometry, Table.Valid, Table.Flat, Entries, Table.OnDisk, CountIsRight, Tidy, IsChain, Freed, Visited;
    hide Wiped, OthersKept, FilesHold;
    WholeFacts(v, chains, others, files);
    hide Volume.Data, Volume.Shape, Buffers.Valid;
    ghost var t, data := v.Cells(), v.Data();
    ChainOf(t, chains, i, others);
    ChainFacts(t, chains[i]);
    TidyFreed(t, chains, i, others);
    FreedHolds(t, data, chains, files, v.size, i, others);
    v.DeleteClusters(firsts[i]);
  }

  method StepTruncate(v: Volume, firsts: seq<nat>, i: nat, bytes: nat, ghost chains: seq<seq<nat>>, ghost others: set<nat>,
                      ghost files: seq<seq<byte>>)
    returns (r: Result)
    requires v.Valid() && Whole(v.Cells(), v.Data(), chains, others, files, v.size) && Heads(firsts, chains) && i < |firsts|
    modifies v, v.buffers, v.buffers.cluster, v.buffers.disk, v.table, v.table.buffer, v.table.dirty, v.table.disk1, v.table.disk2
    ensures v.Valid() && OthersKept(old(v.Cells()), v.Cells(), others) && v.size > 0 && |files| == |chains|
    ensures r == if bytes > 0 && ClustersFor(bytes, v.size) <= |chains[i]| then Done else Nothing
    ensures r.Done? ==> Whole(v.Cells(), v.Data(), chains[i := chains[i][..ClustersFor(bytes, v.size)]], others,
                              files[i := UpTo(files[i], bytes)], v.size)
    ensures !r.Done? ==> Whole(v.Cells(), v.Data(), chains, others, files, v.size)
    ensures v.table.kind.Fat32? && CountIsRight(old(v.table.infoFree), old(v.Cells())) ==>
              CountIsRight(v.table.infoFree, v.Cells())
  {
    hide Table.Geometry, Table.Valid, Table.Flat, Entries, Table.OnDisk, CountIsRight, Tidy, IsChain;
    hide Cut, CutData, Truncated, Wiped, Freed, Visited, Along, OthersKept, FilesHold;
    WholeFacts(v, chains, others, files);
    hide Volume.Data, Volume.Shape, Buffers.Valid;
    ghost var t, data, c := v.Cells(), v.Data(), chains[i];
    ChainOf(t, chains, i, others);
    ChainFacts(t, c);
    var count, last := Measure(v, firsts[i], c);
    var n := ClustersFor(bytes, v.size);
    if bytes == 0 || n > count {
      return Nothing;
    }
    ClustersPositive(bytes, v.size);
    var file := new File(firsts[i], bytes);
    CutChain(t, c, n);
    AlongChain(t, c, n - 1);
    TidyTruncated(t, chains, i, n, others);
    TruncatedHolds(t, data, chains, files, v.size, i, bytes, others);
    v.DeleteExtraClusters(file);
    return Done;
  }

  lemma TakenOrNothing()
    ensures forall t: seq<nat>, r: Result :: TakesFree(t, r) ==> r.Taken?
  {
  }

  /** One operation on one file. */
  method Step(v: Volume, firsts: seq<nat>, op: Op, ghost chains: seq<seq<nat>>, ghost others: set<nat>,
              ghost files: seq<seq<byte>>)
    returns (now: seq<nat>, r: Result)
    requires v.Valid() && Whole(v.Cells(), v.Data(), chains, others, files, v.size) && Heads(firsts, chains)
    modifies v, v.buffers, v.buffers.cluster, v.buffers.disk, v.table, v.table.buffer, v.table.dirty, v.table.disk1, v.table.disk2
    ensures v.Valid() && OthersKept(old(v.Cells()), v.Cells(), others)
    ensures v.size > 0 && Outcome(old(v.Cells()), v.size, chains, op, r)
    ensures Heads(now, ChainsAfter(v.size, chains, op, r))
    ensures Whole(v.Cells(), v.Data(), ChainsAfter(v.size, chains, op, r), others, FilesAfter(files, op, r), v.size)
    ensures v.table.kind.Fat32? && CountIsRight(old(v.table.infoFree), old(v.Cells())) ==>
              CountIsRight(v.table.infoFree, v.Cells())
  {
    hide Table.Geometry, Table.Valid, Table.Flat, Entries, Table.OnDisk, CountIsRight, Tidy, IsChain, FilesHold;
    hide OthersKept, HasFree;
    WholeFacts(v, chains, others, files);
    hide Volume.Data, Volume.Shape, Whole, TakesFree;
    TakenOrNothing();
    now, r := firsts, Nothing;
    if !op.Create? && op.file >= |firsts| {
      return;
    }
    match op {
      case Create =>
        now, r := StepCreate(v, firsts, chains, others, files);
      case Append(i, fast) =>
        r := StepAppend(v, firsts, i, fast, chains, others, files);
      case Delete(i) =>
        StepDelete(v, firsts, i, chains, others, files);
        now, r := firsts[..i] + firsts[i + 1..], Done;
      case Truncate(i, bytes) =>
        ClustersPositive(if bytes > 0 then bytes else 1, v.size);
        r := StepTruncate(v, firsts, i, bytes, chains, others, files);
    }
  }

  lemma KeptChain(t: seq<nat>, t1: seq<nat>, t2: seq<nat>, others: set<nat>)
    requires OthersKept(t, t1, others) && OthersKept(t1, t2, others)
    ensures OthersKept(t, t2, others)
  {
  }

  /** Any run of creating, appending, deleting and truncating: the files stay apart, no cluster is lost, and each file
      keeps its bytes, but for what is cut off; what belongs to no file stays as it is, and a right number of free
      clusters stays right. */
  method Run(v: Volume, firsts: seq<nat>, ops: seq<Op>, ghost chains: seq<seq<nat>>, ghost others: set<nat>,
             ghost files: seq<seq<byte>>)
    returns (now: seq<nat>, results: seq<Result>)
    requires v.Valid() && Whole(v.Cells(), v.Data(), chains, others, files, v.size) && Heads(firsts, chains)
    modifies v, v.buffers, v.buffers.cluster, v.buffers.disk, v.table, v.table.buffer, v.table.dirty, v.table.disk1, v.table.disk2
    ensures v.Valid() && OthersKept(old(v.Cells()), v.Cells(), others) && v.size > 0 && |results| == |ops|
    ensures Heads(now, ChainsAfterAll(v.size, chains, ops, results))
    ensures Whole(v.Cells(), v.Data(), ChainsAfterAll(v.size, chains, ops, results), others,
                  FilesAfterAll(files, ops, results), v.size)
    ensures v.table.kind.Fat32? && CountIsRight(old(v.table.infoFree), old(v.Cells())) ==>
              CountIsRight(v.table.infoFree, v.Cells())
  {
    hide Table.Geometry, Table.Valid, Table.Flat, Entries, CountIsRight, Tidy, Heads, OthersKept, ChainsAfter, FilesAfter;
    WholeFacts(v, chains, others, files);
    hide Volume.Data, Volume.Shape, Whole;
    now, results := firsts, [];
    for i := 0 to |ops|
      invariant v.Valid() && OthersKept(old(v.Cells()), v.Cells(), others) && |results| == i
      invariant Heads(now, ChainsAfterAll(v.size, chains, ops[..i], results))
      invariant Whole(v.Cells(), v.Data(), ChainsAfterAll(v.size, chains, ops[..i], results), others,
                      FilesAfterAll(files, ops[..i], results), v.size)
      invariant v.table.kind.Fat32? && CountIsRight(old(v.table.infoFree), old(v.Cells())) ==>
                  CountIsRight(v.table.infoFree, v.Cells())
    {
      ghost var t, before := v.Cells(), results;
      ghost var c, f := ChainsAfterAll(v.size, chains, ops[..i], results), FilesAfterAll(files, ops[..i], results);
      var r;
      now, r := Step(v, now, ops[i], c, others, f);
      KeptChain(old(v.Cells()), t, v.Cells(), others);
      results := results + [r];
      assert ops[..i + 1][..i] == ops[..i] && results[..i] == before;
    }
    assert ops[..|ops|] == ops;
  }
}
