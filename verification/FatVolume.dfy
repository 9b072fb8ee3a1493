/** The cluster layer of common/fat.c: the table, the clusters, the buffer that caches one of them, and the
    operations that take clusters from the table and give them back.

    The clusters and the buffers are those of FatBuffers, known by their numbers here.
 */
module FatVolumes {
  import opened Machine
  import opened Arithmetic
  import opened FatCells
  import opened FatTables
  import opened FatBuffers
  import opened FatChains

  function NoBytes(n: nat): (z: seq<byte>)
    ensures |z| == n && forall p | 0 <= p < n :: z[p] == 0
  {
    seq(n, p => 0)
  }

  /** What get_table_value answers. */
  ghost function Lookup(t: seq<nat>, k: nat): nat
  {
    if k < |t| then t[k] else NO_CELL
  }

  /** The n-th entry along the table, without any check on the way. */
  ghost function Along(t: seq<nat>, k: nat, n: nat): nat
    decreases n
  {
    if n == 0 then k else Along(t, Lookup(t, k), n - 1)
  }

  /** How many clusters hold `bytes` bytes. */
  function ClustersFor(bytes: nat, size: nat): (n: nat)
    requires size > 0
  {
    bytes / size + if bytes % size != 0 then 1 else 0
  }

  /** The table after delete_extra_clusters, whatever the table was. */
  ghost function Cut(t: seq<nat>, first: nat, n: nat): (r: seq<nat>)
    requires n >= 1
    ensures |r| == |t|
  {
    var last := Along(t, first, n - 1);
    if last >= |t| then t
    else if IsLink(t[last]) then Freed(t[last := END_MARK], t[last])
    else t[last := END_MARK]
  }

  lemma {:induction false} AlongChain(t: seq<nat>, c: seq<nat>, n: nat)
    requires IsChain(t, c) && n < |c|
    ensures Along(t, c[0], n) == c[n]
    decreases n
  {
    if n > 0 {
      ChainTail(t, c);
      AlongChain(t, c[1..], n - 1);
    }
  }

  /** delete_extra_clusters leaves exactly the first n clusters of a chain that has them, and frees the rest. */
  lemma CutChain(t: seq<nat>, c: seq<nat>, n: nat)
    requires IsChain(t, c) && |t| <= FIRST_END && 1 <= n <= |c|
    ensures Cut(t, c[0], n) == Truncated(t, c, n)
  {
    AlongChain(t, c, n - 1);
    EndThenFree(t, c, n);
    if n < |c| {
      assert t[c[n - 1]] == c[n];
    }
  }

  // ----- The clusters

  /** The clusters of the set are all zeros, the others as they were. */
  ghost function Wiped(data: seq<seq<byte>>, gone: set<nat>, size: nat): (d: seq<seq<byte>>)
    ensures |d| == |data|
  {
    seq(|data|, k requires 0 <= k < |data| => if k in gone then NoBytes(size) else data[k])
  }

  /** The cluster has zeros from byte `used` on. */
  ghost function TailWiped(data: seq<seq<byte>>, k: nat, used: nat, size: nat): (d: seq<seq<byte>>)
    requires k < |data| && |data[k]| == size && used <= size
    ensures |d| == |data|
  {
    data[k := data[k][..used] + NoBytes(size - used)]
  }

  ghost predicate AllSized(data: seq<seq<byte>>, size: nat)
  {
    forall k | 0 <= k < |data| :: |data[k]| == size
  }

  /** The clusters after delete_extra_clusters. */
  ghost function CutData(data: seq<seq<byte>>, t: seq<nat>, first: nat, bytes: nat, size: nat): (d: seq<seq<byte>>)
    requires size > 0 && bytes > 0 && |data| == |t| && AllSized(data, size)
  {
    var last := Along(t, first, ClustersFor(bytes, size) - 1);
    if last >= |t| then data
    else
      var ended := t[last := END_MARK];
      var tailed := if bytes % size != 0 && last >= 2 then TailWiped(data, last, bytes % size, size) else data;
      if IsLink(t[last]) then Wiped(tailed, Visited(ended, t[last]), size) else tailed
  }

  /** What a file descriptor keeps of an open file. */
  class File {
    var first: nat        // first cluster, in its record
    var bytes: nat        // file size, in its record
    var offset: nat
    var clusterIdx: nat   // a place in the chain that is known already, 0 for none
    var clusterVal: nat
    var eof: nat

    constructor (firstCluster: nat, fileSize: nat)
      ensures first == firstCluster && bytes == fileSize
      ensures offset == 0 && clusterIdx == 0 && clusterVal == 0 && eof == 0
    {
      first, bytes, offset, clusterIdx, clusterVal, eof := firstCluster, fileSize, 0, 0, 0, 0;
    }
  }

  ghost predicate HasFree(t: seq<nat>, from: nat)
  {
    exists k | from <= k < |t| :: t[k] == 0
  }

  ghost predicate FirstFree(t: seq<nat>, from: nat, k: nat)
  {
    from <= k < |t| && t[k] == 0 && forall j | from <= j < k :: t[j] != 0
  }

  ghost function AllocateFrom(t: seq<nat>, hint: nat): nat
  {
    if hint > 2 && HasFree(t, hint) then hint else 2
  }

  lemma AllocateFromTwo(t: seq<nat>, hint: nat)
    ensures AllocateFrom(t, hint) >= 2
  {
  }

  lemma FreeInRange(t: seq<nat>, from: nat, k: nat)
    requires FirstFree(t, from, k)
    ensures from <= k < |t| && t[k] == 0
  {
  }

  /** One round of delete_clusters. */
  lemma FreeStep(t: seq<nat>, cluster: nat)
    requires IsLink(cluster)
    ensures var t2 := if cluster < |t| then t[cluster := 0] else t;
            var next := Lookup(t, cluster);
            && Freed(t2, next) == Freed(t, cluster)
            && Visited(t, cluster) == (if cluster < |t| then {cluster} else {}) + Visited(t2, next)
            && (Used(t2) < Used(t) || (Used(t2) == Used(t) && !IsLink(next)))
  {
    if cluster < |t| {
      ClearUses(t, cluster);
      if t[cluster] == 0 {
        assert t[cluster := 0] == t;
      }
    }
  }

  lemma FreeDone(t: seq<nat>, cluster: nat)
    requires !IsLink(cluster)
    ensures Freed(t, cluster) == t && Visited(t, cluster) == {}
  {
  }

  lemma NothingWiped(data: seq<seq<byte>>, size: nat)
    ensures Wiped(data, {}, size) == data
  {
  }

  lemma WipedMore(data: seq<seq<byte>>, gone: set<nat>, k: nat, size: nat)
    ensures Wiped(Wiped(data, gone, size), if 2 <= k < |data| then {k} else {}, size)
            == if 2 <= k < |data| then Wiped(data, gone + {k}, size) else Wiped(data, gone, size)
  {
  }

  lemma WipedOne(data: seq<seq<byte>>, k: nat, size: nat)
    ensures Wiped(data, {}, size) == data
    ensures k < |data| ==> Wiped(data, {k}, size) == data[k := NoBytes(size)]
  {
  }

  lemma AlongStep(t: seq<nat>, k: nat, n: nat)
    ensures Along(t, k, n) == if n == 0 then k else Along(t, Lookup(t, k), n - 1)
  {
  }

  class Volume {
    const table: Table
    const size: nat                 // bytes in a cluster
    const buffers: Buffers          // the clusters on disk, and the buffers in front of them
    var lastAllocated: nat

    ghost predicate Apart(b: array<byte>)
    {
      b != table.buffer && b != table.disk1 && b != table.disk2
    }

    ghost predicate Shape()
    {
      && table.Geometry() && buffers.Shape() && size > 0
      && size == buffers.layout.n * buffers.layout.sector && buffers.layout.clusters == table.clusters
      && Apart(buffers.disk) && Apart(buffers.cluster) && Apart(buffers.block)
    }

    /** A destination of the caller's. */
    ghost predicate Foreign(b: array?<byte>)
    {
      b == null || (Apart(b) && b != buffers.disk && b != buffers.cluster && b != buffers.block)
    }

    ghost predicate Valid()
      reads this, buffers, buffers.disk, buffers.cluster, buffers.block, table, table.buffer, table.dirty, table.disk1
    {
      Shape() && table.Valid() && buffers.Valid()
    }

    constructor (t: Table, b: Buffers)
      requires t.Valid() && b.Valid() && b.layout.clusters == t.clusters
      requires {b.disk, b.cluster, b.block} !! {t.buffer, t.disk1, t.disk2}
      ensures Valid() && table == t && buffers == b
    {
      Multiple(b.layout.n, b.layout.sector);
      table, buffers, size, lastAllocated := t, b, b.layout.n * b.layout.sector, 0;
    }

    function Count(): nat
    {
      table.clusters + 2
    }

    /** The clusters on disk, by number; numbers 0 and 1 belong to none. */
    ghost function Data(): (d: seq<seq<byte>>)
      requires Shape()
      reads buffers.disk
      ensures |d| == Count() && AllSized(d, size)
    {
      Clusters(buffers.layout, buffers.disk[..])
    }

    /** What the whole table reads as. */
    ghost function Cells(): (t: seq<nat>)
      requires Shape()
      reads table, table.buffer, table.disk1
      ensures |t| == Count()
    {
      table.Cells()
    }

    predicate InRange(cluster: nat)
    {
      2 <= cluster < Count()
    }

    lemma Separate()
      requires Shape()
      ensures size > 0 && Apart(buffers.disk) && Apart(buffers.cluster) && Apart(buffers.block)
      ensures |Data()| == Count() && AllSized(Data(), size)
    {
    }

    /** The cluster that write_cluster is going to write. */
    ghost predicate Selects(cluster: nat)
      reads buffers`clusterSector
    {
      buffers.layout.HasCluster(cluster) && buffers.clusterSector == buffers.layout.SectorOf(cluster)
    }

    /** read_cluster, in terms of the clusters. */
    method ReadCluster(cluster: nat, skip: bool) returns (status: Status)
      requires Valid()
      modifies buffers`clusterSector, buffers`clusterLba, buffers.cluster
      ensures Valid()
      ensures status == if InRange(cluster) then Ok else InconsistentState
      ensures InRange(cluster) ==> Selects(cluster) && buffers.clusterSector != 0
      ensures InRange(cluster) ==> (buffers.clusterLba == if skip then 0 else buffers.clusterSector)
      ensures InRange(cluster) && !skip ==> buffers.cluster[..] == Data()[cluster]
    {
      hide Table.Geometry, Table.Valid, Clusters;
      var ok := buffers.ReadCluster(cluster, skip);
      if ok {
        ClustersAt(buffers.layout, buffers.disk[..], cluster);
      }
      return if ok then Ok else InconsistentState;
    }

    /** write_cluster, in terms of the clusters.  The caller may have changed the buffer of the selected cluster. */
    method WriteCluster(ghost cluster: nat) returns (status: Status)
      requires Shape() && buffers.SelectedRight() && (buffers.clusterSector != 0 ==> Selects(cluster))
      requires buffers.clusterLba == 0 || buffers.clusterLba == buffers.clusterSector || buffers.ClusterRight()
      modifies buffers`blockLba, buffers.disk
      ensures status == if buffers.clusterSector == 0 then InconsistentState else Ok
      ensures status != Ok ==> Data() == old(Data()) && buffers.blockLba == old(buffers.blockLba)
      ensures status == Ok ==> Data() == old(Data())[cluster := buffers.cluster[..]] && buffers.Valid()
    {
      hide Table.Geometry, Clusters, Patched;
      ghost var disk := buffers.disk[..];
      var ok := buffers.WriteCluster();
      if ok {
        ClustersPatched(buffers.layout, disk, cluster, buffers.cluster[..]);
      }
      return if ok then Ok else InconsistentState;
    }

    // memset of the end of the buffer.
    method ClearBuffer(from: nat)
      requires from <= buffers.cluster.Length
      modifies buffers.cluster
      ensures buffers.cluster[..] == old(buffers.cluster[..])[..from] + NoBytes(buffers.cluster.Length - from)
    {
      for p := from to buffers.cluster.Length
        invariant forall q | from <= q < p :: buffers.cluster[q] == 0
        invariant forall q | 0 <= q < from :: buffers.cluster[q] == old(buffers.cluster[q])
      {
        buffers.cluster[p] := 0;
      }
    }

    lemma ZeroBuffer()
      requires Shape()
      ensures buffers.cluster[..][..0] + NoBytes(buffers.cluster.Length) == NoBytes(size)
    {
    }

    // A cluster becomes all zeros, as append_cluster and delete_clusters do it.
    method Wipe(cluster: nat) returns (status: Status)
      requires Valid()
      modifies buffers, buffers.cluster, buffers.disk
      ensures Valid()
      ensures status == if InRange(cluster) then Ok else InconsistentState
      ensures Data() == Wiped(old(Data()), if InRange(cluster) then {cluster} else {}, size)
    {
      hide Table.Geometry, Table.Valid, Clusters, Buffers.BlockRight, Buffers.IsCluster, Layout.SectorOf, Layout.Place;
      hide Layout.Valid, Wiped, NoBytes, AllSized, Volume.Data;
      ghost var was := Data();
      status := ReadCluster(cluster, true);
      if status == Ok {
        ClearBuffer(0);
        ZeroBuffer();
        status := WriteCluster(cluster);
      }
      WipedOne(was, cluster, size);
    }

    /** Both copies of the table on disk agree, if there are two. */
    ghost predicate Mirrored()
      reads table.disk1, table.disk2
    {
      table.copies == 2 ==> table.disk1[..] == table.disk2[..]
    }

    // One of the two loops of allocate_cluster.
    method FindFree(from: nat) returns (found: bool, k: nat)
      requires Valid()
      modifies table`offset, table.buffer, table.dirty, table.disk1, table.disk2
      ensures Valid() && table.Flat() == old(table.Flat())
      ensures found <==> HasFree(Cells(), from)
      ensures found ==> FirstFree(Cells(), from, k)
      ensures old(Mirrored()) ==> Mirrored()
      ensures old(table.OnDisk()) ==> table.OnDisk()
    {
      hide Table.Geometry, Table.Valid, Table.Flat, Entries, Table.OnDisk;
      ghost var t := Cells();
      k := from;
      while k < table.clusters + 2
        invariant from <= k
        invariant Valid() && table.Flat() == old(table.Flat())
        invariant forall j | from <= j < k && j < |t| :: t[j] != 0
        invariant old(Mirrored()) ==> Mirrored()
        invariant old(table.OnDisk()) ==> table.OnDisk()
      {
        var v := table.Get(k);
        if v == 0 {
          return true, k;
        }
        k := k + 1;
      }
      return false, k;
    }

    /** allocate_cluster: a free cluster if there is one, the first at or above the last allocated cluster or
        else the first of all. */
    method AllocateCluster() returns (status: Status, k: nat)
      requires Valid()
      modifies this`lastAllocated, table`offset, table.buffer, table.dirty, table.disk1, table.disk2
      ensures Valid() && table.Flat() == old(table.Flat())
      ensures status == if HasFree(Cells(), 2) then Ok else NotEnoughSpace
      ensures status == Ok ==> lastAllocated == k && FirstFree(Cells(), AllocateFrom(Cells(), old(lastAllocated)), k)
      ensures status != Ok ==> lastAllocated == old(lastAllocated) && k == 0
      ensures old(Mirrored()) ==> Mirrored()
      ensures old(table.OnDisk()) ==> table.OnDisk()
    {
      hide Table.Geometry, Table.Valid, Table.Flat, Entries, Table.OnDisk;
      var found;
      if lastAllocated > 2 {
        found, k := FindFree(lastAllocated);
        if found {
          lastAllocated := k;
          return Ok, k;
        }
      }
      found, k := FindFree(2);
      if found {
        lastAllocated := k;
        return Ok, k;
      }
      return NotEnoughSpace, 0;
    }

    /** The values that the cluster layer stores are stored as they are. */
    lemma StoredHere(k: nat)
      requires Shape() && k < Count()
      ensures Stored(table.kind, k) == k && Stored(table.kind, END_MARK) == END_MARK
    {
      assert Storable(table.kind, k) && Storable(table.kind, END_MARK);
      StoredIsSame(table.kind, k);
      StoredIsSame(table.kind, END_MARK);
    }

    lemma OnDiskFat32()
      requires Valid()
      ensures table.kind.Fat32? ==> table.OnDisk()
    {
    }

    // set_table_value, and write_table unless the caller is in a hurry.
    method Store(k: nat, val: nat, fast: bool) returns (status: Status)
      requires Valid() && (val < Count() || val == END_MARK)
      modifies table, table.buffer, table.dirty, table.disk1, table.disk2
      ensures Valid()
      ensures status == if k < Count() then Ok else InconsistentState
      ensures Cells() == if k < Count() then old(Cells())[k := val] else old(Cells())
      ensures table.kind.Fat32? && 2 <= k && CountIsRight(old(table.infoFree), old(Cells())) ==>
                CountIsRight(table.infoFree, Cells())
      ensures old(Mirrored()) ==> Mirrored()
      ensures !table.kind.Fat12? && old(table.OnDisk()) ==> table.OnDisk()
      ensures !table.kind.Fat12? && old(table.OnDisk()) && !fast && status == Ok ==> table.disk1[..] == table.Flat()
    {
      hide Table.Geometry, Table.Valid, Table.Flat, Entries, Stored, CountIsRight, Table.OnDisk, WithCell;
      OnDiskFat32();
      StoredHere(if val < Count() then val else 0);
      status := table.Set(k, val);
      OnDiskFat32();
      if status == Ok && !fast {
        table.WriteTable();
        OnDiskFat32();
      }
    }

    /** append_cluster: a free cluster is linked behind the given one, unless that has a successor already. */
    method AppendCluster(current: nat, fast: bool) returns (status: Status)
      requires Valid()
      modifies this, buffers, buffers.cluster, buffers.disk, table, table.buffer, table.dirty, table.disk1, table.disk2
      ensures Valid()
      ensures var t := old(Cells());
              var n := lastAllocated;
              if Refuses(Lookup(t, current)) then
                status == InconsistentState && Cells() == t && Data() == old(Data())
              else if !HasFree(t, 2) then
                status == NotEnoughSpace && Cells() == t && Data() == old(Data())
              else
                && FirstFree(t, AllocateFrom(t, old(lastAllocated)), n) && n >= 2
                && status == (if current < |t| then Ok else InconsistentState)
                && Cells() == (if current < |t| then Appended(t, current, n) else t[n := END_MARK])
                && Data() == if fast then old(Data()) else Wiped(old(Data()), {n}, size)
      ensures table.kind.Fat32? && 2 <= current && CountIsRight(old(table.infoFree), old(Cells())) ==>
                CountIsRight(table.infoFree, Cells())
      ensures old(Mirrored()) ==> Mirrored()
      ensures !table.kind.Fat12? && old(table.OnDisk()) && !fast && status == Ok ==> table.disk1[..] == table.Flat()
    {
      hide Table.Geometry, Table.Valid, Table.Flat, Entries, CountIsRight, Table.OnDisk, Wiped, HasFree, FirstFree, AllocateFrom;
      ghost var t := Cells();
      AllocateFromTwo(t, lastAllocated);
      var v := table.Get(current);
      if Refuses(v) {
        return InconsistentState;
      }
      var n;
      status, n := AllocateCluster();
      if status != Ok {
        return;
      }
      FreeInRange(t, AllocateFrom(t, old(lastAllocated)), n);
      if !fast {
        status := Wipe(n);
      }
      status := Store(n, END_MARK, fast);
      status := Store(current, n, fast);
    }

    /** delete_clusters, on any table: every cluster it comes by becomes free and all zeros, and nothing else
        changes. */
    method DeleteClusters(start: nat)
      requires Valid()
      modifies this, buffers, buffers.cluster, buffers.disk, table, table.buffer, table.dirty, table.disk1, table.disk2
      ensures Valid() && lastAllocated == 0
      ensures Cells() == Freed(old(Cells()), start)
      ensures Data() == Wiped(old(Data()), Visited(old(Cells()), start), size)
      ensures table.kind.Fat32? && CountIsRight(old(table.infoFree), old(Cells())) ==> CountIsRight(table.infoFree, Cells())
      ensures old(Mirrored()) ==> Mirrored()
      ensures !table.kind.Fat12? && old(table.OnDisk()) ==> table.disk1[..] == table.Flat()
    {
      hide Table.Geometry, Table.Valid, Table.Flat, Entries, CountIsRight, Table.OnDisk, Wiped, Freed, Visited, Used;
      Separate();
      hide Volume.Shape, Volume.Data, Volume.Cells, Buffers.Shape, Buffers.Valid, AllSized;
      ghost var t, d := Cells(), Data();
      ghost var gone: set<nat> := {};
      NothingWiped(d, size);
      var cluster: nat := start;
      while IsLink(cluster)
        invariant Valid()
        invariant Freed(Cells(), cluster) == Freed(t, start)
        invariant gone + Visited(Cells(), cluster) == Visited(t, start)
        invariant Data() == Wiped(d, gone, size)
        invariant table.kind.Fat32? && CountIsRight(old(table.infoFree), t) ==> CountIsRight(table.infoFree, Cells())
        invariant old(Mirrored()) ==> Mirrored()
        invariant !table.kind.Fat12? && old(table.OnDisk()) ==> table.OnDisk()
        decreases Used(Cells()), IsLink(cluster)
      {
        ghost var was := Cells();
        var status := Wipe(cluster);
        var next := table.Get(cluster);
        status := Store(cluster, 0, true);
        FreeStep(was, cluster);
        WipedMore(d, gone, cluster, size);
        if cluster < Count() {
          gone := gone + {cluster};
        }
        cluster := next;
      }
      FreeDone(Cells(), cluster);
      lastAllocated := 0;
      OnDiskFat32();
      table.WriteTable();
    }

    // The end of a cluster becomes zeros, as delete_extra_clusters does it.
    method WipeTail(cluster: nat, used: nat)
      requires Valid() && used <= size
      modifies buffers, buffers.cluster, buffers.disk
      ensures Valid()
      ensures Data() == if InRange(cluster) then TailWiped(old(Data()), cluster, used, size) else old(Data())
    {
      hide Table.Geometry, Table.Valid, Clusters, Buffers.BlockRight, Buffers.IsCluster, Layout.SectorOf, Layout.Place;
      hide Layout.Valid, NoBytes, AllSized;
      var read := ReadCluster(cluster, false);
      if read == Ok {
        ClearBuffer(used);
        var written := WriteCluster(cluster);
      }
    }

    // The last cluster that stays: delete_extra_clusters ends the chain there and clears what is behind the file.
    method EndAt(cluster: nat, bytes: nat) returns (status: Status)
      requires Valid()
      modifies buffers, buffers.cluster, buffers.disk, table, table.buffer, table.dirty, table.disk1, table.disk2
      ensures Valid()
      ensures status == if cluster < Count() then Ok else InconsistentState
      ensures cluster >= Count() ==> Cells() == old(Cells()) && Data() == old(Data())
      ensures cluster < Count() ==> Cells() == old(Cells())[cluster := END_MARK]
      ensures cluster < Count() ==>
                && AllSized(old(Data()), size)
                && Data() == if bytes % size != 0 && cluster >= 2 then TailWiped(old(Data()), cluster, bytes % size, size)
                            else old(Data())
      ensures table.kind.Fat32? && 2 <= cluster && CountIsRight(old(table.infoFree), old(Cells())) ==>
                CountIsRight(table.infoFree, Cells())
      ensures old(Mirrored()) ==> Mirrored()
      ensures !table.kind.Fat12? && old(table.OnDisk()) ==> table.OnDisk()
    {
      hide Table.Geometry, Table.Valid, Table.Flat, Entries, CountIsRight, Table.OnDisk, Buffers.Shape, Buffers.Valid;
      hide Volume.Data, Volume.Cells, TailWiped;
      status := Store(cluster, END_MARK, true);
      if status != Ok {
        return;
      }
      if bytes % size != 0 {
        WipeTail(cluster, bytes % size);
      }
    }

    /** The entry is the last one of a chain now, behind which `rest` was linked, and its cluster ends with the file. */
    ghost predicate Ended(t: seq<nat>, data: seq<seq<byte>>, last: nat, bytes: nat, rest: nat)
      requires Shape() && |data| == Count() && AllSized(data, size)
      reads table, table.buffer, table.disk1, buffers.disk
    {
      size > 0 && last < |t| && |t| == Count() && rest == t[last] && Cells() == t[last := END_MARK]
      && Data() == if bytes % size != 0 && last >= 2 then TailWiped(data, last, bytes % size, size) else data
    }

    // The loop of delete_extra_clusters: the last cluster that stays, and what was linked behind it.
    method EndChain(first: nat, bytes: nat) returns (found: bool, rest: nat)
      requires Valid() && bytes > 0
      modifies buffers, buffers.cluster, buffers.disk, table, table.buffer, table.dirty, table.disk1, table.disk2
      ensures Valid() && AllSized(old(Data()), size)
      ensures var t, last := old(Cells()), Along(old(Cells()), first, ClustersFor(bytes, size) - 1);
              && found == (last < |t|)
              && (!found ==> Cells() == t && Data() == old(Data()))
              && (found ==> Ended(t, old(Data()), last, bytes, rest))
              && (table.kind.Fat32? && CountIsRight(old(table.infoFree), t) && last >= 2 ==> CountIsRight(table.infoFree, Cells()))
      ensures old(Mirrored()) ==> Mirrored()
      ensures !table.kind.Fat12? && old(table.OnDisk()) ==> table.OnDisk()
    {
      hide Table.Geometry, Table.Valid, Table.Flat, Entries, CountIsRight, Table.OnDisk, Along;
      Separate();
      hide Volume.Shape, Volume.Data, Volume.Cells, Buffers.Shape, Buffers.Valid, AllSized, TailWiped, Lookup;
      ghost var t, d := Cells(), Data();
      var clusters := ClustersFor(bytes, size);
      ghost var last := Along(t, first, clusters - 1);
      var i := 0;
      found, rest := true, first;
      while i < clusters
        invariant i <= clusters && Valid() && found && (i == 0 ==> clusters > 0)
        invariant i < clusters ==> Cells() == t && Data() == d && Along(t, rest, clusters - 1 - i) == last
        invariant i < clusters ==> table.infoFree == old(table.infoFree)
        invariant i == clusters ==> Ended(t, d, last, bytes, rest)
        invariant i == clusters && table.kind.Fat32? && CountIsRight(old(table.infoFree), t) && last >= 2 ==>
                    CountIsRight(table.infoFree, Cells())
        invariant old(Mirrored()) ==> Mirrored()
        invariant !table.kind.Fat12? && old(table.OnDisk()) ==> table.OnDisk()
      {
        var next := table.Get(rest);
        AlongStep(t, rest, clusters - 1 - i);
        if !(i + 1 < clusters) {
          var status := EndAt(rest, bytes);
          if status != Ok {
            return false, rest;
          }
        }
        rest := next;
        i := i + 1;
      }
    }

    /** delete_extra_clusters: the chain of the file keeps the clusters that its size calls for, or none for
        an empty file. */
    method DeleteExtraClusters(file: File)
      requires Valid()
      modifies file, this, buffers, buffers.cluster, buffers.disk, table, table.buffer, table.dirty, table.disk1, table.disk2
      ensures Valid() && file.clusterIdx == 0 && file.clusterVal == 0
      ensures file.bytes == old(file.bytes) && file.offset == old(file.offset) && file.eof == old(file.eof)
      ensures file.first == if file.bytes == 0 then 0 else old(file.first)
      ensures file.bytes == 0 ==>
                && Cells() == Freed(old(Cells()), old(file.first))
                && Data() == Wiped(old(Data()), Visited(old(Cells()), old(file.first)), size)
      ensures file.bytes != 0 ==>
                && AllSized(old(Data()), size)
                && Cells() == Cut(old(Cells()), file.first, ClustersFor(file.bytes, size))
                && Data() == CutData(old(Data()), old(Cells()), file.first, file.bytes, size)
      ensures table.kind.Fat32? && CountIsRight(old(table.infoFree), old(Cells()))
              && (file.bytes == 0 || Along(old(Cells()), file.first, ClustersFor(file.bytes, size) - 1) >= 2) ==>
                CountIsRight(table.infoFree, Cells())
      ensures old(Mirrored()) ==> Mirrored()
    {
      hide Table.Geometry, Table.Valid, Table.Flat, Entries, CountIsRight, Table.OnDisk, Wiped, Freed, Visited, Used, Along;
      Separate();
      hide Volume.Shape, Volume.Data, Volume.Cells, Buffers.Shape, Buffers.Valid, AllSized, TailWiped, Lookup;
      file.clusterIdx := 0;
      file.clusterVal := 0;
      var cluster: nat := file.first;
      if file.bytes == 0 {
        file.first := 0;
        buffers.clusterLba := 0;   // by way of write_record_buffer
        DeleteClusters(cluster);
        return;
      }
      var found, rest := EndChain(cluster, file.bytes);
      if found && IsLink(rest) {
        DeleteClusters(rest);
      }
    }
  }
}
