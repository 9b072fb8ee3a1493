/** The two buffers of common/fat.c: one for a single sector and one for a cluster.  Each remembers which sectors it
    holds, and both stand in front of the same disk.  A block address is a sector number here.
 */
module FatBuffers {
  import opened Machine
  import opened Arithmetic
  import opened FatCells

  /** The bytes with others written over them. */
  function Patched(b: seq<byte>, at: nat, bytes: seq<byte>): (r: seq<byte>)
    requires at + |bytes| <= |b|
    ensures |r| == |b|
  {
    b[..at] + bytes + b[at + |bytes|..]
  }

  /** What was written is read back, and other bytes are not touched. */
  lemma PatchedSlice(b: seq<byte>, at: nat, bytes: seq<byte>, from: nat, to: nat)
    requires at + |bytes| <= |b| && from <= to <= |b|
    ensures from == at && to == at + |bytes| ==> Patched(b, at, bytes)[from..to] == bytes
    ensures to <= at || at + |bytes| <= from ==> Patched(b, at, bytes)[from..to] == b[from..to]
  {
  }

  lemma AllPatched(b: seq<byte>, bytes: seq<byte>)
    requires |bytes| == |b|
    ensures Patched(b, 0, bytes) == bytes
  {
  }

  /** Writing back a range with a change in it is writing the change. */
  lemma PatchedWithin(b: seq<byte>, from: nat, to: nat, at: nat, bytes: seq<byte>)
    requires from <= to <= |b| && at + |bytes| <= to - from
    ensures Patched(b, from, Patched(b[from..to], at, bytes)) == Patched(b, from + at, bytes)
  {
  }

  /** How the disk is divided: `sectors` of so many bytes; cluster 2 starts at sector `first`, and each has n. */
  datatype Layout = Layout(sector: nat, sectors: nat, n: nat, first: nat, clusters: nat)
  {
    ghost predicate Valid()
    {
      sector > 0 && n > 0 && first > 0 && first + clusters * n <= sectors
    }

    predicate HasCluster(cluster: nat)
    {
      2 <= cluster < clusters + 2
    }

    function SectorOf(cluster: nat): nat
      requires HasCluster(cluster)
    {
      first + (cluster - 2) * n
    }

    /** The position of a sector in bytes. */
    function Place(lba: nat): nat
    {
      lba * sector
    }

    lemma InOrder(a: nat, b: nat)
      requires a <= b
      ensures Place(a) <= Place(b) && Place(b) - Place(a) == (b - a) * sector
    {
      Multiple(b - a, sector);
      assert (b - a) * sector == b * sector - a * sector;
    }

    lemma ClusterFits(cluster: nat)
      requires Valid() && HasCluster(cluster)
      ensures 0 < SectorOf(cluster) && SectorOf(cluster) + n <= sectors
      ensures Place(SectorOf(cluster)) + n * sector <= Place(sectors)
    {
      var k := clusters - (cluster - 2) - 1;
      Multiple(k, n);
      assert k * n == clusters * n - (cluster - 2) * n - n;
      InOrder(SectorOf(cluster) + n, sectors);
      InOrder(SectorOf(cluster), SectorOf(cluster) + n);
    }

    /** Different clusters share no byte. */
    lemma ClustersApart(c: nat, d: nat)
      requires HasCluster(c) && HasCluster(d) && c < d
      ensures Place(SectorOf(c)) + n * sector <= Place(SectorOf(d))
    {
      Multiple(d - c, n);
      assert (d - c) * n == (d - 2) * n - (c - 2) * n;
      InOrder(SectorOf(c) + n, SectorOf(d));
      InOrder(SectorOf(c), SectorOf(c) + n);
    }
  }

  /** The bytes of a sector after one has been written. */
  lemma SectorAfter(l: Layout, disk: seq<byte>, lba: nat, bytes: seq<byte>, other: nat)
    requires l.Valid() && |disk| == l.Place(l.sectors) && lba < l.sectors && other < l.sectors && |bytes| == l.sector
    ensures l.Place(lba) + l.sector <= |disk| && l.Place(other) + l.sector <= |disk|
    ensures Patched(disk, l.Place(lba), bytes)[l.Place(other)..l.Place(other) + l.sector]
            == if other == lba then bytes else disk[l.Place(other)..l.Place(other) + l.sector]
  {
    hide Patched;
    l.InOrder(lba, lba + 1);
    l.InOrder(lba + 1, l.sectors);
    l.InOrder(other, other + 1);
    l.InOrder(other + 1, l.sectors);
    if other < lba {
      l.InOrder(other + 1, lba);
    } else if lba < other {
      l.InOrder(lba + 1, other);
    }
    PatchedSlice(disk, l.Place(lba), bytes, l.Place(other), l.Place(other) + l.sector);
  }

  /** The bytes of a cluster after one has been written. */
  lemma ClusterAfter(l: Layout, disk: seq<byte>, c: nat, bytes: seq<byte>, d: nat)
    requires l.Valid() && |disk| == l.Place(l.sectors) && l.HasCluster(c) && l.HasCluster(d) && |bytes| == l.n * l.sector
    ensures l.Place(l.SectorOf(c)) + |bytes| <= |disk| && l.Place(l.SectorOf(d)) + |bytes| <= |disk|
    ensures Patched(disk, l.Place(l.SectorOf(c)), bytes)[l.Place(l.SectorOf(d))..l.Place(l.SectorOf(d)) + |bytes|]
            == if c == d then bytes else disk[l.Place(l.SectorOf(d))..l.Place(l.SectorOf(d)) + |bytes|]
  {
    hide Patched;
    l.ClusterFits(c);
    l.ClusterFits(d);
    if c < d {
      l.ClustersApart(c, d);
    } else if d < c {
      l.ClustersApart(d, c);
    }
    PatchedSlice(disk, l.Place(l.SectorOf(c)), bytes, l.Place(l.SectorOf(d)), l.Place(l.SectorOf(d)) + |bytes|);
  }

  ghost function ClusterIn(l: Layout, disk: seq<byte>, c: nat): (b: seq<byte>)
    requires l.Valid() && |disk| == l.Place(l.sectors)
    ensures |b| == l.n * l.sector
  {
    if l.HasCluster(c) then
      l.ClusterFits(c);
      disk[l.Place(l.SectorOf(c))..l.Place(l.SectorOf(c)) + l.n * l.sector]
    else seq(l.n * l.sector, _ => 0)
  }

  /** The clusters of a disk by number; numbers 0 and 1 belong to none. */
  ghost function Clusters(l: Layout, disk: seq<byte>): (d: seq<seq<byte>>)
    requires l.Valid() && |disk| == l.Place(l.sectors)
    ensures |d| == l.clusters + 2 && forall c | 0 <= c < |d| :: |d[c]| == l.n * l.sector
  {
    seq(l.clusters + 2, c requires 0 <= c < l.clusters + 2 => ClusterIn(l, disk, c))
  }

  lemma ClustersAt(l: Layout, disk: seq<byte>, c: nat)
    requires l.Valid() && |disk| == l.Place(l.sectors) && l.HasCluster(c)
    ensures l.Place(l.SectorOf(c)) + l.n * l.sector <= |disk|
    ensures Clusters(l, disk)[c] == disk[l.Place(l.SectorOf(c))..l.Place(l.SectorOf(c)) + l.n * l.sector]
  {
    l.ClusterFits(c);
  }

  /** Writing over the place of a cluster changes that cluster and no other. */
  lemma ClustersPatched(l: Layout, disk: seq<byte>, c: nat, bytes: seq<byte>)
    requires l.Valid() && |disk| == l.Place(l.sectors) && l.HasCluster(c) && |bytes| == l.n * l.sector
    ensures l.Place(l.SectorOf(c)) + |bytes| <= |disk|
    ensures Clusters(l, Patched(disk, l.Place(l.SectorOf(c)), bytes)) == Clusters(l, disk)[c := bytes]
  {
    hide Patched, Layout.Place, Layout.SectorOf;
    l.ClusterFits(c);
    var after := Patched(disk, l.Place(l.SectorOf(c)), bytes);
    forall d: nat | d < l.clusters + 2
      ensures Clusters(l, after)[d] == Clusters(l, disk)[c := bytes][d]
    {
      if l.HasCluster(d) {
        ClusterAfter(l, disk, c, bytes, d);
        ClustersAt(l, disk, d);
        ClustersAt(l, after, d);
      }
    }
  }

  // ----- The disk as it would be used without any buffer

  /** The first k clusters one after the other. */
  ghost function InARow(l: Layout, disk: seq<byte>, k: nat): seq<byte>
    requires l.Valid() && |disk| == l.Place(l.sectors) && k <= l.clusters
  {
    if k == 0 then [] else InARow(l, disk, k - 1) + ClusterIn(l, disk, k + 1)
  }

  lemma RowPlaces(l: Layout, k: nat)
    requires l.Valid() && k < l.clusters
    ensures l.HasCluster(k + 2) && l.SectorOf(k + 2) == l.first + k * l.n
    ensures l.Place(l.first + (k + 1) * l.n) == l.Place(l.SectorOf(k + 2)) + l.n * l.sector
    ensures 0 <= l.Place(l.first) <= l.Place(l.first + k * l.n)
    ensures l.Place(l.first + (k + 1) * l.n) <= l.Place(l.sectors)
  {
    l.ClusterFits(k + 2);
    Multiple(k, l.n);
    Multiple(k * l.n, l.sector);
    assert (k + 1) * l.n == k * l.n + l.n;
    assert (l.first + k * l.n) * l.sector == l.first * l.sector + k * l.n * l.sector;
  }

  /** The clusters lie on the disk in the order of their numbers, from cluster 2 at the first sector of the data on,
      without gaps. */
  lemma {:induction false} ClustersInOrder(l: Layout, disk: seq<byte>, k: nat)
    requires l.Valid() && |disk| == l.Place(l.sectors) && k <= l.clusters
    ensures 0 <= l.Place(l.first) <= l.Place(l.first + k * l.n) <= |disk|
    ensures InARow(l, disk, k) == disk[l.Place(l.first)..l.Place(l.first + k * l.n)]
  {
    if k > 0 {
      RowPlaces(l, k - 1);
      ClustersInOrder(l, disk, k - 1);
    } else {
      l.InOrder(l.first, l.sectors);
    }
  }


  /** The uses that the driver makes of its buffers: a sector or a cluster is looked at, or it is read, changed and
      written back at once; a cluster that is going to be filled is not read first. */
  datatype Use =
    | LookAtBlock(lba: nat)
    | ChangeBlock(lba: nat, at: nat, bytes: seq<byte>)
    | LookAtCluster(cluster: nat)
    | ChangeCluster(cluster: nat, at: nat, bytes: seq<byte>)
    | FillCluster(cluster: nat, all: seq<byte>)

  /** The bytes a look shows; none if there is no such sector or cluster. */
  ghost function Answer(l: Layout, disk: seq<byte>, use: Use): seq<byte>
    requires l.Valid() && |disk| == l.Place(l.sectors)
  {
    match use
    case LookAtBlock(lba) =>
      if 0 < lba < l.sectors then
        l.InOrder(lba, lba + 1);
        l.InOrder(lba + 1, l.sectors);
        disk[l.Place(lba)..l.Place(lba) + l.sector]
      else []
    case LookAtCluster(cluster) =>
      if l.HasCluster(cluster) then
        l.ClusterFits(cluster);
        disk[l.Place(l.SectorOf(cluster))..l.Place(l.SectorOf(cluster)) + l.n * l.sector]
      else []
    case _ => []
  }

  /** The disk after a change; nothing happens to a sector or cluster that there is not. */
  ghost function Changed(l: Layout, disk: seq<byte>, use: Use): (d: seq<byte>)
    requires l.Valid() && |disk| == l.Place(l.sectors)
    ensures |d| == |disk|
  {
    match use
    case ChangeBlock(lba, at, bytes) =>
      if 0 < lba < l.sectors && at + |bytes| <= l.sector then
        l.InOrder(lba, lba + 1);
        l.InOrder(lba + 1, l.sectors);
        Patched(disk, l.Place(lba) + at, bytes)
      else disk
    case ChangeCluster(cluster, at, bytes) =>
      if l.HasCluster(cluster) && at + |bytes| <= l.n * l.sector then
        l.ClusterFits(cluster);
        Patched(disk, l.Place(l.SectorOf(cluster)) + at, bytes)
      else disk
    case FillCluster(cluster, all) =>
      if l.HasCluster(cluster) && |all| == l.n * l.sector then
        l.ClusterFits(cluster);
        Patched(disk, l.Place(l.SectorOf(cluster)), all)
      else disk
    case _ => disk
  }

  ghost function ChangedAll(l: Layout, disk: seq<byte>, uses: seq<Use>): (d: seq<byte>)
    requires l.Valid() && |disk| == l.Place(l.sectors)
    ensures |d| == |disk|
  {
    if uses == [] then disk
    else Changed(l, ChangedAll(l, disk, uses[..|uses| - 1]), uses[|uses| - 1])
  }

  ghost function Answers(l: Layout, disk: seq<byte>, uses: seq<Use>): (a: seq<seq<byte>>)
    requires l.Valid() && |disk| == l.Place(l.sectors)
    ensures |a| == |uses|
  {
    if uses == [] then []
    else Answers(l, disk, uses[..|uses| - 1]) + [Answer(l, ChangedAll(l, disk, uses[..|uses| - 1]), uses[|uses| - 1])]
  }

  class Buffers {
    const layout: Layout
    const disk: array<byte>
    const block: array<byte>      // block_buffer
    const cluster: array<byte>    // cluster_buffer
    var blockLba: nat             // block_buffer_lba: the sector that the block buffer holds, 0 for none
    var clusterLba: nat           // cluster_buffer_lba: the first sector that the cluster buffer holds, 0 for none
    var clusterSector: nat        // cluster_sector: where write_cluster writes, 0 for nowhere

    ghost predicate Shape()
    {
      && layout.Valid() && disk.Length == layout.Place(layout.sectors)
      && block.Length == layout.sector && cluster.Length == layout.n * layout.sector
      && block != cluster && block != disk && cluster != disk
    }

    ghost function SectorBytes(lba: nat): seq<byte>
      requires Shape() && lba < layout.sectors
      reads disk
    {
      layout.InOrder(lba, lba + 1);
      layout.InOrder(lba + 1, layout.sectors);
      disk[layout.Place(lba)..layout.Place(lba) + layout.sector]
    }

    /** The block buffer holds what the disk holds. */
    ghost predicate BlockRight()
      requires Shape()
      reads this`blockLba, block, disk
    {
      blockLba != 0 ==> blockLba < layout.sectors && block[..] == SectorBytes(blockLba)
    }

    ghost predicate IsCluster(lba: nat)
    {
      exists c: nat :: layout.HasCluster(c) && lba == layout.SectorOf(c)
    }

    lemma ClusterInDisk(lba: nat)
      requires Shape() && IsCluster(lba)
      ensures 0 < lba < layout.sectors && layout.Place(lba) + layout.n * layout.sector <= disk.Length
    {
      var c: nat :| layout.HasCluster(c) && lba == layout.SectorOf(c);
      layout.ClusterFits(c);
    }

    ghost function ClusterBytes(lba: nat): seq<byte>
      requires Shape() && IsCluster(lba)
      reads disk
    {
      ClusterInDisk(lba);
      disk[layout.Place(lba)..layout.Place(lba) + layout.n * layout.sector]
    }

    ghost predicate ClusterRight()
      requires Shape()
      reads this`clusterLba, cluster, disk
    {
      clusterLba != 0 ==> IsCluster(clusterLba) && cluster[..] == ClusterBytes(clusterLba)
    }

    ghost predicate SelectedRight()
      reads this`clusterSector
    {
      clusterSector == 0 || IsCluster(clusterSector)
    }

    ghost predicate Valid()
      reads this, disk, block, cluster
    {
      Shape() && BlockRight() && ClusterRight() && SelectedRight()
    }

    constructor (l: Layout, bytes: array<byte>)
      requires l.Valid() && bytes.Length == l.Place(l.sectors)
      ensures Valid() && layout == l && disk == bytes && fresh(block) && fresh(cluster)
    {
      layout, disk := l, bytes;
      block := new byte[l.sector](_ => 0);
      cluster := new byte[l.n * l.sector](_ => 0);
      blockLba, clusterLba, clusterSector := 0, 0, 0;
    }

    // fat_io_read into one of the buffers, and memcpy from the other one.
    method Copy(src: array<byte>, from: nat, dst: array<byte>, to: nat, size: nat)
      requires src != dst && from + size <= src.Length && to + size <= dst.Length
      modifies dst
      ensures dst[..] == Patched(old(dst[..]), to, src[from..from + size])
      ensures to == 0 && size == dst.Length ==> dst[..] == src[from..from + size]
    {
      for p := 0 to size
        invariant forall q | 0 <= q < dst.Length :: dst[q] == if to <= q < to + p then src[from + (q - to)] else old(dst[q])
      {
        dst[to + p] := src[from + p];
      }
    }

    lemma SectorInDisk(lba: nat)
      requires Shape() && lba < layout.sectors
      ensures layout.Place(lba) + layout.sector <= disk.Length
    {
      layout.InOrder(lba, lba + 1);
      layout.InOrder(lba + 1, layout.sectors);
    }

    lemma FirstSector()
      requires Valid() && clusterLba != 0
      ensures clusterLba < layout.sectors && layout.sector <= cluster.Length
      ensures cluster[0..layout.sector] == cluster[..layout.sector] == SectorBytes(clusterLba)
    {
      ClusterInDisk(clusterLba);
      Multiple(layout.n, layout.sector);
      assert cluster[..layout.sector] == ClusterBytes(clusterLba)[..layout.sector];
    }

    /** read_block: the sector is in the block buffer, from the disk or from one of the buffers. */
    method ReadBlock(lba: nat) returns (ok: bool)
      requires Valid()
      modifies this`blockLba, block
      ensures Valid() && (ok <==> 0 < lba < layout.sectors)
      ensures ok ==> blockLba == lba && block[..] == SectorBytes(lba)
    {
      hide Patched, Layout.Place, Layout.SectorOf, ClusterBytes, IsCluster, Layout.Valid;
      if lba == 0 {
        return false;
      }
      if blockLba == lba {
        return true;
      }
      if clusterLba == lba {
        FirstSector();
        Copy(cluster, 0, block, 0, layout.sector);
        blockLba := lba;
        return true;
      }
      if lba >= layout.sectors {
        blockLba := 0;
        return false;
      }
      SectorInDisk(lba);
      Copy(disk, layout.Place(lba), block, 0, layout.sector);
      blockLba := lba;
      return true;
    }

    /** write_block, from a buffer that the caller may have changed: the buffer is right afterwards exactly if it is
        said to hold this sector, or none, or was right before. */
    method WriteBlock(lba: nat)
      requires Shape() && SelectedRight() && 0 < lba < layout.sectors
      modifies this`clusterLba, disk
      ensures Shape() && clusterLba == 0 && ClusterRight()
      ensures layout.Place(lba) + layout.sector <= disk.Length
      ensures disk[..] == Patched(old(disk[..]), layout.Place(lba), block[..])
      ensures BlockRight() <==> blockLba == 0 || blockLba == lba || old(BlockRight())
    {
      hide Patched, Layout.Place, Layout.SectorOf;
      clusterLba := 0;
      ghost var was := disk[..];
      SectorAfter(layout, was, lba, block[..], if blockLba < layout.sectors then blockLba else lba);
      Copy(block, 0, disk, layout.Place(lba), layout.sector);
      assert block[0..layout.sector] == block[..];
    }

    /** read_cluster: the cluster is in the cluster buffer, unless the caller is going to fill it. */
    method ReadCluster(c: nat, skip: bool) returns (ok: bool)
      requires Valid()
      modifies this`clusterLba, this`clusterSector, cluster
      ensures Valid() && (ok <==> layout.HasCluster(c))
      ensures ok ==> clusterSector == layout.SectorOf(c) != 0
      ensures ok ==> if skip then clusterLba == 0 else clusterLba == clusterSector && cluster[..] == ClusterBytes(clusterLba)
    {
      if !layout.HasCluster(c) {
        return false;
      }
      var lba := layout.SectorOf(c);
      layout.ClusterFits(c);
      assert IsCluster(lba);
      clusterSector := lba;
      if skip {
        clusterLba := 0;
        return true;
      }
      if clusterLba == lba {
        return true;
      }
      Copy(disk, layout.Place(lba), cluster, 0, layout.n * layout.sector);
      clusterLba := lba;
      return true;
    }

    ghost function ClusterAt(lba: nat): (c: nat)
      requires IsCluster(lba)
      ensures layout.HasCluster(c) && lba == layout.SectorOf(c)
    {
      var c: nat :| layout.HasCluster(c) && lba == layout.SectorOf(c);
      c
    }

    /** write_cluster, from a buffer that the caller may have changed: the buffer is right afterwards exactly if it is
        said to hold this cluster, or none, or was right before. */
    method WriteCluster() returns (ok: bool)
      requires Shape() && SelectedRight()
      modifies this`blockLba, disk
      ensures Shape() && (ok <==> clusterSector != 0) && (ok ==> BlockRight())
      ensures !ok ==> blockLba == old(blockLba) && disk[..] == old(disk[..])
      ensures ok ==>
                && layout.Place(clusterSector) + cluster.Length <= disk.Length
                && disk[..] == Patched(old(disk[..]), layout.Place(clusterSector), cluster[..])
                && (ClusterRight() <==> clusterLba == 0 || clusterLba == clusterSector || old(ClusterRight()))
    {
      hide Patched, Layout.Place, Layout.SectorOf, ClusterAt;
      if clusterSector == 0 {
        return false;
      }
      ghost var was, c := disk[..], ClusterAt(clusterSector);
      ghost var d := if clusterLba != 0 && IsCluster(clusterLba) then ClusterAt(clusterLba) else c;
      ClusterAfter(layout, was, c, cluster[..], d);
      blockLba := 0;
      Copy(cluster, 0, disk, layout.Place(clusterSector), cluster.Length);
      assert cluster[0..cluster.Length] == cluster[..];
      return true;
    }

    // The caller's changes to a buffer.
    method Put(buffer: array<byte>, at: nat, bytes: seq<byte>)
      requires at + |bytes| <= buffer.Length
      modifies buffer
      ensures buffer[..] == Patched(old(buffer[..]), at, bytes)
    {
      for p := 0 to |bytes|
        invariant forall q | 0 <= q < buffer.Length :: buffer[q] == if at <= q < at + p then bytes[q - at] else old(buffer[q])
      {
        buffer[at + p] := bytes[p];
      }
    }

    // As write_record_buffer does it.
    method DoChangeBlock(lba: nat, at: nat, bytes: seq<byte>)
      requires Valid()
      modifies this, disk, block
      ensures Valid() && disk[..] == old(Changed(layout, disk[..], ChangeBlock(lba, at, bytes)))
    {
      hide Patched, Layout.Place, Layout.SectorOf, ClusterBytes, IsCluster;
      var ok := ReadBlock(lba);
      if ok && at + |bytes| <= layout.sector {
        ghost var d := disk[..];
        Put(block, at, bytes);
        WriteBlock(lba);
        PatchedWithin(d, layout.Place(lba), layout.Place(lba) + layout.sector, at, bytes);
      }
    }

    // As delete_extra_clusters does it.
    method DoChangeCluster(c: nat, at: nat, bytes: seq<byte>)
      requires Valid()
      modifies this, disk, cluster
      ensures Valid() && disk[..] == old(Changed(layout, disk[..], ChangeCluster(c, at, bytes)))
    {
      hide Patched, Layout.Place, Layout.SectorOf, IsCluster, ClusterAt;
      var ok := ReadCluster(c, false);
      if ok && at + |bytes| <= cluster.Length {
        layout.ClusterFits(c);
        ghost var d, lba := disk[..], clusterSector;
        Put(cluster, at, bytes);
        var written := WriteCluster();
        PatchedWithin(d, layout.Place(lba), layout.Place(lba) + cluster.Length, at, bytes);
      }
    }

    // As append_cluster and delete_clusters do it.
    method DoFillCluster(c: nat, all: seq<byte>)
      requires Valid()
      modifies this, disk, cluster
      ensures Valid() && disk[..] == old(Changed(layout, disk[..], FillCluster(c, all)))
    {
      hide Patched, Layout.Place, Layout.SectorOf, ClusterBytes, IsCluster, ClusterAt;
      if |all| != cluster.Length {
        return;
      }
      var ok := ReadCluster(c, true);
      if ok {
        layout.ClusterFits(c);
        AllPatched(cluster[..], all);
        Put(cluster, 0, all);
        var written := WriteCluster();
      }
    }

    /** One use: it shows and does what it would show and do without buffers. */
    method Do(use: Use) returns (answer: seq<byte>)
      requires Valid()
      modifies this, disk, block, cluster
      ensures Valid()
      ensures answer == old(Answer(layout, disk[..], use)) && disk[..] == old(Changed(layout, disk[..], use))
    {
      answer := [];
      match use {
        case LookAtBlock(lba) =>
          var ok := ReadBlock(lba);
          answer := if ok then block[..] else [];
        case ChangeBlock(lba, at, bytes) =>
          DoChangeBlock(lba, at, bytes);
        case LookAtCluster(c) =>
          var ok := ReadCluster(c, false);
          answer := if ok then cluster[..] else [];
        case ChangeCluster(c, at, bytes) =>
          DoChangeCluster(c, at, bytes);
        case FillCluster(c, all) =>
          DoFillCluster(c, all);
      }
    }

    /** Any interleaving of uses: the buffers are right, and every look and the disk in the end are those of a disk
        without buffers. */
    method Run(uses: seq<Use>) returns (answers: seq<seq<byte>>)
      requires Valid()
      modifies this, disk, block, cluster
      ensures Valid()
      ensures answers == old(Answers(layout, disk[..], uses)) && disk[..] == old(ChangedAll(layout, disk[..], uses))
    {
      answers := [];
      ghost var d := disk[..];
      for i := 0 to |uses|
        invariant Valid()
        invariant answers == Answers(layout, d, uses[..i]) && disk[..] == ChangedAll(layout, d, uses[..i])
      {
        var answer := Do(uses[i]);
        answers := answers + [answer];
        assert uses[..i + 1][..i] == uses[..i];
      }
      assert uses[..|uses|] == uses;
    }
  }
}
