/** Reading and seeking in an open file (common/fat.c).  The descriptor keeps a hint of where in the chain the
    last read was, and the volume keeps a cluster in a buffer: neither shows in what is read.
 */
module FatFiles {
  import opened Machine
  import opened Sequences
  import opened Arithmetic
  import opened FatCells
  import opened FatTables
  import opened FatChains
  import opened FatVolumes

  const WORD_LIMIT: nat := 0x1_0000_0000
  const MAXIMUM_OFFSET: nat := 0xFFFF_FFFE   // maximum_file_size - 1

  // ----- Reading from the start of the chain

  datatype Place = At(cluster: nat) | Nowhere

  /** The n-th cluster of a file as the links from its first cluster lead there. */
  ghost function Reach(t: seq<nat>, first: nat, n: nat): (p: Place)
    decreases n
  {
    if n == 0 then At(first)
    else
      match Reach(t, first, n - 1)
      case Nowhere => Nowhere
      case At(k) => if IsLink(Lookup(t, k)) then At(Lookup(t, k)) else Nowhere
  }

  /** The table has the n-th cluster of the file. */
  ghost predicate Readable(t: seq<nat>, first: nat, n: nat)
  {
    var p := Reach(t, first, n);
    p.At? && 2 <= p.cluster < |t|
  }

  function Least(a: nat, b: nat): (m: nat)
    ensures m <= a && m <= b && (m == a || m == b)
  {
    if a <= b then a else b
  }

  /** The bytes that a read takes, from byte o of the k-th cluster on: at most `limit` bytes and as far as the
      links lead. */
  ghost function Taken(t: seq<nat>, data: seq<seq<byte>>, first: nat, size: nat, k: nat, o: nat, limit: nat): (b: seq<byte>)
    requires o < size && |data| == |t| && AllSized(data, size)
    ensures |b| <= limit
    decreases limit
  {
    if limit == 0 || !Readable(t, first, k) then []
    else
      var step := Least(limit, size - o);
      data[Reach(t, first, k).cluster][o..o + step] + Taken(t, data, first, size, k + 1, 0, limit - step)
  }

  /** The read is complete, or it comes to an end mark; otherwise to a broken link. */
  ghost predicate EndsWell(t: seq<nat>, first: nat, size: nat, k: nat, o: nat, limit: nat)
    requires o < size
    decreases limit
  {
    limit == 0
    || (Readable(t, first, k) &&
        (limit <= size - o || Lookup(t, Reach(t, first, k).cluster) >= FIRST_END
         || EndsWell(t, first, size, k + 1, 0, limit - (size - o))))
  }

  lemma {:induction false} NowhereOn(t: seq<nat>, first: nat, n: nat, m: nat)
    requires n <= m && Reach(t, first, n).Nowhere?
    ensures Reach(t, first, m).Nowhere?
    decreases m
  {
    if n < m {
      NowhereOn(t, first, n, m - 1);
    }
  }

  lemma {:induction false} ReachChain(t: seq<nat>, c: seq<nat>, n: nat)
    requires IsChain(t, c) && |t| <= FIRST_END && n < |c|
    ensures Reach(t, c[0], n) == At(c[n]) && Readable(t, c[0], n)
    decreases n
  {
    if n > 0 {
      ReachChain(t, c, n - 1);
      assert t[c[n - 1]] == c[n];
    }
  }

  // ----- What a file holds

  /** The clusters of the chain, one after the other. */
  ghost function Concat(data: seq<seq<byte>>, c: seq<nat>): (b: seq<byte>)
    requires forall k | 0 <= k < |c| :: c[k] < |data|
  {
    if c == [] then [] else data[c[0]] + Concat(data, c[1..])
  }

  /** The chain holds a file of this length, which is empty if it has no chain. */
  ghost predicate Holds(t: seq<nat>, data: seq<seq<byte>>, c: seq<nat>, first: nat, bytes: nat, size: nat)
  {
    && |data| == |t| && AllSized(data, size) && |t| <= FIRST_END
    && (bytes > 0 ==> IsChain(t, c) && c[0] == first && bytes <= |c| * size)
  }

  lemma {:induction false} ConcatLength(data: seq<seq<byte>>, c: seq<nat>, size: nat)
    requires AllSized(data, size) && forall k | 0 <= k < |c| :: c[k] < |data|
    ensures |Concat(data, c)| == |c| * size
  {
    if c != [] {
      ConcatLength(data, c[1..], size);
      assert |c| * size == size + (|c| - 1) * size;
    }
  }

  ghost function Contents(t: seq<nat>, data: seq<seq<byte>>, c: seq<nat>, first: nat, bytes: nat, size: nat): (b: seq<byte>)
    requires Holds(t, data, c, first, bytes, size)
    ensures |b| == bytes
  {
    if bytes == 0 then []
    else
      ConcatLength(data, c, size);
      Concat(data, c)[..bytes]
  }

  lemma {:induction false} ConcatSplit(data: seq<seq<byte>>, c: seq<nat>, n: nat)
    requires n <= |c| && forall k | 0 <= k < |c| :: c[k] < |data|
    ensures Concat(data, c) == Concat(data, c[..n]) + Concat(data, c[n..])
    decreases n
  {
    if n == 0 {
      assert c[..0] == [] && c[0..] == c;
    } else {
      ConcatSplit(data, c[1..], n - 1);
      assert c[1..][..n - 1] == c[..n][1..] && c[1..][n - 1..] == c[n..];
    }
  }

  lemma ConcatBehind(data: seq<seq<byte>>, c: seq<nat>, k: nat)
    requires k <= |c| && forall k | 0 <= k < |c| :: c[k] < |data|
    ensures k == |c| ==> Concat(data, c[k..]) == []
  {
    if k == |c| {
      assert c[k..] == [];
    }
  }

  lemma ConcatStep(data: seq<seq<byte>>, c: seq<nat>, k: nat)
    requires k < |c| && forall k | 0 <= k < |c| :: c[k] < |data|
    ensures Concat(data, c[k..]) == data[c[k]] + Concat(data, c[k + 1..])
  {
    assert c[k..][1..] == c[k + 1..];
  }

  lemma AllInData(data: seq<seq<byte>>, t: seq<nat>, c: seq<nat>, size: nat)
    requires |data| == |t| && AllSized(data, size) && IsChain(t, c)
    ensures c != [] && forall k | 0 <= k < |c| :: c[k] < |data| && |data[c[k]]| == size
  {
  }

  lemma TakenStep(t: seq<nat>, data: seq<seq<byte>>, first: nat, size: nat, k: nat, o: nat, limit: nat)
    requires o < size && |data| == |t| && AllSized(data, size)
    ensures limit == 0 ==> Taken(t, data, first, size, k, o, limit) == [] && EndsWell(t, first, size, k, o, limit)
    ensures limit > 0 && !Readable(t, first, k) ==>
              Taken(t, data, first, size, k, o, limit) == [] && !EndsWell(t, first, size, k, o, limit)
    ensures limit > 0 && Readable(t, first, k) ==>
              var place, step := Reach(t, first, k), Least(limit, size - o);
              && place.At? && 2 <= place.cluster < |t| && |data[place.cluster]| == size
              && Taken(t, data, first, size, k, o, limit)
                 == data[place.cluster][o..o + step] + Taken(t, data, first, size, k + 1, 0, limit - step)
              && EndsWell(t, first, size, k, o, limit)
                 == (limit <= size - o || Lookup(t, place.cluster) >= FIRST_END
                     || EndsWell(t, first, size, k + 1, 0, limit - step))
  {
    hide Lookup;
  }

  lemma SliceOfTwo<T>(a: seq<T>, b: seq<T>, o: nat, limit: nat)
    requires o <= |a| && o + limit <= |a| + |b|
    ensures (a + b)[o..o + limit] == if limit <= |a| - o then a[o..o + limit] else a[o..] + b[..limit - (|a| - o)]
  {
  }

  lemma SliceFrom<T>(a: seq<T>, b: seq<T>, o: nat, limit: nat)
    requires o + limit <= |b|
    ensures (a + b)[|a| + o..|a| + o + limit] == b[o..o + limit]
  {
  }

  /** From any place of a chain, a read within it takes exactly the next bytes. */
  lemma {:induction false} TakenChain(t: seq<nat>, data: seq<seq<byte>>, c: seq<nat>, size: nat, k: nat, o: nat, limit: nat)
    requires o < size && |data| == |t| && AllSized(data, size) && |t| <= FIRST_END && IsChain(t, c)
    requires k <= |c| && (limit > 0 ==> o + limit <= |Concat(data, c[k..])|)
    ensures limit > 0 ==> Taken(t, data, c[0], size, k, o, limit) == Concat(data, c[k..])[o..o + limit]
    ensures EndsWell(t, c[0], size, k, o, limit)
    decreases limit
  {
    hide *;
    AllInData(data, t, c, size);
    TakenStep(t, data, c[0], size, k, o, limit);
    ConcatBehind(data, c, k);
    if limit > 0 {
      ReachChain(t, c, k);
      var step := Least(limit, size - o);
      ConcatStep(data, c, k);
      var here, rest := data[c[k]], Concat(data, c[k + 1..]);
      TakenChain(t, data, c, size, k + 1, 0, limit - step);
      SliceOfTwo(here, rest, o, limit);
    }
  }

  /** A read within the file is the slice of its contents. */
  lemma TakenIsSlice(t: seq<nat>, data: seq<seq<byte>>, c: seq<nat>, first: nat, bytes: nat, size: nat,
                     offset: nat, limit: nat)
    requires size > 0 && Holds(t, data, c, first, bytes, size) && limit > 0 && offset + limit <= bytes
    ensures Taken(t, data, first, size, offset / size, offset % size, limit)
            == Contents(t, data, c, first, bytes, size)[offset..offset + limit]
    ensures EndsWell(t, first, size, offset / size, offset % size, limit)
  {
    hide Taken, EndsWell, Concat;
    var k, o := offset / size, offset % size;
    assert offset == k * size + o;
    QuotientRange(offset, size, 0, |c|);
    ConcatSplit(data, c, k);
    ConcatLength(data, c, size);
    ConcatLength(data, c[..k], size);
    var all, before, rest := Concat(data, c), Concat(data, c[..k]), Concat(data, c[k..]);
    assert all == before + rest && |before| == k * size;
    TakenChain(t, data, c, size, k, o, limit);
    SliceFrom(before, rest, o, limit);
    assert all[..bytes][offset..offset + limit] == all[offset..offset + limit];
  }

  // ----- fat_read

  /** The hint of the descriptor is a place on the way from its first cluster. */
  ghost predicate HintRight(t: seq<nat>, file: File)
    reads file
  {
    file.clusterIdx != 0 ==> Reach(t, file.first, file.clusterIdx) == At(file.clusterVal)
  }

  /** The end-of-file mark is only set at the end. */
  ghost predicate Ready(t: seq<nat>, file: File)
    reads file
  {
    HintRight(t, file) && file.bytes < WORD_LIMIT && file.eof <= 1 && (file.eof == 1 ==> file.bytes <= file.offset)
  }

  /** How many bytes a read asks of the clusters. */
  function Limit(bytes: nat, offset: nat, requested: nat): (limit: nat)
  {
    if bytes <= offset then 0 else Least(bytes - offset, requested)
  }

  lemma IndexInFile(offset: nat, bytes: nat, size: nat)
    requires size > 0 && offset < bytes
    ensures offset / size < ClustersFor(bytes, size)
  {
    var q := bytes / size;
    assert bytes == q * size + bytes % size;
    if bytes % size == 0 {
      QuotientRange(offset, size, 0, q);
    } else {
      assert (q + 1) * size == q * size + size;
      QuotientRange(offset, size, 0, q + 1);
    }
  }

  // The first loop of fat_read, from the hint if it is of use.
  method FindCluster(v: Volume, file: File) returns (found: bool, cluster: nat)
    requires v.Valid() && HintRight(v.Cells(), file) && file.offset < file.bytes
    modifies v.table`offset, v.table.buffer, v.table.dirty, v.table.disk1, v.table.disk2
    ensures v.Valid() && v.table.Flat() == old(v.table.Flat())
    ensures found <==> Reach(v.Cells(), file.first, file.offset / v.size).At?
    ensures found ==> Reach(v.Cells(), file.first, file.offset / v.size) == At(cluster)
    ensures old(v.Mirrored()) ==> v.Mirrored()
    ensures old(v.table.OnDisk()) ==> v.table.OnDisk()
  {
    hide Table.Geometry, Table.Valid, Table.Flat, Entries, Table.OnDisk;
    ghost var t := v.Cells();
    var readIndex: nat, fileClusters := file.offset / v.size, ClustersFor(file.bytes, v.size);
    var i: nat := 0;
    cluster := file.first;
    if file.clusterIdx != 0 {
      if file.clusterIdx <= readIndex {
        i, cluster := file.clusterIdx, file.clusterVal;
      }
    }
    IndexInFile(file.offset, file.bytes, v.size);
    while i < fileClusters
      invariant i <= readIndex
      invariant v.Valid() && v.table.Flat() == old(v.table.Flat())
      invariant Reach(t, file.first, i) == At(cluster)
      invariant old(v.Mirrored()) ==> v.Mirrored()
      invariant old(v.table.OnDisk()) ==> v.table.OnDisk()
      decreases fileClusters - i
    {
      if i == readIndex {
        return true, cluster;
      }
      cluster := v.table.Get(cluster);
      if !IsLink(cluster) {
        NowhereOn(t, file.first, i + 1, readIndex);
        return false, cluster;
      }
      i := i + 1;
    }
    assert false;
  }

  /** What a destination holds; a null destination holds nothing. */
  ghost function View(buf: array?<byte>): seq<byte>
    reads buf
  {
    if buf == null then [] else buf[..]
  }

  /** The destination after bytes have been put there; nothing is put into a null destination. */
  ghost function Put(dst: seq<byte>, at: nat, piece: seq<byte>): (r: seq<byte>)
    ensures |r| == |dst|
  {
    if at + |piece| <= |dst| then dst[..at] + piece + dst[at + |piece|..] else dst
  }

  lemma PutMore(dst: seq<byte>, a: seq<byte>, b: seq<byte>)
    requires |a| + |b| <= |dst| || dst == []
    ensures Put(Put(dst, 0, a), |a|, b) == Put(dst, 0, a + b)
  {
  }

  lemma PutIs(dst: seq<byte>, at: nat, piece: seq<byte>, r: seq<byte>)
    requires at + |piece| <= |dst| == |r|
    requires forall q | 0 <= q < |dst| :: r[q] == if at <= q < at + |piece| then piece[q - at] else dst[q]
    ensures r == Put(dst, at, piece)
  {
  }

  lemma ViewLength(buf: array?<byte>)
    ensures if buf == null then View(buf) == [] else |View(buf)| == buf.Length
  {
  }

  lemma PutNothing(dst: seq<byte>)
    ensures Put(dst, 0, []) == dst
  {
  }

  // The two inner loops of fat_read: out of the cluster buffer, to nowhere if there is no destination.
  method CopyOut(v: Volume, buf: array?<byte>, from: nat, at: nat, limit: nat) returns (readBytes: nat)
    requires v.Shape() && from < v.size && at < limit
    requires v.Foreign(buf) && (buf != null ==> limit <= buf.Length)
    modifies buf
    ensures readBytes == at + Least(limit - at, v.size - from)
    ensures View(buf) == Put(old(View(buf)), at, v.buffers.cluster[from..from + (readBytes - at)])
  {
    hide Table.Geometry, Put;
    var offset: nat := from;
    readBytes := at;
    ghost var start := from - at;
    while offset < v.size
      invariant readBytes < limit && offset == readBytes + start
      invariant at <= readBytes && from <= offset <= v.size
      invariant buf != null ==> forall q | 0 <= q < buf.Length ::
                  buf[q] == if at <= q < readBytes then v.buffers.cluster[from + (q - at)] else old(buf[q])
    {
      if buf != null {
        buf[readBytes] := v.buffers.cluster[offset];
      }
      offset := offset + 1;
      readBytes := readBytes + 1;
      if !(readBytes < limit) {
        break;
      }
    }
    if buf != null {
      PutIs(old(buf[..]), at, v.buffers.cluster[from..from + (readBytes - at)], buf[..]);
    }
  }

  // The body of the main loop of fat_read: a cluster into the buffer, the hint, and the bytes.
  method TakeCluster(v: Volume, file: File, buf: array?<byte>, cluster: nat, offset: nat, at: nat, limit: nat)
    returns (status: Status, next: nat)
    requires v.Valid() && offset < v.size && at < limit
    requires buf != null ==> limit <= buf.Length
    requires v.Foreign(buf)
    modifies file`clusterIdx, file`clusterVal, v.buffers`clusterLba, v.buffers`clusterSector, v.buffers.cluster, buf
    ensures v.Valid()
    ensures status == if 2 <= cluster < v.Count() then Ok else InconsistentState
    ensures status != Ok ==>
              View(buf) == old(View(buf)) && file.clusterIdx == old(file.clusterIdx) && file.clusterVal == old(file.clusterVal)
    ensures status == Ok ==>
              && file.clusterIdx == (file.offset + at) / v.size && file.clusterVal == cluster
              && next == at + Least(limit - at, v.size - offset) && |v.Data()[cluster]| == v.size
              && View(buf) == Put(old(View(buf)), at, v.Data()[cluster][offset..offset + (next - at)])
  {
    hide Table.Geometry, Table.Valid, Put;
    status := v.ReadCluster(cluster, false);
    next := at;
    if status != Ok {
      return;
    }
    file.clusterIdx := (file.offset + at) / v.size;
    file.clusterVal := cluster;
    next := CopyOut(v, buf, offset, at, limit);
  }

  // memset of a part of the destination.
  method ClearRange(buf: array<byte>, from: nat, to: nat)
    requires from <= to <= buf.Length
    modifies buf
    ensures View(buf) == Put(old(View(buf)), from, NoBytes(to - from))
  {
    for p := from to to
      invariant forall q | 0 <= q < buf.Length :: buf[q] == if from <= q < p then 0 else old(buf[q])
    {
      buf[p] := 0;
    }
  }

  // get_table_value
  method Follow(v: Volume, cluster: nat) returns (next: nat)
    requires v.Valid()
    modifies v.table`offset, v.table.buffer, v.table.dirty, v.table.disk1, v.table.disk2
    ensures v.Valid() && v.table.Flat() == old(v.table.Flat())
    ensures next == Lookup(v.Cells(), cluster)
    ensures old(v.Mirrored()) ==> v.Mirrored()
    ensures old(v.table.OnDisk()) ==> v.table.OnDisk()
  {
    hide Table.Geometry, Table.Valid, Table.Flat, Entries, Table.OnDisk;
    next := v.table.Get(cluster);
  }

  /** A read under way: `pre` has been taken of the whole, and `left` bytes are still wanted. */
  ghost predicate Progress(t: seq<nat>, data: seq<seq<byte>>, first: nat, size: nat, k: nat, o: nat, left: nat,
                           pre: seq<byte>, whole: seq<byte>)
  {
    && |data| == |t| && AllSized(data, size) && o < size
    && whole == pre + Taken(t, data, first, size, k, o, left)
  }

  /** Where the main loop is: at the k-th cluster, or behind a broken link. */
  ghost predicate Cursor(t: seq<nat>, first: nat, k: nat, cluster: nat)
  {
    Reach(t, first, k) == At(cluster) || (Reach(t, first, k).Nowhere? && !IsLink(cluster))
  }

  lemma StartRead(t: seq<nat>, data: seq<seq<byte>>, first: nat, size: nat, k: nat, o: nat, limit: nat, cluster: nat)
    requires |data| == |t| && AllSized(data, size) && o < size && Reach(t, first, k) == At(cluster)
    ensures Progress(t, data, first, size, k, o, limit, [], Taken(t, data, first, size, k, o, limit))
    ensures Cursor(t, first, k, cluster)
  {
    hide Taken, Reach;
    assert [] + Taken(t, data, first, size, k, o, limit) == Taken(t, data, first, size, k, o, limit);
  }

  /** One cluster further. */
  lemma Advance(t: seq<nat>, data: seq<seq<byte>>, first: nat, size: nat, k: nat, o: nat, left: nat,
                pre: seq<byte>, whole: seq<byte>)
    requires Progress(t, data, first, size, k, o, left, pre, whole) && left > 0 && Readable(t, first, k)
    ensures var place, step := Reach(t, first, k), Least(left, size - o);
            && place.At? && place.cluster < |data| && |data[place.cluster]| == size && o + step <= size
            && Progress(t, data, first, size, k + 1, 0, left - step, pre + data[place.cluster][o..o + step], whole)
  {
    hide Taken, EndsWell, Reach;
    TakenStep(t, data, first, size, k, o, left);
    var step := Least(left, size - o);
    ConcatAssociative(pre, data[Reach(t, first, k).cluster][o..o + step], Taken(t, data, first, size, k + 1, 0, left - step));
  }

  lemma AdvanceLink(t: seq<nat>, first: nat, size: nat, k: nat, o: nat, left: nat, next: nat)
    requires o < size && left > 0 && Readable(t, first, k) && next == Lookup(t, Reach(t, first, k).cluster)
    ensures Cursor(t, first, k + 1, next)
    ensures var well := EndsWell(t, first, size, k, o, left);
            if next >= FIRST_END then well && !Readable(t, first, k + 1)
            else well == EndsWell(t, first, size, k + 1, 0, left - Least(left, size - o))
  {
  }

  lemma BrokenLink(t: seq<nat>, first: nat, size: nat, k: nat, o: nat, left: nat)
    requires o < size && left > 0 && !Readable(t, first, k)
    ensures !EndsWell(t, first, size, k, o, left)
  {
  }

  lemma Finished(t: seq<nat>, data: seq<seq<byte>>, first: nat, size: nat, k: nat, o: nat, left: nat,
                 pre: seq<byte>, whole: seq<byte>)
    requires Progress(t, data, first, size, k, o, left, pre, whole) && (left == 0 || !Readable(t, first, k))
    ensures whole == pre
    ensures left == 0 ==> EndsWell(t, first, size, k, o, left)
  {
    hide Reach;
    assert pre + [] == pre;
  }

  lemma NextMultiple(k: nat, size: nat)
    ensures (k + 1) * size == k * size + size
  {
  }

  lemma VolumeFacts(v: Volume)
    requires v.Valid()
    ensures v.Shape() && v.size > 0 && v.Count() == |v.Cells()| <= FIRST_END && AllSized(v.Data(), v.size)
    ensures v.buffers.cluster.Length == v.size
    ensures v.Apart(v.buffers.disk) && v.Apart(v.buffers.cluster) && v.buffers.disk != v.buffers.cluster
  {
  }

  lemma CursorReads(t: seq<nat>, first: nat, k: nat, cluster: nat)
    requires Cursor(t, first, k, cluster) && |t| <= FIRST_END
    ensures Readable(t, first, k) <==> 2 <= cluster < |t|
    ensures 2 <= cluster < |t| ==> Reach(t, first, k) == At(cluster)
  {
  }

  // The main loop of fat_read.
  method ReadClusters(v: Volume, file: File, buf: array?<byte>, first: nat, limit: nat) returns (status: Status, readBytes: nat)
    requires v.Valid() && file.bytes < WORD_LIMIT
    requires 0 < limit <= file.bytes - file.offset
    requires Reach(v.Cells(), file.first, file.offset / v.size) == At(first)
    requires HintRight(v.Cells(), file)
    requires buf != null ==> limit <= buf.Length
    requires v.Foreign(buf)
    modifies file`clusterIdx, file`clusterVal, v.buffers`clusterLba, v.buffers`clusterSector, v.buffers.cluster, buf
    modifies v.table`offset, v.table.buffer, v.table.dirty, v.table.disk1, v.table.disk2
    ensures v.Valid() && v.table.Flat() == old(v.table.Flat())
    ensures HintRight(v.Cells(), file)
    ensures AllSized(v.Data(), v.size) &&
            var k, o := file.offset / v.size, file.offset % v.size;
            var taken := Taken(v.Cells(), v.Data(), file.first, v.size, k, o, limit);
            && readBytes == |taken|
            && status == (if EndsWell(v.Cells(), file.first, v.size, k, o, limit) then Ok else InconsistentState)
            && View(buf) == Put(old(View(buf)), 0, taken)
    ensures old(v.Mirrored()) ==> v.Mirrored()
    ensures old(v.table.OnDisk()) ==> v.table.OnDisk()
  {
    hide Table.Geometry, Table.Valid, Table.Flat, Entries, Table.OnDisk, Taken, EndsWell, Reach, Readable, Lookup, Progress, Cursor;
    hide Volume.Valid, Volume.Shape, Volume.Mirrored, AllSized, Put, View;
    VolumeFacts(v);
    hide Volume.Data;
    PutNothing(View(buf));
    ViewLength(buf);
    ghost var t, data, k: nat := v.Cells(), v.Data(), file.offset / v.size;
    var offset: nat, cluster: nat := file.offset % v.size, first;
    ghost var whole := Taken(t, data, file.first, v.size, k, offset, limit);
    ghost var well := EndsWell(t, file.first, v.size, k, offset, limit);
    ghost var pre: seq<byte> := [];
    status, readBytes := Ok, 0;
    StartRead(t, data, file.first, v.size, k, offset, limit, cluster);
    while readBytes < limit
      invariant v.Valid() && v.table.Flat() == old(v.table.Flat()) && HintRight(t, file)
      invariant readBytes <= limit && offset < v.size
      invariant readBytes < limit ==> file.offset + readBytes == k * v.size + offset
      invariant |pre| == readBytes && View(buf) == Put(old(View(buf)), 0, pre)
      invariant Progress(t, data, file.first, v.size, k, offset, limit - readBytes, pre, whole)
      invariant well == EndsWell(t, file.first, v.size, k, offset, limit - readBytes)
      invariant Cursor(t, file.first, k, cluster) && status == Ok
      invariant old(v.Mirrored()) ==> v.Mirrored()
      invariant old(v.table.OnDisk()) ==> v.table.OnDisk()
    {
      var next;
      status, next := TakeCluster(v, file, buf, cluster, offset, readBytes, limit);
      CursorReads(t, file.first, k, cluster);
      if status != Ok {
        BrokenLink(t, file.first, v.size, k, offset, limit - readBytes);
        break;
      }
      DivUnique(file.offset + readBytes, v.size, k, offset);
      ghost var piece := data[cluster][offset..offset + (next - readBytes)];
      cluster := Follow(v, cluster);
      Advance(t, data, file.first, v.size, k, offset, limit - readBytes, pre, whole);
      AdvanceLink(t, file.first, v.size, k, offset, limit - readBytes, cluster);
      NextMultiple(k, v.size);
      PutMore(old(View(buf)), pre, piece);
      pre := pre + piece;
      readBytes := next;
      offset := 0;
      k := k + 1;
      if cluster >= FIRST_END {
        break;
      }
    }
    Finished(t, data, file.first, v.size, k, offset, limit - readBytes, pre, whole);
  }

  /** A read has something to do and no cluster to start with: then the destination is left alone. */
  ghost predicate Lost(t: seq<nat>, first: nat, size: nat, offset: nat, limit: nat)
    requires size > 0
  {
    limit > 0 && Reach(t, first, offset / size).Nowhere?
  }

  /** The bytes that a read delivers from an offset on. */
  ghost function Delivered(t: seq<nat>, data: seq<seq<byte>>, first: nat, bytes: nat, size: nat, offset: nat, requested: nat): (b: seq<byte>)
    requires size > 0 && |data| == |t| && AllSized(data, size)
    ensures |b| <= requested
  {
    Taken(t, data, first, size, offset / size, offset % size, Limit(bytes, offset, requested))
  }

  /** The links are good for the whole read, or end with an end mark. */
  ghost predicate LinksGood(t: seq<nat>, first: nat, bytes: nat, size: nat, offset: nat, requested: nat)
    requires size > 0
  {
    EndsWell(t, first, size, offset / size, offset % size, Limit(bytes, offset, requested))
  }

  lemma DeliversNothing(t: seq<nat>, data: seq<seq<byte>>, first: nat, bytes: nat, size: nat, offset: nat, requested: nat)
    requires size > 0 && |data| == |t| && AllSized(data, size)
    ensures Limit(bytes, offset, requested) == 0 ==>
              Delivered(t, data, first, bytes, size, offset, requested) == [] && LinksGood(t, first, bytes, size, offset, requested)
    ensures Lost(t, first, size, offset, Limit(bytes, offset, requested)) ==>
              Delivered(t, data, first, bytes, size, offset, requested) == [] && !LinksGood(t, first, bytes, size, offset, requested)
  {
    hide Reach;
  }

  // memset of the rest of the destination.
  method ZeroRest(buf: array?<byte>, got: nat, requested: nat, ghost was: seq<byte>, ghost taken: seq<byte>)
    requires buf != null ==> requested <= buf.Length
    requires got == |taken| <= requested && View(buf) == Put(was, 0, taken)
    modifies buf
    ensures View(buf) == Put(was, 0, taken + NoBytes(requested - got))
  {
    hide Put;
    ViewLength(buf);
    PutMore(was, taken, NoBytes(requested - got));
    if got < requested {
      if buf != null {
        ClearRange(buf, got, requested);
      }
    } else {
      assert taken + NoBytes(0) == taken;
    }
  }

  // The part of the read that is about the clusters, and the zeros behind it.
  method ReadFrom(v: Volume, file: File, requested: nat, buf: array?<byte>, first: nat) returns (status: Status, got: nat)
    requires v.Valid() && file.bytes < WORD_LIMIT && file.offset < file.bytes && requested > 0
    requires Reach(v.Cells(), file.first, file.offset / v.size) == At(first)
    requires HintRight(v.Cells(), file)
    requires buf != null ==> requested <= buf.Length
    requires v.Foreign(buf)
    modifies file`clusterIdx, file`clusterVal, v.buffers`clusterLba, v.buffers`clusterSector, v.buffers.cluster, buf
    modifies v.table`offset, v.table.buffer, v.table.dirty, v.table.disk1, v.table.disk2
    ensures v.Valid() && v.table.Flat() == old(v.table.Flat())
    ensures HintRight(v.Cells(), file)
    ensures AllSized(v.Data(), v.size) &&
            var bytes := Delivered(v.Cells(), v.Data(), file.first, file.bytes, v.size, file.offset, requested);
            && got == |bytes|
            && status == (if LinksGood(v.Cells(), file.first, file.bytes, v.size, file.offset, requested) then Ok
                          else InconsistentState)
            && View(buf) == Put(old(View(buf)), 0, bytes + NoBytes(requested - got))
    ensures old(v.Mirrored()) ==> v.Mirrored()
    ensures old(v.table.OnDisk()) ==> v.table.OnDisk()
  {
    hide Table.Geometry, Table.Valid, Table.Flat, Entries, Table.OnDisk, Reach, Readable, Lookup, Taken, EndsWell;
    hide Volume.Valid, Volume.Shape, Volume.Mirrored, AllSized, Put, View;
    VolumeFacts(v);
    hide Volume.Data;
    ghost var bytes := Delivered(v.Cells(), v.Data(), file.first, file.bytes, v.size, file.offset, requested);
    status, got := ReadClusters(v, file, buf, first, Least(file.bytes - file.offset, requested));
    ZeroRest(buf, got, requested, old(View(buf)), bytes);
  }

  /** fat_read of a file that is not a directory, on any table: what it delivers depends on the record, the
      offset, the table and the clusters only. */
  method Read(v: Volume, file: File, requested: nat, buf: array?<byte>) returns (status: Status, got: nat)
    requires v.Valid() && Ready(v.Cells(), file)
    requires buf != null ==> requested <= buf.Length
    requires v.Foreign(buf)
    modifies file`offset, file`eof, file`clusterIdx, file`clusterVal, v.buffers`clusterLba, v.buffers`clusterSector, v.buffers.cluster, buf
    modifies v.table`offset, v.table.buffer, v.table.dirty, v.table.disk1, v.table.disk2
    ensures v.Valid() && v.table.Flat() == old(v.table.Flat()) && Ready(v.Cells(), file)
    ensures AllSized(v.Data(), v.size) &&
            var offset := old(file.offset);
            var bytes := Delivered(v.Cells(), v.Data(), file.first, file.bytes, v.size, offset, requested);
            && got == |bytes| && file.offset == offset + got
            && status == (if LinksGood(v.Cells(), file.first, file.bytes, v.size, offset, requested) then Ok
                          else InconsistentState)
            && View(buf) == (if Lost(v.Cells(), file.first, v.size, offset, Limit(file.bytes, offset, requested))
                             then old(View(buf)) else Put(old(View(buf)), 0, bytes + NoBytes(requested - got)))
    ensures old(v.Mirrored()) ==> v.Mirrored()
    ensures old(v.table.OnDisk()) ==> v.table.OnDisk()
  {
    hide Table.Geometry, Table.Valid, Table.Flat, Entries, Table.OnDisk, Reach, Readable, Lookup, Taken, EndsWell;
    hide Volume.Valid, Volume.Shape, Volume.Mirrored, AllSized, Put, View, Delivered, LinksGood;
    VolumeFacts(v);
    hide Volume.Data;
    ViewLength(buf);
    PutNothing(View(buf));
    DeliversNothing(v.Cells(), v.Data(), file.first, file.bytes, v.size, file.offset, requested);
    if requested == 0 {
      assert [] + NoBytes(0) == [];
      return Ok, 0;
    }
    if file.eof != 0 || file.bytes <= file.offset {
      ZeroRest(buf, 0, requested, View(buf), []);
      file.eof := 1;
      return Ok, 0;
    }
    var found, cluster := FindCluster(v, file);
    if !found {
      return InconsistentState, 0;
    }
    status, got := ReadFrom(v, file, requested, buf, cluster);
    file.offset := file.offset + got;
    if file.offset >= file.bytes {
      file.eof := 1;
    }
  }

  // ----- fat_seek

  predicate IsInt(x: int)
  {
    -0x8000_0000 <= x < 0x8000_0000
  }

  /** Where a seek leads: from the start, from the current offset or from the end. */
  function SeekTarget(bytes: nat, current: nat, offset: int, whence: int): int
  {
    (if whence == 0 then 0 else if whence == 1 then current else bytes) + offset
  }

  /** Forward there is a limit; backward there is none but the start, so an offset beyond the limit can move
      back to another one beyond it. */
  predicate SeekAllowed(bytes: nat, current: nat, offset: int, whence: int)
  {
    && 0 <= whence <= 2 && 0 <= SeekTarget(bytes, current, offset, whence)
    && (offset >= 0 ==> SeekTarget(bytes, current, offset, whence) <= MAXIMUM_OFFSET)
  }

  /** fat_seek.  The most negative offset has no absolute value in an int: it goes in two parts. */
  method Seek(file: File, offset: int, whence: int) returns (ok: bool)
    requires IsInt(offset) && IsInt(whence) && file.eof <= 1
    modifies file`offset, file`eof
    ensures ok <==> SeekAllowed(file.bytes, old(file.offset), offset, whence)
    ensures ok ==> file.offset == SeekTarget(file.bytes, old(file.offset), offset, whence) && file.eof == 0
    ensures !ok ==> file.offset == old(file.offset) && file.eof == old(file.eof)
  {
    var move, extra: nat := offset, 0;
    if move < 0 {
      var val := 0x7FFF_FFFF + move;
      if val < 0 {
        move := move - val;
        extra := -val;
      }
    }
    if whence == 0 {
      if move < 0 || move > MAXIMUM_OFFSET {
        return false;
      }
      file.offset := move;
      file.eof := 0;
      return true;
    }
    if whence == 1 || whence == 2 {
      var off: nat := if whence == 2 then file.bytes else file.offset;
      if move < 0 {
        if off < -move {
          return false;
        }
        off := off + move;
        ghost var sum := off - extra;
        while extra > 0
          invariant off - extra == sum
        {
          if off == 0 {
            return false;
          }
          off := off - 1;
          extra := extra - 1;
        }
      } else {
        if file.eof == 2 || !(off <= 0xFFFF_FFFF - move) {
          return false;
        }
        off := off + move;
        if off > MAXIMUM_OFFSET {
          return false;
        }
      }
      file.offset := off;
      file.eof := 0;
      return true;
    }
    return false;
  }

  // ----- Runs

  datatype Op = ReadOp(count: nat) | SeekOp(offset: int, whence: int)

  datatype Answer = Bytes(bytes: seq<byte>) | Failed | Sought(ok: bool)

  /** A file as its bytes and an offset, with nothing else. */
  ghost function PlainStep(f: seq<byte>, offset: nat, op: Op): (r: (nat, Answer))
  {
    match op
    case ReadOp(count) =>
      var limit := Limit(|f|, offset, count);
      (offset + limit, Bytes(if limit == 0 then [] else f[offset..offset + limit]))
    case SeekOp(move, whence) =>
      if SeekAllowed(|f|, offset, move, whence) then (SeekTarget(|f|, offset, move, whence), Sought(true))
      else (offset, Sought(false))
  }

  ghost function PlainRun(f: seq<byte>, offset: nat, ops: seq<Op>): (answers: seq<Answer>)
    decreases |ops|
  {
    if ops == [] then []
    else [PlainStep(f, offset, ops[0]).1] + PlainRun(f, PlainStep(f, offset, ops[0]).0, ops[1..])
  }

  lemma PlainRunStep(f: seq<byte>, offset: nat, ops: seq<Op>)
    ensures PlainRun(f, offset, ops) ==
            if ops == [] then [] else [PlainStep(f, offset, ops[0]).1] + PlainRun(f, PlainStep(f, offset, ops[0]).0, ops[1..])
  {
  }

  /** Seeks with 0 count from the start of the file, with 1 from the current offset and with 2 from its end: they lead to
      any byte by its number, back over bytes that were read, nowhere, and to the last bytes. */
  lemma SeekAndRead(f: seq<byte>, offset: nat, k: nat, n: int)
    requires 0 <= n && k + n <= |f| <= MAXIMUM_OFFSET && offset <= |f|
    ensures PlainStep(f, offset, SeekOp(k, 0)) == (k, Sought(true))
    ensures PlainStep(f, k, ReadOp(n)) == (k + n, Bytes(f[k..k + n]))
    ensures PlainStep(f, k + n, SeekOp(-n, 1)) == (k, Sought(true))
    ensures PlainStep(f, offset, SeekOp(0, 1)) == (offset, Sought(true))
    ensures PlainStep(f, offset, SeekOp(-n, 2)) == (|f| - n, Sought(true))
  {
    assert n == 0 ==> f[k..k + n] == [];
  }

  /** The last n bytes of a file, from wherever its offset is. */
  lemma LastBytes(f: seq<byte>, offset: nat, n: int)
    requires 0 <= n <= |f| <= MAXIMUM_OFFSET && offset <= |f|
    ensures PlainRun(f, offset, [SeekOp(-n, 2), ReadOp(n)]) == [Sought(true), Bytes(f[|f| - n..])]
  {
    hide PlainRun, PlainStep;
    var ops := [SeekOp(-n, 2), ReadOp(n)];
    assert ops[1..] == [ReadOp(n)] && ops[1..][1..] == [];
    assert f[|f| - n..|f|] == f[|f| - n..];
    SeekAndRead(f, offset, |f| - n, n);
    PlainRunStep(f, offset, ops);
    PlainRunStep(f, |f| - n, ops[1..]);
    PlainRunStep(f, |f|, []);
  }

  /** With a chain that is long enough, a read delivers all it can: the slice of the contents, cut at the file
      size. */
  lemma DeliversSlice(t: seq<nat>, data: seq<seq<byte>>, c: seq<nat>, first: nat, bytes: nat, size: nat, offset: nat, count: nat)
    requires size > 0 && Holds(t, data, c, first, bytes, size)
    ensures LinksGood(t, first, bytes, size, offset, count)
    ensures var limit := Limit(bytes, offset, count);
            Delivered(t, data, first, bytes, size, offset, count)
            == if limit == 0 then [] else Contents(t, data, c, first, bytes, size)[offset..offset + limit]
  {
    hide Taken, EndsWell, Contents;
    var limit := Limit(bytes, offset, count);
    TakenStep(t, data, first, size, offset / size, offset % size, limit);
    if limit > 0 {
      TakenIsSlice(t, data, c, first, bytes, size, offset, limit);
    }
  }

  lemma PutThenTake(dst: seq<byte>, a: seq<byte>, b: seq<byte>)
    requires |dst| == |a| + |b|
    ensures Put(dst, 0, a + b)[..|a|] == a
  {
  }

  lemma NotLost(t: seq<nat>, first: nat, bytes: nat, size: nat, offset: nat, requested: nat)
    requires size > 0 && LinksGood(t, first, bytes, size, offset, requested)
    ensures !Lost(t, first, size, offset, Limit(bytes, offset, requested))
  {
    hide Reach;
  }

  method StepRead(v: Volume, file: File, count: nat, ghost c: seq<nat>) returns (answer: Answer)
    requires v.Valid() && Ready(v.Cells(), file)
    requires Holds(v.Cells(), v.Data(), c, file.first, file.bytes, v.size)
    modifies file`offset, file`eof, file`clusterIdx, file`clusterVal, v.buffers`clusterLba, v.buffers`clusterSector, v.buffers.cluster
    modifies v.table`offset, v.table.buffer, v.table.dirty, v.table.disk1, v.table.disk2
    ensures v.Valid() && v.table.Flat() == old(v.table.Flat()) && Ready(v.Cells(), file)
    ensures (file.offset, answer)
            == PlainStep(Contents(v.Cells(), v.Data(), c, file.first, file.bytes, v.size), old(file.offset), ReadOp(count))
  {
    hide Table.Geometry, Table.Valid, Table.Flat, Entries, Table.OnDisk, Delivered, LinksGood, Reach, Holds, Contents, Lost;
    hide Volume.Valid, Volume.Shape, Volume.Mirrored, AllSized, Put, HintRight, Ready;
    VolumeFacts(v);
    hide Volume.Data;
    var buf := new byte[count](_ => 0);
    ghost var bytes := Delivered(v.Cells(), v.Data(), file.first, file.bytes, v.size, file.offset, count);
    DeliversSlice(v.Cells(), v.Data(), c, file.first, file.bytes, v.size, file.offset, count);
    NotLost(v.Cells(), file.first, file.bytes, v.size, file.offset, count);
    PutThenTake(buf[..], bytes, NoBytes(count - |bytes|));
    var status, got := Read(v, file, count, buf);
    if status != Ok {
      return Failed;
    }
    return Bytes(buf[..got]);
  }

  method Step(v: Volume, file: File, op: Op, ghost c: seq<nat>) returns (answer: Answer)
    requires v.Valid() && Ready(v.Cells(), file) && (op.SeekOp? ==> IsInt(op.offset) && IsInt(op.whence))
    requires Holds(v.Cells(), v.Data(), c, file.first, file.bytes, v.size)
    modifies file`offset, file`eof, file`clusterIdx, file`clusterVal, v.buffers`clusterLba, v.buffers`clusterSector, v.buffers.cluster
    modifies v.table`offset, v.table.buffer, v.table.dirty, v.table.disk1, v.table.disk2
    ensures v.Valid() && v.table.Flat() == old(v.table.Flat()) && Ready(v.Cells(), file)
    ensures (file.offset, answer)
            == PlainStep(Contents(v.Cells(), v.Data(), c, file.first, file.bytes, v.size), old(file.offset), op)
  {
    hide Table.Geometry, Table.Valid, Table.Flat, Entries, Table.OnDisk, Reach, Holds, Contents;
    hide Volume.Valid, Volume.Shape, Volume.Mirrored, AllSized;
    VolumeFacts(v);
    hide Volume.Data;
    match op {
      case ReadOp(count) =>
        answer := StepRead(v, file, count, c);
      case SeekOp(move, whence) =>
        var ok := Seek(file, move, whence);
        return Sought(ok);
    }
  }

  /** Every run of reads and seeks answers as if there were neither hint nor cache nor window nor clusters: as
      the plain bytes of the file with an offset. */
  method Run(v: Volume, file: File, ops: seq<Op>, ghost c: seq<nat>) returns (answers: seq<Answer>)
    requires v.Valid() && Ready(v.Cells(), file)
    requires forall i | 0 <= i < |ops| && ops[i].SeekOp? :: IsInt(ops[i].offset) && IsInt(ops[i].whence)
    requires Holds(v.Cells(), v.Data(), c, file.first, file.bytes, v.size)
    modifies file`offset, file`eof, file`clusterIdx, file`clusterVal, v.buffers`clusterLba, v.buffers`clusterSector, v.buffers.cluster
    modifies v.table`offset, v.table.buffer, v.table.dirty, v.table.disk1, v.table.disk2
    ensures v.Valid() && v.table.Flat() == old(v.table.Flat())
    ensures answers == PlainRun(Contents(v.Cells(), v.Data(), c, file.first, file.bytes, v.size), old(file.offset), ops)
  {
    hide Table.Geometry, Table.Valid, Table.Flat, Entries, Table.OnDisk, Delivered, LinksGood, Reach, Holds, Contents;
    hide Volume.Valid, Volume.Shape, Volume.Mirrored, AllSized, Ready, PlainStep;
    VolumeFacts(v);
    hide Volume.Data;
    ghost var f := Contents(v.Cells(), v.Data(), c, file.first, file.bytes, v.size);
    answers := [];
    assert ops[0..] == ops;
    for i := 0 to |ops|
      invariant v.Valid() && v.table.Flat() == old(v.table.Flat()) && Ready(v.Cells(), file)
      invariant PlainRun(f, old(file.offset), ops) == answers + PlainRun(f, file.offset, ops[i..])
    {
      assert ops[i..][1..] == ops[i + 1..];
      ghost var before := answers;
      ghost var rest := PlainRun(f, file.offset, ops[i..]);
      var answer := Step(v, file, ops[i], c);
      assert rest == [answer] + PlainRun(f, file.offset, ops[i + 1..]);
      ConcatAssociative(before, [answer], PlainRun(f, file.offset, ops[i + 1..]));
      answers := answers + [answer];
    }
  }

  // ----- What the operations on chains leave of a file

  lemma ContentsAt(t: seq<nat>, data: seq<seq<byte>>, c: seq<nat>, first: nat, bytes: nat, size: nat, p: nat)
    requires size > 0 && Holds(t, data, c, first, bytes, size) && p < bytes
    ensures p / size < |c| && c[p / size] < |data| && p % size < |data[c[p / size]]|
    ensures Contents(t, data, c, first, bytes, size)[p] == data[c[p / size]][p % size]
  {
    hide Concat;
    var k, o := p / size, p % size;
    assert p == k * size + o;
    QuotientRange(p, size, 0, |c|);
    ConcatSplit(data, c, k);
    ConcatStep(data, c, k);
    ConcatLength(data, c, size);
    ConcatLength(data, c[..k], size);
    assert |Concat(data, c[..k])| == k * size;
    assert Concat(data, c)[p] == Concat(data, c[k..])[o];
  }

  ghost predicate SameByte(data: seq<seq<byte>>, c: seq<nat>, data2: seq<seq<byte>>, c2: seq<nat>, k: nat, o: nat)
  {
    && k < |c| && k < |c2| && c[k] < |data| && c2[k] < |data2| && o < |data[c[k]]| && o < |data2[c2[k]]|
    && data[c[k]][o] == data2[c2[k]][o]
  }

  lemma SameByteIs(data: seq<seq<byte>>, c: seq<nat>, data2: seq<seq<byte>>, c2: seq<nat>, k: nat, o: nat)
    requires SameByte(data, c, data2, c2, k, o)
    ensures k < |c| && k < |c2| && c[k] < |data| && c2[k] < |data2| && o < |data[c[k]]| && o < |data2[c2[k]]|
    ensures data[c[k]][o] == data2[c2[k]][o]
  {
  }

  /** Two states that agree on the bytes of a file hold the same file. */
  lemma SameContents(t: seq<nat>, data: seq<seq<byte>>, c: seq<nat>, t2: seq<nat>, data2: seq<seq<byte>>, c2: seq<nat>,
                     first: nat, bytes: nat, size: nat)
    requires size > 0 && Holds(t, data, c, first, bytes, size) && Holds(t2, data2, c2, first, bytes, size)
    requires forall k, o | 0 <= k < |c| && 0 <= o < size && k * size + o < bytes :: SameByte(data, c, data2, c2, k, o)
    ensures Contents(t2, data2, c2, first, bytes, size) == Contents(t, data, c, first, bytes, size)
  {
    hide Contents, Holds, SameByte;
    forall p | 0 <= p < bytes
      ensures Contents(t2, data2, c2, first, bytes, size)[p] == Contents(t, data, c, first, bytes, size)[p]
    {
      ContentsAt(t, data, c, first, bytes, size, p);
      ContentsAt(t2, data2, c2, first, bytes, size, p);
      assert p == p / size * size + p % size;
      assert SameByte(data, c, data2, c2, p / size, p % size);
      SameByteIs(data, c, data2, c2, p / size, p % size);
    }
  }

  /** A cluster more at the end of the chain, all zeros or not: the file stays what it is, and has room. */
  lemma AppendKeepsContents(t: seq<nat>, data: seq<seq<byte>>, c: seq<nat>, first: nat, bytes: nat, size: nat, n: nat, wipe: bool)
    requires size > 0 && bytes > 0 && Holds(t, data, c, first, bytes, size) && 2 <= n < |t| && t[n] == 0
    ensures var t2 := Appended(t, c[|c| - 1], n);
            var data2 := if wipe then Wiped(data, {n}, size) else data;
            && Holds(t2, data2, c + [n], first, bytes, size)
            && Contents(t2, data2, c + [n], first, bytes, size) == Contents(t, data, c, first, bytes, size)
  {
    AppendedChain(t, c, n);
    FreeIsInNoChain(t, c, n);
    var t2 := Appended(t, c[|c| - 1], n);
    var data2 := if wipe then Wiped(data, {n}, size) else data;
    assert (|c| + 1) * size == |c| * size + size;
    forall k, o | 0 <= k < |c| && 0 <= o < size && k * size + o < bytes
      ensures SameByte(data, c, data2, c + [n], k, o)
    {
      assert c[k] in c;
    }
    SameContents(t, data, c, t2, data2, c + [n], first, bytes, size);
  }

  /** delete_clusters of a chain with no cluster in common leaves a file as it is. */
  lemma DeleteKeepsContents(t: seq<nat>, data: seq<seq<byte>>, c: seq<nat>, first: nat, bytes: nat, size: nat, gone: seq<nat>)
    requires size > 0 && bytes > 0 && Holds(t, data, c, first, bytes, size)
    requires IsChain(t, gone) && forall k | 0 <= k < |c| :: c[k] !in gone
    ensures var t2, data2 := Freed(t, gone[0]), Wiped(data, Visited(t, gone[0]), size);
            && Holds(t2, data2, c, first, bytes, size)
            && Contents(t2, data2, c, first, bytes, size) == Contents(t, data, c, first, bytes, size)
  {
    hide Freed, Visited;
    FreedKeepsOthers(t, gone, c);
    VisitedChain(t, gone);
    var t2, data2 := Freed(t, gone[0]), Wiped(data, Visited(t, gone[0]), size);
    forall k, o | 0 <= k < |c| && 0 <= o < size && k * size + o < bytes
      ensures SameByte(data, c, data2, c, k, o)
    {
      assert c[k] !in Elements(gone);
    }
    SameContents(t, data, c, t2, data2, c, first, bytes, size);
  }

  lemma ByteIsKept(bytes: nat, size: nat, k: nat, o: nat)
    requires size > 0 && o < size && k * size + o < bytes
    ensures k < ClustersFor(bytes, size)
  {
    hide ClustersFor;
    DivUnique(k * size + o, size, k, o);
    IndexInFile(k * size + o, bytes, size);
  }

  lemma LastCluster(bytes: nat, size: nat, n: nat, k: nat, o: nat)
    requires size > 0 && n == ClustersFor(bytes, size) && k == n - 1 && o < size && k * size + o < bytes
    ensures bytes % size != 0 ==> o < bytes % size
  {
  }

  lemma CutDataOfChain(t: seq<nat>, data: seq<seq<byte>>, c: seq<nat>, bytes: nat, size: nat, n: nat)
    requires size > 0 && bytes > 0 && |data| == |t| && AllSized(data, size) && |t| <= FIRST_END
    requires IsChain(t, c) && n == ClustersFor(bytes, size) && 1 <= n <= |c|
    ensures var last := c[n - 1];
            var tailed := if bytes % size != 0 then TailWiped(data, last, bytes % size, size) else data;
            CutData(data, t, c[0], bytes, size) == Wiped(tailed, Elements(c[n..]), size)
  {
    hide Freed, Visited, TailWiped, Wiped, AllSized, ClustersFor, Along;
    AlongChain(t, c, n - 1);
    var last := c[n - 1];
    var ended := t[last := END_MARK];
    assert last !in c[n..];
    if n < |c| {
      assert t[last] == c[n];
      ChainSuffix(t, c, n);
      ChainKept(t, ended, c[n..]);
      VisitedChain(ended, c[n..]);
    } else {
      assert c[n..] == [] && Elements(c[n..]) == {};
      NothingWiped(CutData(data, t, c[0], bytes, size), size);
    }
  }

  lemma WipedAt(data: seq<seq<byte>>, gone: seq<nat>, size: nat)
    requires AllSized(data, size)
    ensures var d := Wiped(data, Elements(gone), size);
            AllSized(d, size) && forall k | 0 <= k < |data| :: d[k] == if k in gone then NoBytes(size) else data[k]
  {
    assert forall k :: k in Elements(gone) <==> k in gone;
  }

  /** The clusters after the cut: those behind the end are all zeros, the last one is zeros behind the file. */
  lemma CutDataIs(t: seq<nat>, data: seq<seq<byte>>, c: seq<nat>, bytes: nat, size: nat, n: nat)
    requires size > 0 && bytes > 0 && |data| == |t| && AllSized(data, size) && |t| <= FIRST_END
    requires IsChain(t, c) && n == ClustersFor(bytes, size) && 1 <= n <= |c|
    ensures var d := CutData(data, t, c[0], bytes, size);
            && |d| == |data| && AllSized(d, size)
            && (forall k | 0 <= k < |data| && k !in c[n..] && k != c[n - 1] :: d[k] == data[k])
            && (forall k | 0 <= k < |data| && k in c[n..] :: d[k] == NoBytes(size))
            && d[c[n - 1]] == if bytes % size == 0 then data[c[n - 1]]
                              else data[c[n - 1]][..bytes % size] + NoBytes(size - bytes % size)
  {
    hide CutData, Wiped;
    CutDataOfChain(t, data, c, bytes, size, n);
    var last := c[n - 1];
    assert last !in c[n..];
    var tailed := if bytes % size != 0 then TailWiped(data, last, bytes % size, size) else data;
    WipedAt(tailed, c[n..], size);
  }

  /** A byte of the file is in a cluster that stays, and in the last one it is in front of the cut. */
  lemma CutKeepsByte(t: seq<nat>, data: seq<seq<byte>>, c: seq<nat>, bytes: nat, size: nat, n: nat, k: nat, o: nat)
    requires size > 0 && bytes > 0 && |data| == |t| && AllSized(data, size) && |t| <= FIRST_END
    requires IsChain(t, c) && n == ClustersFor(bytes, size) && 1 <= n <= |c|
    requires k < |c| && o < size && k * size + o < bytes
    ensures SameByte(data, c, CutData(data, t, c[0], bytes, size), c[..n], k, o)
  {
    hide CutData, ClustersFor;
    ByteIsKept(bytes, size, k, o);
    CutDataIs(t, data, c, bytes, size, n);
    assert c[k] !in c[n..];
    assert c[..n][k] == c[k];
    if k == n - 1 {
      LastCluster(bytes, size, n, k, o);
    } else {
      assert c[k] != c[n - 1];
    }
  }

  lemma EnoughClusters(bytes: nat, size: nat, m: nat)
    requires size > 0 && 0 < bytes <= m * size
    ensures 1 <= ClustersFor(bytes, size) <= m && bytes <= ClustersFor(bytes, size) * size
  {
    var q, r := bytes / size, bytes % size;
    assert bytes == q * size + r;
    NextMultiple(q, size);
    QuotientRange(bytes - 1, size, 0, m);
    if r == 0 {
      Multiple(q, size);
      Multiple(m - q, size);
      assert (m - q) * size == m * size - q * size;
    } else {
      DivUnique(bytes - 1, size, q, r - 1);
    }
  }

  /** delete_extra_clusters keeps the file to the last byte, in as few clusters as it takes. */
  lemma CutKeepsContents(t: seq<nat>, data: seq<seq<byte>>, c: seq<nat>, first: nat, bytes: nat, size: nat)
    requires size > 0 && bytes > 0 && Holds(t, data, c, first, bytes, size)
    ensures var n := ClustersFor(bytes, size);
            && 1 <= n <= |c|
            && var t2, data2 := Cut(t, first, n), CutData(data, t, first, bytes, size);
            && t2 == Truncated(t, c, n)
            && Holds(t2, data2, c[..n], first, bytes, size)
            && Contents(t2, data2, c[..n], first, bytes, size) == Contents(t, data, c, first, bytes, size)
  {
    hide Freed, Visited, Contents, Cut, Truncated;
    var n := ClustersFor(bytes, size);
    EnoughClusters(bytes, size, |c|);
    CutChain(t, c, n);
    TruncatedChain(t, c, n);
    var t2, data2 := Cut(t, first, n), CutData(data, t, first, bytes, size);
    CutDataIs(t, data, c, bytes, size, n);
    forall k, o | 0 <= k < |c| && 0 <= o < size && k * size + o < bytes
      ensures SameByte(data, c, data2, c[..n], k, o)
    {
      CutKeepsByte(t, data, c, bytes, size, n, k, o);
    }
    SameContents(t, data, c, t2, data2, c[..n], first, bytes, size);
  }
}
