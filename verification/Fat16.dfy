/**
 Reading a file from a FAT16 volume (fs/fat/fat16.c): walking the cluster chain, and the
 loop that reads a file piece by piece through the disk streamer.
 */
module Fat16 {
  import opened Basics
  import opened Streamer

  /** `rootEnd` is the sector after the root directory, `perCluster` counts sectors. */
  datatype Volume = Volume(disk: Disk, reserved: nat, rootEnd: nat, perCluster: nat) {
    /** Cluster numbers 0 and 1, which the code accepts, must not lie before the disk. */
    predicate Valid() { perCluster > 0 && rootEnd >= 2 * perCluster }

    function ClusterSize(): nat { perCluster * 512 }
  }

  datatype Error = EIO | EOutOfRange

  datatype Result<+T> = Ok(value: T) | Err(error: Error)

  // ------------------------------------------------------------ allocation table

  function EntryPos(v: Volume, cluster: nat): nat { v.reserved * 512 + cluster * 2 }

  /** `fat16_get_fat_entry`: the 16-bit little-endian entry of a cluster. */
  function Entry(v: Volume, cluster: nat): nat {
    LittleEndian(Delivered(v.disk, EntryPos(v, cluster), 2))
  }

  function LittleEndian(b: Buf): (r: nat)
    requires |b| == 2
    ensures r < 65536
  {
    b[0] as nat + 256 * b[1] as nat
  }

  /** An entry lies in one sector, so both its bytes are the disk's. */
  lemma EntryIsOnDisk(v: Volume, cluster: nat)
    ensures var at := (v.disk.start + v.reserved) * 512 + 2 * cluster;
            Entry(v, cluster) == Byte(v.disk, at) as nat + 256 * Byte(v.disk, at + 1) as nat
  {
    hide Slice, Content, Byte, LostAreZero;
    DeliveredExact(v.disk, EntryPos(v, cluster), 2);
  }

  /** How `fat16_get_cluster_for_offset` takes an entry: the next cluster or an error. */
  function Link(entry: nat): Result<nat> {
    if entry >= 0xFFF8 then Err(EOutOfRange)
    else if entry == 0xFF7 || 0xFFF0 <= entry <= 0xFFF6 || entry == 0 then Err(EIO)
    else Ok(entry)
  }

  /** `fat16_get_cluster_for_offset`, after `ahead` steps. */
  function Walk(v: Volume, cluster: nat, ahead: nat): Result<nat>
    decreases ahead
  {
    if ahead == 0 then Ok(cluster)
    else
      var next := Link(Entry(v, cluster));
      if next.Err? then next else Walk(v, next.value, ahead - 1)
  }

  /** The clusters of a file as the FAT specification has them: links in range, then an end mark. */
  predicate IsChain(v: Volume, chain: seq<nat>) {
    && chain != [] && Entry(v, chain[|chain| - 1]) >= 0xFFF8
    && forall i :: 0 < i < |chain| ==> Entry(v, chain[i - 1]) == chain[i] && 2 <= chain[i] < 0xFFF0
  }

  /**
   The code takes 0xFF7 for the bad-cluster mark.  It follows a chain exactly as far as
   that number has not been met, and tells the end of the chain from that only then.
   */
  lemma {:induction false} WalkFollowsChain(v: Volume, chain: seq<nat>, ahead: nat)
    requires IsChain(v, chain)
    ensures ahead < |chain| ==>
              Walk(v, chain[0], ahead) == if 0xFF7 in chain[1..ahead + 1] then Err(EIO) else Ok(chain[ahead])
    ensures ahead >= |chain| ==>
              Walk(v, chain[0], ahead) == if 0xFF7 in chain[1..] then Err(EIO) else Err(EOutOfRange)
    decreases ahead
  {
    hide Entry;
    if ahead > 0 && |chain| > 1 {
      var rest := chain[1..];
      assert Entry(v, chain[0]) == rest[0];
      assert IsChain(v, rest) by {
        forall i | 0 < i < |rest| ensures Entry(v, rest[i - 1]) == rest[i] && 2 <= rest[i] < 0xFFF0 {
          assert Entry(v, chain[i + 1 - 1]) == chain[i + 1];
        }
      }
      if rest[0] != 0xFF7 {
        WalkFollowsChain(v, rest, ahead - 1);
        assert chain[1..] == [rest[0]] + rest[1..];
        if ahead < |chain| {
          assert chain[1..ahead + 1] == [rest[0]] + rest[1..ahead];
        }
      } else {
        assert chain[1] == 0xFF7;
      }
    }
  }

  /** Links in range as far as they go, whatever stands behind the last of them. */
  predicate Links(v: Volume, chain: seq<nat>) {
    && chain != []
    && forall i :: 0 < i < |chain| ==>
         Entry(v, chain[i - 1]) == chain[i] && 2 <= chain[i] < 0xFFF0 && chain[i] != 0xFF7
  }

  /**
   A damaged chain: behind a free or a reserved entry there is nothing to read, but the mark
   of a bad cluster, 0xFFF7, is taken for a link.
   */
  lemma {:induction false} DamagedChain(v: Volume, chain: seq<nat>, ahead: nat)
    requires Links(v, chain) && ahead >= |chain|
    ensures var last := Entry(v, chain[|chain| - 1]);
            && (last == 0 || 0xFFF0 <= last <= 0xFFF6 ==> Walk(v, chain[0], ahead) == Err(EIO))
            && (last == 0xFFF7 && ahead == |chain| ==> Walk(v, chain[0], ahead) == Ok(0xFFF7))
    decreases |chain|
  {
    hide Entry;
    if |chain| > 1 {
      var rest := chain[1..];
      assert Entry(v, chain[0]) == chain[1] == rest[0];
      assert forall i :: 0 < i < |rest| ==> Entry(v, rest[i - 1]) == Entry(v, chain[i]) && rest[i] == chain[i + 1];
      DamagedChain(v, rest, ahead - 1);
    } else {
      assert chain == [chain[0]];
    }
  }

  /** A disk that is zero but for the allocation table entries of clusters 2 and 0xFF7. */
  function ChainByte(at: int): bv8 {
    if at == 516 then 0xF7 else if at == 517 then 0x0F else if at == 8686 then 0xF8 else if at == 8687 then 0xFF else 0
  }

  function ChainDisk(): Disk { Disk(0, 0, n => Some(seq(512, i => ChainByte(n * 512 + i)))) }

  lemma ChainDiskByte(at: nat)
    ensures Byte(ChainDisk(), at) == ChainByte(at)
  {
    assert at / 512 * 512 + at % 512 == at;
    var sector: Sector := seq(512, i => ChainByte(at / 512 * 512 + i));
    assert ChainDisk().device(at / 512) == Some(sector);
  }

  /** A chain of two clusters in range, of which the code refuses to read the second. */
  lemma ChainThroughFF7()
    ensures var v := Volume(ChainDisk(), 1, 100, 1);
            v.Valid() && IsChain(v, [2, 0xFF7]) && Walk(v, 2, 1) == Err(EIO) && FileRead(v, 2, 512, 1) == Err(EIO)
  {
    var v := Volume(ChainDisk(), 1, 100, 1);
    EntryIsOnDisk(v, 2);
    EntryIsOnDisk(v, 0xFF7);
    ChainDiskByte(516);
    ChainDiskByte(517);
    ChainDiskByte(8686);
    ChainDiskByte(8687);
    hide Byte, Entry, ChainByte, ChainDisk;
    assert Entry(v, 2) == 0xFF7 && Entry(v, 0xFF7) == 0xFFF8 by { ChainBytes(); }
    assert IsChain(v, [2, 0xFF7]);
    WalkFollowsChain(v, [2, 0xFF7], 1);
  }

  lemma ChainBytes()
    ensures ChainByte(516) == 0xF7 && ChainByte(517) == 0x0F && ChainByte(8686) == 0xF8 && ChainByte(8687) == 0xFF
    ensures ChainDisk().start == 0
  {
  }

  // ------------------------------------------------------------------- contents

  /** `fat16_cluster_to_sector`. */
  function ClusterSector(v: Volume, cluster: nat): nat
    requires v.Valid()
  {
    assert cluster * v.perCluster >= 0;
    assert (cluster - 2) * v.perCluster == cluster * v.perCluster - 2 * v.perCluster;
    v.rootEnd + (cluster - 2) * v.perCluster
  }

  function ClusterPos(v: Volume, cluster: nat): nat
    requires v.Valid()
  {
    ClusterSector(v, cluster) * 512
  }

  /** The cluster of the chain that an offset is in, and where in it. */
  function ClusterIndex(v: Volume, offset: nat): nat
    requires v.Valid()
  {
    QuotientIsNat(offset, v.ClusterSize());
    offset / v.ClusterSize()
  }

  lemma QuotientIsNat(a: nat, m: nat)
    requires m > 0
    ensures a / m >= 0
  {
  }

  function InCluster(v: Volume, offset: nat): (r: nat)
    requires v.Valid()
    ensures r < v.ClusterSize()
  {
    offset % v.ClusterSize()
  }

  /** The offset of byte `r` of cluster `q` of the chain. */
  function OffsetOf(v: Volume, q: nat, r: nat): nat {
    assert q * v.ClusterSize() >= 0;
    q * v.ClusterSize() + r
  }

  lemma IndexExact(v: Volume, q: nat, r: nat)
    requires v.Valid() && r < v.ClusterSize()
    ensures ClusterIndex(v, OffsetOf(v, q, r)) == q && InCluster(v, OffsetOf(v, q, r)) == r
  {
    DivMod(q, r, v.ClusterSize());
  }

  /** The pieces of a chain of `clusters` clusters lie inside its contents, one after the other. */
  lemma OffsetInside(v: Volume, q: nat, r: nat, n: nat, clusters: nat)
    requires q < clusters && r + n <= v.ClusterSize()
    ensures OffsetOf(v, q, r) + n <= clusters * v.ClusterSize()
    ensures q > 0 ==> OffsetOf(v, q, r) == v.ClusterSize() + OffsetOf(v, q - 1, r)
    ensures OffsetOf(v, q, r) + (v.ClusterSize() - r) == OffsetOf(v, q + 1, 0) && OffsetOf(v, 0, r) == r
  {
    var size := v.ClusterSize();
    hide Volume.ClusterSize;
    MulStep(q, clusters, size);
    assert q > 0 ==> q * size == size + (q - 1) * size;
    assert (q + 1) * size == q * size + size;
  }

  lemma OffsetBeyond(v: Volume, q: nat, r: nat, clusters: nat)
    requires v.Valid() && r < v.ClusterSize()
    ensures OffsetOf(v, q, r) < clusters * v.ClusterSize() <==> q < clusters
  {
    var size := v.ClusterSize();
    hide Volume.ClusterSize;
    if q < clusters { MulStep(q, clusters, size); } else { MulOrder(clusters, q, size); }
  }

  function ClusterBytes(v: Volume, cluster: nat): (r: Buf)
    requires v.Valid()
    ensures |r| == v.ClusterSize()
  {
    Slice(v.disk, v.disk.start * 512 + ClusterPos(v, cluster), v.ClusterSize())
  }

  /** The contents of the clusters one after the other. */
  function Flat(v: Volume, chain: seq<nat>): (r: Buf)
    requires v.Valid()
    ensures |r| == |chain| * v.ClusterSize()
  {
    if chain == [] then []
    else
      assert |chain| * v.ClusterSize() == v.ClusterSize() + |chain[1..]| * v.ClusterSize();
      ClusterBytes(v, chain[0]) + Flat(v, chain[1..])
  }

  /** `n` clusters with ascending numbers from `c` on. */
  function Consecutive(c: nat, n: nat): (r: seq<nat>)
    ensures |r| == n && forall i :: 0 <= i < n ==> r[i] == c + i
  {
    seq(n, i requires 0 <= i => c + i)
  }

  /** Clusters lie side by side behind the root directory, and cluster 2 is the first. */
  function Place(v: Volume, c: nat): nat
    requires c >= 2
  {
    assert (c - 2) * v.ClusterSize() >= 0;
    (v.disk.start + v.rootEnd) * 512 + (c - 2) * v.ClusterSize()
  }

  lemma ClusterIsInPlace(v: Volume, c: nat)
    requires v.Valid() && c >= 2
    ensures v.disk.start * 512 + ClusterPos(v, c) == Place(v, c) && Place(v, c + 1) == Place(v, c) + v.ClusterSize()
  {
    assert (c - 2) * v.perCluster * 512 == (c - 2) * v.ClusterSize();
    assert (c - 1) * v.ClusterSize() == (c - 2) * v.ClusterSize() + v.ClusterSize();
  }

  /** The clusters tile the data area: the contents of neighbours are the disk from the first one on. */
  lemma {:induction false} ClustersTile(v: Volume, c: nat, n: nat)
    requires v.Valid() && c >= 2
    ensures Flat(v, Consecutive(c, n)) == Slice(v.disk, Place(v, c), |Flat(v, Consecutive(c, n))|)
    decreases n
  {
    hide ClusterPos, ClusterBytes, Slice, Flat, Place, Volume.ClusterSize;
    var chain := Consecutive(c, n);
    if n > 0 {
      assert chain[1..] == Consecutive(c + 1, n - 1);
      ClustersTile(v, c + 1, n - 1);
      TileMore(v, c, chain);
    } else {
      NoClusters(v, chain);
      assert Slice(v.disk, Place(v, c), 0) == [];
    }
  }

  lemma NoClusters(v: Volume, chain: seq<nat>)
    requires v.Valid() && chain == []
    ensures Flat(v, chain) == []
  {
  }

  lemma TileMore(v: Volume, c: nat, chain: seq<nat>)
    requires v.Valid() && c >= 2 && chain != [] && chain[0] == c
    requires Flat(v, chain[1..]) == Slice(v.disk, Place(v, c + 1), |Flat(v, chain[1..])|)
    ensures Flat(v, chain) == Slice(v.disk, Place(v, c), |Flat(v, chain)|)
  {
    hide ClusterPos, ClusterBytes, Slice, Flat, Place, Volume.ClusterSize;
    FlatSplits(v, chain);
    FirstOfArea(v, c);
    ClusterIsInPlace(v, c);
    Adjoin(v.disk, Place(v, c), ClusterBytes(v, c), Flat(v, chain[1..]));
  }

  lemma Adjoin(d: Disk, at: nat, a: Buf, b: Buf)
    requires a == Slice(d, at, |a|) && b == Slice(d, at + |a|, |b|)
    ensures a + b == Slice(d, at, |a + b|)
  {
  }

  lemma FirstOfArea(v: Volume, c: nat)
    requires v.Valid()
    ensures ClusterBytes(v, c) == Slice(v.disk, v.disk.start * 512 + ClusterPos(v, c), v.ClusterSize())
  {
  }

  /** The loop of `fat16_read_internal_from_stream`. */
  function FileRead(v: Volume, cluster: nat, offset: nat, total: nat): Result<Buf>
    requires v.Valid()
    decreases total
  {
    if total == 0 then Ok([])
    else
      var at := Walk(v, cluster, ClusterIndex(v, offset));
      if at.Err? then Err(at.error)
      else
        var n := Min(v.ClusterSize() - InCluster(v, offset), total);
        var rest := FileRead(v, cluster, offset + n, total - n);
        if rest.Err? then rest
        else Ok(Delivered(v.disk, ClusterPos(v, at.value) + InCluster(v, offset), n) + rest.value)
  }

  /** The requests whose bytes do not depend on the streamer reading past a sector's end. */
  predicate Whole(v: Volume, offset: nat, total: nat)
    requires v.Valid()
  {
    total >= 512 || offset % 512 + total <= 512 || InCluster(v, offset) + total > v.ClusterSize()
  }

  lemma {:induction false} FlatAt(v: Volume, chain: seq<nat>, q: nat, r: nat, n: nat)
    requires v.Valid() && q < |chain| && r + n <= v.ClusterSize()
    ensures OffsetOf(v, q, r) + n <= |Flat(v, chain)|
    ensures Flat(v, chain)[OffsetOf(v, q, r)..OffsetOf(v, q, r) + n] ==
            Slice(v.disk, v.disk.start * 512 + ClusterPos(v, chain[q]) + r, n)
  {
    hide Slice, Flat, ClusterPos, ClusterBytes, OffsetOf, Volume.ClusterSize;
    OffsetInside(v, q, r, n, |chain|);
    if q == 0 {
      FirstCluster(v, chain, r, n);
    } else {
      FlatAt(v, chain[1..], q - 1, r, n);
      FlatSplits(v, chain);
      InSecond(ClusterBytes(v, chain[0]), Flat(v, chain[1..]), OffsetOf(v, q - 1, r), n);
    }
  }

  lemma FirstCluster(v: Volume, chain: seq<nat>, r: nat, n: nat)
    requires v.Valid() && chain != [] && r + n <= v.ClusterSize()
    ensures Flat(v, chain)[r..r + n] == Slice(v.disk, v.disk.start * 512 + ClusterPos(v, chain[0]) + r, n)
  {
    FlatSplits(v, chain);
    hide Slice, Flat, ClusterPos, Volume.ClusterSize;
    InFirst(ClusterBytes(v, chain[0]), Flat(v, chain[1..]), r, n);
    SliceOfSlice(v.disk, v.disk.start * 512 + ClusterPos(v, chain[0]), v.ClusterSize(), r, n);
  }

  lemma InFirst(a: Buf, b: Buf, from: nat, n: nat)
    requires from + n <= |a|
    ensures (a + b)[from..from + n] == a[from..from + n]
  {
  }

  lemma InSecond(a: Buf, b: Buf, skip: nat, n: nat)
    requires skip + n <= |b|
    ensures (a + b)[|a| + skip..|a| + skip + n] == b[skip..skip + n]
  {
  }

  lemma FlatSplits(v: Volume, chain: seq<nat>)
    requires v.Valid() && chain != []
    ensures Flat(v, chain) == ClusterBytes(v, chain[0]) + Flat(v, chain[1..])
  {
  }

  lemma PosInSector(v: Volume, cluster: nat, r: nat)
    requires v.Valid()
    ensures (ClusterPos(v, cluster) + r) % 512 == r % 512
  {
    hide ClusterSector;
  }

  /** One piece of the loop, at `r` bytes into cluster `q` of any chain. */
  lemma AnyPiece(v: Volume, chain: seq<nat>, q: nat, r: nat, total: nat)
    requires v.Valid() && IsChain(v, chain) && r < v.ClusterSize() && total > 0
    ensures var offset, n := OffsetOf(v, q, r), Min(v.ClusterSize() - r, total);
            FileRead(v, chain[0], offset, total).Ok? <==>
              q < |chain| && 0xFF7 !in chain[1..q + 1] && FileRead(v, chain[0], offset + n, total - n).Ok?
  {
    hide Walk, Entry, Delivered, ClusterPos, IsChain, ClusterIndex, InCluster, OffsetOf;
    IndexExact(v, q, r);
    WalkFollowsChain(v, chain, q);
  }

  /**
   A read of a file succeeds exactly when the chain is long enough for it and the number
   0xFF7 is met on no step of the chain up to the last cluster it needs.
   */
  lemma {:induction false} ReadSucceedsExactly(v: Volume, chain: seq<nat>, q: nat, r: nat, total: nat)
    requires v.Valid() && IsChain(v, chain) && r < v.ClusterSize() && total > 0
    ensures var offset := OffsetOf(v, q, r);
            var last := ClusterIndex(v, offset + total - 1);
            && q <= last
            && (FileRead(v, chain[0], offset, total).Ok? <==> last < |chain| && 0xFF7 !in chain[1..last + 1])
    decreases total
  {
    hide Walk, Entry, Delivered, ClusterPos, IsChain, ClusterIndex, InCluster, OffsetOf;
    AnyPiece(v, chain, q, r, total);
    var n := Min(v.ClusterSize() - r, total);
    OffsetInside(v, q, r, n, q + 1);
    if n < total {
      ReadSucceedsExactly(v, chain, q + 1, 0, total - n);
      var last := ClusterIndex(v, OffsetOf(v, q, r) + total - 1);
      if last < |chain| {
        assert chain[1..last + 1] == chain[1..q + 1] + chain[q + 1..last + 1];
      }
    } else {
      OffsetAdds(v, q, r, total - 1);
      IndexExact(v, q, r + total - 1);
    }
  }

  lemma OffsetAdds(v: Volume, q: nat, r: nat, k: nat)
    ensures OffsetOf(v, q, r) + k == OffsetOf(v, q, r + k)
  {
  }

  /** A read takes its first piece from cluster `q`, at `r` bytes into it, and then the rest. */
  predicate PieceRead(v: Volume, chain: seq<nat>, q: nat, r: nat, total: nat)
    requires v.Valid() && q < |chain| && r < v.ClusterSize() && total > 0
  {
    var n := Min(v.ClusterSize() - r, total);
    var rest := FileRead(v, chain[0], OffsetOf(v, q, r) + n, total - n);
    rest.Ok? &&
    FileRead(v, chain[0], OffsetOf(v, q, r), total) ==
      Ok(Delivered(v.disk, ClusterPos(v, chain[q]) + r, n) + rest.value)
  }

  /** What a read that succeeds takes from cluster `q`, at `r` bytes into it. */
  lemma OnePiece(v: Volume, chain: seq<nat>, q: nat, r: nat, total: nat)
    requires v.Valid() && IsChain(v, chain) && r < v.ClusterSize() && total > 0
    requires FileRead(v, chain[0], OffsetOf(v, q, r), total).Ok?
    ensures q < |chain| && PieceRead(v, chain, q, r, total)
  {
    hide Walk, Entry, Delivered, ClusterPos, IsChain, ClusterIndex, InCluster, OffsetOf;
    IndexExact(v, q, r);
    WalkFollowsChain(v, chain, q);
  }

  /** Where the first piece of a read fails, or else what the next cluster is read for. */
  lemma PieceError(v: Volume, chain: seq<nat>, q: nat, r: nat, total: nat)
    requires v.Valid() && IsChain(v, chain) && r < v.ClusterSize() && total > 0
    ensures var read, n := FileRead(v, chain[0], OffsetOf(v, q, r), total), v.ClusterSize() - r;
            if OnTheWay(chain, q) then read == Err(EIO)
            else if q >= |chain| then read == Err(EOutOfRange)
            else read.Err? ==> n < total && read == FileRead(v, chain[0], OffsetOf(v, q + 1, 0), total - n)
  {
    assert chain != [];
    hide Walk, Entry, IsChain, ClusterIndex, InCluster, OffsetOf, OnTheWay, FileRead, Volume.ClusterSize;
    IndexExact(v, q, r);
    WalkOnTheWay(v, chain, q);
    NextCluster(v, q, r);
    FirstPiece(v, chain[0], OffsetOf(v, q, r), total);
  }

  /** `WalkFollowsChain` once more. */
  lemma WalkOnTheWay(v: Volume, chain: seq<nat>, q: nat)
    requires IsChain(v, chain)
    ensures Walk(v, chain[0], q) ==
            if OnTheWay(chain, q) then Err(EIO) else if q >= |chain| then Err(EOutOfRange) else Ok(chain[q])
  {
    assert q >= |chain| ==> chain[1..|chain|] == chain[1..];
    hide Walk, Entry, IsChain;
    WalkFollowsChain(v, chain, q);
  }

  /** The loop, by its first round. */
  lemma FirstPiece(v: Volume, cluster: nat, offset: nat, total: nat)
    requires v.Valid() && total > 0
    ensures var at, n := Walk(v, cluster, ClusterIndex(v, offset)), v.ClusterSize() - InCluster(v, offset);
            var read := FileRead(v, cluster, offset, total);
            if at.Err? then read == Err(at.error)
            else read.Err? ==> n < total && read == FileRead(v, cluster, offset + n, total - n)
  {
    hide Walk, Entry, Delivered, ClusterPos, ClusterIndex, InCluster;
  }

  /** The error of a read up to `end` that fails: for 0xFF7 on the way if there is one, or else for want of clusters. */
  lemma {:induction false} ReadError(v: Volume, chain: seq<nat>, q: nat, r: nat, total: nat, end: nat)
    requires v.Valid() && IsChain(v, chain) && r < v.ClusterSize() && total > 0 && end == OffsetOf(v, q, r) + total
    requires FileRead(v, chain[0], OffsetOf(v, q, r), total).Err?
    ensures FileRead(v, chain[0], OffsetOf(v, q, r), total) ==
            Err(if OnTheWay(chain, ClusterIndex(v, end - 1)) then EIO else EOutOfRange)
    decreases total
  {
    assert chain != [];
    hide FileRead, Entry, IsChain, ClusterIndex, OffsetOf, OnTheWay, Volume.ClusterSize;
    LastNotBefore(v, q, r, end);
    PieceError(v, chain, q, r, total);
    SoFar(chain, q, ClusterIndex(v, end - 1));
    if q < |chain| && !OnTheWay(chain, q) {
      NextCluster(v, q, r);
      ReadError(v, chain, q + 1, 0, total - (v.ClusterSize() - r), end);
    }
  }

  lemma LastNotBefore(v: Volume, q: nat, r: nat, end: nat)
    requires v.Valid() && r < v.ClusterSize() && OffsetOf(v, q, r) < end
    ensures q <= ClusterIndex(v, end - 1)
  {
    IndexExact(v, q, r);
    hide OffsetOf;
    QuotientOrder(OffsetOf(v, q, r), end - 1, v.ClusterSize());
  }

  lemma NextCluster(v: Volume, q: nat, r: nat)
    requires r < v.ClusterSize()
    ensures OffsetOf(v, q, r) + (v.ClusterSize() - r) == OffsetOf(v, q + 1, 0)
  {
    OffsetInside(v, q, r, 0, q + 1);
  }

  /** 0xFF7 is the number of a cluster after the first, up to the last that is needed or to the end. */
  predicate OnTheWay(chain: seq<nat>, last: nat)
    requires chain != []
  {
    0xFF7 in chain[1..Min(last + 1, |chain|)]
  }

  lemma SoFar(chain: seq<nat>, q: nat, last: nat)
    requires chain != [] && q <= last
    ensures OnTheWay(chain, q) ==> OnTheWay(chain, last)
    ensures q >= |chain| ==> OnTheWay(chain, last) == OnTheWay(chain, q)
  {
  }

  lemma NothingToRead(v: Volume, cluster: nat, offset: nat)
    requires v.Valid()
    ensures FileRead(v, cluster, offset, 0) == Ok([])
  {
  }

  /** No piece of the request is cut short by the streamer. */
  predicate Uncut(v: Volume, r: nat, total: nat) {
    total >= 512 || r % 512 + total <= 512 || r + total > v.ClusterSize()
  }

  lemma UncutPieces(v: Volume, r: nat, total: nat)
    requires v.Valid() && r < v.ClusterSize() && total > 0 && Uncut(v, r, total)
    ensures var n := Min(v.ClusterSize() - r, total);
            0 < n <= total && (n >= 512 || r % 512 + n <= 512) && Uncut(v, 0, total - n)
  {
  }

  /** A piece whose bytes the streamer does not cut short is its part of the slice. */
  lemma PieceOfSlice(v: Volume, chain: seq<nat>, q: nat, r: nat, n: nat)
    requires v.Valid() && q < |chain| && r + n <= v.ClusterSize() && (n >= 512 || r % 512 + n <= 512)
    ensures OffsetOf(v, q, r) + n <= |Flat(v, chain)|
    ensures Delivered(v.disk, ClusterPos(v, chain[q]) + r, n) ==
            Flat(v, chain)[OffsetOf(v, q, r)..OffsetOf(v, q, r) + n]
  {
    hide Delivered, Flat, Slice, ClusterPos, OffsetOf, LostAreZero, Volume.ClusterSize;
    FlatAt(v, chain, q, r, n);
    PosInSector(v, chain[q], r);
    DeliveredExact(v.disk, ClusterPos(v, chain[q]) + r, n);
  }

  /** Where a piece ends the next one begins. */
  lemma PieceEnds(v: Volume, chain: seq<nat>, q: nat, r: nat, total: nat)
    requires v.Valid() && r < v.ClusterSize() && total > 0 && OffsetOf(v, q, r) + total <= |Flat(v, chain)|
    ensures q < |chain|
    ensures var n := Min(v.ClusterSize() - r, total); n < total ==> OffsetOf(v, q, r) + n == OffsetOf(v, q + 1, 0)
  {
    OffsetBeyond(v, q, r, |chain|);
    OffsetInside(v, q, r, 0, q + 1);
  }

  /** The pieces make up the slice. */
  lemma {:induction false} PiecesAreSlice(v: Volume, chain: seq<nat>, q: nat, r: nat, total: nat)
    requires v.Valid() && IsChain(v, chain) && r < v.ClusterSize() && Uncut(v, r, total)
    requires OffsetOf(v, q, r) + total <= |Flat(v, chain)| && FileRead(v, chain[0], OffsetOf(v, q, r), total).Ok?
    ensures var offset := OffsetOf(v, q, r);
            FileRead(v, chain[0], offset, total) == Ok(Flat(v, chain)[offset..offset + total])
    decreases total
  {
    hide Flat, OffsetOf, FileRead, Volume.ClusterSize, Uncut, Delivered, ClusterPos, Entry;
    var flat, offset := Flat(v, chain), OffsetOf(v, q, r);
    if total > 0 {
      PieceEnds(v, chain, q, r, total);
      UncutPieces(v, r, total);
      var n := Min(v.ClusterSize() - r, total);
      PieceOfSlice(v, chain, q, r, n);
      OnePiece(v, chain, q, r, total);
      if n < total {
        PiecesAreSlice(v, chain, q + 1, 0, total - n);
        SplitAt(flat, offset, offset + n, offset + total);
      } else {
        NothingToRead(v, chain[0], offset + n);
        assert flat[offset..offset + n] + [] == flat[offset..offset + n];
      }
    } else {
      NothingToRead(v, chain[0], offset);
      assert flat[offset..offset] == [];
    }
  }

  /** The only piece of a request that is not whole. */
  lemma OnlyPiece(v: Volume, chain: seq<nat>, q: nat, r: nat, total: nat)
    requires v.Valid() && IsChain(v, chain) && total > 0 && r < v.ClusterSize() && r + total <= v.ClusterSize()
    requires FileRead(v, chain[0], OffsetOf(v, q, r), total).Ok?
    ensures q < |chain|
    ensures var offset, pos := OffsetOf(v, q, r), ClusterPos(v, chain[q]) + r;
            && offset + total <= |Flat(v, chain)|
            && FileRead(v, chain[0], offset, total) == Ok(Delivered(v.disk, pos, total))
            && Flat(v, chain)[offset..offset + total] == Slice(v.disk, v.disk.start * 512 + pos, total)
  {
    hide Walk, Entry, Delivered, IsChain, ClusterPos, OffsetOf, Flat, Slice;
    OnePiece(v, chain, q, r, total);
    FlatAt(v, chain, q, r, total);
    var piece := Delivered(v.disk, ClusterPos(v, chain[q]) + r, total);
    assert piece + [] == piece;
  }

  lemma OffsetSplits(v: Volume, offset: nat)
    requires v.Valid()
    ensures offset == OffsetOf(v, ClusterIndex(v, offset), InCluster(v, offset))
    ensures offset % 512 == InCluster(v, offset) % 512
  {
    var size, q, r := v.ClusterSize(), ClusterIndex(v, offset), InCluster(v, offset);
    assert offset == q * size + r;
    assert q * size == (q * v.perCluster) * 512;
  }

  /** The chain has the clusters that the request needs, and 0xFF7 is on no step to them. */
  predicate Reaches(v: Volume, chain: seq<nat>, offset: nat, total: nat)
    requires v.Valid() && total > 0
  {
    var last := ClusterIndex(v, offset + total - 1);
    last < |chain| && 0xFF7 !in chain[1..last + 1]
  }

  lemma ReachesInside(v: Volume, chain: seq<nat>, offset: nat, total: nat)
    requires v.Valid() && total > 0
    ensures ClusterIndex(v, offset + total - 1) < |chain| <==> offset + total <= |Flat(v, chain)|
  {
    hide Flat, ClusterIndex, InCluster;
    OffsetSplits(v, offset + total - 1);
    hide OffsetOf;
    OffsetBeyond(v, ClusterIndex(v, offset + total - 1), InCluster(v, offset + total - 1), |chain|);
  }

  lemma ReachesPart(v: Volume, chain: seq<nat>, offset: nat, total: nat, from: nat, n: nat)
    requires v.Valid() && total > 0 && n > 0 && offset <= from && from + n <= offset + total
    requires Reaches(v, chain, offset, total)
    ensures Reaches(v, chain, from, n)
  {
    var last, part := ClusterIndex(v, offset + total - 1), ClusterIndex(v, from + n - 1);
    QuotientOrder(from + n - 1, offset + total - 1, v.ClusterSize());
    assert chain[1..last + 1][..part] == chain[1..part + 1];
  }

  lemma QuotientOrder(a: nat, b: nat, m: nat)
    requires a <= b && m > 0
    ensures a / m <= b / m
  {
    if a / m > b / m { MulStep(b / m, a / m, m); }
  }

  /**
   A read of a file delivers the slice of the concatenated clusters, in whatever order they
   lie on the disk: for whole requests always, for others exactly when the bytes that the
   streamer leaves out are zero on the disk.  A read that does not reach its clusters fails.
   */
  lemma FileReadIsSlice(v: Volume, chain: seq<nat>, offset: nat, total: nat)
    requires v.Valid() && IsChain(v, chain) && total > 0
    ensures var r := FileRead(v, chain[0], offset, total);
            if !Reaches(v, chain, offset, total) then
              r == Err(if OnTheWay(chain, ClusterIndex(v, offset + total - 1)) then EIO else EOutOfRange)
            else
              && r.Ok? && |r.value| == total && ClusterIndex(v, offset) < |chain| && offset + total <= |Flat(v, chain)|
              && var pos := ClusterPos(v, chain[ClusterIndex(v, offset)]) + InCluster(v, offset);
              r.value == Flat(v, chain)[offset..offset + total] <==>
                Whole(v, offset, total) || LostAreZero(v.disk, pos, total)
  {
    hide Walk, Entry, Delivered, IsChain, ClusterPos, OffsetOf, Flat, Slice, ClusterIndex, InCluster, FileRead,
      LostAreZero, OnTheWay;
    var q, r := ClusterIndex(v, offset), InCluster(v, offset);
    OffsetSplits(v, offset);
    ReadSucceedsExactly(v, chain, q, r, total);
    ReachesInside(v, chain, offset, total);
    if !Reaches(v, chain, offset, total) {
      ReadError(v, chain, q, r, total, offset + total);
    } else if Whole(v, offset, total) {
      PiecesAreSlice(v, chain, q, r, total);
    } else {
      OnlyPiece(v, chain, q, r, total);
      PosInSector(v, chain[q], r);
      DeliveredExact(v.disk, ClusterPos(v, chain[q]) + r, total);
    }
  }

  /** The bytes of a file in consecutive clusters lie on the disk as they lie in the file. */
  lemma ConsecutiveRead(v: Volume, c: nat, n: nat, offset: nat, total: nat)
    requires v.Valid() && c >= 2 && n > 0 && IsChain(v, Consecutive(c, n)) && total > 0
    requires Reaches(v, Consecutive(c, n), offset, total) && Whole(v, offset, total)
    ensures FileRead(v, c, offset, total) == Ok(Slice(v.disk, Place(v, c) + offset, total))
  {
    hide Walk, Entry, IsChain, Reaches, Whole, Flat, Slice, FileRead, LostAreZero, OnTheWay, ClusterPos, ClusterIndex,
      InCluster, Place;
    var chain := Consecutive(c, n);
    FileReadIsSlice(v, chain, offset, total);
    ClustersTile(v, c, n);
    SliceOfSlice(v.disk, Place(v, c), |Flat(v, chain)|, offset, total);
  }

  /** The bytes of a request that the streamer leaves out: what a short one wants of a second sector. */
  predicate Lost(v: Volume, offset: nat, total: nat, p: nat)
    requires v.Valid()
  {
    !Whole(v, offset, total) && p >= offset + 512 - offset % 512
  }

  /** A read delivers, byte by byte, the contents of the clusters, and zeros for the lost bytes. */
  lemma FileReadBytes(v: Volume, chain: seq<nat>, offset: nat, total: nat)
    requires v.Valid() && IsChain(v, chain) && total > 0 && Reaches(v, chain, offset, total)
    ensures offset + total <= |Flat(v, chain)|
    ensures var r, flat := FileRead(v, chain[0], offset, total), Flat(v, chain);
            && r.Ok? && |r.value| == total
            && forall k :: 0 <= k < total ==>
               r.value[k] == if Lost(v, offset, total, offset + k) then 0 else flat[offset + k]
  {
    hide Walk, Entry, Delivered, IsChain, ClusterPos, OffsetOf, Flat, Slice, ClusterIndex, InCluster, FileRead,
      LostAreZero;
    var q, r, flat := ClusterIndex(v, offset), InCluster(v, offset), Flat(v, chain);
    OffsetSplits(v, offset);
    ReadSucceedsExactly(v, chain, q, r, total);
    ReachesInside(v, chain, offset, total);
    if Whole(v, offset, total) {
      PiecesAreSlice(v, chain, q, r, total);
    } else {
      OnlyPiece(v, chain, q, r, total);
      PosInSector(v, chain[q], r);
      CrossingRead(v.disk, ClusterPos(v, chain[q]) + r, total);
      SplitsAlike(FileRead(v, chain[0], offset, total).value, flat[offset..offset + total], 512 - offset % 512);
    }
  }

  lemma SplitsAlike(a: Buf, b: Buf, n: nat)
    requires n <= |a| == |b| && a[..n] == b[..n]
    ensures forall k :: 0 <= k < n ==> a[k] == b[k]
  {
    forall k | 0 <= k < n ensures a[k] == b[k] {
      assert a[..n][k] == b[..n][k];
    }
  }

  /** The byte is lost by the one larger read and not by the smaller one that it falls to, or the reverse. */
  predicate LostOnce(v: Volume, offset: nat, a: nat, b: nat, p: nat)
    requires v.Valid()
  {
    Lost(v, offset, a + b, p) != if p < offset + a then Lost(v, offset, a, p) else Lost(v, offset + a, b, p)
  }

  /** Reads that follow one another make up the one larger read exactly when what is lost once is zero. */
  lemma ReadsConcatenate(v: Volume, chain: seq<nat>, offset: nat, a: nat, b: nat)
    requires v.Valid() && IsChain(v, chain) && a > 0 && b > 0 && Reaches(v, chain, offset, a + b)
    ensures offset + a + b <= |Flat(v, chain)|
    ensures var first, second := FileRead(v, chain[0], offset, a), FileRead(v, chain[0], offset + a, b);
            && first.Ok? && second.Ok?
            && (FileRead(v, chain[0], offset, a + b) == Ok(first.value + second.value) <==>
                forall p :: offset <= p < offset + a + b && LostOnce(v, offset, a, b, p) ==> Flat(v, chain)[p] == 0)
  {
    hide Walk, Entry, Delivered, IsChain, Flat, ClusterIndex, InCluster, FileRead, Lost, LostAreZero, ClusterPos,
      Reaches;
    ReachesPart(v, chain, offset, a + b, offset, a);
    ReachesPart(v, chain, offset, a + b, offset + a, b);
    FileReadBytes(v, chain, offset, a);
    FileReadBytes(v, chain, offset + a, b);
    FileReadBytes(v, chain, offset, a + b);
    var all := FileRead(v, chain[0], offset, a + b).value;
    var two := FileRead(v, chain[0], offset, a).value + FileRead(v, chain[0], offset + a, b).value;
    forall p | offset <= p < offset + a + b
      ensures all[p - offset] == two[p - offset] <==> !LostOnce(v, offset, a, b, p) || Flat(v, chain)[p] == 0
    {
      assert p == offset + (p - offset) && p >= offset + a ==> p == offset + a + (p - offset - a);
    }
    if forall p :: offset <= p < offset + a + b && LostOnce(v, offset, a, b, p) ==> Flat(v, chain)[p] == 0 {
      forall k | 0 <= k < a + b ensures all[k] == two[k] {
        assert all[offset + k - offset] == two[offset + k - offset];
      }
      assert all == two;
    } else {
      var p :| offset <= p < offset + a + b && LostOnce(v, offset, a, b, p) && Flat(v, chain)[p] != 0;
      assert all[p - offset] != two[p - offset];
    }
  }

  lemma SplitAt(s: Buf, a: nat, b: nat, c: nat)
    requires a <= b <= c <= |s|
    ensures s[a..c] == s[a..b] + s[b..c]
  {
  }

  // -------------------------------------------------------------- items of a file

  /** `fat16_read`: items one after the other, or the error of the first that fails. */
  function ItemsRead(v: Volume, cluster: nat, offset: nat, size: nat, count: nat): Result<Buf>
    requires v.Valid()
    decreases count
  {
    if count == 0 then Ok([])
    else
      var before := ItemsRead(v, cluster, offset, size, count - 1);
      if before.Err? then before
      else
        assert offset + (count - 1) * size >= 0 by { MulOrder(0, count - 1, size); }
        var item := FileRead(v, cluster, offset + (count - 1) * size, size);
        if item.Err? then item else Ok(before.value + item.value)
  }

  /** The byte is lost by the item that it falls to. */
  predicate LostInItem(v: Volume, offset: nat, size: nat, p: nat)
    requires v.Valid() && size > 0 && p >= offset
  {
    var i := (p - offset) / size;
    MulOrder(0, i, size);
    Lost(v, offset + i * size, size, p)
  }

  /** Byte `k` of what has been read is that of the contents, or a zero where it was lost. */
  predicate ItemByte(v: Volume, offset: nat, size: nat, read: Buf, flat: Buf, k: nat)
    requires v.Valid() && size > 0 && k < |read| && offset + k < |flat|
  {
    read[k] == if LostInItem(v, offset, size, offset + k) then 0 else flat[offset + k]
  }

  /** Reading item after item delivers the contents of the clusters, and zeros for what each item loses. */
  lemma {:induction false} ItemsBytes(v: Volume, chain: seq<nat>, offset: nat, size: nat, count: nat, n: nat)
    requires v.Valid() && IsChain(v, chain) && size > 0 && offset + n <= |Flat(v, chain)|
    requires n == count * size && (n > 0 ==> Reaches(v, chain, offset, n))
    ensures var r, flat := ItemsRead(v, chain[0], offset, size, count), Flat(v, chain);
            r.Ok? && |r.value| == n && forall k :: 0 <= k < n ==> ItemByte(v, offset, size, r.value, flat, k)
  {
    hide Entry, IsChain, Flat, FileRead, LostInItem, Lost, Volume.ClusterSize, Reaches;
    if count > 0 {
      var done := (count - 1) * size;
      assert n == done + size;
      MulOrder(0, count - 1, size);
      ReachesPart(v, chain, offset, n, offset + done, size);
      if done > 0 { ReachesPart(v, chain, offset, n, offset, done); }
      ItemsBytes(v, chain, offset, size, count - 1, done);
      FileReadBytes(v, chain, offset + done, size);
      var r, flat := ItemsRead(v, chain[0], offset, size, count).value, Flat(v, chain);
      forall k | 0 <= k < n ensures ItemByte(v, offset, size, r, flat, k) {
        if k < done {
          assert ItemByte(v, offset, size, ItemsRead(v, chain[0], offset, size, count - 1).value, flat, k);
        } else {
          LostInLast(v, offset, size, count - 1, k - done);
          assert offset + k == offset + done + (k - done);
        }
      }
    }
  }

  lemma LostInLast(v: Volume, offset: nat, size: nat, i: nat, k: nat)
    requires v.Valid() && k < size
    ensures i * size >= 0
    ensures LostInItem(v, offset, size, offset + (i * size + k)) ==
            Lost(v, offset + i * size, size, offset + (i * size + k))
  {
    hide Lost;
    MulOrder(0, i, size);
    DivMod(i, k, size);
  }

  /** Items make up one slice of `n` bytes exactly when the bytes that they lose are zero. */
  lemma ItemsAreSlice(v: Volume, chain: seq<nat>, offset: nat, size: nat, count: nat, n: nat)
    requires v.Valid() && IsChain(v, chain) && size > 0 && offset + n <= |Flat(v, chain)|
    requires n == count * size && (n > 0 ==> Reaches(v, chain, offset, n))
    ensures ItemsRead(v, chain[0], offset, size, count) == Ok(Flat(v, chain)[offset..offset + n]) <==>
            forall p :: p in LostInItems(v, offset, size, n) ==> Flat(v, chain)[p] == 0
  {
    assert chain != [];
    hide IsChain, Flat, ItemsRead, Volume.ClusterSize, LostInItems, Reaches, ItemByte;
    ItemsBytes(v, chain, offset, size, count, n);
    ItemsLose(v, ItemsRead(v, chain[0], offset, size, count).value, Flat(v, chain), offset, size);
    SliceExactly(ItemsRead(v, chain[0], offset, size, count), Flat(v, chain), offset, n,
      LostInItems(v, offset, size, n));
  }

  /** The bytes, of `n` from the offset on, that the items lose. */
  function LostInItems(v: Volume, offset: nat, size: nat, n: nat): (r: set<nat>)
    requires v.Valid() && size > 0
    ensures forall p :: p in r ==> offset <= p < offset + n
  {
    set p | offset <= p < offset + n && LostInItem(v, offset, size, p)
  }

  lemma ItemsLose(v: Volume, read: Buf, flat: Buf, offset: nat, size: nat)
    requires v.Valid() && size > 0 && offset + |read| <= |flat|
    requires forall k :: 0 <= k < |read| ==> ItemByte(v, offset, size, read, flat, k)
    ensures forall k :: 0 <= k < |read| ==> ByteOrZero(read, flat, offset, LostInItems(v, offset, size, |read|), k)
  {
    hide LostInItem, LostInItems;
    forall k | 0 <= k < |read| ensures ByteOrZero(read, flat, offset, LostInItems(v, offset, size, |read|), k) {
      InLost(v, offset, size, |read|, offset + k);
      assert ItemByte(v, offset, size, read, flat, k);
    }
  }

  predicate ByteOrZero(read: Buf, flat: Buf, offset: nat, lost: set<nat>, k: nat)
    requires k < |read| && offset + k < |flat|
  {
    read[k] == if offset + k in lost then 0 else flat[offset + k]
  }

  lemma InLost(v: Volume, offset: nat, size: nat, n: nat, p: nat)
    requires v.Valid() && size > 0 && offset <= p
    ensures p in LostInItems(v, offset, size, n) <==> p < offset + n && LostInItem(v, offset, size, p)
  {
  }

  /** Bytes that are those of a slice but for zeros at some places. */
  lemma SliceExactly(read: Result<Buf>, flat: Buf, offset: nat, n: nat, lost: set<nat>)
    requires read.Ok? && |read.value| == n && offset + n <= |flat|
    requires forall k :: 0 <= k < n ==> ByteOrZero(read.value, flat, offset, lost, k)
    requires forall p :: p in lost ==> offset <= p < offset + n
    ensures read == Ok(flat[offset..offset + n]) <==> forall p :: p in lost ==> flat[p] == 0
  {
    var r, want := read.value, flat[offset..offset + n];
    if p :| p in lost && flat[p] != 0 {
      assert ByteOrZero(r, flat, offset, lost, p - offset);
      assert r[p - offset] != want[p - offset];
    } else {
      forall k | 0 <= k < |r| ensures r[k] == want[k] {
        assert ByteOrZero(r, flat, offset, lost, k);
      }
      assert r == want;
    }
  }

  // -------------------------------------------- the cache, and sectors that cannot be read

  /** How an operation ends, what it has put in the caller's buffer by then, and what the cache holds. */
  datatype Transfer = Transfer(error: Option<Error>, out: Buf, cached: set<nat>)

  datatype Answer = Answer(result: Result<nat>, cached: set<nat>)

  function PieceFrom(v: Volume, cached: set<nat>, pos: nat, n: nat): Transfer {
    var r := Read(v.disk, cached, pos, n);
    Transfer(if r.ok then None else Some(EIO), r.out, r.cached)
  }

  function EntryFrom(v: Volume, cached: set<nat>, cluster: nat): Answer {
    var piece := PieceFrom(v, cached, EntryPos(v, cluster), 2);
    ReadDelivers(v.disk, cached, EntryPos(v, cluster), 2);
    Answer(if piece.error == None then Ok(LittleEndian(piece.out)) else Err(EIO), piece.cached)
  }

  /** The walk: an entry that cannot be read passes, as 16 bits, for an end mark. */
  function WalkFrom(v: Volume, cached: set<nat>, cluster: nat, ahead: nat): Answer
    decreases ahead
  {
    if ahead == 0 then Answer(Ok(cluster), cached)
    else
      var e := EntryFrom(v, cached, cluster);
      var next := Link(if e.result.Ok? then e.result.value else 0xFFFF);
      if next.Err? then Answer(next, e.cached) else WalkFrom(v, e.cached, next.value, ahead - 1)
  }

  function FileReadFrom(v: Volume, cached: set<nat>, cluster: nat, offset: nat, total: nat): Transfer
    requires v.Valid()
    decreases total
  {
    if total == 0 then Transfer(None, [], cached)
    else
      var at := WalkFrom(v, cached, cluster, ClusterIndex(v, offset));
      if at.result.Err? then Transfer(Some(at.result.error), [], at.cached)
      else
        var n := Min(v.ClusterSize() - InCluster(v, offset), total);
        var piece := PieceFrom(v, at.cached, ClusterPos(v, at.result.value) + InCluster(v, offset), n);
        if piece.error.Some? then piece
        else After(piece.out, FileReadFrom(v, piece.cached, cluster, offset + n, total - n))
  }

  /** What is transferred when `out` has been and `rest` is still to come. */
  function After(out: Buf, rest: Transfer): Transfer { rest.(out := out + rest.out) }

  lemma AfterChains(a: Buf, b: Buf, rest: Transfer)
    ensures After([], rest) == rest && After(a, After(b, rest)) == After(a + b, rest)
    ensures rest.out == [] ==> After(a, rest).out == a
  {
    assert [] + rest.out == rest.out && a + (b + rest.out) == a + b + rest.out && a + [] == a;
  }

  function ItemsFrom(v: Volume, cached: set<nat>, cluster: nat, offset: nat, size: nat, count: nat): Transfer
    requires v.Valid()
    decreases count
  {
    if count == 0 then Transfer(None, [], cached)
    else
      var before := ItemsFrom(v, cached, cluster, offset, size, count - 1);
      if before.error.Some? then before
      else
        assert offset + (count - 1) * size >= 0 by { MulOrder(0, count - 1, size); }
        After(before.out, FileReadFrom(v, before.cached, cluster, offset + (count - 1) * size, size))
  }

  /** No sector that reading the entry touches is unreadable. */
  predicate EntryReadable(v: Volume, cluster: nat) {
    AtHand(v.disk, {}, EntryPos(v, cluster) / 512, LastTouched(EntryPos(v, cluster), 2))
  }

  lemma HandAtOnce(d: Disk, cached: set<nat>, pos: nat, total: nat)
    ensures AtHand(d, {}, pos / 512, LastTouched(pos, total)) ==> AtHand(d, cached, pos / 512, LastTouched(pos, total))
  {
  }

  predicate WalkReadable(v: Volume, cluster: nat, ahead: nat)
    decreases ahead
  {
    ahead == 0 ||
    (EntryReadable(v, cluster) &&
     (Link(Entry(v, cluster)).Ok? ==> WalkReadable(v, Link(Entry(v, cluster)).value, ahead - 1)))
  }

  predicate FileReadable(v: Volume, cluster: nat, offset: nat, total: nat)
    requires v.Valid()
    decreases total
  {
    total == 0 ||
    (WalkReadable(v, cluster, ClusterIndex(v, offset)) &&
     var at := Walk(v, cluster, ClusterIndex(v, offset));
     at.Ok? ==>
       var n, pos := Min(v.ClusterSize() - InCluster(v, offset), total), ClusterPos(v, at.value) + InCluster(v, offset);
       AtHand(v.disk, {}, pos / 512, LastTouched(pos, n)) && FileReadable(v, cluster, offset + n, total - n))
  }

  /** Every item can be read as far as one that fails for want of clusters. */
  predicate ItemsReadable(v: Volume, cluster: nat, offset: nat, size: nat, count: nat)
    requires v.Valid()
    decreases count
  {
    count == 0 ||
    (ItemsReadable(v, cluster, offset, size, count - 1) &&
     (ItemsRead(v, cluster, offset, size, count - 1).Ok? ==>
        offset + (count - 1) * size >= 0 && FileReadable(v, cluster, offset + (count - 1) * size, size)))
  }

  lemma {:induction false} WalkWhenReadable(v: Volume, cached: set<nat>, cluster: nat, ahead: nat)
    requires WalkReadable(v, cluster, ahead)
    ensures WalkFrom(v, cached, cluster, ahead).result == Walk(v, cluster, ahead)
    decreases ahead
  {
    hide Read, Delivered, AtHand, LastTouched, Link;
    if ahead > 0 {
      HandAtOnce(v.disk, cached, EntryPos(v, cluster), 2);
      ReadDelivers(v.disk, cached, EntryPos(v, cluster), 2);
      var next := Link(Entry(v, cluster));
      if next.Ok? {
        WalkWhenReadable(v, EntryFrom(v, cached, cluster).cached, next.value, ahead - 1);
      }
    }
  }

  /** How a transfer ends that is to be `r`; on an error some bytes may have been put in place. */
  predicate Ends(t: Transfer, r: Result<Buf>) {
    if r.Ok? then t.error == None && t.out == r.value else t.error == Some(r.error)
  }

  lemma {:induction false} FileReadWhenReadable(v: Volume, cached: set<nat>, cluster: nat, offset: nat, total: nat)
    requires v.Valid() && FileReadable(v, cluster, offset, total)
    ensures Ends(FileReadFrom(v, cached, cluster, offset, total), FileRead(v, cluster, offset, total))
    decreases total
  {
    hide Read, Delivered, AtHand, LastTouched, Walk, WalkFrom, WalkReadable, ClusterPos, ClusterIndex, InCluster;
    if total > 0 {
      var ahead := ClusterIndex(v, offset);
      WalkWhenReadable(v, cached, cluster, ahead);
      var at := WalkFrom(v, cached, cluster, ahead);
      if at.result.Ok? {
        var n := Min(v.ClusterSize() - InCluster(v, offset), total);
        var pos := ClusterPos(v, at.result.value) + InCluster(v, offset);
        HandAtOnce(v.disk, at.cached, pos, n);
        ReadDelivers(v.disk, at.cached, pos, n);
        FileReadWhenReadable(v, PieceFrom(v, at.cached, pos, n).cached, cluster, offset + n, total - n);
      }
    }
  }

  /**
   Where every sector that is needed can be read, the cache makes no difference to the
   answer, and items are what `ItemsRead` says of the bytes on the disk.
   */
  lemma {:induction false} ItemsWhenReadable(v: Volume, cached: set<nat>, cluster: nat, offset: nat, size: nat,
      count: nat)
    requires v.Valid() && ItemsReadable(v, cluster, offset, size, count)
    ensures Ends(ItemsFrom(v, cached, cluster, offset, size, count), ItemsRead(v, cluster, offset, size, count))
    decreases count
  {
    hide FileRead, FileReadFrom, FileReadable;
    if count > 0 {
      ItemsWhenReadable(v, cached, cluster, offset, size, count - 1);
      var before := ItemsFrom(v, cached, cluster, offset, size, count - 1);
      MulOrder(0, count - 1, size);
      if before.error == None {
        FileReadWhenReadable(v, before.cached, cluster, offset + (count - 1) * size, size);
      }
    }
  }

  lemma {:induction false} FailureStays(v: Volume, cached: set<nat>, cluster: nat, offset: nat, size: nat, some: nat,
      count: nat)
    requires v.Valid() && some <= count && ItemsFrom(v, cached, cluster, offset, size, some).error.Some?
    ensures ItemsFrom(v, cached, cluster, offset, size, count) == ItemsFrom(v, cached, cluster, offset, size, some)
    decreases count
  {
    hide FileReadFrom;
    if some < count {
      FailureStays(v, cached, cluster, offset, size, some, count - 1);
    }
  }

  // ---------------------------------------------------------------- file system

  class FileSystem {
    const volume: Volume
    const disk: CachedDisk
    const fatStream: Stream
    const clusterStream: Stream

    ghost predicate Valid()
      reads this, disk, disk.cache, disk.cache.ring
    {
      && volume.Valid() && disk.Valid() && disk.disk == volume.disk
      && fatStream.disk == clusterStream.disk == disk && fatStream != clusterStream
    }

    constructor (volume: Volume)
      requires volume.Valid()
      ensures Valid() && this.volume == volume && fresh(disk) && fresh(disk.cache) && fresh(disk.cache.ring)
      ensures fresh(fatStream) && fresh(clusterStream)
    {
      this.volume := volume;
      var d := new CachedDisk(volume.disk);
      disk := d;
      fatStream := new Stream(d);
      clusterStream := new Stream(d);
    }

    /** Seeking a stream and reading from it. */
    method ReadPiece(stream: Stream, pos: nat, n: nat) returns (ok: bool, out: Buf)
      requires Valid() && stream.disk == disk
      modifies stream, disk, disk.cache, disk.cache.ring
      ensures Valid()
      ensures Transfer(if ok then None else Some(EIO), out, disk.cached) == PieceFrom(volume, old(disk.cached), pos, n)
    {
      hide CachedDisk.Valid, Read;
      stream.SeekTo(pos);
      ok, out := stream.ReadBytes(n);
    }

    /** `fat16_get_fat_entry`. */
    method GetFatEntry(cluster: nat) returns (r: Result<nat>)
      requires Valid()
      modifies fatStream, disk, disk.cache, disk.cache.ring
      ensures Valid() && Answer(r, disk.cached) == EntryFrom(volume, old(disk.cached), cluster)
      ensures r.Ok? ==> r.value < 65536
    {
      hide CachedDisk.Valid, Read, Delivered, AtHand, LastTouched;
      ReadDelivers(volume.disk, disk.cached, EntryPos(volume, cluster), 2);
      var ok, bytes := ReadPiece(fatStream, volume.reserved * 512 + cluster * 2, 2);
      if !ok {
        return Err(EIO);
      }
      return Ok(LittleEndian(bytes));
    }

    /** `fat16_get_cluster_for_offset`. */
    method GetClusterForOffset(start: nat, offset: nat) returns (r: Result<nat>)
      requires Valid() && start < 65536
      modifies fatStream, disk, disk.cache, disk.cache.ring
      ensures Valid() && Answer(r, disk.cached) ==
              WalkFrom(volume, old(disk.cached), start, ClusterIndex(volume, offset))
      ensures r.Ok? ==> r.value < 65536
    {
      hide CachedDisk.Valid, EntryFrom, ClusterIndex;
      var clusterToUse := start;
      var clustersAhead := ClusterIndex(volume, offset);
      ghost var walk := WalkFrom(volume, disk.cached, start, clustersAhead);
      for i := 0 to clustersAhead
        invariant Valid() && clusterToUse < 65536
        invariant walk == WalkFrom(volume, disk.cached, clusterToUse, clustersAhead - i)
      {
        var e := GetFatEntry(clusterToUse);
        var entry := if e.Ok? then e.value else 0xFFFF;
        if entry >= 0xFFF8 {
          return Err(EOutOfRange);
        }
        if entry == 0xFF7 || (entry >= 0xFFF0 && entry <= 0xFFF6) || entry == 0 {
          return Err(EIO);
        }
        clusterToUse := entry;
      }
      return Ok(clusterToUse);
    }

    /** `fat16_read_internal_from_stream`. */
    method ReadInternal(cluster: nat, offset: nat, length: nat) returns (r: Result<nat>, out: Buf)
      requires Valid() && cluster < 65536
      modifies fatStream, clusterStream, disk, disk.cache, disk.cache.ring
      ensures Valid()
      ensures var t := FileReadFrom(volume, old(disk.cached), cluster, offset, length);
              && out == t.out && disk.cached == t.cached
              && r == if t.error == None then Ok(length) else Err(t.error.value)
    {
      hide CachedDisk.Valid, WalkFrom, Read, ClusterIndex, InCluster, ClusterPos, After;
      var bytesRead, startingOffset, total: nat := 0, offset, length;
      ghost var all := FileReadFrom(volume, disk.cached, cluster, offset, length);
      out := [];
      AfterChains([], [], all);
      while total > 0
        invariant Valid() && bytesRead + total == length && startingOffset + total == offset + length
        invariant all == After(out, FileReadFrom(volume, disk.cached, cluster, startingOffset, total))
        decreases total
      {
        ghost var before := disk.cached;
        var at := GetClusterForOffset(cluster, startingOffset);
        if at.Err? {
          AfterFailure(out, FileReadFrom(volume, before, cluster, startingOffset, total));
          return Err(at.error), out;
        }
        var n := Min(volume.ClusterSize() - InCluster(volume, startingOffset), total);
        var ok, piece := ReadPiece(clusterStream, ClusterPos(volume, at.value) + InCluster(volume, startingOffset), n);
        AfterChains(out, piece, FileReadFrom(volume, disk.cached, cluster, startingOffset + n, total - n));
        if !ok {
          AfterFailure(out, FileReadFrom(volume, before, cluster, startingOffset, total));
          return Err(EIO), out + piece;
        }
        out := out + piece;
        startingOffset := startingOffset + n;
        bytesRead := bytesRead + n;
        total := total - n;
      }
      AfterFailure(out, Transfer(None, [], disk.cached));
      return Ok(bytesRead), out;
    }
  }

  lemma AfterFailure(out: Buf, rest: Transfer)
    ensures After(out, rest) == Transfer(rest.error, out + rest.out, rest.cached) && out + [] == out
  {
  }

  /** An open file: `item->low_16_bits_first_cluster` and the position. */
  class File {
    const fs: FileSystem
    const firstCluster: nat
    var pos: nat

    constructor (fs: FileSystem, firstCluster: nat)
      ensures this.fs == fs && this.firstCluster == firstCluster && pos == 0
    {
      this.fs, this.firstCluster, pos := fs, firstCluster, 0;
    }

    /** `fat16_read`: on an error the position stays where it was. */
    method ReadItems(size: nat, count: nat) returns (r: Result<nat>, out: Buf)
      requires fs.Valid() && firstCluster < 65536
      modifies this, fs.fatStream, fs.clusterStream, fs.disk, fs.disk.cache, fs.disk.cache.ring
      ensures fs.Valid()
      ensures var t := ItemsFrom(fs.volume, old(fs.disk.cached), firstCluster, old(pos), size, count);
              && out == t.out && fs.disk.cached == t.cached
              && r == (if t.error == None then Ok(count) else Err(t.error.value))
              && pos == if t.error == None then old(pos) + count * size else old(pos)
    {
      hide FileReadFrom, CachedDisk.Valid;
      var offset := pos;
      out := [];
      for i := 0 to count
        invariant fs.Valid() && offset == pos + i * size && pos == old(pos)
        invariant Transfer(None, out, fs.disk.cached) ==
                  ItemsFrom(fs.volume, old(fs.disk.cached), firstCluster, pos, size, i)
      {
        MulOrder(0, i, size);
        assert (i + 1) * size == i * size + size;
        var read, bytes := fs.ReadInternal(firstCluster, offset, size);
        out := out + bytes;
        if read.Err? {
          FailureStays(fs.volume, old(fs.disk.cached), firstCluster, pos, size, i + 1, count);
          return Err(read.error), out;
        }
        offset := offset + size;
      }
      MulOrder(0, count, size);
      pos := offset;
      return Ok(count), out;
    }
  }
}
