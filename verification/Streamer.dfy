/**
 The disk streamer and its sector cache (disk/streamer.c, disk/disk.c).

 A disk keeps the sectors it has read in a tree of buckets three levels deep.  A ring
 remembers in which bucket each new sector went; `kfree` does nothing, so a bucket that
 drops out of the ring stays linked and keeps its sectors.
 Sectors are 512 bytes, sector buffers 2048; positions stay below 2^31.
 */
module Streamer {
  import opened Basics

  type Buf = seq<bv8>
  type Sector = s: Buf | |s| == 512 witness seq(512, i => 0)

  /** A disk or partition; the device answers for absolute sectors and never changes. */
  datatype Disk = Disk(start: nat, end: nat, device: nat -> Option<Sector>)

  // ------------------------------------------------------------ what is on disk

  /** `disk_read_block` of one absolute sector succeeds. */
  predicate Readable(d: Disk, n: nat) {
    !(n + 1 > d.end && d.start != 0 && d.end != 0) && d.device(n).Some?
  }

  function Zeros(n: nat): (r: Buf)
    ensures |r| == n && forall k :: 0 <= k < n ==> r[k] == 0
  {
    seq(n, i => 0)
  }

  /** What a sector's buffer holds after the one attempt to read it. */
  function Content(d: Disk, n: nat): (r: Buf)
    ensures |r| == 2048
    ensures forall k :: 512 <= k < 2048 ==> r[k] == 0
  {
    if Readable(d, n) then d.device(n).value + Zeros(1536) else Zeros(2048)
  }

  /** The disk byte at absolute position `at`. */
  function Byte(d: Disk, at: nat): bv8 { Content(d, at / 512)[at % 512] }

  /** Which is what the device has there, and zero where it or the partition does not let it be read. */
  lemma ByteIsOnDevice(d: Disk, at: nat)
    ensures Byte(d, at) ==
            if (at / 512 < d.end || d.start == 0 || d.end == 0) && d.device(at / 512).Some?
            then d.device(at / 512).value[at % 512] else 0
  {
  }

  /** The disk bytes [at, at + length). */
  function Slice(d: Disk, at: nat, length: nat): (r: Buf)
    ensures |r| == length && forall k :: 0 <= k < length ==> r[k] == Byte(d, at + k)
  {
    if length == 0 then [] else Slice(d, at, length - 1) + [Byte(d, at + length - 1)]
  }

  // ---------------------------------------------------------- reading, as values

  function LastTouched(pos: nat, total: nat): nat { (pos + total + 511) / 512 }

  function Amount(pos: nat, total: nat): nat { if total < 512 then total else 512 - pos % 512 }

  datatype Outcome = Outcome(ok: bool, out: Buf, pos: nat, cached: set<nat>)

  /** The loop of `diskstreamer_read` from sector `i` on, when `cached` are in the cache. */
  function ReadFrom(d: Disk, cached: set<nat>, i: nat, last: nat, pos: nat, total: nat): Outcome
    decreases last + 1 - i
  {
    if i > last then Outcome(true, [], pos, cached)
    else
      var n, amount := d.start + i, Amount(pos, total);
      if n in cached || Readable(d, n) then
        var rest := ReadFrom(d, cached + {n}, i + 1, last, pos + amount, total - amount);
        rest.(out := Content(d, n)[pos % 512..pos % 512 + amount] + rest.out)
      else Outcome(false, [], pos, cached + {n})
  }

  function Read(d: Disk, cached: set<nat>, pos: nat, total: nat): Outcome {
    ReadFrom(d, cached, pos / 512, LastTouched(pos, total), pos, total)
  }

  /** What a successful read delivers: a short read does not go on to the next sector. */
  function Delivered(d: Disk, pos: nat, total: nat): (r: Buf)
    ensures |r| == total
  {
    if total < 512 then Content(d, d.start + pos / 512)[pos % 512..pos % 512 + total]
    else Slice(d, d.start * 512 + pos, total)
  }

  /** Every sector of the loop, that is one more than holds the bytes, is at hand. */
  predicate AtHand(d: Disk, cached: set<nat>, i: nat, last: nat) {
    forall n :: d.start + i <= n <= d.start + last ==> n in cached || Readable(d, n)
  }

  lemma HandStep(d: Disk, cached: set<nat>, i: nat, last: nat)
    requires i <= last
    ensures var n := d.start + i;
            AtHand(d, cached, i, last) == ((n in cached || Readable(d, n)) && AtHand(d, cached + {n}, i + 1, last))
  {
  }

  lemma ReadStep(d: Disk, cached: set<nat>, i: nat, last: nat, pos: nat, total: nat)
    requires i <= last
    ensures var n, amount, r := d.start + i, Amount(pos, total), ReadFrom(d, cached, i, last, pos, total);
            var rest := ReadFrom(d, cached + {n}, i + 1, last, pos + amount, total - amount);
            if n in cached || Readable(d, n) then
              && r.ok == rest.ok && r.pos == rest.pos && r.cached == rest.cached
              && r.out == Content(d, n)[pos % 512..pos % 512 + amount] + rest.out
            else r == Outcome(false, [], pos, cached + {n})
  {
  }

  lemma {:induction false} NothingLeftToRead(d: Disk, cached: set<nat>, i: nat, last: nat, pos: nat)
    ensures var r := ReadFrom(d, cached, i, last, pos, 0);
            r.ok == AtHand(d, cached, i, last) && r.out == [] && r.pos == pos
    decreases last + 1 - i
  {
    if i <= last {
      var n := d.start + i;
      if n in cached || Readable(d, n) {
        NothingLeftToRead(d, cached + {n}, i + 1, last, pos);
        assert AtHand(d, cached, i, last) == AtHand(d, cached + {n}, i + 1, last);
      }
    }
  }

  lemma PieceIsSlice(d: Disk, i: nat, off: nat, amount: nat)
    requires off + amount <= 512
    ensures Content(d, d.start + i)[off..off + amount] == Slice(d, (d.start + i) * 512 + off, amount)
  {
    var piece, slice := Content(d, d.start + i)[off..off + amount], Slice(d, (d.start + i) * 512 + off, amount);
    forall k | 0 <= k < amount ensures piece[k] == slice[k] {
      var at := (d.start + i) * 512 + off + k;
      assert at / 512 == d.start + i && at % 512 == off + k;
    }
  }

  lemma SliceSplits(d: Disk, at: nat, a: nat, b: nat)
    ensures Slice(d, at, a + b) == Slice(d, at, a) + Slice(d, at + a, b)
  {
    hide Byte;
    var whole, parts := Slice(d, at, a + b), Slice(d, at, a) + Slice(d, at + a, b);
    forall k | 0 <= k < a + b ensures whole[k] == parts[k] {
    }
  }

  lemma SliceOfSlice(d: Disk, at: nat, length: nat, from: nat, n: nat)
    requires from + n <= length
    ensures Slice(d, at, length)[from..from + n] == Slice(d, at + from, n)
  {
    var part, slice := Slice(d, at, length)[from..from + n], Slice(d, at + from, n);
    forall k | 0 <= k < n ensures part[k] == slice[k] {
    }
  }

  /** From the start of a sector on, the loop delivers the bytes of the disk. */
  lemma {:induction false} AlignedRead(d: Disk, cached: set<nat>, i: nat, total: nat)
    ensures var last := LastTouched(i * 512, total);
            var r := ReadFrom(d, cached, i, last, i * 512, total);
            r.ok == AtHand(d, cached, i, last) &&
            (r.ok ==> r.out == Slice(d, (d.start + i) * 512, total) && r.pos == i * 512 + total)
    decreases total
  {
    hide ReadFrom, AtHand, Slice, Content, Readable;
    var last, n, amount := LastTouched(i * 512, total), d.start + i, Amount(i * 512, total);
    ReadStep(d, cached, i, last, i * 512, total);
    HandStep(d, cached, i, last);
    PieceIsSlice(d, i, 0, amount);
    if total < 512 {
      NothingLeftToRead(d, cached + {n}, i + 1, last, i * 512 + total);
    } else {
      AlignedRead(d, cached + {n}, i + 1, total - 512);
      SliceSplits(d, (d.start + i) * 512, 512, total - 512);
    }
  }

  /** What a read delivers, and exactly when it succeeds. */
  lemma ReadDelivers(d: Disk, cached: set<nat>, pos: nat, total: nat)
    ensures var r := Read(d, cached, pos, total);
            r.ok == AtHand(d, cached, pos / 512, LastTouched(pos, total)) &&
            (r.ok ==> r.out == Delivered(d, pos, total) && r.pos == pos + total)
  {
    hide ReadFrom, AtHand, Slice, Content, Readable;
    var i, last, off := pos / 512, LastTouched(pos, total), pos % 512;
    var n, amount := d.start + i, Amount(pos, total);
    ReadStep(d, cached, i, last, pos, total);
    HandStep(d, cached, i, last);
    if total < 512 {
      NothingLeftToRead(d, cached + {n}, i + 1, last, pos + total);
    } else {
      assert pos + amount == (i + 1) * 512 && last == LastTouched((i + 1) * 512, total - amount);
      AlignedRead(d, cached + {n}, i + 1, total - amount);
      PieceIsSlice(d, i, off, amount);
      SliceSplits(d, d.start * 512 + pos, amount, total - amount);
      assert (d.start + i) * 512 + off == d.start * 512 + pos;
    }
  }

  /** The bytes that a short read should take from the next sector are zero. */
  predicate LostAreZero(d: Disk, pos: nat, total: nat) {
    forall at :: d.start * 512 + pos + 512 - pos % 512 <= at < d.start * 512 + pos + total ==> Byte(d, at) == 0
  }

  /** On this disk the read is right exactly when no lost byte matters. */
  lemma DeliveredExact(d: Disk, pos: nat, total: nat)
    ensures Delivered(d, pos, total) == Slice(d, d.start * 512 + pos, total) <==>
            total >= 512 || pos % 512 + total <= 512 || LostAreZero(d, pos, total)
  {
    hide Content, Slice, Byte;
    if total < 512 && pos % 512 + total > 512 {
      var here, at := 512 - pos % 512, d.start * 512 + pos;
      var got, want := Delivered(d, pos, total), Slice(d, at, total);
      CrossingRead(d, pos, total);
      if LostAreZero(d, pos, total) {
        forall k | here <= k < total ensures got[k] == want[k] {
          assert want[k] == Byte(d, at + k);
        }
        assert got == got[..here] + got[here..] && want == want[..here] + want[here..];
      } else {
        var b :| at + here <= b < at + total && Byte(d, b) != 0;
        assert want[b - at] != got[b - at];
      }
    } else if total < 512 {
      ShortRead(d, pos, total);
    }
  }

  lemma ShortRead(d: Disk, pos: nat, total: nat)
    requires total < 512 && pos % 512 + total <= 512
    ensures Delivered(d, pos, total) == Slice(d, d.start * 512 + pos, total)
  {
    hide Content, Slice;
    PieceIsSlice(d, pos / 512, pos % 512, total);
    assert (d.start + pos / 512) * 512 + pos % 512 == d.start * 512 + pos;
  }

  /** Up to the end of the sector the bytes are right, then they are the buffer's zeros. */
  lemma CrossingRead(d: Disk, pos: nat, total: nat)
    requires total < 512 < pos % 512 + total
    ensures var got, want, here := Delivered(d, pos, total), Slice(d, d.start * 512 + pos, total), 512 - pos % 512;
            && |got| == total && got[..here] == want[..here] && forall k :: here <= k < total ==> got[k] == 0
  {
    hide Slice, Byte;
    var got, at, here := Delivered(d, pos, total), d.start * 512 + pos, 512 - pos % 512;
    var buf := Content(d, d.start + pos / 512);
    hide Content;
    assert forall k :: here <= k < total ==> got[k] == buf[pos % 512 + k];
    ShortRead(d, pos, here);
    SliceSplits(d, at, here, total - here);
    assert got[..here] == buf[pos % 512..pos % 512 + here];
  }

  /** The reads that deliver the disk's bytes whatever the disk holds. */
  lemma ReadsRightExactly(pos: nat, total: nat)
    ensures (forall d: Disk :: Delivered(d, pos, total) == Slice(d, d.start * 512 + pos, total)) <==>
            total >= 512 || pos % 512 + total <= 512
  {
    hide Content, Slice, Byte;
    if total >= 512 || pos % 512 + total <= 512 {
      forall d: Disk ensures Delivered(d, pos, total) == Slice(d, d.start * 512 + pos, total) {
        if total < 512 { ShortRead(d, pos, total); }
      }
    } else {
      var d := ShortReadLosesBytes(pos, total);
    }
  }

  lemma ShortReadLosesBytes(pos: nat, total: nat) returns (d: Disk)
    requires total < 512 < pos % 512 + total
    ensures Delivered(d, pos, total) != Slice(d, d.start * 512 + pos, total)
  {
    var ones: Sector := seq(512, i => 1);
    d := Disk(0, 0, n => Some(ones));
    var k, at := 512 - pos % 512, pos + 512 - pos % 512;
    assert Content(d, at / 512)[0] == 1;
    hide Content;
    assert Delivered(d, pos, total)[k] == 0;
    assert at % 512 == 0;
    assert Slice(d, pos, total)[k] == Byte(d, at) == 1;
  }

  lemma {:induction false} ReadFromCaches(d: Disk, cached: set<nat>, i: nat, last: nat, pos: nat, total: nat)
    ensures var r := ReadFrom(d, cached, i, last, pos, total);
            r.ok ==> forall n :: n in r.cached <==> n in cached || d.start + i <= n <= d.start + last
    decreases last + 1 - i
  {
    hide ReadFrom, Content, Readable;
    if i > last {
      ReadEnd(d, cached, i, last, pos, total);
    } else {
      ReadStep(d, cached, i, last, pos, total);
      ReadFromCaches(d, cached + {d.start + i}, i + 1, last, pos + Amount(pos, total), total - Amount(pos, total));
    }
  }

  /**
   A read comes to the sectors that its bytes lie in and to one more, the one behind them: it
   succeeds exactly if each of these is cached or can be read, and then they are all cached.
   */
  lemma TouchesOneMore(d: Disk, cached: set<nat>, pos: nat, total: nat)
    ensures var r, first, last := Read(d, cached, pos, total), d.start + pos / 512, d.start + (pos + total - 1) / 512;
            && (r.ok <==> forall n: nat :: first <= n <= last + 1 ==> n in cached || Readable(d, n))
            && (r.ok ==> forall n :: n in r.cached <==> n in cached || first <= n <= last + 1)
  {
    hide ReadFrom, Readable;
    ReadDelivers(d, cached, pos, total);
    ReadFromCaches(d, cached, pos / 512, LastTouched(pos, total), pos, total);
  }

  /**
   The sector after the last byte is read too: at the end of a partition a read delivers
   all its bytes and yet fails, the first time only.
   */
  lemma PartitionEndFailsOnce(d: Disk, cached: set<nat>, pos: nat, total: nat)
    requires var last := LastTouched(pos, total);
             && d.start != 0 && d.end == d.start + last && d.end !in cached && pos / 512 < last
             && forall n :: d.start + pos / 512 <= n < d.end ==> Readable(d, n)
    ensures var first := Read(d, cached, pos, total);
            && !first.ok && first.out == Delivered(d, pos, total)
            && Read(d, first.cached, pos, total).ok && Read(d, first.cached, pos, total).out == Delivered(d, pos, total)
  {
    hide ReadFrom, Content, Slice;
    ReadDelivers(d, cached, pos, total);
    assert !Readable(d, d.end);
    LastIsEmpty(d, cached, pos / 512, LastTouched(pos, total), pos, total);
    ReadDelivers(d, cached + {d.end}, pos, total);
    ReadDelivers(d, Read(d, cached, pos, total).cached, pos, total);
  }

  /** Nothing is taken from the last sector of the loop, but it ends up in the cache. */
  lemma {:induction false} LastIsEmpty(d: Disk, cached: set<nat>, i: nat, last: nat, pos: nat, total: nat)
    requires i <= last && forall n :: d.start + i <= n < d.start + last ==> Readable(d, n)
    requires total == 0 || (pos / 512 == i && last == LastTouched(pos, total))
    ensures d.start + last in ReadFrom(d, cached, i, last, pos, total).cached
    ensures ReadFrom(d, cached, i, last, pos, total).out ==
            ReadFrom(d, cached + {d.start + last}, i, last, pos, total).out
    decreases last - i
  {
    hide ReadFrom, Content, Readable;
    var n, amount := d.start + i, Amount(pos, total);
    ReadStep(d, cached, i, last, pos, total);
    ReadStep(d, cached + {d.start + last}, i, last, pos, total);
    if i < last {
      assert cached + {n} + {d.start + last} == cached + {d.start + last} + {n};
      LastIsEmpty(d, cached + {n}, i + 1, last, pos + amount, total - amount);
    } else {
      NothingLeftToRead(d, cached, i, last, pos);
      NothingLeftToRead(d, cached + {d.start + last}, i, last, pos);
      CachedStays(d, cached + {n}, i + 1, last, pos + amount, total - amount);
    }
  }

  lemma {:induction false} CachedStays(d: Disk, cached: set<nat>, i: nat, last: nat, pos: nat, total: nat)
    ensures cached <= ReadFrom(d, cached, i, last, pos, total).cached
    decreases last + 1 - i
  {
    if i <= last {
      CachedStays(d, cached + {d.start + i}, i + 1, last, pos + Amount(pos, total), total - Amount(pos, total));
    }
  }

  // -------------------------------------------------------- any number of streams

  datatype Op = Seek(stream: nat, to: nat) | Fetch(stream: nat, total: nat)

  /** Stream `s` moves to `to`; there may be no such stream. */
  function Moved(at: seq<nat>, s: nat, to: nat): seq<nat> { if s < |at| then at[s := to] else at }

  /** What a caller sees of a read. */
  datatype Seen = Seen(ok: bool, out: Buf)

  /** What a history of seeks and reads shows; stream `s` stands at `at[s]`. */
  function Run(d: Disk, cached: set<nat>, at: seq<nat>, ops: seq<Op>): seq<Seen>
    decreases |ops|
  {
    if ops == [] then []
    else if ops[0].Seek? || ops[0].stream >= |at| then Run(d, cached, Sought(at, ops[0]), ops[1..])
    else
      var r := Read(d, cached, at[ops[0].stream], ops[0].total);
      [Seen(r.ok, r.out)] + Run(d, r.cached, Moved(at, ops[0].stream, r.pos), ops[1..])
  }

  function Sought(at: seq<nat>, op: Op): seq<nat> { if op.Seek? then Moved(at, op.stream, op.to) else at }

  /** The same history without a cache, each read going to the disk. */
  function Uncached(d: Disk, at: seq<nat>, ops: seq<Op>): seq<Seen>
    decreases |ops|
  {
    if ops == [] then []
    else if ops[0].Seek? || ops[0].stream >= |at| then Uncached(d, Sought(at, ops[0]), ops[1..])
    else
      var r := Read(d, {}, at[ops[0].stream], ops[0].total);
      [Seen(r.ok, r.out)] + Uncached(d, Moved(at, ops[0].stream, r.pos), ops[1..])
  }

  /**
   The first sector of the loop that cannot be read is in the cache, from an earlier attempt,
   and either bytes are wanted from it or nothing else is missing.
   */
  predicate Stale(d: Disk, cached: set<nat>, i: nat, last: nat, pos: nat, total: nat)
    decreases last + 1 - i
  {
    i <= last &&
    if Readable(d, d.start + i) then Stale(d, cached, i + 1, last, pos + Amount(pos, total), total - Amount(pos, total))
    else d.start + i in cached && (total > 0 || AtHand(d, cached, i, last))
  }

  /** No read of the history meets a sector that an earlier one failed at. */
  predicate NeverStale(d: Disk, cached: set<nat>, at: seq<nat>, ops: seq<Op>)
    decreases |ops|
  {
    if ops == [] then true
    else if ops[0].Seek? || ops[0].stream >= |at| then NeverStale(d, cached, Sought(at, ops[0]), ops[1..])
    else
      var pos, total := at[ops[0].stream], ops[0].total;
      var r := Read(d, cached, pos, total);
      && !Stale(d, cached, pos / 512, LastTouched(pos, total), pos, total)
      && NeverStale(d, r.cached, Moved(at, ops[0].stream, r.pos), ops[1..])
  }

  /** A read with a cache, and what was or is in it, against one without. */
  lemma {:induction false} StaleExactly(d: Disk, cached: set<nat>, some: set<nat>, i: nat, last: nat, pos: nat,
      total: nat)
    requires forall n :: n in some ==> n < d.start + i
    ensures var r, u := ReadFrom(d, cached, i, last, pos, total), ReadFrom(d, some, i, last, pos, total);
            && r.pos == pos + |r.out| && u.pos == pos + |u.out|
            && (r.ok == u.ok && r.out == u.out <==> !Stale(d, cached, i, last, pos, total))
    decreases last + 1 - i
  {
    hide Content, Readable, ReadFrom, AtHand;
    if i <= last {
      var n, amount := d.start + i, Amount(pos, total);
      ReadStep(d, cached, i, last, pos, total);
      ReadStep(d, some, i, last, pos, total);
      StaleExactly(d, cached + {n}, some + {n}, i + 1, last, pos + amount, total - amount);
      StaleLater(d, cached, n, i + 1, last, pos + amount, total - amount);
      if Readable(d, n) {
        SamePrefix(Content(d, n)[pos % 512..pos % 512 + amount],
                   ReadFrom(d, cached + {n}, i + 1, last, pos + amount, total - amount).out,
                   ReadFrom(d, some + {n}, i + 1, last, pos + amount, total - amount).out);
      } else if total == 0 {
        NothingLeftToRead(d, cached, i, last, pos);
      }
    } else {
      ReadEnd(d, cached, i, last, pos, total);
      ReadEnd(d, some, i, last, pos, total);
    }
  }

  lemma SamePrefix(p: Buf, a: Buf, b: Buf)
    ensures p + a == p + b <==> a == b
  {
    assert (p + a)[|p|..] == a && (p + b)[|p|..] == b;
  }

  lemma {:induction false} StaleLater(d: Disk, cached: set<nat>, n: nat, i: nat, last: nat, pos: nat, total: nat)
    requires n < d.start + i
    ensures Stale(d, cached + {n}, i, last, pos, total) == Stale(d, cached, i, last, pos, total)
    decreases last + 1 - i
  {
    hide Readable;
    if i <= last {
      StaleLater(d, cached, n, i + 1, last, pos + Amount(pos, total), total - Amount(pos, total));
    }
  }

  /**
   The cache is transparent: whatever it holds, a history can tell it from none exactly when
   it comes back to a sector that could not be read.
   */
  lemma {:induction false} CacheIsTransparent(d: Disk, cached: set<nat>, at: seq<nat>, ops: seq<Op>)
    ensures Run(d, cached, at, ops) == Uncached(d, at, ops) <==> NeverStale(d, cached, at, ops)
    decreases |ops|
  {
    hide ReadFrom, Stale, Moved, LastTouched;
    if ops == [] {
    } else if ops[0].Seek? || ops[0].stream >= |at| {
      CacheIsTransparent(d, cached, Sought(at, ops[0]), ops[1..]);
    } else {
      var s, pos, total := ops[0].stream, at[ops[0].stream], ops[0].total;
      var r := Read(d, cached, pos, total);
      StaleExactly(d, cached, {}, pos / 512, LastTouched(pos, total), pos, total);
      CacheIsTransparent(d, r.cached, Moved(at, s, r.pos), ops[1..]);
      SameList(Run(d, cached, at, ops), Uncached(d, at, ops));
    }
  }

  lemma SameList(a: seq<Seen>, b: seq<Seen>)
    requires a != [] && b != []
    ensures a == b <==> a[0] == b[0] && a[1..] == b[1..]
  {
    assert a == [a[0]] + a[1..] && b == [b[0]] + b[1..];
  }

  /** The history asks for no sector that cannot be read. */
  predicate AllReadable(d: Disk, at: seq<nat>, ops: seq<Op>)
    decreases |ops|
  {
    if ops == [] then true
    else if ops[0].Seek? || ops[0].stream >= |at| then AllReadable(d, Sought(at, ops[0]), ops[1..])
    else
      var s, total := ops[0].stream, ops[0].total;
      && AtHand(d, {}, at[s] / 512, LastTouched(at[s], total))
      && AllReadable(d, Moved(at, s, at[s] + total), ops[1..])
  }

  /** Where every sector can be read, no cache is ever noticed. */
  lemma {:induction false} ReadableIsNeverStale(d: Disk, cached: set<nat>, at: seq<nat>, ops: seq<Op>)
    requires AllReadable(d, at, ops)
    ensures NeverStale(d, cached, at, ops)
    decreases |ops|
  {
    hide Read, Delivered, Moved, Readable, LastTouched;
    if ops == [] {
    } else if ops[0].Seek? || ops[0].stream >= |at| {
      ReadableIsNeverStale(d, cached, Sought(at, ops[0]), ops[1..]);
    } else {
      var s, pos, total := ops[0].stream, at[ops[0].stream], ops[0].total;
      ReadDelivers(d, cached, pos, total);
      HandIsNotStale(d, cached, pos / 512, LastTouched(pos, total), pos, total);
      ReadableIsNeverStale(d, Read(d, cached, pos, total).cached, Moved(at, s, pos + total), ops[1..]);
    }
  }

  lemma {:induction false} HandIsNotStale(d: Disk, cached: set<nat>, i: nat, last: nat, pos: nat, total: nat)
    requires AtHand(d, {}, i, last)
    ensures !Stale(d, cached, i, last, pos, total)
    decreases last + 1 - i
  {
    hide Readable;
    if i <= last {
      HandIsNotStale(d, cached, i + 1, last, pos + Amount(pos, total), total - Amount(pos, total));
    }
  }

  // ------------------------------------------------------------------- the tree

  /** The way to a sector: an index at each level and the slot in the last bucket. */
  datatype Path = Path(l1: nat, l2: nat, l3: nat, slot: nat)

  /** `diskstreamer_cache_find`, from a byte position to the four indexes. */
  function PathOf(pos: nat): Path {
    var inL1 := pos % 34359738368;
    var inL2 := inL1 % 33554432;
    var byteOffset := inL2 % 32768 % 262144;
    Path(pos / 34359738368, inL1 / 33554432, inL2 / 32768, byteOffset / 512)
  }

  /** The sector a path stands for. */
  function Number(p: Path): nat { ((p.l1 * 1024 + p.l2) * 1024 + p.l3) * 64 + p.slot }

  predicate InTree(p: Path) { p.l2 < 1024 && p.l3 < 1024 && p.slot < 64 }

  /** Indexes stay below the bucket sizes, and the path spells the sector number. */
  lemma PathSpellsSector(pos: nat)
    ensures InTree(PathOf(pos)) && Number(PathOf(pos)) == pos / 512
  {
  }

  lemma SectorSpellsPath(p: Path)
    requires InTree(p)
    ensures PathOf(Number(p) * 512) == p
  {
    var in3 := p.slot * 512;
    var in2 := p.l3 * 32768 + in3;
    var in1 := p.l2 * 33554432 + in2;
    assert Number(p) * 512 == p.l1 * 34359738368 + in1;
    hide Number;
    DivMod(p.l1, in1, 34359738368);
    DivMod(p.l2, in2, 33554432);
    DivMod(p.l3, in3, 32768);
  }

  /** Two positions reach the same slot exactly when they lie in the same sector. */
  lemma SameSlotSameSector(a: nat, b: nat)
    ensures PathOf(a) == PathOf(b) <==> a / 512 == b / 512
  {
    PathSpellsSector(a);
    PathSpellsSector(b);
    SectorSpellsPath(PathOf(a));
    SectorSpellsPath(PathOf(b));
    hide PathOf, Number;
  }

  // ------------------------------------------------------------------ the buckets

  datatype Place = Place(l1: nat, l2: nat, l3: nat)

  /** `total` counts the filled slots, `count` the times the ring holds the bucket. */
  datatype Level3 = Level3(sectors: seq<Option<Buf>>, total: nat, count: int)

  type Level2 = seq<Option<Level3>>
  type Level1 = seq<Option<Level2>>
  type Tree = seq<Option<Level1>>
  type Ring = seq<Option<Place>>

  function Bucket(t: Tree, p: Place): Option<Level3> {
    if p.l1 < |t| && t[p.l1].Some? && p.l2 < |t[p.l1].value| && t[p.l1].value[p.l2].Some?
       && p.l3 < |t[p.l1].value[p.l2].value|
    then t[p.l1].value[p.l2].value[p.l3] else None
  }

  /** The first two levels lead to `p`. */
  predicate Linked(t: Tree, p: Place) {
    && p.l1 < |t| && t[p.l1].Some? && p.l2 < |t[p.l1].value| && t[p.l1].value[p.l2].Some?
    && p.l3 < |t[p.l1].value[p.l2].value|
  }

  function Put(t: Tree, p: Place, v: Level3): Tree
    requires Linked(t, p)
  {
    t[p.l1 := Some(t[p.l1].value[p.l2 := Some(t[p.l1].value[p.l2].value[p.l3 := Some(v)])])]
  }

  predicate Shape(t: Tree) {
    forall i :: 0 <= i < |t| && t[i].Some? ==>
      |t[i].value| == 1024 && forall j :: 0 <= j < 1024 && t[i].value[j].Some? ==> |t[i].value[j].value| == 1024
  }

  lemma PutExact(t: Tree, p: Place, v: Level3)
    requires Linked(t, p) && Shape(t)
    ensures Shape(Put(t, p, v)) && Linked(Put(t, p, v), p)
    ensures forall q :: Bucket(Put(t, p, v), q) == if q == p then Some(v) else Bucket(t, q)
  {
  }

  /** The counters of a bucket at `p` are right. */
  ghost predicate Counted(v: Level3, ring: Ring, p: Place) {
    |v.sectors| == 64 && v.total + multiset(v.sectors)[None] == 64 && v.count == multiset(ring)[Some(p)]
  }

  ghost predicate Structured(t: Tree, ring: Ring) {
    && Shape(t) && |ring| == 1024
    && (forall p :: Bucket(t, p).Some? ==> Counted(Bucket(t, p).value, ring, p))
    && (forall p :: Some(p) in ring ==> Bucket(t, p).Some?)
  }

  /** The buffer kept for absolute sector `n`. */
  function Held(t: Tree, n: nat): Option<Buf> { Slot(t, PathOf(n * 512)) }

  function Slot(t: Tree, p: Path): Option<Buf> {
    var b := Bucket(t, Place(p.l1, p.l2, p.l3));
    if b.Some? && p.slot < |b.value.sectors| then b.value.sectors[p.slot] else None
  }

  lemma StructuredParts(t: Tree, ring: Ring)
    requires Structured(t, ring)
    ensures Shape(t) && |ring| == 1024
  {
  }

  lemma BucketIsLinked(t: Tree, p: Place)
    requires Bucket(t, p).Some?
    ensures Linked(t, p)
  {
  }

  /** A bucket may be replaced by one whose counters are right. */
  lemma ReplaceKeeps(t: Tree, ring: Ring, p: Place, v: Level3)
    requires Structured(t, ring) && Linked(t, p) && Counted(v, ring, p)
    ensures Structured(Put(t, p, v), ring)
  {
    PutExact(t, p, v);
    hide Put, Shape, Counted, Bucket, Linked;
  }

  /** A new bucket is in no ring entry. */
  lemma NewBucketKeeps(t: Tree, ring: Ring, p: Place, v: Level3)
    requires Structured(t, ring) && Linked(t, p) && Bucket(t, p) == None
    requires |v.sectors| == 64 && v.total == v.count == 0 && forall s :: 0 <= s < 64 ==> v.sectors[s] == None
    ensures Structured(Put(t, p, v), ring)
  {
    AllNone(v.sectors);
    assert Some(p) !in ring;
    ReplaceKeeps(t, ring, p, v);
  }

  lemma EmptyHasNoSlots(t: Tree, p: Place, v: Level3)
    requires Shape(t) && Linked(t, p) && Bucket(t, p) == None
    requires forall s :: 0 <= s < |v.sectors| ==> v.sectors[s] == None
    ensures forall path: Path :: Slot(Put(t, p, v), path) == Slot(t, path)
  {
    PutExact(t, p, v);
    hide Put, Bucket, Shape, Linked;
  }

  /** Longer or better linked first levels hold the same buckets. */
  lemma GrowKeeps(t: Tree, ring: Ring, u: Tree)
    requires Structured(t, ring) && Shape(u) && forall p :: Bucket(u, p) == Bucket(t, p)
    ensures Structured(u, ring) && forall p: Path :: Slot(u, p) == Slot(t, p)
  {
    hide Bucket, Shape, Counted;
  }

  lemma Longer(t: Tree, n: nat)
    requires Shape(t)
    ensures var u := t + seq(n, i => None); Shape(u) && forall p :: Bucket(u, p) == Bucket(t, p)
  {
  }

  lemma NewLevel1(t: Tree, i: nat)
    requires Shape(t) && i < |t| && t[i] == None
    ensures var u := t[i := Some(seq(1024, i => None))]; Shape(u) && forall p :: Bucket(u, p) == Bucket(t, p)
  {
  }

  lemma NewLevel2(t: Tree, i: nat, j: nat)
    requires Shape(t) && i < |t| && t[i].Some? && j < 1024 && t[i].value[j] == None
    ensures var u := t[i := Some(t[i].value[j := Some(seq(1024, i => None))])];
            Shape(u) && forall p :: Bucket(u, p) == Bucket(t, p)
  {
  }

  lemma {:induction false} AllNone(s: seq<Option<Buf>>)
    requires forall i :: 0 <= i < |s| ==> s[i] == None
    ensures multiset(s)[None] == |s|
  {
    if s != [] {
      assert s == s[..|s| - 1] + [None];
      AllNone(s[..|s| - 1]);
    }
  }

  /** The bucket leaves the ring at `i`. */
  lemma LeaveRing(t: Tree, ring: Ring, i: nat)
    requires Structured(t, ring) && i < |ring| && ring[i].Some?
    ensures Bucket(t, ring[i].value).Some? && Linked(t, ring[i].value)
    ensures var p := ring[i].value;
            var b := Bucket(t, p).value;
            Structured(Put(t, p, b.(count := b.count - 1)), ring[i := None])
  {
    var p := ring[i].value;
    BucketIsLinked(t, p);
    var b := Bucket(t, p).value;
    PutExact(t, p, b.(count := b.count - 1));
    hide Put, Shape, Bucket, Linked;
    assert multiset(ring[i := None]) ==
      multiset(ring)[None := multiset(ring)[None] + 1][ring[i] := multiset(ring)[ring[i]] - 1];
    assert forall q :: Some(q) in ring[i := None] ==> Some(q) in ring;
  }

  /** The bucket at `p` enters the ring at `i`. */
  lemma EnterRing(t: Tree, ring: Ring, i: nat, p: Place)
    requires Structured(t, ring) && i < |ring| && ring[i] == None && Bucket(t, p).Some?
    ensures Linked(t, p)
    ensures var b := Bucket(t, p).value;
            Structured(Put(t, p, b.(count := b.count + 1)), ring[i := Some(p)])
  {
    BucketIsLinked(t, p);
    var b := Bucket(t, p).value;
    PutExact(t, p, b.(count := b.count + 1));
    hide Put, Shape, Bucket, Linked;
    assert multiset(ring[i := Some(p)]) ==
      multiset(ring)[None := multiset(ring)[None] - 1][Some(p) := multiset(ring)[Some(p)] + 1];
    assert forall q :: Some(q) in ring[i := Some(p)] ==> Some(q) in ring || q == p;
  }

  // ------------------------------------------------------------------- the cache

  datatype Status = Found | NewEntry | Invalid

  class Cache {
    var buckets: Tree
    const ring: array<Option<Place>>
    var ringPos: nat

    ghost predicate Valid()
      reads this, ring
    {
      Structured(buckets, ring[..])
    }

    constructor ()
      ensures Valid() && buckets == [] && ringPos == 0 && fresh(ring)
      ensures forall n: nat :: Held(buckets, n) == None
    {
      buckets := [];
      ringPos := 0;
      ring := new Option<Place>[1024](i => None);
    }

    /** `diskstreamer_cache_bucket_level1_get`: the first level grows as needed. */
    method Level1Get(index: nat)
      requires Valid()
      modifies this`buckets
      ensures Valid() && index < |buckets| && buckets[index].Some?
      ensures forall p: Path :: Slot(buckets, p) == Slot(old(buckets), p)
    {
      hide Structured, Slot, Shape, Bucket;
      ghost var q := ring[..];
      StructuredParts(buckets, q);
      if |buckets| <= index {
        Longer(buckets, index + 1 - |buckets|);
        GrowKeeps(buckets, q, buckets + seq(index + 1 - |buckets|, i => None));
        buckets := buckets + seq(index + 1 - |buckets|, i => None);
      }
      if buckets[index] == None {
        NewLevel1(buckets, index);
        GrowKeeps(buckets, q, buckets[index := Some(seq(1024, i => None))]);
        buckets := buckets[index := Some(seq(1024, i => None))];
      }
    }

    method Level2Get(l1: nat, index: nat) returns (ok: bool)
      requires Valid() && l1 < |buckets| && buckets[l1].Some?
      modifies this`buckets
      ensures Valid() && (ok <==> index < 1024)
      ensures ok ==>
                && l1 < |buckets| && buckets[l1].Some?
                && index < |buckets[l1].value| && buckets[l1].value[index].Some?
      ensures forall p: Path :: Slot(buckets, p) == Slot(old(buckets), p)
    {
      if index >= 1024 {
        return false;
      }
      StructuredParts(buckets, ring[..]);
      hide Structured, Slot, Bucket;
      if buckets[l1].value[index] == None {
        NewLevel2(buckets, l1, index);
        GrowKeeps(buckets, ring[..], buckets[l1 := Some(buckets[l1].value[index := Some(seq(1024, i => None))])]);
        buckets := buckets[l1 := Some(buckets[l1].value[index := Some(seq(1024, i => None))])];
      }
      return true;
    }

    method Level3Get(l1: nat, l2: nat, index: nat) returns (ok: bool)
      requires Valid() && l1 < |buckets| && buckets[l1].Some? && l2 < |buckets[l1].value| && buckets[l1].value[l2].Some?
      modifies this`buckets
      ensures Valid() && (ok <==> index < 1024)
      ensures ok ==> Bucket(buckets, Place(l1, l2, index)).Some?
      ensures forall p: Path :: Slot(buckets, p) == Slot(old(buckets), p)
    {
      if index >= 1024 {
        return false;
      }
      var p := Place(l1, l2, index);
      assert Linked(buckets, p);
      if buckets[l1].value[l2].value[index] == None {
        var empty := Level3(seq(64, i => None), 0, 0);
        NewBucketKeeps(buckets, ring[..], p, empty);
        PutExact(buckets, p, empty);
        EmptyHasNoSlots(buckets, p, empty);
        buckets := Put(buckets, p, empty);
      }
      assert ring[..] == old(ring[..]);
      return true;
    }

    /** `diskstreamer_cache_round_robin_add`. */
    method RoundRobinAdd(place: Place)
      requires Valid() && Bucket(buckets, place).Some?
      modifies this, ring
      ensures Valid() && ringPos == old(ringPos) + 1
      ensures ring[..] == old(ring[..])[old(ringPos) % 1024 := Some(place)]
      ensures forall p: Path :: Slot(buckets, p) == Slot(old(buckets), p)
    {
      hide Put, Bucket, Shape, Linked, Slot, Structured;
      var index := ringPos % 1024;
      ghost var before := ring[..];
      StructuredParts(buckets, before);
      if ring[index].Some? {
        LeaveRing(buckets, before, index);
        Recount(ring[index].value, -1);
        // A count of zero frees the bucket, which `kfree` leaves as it is.
      } else {
        assert before == before[index := None];
      }
      assert Structured(buckets, before[index := None]);
      StructuredParts(buckets, before[index := None]);
      EnterRing(buckets, before[index := None], index, place);
      ring[index] := Some(place);
      Recount(place, 1);
      assert ring[..] == before[index := None][index := Some(place)];
      ringPos := ringPos + 1;
    }

    method Recount(place: Place, change: int)
      requires Bucket(buckets, place).Some? && Shape(buckets)
      modifies this`buckets
      ensures var b := Bucket(old(buckets), place).value;
              Linked(old(buckets), place) && buckets == Put(old(buckets), place, b.(count := b.count + change))
      ensures forall p: Path :: Slot(buckets, p) == Slot(old(buckets), p)
      ensures forall p: Place :: Bucket(buckets, p).Some? == Bucket(old(buckets), p).Some?
    {
      var b := Bucket(buckets, place).value;
      BucketIsLinked(buckets, place);
      PutExact(buckets, place, b.(count := b.count + change));
      buckets := Put(buckets, place, b.(count := b.count + change));
    }

    /** `diskstreamer_cache_find`. */
    method Find(pos: nat) returns (status: Status)
      requires Valid()
      modifies this, ring
      ensures Valid()
      ensures status == if Slot(old(buckets), PathOf(pos)).Some? then Found else NewEntry
      ensures ringPos == old(ringPos) + if status == NewEntry then 1 else 0
      ensures forall p: Path ::
                Slot(buckets, p) ==
                if p == PathOf(pos) && status == NewEntry then Some(Zeros(2048)) else Slot(old(buckets), p)
    {
      var path := PathOf(pos);
      PathSpellsSector(pos);
      ghost var before := buckets;
      Level1Get(path.l1);
      var found := Level2Get(path.l1, path.l2);
      if !found {
        return Invalid;
      }
      found := Level3Get(path.l1, path.l2, path.l3);
      if !found {
        return Invalid;
      }
      var place := Place(path.l1, path.l2, path.l3);
      var b := Bucket(buckets, place).value;
      if b.sectors[path.slot] == None {
        SetSlot(place, path.slot, Zeros(2048));
        RoundRobinAdd(place);
        return NewEntry;
      }
      return Found;
    }

    /** The buffer that `Find` hands out a pointer to. */
    method Get(pos: nat) returns (buf: Option<Buf>)
      ensures buf == Slot(buckets, PathOf(pos))
    {
      buf := Slot(buckets, PathOf(pos));
    }

    /** Writing through that pointer. */
    method Fill(pos: nat, buf: Buf)
      requires Valid() && Slot(buckets, PathOf(pos)).Some?
      modifies this`buckets
      ensures Valid()
      ensures forall p: Path :: Slot(buckets, p) == if p == PathOf(pos) then Some(buf) else Slot(old(buckets), p)
    {
      PathSpellsSector(pos);
      var path := PathOf(pos);
      SetSlot(Place(path.l1, path.l2, path.l3), path.slot, buf);
    }

    /** A slot gets a buffer; a slot that was empty counts as one sector more. */
    method SetSlot(place: Place, slot: nat, buf: Buf)
      requires Valid() && Bucket(buckets, place).Some? && slot < 64
      modifies this`buckets
      ensures Valid() && Bucket(buckets, place).Some?
      ensures forall p: Path ::
                Slot(buckets, p) ==
                if p == Path(place.l1, place.l2, place.l3, slot) then Some(buf) else Slot(old(buckets), p)
    {
      BucketIsLinked(buckets, place);
      var b := Bucket(buckets, place).value;
      var total := if b.sectors[slot] == None then b.total + 1 else b.total;
      var v := b.(sectors := b.sectors[slot := Some(buf)], total := total);
      assert multiset(v.sectors) ==
        multiset(b.sectors)[b.sectors[slot] := multiset(b.sectors)[b.sectors[slot]] - 1] + multiset{Some(buf)};
      ReplaceKeeps(buckets, ring[..], place, v);
      PutExact(buckets, place, v);
      buckets := Put(buckets, place, v);
    }
  }

  // ------------------------------------------------------------- disk and stream

  lemma HeldApart(t: Tree, u: Tree, n: nat, b: Option<Buf>)
    requires forall p: Path :: Slot(u, p) == if p == PathOf(n * 512) then b else Slot(t, p)
    ensures forall m: nat :: Held(u, m) == if m == n then b else Held(t, m)
  {
    hide Slot, PathOf;
    forall m: nat ensures Held(u, m) == if m == n then b else Held(t, m) {
      SameSlotSameSector(m * 512, n * 512);
    }
  }

  class CachedDisk {
    const disk: Disk
    const cache: Cache
    ghost var cached: set<nat>

    /** Every sector that has been asked for is held, with what the device gave, and no other. */
    ghost predicate Valid()
      reads this, cache, cache.ring
    {
      && cache.Valid() && cache.ringPos == |cached|
      && forall n: nat :: Held(cache.buckets, n) == if n in cached then Some(Content(disk, n)) else None
    }

    constructor (disk: Disk)
      ensures Valid() && this.disk == disk && cached == {} && fresh(cache) && fresh(cache.ring)
    {
      this.disk := disk;
      cache := new Cache();
      cached := {};
    }

    /** `disk_read_block` for one sector. */
    method ReadBlock(lba: nat) returns (r: Option<Sector>)
      ensures r == if Readable(disk, disk.start + lba) then disk.device(disk.start + lba) else None
    {
      var absoluteLba := disk.start + lba;
      var absoluteEndingLba := absoluteLba + 1;
      if absoluteEndingLba > disk.end {
        if disk.start != 0 && disk.end != 0 {
          return None;
        }
      }
      return disk.device(absoluteLba);
    }

    /** Sector `i` through the cache; a failed read leaves the new, zeroed buffer behind. */
    method Sector(i: nat) returns (r: Option<Buf>)
      requires Valid()
      modifies this, cache, cache.ring
      ensures Valid() && cached == old(cached) + {disk.start + i}
      ensures var n := disk.start + i;
              r == if n in old(cached) || Readable(disk, n) then Some(Content(disk, n)) else None
    {
      hide Slot, PathOf, Structured, Put, Bucket, Shape, Linked;
      var n := disk.start + i;
      var realOffset := n * 512;
      ghost var before := cache.buckets;
      var status := cache.Find(realOffset);
      HeldApart(before, cache.buckets, n, if status == NewEntry then Some(Zeros(2048)) else Held(before, n));
      if status == Invalid {
        return None;
      }
      if status == Found {
        assert cached + {n} == cached;
        r := cache.Get(realOffset);
        return;
      }
      cached := cached + {n};
      var data := ReadBlock(i);
      if data == None {
        assert Content(disk, n) == Zeros(2048);
        return None;
      }
      ghost var between := cache.buckets;
      cache.Fill(realOffset, data.value + Zeros(1536));
      HeldApart(between, cache.buckets, n, Some(data.value + Zeros(1536)));
      r := cache.Get(realOffset);
    }
  }

  class Stream {
    const disk: CachedDisk
    var pos: nat

    constructor (disk: CachedDisk)
      ensures this.disk == disk && pos == 0
    {
      this.disk, pos := disk, 0;
    }

    /** `diskstreamer_seek`. */
    method SeekTo(to: nat)
      modifies this
      ensures pos == to
    {
      pos := to;
    }

    method CopyOut(before: Buf, buf: Buf, offsetInSector: nat, amount: nat) returns (out: Buf)
      requires offsetInSector + amount <= |buf|
      ensures out == before + buf[offsetInSector..offsetInSector + amount]
    {
      out := before;
      for j := 0 to amount
        invariant out == before + buf[offsetInSector..offsetInSector + j]
      {
        out := out + [buf[offsetInSector + j]];
      }
    }

    /** The body of the loop: what is taken from sector `i`, and how much is left to read. */
    method ReadPart(i: nat, total: nat) returns (part: Option<Buf>, left: nat)
      requires disk.Valid()
      modifies this, disk, disk.cache, disk.cache.ring
      ensures var n, amount, off := disk.disk.start + i, Amount(old(pos), total), old(pos) % 512;
              && disk.Valid() && disk.cached == old(disk.cached) + {n}
              && if n in old(disk.cached) || Readable(disk.disk, n) then
                   && part == Some(Content(disk.disk, n)[off..off + amount])
                   && pos == old(pos) + amount && left == total - amount
                 else part == None && pos == old(pos)
    {
      hide Content, Readable, CachedDisk.Valid;
      var offsetInSector := pos % 512;
      var amount := 512 - pos % 512;
      if total < 512 {
        amount := total;
      }
      var buf := disk.Sector(i);
      if buf == None {
        return None, total;
      }
      var bytes := CopyOut([], buf.value, offsetInSector, amount);
      assert bytes == buf.value[offsetInSector..offsetInSector + amount];
      pos := pos + amount;
      return Some(bytes), total - amount;
    }

    /** `diskstreamer_read`. */
    method ReadBytes(length: nat) returns (ok: bool, out: Buf)
      requires disk.Valid()
      modifies this, disk, disk.cache, disk.cache.ring
      ensures disk.Valid() && Outcome(ok, out, pos, disk.cached) == Read(disk.disk, old(disk.cached), old(pos), length)
    {
      hide ReadFrom, Content, Readable, Prepended, CachedDisk.Valid;
      var total: nat := length;
      var offset := pos;
      var startingSector := (offset - offset % 512) / 512;
      var finalOffset := offset + total;
      if finalOffset % 512 != 0 {
        finalOffset := finalOffset + (512 - finalOffset % 512);
      }
      var endingSector := finalOffset / 512;
      assert startingSector == offset / 512 && endingSector == LastTouched(offset, total);
      ghost var all := Read(disk.disk, disk.cached, pos, total);
      out := [];
      var i := startingSector;
      NothingPrepended(all);
      while i <= endingSector
        invariant startingSector <= i && disk.Valid()
        invariant all == Prepended(out, ReadFrom(disk.disk, disk.cached, i, endingSector, pos, total))
      {
        PrependStep(disk.disk, disk.cached, i, endingSector, pos, total, out);
        var part;
        part, total := ReadPart(i, total);
        if part == None {
          return false, out;
        }
        out := out + part.value;
        i := i + 1;
      }
      ReadEnd(disk.disk, disk.cached, i, endingSector, pos, total);
      EndPrepended(out, pos, disk.cached);
      ok := true;
    }
  }

  /** What a read gives when `out` has been taken and `rest` is still to come. */
  function Prepended(out: Buf, rest: Outcome): Outcome { rest.(out := out + rest.out) }

  lemma NothingPrepended(rest: Outcome)
    ensures Prepended([], rest) == rest
  {
    assert [] + rest.out == rest.out;
  }

  lemma EndPrepended(out: Buf, pos: nat, cached: set<nat>)
    ensures Prepended(out, Outcome(true, [], pos, cached)) == Outcome(true, out, pos, cached)
  {
    assert out + [] == out;
  }

  lemma PrependStep(d: Disk, cached: set<nat>, i: nat, last: nat, pos: nat, total: nat, out: Buf)
    requires i <= last
    ensures var n, amount := d.start + i, Amount(pos, total);
            var all := Prepended(out, ReadFrom(d, cached, i, last, pos, total));
            if n in cached || Readable(d, n) then
              var part := Content(d, n)[pos % 512..pos % 512 + amount];
              all == Prepended(out + part, ReadFrom(d, cached + {n}, i + 1, last, pos + amount, total - amount))
            else all == Outcome(false, out, pos, cached + {n})
  {
    hide ReadFrom, Content, Readable;
    ReadStep(d, cached, i, last, pos, total);
    var n, amount := d.start + i, Amount(pos, total);
    if n in cached || Readable(d, n) {
      var part := Content(d, n)[pos % 512..pos % 512 + amount];
      var rest := ReadFrom(d, cached + {n}, i + 1, last, pos + amount, total - amount);
      assert out + (part + rest.out) == out + part + rest.out;
    } else {
      assert out + [] == out;
    }
  }

  lemma ReadEnd(d: Disk, cached: set<nat>, i: nat, last: nat, pos: nat, total: nat)
    requires i > last
    ensures ReadFrom(d, cached, i, last, pos, total) == Outcome(true, [], pos, cached)
  {
  }
}
