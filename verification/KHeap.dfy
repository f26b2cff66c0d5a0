/**
 The layout of the kernel's first heap (memory/heap/kheap.c): a table of one flag byte per
 block, and behind it the page-aligned pool of blocks.
 */
module KHeap {
  import opened Basics

  const TABLE_ADDRESS := 0x1000000
  const POOL_ADDRESS := 0x1100000
  const MINIMUM_SIZE := 104857600

  /** An entry of the firmware's memory map; kind 1 is usable memory. */
  datatype Region = Region(base: nat, length: nat, kind: nat)

  predicate Usable(r: Region) { r.kind == 1 && r.length > MINIMUM_SIZE }

  /** `kheap_get_allowable_memory_region_for_minimal_heap`: the first that is usable and large enough. */
  method AllowableRegion(entries: seq<Region>) returns (found: bool, index: nat)
    ensures found ==> index < |entries| && Usable(entries[index]) && forall j :: 0 <= j < index ==> !Usable(entries[j])
    ensures found ==> entries[index].kind == 1 && entries[index].length > 100 * 1024 * 1024
    ensures forall j :: 0 <= j < |entries| && entries[j].kind == 1 && entries[j].length > 100 * 1024 * 1024 ==>
              found && index <= j
    ensures !found ==> forall j :: 0 <= j < |entries| ==> !Usable(entries[j])
  {
    for i := 0 to |entries|
      invariant forall j :: 0 <= j < i ==> !Usable(entries[j])
    {
      var current := entries[i];
      if current.kind == 1 && current.length > MINIMUM_SIZE {
        return true, i;
      }
    }
    return false, 0;
  }

  // ----------------------------------------------------------------- the layout

  datatype Layout = Layout(table: nat, dataBlocks: nat, start: nat, end: nat, entries: nat)

  /** `paging_align_address` and `paging_align_to_lower_page`. */
  function AlignUp(a: nat): (r: nat)
    ensures r % 4096 == 0 && a <= r < a + 4096
  {
    if a % 4096 != 0 then a + 4096 - a % 4096 else a
  }

  function AlignDown(a: nat): (r: nat)
    ensures r % 4096 == 0 && r <= a < r + 4096
  {
    a - a % 4096
  }

  /**
   The blocks that are left when every block of `total` bytes has paid a flag byte: the
   second pass of the computation.
   */
  function DataBlocks(total: nat): nat { (total - total / 4096) / 4096 }

  /** What the layout of the region [base, base + length) is. */
  predicate LaidOut(l: Layout, base: nat, length: nat) {
    && l.table == Max(base, TABLE_ADDRESS) && l.table <= base + length
    && l.dataBlocks == DataBlocks(base + length - l.table)
    && l.start % 4096 == 0 && l.table + l.dataBlocks <= l.start < l.table + l.dataBlocks + 4096
    && l.end % 4096 == 0 && l.end <= base + length < l.end + 4096
    && l.start <= l.end && l.entries * 4096 == l.end - l.start
  }

  /** The part of `kheap_init` that lays the heap out. */
  method LayOut(base: nat, length: nat) returns (l: Layout)
    requires length > MINIMUM_SIZE
    ensures LaidOut(l, base, length)
  {
    var endAddress := base + length;
    var heapTableAddress := base;
    if heapTableAddress < TABLE_ADDRESS {
      heapTableAddress := TABLE_ADDRESS;
    }
    var totalHeapSize := endAddress - heapTableAddress;
    var totalHeapBlocks := totalHeapSize / 4096;
    var entryTableSize := totalHeapBlocks;
    var heapDataSize := totalHeapSize - entryTableSize;
    var totalHeapDataBlocks := heapDataSize / 4096;
    entryTableSize := totalHeapDataBlocks;
    var heapAddress := heapTableAddress + entryTableSize;
    var heapEndAddress := endAddress;
    if heapAddress % 4096 != 0 {
      heapAddress := AlignUp(heapAddress);
    }
    if heapEndAddress % 4096 != 0 {
      heapEndAddress := AlignDown(heapEndAddress);
    }
    RoomForPool(totalHeapSize);
    hide AlignUp, AlignDown;
    var size := heapEndAddress - heapAddress;
    WholePages(heapAddress, heapEndAddress);
    l := Layout(heapTableAddress, totalHeapDataBlocks, heapAddress, heapEndAddress, size / 4096);
  }

  lemma RoomForPool(total: nat)
    requires total > MINIMUM_SIZE - TABLE_ADDRESS
    ensures DataBlocks(total) + 8192 <= total
  {
  }

  lemma WholePages(a: nat, b: nat)
    requires a % 4096 == 0 && b % 4096 == 0 && a <= b
    ensures (b - a) / 4096 * 4096 == b - a
  {
  }

  /**
   How far the final entry count can exceed the recomputed block count: by at most one for
   regions of up to 2^36 - 2^24 bytes, and by about one more for each further 2^36.
   */
  lemma EntriesBound(l: Layout, base: nat, length: nat)
    requires LaidOut(l, base, length)
    ensures var total := base + length - l.table;
            && l.entries <= l.dataBlocks + ((total / 4096 + 4095) / 4096 + 4095) / 4096
            && (total <= 68702699520 ==> l.entries <= l.dataBlocks + 1)
  {
    var total := base + length - l.table;
    var blocks, d := total / 4096, l.dataBlocks;
    assert l.entries * 4096 <= total - d;
    assert d * 4096 >= total - blocks - 4095;
    assert blocks - d <= (blocks + 4095) / 4096;
  }

  /** The flag table ends before the pool begins. */
  predicate TableBelowPool(l: Layout) { l.table + l.entries <= l.start }

  /**
   The table lies below the pool unless its end by the second pass happens to be
   page-aligned and the pool then turns out one block larger; the last flag byte is then
   the pool's first byte.
   */
  lemma TableBelowPoolExactly(l: Layout, base: nat, length: nat)
    requires LaidOut(l, base, length) && base + length - l.table <= 68702699520
    ensures TableBelowPool(l) <==>
            (l.table + l.dataBlocks) % 4096 != 0 || (base + length - l.table - l.dataBlocks) / 4096 == l.dataBlocks
    ensures !TableBelowPool(l) ==> l.start == l.table + l.dataBlocks && l.table + l.entries == l.start + 1
  {
    EntriesBound(l, base, length);
    if (l.table + l.dataBlocks) % 4096 == 0 {
      assert l.start == l.table + l.dataBlocks;
      assert l.entries == (base + length - l.start) / 4096;
    }
  }

  /** 28680 pages from 16 MB on are such a region. */
  lemma TableCanReachPool()
    ensures exists l :: LaidOut(l, TABLE_ADDRESS, 117473280) && !TableBelowPool(l)
  {
    var l := Layout(TABLE_ADDRESS, 28672, 16805888, 134250496, 28673);
    assert LaidOut(l, TABLE_ADDRESS, 117473280) && !TableBelowPool(l);
  }

  // ------------------------------------------------------------- further heaps

  /** A pool of whole pages [start, end). */
  datatype Pool = Pool(start: nat, end: nat)

  /** The pages of a region that are offered to the multiheap, if any lie above the first pool's address. */
  function Offered(r: Region): (p: Option<Pool>)
    ensures p.Some? ==>
              && p.value.start % 4096 == 0 && p.value.end % 4096 == 0
              && r.base <= p.value.start < p.value.end <= r.base + r.length && p.value.start >= POOL_ADDRESS
  {
    var start, end := Max(AlignUp(r.base), POOL_ADDRESS), AlignDown(r.base + r.length);
    if r.kind == 1 && start < end then Some(Pool(start, end)) else None
  }

  /** An offered pool has every page of the region above that address. */
  lemma OfferedIsAll(r: Region, page: nat)
    requires r.kind == 1 && page % 4096 == 0 && page >= POOL_ADDRESS && r.base <= page
             && page + 4096 <= r.base + r.length
    ensures Offered(r).Some? && Offered(r).value.start <= page && page + 4096 <= Offered(r).value.end
  {
  }

  function PoolsOf(entries: seq<Region>, used: nat): seq<Pool> {
    if entries == [] then []
    else
      var p := if |entries| - 1 == used then None else Offered(entries[|entries| - 1]);
      PoolsOf(entries[..|entries| - 1], used) + if p.Some? then [p.value] else []
  }

  predicate Apart(a: Region, b: Region) { a.base + a.length <= b.base || b.base + b.length <= a.base }

  ghost predicate FromRegion(entries: seq<Region>, used: nat, p: Pool) {
    exists i :: 0 <= i < |entries| && i != used && Offered(entries[i]) == Some(p)
  }

  lemma {:induction false} PoolsComeFromRegions(entries: seq<Region>, used: nat)
    ensures forall p :: p in PoolsOf(entries, used) <==> FromRegion(entries, used, p)
  {
    hide Offered;
    if entries != [] {
      var before, last := entries[..|entries| - 1], |entries| - 1;
      PoolsComeFromRegions(before, used);
      forall p ensures p in PoolsOf(entries, used) <==> FromRegion(entries, used, p) {
        if p in PoolsOf(before, used) {
          var i :| 0 <= i < |before| && i != used && Offered(before[i]) == Some(p);
          assert Offered(entries[i]) == Some(p);
        } else if p in PoolsOf(entries, used) {
          assert Offered(entries[last]) == Some(p);
        } else if FromRegion(entries, used, p) {
          var i :| 0 <= i < |entries| && i != used && Offered(entries[i]) == Some(p);
          if i < last { StillFrom(entries, used, p, i); }
        }
      }
    }
  }

  lemma StillFrom(entries: seq<Region>, used: nat, p: Pool, i: nat)
    requires i < |entries| - 1 && i != used && Offered(entries[i]) == Some(p)
    ensures FromRegion(entries[..|entries| - 1], used, p)
  {
    assert entries[..|entries| - 1][i] == entries[i];
  }

  predicate HasPage(p: Pool, page: nat) { p.start <= page && page + 4096 <= p.end }

  /** The page lies in usable memory, and in a region other than the one of the first heap. */
  ghost predicate SparePage(entries: seq<Region>, used: nat, page: nat) {
    exists i :: 0 <= i < |entries| && i != used && entries[i].kind == 1
                && entries[i].base <= page && page + 4096 <= entries[i].base + entries[i].length
  }

  /** The pools have exactly the pages of usable memory from the first pool's address on, but for the first heap's. */
  lemma PoolsHaveExactly(entries: seq<Region>, used: nat, page: nat)
    requires page % 4096 == 0
    ensures (exists p :: p in PoolsOf(entries, used) && HasPage(p, page)) <==>
            page >= POOL_ADDRESS && SparePage(entries, used, page)
  {
    PoolsComeFromRegions(entries, used);
    hide Offered, PoolsOf;
    if p :| p in PoolsOf(entries, used) && HasPage(p, page) {
      var i :| 0 <= i < |entries| && i != used && Offered(entries[i]) == Some(p);
      OnlyUsable(entries[i]);
    }
    if page >= POOL_ADDRESS && SparePage(entries, used, page) {
      var i :| 0 <= i < |entries| && i != used && entries[i].kind == 1
               && entries[i].base <= page && page + 4096 <= entries[i].base + entries[i].length;
      OfferedIsAll(entries[i], page);
      assert FromRegion(entries, used, Offered(entries[i]).value);
    }
  }

  lemma OnlyUsable(r: Region)
    ensures Offered(r).Some? ==> r.kind == 1
  {
  }

  predicate PoolsApart(a: Pool, b: Pool) { a.end <= b.start || b.end <= a.start }

  /** From disjoint regions come disjoint pools. */
  lemma {:induction false} PoolsAreApart(entries: seq<Region>, used: nat)
    requires forall i, j :: 0 <= i < j < |entries| ==> Apart(entries[i], entries[j])
    ensures forall k, m :: 0 <= k < m < |PoolsOf(entries, used)| ==>
              PoolsApart(PoolsOf(entries, used)[k], PoolsOf(entries, used)[m])
  {
    hide Offered;
    if entries != [] {
      var before, last := entries[..|entries| - 1], entries[|entries| - 1];
      PoolsAreApart(before, used);
      PoolsComeFromRegions(before, used);
      forall p | p in PoolsOf(before, used) && Offered(last).Some? ensures PoolsApart(p, Offered(last).value) {
        var i :| 0 <= i < |before| && i != used && Offered(before[i]) == Some(p);
        assert Apart(entries[i], entries[|entries| - 1]);
      }
    }
  }

  /** None of them meets the region that is left out, hence not the table nor the pool of the heap laid out there. */
  lemma PoolsMissFirstHeap(entries: seq<Region>, used: nat, l: Layout)
    requires used < |entries| && LaidOut(l, entries[used].base, entries[used].length)
    requires forall i, j :: 0 <= i < j < |entries| ==> Apart(entries[i], entries[j])
    ensures forall p :: p in PoolsOf(entries, used) ==> Misses(p, entries[used], l)
  {
    hide Offered, LaidOut;
    PoolsComeFromRegions(entries, used);
    LaidOutInside(l, entries[used].base, entries[used].length);
  }

  predicate Misses(p: Pool, r: Region, l: Layout) {
    && PoolsApart(p, Pool(r.base, r.base + r.length))
    && PoolsApart(p, Pool(l.table, l.table + l.entries)) && PoolsApart(p, Pool(l.start, l.end))
  }

  /** The table and the pool of a heap lie in its region. */
  lemma LaidOutInside(l: Layout, base: nat, length: nat)
    requires LaidOut(l, base, length)
    ensures base <= l.table <= l.start <= l.end <= base + length && l.table + l.entries <= l.end
  {
  }

  /** The loop of `kheap_init` over the other regions. */
  method OtherPools(entries: seq<Region>, used: nat) returns (pools: seq<Pool>)
    ensures pools == PoolsOf(entries, used)
  {
    pools := [];
    for i := 0 to |entries|
      invariant pools == PoolsOf(entries[..i], used)
    {
      assert entries[..i + 1][..i] == entries[..i];
      var current := entries[i];
      if i != used && current.kind == 1 {
        var baseAddr, endAddr := current.base, current.base + current.length;
        if baseAddr % 4096 != 0 {
          baseAddr := AlignUp(baseAddr);
        }
        if endAddr % 4096 != 0 {
          endAddr := AlignDown(endAddr);
        }
        if baseAddr < POOL_ADDRESS {
          baseAddr := POOL_ADDRESS;
        }
        if endAddr <= baseAddr {
          continue;
        }
        pools := pools + [Pool(baseAddr, endAddr)];
      }
    }
    assert entries[..|entries|] == entries;
  }
}
