/**
 One heap of 4096-byte blocks (memory/heap/heap.c), updated in place.

 `pool` holds the contents of the blocks.  The only callback the kernel ever installs is
 the one that unmaps a freed block of a paging heap, so `onFree` is the page tables it
 works on, or null.
 */
module Heap {
  import opened Basics
  import opened BlockTable
  import Paging

  const BLOCK_SIZE: nat := 4096

  type Block = seq<bv8>

  function ZeroBlock(): (b: Block)
    ensures |b| == 4096 && forall i :: 0 <= i < 4096 ==> b[i] == 0
  {
    seq(BLOCK_SIZE, i => 0)
  }

  /** `n` blocks are as few as can hold `size` bytes. */
  ghost predicate JustHold(n: nat, size: nat) { size <= n * BLOCK_SIZE < size + BLOCK_SIZE }

  /** `heap_align_value_to_upper`, divided by the block size. */
  function BlocksFor(size: nat): (n: nat)
    ensures JustHold(n, size)
  {
    (if size % BLOCK_SIZE == 0 then size else size - size % BLOCK_SIZE + BLOCK_SIZE) / BLOCK_SIZE
  }

  /** Unmapping writes address 0 without flags, which is the null entry. */
  ghost predicate Unmapped(s: Paging.Space, s': Paging.Space, virt: nat, count: nat) {
    forall v :: Paging.Lookup(s', v) ==
      if Paging.Offset(v, virt) < count then Paging.NULL_ENTRY else Paging.Lookup(s, v)
  }

  lemma UnmappedNothing(s: Paging.Space, virt: nat)
    ensures Unmapped(s, s, virt, 0)
  {
  }

  lemma ClearNothing(e: seq<Entry>, start: nat)
    ensures Clear(e, start, 0) == e
  {
  }

  lemma ClearOneMore(e: seq<Entry>, start: nat, n: nat)
    requires start + n < |e|
    ensures Clear(e, start, n)[start + n := FREE] == Clear(e, start, n + 1)
    ensures start + n + 1 < |e| ==> Clear(e, start, n + 1)[start + n + 1] == e[start + n + 1]
  {
  }

  const NO_FLAGS := Paging.Flags(false, false, false)

  const ENOMEM := 3

  /** A run that would end at block i must start at or after the taken block before `bs`. */
  lemma RunEndsInside(e: seq<Entry>, n: nat, bs: int, i: int)
    requires 0 <= bs <= i < |e| && i + 1 - bs < n && (bs > 0 ==> e[bs - 1].taken)
    ensures !FreeRun(e, i + 1 - n, n)
  {
    if i + 1 - n >= 0 {
      assert i + 1 - n <= bs - 1 < i + 1;
    }
  }

  lemma CountedBlocksAreTaken(e: seq<Entry>, s: nat)
    requires s < |e| && e[s].taken && forall i :: 0 <= i < |e| && !e[i].taken ==> e[i] == FREE
    ensures 0 < BlockCount(e, s) && s + BlockCount(e, s) <= |e|
    ensures forall i :: s <= i < s + BlockCount(e, s) ==> e[i].taken
  {
    var n := Walk(e, s);
    TakenSplit(e, s, s + n - 1, s + n);
    TakenExtremes(e, s, s + n - 1);
    TakenSplit(e, s, s + 1, s + n);
  }

  lemma RunsApart(e: seq<Entry>, s: nat, n: nat, t: nat, k: nat)
    requires s + n <= |e| && (forall i :: s <= i < s + n ==> e[i].taken) && FreeRun(e, t, k)
    ensures n == 0 || k == 0 || t + k <= s || s + n <= t
  {
    if n > 0 && k > 0 {
      assert e[s].taken && !e[t].taken;
    }
  }

  lemma ExtendedFromLast(e: seq<Entry>, s: nat, n: nat, k: nat)
    requires 0 < n < k
    ensures Extended(e, s + n - 1, 1, k + 1 - n) == Extended(e, s, n, k)
  {
  }

  lemma MallocedRun(st: State, n: nat)
    ensures var t := BlockTable.Malloc(st, n).1; t >= 0 ==> FreeRun(st.table, t, n) && t + n <= |st.table|
  {
  }

  lemma BlocksForZero(size: nat)
    ensures BlocksFor(size) == 0 <==> size == 0
  {
  }

  lemma U64Twice(a: int, b: int)
    ensures U64(U64(a) + b) == U64(a + b)
  {
  }

  class Heap {
    const saddr: nat
    const entries: array<Entry>
    const pool: array<Block>
    var used: nat
    var free: nat
    var onFree: Paging.PageTables?

    ghost function Abs(): State
      reads this, entries
    {
      State(entries[..], used, free)
    }

    function Address(block: nat): nat { saddr + block * BLOCK_SIZE }

    /** `heap_address_to_block`. */
    function BlockOf(address: nat): nat
      requires address >= saddr
    {
      (address - saddr) / BLOCK_SIZE
    }

    ghost predicate CallbackReady()
      reads this`onFree, onFree
    {
      onFree != null ==> onFree.Sound() && Paging.Covered(onFree.paths, saddr, entries.Length)
                         && entries.Length <= Paging.PAGE_NUMBERS
    }

    constructor (saddr: nat, total: nat)
      ensures this.saddr == saddr && fresh(entries) && fresh(pool) && onFree == null
      ensures entries.Length == total && pool.Length == total
      ensures Abs() == Empty(total)
    {
      this.saddr := saddr;
      entries := new Entry[total](i => FREE);
      pool := new Block[total](i => []);
      used, free, onFree := 0, total, null;
      new;
      assert entries[..] == Empty(total).table;
    }

    /** `heap_get_start_block`: one scan that keeps the start and length of the free run it is in. */
    method StartBlock(n: nat) returns (start: int)
      ensures var fit := FirstFit(entries[..], n); if fit < 0 then start < 0 else start == fit
    {
      var bc, bs := 0, -1;
      for i := 0 to entries.Length
        invariant if bs == -1 then bc == 0 else 0 <= bs && bc == i - bs && FreeRun(entries[..], bs, bc)
        invariant bs != -1 ==> 0 < bc && bc != n
        invariant bs != 0 && i > 0 ==> entries[if bs == -1 then i - 1 else bs - 1].taken
        invariant n > 0 ==> bc < n && forall b :: 0 <= b && b + n <= i ==> !FreeRun(entries[..], b, n)
      {
        if entries[i].taken {
          bc, bs := 0, -1;
          continue;
        }
        if bs == -1 {
          bs := i;
        }
        bc := bc + 1;
        if bc == n {
          assert FreeRun(entries[..], bs, n);
          break;
        }
        if n > 0 {
          RunEndsInside(entries[..], n, bs, i);
        }
      }
      if bc != n {
        return -ENOMEM;
      }
      start := bs;
    }

    /** `heap_mark_blocks_taken`. */
    method MarkBlocksTaken(start: nat, total: nat)
      requires total > 0 && start + total <= entries.Length
      modifies entries
      ensures entries[..] == MarkTaken(old(entries[..]), start, total)
    {
      var end := start + total - 1;
      var entry := Entry(true, true, false);
      if total > 1 {
        entry := entry.(hasNext := true);
      }
      for i := start to end + 1
        invariant entry == if i == start then Entry(true, true, total > 1) else Entry(true, false, i <= end)
        invariant forall j :: 0 <= j < entries.Length ==>
          entries[j] == if start <= j < i then MarkTaken(old(entries[..]), start, total)[j] else old(entries[j])
      {
        entries[i] := entry;
        entry := Entry(true, false, false);
        if i != end {
          entry := entry.(hasNext := true);
        }
      }
    }

    /** `heap_malloc_blocks`; `None` stands for the null pointer. */
    method MallocBlocks(total: nat) returns (address: Option<nat>)
      modifies this`used, this`free, entries
      ensures var (st, s) := Malloc(old(Abs()), total);
              Abs() == st && address == if s < 0 then None else Some(Address(s))
    {
      address := None;
      var start := StartBlock(total);
      if start >= 0 {
        address := Some(Address(start));
        MarkBlocksTaken(start, total);
        used := U64(used + total);
        free := U64(free - total);
      }
    }

    lemma OffsetOfBlock(block: nat, start: nat)
      requires start <= block < Paging.PAGE_NUMBERS
      ensures forall v :: Paging.PageNumber(v) == Paging.PageNumber(Address(block)) <==>
                Paging.Offset(v, Address(start)) == block - start
    {
      assert Address(block) == Address(start) + (block - start) * BLOCK_SIZE;
      forall v ensures Paging.PageNumber(v) == Paging.PageNumber(Address(block)) <==>
          Paging.Offset(v, Address(start)) == block - start
      {
        Paging.OffsetOfPage(v, Address(start), block - start);
      }
    }

    /** `multiheap_paging_heap_free_block`, on the block behind those already unmapped. */
    method UnmapBlock(block: nat, start: nat, ghost first: Paging.Space, ghost paths: Paging.Paths)
      requires CallbackReady() && onFree != null && start <= block < entries.Length
      requires CallbackRan(first, paths, start, block - start)
      modifies onFree
      ensures CallbackReady() && CallbackRan(first, paths, start, block + 1 - start)
    {
      hide Paging.Valid, Paging.MapPage, Paging.Lookup, Paging.PageNumber, Paging.Offset, Paging.LeafEntry, Unmapped,
        Paging.PtPath, Paging.Missing, Paging.Covered;
      BlockCovered(onFree.paths, block);
      ghost var s := onFree.State();
      NullsOnePage(s, onFree.paths, Address(block));
      onFree.Map(Address(block), 0, NO_FLAGS);
      OneMoreUnmapped(first, s, onFree.State(), block, start);
    }

    lemma BlockCovered(paths: Paging.Paths, block: nat)
      requires Paging.Covered(paths, saddr, entries.Length) && block < entries.Length
      ensures Paging.PtPath(Address(block)) in paths
    {
      assert saddr + block * BLOCK_SIZE == Address(block);
    }

    /** Mapping a page with tables to null takes no frame and nulls its entry. */
    lemma NullsOnePage(s: Paging.Space, paths: Paging.Paths, va: nat)
      requires Paging.Valid(s, paths) && Paging.PtPath(va) in paths
      ensures Paging.Missing(paths, va) == 0
      ensures var (s', paths') := Paging.MapPage(s, paths, va, 0, NO_FLAGS);
              && paths' == paths && s'.supply == s.supply
              && forall v :: Paging.Lookup(s', v) ==
                   if Paging.PageNumber(v) == Paging.PageNumber(va) then Paging.NULL_ENTRY else Paging.Lookup(s, v)
    {
      assert Paging.LeafEntry(0, NO_FLAGS) == Paging.NULL_ENTRY;
      hide Paging.Valid, Paging.MapPage, Paging.Lookup, Paging.PageNumber, Paging.LeafEntry;
      Paging.MapPageMaps(s, paths, va, 0, NO_FLAGS);
    }

    lemma OneMoreUnmapped(first: Paging.Space, s: Paging.Space, s': Paging.Space, block: nat, start: nat)
      requires start <= block < Paging.PAGE_NUMBERS && Unmapped(first, s, Address(start), block - start)
      requires forall v :: Paging.Lookup(s', v) ==
                 if Paging.PageNumber(v) == Paging.PageNumber(Address(block)) then Paging.NULL_ENTRY
                 else Paging.Lookup(s, v)
      ensures Unmapped(first, s', Address(start), block + 1 - start)
    {
      hide Paging.Lookup, Paging.PageNumber, Paging.Offset;
      OffsetOfBlock(block, start);
    }

    /** What freeing `n` blocks from `start` has done to the page tables behind the callback. */
    ghost predicate CallbackRan(first: Paging.Space, paths: Paging.Paths, start: nat, n: nat)
      reads this`onFree, onFree
    {
      onFree != null ==>
        && Unmapped(first, onFree.State(), Address(start), n)
        && onFree.paths == paths && onFree.supply == first.supply
    }

    /** The page tables as the callback finds them; of no interest without a callback. */
    ghost function CallbackSpace(): Paging.Space
      reads this`onFree, onFree
    {
      if onFree == null then Paging.Fresh(0, []) else onFree.State()
    }

    ghost function CallbackPaths(): Paging.Paths
      reads this`onFree, onFree
    {
      if onFree == null then map[] else onFree.paths
    }

    /** The callback for one block, when there is one. */
    method RunCallback(block: nat, start: nat, ghost first: Paging.Space, ghost paths: Paging.Paths)
      requires CallbackReady() && start <= block < entries.Length
      requires CallbackRan(first, paths, start, block - start)
      modifies onFree
      ensures CallbackReady() && CallbackRan(first, paths, start, block + 1 - start)
    {
      if onFree != null {
        UnmapBlock(block, start, first, paths);
      }
    }

    /**
     `heap_mark_blocks_free`: stops after the first block that does not point on.  Every
     block passed is unmapped through the callback when there is one.
     */
    method MarkBlocksFree(start: nat)
      requires CallbackReady()
      modifies this`used, this`free, entries, onFree
      ensures Abs() == BlockTable.Free(old(Abs()), start)
      ensures CallbackReady()
      ensures CallbackRan(old(CallbackSpace()), old(CallbackPaths()), start, Walk(old(entries[..]), start))
    {
      hide CallbackReady, CallbackRan, Clear, Walk, BlockTable.Free, U64;
      FreeParts(Abs(), start);
      var freed := ClearBlocks(start);
      used := U64(used - freed);
      free := U64(free + freed);
    }

    /** Its loop over the blocks. */
    method ClearBlocks(start: nat) returns (freed: nat)
      requires CallbackReady()
      modifies entries, onFree
      ensures freed == Walk(old(entries[..]), start) && entries[..] == Clear(old(entries[..]), start, freed)
      ensures CallbackReady() && CallbackRan(old(CallbackSpace()), old(CallbackPaths()), start, freed)
    {
      hide CallbackReady, CallbackRan, Clear, Walk;
      ghost var e, n := entries[..], Walk(entries[..], start);
      ghost var first, paths := CallbackSpace(), CallbackPaths();
      CallbackStarts(start);
      ClearNothing(e, start);
      WalkStep(e, start);
      freed := 0;
      var i := start;
      while i < entries.Length
        invariant i == start + freed && (i <= entries.Length || freed == 0)
        invariant freed + Walk(e, i) == n
        invariant entries[..] == Clear(e, start, freed)
        invariant i < entries.Length ==> entries[i] == e[i]
        invariant CallbackReady() && CallbackRan(first, paths, start, freed)
      {
        var entry := entries[i];
        entries[i] := FREE;
        RunCallback(i, start, first, paths);
        ClearOneMore(e, start, freed);
        WalkStep(e, i);
        WalkStep(e, i + 1);
        freed := freed + 1;
        if !entry.hasNext {
          break;
        }
        i := i + 1;
      }
    }

    lemma WalkStep(e: seq<Entry>, i: nat)
      ensures Walk(e, i) == if i >= |e| then 0 else 1 + if e[i].hasNext then Walk(e, i + 1) else 0
    {
    }

    lemma FreeParts(st: State, start: nat)
      ensures var n := Walk(st.table, start);
              BlockTable.Free(st, start) == State(Clear(st.table, start, n), U64(st.used - n), U64(st.free + n))
    {
    }

    lemma CallbackStarts(start: nat)
      ensures CallbackRan(CallbackSpace(), CallbackPaths(), start, 0)
    {
    }


    /** `heap_free`.  An address before the heap has no block. */
    method Release(address: nat)
      requires CallbackReady() && address >= saddr
      modifies this`used, this`free, entries, onFree
      ensures Abs() == BlockTable.Free(old(Abs()), (address - saddr) / BLOCK_SIZE) && CallbackReady()
    {
      MarkBlocksFree(BlockOf(address));
    }

    /** `heap_allocation_block_count`. */
    method AllocationBlockCount(start: nat) returns (count: nat)
      ensures count == BlockCount(entries[..], start)
    {
      ghost var e := entries[..];
      count := 0;
      var i := start;
      while i < entries.Length
        invariant start <= i && (i <= entries.Length || i == start)
        invariant count == Taken(e, start, i)
        invariant i + Walk(e, i) == start + Walk(e, start)
      {
        var entry := entries[i];
        if entry.taken {
          count := count + 1;
        }
        if !entry.hasNext {
          return;
        }
        i := i + 1;
      }
    }

    /** The table and the bytes behind it, as the code indexes them. */
    ghost function Flags(behind: array<Entry>): (r: seq<Entry>)
      reads entries, behind
      ensures |r| == entries.Length + behind.Length
    {
      entries[..] + behind[..]
    }

    /** `table->entries[i]`, without a check. */
    method FlagAt(i: nat, behind: array<Entry>) returns (e: Entry)
      requires i < entries.Length + behind.Length
      ensures e == Flags(behind)[i]
    {
      return if i < entries.Length then entries[i] else behind[i - entries.Length];
    }

    method SetFlag(i: nat, e: Entry, behind: array<Entry>)
      requires i < entries.Length + behind.Length && behind != entries
      modifies entries, behind
      ensures Flags(behind) == old(Flags(behind))[i := e]
    {
      if i < entries.Length {
        entries[i] := e;
      } else {
        behind[i - entries.Length] := e;
      }
    }

    /**
     `heap_is_block_range_free` on [lo, hi).  The loop knows nothing of the end of the table:
     `left` says whether it has read a byte behind it.
     */
    method BlockRangeFree(lo: nat, hi: nat, behind: array<Entry>) returns (free: bool, left: bool)
      requires hi <= entries.Length + behind.Length
      ensures free == BlocksFree(Flags(behind), lo, hi)
      ensures left <==> lo < hi && entries.Length < hi && forall i :: lo <= i < entries.Length ==> !entries[i].taken
    {
      left := false;
      var i := lo;
      while i < hi
        invariant lo <= i && (i <= hi || i == lo)
        invariant forall j :: lo <= j < i ==> !Flags(behind)[j].taken
        invariant left <==> lo < i && entries.Length < i
      {
        if i >= entries.Length {
          left := true;
        }
        InTable(behind, lo, i);
        var flag := FlagAt(i, behind);
        if flag.taken {
          return false, left;
        }
        i := i + 1;
      }
      InTable(behind, lo, i);
      return true, left;
    }

    lemma InTable(behind: array<Entry>, lo: nat, i: nat)
      ensures forall j :: lo <= j <= i && j < entries.Length ==> Flags(behind)[j] == entries[j]
    {
    }

    /** Free entries carry no flag; every operation keeps this. */
    ghost predicate Sane()
      reads entries
    {
      forall i :: 0 <= i < entries.Length && !entries[i].taken ==> entries[i] == FREE
    }

    /** `heap_zalloc`, whole blocks at a time. */
    method ZallocBlocks(total: nat) returns (address: Option<nat>)
      requires pool.Length == entries.Length && pool != entries as object
      modifies this`used, this`free, entries, pool
      ensures var (st, s) := Malloc(old(Abs()), total);
              && Abs() == st && address == (if s < 0 then None else Some(Address(s)))
              && pool[..] == if s < 0 then old(pool[..]) else Zeroed(old(pool[..]), s, total)
    {
      ghost var before, fit := pool[..], Malloc(Abs(), total).1;
      address := MallocBlocks(total);
      if address.Some? {
        var start := BlockOf(address.value);
        for i := start to start + total
          invariant pool[..] == Zeroed(before, fit, i - start)
          invariant Abs() == Malloc(old(Abs()), total).0
        {
          pool[i] := ZeroBlock();
        }
      }
    }

    /**
     `heap_realloc` for a pointer to the start of block `s`; `behind` is the memory that the
     scan for room may get to behind the table.
     */
    method Realloc(address: nat, size: nat, behind: array<Entry>) returns (result: Option<nat>)
      requires pool.Length == entries.Length && Separate(behind) && Sane() && CallbackReady()
      requires address >= saddr && address % BLOCK_SIZE == saddr % BLOCK_SIZE
      requires (address - saddr) / BLOCK_SIZE < entries.Length && entries[(address - saddr) / BLOCK_SIZE].taken
      requires (address - saddr) / BLOCK_SIZE + BlocksFor(size) <= entries.Length + behind.Length
      modifies this`used, this`free, entries, behind, pool, onFree
      ensures var s, k := (address - saddr) / BLOCK_SIZE, BlocksFor(size);
              var (st, after, r) := ReallocIn(old(Abs()), old(behind[..]), s, k);
              && Abs() == st && behind[..] == after
              && result == (if r < 0 then None else Some(Address(r)))
              && pool[..] == ReallocPool(old(pool[..]), old(Abs()), old(behind[..]), s, k)
      ensures size == 0 ==> result == None && Abs() == BlockTable.Free(old(Abs()), (address - saddr) / BLOCK_SIZE)
    {
      if size == 0 {
        Release(address);
        return None;
      }
      hide Walk, BlockCount, ReallocIn, ReallocPool, CallbackReady, BlocksFor;
      BlocksForZero(size);
      var start := BlockOf(address);
      result := ReallocBlocks(start, BlocksFor(size), behind);
    }

    /** Table, the bytes behind it and the pool are different memory. */
    predicate Separate(behind: array<Entry>) {
      pool != entries as object && behind != entries && behind != pool as object
    }

    method ReallocBlocks(start: nat, total: nat, behind: array<Entry>) returns (result: Option<nat>)
      requires pool.Length == entries.Length && Separate(behind) && Sane() && CallbackReady()
      requires 0 < total && start < entries.Length && entries[start].taken
      requires start + total <= entries.Length + behind.Length
      modifies this`used, this`free, entries, behind, pool, onFree
      ensures var (st, after, r) := ReallocIn(old(Abs()), old(behind[..]), start, total);
              && Abs() == st && behind[..] == after
              && result == (if r < 0 then None else Some(Address(r)))
              && pool[..] == ReallocPool(old(pool[..]), old(Abs()), old(behind[..]), start, total)
    {
      hide Walk, Clear, Taken, BlockTable.Malloc, BlockTable.Free, Extended, Shrunk, CallbackReady, Zeroed, Copied, U64,
        BlocksFree;
      CountedBlocksAreTaken(entries[..], start);
      var current := AllocationBlockCount(start);
      if current >= total {
        if current == total {
          return Some(Address(start));
        }
        ShrinkTo(start, current, total);
        return Some(Address(start));
      }
      NotInTableEither(entries[..], behind[..], start + current, start + total);
      result := GrowTo(start, current, total, behind);
    }

    /** The second half of `heap_realloc`: extend in place, or else move. */
    method GrowTo(start: nat, current: nat, total: nat, behind: array<Entry>) returns (result: Option<nat>)
      requires pool.Length == entries.Length && Separate(behind) && CallbackReady()
      requires 0 < current < total && start + current <= entries.Length
      requires forall i :: start <= i < start + current ==> entries[i].taken
      requires start + total <= entries.Length + behind.Length
      modifies this`used, this`free, entries, behind, pool, onFree
      ensures old(BlocksFree(Flags(behind), start + current, start + total)) ==>
                && Flags(behind) == Extended(old(Flags(behind)), start, current, total)
                && used == U64(old(used) + (total - current)) && free == U64(old(free) - (total - current))
                && pool[..] == old(pool[..]) && result == Some(Address(start))
      ensures !old(BlocksFree(Flags(behind), start + current, start + total)) ==>
                behind[..] == old(behind[..]) &&
                var (st, t) := BlockTable.Malloc(old(Abs()), total);
                if t < 0 then Abs() == old(Abs()) && pool[..] == old(pool[..]) && result == None
                else Abs() == BlockTable.Free(st, start) && result == Some(Address(t))
                     && pool[..] == Copied(Zeroed(old(pool[..]), t, total), t, start, current)
    {
      hide Walk, Clear, Taken, BlockTable.Free, BlockTable.Malloc, Extended, CallbackReady, Zeroed, Copied;
      var ending := start + current - 1;
      var extra := total - current;
      var extStart := ending + 1;
      var extEnd := extStart + extra - 1;
      var room, _ := BlockRangeFree(extStart, extEnd + 1, behind);
      if room {
        Extend(extStart, extEnd, ending, behind);
        ExtendedFromLast(old(Flags(behind)), start, current, total);
        used := U64(used + extra);
        free := U64(free - extra);
        return Some(Address(start));
      }
      result := MoveTo(start, current, total);
    }

    /** Where there is no room behind: a new allocation, a copy, and the old one released. */
    method MoveTo(start: nat, current: nat, total: nat) returns (result: Option<nat>)
      requires pool.Length == entries.Length && pool != entries as object && CallbackReady()
      requires 0 < current < total && start + current <= entries.Length
      requires forall i :: start <= i < start + current ==> entries[i].taken
      modifies this`used, this`free, entries, pool, onFree
      ensures var (st, t) := BlockTable.Malloc(old(Abs()), total);
              if t < 0 then Abs() == old(Abs()) && pool[..] == old(pool[..]) && result == None
              else Abs() == BlockTable.Free(st, start) && result == Some(Address(t))
                   && pool[..] == Copied(Zeroed(old(pool[..]), t, total), t, start, current)
    {
      hide Walk, Clear, Taken, BlockTable.Free, MarkTaken, FirstFit, CallbackReady, Zeroed, Copied;
      MallocedRun(Abs(), total);
      result := ZallocBlocks(total);
      if result == None {
        return;
      }
      RunsApart(old(entries[..]), start, current, BlockOf(result.value), total);
      CopyBlocks(BlockOf(result.value), start, current);
      Release(Address(start));
    }

    method ShrinkTo(start: nat, current: nat, total: nat)
      requires 0 < total < current && start + current <= entries.Length && CallbackReady()
      modifies this`used, this`free, entries, onFree
      ensures entries[..] == Shrunk(old(entries[..]), start, total) && CallbackReady()
      ensures var n := Walk(old(entries[..]), start + total) + (current - total);
              used == U64(old(used) - n) && free == U64(old(free) + n)
    {
      hide Walk, CallbackReady, CallbackRan, Clear, U64;
      MarkBlocksFree(start + total);
      entries[start + total - 1] := entries[start + total - 1].(hasNext := false);
      var freed := current - total;
      U64Twice(old(used) - Walk(old(entries[..]), start + total), -freed);
      U64Twice(old(free) + Walk(old(entries[..]), start + total), freed);
      used := U64(used - freed);
      free := U64(free + freed);
    }

    method Extend(extStart: nat, extEnd: nat, ending: nat, behind: array<Entry>)
      requires ending + 1 == extStart <= extEnd < entries.Length + behind.Length && behind != entries
      modifies entries, behind
      ensures Flags(behind) == Extended(old(Flags(behind)), ending, 1, extEnd + 1 - ending)
    {
      hide Flags;
      ghost var before := Flags(behind);
      for i := extStart to extEnd
        invariant forall j :: 0 <= j < |before| ==>
          Flags(behind)[j] == if extStart <= j < i then Entry(true, false, true) else before[j]
      {
        SetFlag(i, Entry(true, false, true), behind);
      }
      SetFlag(extEnd, Entry(true, false, false), behind);
      var last := FlagAt(ending, behind);
      SetFlag(ending, last.(hasNext := true), behind);
    }

    /** `memcpy` between two runs of blocks that do not overlap. */
    method CopyBlocks(to: nat, from: nat, n: nat)
      requires to + n <= pool.Length && from + n <= pool.Length && (to + n <= from || from + n <= to)
      modifies pool
      ensures pool[..] == Copied(old(pool[..]), to, from, n)
    {
      for i := 0 to n
        invariant pool[..] == Copied(old(pool[..]), to, from, i)
      {
        pool[to + i] := pool[from + i];
      }
    }
  }

  function Copied(pool: seq<Block>, to: nat, from: nat, n: nat): (r: seq<Block>)
    requires from + n <= |pool|
    ensures |r| == |pool|
  {
    seq(|pool|, i requires 0 <= i < |pool| => if to <= i < to + n then pool[from + i - to] else pool[i])
  }

  /** Block contents after `heap_realloc`: only moving writes any. */
  function ReallocPool(pool: seq<Block>, st: State, behind: seq<Entry>, s: nat, k: nat): (r: seq<Block>)
    requires s <= |st.table| <= |pool|
  {
    var cur := BlockCount(st.table, s);
    var t := Malloc(st, k).1;
    if k <= cur || BlocksFree(st.table + behind, s + cur, s + k) || t < 0 then pool
    else Copied(Zeroed(pool, t, k), t, s, cur)
  }

  /** `memset` over whole blocks. */
  function Zeroed(pool: seq<Block>, start: nat, n: nat): (r: seq<Block>)
    ensures |r| == |pool|
  {
    seq(|pool|, i requires 0 <= i < |pool| => if start <= i < start + n then ZeroBlock() else pool[i])
  }

  /** No block of a live allocation other than `s` differs between `a` and `b`. */
  ghost predicate OthersKept<T>(live: map<nat, nat>, s: nat, a: seq<T>, b: seq<T>) {
    |a| == |b| && forall t, i :: t != s && Within(live, t, i) && i < |a| ==> a[i] == b[i]
  }

  ghost predicate ContentsKept(st: State, live: map<nat, nat>, pool: seq<Block>, behind: seq<Entry>, s: nat, k: nat)
    requires s in live && s <= |st.table| <= |pool| && s + live[s] <= |pool|
  {
    var (st', _, r) := ReallocIn(st, behind, s, k);
    var pool', m := ReallocPool(pool, st, behind, s, k), Min(live[s], k);
    && OthersKept(live, s, st.table, st'.table) && OthersKept(live, s, pool, pool')
    && (r >= 0 ==> r + m <= |pool| && pool'[r..r + m] == pool[s..s + m])
  }

  /** A call on a length that takes in a neighbour, which yet leaves the neighbour alone. */
  predicate SparesNeighbours(st: State, behind: seq<Entry>, s: nat, k: nat)
    requires s < |st.table|
  {
    var cur := BlockCount(st.table, s);
    k == cur || (k > cur && if BlocksFree(st.table + behind, s + cur, s + k)
                            then 0 < s + cur <= |st.table| && st.table[s + cur - 1].hasNext
                            else NoRoom(st, k))
  }

  /**
   `heap_realloc` keeps the leading blocks of the allocation it was given, in the place it
   answers, and touches neither the blocks nor the chain of any other live allocation,
   exactly when it counts the length right or the call happens to spare the neighbours.
   */
  lemma ReallocKeepsContents(st: State, live: map<nat, nat>, pool: seq<Block>, behind: seq<Entry>, s: nat, k: nat)
    requires Inv(st, live) && s in live && k > 0 && |pool| == |st.table|
    ensures ContentsKept(st, live, pool, behind, s, k) <==>
            Countable(st.table, live, s) || SparesNeighbours(st, behind, s, k)
  {
    hide Parsed, Countable, BlocksFree, Shrunk, BlockCount, OthersKept, Walk, Total, SparesNeighbours;
    ChainBlocks(st.table, live, s);
    BlockCountExact(st.table, live, s);
    if !Countable(st.table, live, s) {
      OvercountedContents(st, live, pool, behind, s, k);
    } else if k < live[s] {
      ShrinkOthers(st.table, live, s, k);
      OthersSame(live, s, pool);
    } else if k > live[s] {
      GrowKeepsContents(st, live, pool, behind, s, k);
    } else {
      OthersSame(live, s, pool);
      OthersSame(live, s, st.table);
    }
  }

  /**
   An answered reallocation of a length that is counted right leaves a chain of as few
   blocks as hold `size` bytes, unless the scan left the table or an open allocation moved.
   */
  lemma ReallocHoldsSize(st: State, live: map<nat, nat>, behind: seq<Entry>, s: nat, size: nat)
    requires Inv(st, live) && s in live && size > 0 && Countable(st.table, live, s)
    requires s + BlocksFor(size) <= |st.table| + |behind| < WORD && !Leaves(st, behind, s, BlocksFor(size))
    ensures var (st', _, r) := ReallocIn(st, behind, s, BlocksFor(size));
            r >= 0 && (r == s || Closed(st.table, live, s)) ==>
              exists n: nat :: JustHold(n, size) && Parsed(st'.table, Resized(live, s, n, r))
  {
    hide Chains, Closed, Countable, ReallocIn, BlocksFree, BlockTable.Leaves;
    var n := BlocksFor(size);
    ReallocExact(st, live, behind, s, n);
    var (st', _, r) := ReallocIn(st, behind, s, n);
    if r >= 0 && (r == s || Closed(st.table, live, s)) {
      if n == live[s] { assert live[s := n] == live; }
      assert JustHold(n, size) && Parsed(st'.table, Resized(live, s, n, r));
    }
  }

  lemma OvercountedContents(st: State, live: map<nat, nat>, pool: seq<Block>, behind: seq<Entry>, s: nat, k: nat)
    requires Inv(st, live) && s in live && k > 0 && |pool| == |st.table| && !Countable(st.table, live, s)
    ensures s < |st.table| && (ContentsKept(st, live, pool, behind, s, k) <==> SparesNeighbours(st, behind, s, k))
  {
    hide Countable, BlocksFree, Shrunk, BlockCount, OthersKept, Walk, Total, Extended, MarkTaken, FirstFit, Chains,
      Clear;
    var e, n, cur := st.table, live[s], BlockCount(st.table, s);
    ChainBlocks(e, live, s);
    BlockCountExact(e, live, s);
    CountedBlocksAreTaken(e, s);
    OthersSame(live, s, pool);
    if k > cur { GrownTable(st, behind, s, k); }
    if cur == k {
      OthersSame(live, s, e);
    } else if k < cur {
      OvercountedCut(e, live, s, k);
    } else if BlocksFree(e + behind, s + cur, s + k) {
      OvercountedGrowth(e, live, s, cur, k);
    } else if NoRoom(st, k) {
      OthersSame(live, s, e);
    } else {
      MallocedRun(st, k);
      OvercountedMove(e, live, s, Malloc(st, k).1, k);
    }
  }

  /** Blocks that are counted but not its own belong to others. */
  lemma OthersBlock(e: seq<Entry>, live: map<nat, nat>, s: nat, i: nat) returns (t: nat)
    requires Parsed(e, live) && s in live && s + live[s] <= i < |e| && e[i].taken
    ensures t != s && Within(live, t, i)
  {
    t :| Within(live, t, i);
  }

  lemma OvercountedCut(e: seq<Entry>, live: map<nat, nat>, s: nat, k: nat)
    requires Parsed(e, live) && s in live && !Countable(e, live, s) && 0 < k < BlockCount(e, s)
    requires s + BlockCount(e, s) <= |e| && forall i :: s <= i < s + BlockCount(e, s) ==> e[i].taken
    requires live[s] < BlockCount(e, s)
    ensures !OthersKept(live, s, e, Shrunk(e, s, k))
  {
    hide Chains, Countable, BlockCount;
    var j := if k <= live[s] then s + live[s] else s + k;
    if k <= live[s] { OvercountedShrink(e, live, s, k); }
    assert !Shrunk(e, s, k)[j].taken;
    var t := OthersBlock(e, live, s, j);
  }

  lemma OvercountedGrowth(e: seq<Entry>, live: map<nat, nat>, s: nat, cur: nat, k: nat)
    requires Parsed(e, live) && s in live && live[s] < cur < k && NoneTaken(e, s + cur, s + k)
    requires s + cur <= |e| && forall i :: s <= i < s + cur ==> e[i].taken
    ensures OthersKept(live, s, e, Extended(e, s, cur, k)) <==> e[s + cur - 1].hasNext
  {
    var t := OthersBlock(e, live, s, s + cur - 1);
    forall u, i | u != s && Within(live, u, i) ensures e[i].taken {
    }
  }

  lemma OvercountedMove(e: seq<Entry>, live: map<nat, nat>, s: nat, t: nat, k: nat)
    requires Parsed(e, live) && s in live && !Countable(e, live, s) && k > 0 && FreeRun(e, t, k)
    ensures !OthersKept(live, s, e, MarkFree(MarkTaken(e, t, k), s))
  {
    hide Chains, Countable, Closed;
    var e1, i := MarkTaken(e, t, k), s + live[s];
    NeighbourBehind(e, live, s);
    HeadIsTaken(e, live, i);
    RunIsOutside(e, live, t, k);
    MarkTakenKeepsParse(e, live, t, k);
    WalkEndsWithChain(e1, live[t := k], s, 0);
    var u := OthersBlock(e, live, s, i);
    assert !MarkFree(e1, s)[i].taken;
  }

  lemma OthersSame<T>(live: map<nat, nat>, s: nat, a: seq<T>)
    ensures OthersKept(live, s, a, a)
  {
  }

  lemma ShrinkOthers(e: seq<Entry>, live: map<nat, nat>, s: nat, k: nat)
    requires Parsed(e, live) && s in live && 0 < k < live[s] && Countable(e, live, s)
    ensures OthersKept(live, s, e, Shrunk(e, s, k))
  {
    ShrunkShape(e, live, s, k);
    hide Shrunk, Walk;
    forall t, i | t != s && Within(live, t, i) ensures !(s <= i < s + live[s]) {
    }
  }

  /** No block of the table from `lo` up to `hi` is taken. */
  predicate NoneTaken(e: seq<Entry>, lo: nat, hi: nat) { forall i :: lo <= i < hi && i < |e| ==> !e[i].taken }

  /** What growing does to the table, with or without leaving it. */
  lemma GrownTable(st: State, behind: seq<Entry>, s: nat, k: nat)
    requires k > BlockCount(st.table, s)
    ensures var cur, (st', _, r) := BlockCount(st.table, s), ReallocIn(st, behind, s, k);
            if BlocksFree(st.table + behind, s + cur, s + k) then
              r == s && st'.table == Extended(st.table, s, cur, k) && NoneTaken(st.table, s + cur, s + k)
            else !BlocksFree(st.table, s + cur, s + k) && (st', r) == Realloc(st, s, k)
  {
    hide BlockCount, Malloc, BlockTable.Free, U64;
    var e, cur := st.table, BlockCount(st.table, s);
    NotInTableEither(e, behind, s + cur, s + k);
    if BlocksFree(e + behind, s + cur, s + k) {
      assert Extended(e + behind, s, cur, k)[..|e|] == Extended(e, s, cur, k);
      forall i | s + cur <= i < s + k && i < |e| ensures !e[i].taken { assert (e + behind)[i] == e[i]; }
    }
  }

  lemma NotInTableEither(e: seq<Entry>, behind: seq<Entry>, lo: nat, hi: nat)
    ensures !BlocksFree(e + behind, lo, hi) ==> !BlocksFree(e, lo, hi)
  {
    if BlocksFree(e, lo, hi) {
      forall i | lo <= i < hi ensures !(e + behind)[i].taken { assert (e + behind)[i] == e[i]; }
    }
  }

  lemma GrowKeepsContents(st: State, live: map<nat, nat>, pool: seq<Block>, behind: seq<Entry>, s: nat, k: nat)
    requires Inv(st, live) && s in live && k > live[s] && Countable(st.table, live, s) && |pool| == |st.table|
    ensures ContentsKept(st, live, pool, behind, s, k)
  {
    hide Parsed, Countable, BlocksFree, BlockCount, Extended, Walk, Total, Malloc, Copied, Zeroed, OthersKept,
      ReallocIn, Realloc, BlockTable.Free;
    ChainBlocks(st.table, live, s);
    BlockCountExact(st.table, live, s);
    GrownTable(st, behind, s, k);
    OthersSame(live, s, pool);
    if BlocksFree(st.table + behind, s + live[s], s + k) {
      ExtendOthers(st.table, live, s, k);
    } else {
      MoveKeepsContents(st, live, pool, s, k);
    }
  }

  /** The moving half, and the one that fails. */
  lemma MoveKeepsContents(st: State, live: map<nat, nat>, pool: seq<Block>, s: nat, k: nat)
    requires Inv(st, live) && s in live && k > live[s] && Countable(st.table, live, s) && |pool| == |st.table|
    requires BlockCount(st.table, s) == live[s] && !BlocksFree(st.table, s + live[s], s + k) && s + live[s] <= |pool|
    ensures var (st', r) := Realloc(st, s, k);
            OthersKept(live, s, st.table, st'.table) &&
            var t, n := Malloc(st, k).1, live[s];
            if t < 0 then r < 0
            else
              var pool' := Copied(Zeroed(pool, t, k), t, s, n);
              r == t && t + n <= |pool| && OthersKept(live, s, pool, pool') && pool'[t..t + n] == pool[s..s + n]
  {
    hide Parsed, Countable, BlocksFree, BlockCount, Walk, Total, MarkTaken, FirstFit, Copied, Zeroed, Clear, OthersKept,
      FreeRun, Extended;
    if Malloc(st, k).1 >= 0 {
      MallocedRun(st, k);
      MoveOthers(st.table, live, s, Malloc(st, k).1, k);
      MoveContents(st.table, live, pool, s, Malloc(st, k).1, k);
    } else {
      OthersSame(live, s, st.table);
    }
  }

  lemma ExtendOthers(e: seq<Entry>, live: map<nat, nat>, s: nat, k: nat)
    requires Parsed(e, live) && s in live && live[s] < k && NoneTaken(e, s + live[s], s + k)
    ensures OthersKept(live, s, e, Extended(e, s, live[s], k))
  {
    forall t, i | t != s && Within(live, t, i) ensures e[i].taken && !(s <= i < s + live[s]) {
    }
  }

  lemma MoveContents(e: seq<Entry>, live: map<nat, nat>, pool: seq<Block>, s: nat, t: nat, k: nat)
    requires Parsed(e, live) && s in live && live[s] < k && FreeRun(e, t, k) && |pool| == |e|
    ensures var pool', n := Copied(Zeroed(pool, t, k), t, s, live[s]), live[s];
            OthersKept(live, s, pool, pool') && pool'[t..t + n] == pool[s..s + n]
  {
    RunIsOutside(e, live, t, k);
    hide Parsed;
    var z := Zeroed(pool, t, k);
    assert z[s..s + live[s]] == pool[s..s + live[s]];
    var pool' := Copied(z, t, s, live[s]);
    assert pool'[t..t + live[s]] == z[s..s + live[s]];
  }

  lemma MoveOthers(e: seq<Entry>, live: map<nat, nat>, s: nat, t: nat, k: nat)
    requires Parsed(e, live) && s in live && live[s] < k && Countable(e, live, s)
    requires !BlocksFree(e, s + live[s], s + k) && FreeRun(e, t, k)
    ensures OthersKept(live, s, e, MarkFree(MarkTaken(e, t, k), s))
  {
    var n, e1 := live[s], MarkTaken(e, t, k);
    RunIsOutside(e, live, t, k);
    MovedWalk(e, live, s, t, k);
    hide Walk;
    forall u, i | u != s && Within(live, u, i) ensures e[i].taken && !(s <= i < s + n) && !(t <= i < t + k) {
    }
    hide Parsed;
  }

  /** A run longer than the room that was missing does not start right behind. */
  lemma RunNotBehind(e: seq<Entry>, s: nat, n: nat, t: nat, k: nat)
    requires n < k && FreeRun(e, t, k) && !BlocksFree(e, s + n, s + k)
    ensures t != s + n || n == 0
  {
  }

  lemma MarkTakenElsewhere(e: seq<Entry>, t: nat, k: nat, i: nat)
    requires i < |e| && !(t <= i < t + k)
    ensures MarkTaken(e, t, k)[i] == e[i]
  {
  }

  lemma BehindIsFree(e: seq<Entry>, live: map<nat, nat>, s: nat)
    requires Parsed(e, live) && s in live && Countable(e, live, s) && !Closed(e, live, s)
    ensures s + live[s] < |e| && e[s + live[s]] == FREE
  {
  }

  /** Freeing the old place goes at most one block too far, over a free block. */
  lemma MovedWalk(e: seq<Entry>, live: map<nat, nat>, s: nat, t: nat, k: nat)
    requires Parsed(e, live) && s in live && live[s] < k && Countable(e, live, s)
    requires !BlocksFree(e, s + live[s], s + k) && FreeRun(e, t, k)
    ensures var w := Walk(MarkTaken(e, t, k), s);
            w == live[s] || (w == live[s] + 1 && s + w <= |e| && !e[s + live[s]].taken)
  {
    hide Parsed, Closed, Countable, BlocksFree, FreeRun, MarkTaken, Walk;
    var n, e1 := live[s], MarkTaken(e, t, k);
    ChainBlocks(e, live, s);
    RunIsOutside(e, live, t, k);
    MarkTakenKeepsParse(e, live, t, k);
    WalkEndsWithChain(e1, live[t := k], s, 0);
    RunNotBehind(e, s, n, t, k);
    if !Closed(e, live, s) {
      BehindIsFree(e, live, s);
      MarkTakenElsewhere(e, t, k, s + n);
      WalkGoesOn(e1, live[t := k], s, 0);
    }
  }
}
