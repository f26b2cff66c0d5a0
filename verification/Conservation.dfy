/**
 What freeing a defragmented allocation gives back (memory/heap/multiheap.c, heap.c).

 As the code stands what a second pass has handed out is not put back as it was, unless a
 stale page happens to lead to its first block (`FreeNeverRestores`). In the form the code
 evidently means, with the last block of a chain closed, the page index counted from the
 start of the run, the indexed page-table entries tested and half-open heap ranges,
 everything is (`IntendedFreeRestores`).
 */
module Conservation {
  import opened Basics
  import opened BlockTable
  import opened HeapList
  import opened Freeing
  import opened MultiHeap
  import H = Heap
  import I = IntendedHeap
  import P = Paging

  lemma FreeSingle(st: State, bs: seq<nat>)
    requires |bs| > 0 && Plain(st.table) && bs[0] < |st.table| && !st.table[bs[0]].taken && bs[0] !in bs[1..]
    ensures BlockTable.Free(Singles(st, bs), bs[0]) == Singles(st, bs[1..])
  {
    var now := Singles(st, bs);
    assert Walk(now.table, bs[0]) == 1;
    assert Clear(now.table, bs[0], 1) == Singles(st, bs[1..]).table;
    H.U64Twice(st.used + |bs|, -1);
    H.U64Twice(st.free - |bs|, 1);
  }

  /** Freeing backing blocks one after the other undoes the allocation of each. */
  lemma {:induction false} FreeBacking(hs: seq<Node>, c: nat, st: State, bs: seq<nat>, i: nat)
    requires c < |hs| && i <= |bs| && Plain(st.table) && hs[c].blocks == Singles(st, bs)
    requires |hs[c].blocks.table| == |st.table|
    requires forall j :: 0 <= j < |bs| ==> bs[j] < |st.table| && !st.table[bs[j]].taken
    requires forall j, k :: 0 <= j < k < |bs| ==> bs[j] < bs[k]
    requires forall j :: 0 <= j < |bs| ==> HeapFor(hs, hs[c].saddr + bs[j] * BLOCK_SIZE, 0) == c
    ensures FreeAll(hs, AddressesOf(hs[c].saddr, bs[..i])) == hs[c := hs[c].(blocks := Singles(st, bs[i..]))]
  {
    hide HeapFor, Singles, BlockTable.Free, SameShape, FreeAt, Plain;
    if i > 0 {
      var addresses := AddressesOf(hs[c].saddr, bs[..i]);
      assert bs[..i][..i - 1] == bs[..i - 1];
      FreeBacking(hs, c, st, bs, i - 1);
      var before := AddressesOf(hs[c].saddr, bs[..i - 1]);
      assert addresses[..i - 1] == before;
      SinglesSize(st, bs[i - 1..]);
      FreeAtBlock(hs, c, Singles(st, bs[i - 1..]), bs[i - 1]);
      DropFirst(bs, i - 1);
      FreeSingle(st, bs[i - 1..]);
    } else {
      assert bs[0..] == bs;
    }
  }

  function AddressesOf(saddr: nat, bs: seq<nat>): (r: seq<nat>)
    ensures |r| == |bs| && forall j :: 0 <= j < |bs| ==> r[j] == saddr + bs[j] * BLOCK_SIZE
  {
    if bs == [] then [] else AddressesOf(saddr, bs[..|bs| - 1]) + [saddr + bs[|bs| - 1] * BLOCK_SIZE]
  }

  lemma DropFirst(bs: seq<nat>, i: nat)
    requires i < |bs| && forall j, k :: 0 <= j < k < |bs| ==> bs[j] < bs[k]
    ensures bs[i..][1..] == bs[i + 1..] && bs[i..][0] == bs[i] && bs[i] !in bs[i + 1..]
  {
  }

  lemma SinglesSize(st: State, bs: seq<nat>)
    ensures |Singles(st, bs).table| == |st.table|
  {
  }

  lemma StateSameShape(hs: seq<Node>, c: nat, st: State)
    requires c < |hs| && |st.table| == |hs[c].blocks.table|
    ensures SameShape(hs, hs[c := hs[c].(blocks := st)])
  {
  }

  lemma FreeAtBlock(hs: seq<Node>, c: nat, st: State, b: nat)
    requires c < |hs| && |st.table| == |hs[c].blocks.table| && HeapFor(hs, hs[c].saddr + b * BLOCK_SIZE, 0) == c
    ensures FreeAt(hs[c := hs[c].(blocks := st)], hs[c].saddr + b * BLOCK_SIZE) ==
            hs[c := hs[c].(blocks := BlockTable.Free(st, b))]
  {
    hide HeapFor, BlockTable.Free, SameShape, FreeAt;
    StateSameShape(hs, c, st);
    var address, hs' := hs[c].saddr + b * BLOCK_SIZE, hs[c := hs[c].(blocks := st)];
    HeapForShape(hs, hs', address, 0);
    FreeAtHeap(hs', address, c);
    BlockBack(hs[c].saddr, b);
    assert hs'[c := hs'[c].(blocks := BlockTable.Free(st, b))] == hs[c := hs[c].(blocks := BlockTable.Free(st, b))];
  }

  lemma FreeAtHeap(hs: seq<Node>, address: nat, c: nat)
    requires HeapFor(hs, address, 0) == c < |hs|
    ensures address >= hs[c].saddr
    ensures FreeAt(hs, address) ==
            hs[c := hs[c].(blocks := BlockTable.Free(hs[c].blocks, (address - hs[c].saddr) / BLOCK_SIZE))]
  {
    hide BlockTable.Free, SameShape;
  }

  /** A paging heap's run at block 0 frees exactly when it is one page or all pages long. */
  lemma ShadowRunFrees(st: State, n: nat)
    requires Malloc(st, n).1 == 0 && Plain(st.table) && st.used < WORD && st.free < WORD
    requires n == 1 || n == |st.table|
    ensures && Walk(Malloc(st, n).0.table, 0) == n == BlockCount(Malloc(st, n).0.table, 0)
              && BlockTable.Free(Malloc(st, n).0, 0) == st
  {
    hide FirstFit, Plain, BlockCount, Walk, Clear, MarkTaken, U64;
    MallocWhenFits(st, n);
    ShadowRunWalk(st.table, n);
    ClearUndoesMark(st.table, 0, n);
    CounterReturns(st.used, n);
    CounterReturns(st.free, 0 - n);
  }

  lemma CounterReturns(x: nat, n: int)
    requires x < WORD
    ensures U64(U64(x + n) - n) == x
  {
    H.U64Twice(x + n, -n);
  }

  lemma ShadowRunWalk(e: seq<Entry>, n: nat)
    requires n > 0 && FreeRun(e, 0, n) && (n == 1 || n == |e|)
    ensures Walk(MarkTaken(e, 0, n), 0) == n == BlockCount(MarkTaken(e, 0, n), 0)
  {
    hide Walk, Taken;
    RunWalk(MarkTaken(e, 0, n), n, 0);
    TakenExtremes(MarkTaken(e, 0, n), 0, n);
  }

  lemma ClearUndoesMark(e: seq<Entry>, s: nat, n: nat)
    requires FreeRun(e, s, n) && Plain(e)
    ensures Clear(MarkTaken(e, s, n), s, n) == e
  {
  }

  lemma {:induction false} OpenRunWalk(e: seq<Entry>, n: nat, i: nat)
    requires i <= n < |e| && forall j :: i <= j < n ==> e[j].hasNext
    ensures Walk(e, i) > n - i
    decreases n - i
  {
    if i < n { OpenRunWalk(e, n, i + 1); }
  }

  /**
   Releasing what was just allocated puts a heap back as it was exactly when one block was
   allocated or the blocks reach the end of the heap.
   */
  lemma MallocThenFreeExact(st: State, n: nat)
    requires Malloc(st, n).1 >= 0 && Plain(st.table) && st.used < WORD && st.free < WORD && |st.table| < WORD
    ensures BlockTable.Free(Malloc(st, n).0, Malloc(st, n).1) == st <==> n == 1 || Malloc(st, n).1 + n == |st.table|
  {
    hide FirstFit, Plain, Clear, U64, Walk, MarkTaken;
    MallocWhenFits(st, n);
    var s := Malloc(st, n).1;
    var marked := MarkTaken(st.table, s, n);
    var w := Walk(marked, s);
    RunFlags(st.table, s, n);
    if n == 1 || s + n == |st.table| {
      RunWalk(marked, s + n, s);
      ClearUndoesMark(st.table, s, n);
      CounterReturns(st.used, n);
      CounterReturns(st.free, 0 - n);
    } else {
      OpenRunWalk(marked, s + n, s);
      CounterMoves(st.used, n, w);
    }
  }

  lemma RunFlags(e: seq<Entry>, s: nat, n: nat)
    requires FreeRun(e, s, n) && n > 0
    ensures var marked := MarkTaken(e, s, n);
            if n == 1 then !marked[s].hasNext else forall j :: s <= j < s + n ==> marked[j].hasNext
  {
  }

  /** A counter that goes up by n and down by another number below 2^64 has moved. */
  lemma CounterMoves(x: nat, n: nat, w: nat)
    requires x < WORD && n < w < WORD
    ensures U64(U64(x + n) - w) != x
  {
    H.U64Twice(x + n, 0 - w);
  }

  lemma {:induction false} RunWalk(e: seq<Entry>, n: nat, i: nat)
    requires i < n <= |e| && (forall j :: i <= j < n - 1 ==> e[j].hasNext) && (n == |e| || !e[n - 1].hasNext)
    ensures Walk(e, i) == n - i
    decreases n - i
  {
    if i + 1 < n { RunWalk(e, n, i + 1); }
  }

  /** The pages of the run at `ptr` are backed by `bs`, and `paging_get` finds each of them. */
  ghost predicate Findable(s: P.Space, ptr: nat, bs: seq<nat>) {
    forall k :: 0 <= k < |bs| ==> P.Get(s, ptr + k * BLOCK_SIZE).Some?
  }

  lemma BackedTargets(s0: P.Space, s1: P.Space, paths: P.Paths, ptr: nat, saddr: nat, bs: seq<nat>)
    requires P.Valid(s1, paths) && BackedBy(s0, s1, ptr, saddr, bs) && Findable(s1, ptr, bs) && |bs| <= P.PAGE_NUMBERS
    requires ptr % BLOCK_SIZE == 0 && saddr % BLOCK_SIZE == 0
    requires forall k :: 0 <= k < |bs| ==> saddr + bs[k] * BLOCK_SIZE < P.FRAME_LIMIT * BLOCK_SIZE
    ensures TargetRun(s1, ptr, |bs|) == AddressesOf(saddr, bs)
  {
    hide P.Valid, BackedBy, Findable, TargetOf;
    forall k | 0 <= k < |bs| ensures TargetOf(s1, ptr + k * BLOCK_SIZE) == saddr + bs[k] * BLOCK_SIZE {
      BackedTarget(s0, s1, paths, ptr, saddr, bs, k);
    }
  }

  lemma BackedTarget(s0: P.Space, s1: P.Space, paths: P.Paths, ptr: nat, saddr: nat, bs: seq<nat>, k: nat)
    requires P.Valid(s1, paths) && BackedBy(s0, s1, ptr, saddr, bs) && Findable(s1, ptr, bs) && |bs| <= P.PAGE_NUMBERS
    requires ptr % BLOCK_SIZE == 0 && saddr % BLOCK_SIZE == 0
    requires k < |bs| && saddr + bs[k] * BLOCK_SIZE < P.FRAME_LIMIT * BLOCK_SIZE
    ensures TargetOf(s1, ptr + k * BLOCK_SIZE) == saddr + bs[k] * BLOCK_SIZE
  {
    hide P.Valid, P.Lookup, P.Get, P.PageNumber, P.LeafEntry, P.PtPath, P.PdPath, P.PdptPath;
    var va := ptr + k * BLOCK_SIZE;
    P.GetExact(s1, paths, va);
    assert P.Get(s1, va).Some?;
    P.OffsetOfPage(va, ptr, k);
    hide P.Offset;
    FrameOfAddress(saddr, bs[k]);
    PageAligned(ptr, k);
  }

  lemma PageAligned(ptr: nat, k: nat)
    requires ptr % BLOCK_SIZE == 0
    ensures (ptr + k * BLOCK_SIZE) % P.PAGE_SIZE == 0
  {
  }

  lemma DefragmentedShadow(h: Node, n: nat, bs: seq<nat>)
    ensures Defragmented(h, n, bs).shadow == Malloc(h.shadow, n).0 && Defragmented(h, n, bs).saddr == h.saddr
  {
  }

  lemma AddressesBelow(h: Node, bs: seq<nat>)
    requires forall j :: 0 <= j < |bs| ==> h.saddr + bs[j] * BLOCK_SIZE < End(h)
    ensures |AddressesOf(h.saddr, bs)| == |bs| && forall j :: 0 <= j < |bs| ==> AddressesOf(h.saddr, bs)[j] < End(h)
  {
  }

  lemma NullAgain(s0: P.Space, s1: P.Space, s': P.Space, ptr: nat, saddr: nat, bs: seq<nat>)
    requires BackedBy(s0, s1, ptr, saddr, bs) && H.Unmapped(s1, s', ptr, |bs|)
    ensures H.Unmapped(s0, s', ptr, |bs|)
  {
    hide P.Lookup, P.Offset, P.LeafEntry;
  }

  lemma TargetsAreBacking(h: Node, n: nat, maxEnd: nat, s0: P.Space, s1: P.Space, paths: P.Paths)
    requires WellFormed(h) && Plain(h.shadow.table)
    requires Malloc(h.shadow, n).1 == 0 && (n == 1 || n == |h.shadow.table|)
    requires |h.shadow.table| == |h.blocks.table| && n <= |FreeBlocks(h.blocks.table)|
    requires maxEnd % BLOCK_SIZE == 0 && End(h) <= P.FRAME_LIMIT * BLOCK_SIZE
    requires var bs, ptr := FreeBlocks(h.blocks.table)[..n], ShadowPage(h, maxEnd, 0);
             P.Valid(s1, paths) && BackedBy(s0, s1, ptr, h.saddr, bs) && Findable(s1, ptr, bs)
    ensures var bs, ptr := FreeBlocks(h.blocks.table)[..n], ShadowPage(h, maxEnd, 0);
            Targets(s1, Defragmented(h, n, bs), maxEnd, ptr) == AddressesOf(h.saddr, bs)
  {
    hide P.Valid, Findable, Plain, Malloc, FreeBlocks, Singles, ZeroedAt, BlockCount, BackedBy, AddressesOf, TargetRun;
    var bs, ptr := FreeBlocks(h.blocks.table)[..n], ShadowPage(h, maxEnd, 0);
    SumAligned(maxEnd, h.saddr);
    BackingInside(h, n);
    ShadowRunFrees(h.shadow, n);
    BackedTargets(s0, s1, paths, ptr, h.saddr, bs);
  }

  lemma HeapsRestored(hs: seq<Node>, c: nat, n: nat)
    requires c < |hs| && WellFormed(hs[c]) && Plain(hs[c].blocks.table) && Plain(hs[c].shadow.table)
    requires Malloc(hs[c].shadow, n).1 == 0 && (n == 1 || n == |hs[c].shadow.table|)
    requires n <= |FreeBlocks(hs[c].blocks.table)|
    requires var bs := FreeBlocks(hs[c].blocks.table)[..n];
             forall j :: 0 <= j < n ==> HeapFor(hs, hs[c].saddr + bs[j] * BLOCK_SIZE, 0) == c
    ensures var bs := FreeBlocks(hs[c].blocks.table)[..n];
            var hs1 := hs[c := Defragmented(hs[c], n, bs)];
            var freed := FreeAll(hs1, AddressesOf(hs[c].saddr, bs));
            freed[c := freed[c].(shadow := BlockTable.Free(hs1[c].shadow, 0))] ==
            hs[c := hs[c].(pool := ZeroedAt(hs[c].pool, bs))]
  {
    hide Plain, FreeAll, Malloc, FreeBlocks, Singles, ZeroedAt, HeapFor, BlockTable.Free, AddressesOf;
    var h := hs[c];
    var bs := FreeBlocks(h.blocks.table)[..n];
    BackingInside(h, n);
    ShadowRunFrees(h.shadow, n);
    SinglesSize(h.blocks, bs);
    MallocKeepsForm(h.shadow, n);
    var hs1 := hs[c := Defragmented(h, n, bs)];
    forall j | 0 <= j < n ensures HeapFor(hs1, h.saddr + bs[j] * BLOCK_SIZE, 0) == c {
      HeapForShape(hs, hs1, h.saddr + bs[j] * BLOCK_SIZE, 0);
    }
    FreeBacking(hs1, c, h.blocks, bs, n);
    assert bs[..n] == bs && bs[n..] == [];
    SinglesNothing(h.blocks, h.pool);
  }

  // ------------------------------------------------------- the exact condition

  /** Heap `c` after the second pass has backed a run of `n` pages at block `s` of its paging heap. */
  ghost predicate Backed(hs: seq<Node>, c: nat, n: nat, maxEnd: nat, s0: P.Space, s1: P.Space, paths: P.Paths) {
    c < |hs| &&
    var h := hs[c];
    && WellFormed(h) && Plain(h.blocks.table) && |h.shadow.table| == |h.blocks.table|
    && h.paging && BLOCK_SIZE <= h.saddr && Settled(hs, maxEnd, s0, [])
    && n <= |FreeBlocks(h.blocks.table)| && Malloc(h.shadow, n).1 >= 0
    && P.Valid(s0, paths) && P.Valid(s1, paths)
    && BackedBy(s0, s1, ShadowPage(h, maxEnd, Malloc(h.shadow, n).1), h.saddr, FreeBlocks(h.blocks.table)[..n])
  }

  /** The heaps right after the allocation, and right after it has been freed again. */
  function Given(hs: seq<Node>, c: nat, n: nat): seq<Node>
    requires c < |hs| && n <= |FreeBlocks(hs[c].blocks.table)|
  {
    hs[c := Defragmented(hs[c], n, FreeBlocks(hs[c].blocks.table)[..n])]
  }

  function PointerGiven(hs: seq<Node>, c: nat, n: nat, maxEnd: nat): nat
    requires c < |hs| && Malloc(hs[c].shadow, n).1 >= 0
  {
    ShadowPage(hs[c], maxEnd, Malloc(hs[c].shadow, n).1)
  }

  function AfterFree(hs: seq<Node>, c: nat, n: nat, maxEnd: nat, s1: P.Space): Option<Freed>
    requires c < |hs| && n <= |FreeBlocks(hs[c].blocks.table)| && Malloc(hs[c].shadow, n).1 >= 0
  {
    FreeDeep(s1, maxEnd, Given(hs, c, n), [], PointerGiven(hs, c, n, maxEnd), 1)
  }

  /** All tables and counters are as before; the backing blocks stay zeroed. */
  predicate Restored(hs: seq<Node>, c: nat, n: nat, hs': seq<Node>)
    requires c < |hs| && n <= |FreeBlocks(hs[c].blocks.table)|
  {
    hs' == hs[c := hs[c].(pool := ZeroedAt(hs[c].pool, FreeBlocks(hs[c].blocks.table)[..n]))]
  }

  /** The nulled pages are those of the run, and all others lead where they led before it was given. */
  ghost predicate Cleared(s0: P.Space, s1: P.Space, virt: nat, n: nat, nulled: seq<PageRun>) {
    forall s' :: NulledFrom(s1, s', nulled) ==> H.Unmapped(s0, s', virt, n)
  }

  /**
   Freeing has ended and put everything back: tables and counters of all heaps, and the leaf
   entries of exactly the `n` pages from `virt` on are null.
   */
  ghost predicate PutBack(hs: seq<Node>, c: nat, n: nat, virt: nat, s0: P.Space, s1: P.Space, r: Option<Freed>)
    requires c < |hs| && n <= |FreeBlocks(hs[c].blocks.table)|
  {
    RestoredBy(hs, c, n, r) && Cleared(s0, s1, virt, n, r.value.nulled)
  }

  /** The lookups find what they should: see `LookupExact` and `GetExact`. */
  ghost predicate Found(hs: seq<Node>, c: nat, n: nat, maxEnd: nat, s1: P.Space)
    requires c < |hs| && n <= |FreeBlocks(hs[c].blocks.table)| && Malloc(hs[c].shadow, n).1 >= 0
  {
    var bs := FreeBlocks(hs[c].blocks.table)[..n];
    && Findable(s1, PointerGiven(hs, c, n, maxEnd), bs)
    && forall j :: 0 <= j < n ==> HeapFor(hs, hs[c].saddr + bs[j] * BLOCK_SIZE, 0) == c
  }

  /** An address in block `b` of heap `c`. */
  predicate LeadsTo(hs: seq<Node>, c: nat, b: nat, address: nat)
    requires c < |hs|
  {
    HeapFor(hs, address, 0) == c && (address - hs[c].saddr) / BLOCK_SIZE == b
  }

  /**
   For a run that is not at block 0: none of the pages that the shifted index comes to leads
   to the first block that backs the run.
   */
  predicate Overlooked(hs: seq<Node>, c: nat, n: nat, maxEnd: nat, s1: P.Space)
    requires c < |hs| && 0 < n <= |FreeBlocks(hs[c].blocks.table)| && Malloc(hs[c].shadow, n).1 >= 0
  {
    var (st, s) := Malloc(hs[c].shadow, n);
    s > 0 ==> forall k: nat :: k < BlockCount(st.table, s) ==> MissesFirst(hs, c, n, maxEnd, s1, k)
  }

  predicate MissesFirst(hs: seq<Node>, c: nat, n: nat, maxEnd: nat, s1: P.Space, k: nat)
    requires c < |hs| && 0 < n <= |FreeBlocks(hs[c].blocks.table)| && Malloc(hs[c].shadow, n).1 >= 0
  {
    var page := PointerGiven(hs, c, n, maxEnd) + (Malloc(hs[c].shadow, n).1 + k) * BLOCK_SIZE;
    !LeadsTo(hs, c, FreeBlocks(hs[c].blocks.table)[0], TargetOf(s1, page))
  }

  /** Giving the run has left the allocator settled. */
  lemma GivenSettled(hs: seq<Node>, c: nat, n: nat, maxEnd: nat, s0: P.Space, s1: P.Space, paths: P.Paths)
    requires Backed(hs, c, n, maxEnd, s0, s1, paths)
    ensures Settled(Given(hs, c, n), maxEnd, s1, []) && Plain(hs[c].shadow.table) && Fitting(hs[c], maxEnd)
    ensures maxEnd % BLOCK_SIZE == 0 && 3 * maxEnd <= ADDRESS_LIMIT && End(hs[c]) <= P.FRAME_LIMIT * BLOCK_SIZE
  {
    PassSettles(hs, c, n, maxEnd, s0, s1, paths);
    hide P.Valid, BackedBy, FreeBlocks, Malloc, TakenLead;
  }

  // ------------------------------------------------------------- physical pages

  lemma {:induction false} EachPhysical(s: P.Space, maxEnd: nat, hs: seq<Node>, va: nat, n: nat)
    requires forall k :: 0 <= k < n ==> TargetOf(s, va + k * BLOCK_SIZE) < maxEnd
    ensures FreeEach(s, maxEnd, hs, [], va, n, 1) == Some(Freed(FreeAll(hs, TargetRun(s, va, n)), []))
    decreases n
  {
    hide TargetOf, FreeAt, ShadowFor, FreeDeep, FreeEach;
    if n > 0 {
      EachPhysical(s, maxEnd, hs, va, n - 1);
      FreeOneMore(s, maxEnd, hs, [], va, n - 1, 1);
      var target, freed := TargetOf(s, va + (n - 1) * BLOCK_SIZE), FreeAll(hs, TargetRun(s, va, n - 1));
      NothingNullIn(va + (n - 1) * BLOCK_SIZE);
      FreeOfPhysical(s, maxEnd, freed, [], target, 0);
      assert TargetRun(s, va, n)[..n - 1] == TargetRun(s, va, n - 1);
    } else {
      FreeNone(s, maxEnd, hs, [], va, 1);
    }
  }

  /** Without recursion: every page looked at leads to physical memory. */
  lemma PhysicalFree(s: P.Space, maxEnd: nat, hs: seq<Node>, ptr: nat, p: nat)
    requires ptr >= maxEnd && p < |hs| && ShadowFor(hs, ptr - maxEnd, 0) == p
    requires forall a :: a in Targets(s, hs[p], maxEnd, ptr) ==> a < maxEnd
    ensures var start := ShadowBlock(hs[p], maxEnd, ptr);
            var freed := FreeAll(hs, Targets(s, hs[p], maxEnd, ptr));
            FreeDeep(s, maxEnd, hs, [], ptr, 1) ==
            Some(Freed(freed[p := freed[p].(shadow := BlockTable.Free(hs[p].shadow, start))],
                       [PageRun(ShadowPage(hs[p], maxEnd, start), Walk(hs[p].shadow.table, start))]))
  {
    hide TargetOf, FreeAt, ShadowFor, Walk, BlockTable.Free, BlockCount, FreeAll, FreeEach, FreeDeep, SameShape;
    var start := ShadowBlock(hs[p], maxEnd, ptr);
    var n, va := BlockCount(hs[p].shadow.table, start), ptr + start * BLOCK_SIZE;
    var targets := Targets(s, hs[p], maxEnd, ptr);
    assert targets == TargetRun(s, va, n);
    forall k | 0 <= k < n ensures TargetOf(s, va + k * BLOCK_SIZE) < maxEnd {
      assert targets[k] in targets;
    }
    EachPhysical(s, maxEnd, hs, va, n);
    FreeAllKeepsShadows(hs, targets);
    ShapeParts(hs, FreeAll(hs, targets), p);
    FreeOfPages(s, maxEnd, hs, [], ptr, p, 1);
    assert [] + [PageRun(ShadowPage(hs[p], maxEnd, start), Walk(hs[p].shadow.table, start))] ==
           [PageRun(ShadowPage(hs[p], maxEnd, start), Walk(hs[p].shadow.table, start))];
  }

  /** The half in which everything comes back: the run is all of the paging heap, or its block 0 alone. */
  lemma FreeRestores(hs: seq<Node>, c: nat, n: nat, maxEnd: nat, s0: P.Space, s1: P.Space, paths: P.Paths)
    requires Backed(hs, c, n, maxEnd, s0, s1, paths) && Found(hs, c, n, maxEnd, s1)
    requires ShadowFor(hs, hs[c].saddr, 0) == c
    requires Malloc(hs[c].shadow, n).1 == 0 && (n == 1 || n == |hs[c].shadow.table|)
    ensures PutBack(hs, c, n, PointerGiven(hs, c, n, maxEnd), s0, s1, AfterFree(hs, c, n, maxEnd, s1))
  {
    hide P.Valid, Findable, Plain, FreeAll, Malloc, FreeBlocks, Singles, ZeroedAt, HeapFor, BlockTable.Free, Walk,
      BlockCount, BackedBy, Defragmented, AddressesOf, Targets, End, ShadowFor, FreeDeep, Cleared, Settled;
    var h := hs[c];
    var bs, ptr, hs1 := FreeBlocks(h.blocks.table)[..n], ShadowPage(h, maxEnd, 0), Given(hs, c, n);
    BackingInside(h, n);
    GivenSettled(hs, c, n, maxEnd, s0, s1, paths);
    TargetsAreBacking(h, n, maxEnd, s0, s1, paths);
    HeapsRestored(hs, c, n);
    ShadowRunFrees(h.shadow, n);
    DefragmentedShadow(h, n, bs);
    AddressesBelow(h, bs);
    GivenSameShape(hs, c, n);
    ShadowForShape(hs, hs1, h.saddr, 0);
    TargetsOfShadow(s1, h, hs1[c], maxEnd, ptr);
    PhysicalFree(s1, maxEnd, hs1, ptr, c);
    OwnRunCleared(s0, s1, ptr, h.saddr, bs);
  }

  /** Nulling the pages of a backed run takes back what backing it did to the translations. */
  lemma OwnRunCleared(s0: P.Space, s1: P.Space, ptr: nat, saddr: nat, bs: seq<nat>)
    requires BackedBy(s0, s1, ptr, saddr, bs)
    ensures Cleared(s0, s1, ptr, |bs|, [PageRun(ptr, |bs|)])
  {
    hide BackedBy, P.Lookup;
    forall s' | NulledFrom(s1, s', [PageRun(ptr, |bs|)]) ensures H.Unmapped(s0, s', ptr, |bs|) {
      OneRunNulled(s1, s', PageRun(ptr, |bs|));
      NullAgain(s0, s1, s', ptr, saddr, bs);
    }
  }

  lemma OneRunNulled(s: P.Space, s': P.Space, run: PageRun)
    requires NulledFrom(s, s', [run])
    ensures H.Unmapped(s, s', run.virt, run.n)
  {
    hide P.Lookup, P.Offset;
    forall v ensures NullIn([run], v) <==> P.Offset(v, run.virt) < run.n {
      assert [run][..0] == [];
    }
  }

  lemma GivenSameShape(hs: seq<Node>, c: nat, n: nat)
    requires c < |hs| && n <= |FreeBlocks(hs[c].blocks.table)|
    ensures SameShape(hs, Given(hs, c, n))
  {
    SinglesSize(hs[c].blocks, FreeBlocks(hs[c].blocks.table)[..n]);
    MallocKeepsForm(hs[c].shadow, n);
    hide Malloc, Singles, FreeBlocks, ZeroedAt;
  }

  lemma TargetsOfShadow(s: P.Space, h: Node, h1: Node, maxEnd: nat, ptr: nat)
    requires h1.saddr == h.saddr && ptr == ShadowPage(h, maxEnd, 0)
    ensures ptr - maxEnd == h.saddr && ShadowBlock(h1, maxEnd, ptr) == 0
  {
  }

  // --------------------------------------------------------------- lasting harm

  /**
   Seen from the table `t0` before the allocation, block `b` is still taken, or else a block
   that was taken has been released.  Only blocks that were taken then point on.
   */
  ghost predicate Harmed(t0: seq<Entry>, t: seq<Entry>, b: nat) {
    && |t| == |t0| && b < |t|
    && (t[b].taken || exists x: nat :: x < |t0| && t0[x].taken && !t[x].taken)
    && forall x: nat :: x < |t0| && t[x].hasNext ==> t0[x].taken
  }

  /** Releasing anything but `b` itself does not mend that. */
  lemma ClearKeepsHarm(t0: seq<Entry>, t: seq<Entry>, b: nat, x: nat)
    requires Harmed(t0, t, b) && x != b
    ensures Harmed(t0, Clear(t, x, Walk(t, x)), b)
  {
    var t' := Clear(t, x, Walk(t, x));
    if t[b].taken {
      if !t'[b].taken {
        assert t[x].hasNext;
        assert t0[x].taken && !t'[x].taken;
      }
    } else {
      var y: nat :| y < |t0| && t0[y].taken && !t[y].taken;
      assert !t'[y].taken;
    }
  }

  lemma FreeAtKeepsHarm(hs: seq<Node>, c: nat, t0: seq<Entry>, b: nat, address: nat)
    requires c < |hs| && Harmed(t0, hs[c].blocks.table, b) && !LeadsTo(hs, c, b, address)
    ensures HarmedIn(t0, FreeAt(hs, address), c, b)
  {
    hide Harmed, HeapFor, SameShape, Walk, Clear;
    if HeapFor(hs, address, 0) == c {
      FreeAtHeap(hs, address, c);
      ClearKeepsHarm(t0, hs[c].blocks.table, b, (address - hs[c].saddr) / BLOCK_SIZE);
    }
  }

  ghost predicate HarmedIn(t0: seq<Entry>, hs: seq<Node>, c: nat, b: nat) {
    c < |hs| && Harmed(t0, hs[c].blocks.table, b)
  }

  /** Nor does freeing pages that lead to anything else. */
  lemma {:induction false} EachKeepsHarm(s: P.Space, maxEnd: nat, hs: seq<Node>, nulled: seq<PageRun>, va: nat, n: nat,
                                         c: nat, t0: seq<Entry>, b: nat)
    requires c < |hs| && hs[c].paging && BLOCK_SIZE <= hs[c].saddr && Settled(hs, maxEnd, s, nulled)
    requires maxEnd <= va && va + n * BLOCK_SIZE <= ADDRESS_LIMIT && Harmed(t0, hs[c].blocks.table, b)
    requires forall k: nat :: k < n ==> !LeadsTo(hs, c, b, TargetOf(s, va + k * BLOCK_SIZE))
    ensures var f := FreeEach(s, maxEnd, hs, nulled, va, n, 1); f.Some? && HarmedIn(t0, f.value.heaps, c, b)
    decreases n
  {
    hide Settled, FreeDeep, FreeEach, TargetAfter, TargetOf, Calm, Harmed, LeadsTo, SameShape;
    if n == 0 {
      FreeNone(s, maxEnd, hs, nulled, va, 1);
    } else {
      EachKeepsHarm(s, maxEnd, hs, nulled, va, n - 1, c, t0, b);
      EachEnds(s, maxEnd, hs, nulled, va, n - 1);
      FreeOneMore(s, maxEnd, hs, nulled, va, n - 1, 1);
      var f, page := FreeEach(s, maxEnd, hs, nulled, va, n - 1, 1).value, va + (n - 1) * BLOCK_SIZE;
      ShapeParts(hs, f.heaps, c);
      LeadsCalm(f.heaps, maxEnd, s, f.nulled, page);
      assert !LeadsTo(hs, c, b, TargetOf(s, page));
      StillMisses(hs, f.heaps, c, b, s, f.nulled, page);
      FlatKeepsHarm(s, maxEnd, f.heaps, f.nulled, TargetAfter(s, f.nulled, page), c, t0, b);
    }
  }

  lemma StillMisses(hs: seq<Node>, hs': seq<Node>, c: nat, b: nat, s: P.Space, nulled: seq<PageRun>, page: nat)
    requires c < |hs| && SameShape(hs, hs') && BLOCK_SIZE <= hs[c].saddr && !LeadsTo(hs, c, b, TargetOf(s, page))
    ensures !LeadsTo(hs', c, b, TargetAfter(s, nulled, page))
  {
    hide TargetOf, NullIn, P.Get, SameShape;
    ShapeParts(hs, hs', c);
    HeapForShape(hs, hs', TargetAfter(s, nulled, page), 0);
  }

  lemma FlatKeepsHarm(s: P.Space, maxEnd: nat, hs: seq<Node>, nulled: seq<PageRun>, t: nat, c: nat, t0: seq<Entry>,
                      b: nat)
    requires c < |hs| && hs[c].paging && Calm(hs, maxEnd, t) && Harmed(t0, hs[c].blocks.table, b)
    requires !LeadsTo(hs, c, b, t)
    ensures var f := FreeDeep(s, maxEnd, hs, nulled, t, 0); f.Some? && HarmedIn(t0, f.value.heaps, c, b)
  {
    hide FreeDeep, FreeEach, BlockCount, Walk, BlockTable.Free, Harmed, FreeAt, PagingFor;
    var p := PagingFor(hs, maxEnd, t);
    if p < 0 {
      FreeOfPhysical(s, maxEnd, hs, nulled, t, 0);
      if t >= maxEnd { OutsidePaging(hs, c, b, maxEnd, t); }
      FreeAtKeepsHarm(hs, c, t0, b, Physical(maxEnd, t));
    } else {
      FreeOfPages(s, maxEnd, hs, nulled, t, p, 0);
      FreeNone(s, maxEnd, hs, nulled, t + ShadowBlock(hs[p], maxEnd, t) * BLOCK_SIZE, 0);
      ReleasedShadow(hs, p, BlockTable.Free(hs[p].shadow, ShadowBlock(hs[p], maxEnd, t)), c);
    }
  }

  lemma OutsidePaging(hs: seq<Node>, c: nat, b: nat, maxEnd: nat, t: nat)
    requires c < |hs| && hs[c].paging && t >= maxEnd && PagingFor(hs, maxEnd, t) < 0
    ensures !LeadsTo(hs, c, b, t - maxEnd)
  {
  }

  lemma ReleasedShadow(hs: seq<Node>, p: nat, st: State, c: nat)
    requires p < |hs| && c < |hs|
    ensures hs[p := hs[p].(shadow := st)][c].blocks == hs[c].blocks
    ensures hs[p := hs[p].(shadow := st)][p].shadow == st
  {
  }

  /** A backing block that is still taken, or a block lost on the way: not what was there before. */
  lemma HarmedIsNotRestored(hs: seq<Node>, c: nat, n: nat, hs': seq<Node>)
    requires c < |hs| && 0 < n <= |FreeBlocks(hs[c].blocks.table)| && |hs'| == |hs|
    requires Harmed(hs[c].blocks.table, hs'[c].blocks.table, FreeBlocks(hs[c].blocks.table)[0])
    ensures !Restored(hs, c, n, hs')
  {
    BackingInside(hs[c], n);
    hide FreeBlocks, ZeroedAt;
  }

  lemma BackedIsHarmed(h: Node, n: nat)
    requires 0 < n <= |FreeBlocks(h.blocks.table)| && Plain(h.blocks.table)
    ensures Harmed(h.blocks.table, Singles(h.blocks, FreeBlocks(h.blocks.table)[..n]).table,
            FreeBlocks(h.blocks.table)[0])
  {
    BackingInside(h, n);
    var bs := FreeBlocks(h.blocks.table)[..n];
    hide FreeBlocks;
    assert bs[0] in bs;
  }

  /** Where the run is, seen from the pointer to it. */
  lemma GivenPlace(hs: seq<Node>, c: nat, n: nat, maxEnd: nat, s0: P.Space, s1: P.Space, paths: P.Paths)
    requires Backed(hs, c, n, maxEnd, s0, s1, paths)
    requires ShadowFor(hs, hs[c].saddr + Malloc(hs[c].shadow, n).1 * BLOCK_SIZE, 0) == c
    ensures var hs1, s, ptr := Given(hs, c, n), Malloc(hs[c].shadow, n).1, PointerGiven(hs, c, n, maxEnd);
            && SameShape(hs, hs1) && Settled(hs1, maxEnd, s1, []) && hs1[c].shadow == Malloc(hs[c].shadow, n).0
            && PagingFor(hs1, maxEnd, ptr) == c && ShadowBlock(hs1[c], maxEnd, ptr) == s && maxEnd <= ptr
            && ptr + s * BLOCK_SIZE + BlockCount(hs1[c].shadow.table, s) * BLOCK_SIZE <= ADDRESS_LIMIT
  {
    GivenSettled(hs, c, n, maxEnd, s0, s1, paths);
    GivenSameShape(hs, c, n);
    GivenShadow(hs, c, n);
    hide P.Valid, Malloc, FreeBlocks, BlockCount, BackedBy, ShadowFor, SameShape, Settled, Given, Plain;
    var hs1, s, ptr := Given(hs, c, n), Malloc(hs[c].shadow, n).1, PointerGiven(hs, c, n, maxEnd);
    ShapeParts(hs, hs1, c);
    BlockBack(0, s);
    assert ptr - maxEnd == hs[c].saddr + s * BLOCK_SIZE;
    ShadowForShape(hs, hs1, ptr - maxEnd, 0);
    SettledAddresses(hs1, maxEnd, s1, []);
    PagesInside(hs1, maxEnd, ptr, c);
  }

  /** A run that does not begin at block 0: its first backing block is never released. */
  lemma ShiftedFreeHarms(hs: seq<Node>, c: nat, n: nat, maxEnd: nat, s0: P.Space, s1: P.Space, paths: P.Paths)
    requires Backed(hs, c, n, maxEnd, s0, s1, paths) && n > 0 && Malloc(hs[c].shadow, n).1 > 0
    requires ShadowFor(hs, hs[c].saddr + Malloc(hs[c].shadow, n).1 * BLOCK_SIZE, 0) == c
    requires Overlooked(hs, c, n, maxEnd, s1)
    ensures !RestoredBy(hs, c, n, AfterFree(hs, c, n, maxEnd, s1))
  {
    GivenPlace(hs, c, n, maxEnd, s0, s1, paths);
    BackedHeap(hs, c, n, maxEnd, s0, s1, paths);
    hide Backed, Malloc, FreeBlocks, Given, BlockTable.Free, Walk, BlockCount, FreeDeep, FreeEach, ShadowFor, Harmed,
      SameShape, Restored, Settled, LeadsTo, TargetOf, Plain;
    var h, s, hs1, ptr := hs[c], Malloc(hs[c].shadow, n).1, Given(hs, c, n), PointerGiven(hs, c, n, maxEnd);
    var b, n1 := FreeBlocks(h.blocks.table)[0], BlockCount(hs1[c].shadow.table, s);
    ShapeParts(hs, hs1, c);
    hide MissesFirst;
    forall k: nat | k < n1 ensures !LeadsTo(hs1, c, b, TargetOf(s1, ptr + s * BLOCK_SIZE + k * BLOCK_SIZE)) {
      assert MissesFirst(hs, c, n, maxEnd, s1, k);
      MissedPage(hs, hs1, c, n, maxEnd, s1, k);
    }
    FreeKeepsHarm(s1, maxEnd, hs1, ptr, s, c, h.blocks.table, b);
    HarmedIsNotRestored(hs, c, n, AfterFree(hs, c, n, maxEnd, s1).value.heaps);
  }

  lemma FreeKeepsHarm(s1: P.Space, maxEnd: nat, hs: seq<Node>, ptr: nat, s: nat, c: nat, t0: seq<Entry>, b: nat)
    requires c < |hs| && PagingFor(hs, maxEnd, ptr) == c && ShadowBlock(hs[c], maxEnd, ptr) == s
    requires BLOCK_SIZE <= hs[c].saddr && Settled(hs, maxEnd, s1, []) && Harmed(t0, hs[c].blocks.table, b)
    requires ptr + s * BLOCK_SIZE + BlockCount(hs[c].shadow.table, s) * BLOCK_SIZE <= ADDRESS_LIMIT
    requires forall k: nat :: k < BlockCount(hs[c].shadow.table, s) ==>
               !LeadsTo(hs, c, b, TargetOf(s1, ptr + s * BLOCK_SIZE + k * BLOCK_SIZE))
    ensures var f := FreeDeep(s1, maxEnd, hs, [], ptr, 1); f.Some? && HarmedIn(t0, f.value.heaps, c, b)
  {
    hide BlockTable.Free, Walk, BlockCount, FreeDeep, FreeEach, PagingFor, Harmed, Settled, LeadsTo, TargetOf,
      RunReleased;
    var va, n1 := ptr + s * BLOCK_SIZE, BlockCount(hs[c].shadow.table, s);
    FreeOfPages(s1, maxEnd, hs, [], ptr, c, 1);
    EachKeepsHarm(s1, maxEnd, hs, [], va, n1, c, t0, b);
    ReleaseKeepsHarm(FreeEach(s1, maxEnd, hs, [], va, n1, 1).value, maxEnd, c, s, t0, b);
  }

  lemma BackedHeap(hs: seq<Node>, c: nat, n: nat, maxEnd: nat, s0: P.Space, s1: P.Space, paths: P.Paths)
    requires Backed(hs, c, n, maxEnd, s0, s1, paths) && n > 0
    ensures hs[c].paging && BLOCK_SIZE <= hs[c].saddr
    ensures Harmed(hs[c].blocks.table, Given(hs, c, n)[c].blocks.table, FreeBlocks(hs[c].blocks.table)[0])
  {
    hide Harmed, Malloc, FreeBlocks, Singles, ZeroedAt, P.Valid, Settled, BackedBy, Plain;
    BackedIsHarmed(hs[c], n);
  }

  lemma ReleaseKeepsHarm(f: Freed, maxEnd: nat, p: nat, start: nat, t0: seq<Entry>, b: nat)
    requires p < |f.heaps| && HarmedIn(t0, f.heaps, p, b)
    ensures HarmedIn(t0, RunReleased(f, maxEnd, p, start).heaps, p, b)
  {
    hide BlockTable.Free, Walk, Harmed;
  }

  lemma MissedPage(hs: seq<Node>, hs1: seq<Node>, c: nat, n: nat, maxEnd: nat, s1: P.Space, k: nat)
    requires c < |hs| && 0 < n <= |FreeBlocks(hs[c].blocks.table)| && Malloc(hs[c].shadow, n).1 >= 0
    requires MissesFirst(hs, c, n, maxEnd, s1, k) && SameShape(hs, hs1)
    ensures var page := PointerGiven(hs, c, n, maxEnd) + Malloc(hs[c].shadow, n).1 * BLOCK_SIZE + k * BLOCK_SIZE;
            !LeadsTo(hs1, c, FreeBlocks(hs[c].blocks.table)[0], TargetOf(s1, page))
  {
    hide Malloc, FreeBlocks, SameShape, LeadsTo, TargetOf, PointerGiven;
    var s, ptr := Malloc(hs[c].shadow, n).1, PointerGiven(hs, c, n, maxEnd);
    assert ptr + s * BLOCK_SIZE + k * BLOCK_SIZE == ptr + (s + k) * BLOCK_SIZE;
    SameLeads(hs, hs1, c, FreeBlocks(hs[c].blocks.table)[0], TargetOf(s1, ptr + (s + k) * BLOCK_SIZE));
  }

  lemma SameLeads(hs: seq<Node>, hs': seq<Node>, c: nat, b: nat, address: nat)
    requires c < |hs| && SameShape(hs, hs')
    ensures c < |hs'| && (LeadsTo(hs', c, b, address) <==> LeadsTo(hs, c, b, address))
  {
    hide SameShape;
    ShapeParts(hs, hs', c);
    HeapForShape(hs, hs', address, 0);
  }

  /** Freeing has ended, with the heaps as they were. */
  predicate RestoredBy(hs: seq<Node>, c: nat, n: nat, r: Option<Freed>)
    requires c < |hs| && n <= |FreeBlocks(hs[c].blocks.table)|
  {
    r.Some? && Restored(hs, c, n, r.value.heaps)
  }

  /** A run at block 0 that does not fill the paging heap and has two pages or more: the paging heap is not put back. */
  lemma OpenFreeHarms(hs: seq<Node>, c: nat, n: nat, maxEnd: nat, s0: P.Space, s1: P.Space, paths: P.Paths)
    requires Backed(hs, c, n, maxEnd, s0, s1, paths) && Malloc(hs[c].shadow, n).1 == 0
    requires n != 1 && n != |hs[c].shadow.table| && ShadowFor(hs, hs[c].saddr, 0) == c
    ensures !RestoredBy(hs, c, n, AfterFree(hs, c, n, maxEnd, s1))
  {
    GivenSettled(hs, c, n, maxEnd, s0, s1, paths);
    GivenShadow(hs, c, n);
    assert TakenLead(Given(hs, c, n)[c], maxEnd, s1, []);
    hide P.Valid, Plain, Malloc, FreeBlocks, Singles, ZeroedAt, BlockTable.Free, Walk, BlockCount, BackedBy, FreeDeep,
      FreeAll, ShadowFor, SameShape, End, Targets, Settled, TakenLead;
    var h, hs1, ptr := hs[c], Given(hs, c, n), ShadowPage(hs[c], maxEnd, 0);
    GivenSameShape(hs, c, n);
    ShadowForShape(hs, hs1, h.saddr, 0);
    TargetsOfShadow(s1, h, hs1[c], maxEnd, ptr);
    TargetsArePhysical(h, n, maxEnd, s1, hs1[c]);
    PhysicalFree(s1, maxEnd, hs1, ptr, c);
    var freed := FreeAll(hs1, Targets(s1, hs1[c], maxEnd, ptr));
    ShapeParts(hs1, freed, c);
    ReleasedShadow(freed, c, BlockTable.Free(hs1[c].shadow, 0), c);
    MallocThenFreeExact(h.shadow, n);
  }

  lemma TargetsArePhysical(h: Node, n: nat, maxEnd: nat, s1: P.Space, h1: Node)
    requires Plain(h.shadow.table) && Malloc(h.shadow, n).1 == 0
    requires h1.shadow == Malloc(h.shadow, n).0 && h1.saddr == h.saddr && TakenLead(h1, maxEnd, s1, [])
    ensures forall a :: a in Targets(s1, h1, maxEnd, ShadowPage(h, maxEnd, 0)) ==> a < maxEnd
  {
    hide TargetOf, BlockCount, FirstFit;
    MallocWhenFits(h.shadow, n);
    TargetsOfShadow(s1, h, h1, maxEnd, ShadowPage(h, maxEnd, 0));
    MarkedIsPlain(h.shadow.table, n);
    H.CountedBlocksAreTaken(h1.shadow.table, 0);
    var targets := Targets(s1, h1, maxEnd, ShadowPage(h, maxEnd, 0));
    forall a | a in targets ensures a < maxEnd {
      var k :| 0 <= k < |targets| && targets[k] == a;
      assert h1.shadow.table[k].taken;
      var page := ShadowPage(h, maxEnd, k);
      assert ShadowPage(h, maxEnd, 0) + k * BLOCK_SIZE == page;
      BlockBack(maxEnd + h.saddr, k);
      assert TakenAt(h1, ShadowBlock(h1, maxEnd, page));
      NothingNullIn(page);
    }
  }

  lemma MarkedIsPlain(e: seq<Entry>, n: nat)
    requires Plain(e) && n > 0 && FreeRun(e, 0, n)
    ensures Plain(MarkTaken(e, 0, n)) && MarkTaken(e, 0, n)[0].taken
  {
  }

  /**
   Freeing what a second pass has handed out puts everything back exactly if its run lies at
   block 0 of the paging heap and is one page or all pages long.
   */
  lemma FreeRestoresExactly(hs: seq<Node>, c: nat, n: nat, maxEnd: nat, s0: P.Space, s1: P.Space, paths: P.Paths)
    requires Backed(hs, c, n, maxEnd, s0, s1, paths) && n > 0
    requires Found(hs, c, n, maxEnd, s1) && Overlooked(hs, c, n, maxEnd, s1)
    requires ShadowFor(hs, hs[c].saddr + Malloc(hs[c].shadow, n).1 * BLOCK_SIZE, 0) == c
    ensures PutBack(hs, c, n, PointerGiven(hs, c, n, maxEnd), s0, s1, AfterFree(hs, c, n, maxEnd, s1)) <==>
            Malloc(hs[c].shadow, n).1 == 0 && (n == 1 || n == |hs[c].shadow.table|)
  {
    hide Backed, Found, Restored, AfterFree, Overlooked, Malloc, FreeBlocks, ShadowFor, Cleared;
    if Malloc(hs[c].shadow, n).1 > 0 {
      ShiftedFreeHarms(hs, c, n, maxEnd, s0, s1, paths);
    } else if n == 1 || n == |hs[c].shadow.table| {
      FreeRestores(hs, c, n, maxEnd, s0, s1, paths);
    } else {
      OpenFreeHarms(hs, c, n, maxEnd, s0, s1, paths);
    }
  }

  /** A second pass after a first pass that found nothing is for two pages or more, and not for all. */
  lemma SecondPassIsPartial(hs: seq<Node>, c: nat, n: nat)
    requires c < |hs| && n > 0 && FirstRoom(hs, n, 0) < 0 && n <= |FreeBlocks(hs[c].blocks.table)|
    requires |hs[c].shadow.table| == |hs[c].blocks.table|
    ensures n != 1 && n != |hs[c].shadow.table|
  {
    var t := hs[c].blocks.table;
    AllFreeIsOneRun(t);
    OneFreeIsRun(t);
    hide FreeBlocks;
    assert FirstFit(t, n) < 0;
  }

  lemma AllFreeIsOneRun(t: seq<Entry>)
    ensures |FreeBlocks(t)| <= |t| && (|FreeBlocks(t)| == |t| ==> FreeRun(t, 0, |t|))
  {
    FreeListCounts(t, 0);
    TakenExtremes(t, 0, |t|);
  }

  lemma OneFreeIsRun(t: seq<Entry>)
    ensures |FreeBlocks(t)| > 0 ==> FreeRun(t, FreeBlocks(t)[0], 1)
  {
    assert |FreeBlocks(t)| > 0 ==> FreeBlocks(t)[0] in FreeBlocks(t);
  }

  /** Hence `multiheap_palloc` never defragments anything that `multiheap_free` puts back. */
  lemma FreeNeverRestores(hs: seq<Node>, c: nat, n: nat, maxEnd: nat, s0: P.Space, s1: P.Space, paths: P.Paths)
    requires Backed(hs, c, n, maxEnd, s0, s1, paths) && n > 0
    requires FirstRoom(hs, n, 0) < 0 && Overlooked(hs, c, n, maxEnd, s1)
    requires ShadowFor(hs, hs[c].saddr + Malloc(hs[c].shadow, n).1 * BLOCK_SIZE, 0) == c
    ensures !RestoredBy(hs, c, n, AfterFree(hs, c, n, maxEnd, s1))
  {
    hide Found, Restored, AfterFree, Overlooked, Malloc, FreeBlocks, ShadowFor, FirstRoom, P.Valid, BackedBy, Settled;
    SecondPassIsPartial(hs, c, n);
    if Malloc(hs[c].shadow, n).1 > 0 {
      ShiftedFreeHarms(hs, c, n, maxEnd, s0, s1, paths);
    } else {
      OpenFreeHarms(hs, c, n, maxEnd, s0, s1, paths);
    }
  }

  // ------------------------------------------------------ ordinary translations

  /** No free block of any heap is at the address. */
  predicate NotFree(hs: seq<Node>, address: nat) {
    var c := HeapFor(hs, address, 0);
    c >= 0 ==>
      var b := (address - hs[c].saddr) / BLOCK_SIZE;
      b < |hs[c].blocks.table| ==> hs[c].blocks.table[b].taken
  }

  /** Every virtual page leads to null, to itself or to memory that is not free. */
  ghost predicate Disciplined(hs: seq<Node>, maxEnd: nat, s: P.Space) {
    forall va: nat :: maxEnd <= va < ADDRESS_LIMIT ==> LeadsWell(hs, maxEnd, va, TargetOf(s, va))
  }

  predicate LeadsWell(hs: seq<Node>, maxEnd: nat, va: nat, target: nat) {
    target < BLOCK_SIZE || target == va || (target < maxEnd && NotFree(hs, target))
  }

  lemma BlockAt(saddr: nat, b: nat, off: nat)
    requires off < BLOCK_SIZE
    ensures (saddr + b * BLOCK_SIZE + off - saddr) / BLOCK_SIZE == b
  {
  }

  /** The backing blocks are not free any more, and nothing else has become free. */
  lemma GivenIsNotFree(hs: seq<Node>, c: nat, n: nat, address: nat)
    requires c < |hs| && n <= |FreeBlocks(hs[c].blocks.table)| && NotFree(hs, address)
    ensures NotFree(Given(hs, c, n), address)
  {
    GivenSameShape(hs, c, n);
    HeapForShape(hs, Given(hs, c, n), address, 0);
    SinglesSize(hs[c].blocks, FreeBlocks(hs[c].blocks.table)[..n]);
    hide FreeBlocks, HeapFor, ZeroedAt, Malloc, SameShape;
  }

  lemma BackingIsNotFree(hs: seq<Node>, c: nat, n: nat, k: nat, off: nat)
    requires c < |hs| && k < n <= |FreeBlocks(hs[c].blocks.table)| && off < BLOCK_SIZE && RangesApart(hs)
    ensures NotFree(Given(hs, c, n), hs[c].saddr + FreeBlocks(hs[c].blocks.table)[k] * BLOCK_SIZE + off)
    ensures hs[c].saddr + FreeBlocks(hs[c].blocks.table)[k] * BLOCK_SIZE + off < End(hs[c])
  {
    var h, bs := hs[c], FreeBlocks(hs[c].blocks.table)[..n];
    var address := h.saddr + bs[k] * BLOCK_SIZE + off;
    BackingInside(h, n);
    BlockAt(h.saddr, bs[k], off);
    assert bs[k] in bs;
    hide FreeBlocks;
    InsideEnd(h, bs[k], off);
    GivenSameShape(hs, c, n);
    var c' := HeapFor(hs, address, 0);
    HeapForShape(hs, Given(hs, c, n), address, 0);
    if c' >= 0 && c' != c {
      EndOfOther(hs, c, c', address);
      ShapeParts(hs, Given(hs, c, n), c');
    }
  }

  lemma InsideEnd(h: Node, b: nat, off: nat)
    requires b < |h.blocks.table| && off < BLOCK_SIZE
    ensures h.saddr + b * BLOCK_SIZE + off < End(h)
  {
  }

  lemma EndOfOther(hs: seq<Node>, c: nat, c': nat, address: nat)
    requires RangesApart(hs) && c < |hs| && c' < |hs| && c' != c && Holds(hs[c'], address)
    requires hs[c].saddr <= address < End(hs[c])
    ensures (address - hs[c'].saddr) / BLOCK_SIZE == |hs[c'].blocks.table|
  {
    assert address == End(hs[c']);
    BlockBack(hs[c'].saddr, |hs[c'].blocks.table|);
  }

  /** The first page of a run is alone at its offset from there. */
  lemma OffsetFromStart(va: nat, ptr: nat)
    requires ptr % BLOCK_SIZE == 0 && ptr + BLOCK_SIZE <= va < ADDRESS_LIMIT
    ensures P.Offset(va, ptr) != 0
  {
    assert va / BLOCK_SIZE > ptr / BLOCK_SIZE;
  }

  lemma PassPage(hs: seq<Node>, c: nat, n: nat, maxEnd: nat, s0: P.Space, s1: P.Space, paths: P.Paths, va: nat)
    requires Backed(hs, c, n, maxEnd, s0, s1, paths) && n > 0 && RangesApart(hs)
    ensures var k, bs := P.Offset(va, PointerGiven(hs, c, n, maxEnd)), FreeBlocks(hs[c].blocks.table)[..n];
            var t := TargetOf(s1, va);
            if k >= n then t == TargetOf(s0, va)
            else
              t == 0 ||
              (t == hs[c].saddr + bs[k] * BLOCK_SIZE + va % BLOCK_SIZE && t < maxEnd && NotFree(Given(hs, c, n), t))
  {
    hide P.Valid, Plain, FreeBlocks, BackedBy, Malloc, NotFree, Given, P.Offset, TargetOf;
    var h, ptr := hs[c], PointerGiven(hs, c, n, maxEnd);
    var bs := FreeBlocks(h.blocks.table)[..n];
    assert End(h) <= maxEnd;
    BackingInside(h, n);
    hide End;
    TargetAfterPass(s0, s1, paths, ptr, h.saddr, bs, va);
    var k := P.Offset(va, ptr);
    if k < n {
      assert bs[k] == FreeBlocks(h.blocks.table)[k];
      BackingIsNotFree(hs, c, n, k, va % BLOCK_SIZE);
    }
  }

  lemma PassMisses(hs: seq<Node>, c: nat, n: nat, maxEnd: nat, s0: P.Space, s1: P.Space, paths: P.Paths, va: nat)
    requires Backed(hs, c, n, maxEnd, s0, s1, paths) && n > 0 && RangesApart(hs) && Disciplined(hs, maxEnd, s0)
    requires PointerGiven(hs, c, n, maxEnd) + BLOCK_SIZE <= va < ADDRESS_LIMIT
    ensures var t := TargetOf(s1, va);
            !LeadsTo(hs, c, FreeBlocks(hs[c].blocks.table)[0], t) && (t >= maxEnd ==> t == va)
  {
    GivenSettled(hs, c, n, maxEnd, s0, s1, paths);
    hide P.Valid, Plain, FreeBlocks, BackedBy, Malloc, Given, P.Offset, TargetOf, Settled;
    var h, ptr, t := hs[c], PointerGiven(hs, c, n, maxEnd), TargetOf(s1, va);
    var bs := FreeBlocks(h.blocks.table)[..n];
    BackingInside(h, n);
    PassPage(hs, c, n, maxEnd, s0, s1, paths, va);
    PointerAligned(hs, c, n, maxEnd);
    OffsetFromStart(va, ptr);
    hide LeadsTo, LeadsWell, End;
    var k := P.Offset(va, ptr);
    assert bs[0] == FreeBlocks(h.blocks.table)[0];
    if k < n {
      if t != 0 { BlockMisses(hs, c, bs[0], bs[k], va % BLOCK_SIZE); }
      if t == 0 { WellMisses(hs, c, bs[0], maxEnd, va, 0); }
    } else {
      assert LeadsWell(hs, maxEnd, va, t);
      WellMisses(hs, c, bs[0], maxEnd, va, t);
    }
  }

  lemma BlockMisses(hs: seq<Node>, c: nat, b: nat, x: nat, off: nat)
    requires c < |hs| && x != b && off < BLOCK_SIZE
    ensures !LeadsTo(hs, c, b, hs[c].saddr + x * BLOCK_SIZE + off)
  {
    BlockAt(hs[c].saddr, x, off);
  }

  lemma WellMisses(hs: seq<Node>, c: nat, b: nat, maxEnd: nat, va: nat, t: nat)
    requires c < |hs| && BLOCK_SIZE <= hs[c].saddr && End(hs[c]) <= maxEnd < va
    requires b < |hs[c].blocks.table| && !hs[c].blocks.table[b].taken && LeadsWell(hs, maxEnd, va, t)
    ensures !LeadsTo(hs, c, b, t) && (t >= maxEnd ==> t == va)
  {
  }

  lemma PointerAligned(hs: seq<Node>, c: nat, n: nat, maxEnd: nat)
    requires c < |hs| && Malloc(hs[c].shadow, n).1 >= 0 && maxEnd % BLOCK_SIZE == 0 && hs[c].saddr % BLOCK_SIZE == 0
    ensures PointerGiven(hs, c, n, maxEnd) % BLOCK_SIZE == 0 && PointerGiven(hs, c, n, maxEnd) >= maxEnd
  {
    SumAligned(maxEnd, hs[c].saddr);
    PageAligned(maxEnd + hs[c].saddr, Malloc(hs[c].shadow, n).1);
  }

  /**
   From a disciplined state a second pass leads to a disciplined state again, whatever it is
   given, and to one in which no shifted index finds the first block it has taken.
   */
  lemma PassKeepsDiscipline(hs: seq<Node>, c: nat, n: nat, maxEnd: nat, s0: P.Space, s1: P.Space, paths: P.Paths)
    requires Backed(hs, c, n, maxEnd, s0, s1, paths) && n > 0 && RangesApart(hs) && Disciplined(hs, maxEnd, s0)
    ensures Overlooked(hs, c, n, maxEnd, s1) && Disciplined(Given(hs, c, n), maxEnd, s1)
  {
    GivenSettled(hs, c, n, maxEnd, s0, s1, paths);
    hide P.Valid, Plain, FreeBlocks, BackedBy, Malloc, P.Offset, TargetOf, NotFree, LeadsTo, End, Given, Settled,
      BlockCount;
    var hs1 := Given(hs, c, n);
    GivenShadow(hs, c, n);
    var s, ptr := Malloc(hs[c].shadow, n).1, PointerGiven(hs, c, n, maxEnd);
    hide LeadsWell, Disciplined, MissesFirst, PointerGiven;
    forall k: nat | s > 0 && k < BlockCount(Malloc(hs[c].shadow, n).0.table, s)
      ensures MissesFirst(hs, c, n, maxEnd, s1, k)
    {
      PassMissesFirst(hs, c, n, maxEnd, s0, s1, paths, k);
    }
    forall va: nat | maxEnd <= va < ADDRESS_LIMIT ensures LeadsWell(hs1, maxEnd, va, TargetOf(s1, va)) {
      PassLeadsWell(hs, c, n, maxEnd, s0, s1, paths, va);
    }
    assert Disciplined(hs1, maxEnd, s1) by { AllLeadWell(hs1, maxEnd, s1); }
  }

  lemma PassMissesFirst(hs: seq<Node>, c: nat, n: nat, maxEnd: nat, s0: P.Space, s1: P.Space, paths: P.Paths, k: nat)
    requires Backed(hs, c, n, maxEnd, s0, s1, paths) && n > 0 && RangesApart(hs) && Disciplined(hs, maxEnd, s0)
    requires var (st, s) := Malloc(hs[c].shadow, n); s > 0 && k < BlockCount(st.table, s)
    ensures MissesFirst(hs, c, n, maxEnd, s1, k)
  {
    GivenSettled(hs, c, n, maxEnd, s0, s1, paths);
    hide P.Valid, Plain, FreeBlocks, BackedBy, Malloc, TargetOf, LeadsTo, Settled, BlockCount, PointerGiven,
      Disciplined, MissesFirst;
    LookedAtInside(hs, c, n, maxEnd, s1, k);
    hide Backed, RangesApart, Fitting, Given;
    var page := PointerGiven(hs, c, n, maxEnd) + (Malloc(hs[c].shadow, n).1 + k) * BLOCK_SIZE;
    PassMisses(hs, c, n, maxEnd, s0, s1, paths, page);
    MissedThere(hs, c, n, maxEnd, s1, k, page);
  }

  lemma MissedThere(hs: seq<Node>, c: nat, n: nat, maxEnd: nat, s1: P.Space, k: nat, page: nat)
    requires c < |hs| && 0 < n <= |FreeBlocks(hs[c].blocks.table)| && Malloc(hs[c].shadow, n).1 >= 0
    requires page == PointerGiven(hs, c, n, maxEnd) + (Malloc(hs[c].shadow, n).1 + k) * BLOCK_SIZE
    requires !LeadsTo(hs, c, FreeBlocks(hs[c].blocks.table)[0], TargetOf(s1, page))
    ensures MissesFirst(hs, c, n, maxEnd, s1, k)
  {
  }

  lemma LookedAtInside(hs: seq<Node>, c: nat, n: nat, maxEnd: nat, s1: P.Space, k: nat)
    requires c < |hs| && n <= |FreeBlocks(hs[c].blocks.table)| && Malloc(hs[c].shadow, n).1 > 0 && n > 0
    requires Settled(Given(hs, c, n), maxEnd, s1, []) && hs[c].paging && Fitting(hs[c], maxEnd)
    requires k < BlockCount(Malloc(hs[c].shadow, n).0.table, Malloc(hs[c].shadow, n).1)
    ensures var s, ptr := Malloc(hs[c].shadow, n).1, PointerGiven(hs, c, n, maxEnd);
            ptr + BLOCK_SIZE <= ptr + (s + k) * BLOCK_SIZE < ADDRESS_LIMIT
  {
    hide FreeBlocks, Malloc, Settled, BlockCount, PointerGiven, Given, Fitting;
    var s := Malloc(hs[c].shadow, n).1;
    RunInside(hs, c, n, maxEnd, s1);
    PageBefore(PointerGiven(hs, c, n, maxEnd), s, k, BlockCount(Malloc(hs[c].shadow, n).0.table, s));
  }

  lemma AllLeadWell(hs: seq<Node>, maxEnd: nat, s: P.Space)
    requires forall va: nat :: maxEnd <= va < ADDRESS_LIMIT ==> LeadsWell(hs, maxEnd, va, TargetOf(s, va))
    ensures Disciplined(hs, maxEnd, s)
  {
  }

  lemma PassLeadsWell(hs: seq<Node>, c: nat, n: nat, maxEnd: nat, s0: P.Space, s1: P.Space, paths: P.Paths, va: nat)
    requires Backed(hs, c, n, maxEnd, s0, s1, paths) && n > 0 && RangesApart(hs) && Disciplined(hs, maxEnd, s0)
    requires maxEnd <= va < ADDRESS_LIMIT
    ensures LeadsWell(Given(hs, c, n), maxEnd, va, TargetOf(s1, va))
  {
    PassPage(hs, c, n, maxEnd, s0, s1, paths, va);
    hide P.Valid, Plain, FreeBlocks, BackedBy, Malloc, P.Offset, TargetOf, NotFree, Given, Settled;
    assert LeadsWell(hs, maxEnd, va, TargetOf(s0, va));
    if NotFree(hs, TargetOf(s0, va)) { GivenIsNotFree(hs, c, n, TargetOf(s0, va)); }
  }

  lemma PageBefore(ptr: nat, s: nat, k: nat, n: nat)
    requires s > 0 && k < n && ptr + (s + n) * BLOCK_SIZE <= ADDRESS_LIMIT
    ensures ptr + BLOCK_SIZE <= ptr + (s + k) * BLOCK_SIZE < ADDRESS_LIMIT
  {
  }

  /** The pages that the shifted index comes to can be addressed. */
  lemma RunInside(hs: seq<Node>, c: nat, n: nat, maxEnd: nat, s1: P.Space)
    requires c < |hs| && n <= |FreeBlocks(hs[c].blocks.table)| && Malloc(hs[c].shadow, n).1 >= 0 && n > 0
    requires Settled(Given(hs, c, n), maxEnd, s1, []) && hs[c].paging && Fitting(hs[c], maxEnd)
    ensures var s, ptr := Malloc(hs[c].shadow, n).1, PointerGiven(hs, c, n, maxEnd);
            ptr + (s + BlockCount(Malloc(hs[c].shadow, n).0.table, s)) * BLOCK_SIZE <= ADDRESS_LIMIT
  {
    hide FreeBlocks, P.Valid, BlockCount, FirstFit, Singles, ZeroedAt, TakenLead;
    var h, hs1, s, ptr := hs[c], Given(hs, c, n), Malloc(hs[c].shadow, n).1, PointerGiven(hs, c, n, maxEnd);
    MallocWhenFits(h.shadow, n);
    GivenShadow(hs, c, n);
    GivenSameShape(hs, c, n);
    ShapeParts(hs, hs1, c);
    BlockBack(maxEnd + h.saddr, s);
    assert ShadowBlock(hs1[c], maxEnd, ptr) == s;
    PagesInside(hs1, maxEnd, ptr, c);
  }

  /** So does a first pass, which changes no translation and takes blocks of one heap. */
  lemma FirstPassKeepsDiscipline(hs: seq<Node>, c: nat, n: nat, maxEnd: nat, s: P.Space)
    requires c < |hs| && Disciplined(hs, maxEnd, s)
    ensures Disciplined(hs[c := hs[c].(blocks := Malloc(hs[c].blocks, n).0)], maxEnd, s)
  {
    hide P.Valid, TargetOf, NotFree;
    var hs1 := hs[c := hs[c].(blocks := Malloc(hs[c].blocks, n).0)];
    forall va: nat | maxEnd <= va < ADDRESS_LIMIT ensures LeadsWell(hs1, maxEnd, va, TargetOf(s, va)) {
      assert LeadsWell(hs, maxEnd, va, TargetOf(s, va));
      if NotFree(hs, TargetOf(s, va)) { TakenIsNotFree(hs, c, n, TargetOf(s, va)); }
    }
  }

  lemma TakenIsNotFree(hs: seq<Node>, c: nat, n: nat, address: nat)
    requires c < |hs| && NotFree(hs, address)
    ensures NotFree(hs[c := hs[c].(blocks := Malloc(hs[c].blocks, n).0)], address)
  {
    var st := hs[c].blocks;
    var hs1 := hs[c := hs[c].(blocks := Malloc(st, n).0)];
    assert |Malloc(st, n).0.table| == |st.table|;
    assert forall b :: 0 <= b < |st.table| && st.table[b].taken ==> Malloc(st, n).0.table[b].taken;
    hide Malloc, HeapFor;
    HeapForShape(hs, hs1, address, 0);
  }

  lemma GivenShadow(hs: seq<Node>, c: nat, n: nat)
    requires c < |hs| && n <= |FreeBlocks(hs[c].blocks.table)|
    ensures |Given(hs, c, n)| == |hs| && Given(hs, c, n)[c].shadow == Malloc(hs[c].shadow, n).0
    ensures forall i :: 0 <= i < |hs| ==>
            Given(hs, c, n)[i].saddr == hs[i].saddr && Given(hs, c, n)[i].paging == hs[i].paging
  {
    hide FreeBlocks, Malloc, Singles, ZeroedAt;
  }

  /** After `multiheap_ready` the pages of empty paging heaps lead to themselves and no other page anywhere. */
  lemma ReadyIsDisciplined(hs: seq<Node>, maxEnd: nat, s: P.Space, paths: P.Paths)
    requires P.Valid(s, paths) && PagesReady(s, maxEnd)
    ensures Disciplined(hs, maxEnd, s)
  {
    hide P.Valid, P.Lookup, P.Get, NotFree;
    forall va: nat | maxEnd <= va < ADDRESS_LIMIT ensures LeadsWell(hs, maxEnd, va, TargetOf(s, va)) {
      P.GetExact(s, paths, va);
      assert va / BLOCK_SIZE * BLOCK_SIZE + va % BLOCK_SIZE == va;
    }
  }

  // -------------------------------------------------------------- concrete runs

  const SINGLE := Entry(true, true, false)

  /** A heap of `m` blocks after `k` requests for one block. */
  function Singled(m: nat, k: nat): State
    requires k <= m
  {
    State(seq(m, i => if i < k then SINGLE else FREE), k, m - k)
  }

  lemma OneMoreSingle(m: nat, k: nat)
    requires k < m < WORD
    ensures Malloc(Singled(m, k), 1) == (Singled(m, k + 1), k) && FirstFit(Singled(m, k).table, 1) == k
  {
    var e := Singled(m, k).table;
    assert FreeRun(e, k, 1);
    var f := FirstFit(e, 1);
    assert f >= 0 && f <= k && FreeRun(e, f, 1);
    assert !e[f].taken;
    assert U64(k + 1) == k + 1 && U64(m - k - 1) == m - k - 1;
    assert MarkTaken(e, k, 1) == Singled(m, k + 1).table;
  }

  /** All of its blocks allocated one by one, then `j` of those at odd numbers freed again. */
  function Fragmented(m: nat, j: nat): State
    requires 2 * j <= m
  {
    State(seq(m, i => if i < 2 * j && i % 2 == 1 then FREE else SINGLE), m - j, j)
  }

  lemma OneMoreHole(m: nat, j: nat)
    requires 2 * j + 1 < m < WORD
    ensures BlockTable.Free(Fragmented(m, j), 2 * j + 1) == Fragmented(m, j + 1)
  {
    var e := Fragmented(m, j).table;
    assert e[2 * j + 1] == SINGLE;
    assert Walk(e, 2 * j + 1) == 1;
    assert Clear(e, 2 * j + 1, 1) == Fragmented(m, j + 1).table;
  }

  lemma HolesOfFour()
    ensures FreeBlocks(Fragmented(4, 2).table) == [1, 3]
    ensures FirstFit(Fragmented(4, 2).table, 2) == -1 && FirstFit(Empty(4).table, 2) == 0
  {
    var e := Fragmented(4, 2).table;
    assert e == [SINGLE, FREE, SINGLE, FREE];
    assert FreeList(e, 4) == [];
    assert FreeList(e, 3) == [3];
    assert FreeList(e, 2) == [3];
    assert FreeList(e, 1) == [1, 3];
    assert forall b :: 0 <= b <= 2 ==> e[b].taken || e[b + 1].taken;
    assert FreeRun(Empty(4).table, 0, 2);
  }

  // ---------------------------------------------------------- the runs themselves

  /** One heap of `m` blocks behind the allocator, its page tables new: the state after `multiheap_ready`. */
  method NewAllocator(m: nat, pool: seq<Block>, root: nat, supply: seq<nat>) returns (mh: MultiHeap)
    requires 0 < m <= 8 && |pool| == m && 3 * m <= |supply| && root !in supply
    requires forall j, k :: 0 <= j < k < |supply| ==> supply[j] != supply[k]
    ensures fresh(mh) && fresh(mh.desc) && Running(mh, m, pool, Empty(m))
  {
    var desc := new P.PageTables(root, supply);
    mh := new MultiHeap(desc);
    StartReady(mh, m, pool);
  }

  method StartReady(mh: MultiHeap, m: nat, pool: seq<Block>)
    requires mh.Valid() && !mh.ready && mh.heaps == [] && 0 < m <= 8 && |pool| == m && 3 * m <= |mh.desc.supply|
    requires forall v :: P.Lookup(mh.desc.State(), v) == P.NULL_ENTRY
    modifies mh, mh.desc
    ensures Running(mh, m, pool, Empty(m))
  {
    var h := Node(BLOCK_SIZE, true, Empty(m), pool, State([], 0, 0));
    assert WellFormed(h) && WithShadow(h) == h.(shadow := Empty(m)) && |h.blocks.table| == m;
    hide P.PageTables.Sound, P.Lookup, Settled, P.Valid, PagingMapped, WellFormed, WithShadow, Empty, PagesReady,
      HighestEnd, PagingBlocks, End;
    var status := mh.Add(h);
    assert mh.heaps == [h];
    NullIsReady(mh.desc.State(), HighestEnd([h]));
    PagesToMap(h);
    ghost var space := mh.desc.State();
    mh.Ready();
    OneHighest(h, m);
    OneHighest(WithShadow(h), m);
    assert mh.heaps == [WithShadow(h)];
    OneHeapReady(space, mh.desc.State(), h, m);
  }

  lemma OneHeapReady(s: P.Space, s': P.Space, h: Node, m: nat)
    requires WellFormed(h) && h.saddr == BLOCK_SIZE && |h.blocks.table| == m <= 8
    requires PagingMapped(s, s', [h], (m + 1) * BLOCK_SIZE) && PagesReady(s, (m + 1) * BLOCK_SIZE)
    ensures PagesReady(s', (m + 1) * BLOCK_SIZE)
  {
    hide PagingMapped, PagesReady;
    ReadyMapsPages(s, s', [h], (m + 1) * BLOCK_SIZE);
  }

  /** The allocator has one heap, whose blocks are as `st` says, and no paging heap's block is taken. */
  ghost predicate Running(mh: MultiHeap, m: nat, pool: seq<Block>, st: State)
    reads mh, mh.desc
  {
    && mh.Valid() && mh.ready && mh.Calmed() && mh.maxEnd == (m + 1) * BLOCK_SIZE
    && mh.heaps == [Node(BLOCK_SIZE, true, st, pool, Empty(m))] && PagesReady(mh.desc.State(), mh.maxEnd)
  }

  lemma NullIsReady(s: P.Space, maxEnd: nat)
    requires forall v :: P.Lookup(s, v) == P.NULL_ENTRY
    ensures PagesReady(s, maxEnd)
  {
  }

  lemma PagesToMap(h: Node)
    ensures PagingBlocks([h]) <= |h.pool|
  {
    assert [h][..0] == [];
  }

  lemma OneHighest(h: Node, m: nat)
    requires h.saddr == BLOCK_SIZE && |h.blocks.table| == m
    ensures HighestEnd([h]) == (m + 1) * BLOCK_SIZE
  {
    assert [h][..0] == [];
  }

  /** `m` requests for one block, then `j` of the blocks at odd numbers freed. */
  method MakeHoles(mh: MultiHeap, m: nat, pool: seq<Block>, j: nat)
    requires 0 < m <= 8 && 2 * j <= m && Running(mh, m, pool, Empty(m))
    modifies mh, mh.desc
    ensures Running(mh, m, pool, Fragmented(m, j))
  {
    hide Running;
    NoneSingled(m);
    for k := 0 to m
      invariant Running(mh, m, pool, Singled(m, k))
    {
      TakeBlock(mh, m, pool, k);
    }
    AllSingled(m);
    for k := 0 to j
      invariant Running(mh, m, pool, Fragmented(m, k))
    {
      FreeBlock(mh, m, pool, k);
    }
  }

  method TakeBlock(mh: MultiHeap, m: nat, pool: seq<Block>, k: nat)
    requires k < m <= 8 && Running(mh, m, pool, Singled(m, k))
    modifies mh
    ensures Running(mh, m, pool, Singled(m, k + 1))
  {
    hide P.PageTables.Sound, Settled, PagesReady, FirstFit, Malloc;
    OneMoreSingle(m, k);
    RoomForOne(mh.heaps, m, k);
    var outcome := mh.FirstPass(BLOCK_SIZE);
  }

  method FreeBlock(mh: MultiHeap, m: nat, pool: seq<Block>, k: nat)
    requires 2 * k + 1 < m <= 8 && Running(mh, m, pool, Fragmented(m, k))
    modifies mh, mh.desc
    ensures Running(mh, m, pool, Fragmented(m, k + 1))
  {
    hide P.PageTables.Sound, Settled, PagesReady, NulledFrom, FreeDeep, BlockTable.Free;
    ghost var space := mh.desc.State();
    OneMoreHole(m, k);
    FreeOneBlock(space, mh.maxEnd, mh.heaps, 2 * k + 1);
    mh.Free(BLOCK_SIZE + (2 * k + 1) * BLOCK_SIZE);
    StillReady(space, mh.desc.State(), mh.maxEnd);
  }

  lemma NoneSingled(m: nat)
    ensures Singled(m, 0) == Empty(m)
  {
    assert Singled(m, 0).table == Empty(m).table;
  }

  lemma AllSingled(m: nat)
    ensures Fragmented(m, 0) == Singled(m, m)
  {
    assert Fragmented(m, 0).table == Singled(m, m).table;
  }

  lemma RoomForOne(hs: seq<Node>, m: nat, k: nat)
    requires k < m < WORD && |hs| == 1 && hs[0].blocks == Singled(m, k)
    ensures FirstRoom(hs, 1, 0) == 0 && H.BlocksFor(BLOCK_SIZE) == 1
  {
    OneMoreSingle(m, k);
  }

  lemma FreeOneBlock(s: P.Space, maxEnd: nat, hs: seq<Node>, b: nat)
    requires |hs| == 1 && hs[0].saddr == BLOCK_SIZE && b < |hs[0].blocks.table| && End(hs[0]) <= maxEnd
    ensures FreeDeep(s, maxEnd, hs, [], BLOCK_SIZE + b * BLOCK_SIZE, 1) ==
            Some(Freed([hs[0].(blocks := BlockTable.Free(hs[0].blocks, b))], []))
  {
    var address := BLOCK_SIZE + b * BLOCK_SIZE;
    hide BlockTable.Free;
    InsideEnd(hs[0], b, 0);
    BlockBack(BLOCK_SIZE, b);
    FreeOfPhysical(s, maxEnd, hs, [], address, 1);
    assert HeapFor(hs, address, 0) == 0;
    FreeAtHeap(hs, address, 0);
    var freed := hs[0].(blocks := BlockTable.Free(hs[0].blocks, b));
    assert hs[0 := freed] == [freed];
  }

  lemma StillReady(s: P.Space, s': P.Space, maxEnd: nat)
    requires PagesReady(s, maxEnd) && NulledFrom(s, s', [])
    ensures PagesReady(s', maxEnd)
  {
    hide P.Lookup;
    forall v ensures P.Lookup(s', v) == P.Lookup(s, v) { NothingNullIn(v); }
  }

  /**
   Two pages out of the holes of a heap of four blocks, and back: the paging heap then counts
   five free blocks of four.
   */
  method FreedPairIsMiscounted(pool: seq<Block>, root: nat, supply: seq<nat>) returns (given: Outcome, shadow: State)
    requires |pool| == 4 && 12 <= |supply| && root !in supply
    requires forall j, k :: 0 <= j < k < |supply| ==> supply[j] != supply[k]
    ensures given == Pointer(24576) && shadow == State(Empty(4).table, WORD - 1, 5)
  {
    hide P.PageTables.Sound, Settled, P.Lookup, P.Valid, NulledFrom, FreeDeep, Empty, Fragmented, BackedBy, PagesReady,
      FreeBlocks, FirstFit;
    var mh := NewAllocator(4, pool, root, supply);
    MakeHoles(mh, 4, pool, 2);
    ghost var hs, s0 := mh.heaps, mh.desc.State();
    SoundIsValid(mh.desc);
    PairIsGiven(pool);
    given := mh.Palloc(2 * BLOCK_SIZE);
    SoundIsValid(mh.desc);
    PairIsMiscounted(pool, s0, mh.desc.State(), mh.desc.paths);
    mh.Free(24576);
    shadow := mh.heaps[0].shadow;
  }

  /** The request for two pages of the heap with two holes. */
  lemma PairIsGiven(pool: seq<Block>)
    requires |pool| == 4
    ensures var hs := [Node(4096, true, Fragmented(4, 2), pool, Empty(4))];
            && H.BlocksFor(2 * BLOCK_SIZE) == 2 && FirstRoom(hs, 2, 0) < 0 && Choose(hs, 2, 0) == 0
            && FreeBlocks(hs[0].blocks.table) == [1, 3] && [1, 3][..2] == [1, 3] && Malloc(hs[0].shadow, 2).1 == 0
  {
    HolesOfFour();
    hide FreeBlocks;
  }

  lemma PairIsMiscounted(pool: seq<Block>, s0: P.Space, s1: P.Space, paths: P.Paths)
    requires |pool| == 4 && P.Valid(s0, paths) && P.Valid(s1, paths) && BackedBy(s0, s1, 24576, 4096, [1, 3])
    requires Settled([Node(4096, true, Fragmented(4, 2), pool, Empty(4))], 20480, s0, [])
    ensures var hs := [Node(4096, true, Fragmented(4, 2), pool, Empty(4))];
            FreeBlocks(hs[0].blocks.table) == [1, 3] && Malloc(hs[0].shadow, 2).1 == 0 &&
            var f := AfterFree(hs, 0, 2, 20480, s1);
            f.Some? && f.value.heaps[0].shadow == State(Empty(4).table, WORD - 1, 5)
  {
    hide P.Valid, BackedBy, FreeBlocks, FirstFit, FreeDeep, Targets, FreeAll, Settled, TakenLead;
    var h := Node(4096, true, Fragmented(4, 2), pool, Empty(4));
    var hs := [h];
    HolesOfFour();
    assert [1, 3][..2] == [1, 3];
    assert Plain(h.blocks.table) && WellFormed(h);
    assert Backed(hs, 0, 2, 20480, s0, s1, paths);
    GivenSettled(hs, 0, 2, 20480, s0, s1, paths);
    var hs1 := Given(hs, 0, 2);
    GivenShadow(hs, 0, 2);
    OnlyHeapLeads(hs1, 20480, s1);
    TargetsArePhysical(h, 2, 20480, s1, hs1[0]);
    PhysicalFree(s1, 20480, hs1, 24576, 0);
    PairFreed();
    var freed := FreeAll(hs1, Targets(s1, hs1[0], 20480, 24576));
    ShapeParts(hs1, freed, 0);
    ReleasedShadow(freed, 0, BlockTable.Free(hs1[0].shadow, 0), 0);
  }

  lemma OnlyHeapLeads(hs: seq<Node>, maxEnd: nat, s: P.Space)
    requires |hs| == 1 && hs[0].paging && Settled(hs, maxEnd, s, [])
    ensures TakenLead(hs[0], maxEnd, s, [])
  {
  }

  lemma PairFreed()
    ensures BlockTable.Free(Malloc(Empty(4), 2).0, 0) == State(Empty(4).table, WORD - 1, 5)
  {
    assert FreeRun(Empty(4).table, 0, 2);
    var e := Malloc(Empty(4), 2).0.table;
    assert e == [Entry(true, true, true), Entry(true, false, true), FREE, FREE];
    assert Walk(e, 2) == 1;
    assert Walk(e, 1) == 2;
    assert Walk(e, 0) == 3;
    assert Clear(e, 0, 3) == Empty(4).table;
  }

  /** The free list of a table of eight blocks, one block after the other. */
  lemma FreeListOfEight(e: seq<Entry>)
    requires |e| == 8
    ensures FreeBlocks(e) == FreeIf(e, 0) + (FreeIf(e, 1) + (FreeIf(e, 2) + (FreeIf(e, 3) + LastFour(e))))
  {
    FreeListStep(e, 0);
    FreeListStep(e, 1);
    FreeListStep(e, 2);
    FreeListStep(e, 3);
    FreeListStep(e, 4);
    FreeListStep(e, 5);
    FreeListStep(e, 6);
    FreeListStep(e, 7);
    hide FreeList, FreeIf;
    assert FreeIf(e, 7) + [] == FreeIf(e, 7);
    assert FreeList(e, 4) == LastFour(e);
  }

  function FreeIf(e: seq<Entry>, i: nat): seq<nat>
    requires i < |e|
  {
    if e[i].taken then [] else [i]
  }

  function LastFour(e: seq<Entry>): seq<nat>
    requires |e| == 8
  {
    FreeIf(e, 4) + (FreeIf(e, 5) + (FreeIf(e, 6) + FreeIf(e, 7)))
  }

  lemma FreeListStep(e: seq<Entry>, i: nat)
    requires i < |e|
    ensures FreeList(e, i) == FreeIf(e, i) + FreeList(e, i + 1) && FreeList(e, |e|) == []
  {
    var rest := FreeList(e, i + 1);
    assert [] + rest == rest;
  }

  /** Where no two blocks side by side are free there is no room for two. */
  lemma NoPair(e: seq<Entry>)
    requires forall b :: 0 <= b < |e| - 1 ==> e[b].taken || e[b + 1].taken
    ensures FirstFit(e, 2) == -1
  {
    forall b | 0 <= b < |e| - 1 ensures !FreeRun(e, b, 2) {
      assert e[b].taken || e[b + 1].taken;
    }
  }

  lemma HolesOfEight()
    ensures FreeBlocks(Fragmented(8, 4).table) == [1, 3, 5, 7]
    ensures FirstFit(Fragmented(8, 4).table, 2) == -1 && FirstFit(Empty(8).table, 2) == 0
  {
    hide FreeBlocks, FirstFit, FreeRun;
    var e := Fragmented(8, 4).table;
    assert e == [SINGLE, FREE, SINGLE, FREE, SINGLE, FREE, SINGLE, FREE];
    FreeListOfEight(e);
    NoPair(e);
    RoomInEmpty(8);
  }

  lemma RoomInEmpty(m: nat)
    requires m >= 2
    ensures FirstFit(Empty(m).table, 2) == 0
  {
    assert FreeRun(Empty(m).table, 0, 2);
  }

  lemma HolesLeft()
    ensures var e := Singles(Fragmented(8, 4), [1, 3]).table;
            FreeBlocks(e) == [5, 7] && FirstFit(e, 2) == -1
  {
    hide U64, FreeBlocks, FirstFit, FreeRun;
    var e := Singles(Fragmented(8, 4), [1, 3]).table;
    assert e == [SINGLE, SINGLE, SINGLE, SINGLE, SINGLE, FREE, SINGLE, FREE];
    hide Singles, Fragmented;
    FreeListOfEight(e);
    NoPair(e);
  }

  lemma PagesLeft()
    ensures var shadow := Malloc(Empty(8), 2).0; Malloc(shadow, 2).1 == 2 && Plain(shadow.table)
  {
    assert FreeRun(Empty(8).table, 0, 2);
    var t := Malloc(Empty(8), 2).0.table;
    assert t == [Entry(true, true, true), Entry(true, false, true), FREE, FREE, FREE, FREE, FREE, FREE];
    assert t[0].taken && t[1].taken && FreeRun(t, 2, 2);
  }

  /**
   The second pair out of the holes of a heap of eight blocks: freed, its pages can be given
   out again, but both of its backing blocks stay taken for good.
   */
  method SecondPairIsLost(pool: seq<Block>, root: nat, supply: seq<nat>)
    returns (first: Outcome, second: Outcome, before: State, pages: State, after: State)
    requires |pool| == 8 && 24 <= |supply| && root !in supply
    requires forall j, k :: 0 <= j < k < |supply| ==> supply[j] != supply[k]
    ensures first == Pointer(40960) && second == Pointer(49152)
    ensures FreeBlocks(before.table) == [5, 7] && FreeBlocks(after.table) == []
    ensures |pages.table| == 8 && pages.table[2] == FREE
  {
    hide P.PageTables.Sound, Settled, P.Lookup, P.Valid, NulledFrom, FreeDeep, Empty, Fragmented, BackedBy, PagesReady,
      FreeBlocks, FirstFit, Singles, ZeroedAt, Malloc;
    var mh := NewAllocator(8, pool, root, supply);
    MakeHoles(mh, 8, pool, 4);
    ghost var s0, paths := mh.desc.State(), mh.desc.paths;
    SoundIsValid(mh.desc);
    PairsAreGiven(pool);
    first := mh.Palloc(2 * BLOCK_SIZE);
    before := mh.heaps[0].blocks;
    ghost var s1, hs1 := mh.desc.State(), mh.heaps;
    SoundIsValid(mh.desc);
    second := mh.Palloc(2 * BLOCK_SIZE);
    SoundIsValid(mh.desc);
    PairStaysTaken(pool, mh.heaps, s0, s1, mh.desc.State(), paths);
    mh.Free(49152);
    pages, after := mh.heaps[0].shadow, mh.heaps[0].blocks;
  }

  /** The node of the heap of eight blocks after one pass for two pages, and after another. */
  function OnePair(pool: seq<Block>): Node {
    Defragmented(Node(4096, true, Fragmented(8, 4), pool, Empty(8)), 2, [1, 3])
  }

  function TwoPairs(pool: seq<Block>): Node { Defragmented(OnePair(pool), 2, [5, 7]) }

  lemma PairsAreGiven(pool: seq<Block>)
    ensures var hs := [Node(4096, true, Fragmented(8, 4), pool, Empty(8))];
            && H.BlocksFor(2 * BLOCK_SIZE) == 2 && FirstRoom(hs, 2, 0) < 0 && Choose(hs, 2, 0) == 0
            && FreeBlocks(hs[0].blocks.table) == [1, 3, 5, 7] && [1, 3, 5, 7][..2] == [1, 3]
            && Malloc(hs[0].shadow, 2).1 == 0 && hs[0 := OnePair(pool)] == [OnePair(pool)]
    ensures var hs1 := [OnePair(pool)];
            && FirstRoom(hs1, 2, 0) < 0 && Choose(hs1, 2, 0) == 0
            && FreeBlocks(hs1[0].blocks.table) == [5, 7] && [5, 7][..2] == [5, 7]
            && Malloc(hs1[0].shadow, 2).1 == 2 && hs1[0 := TwoPairs(pool)] == [TwoPairs(pool)]
  {
    hide FreeBlocks, Singles, ZeroedAt, Fragmented, Empty;
    HolesOfEight();
    HolesLeft();
    PagesLeft();
    FirstOfEight();
    SinglesCount();
    MallocWhenFits(Empty(8), 2);
    MallocWhenFits(Malloc(Empty(8), 2).0, 2);
    assert Fragmented(8, 4).free == 4 by { FourHoles(); }
  }

  lemma FourHoles()
    ensures Fragmented(8, 4).free == 4
  {
  }

  /** Two pages further on than the second pair lie pages that lead to themselves or nowhere. */
  lemma PairStaysTaken(pool: seq<Block>, hs: seq<Node>, s0: P.Space, s1: P.Space, s2: P.Space, paths: P.Paths)
    requires hs == [TwoPairs(pool)] && PagesReady(s0, 36864) && Settled(hs, 36864, s2, [])
    requires P.Valid(s0, paths) && P.Valid(s1, paths) && P.Valid(s2, paths)
    requires BackedBy(s0, s1, 40960, 4096, [1, 3]) && BackedBy(s1, s2, 49152, 4096, [5, 7])
    ensures var f := FreeDeep(s2, 36864, hs, [], 49152, 1);
            && f.Some? && f.value.heaps[0].blocks == hs[0].blocks
            && |f.value.heaps[0].shadow.table| == 8 && f.value.heaps[0].shadow.table[2] == FREE
    ensures FreeBlocks(hs[0].blocks.table) == []
  {
    hide P.Valid, BackedBy, PagesReady, FreeBlocks, FreeDeep, FreeEach, Settled, Singles, ZeroedAt, Empty, Fragmented,
      BlockCount, Malloc, P.Offset, TargetOf;
    TwoPairsTables(pool);
    forall k | 0 <= k < 2 ensures Leads(0, 57344 + k * BLOCK_SIZE, TargetOf(s2, 57344 + k * BLOCK_SIZE)) {
      var va := 57344 + k * BLOCK_SIZE;
      PagesFurtherOn(k);
      TargetAfterPass(s0, s1, paths, 40960, 4096, [1, 3], va);
      TargetAfterPass(s1, s2, paths, 49152, 4096, [5, 7], va);
      ReadyLeads(s0, 36864, paths, va);
    }
    FreeOfPages(s2, 36864, hs, [], 49152, 0, 1);
    EachKeepsBlocks(s2, 36864, hs, [], 57344, 2);
    var each := FreeEach(s2, 36864, hs, [], 57344, 2, 1).value;
    PagesReleased(each, 36864, 0, 2);
  }

  /** The first page that is released is free, whatever the frees before have done. */
  lemma PagesReleased(f: Freed, maxEnd: nat, p: nat, start: nat)
    requires p < |f.heaps| && start < |f.heaps[p].shadow.table|
    ensures RunReleased(f, maxEnd, p, start).heaps[p].shadow.table[start] == FREE
  {
  }

  lemma PagesFurtherOn(k: nat)
    requires k < 2
    ensures P.Offset(57344 + k * BLOCK_SIZE, 40960) >= 2 && P.Offset(57344 + k * BLOCK_SIZE, 49152) >= 2
  {
  }

  lemma ReadyLeads(s: P.Space, maxEnd: nat, paths: P.Paths, va: nat)
    requires P.Valid(s, paths) && PagesReady(s, maxEnd) && maxEnd <= va < ADDRESS_LIMIT
    ensures Leads(0, va, TargetOf(s, va))
  {
    hide P.Valid, P.Lookup, P.Get;
    P.GetExact(s, paths, va);
    assert va / BLOCK_SIZE * BLOCK_SIZE + va % BLOCK_SIZE == va;
  }

  lemma TwoPairsTables(pool: seq<Block>)
    ensures var h := TwoPairs(pool);
            && h.saddr == 4096 && h.paging && PagingFor([h], 36864, 49152) == 0 && ShadowBlock(h, 36864, 49152) == 2
            && BlockCount(h.shadow.table, 2) == 2 && FreeBlocks(h.blocks.table) == [] && |h.shadow.table| == 8
  {
    hide FreeBlocks, U64, Malloc, BlockCount, Singles, ZeroedAt, Fragmented, Empty;
    NothingLeft();
    TwoRuns();
  }

  lemma NothingLeft()
    ensures var st := Singles(Singles(Fragmented(8, 4), [1, 3]), [5, 7]); |st.table| == 8 && FreeBlocks(st.table) == []
  {
    hide FreeBlocks, U64;
    var e := Singles(Singles(Fragmented(8, 4), [1, 3]), [5, 7]).table;
    assert e == [SINGLE, SINGLE, SINGLE, SINGLE, SINGLE, SINGLE, SINGLE, SINGLE];
    hide Singles, Fragmented;
    FreeListOfEight(e);
  }

  lemma TwoRuns()
    ensures BlockCount(Malloc(Malloc(Empty(8), 2).0, 2).0.table, 2) == 2
    ensures |Malloc(Malloc(Empty(8), 2).0, 2).0.table| == 8
  {
    PagesLeft();
    assert FreeRun(Empty(8).table, 0, 2);
    var t := Malloc(Empty(8), 2).0.table;
    assert t == [Entry(true, true, true), Entry(true, false, true), FREE, FREE, FREE, FREE, FREE, FREE];
    var u := Malloc(Malloc(Empty(8), 2).0, 2).0.table;
    assert u[2].taken && u[2].hasNext && u[3].taken && u[3].hasNext && u[4] == FREE;
    assert Walk(u, 4) == 1;
    assert Walk(u, 3) == 2;
    assert Walk(u, 2) == 3;
    assert Taken(u, 2, 2) == 0;
    assert Taken(u, 2, 3) == 1;
    assert Taken(u, 2, 4) == 2;
  }

  /** Freeing pages that lead to themselves or nowhere releases no block of memory. */
  lemma {:induction false} EachKeepsBlocks(s: P.Space, maxEnd: nat, hs: seq<Node>, nulled: seq<PageRun>, va: nat,
      n: nat)
    requires |hs| == 1 && hs[0].paging && hs[0].saddr == BLOCK_SIZE && Settled(hs, maxEnd, s, nulled)
    requires BLOCK_SIZE <= maxEnd <= va && va + n * BLOCK_SIZE <= ADDRESS_LIMIT
    requires forall k :: 0 <= k < n ==> Leads(0, va + k * BLOCK_SIZE, TargetOf(s, va + k * BLOCK_SIZE))
    ensures var f := FreeEach(s, maxEnd, hs, nulled, va, n, 1);
            f.Some? && |f.value.heaps| == 1 && f.value.heaps[0].blocks == hs[0].blocks
  {
    hide Settled, FreeDeep, FreeEach, TargetOf, NullIn, Calm, P.Get;
    if n == 0 {
      FreeNone(s, maxEnd, hs, nulled, va, 1);
    } else {
      EachKeepsBlocks(s, maxEnd, hs, nulled, va, n - 1);
      EachEnds(s, maxEnd, hs, nulled, va, n - 1);
      FreeOneMore(s, maxEnd, hs, nulled, va, n - 1, 1);
      var f, page := FreeEach(s, maxEnd, hs, nulled, va, n - 1, 1).value, va + (n - 1) * BLOCK_SIZE;
      ShapeParts(hs, f.heaps, 0);
      LeadsCalm(f.heaps, maxEnd, s, f.nulled, page);
      assert Leads(0, page, TargetOf(s, page));
      FlatKeepsBlocks(s, maxEnd, f.heaps, f.nulled, page, TargetAfter(s, f.nulled, page));
    }
  }

  lemma FlatKeepsBlocks(s: P.Space, maxEnd: nat, hs: seq<Node>, nulled: seq<PageRun>, page: nat, t: nat)
    requires |hs| == 1 && hs[0].paging && hs[0].saddr == BLOCK_SIZE <= maxEnd <= page
    requires Leads(0, page, t) && Calm(hs, maxEnd, t)
    ensures var f := FreeDeep(s, maxEnd, hs, nulled, t, 0);
            f.Some? && |f.value.heaps| == 1 && f.value.heaps[0].blocks == hs[0].blocks
  {
    hide FreeDeep, FreeEach, BlockCount, Walk, BlockTable.Free;
    var p := PagingFor(hs, maxEnd, t);
    if p < 0 {
      FreeOfPhysical(s, maxEnd, hs, nulled, t, 0);
      assert HeapFor(hs, Physical(maxEnd, t), 0) < 0;
    } else {
      FreeOfPages(s, maxEnd, hs, nulled, t, p, 0);
      FreeNone(s, maxEnd, hs, nulled, t + ShadowBlock(hs[p], maxEnd, t) * BLOCK_SIZE, 0);
    }
  }

  lemma FirstOfEight()
    ensures Malloc(Empty(8), 2).1 == 0
  {
    assert FreeRun(Empty(8).table, 0, 2);
  }

  lemma SinglesCount()
    ensures Singles(Fragmented(8, 4), [1, 3]).free == 2
  {
  }

  // ------------------------------------------------------------ the intended form

  /** The first heap whose blocks the address is in. */
  function OwnerOf(hs: seq<Node>, address: nat, from: nat): (c: int)
    ensures c == -1 || (from <= c < |hs| && hs[c].saddr <= address < End(hs[c]))
    ensures forall i :: from <= i < |hs| && (c == -1 || i < c) ==> !(hs[i].saddr <= address < End(hs[i]))
    decreases |hs| - from
  {
    if from >= |hs| then -1
    else if hs[from].saddr <= address < End(hs[from]) then from
    else OwnerOf(hs, address, from + 1)
  }

  /** What the processor's walk gives, as `paging_get` would if it tested the entry it is asked for. */
  function TranslationOf(s: P.Space, va: nat): nat {
    match P.Translate(s, va)
    case None => 0
    case Some(a) => a
  }

  function ReleaseAt(hs: seq<Node>, address: nat): (r: seq<Node>)
    ensures |r| == |hs|
  {
    var c := OwnerOf(hs, address, 0);
    if c < 0 then hs
    else hs[c := hs[c].(blocks := BlockTable.Free(hs[c].blocks, (address - hs[c].saddr) / BLOCK_SIZE))]
  }

  /** The first paging heap whose pages the address is in, seen from `maxEnd`. */
  function PagingOwner(hs: seq<Node>, maxEnd: nat, ptr: nat, from: nat): (p: int)
    ensures p == -1 || (from <= p < |hs| && hs[p].paging && maxEnd + hs[p].saddr <= ptr < maxEnd + End(hs[p]))
    ensures forall i :: from <= i < |hs| && (p == -1 || i < p) ==>
              !(hs[i].paging && maxEnd + hs[i].saddr <= ptr < maxEnd + End(hs[i]))
    decreases |hs| - from
  {
    if from >= |hs| then -1
    else if hs[from].paging && maxEnd + hs[from].saddr <= ptr < maxEnd + End(hs[from]) then from
    else PagingOwner(hs, maxEnd, ptr, from + 1)
  }

  /** The same once the pages in `nulled` are nulled. */
  function TranslationAfter(s: P.Space, nulled: seq<PageRun>, va: nat): nat {
    if NullIn(nulled, va) then 0 else TranslationOf(s, va)
  }

  /** `multiheap_free` with half-open ranges, the entries it asks for and the index counted from the run's start. */
  function IntendedFree(s: P.Space, maxEnd: nat, hs: seq<Node>, nulled: seq<PageRun>, ptr: nat, depth: nat):
      (r: Option<Freed>)
    ensures r.Some? ==> |r.value.heaps| == |hs|
    decreases depth, 1, 0
  {
    var p := PagingOwner(hs, maxEnd, ptr, 0);
    if p < 0 then Some(Freed(ReleaseAt(hs, Physical(maxEnd, ptr)), nulled))
    else
      var start := ShadowBlock(hs[p], maxEnd, ptr);
      match IntendedEach(s, maxEnd, hs, nulled, ptr, BlockCount(hs[p].shadow.table, start), depth)
      case None => None
      case Some(f) => Some(RunReleased(f, maxEnd, p, start))
  }

  function IntendedEach(s: P.Space, maxEnd: nat, hs: seq<Node>, nulled: seq<PageRun>, va: nat, n: nat, depth: nat):
      (r: Option<Freed>)
    ensures r.Some? ==> |r.value.heaps| == |hs|
    decreases depth, 0, n
  {
    if n == 0 then Some(Freed(hs, nulled))
    else
      match IntendedEach(s, maxEnd, hs, nulled, va, n - 1, depth)
      case None => None
      case Some(f) =>
        if depth == 0 then None
        else
          IntendedFree(s, maxEnd, f.heaps, f.nulled, TranslationAfter(s, f.nulled, va + (n - 1) * BLOCK_SIZE),
            depth - 1)
  }

  lemma IntendedOneMore(s: P.Space, maxEnd: nat, hs: seq<Node>, va: nat, n: nat, depth: nat)
    requires depth > 0 && IntendedEach(s, maxEnd, hs, [], va, n, depth).Some?
    requires IntendedEach(s, maxEnd, hs, [], va, n, depth).value.nulled == []
    requires TranslationOf(s, va + n * BLOCK_SIZE) < maxEnd
    ensures IntendedEach(s, maxEnd, hs, [], va, n + 1, depth) ==
            Some(Freed(ReleaseAt(IntendedEach(s, maxEnd, hs, [], va, n, depth).value.heaps,
                                 TranslationOf(s, va + n * BLOCK_SIZE)), []))
  {
    hide ReleaseAt, TranslationOf;
    NothingNullIn(va + n * BLOCK_SIZE);
    var f := IntendedEach(s, maxEnd, hs, [], va, n, depth).value;
    assert PagingOwner(f.heaps, maxEnd, TranslationOf(s, va + n * BLOCK_SIZE), 0) < 0;
  }

  /** The heaps after a second pass that marks its run as intended. */
  function IntendedGiven(hs: seq<Node>, c: nat, n: nat): seq<Node>
    requires c < |hs| && n <= |FreeBlocks(hs[c].blocks.table)|
  {
    var bs := FreeBlocks(hs[c].blocks.table)[..n];
    hs[c := hs[c].(shadow := I.Malloc(hs[c].shadow, n).0, blocks := Singles(hs[c].blocks, bs),
      pool := ZeroedAt(hs[c].pool, bs))]
  }

  lemma {:induction false} MarkedWalk(e: seq<Entry>, s: nat, n: nat, i: nat)
    requires n > 0 && FreeRun(e, s, n) && s <= i < s + n
    ensures Walk(I.Mark(e, s, n), i) == s + n - i
    decreases s + n - i
  {
    if i + 1 < s + n { MarkedWalk(e, s, n, i + 1); }
  }

  /** In the intended form what was allocated is counted right and released without a trace. */
  lemma IntendedMallocThenFree(st: State, n: nat)
    requires I.Malloc(st, n).1 >= 0 && Plain(st.table) && st.used < WORD && st.free < WORD
    ensures var (st', s) := I.Malloc(st, n);
            && n > 0 && FreeRun(st.table, s, n) && |st'.table| == |st.table|
            && BlockCount(st'.table, s) == n == Walk(st'.table, s) && BlockTable.Free(st', s) == st
  {
    hide Walk, Taken, U64;
    var (st', s) := I.Malloc(st, n);
    assert FreeRun(st.table, s, n);
    MarkedWalk(st.table, s, n, s);
    TakenExtremes(st'.table, s, s + n);
    CounterReturns(st.used, n);
    CounterReturns(st.free, 0 - n);
    assert Clear(st'.table, s, n) == st.table;
  }

  lemma OwnerInRange(hs: seq<Node>, c: nat, address: nat)
    requires RangesApart(hs) && c < |hs| && hs[c].saddr <= address < End(hs[c])
    ensures OwnerOf(hs, address, 0) == c
  {
  }

  lemma ReleaseBlock(hs: seq<Node>, c: nat, st: State, b: nat)
    requires RangesApart(hs) && c < |hs| && hs[c].blocks == st && b < |st.table|
    ensures ReleaseAt(hs, hs[c].saddr + b * BLOCK_SIZE) == hs[c := hs[c].(blocks := BlockTable.Free(st, b))]
  {
    hide BlockTable.Free, OwnerOf;
    InsideEnd(hs[c], b, 0);
    OwnerInRange(hs, c, hs[c].saddr + b * BLOCK_SIZE);
    BlockBack(hs[c].saddr, b);
  }

  lemma SameRanges(hs: seq<Node>, c: nat, st: State)
    requires RangesApart(hs) && c < |hs| && |st.table| == |hs[c].blocks.table|
    ensures RangesApart(hs[c := hs[c].(blocks := st)])
  {
  }

  /** Page by page each backing block is released on its own. */
  lemma {:induction false} ReleaseBacking(hs: seq<Node>, c: nat, st: State, bs: seq<nat>, s1: P.Space, maxEnd: nat,
                                          ptr: nat, i: nat, depth: nat)
    requires RangesApart(hs) && c < |hs| && i <= |bs| && Plain(st.table) && hs[c].blocks == Singles(st, bs)
    requires |hs[c].blocks.table| == |st.table| && End(hs[c]) <= maxEnd && depth > 0
    requires forall j :: 0 <= j < |bs| ==> bs[j] < |st.table| && !st.table[bs[j]].taken
    requires forall j, k :: 0 <= j < k < |bs| ==> bs[j] < bs[k]
    requires forall j :: 0 <= j < i ==> TranslationOf(s1, ptr + j * BLOCK_SIZE) == hs[c].saddr + bs[j] * BLOCK_SIZE
    ensures IntendedEach(s1, maxEnd, hs, [], ptr, i, depth) ==
            Some(Freed(hs[c := hs[c].(blocks := Singles(st, bs[i..]))], []))
  {
    hide Singles, BlockTable.Free, ReleaseAt, Plain, TranslationOf, RangesApart, IntendedFree, PagingOwner;
    if i > 0 {
      ReleaseBacking(hs, c, st, bs, s1, maxEnd, ptr, i - 1, depth);
      SinglesSize(st, bs[i - 1..]);
      var st1 := Singles(st, bs[i - 1..]);
      SameRanges(hs, c, st1);
      InsideEnd(hs[c], bs[i - 1], 0);
      IntendedOneMore(s1, maxEnd, hs, ptr, i - 1, depth);
      var hs1 := hs[c := hs[c].(blocks := st1)];
      ReleaseBlock(hs1, c, st1, bs[i - 1]);
      DropFirst(bs, i - 1);
      FreeSingle(st, bs[i - 1..]);
      assert hs1[c := hs1[c].(blocks := Singles(st, bs[i..]))] == hs[c := hs[c].(blocks := Singles(st, bs[i..]))];
    } else {
      assert bs[0..] == bs && hs[c].(blocks := Singles(st, bs)) == hs[c];
      assert hs[c := hs[c]] == hs;
    }
  }

  lemma BackedTranslation(s0: P.Space, s1: P.Space, paths: P.Paths, ptr: nat, saddr: nat, bs: seq<nat>, k: nat)
    requires P.Valid(s1, paths) && BackedBy(s0, s1, ptr, saddr, bs) && |bs| <= P.PAGE_NUMBERS
    requires ptr % BLOCK_SIZE == 0 && saddr % BLOCK_SIZE == 0
    requires k < |bs| && saddr + bs[k] * BLOCK_SIZE < P.FRAME_LIMIT * BLOCK_SIZE
    ensures TranslationOf(s1, ptr + k * BLOCK_SIZE) == saddr + bs[k] * BLOCK_SIZE
  {
    hide P.Valid, P.Lookup, P.Translate, P.PageNumber, P.Offset;
    var va := ptr + k * BLOCK_SIZE;
    P.TranslateIsLookup(s1, paths, va);
    P.OffsetOfPage(va, ptr, k);
    FrameOfAddress(saddr, bs[k]);
    PageAligned(ptr, k);
  }

  /**
   Conservation, in the intended form: whatever run of whatever length a second pass has
   handed out, freeing it ends at depth one, puts back all tables and counters, returns each
   backing block once and clears exactly the leaf entries of the run.
   */
  lemma IntendedFreeRestores(hs: seq<Node>, c: nat, n: nat, maxEnd: nat, s0: P.Space, s1: P.Space, paths: P.Paths,
                             depth: nat)
    requires c < |hs| && WellFormed(hs[c]) && Plain(hs[c].blocks.table) && Plain(hs[c].shadow.table) && RangesApart(hs)
    requires n <= |FreeBlocks(hs[c].blocks.table)| && I.Malloc(hs[c].shadow, n).1 >= 0
    requires hs[c].paging && |hs[c].shadow.table| == |hs[c].blocks.table| && End(hs[c]) <= maxEnd && depth > 0
    requires maxEnd % BLOCK_SIZE == 0 && End(hs[c]) <= P.FRAME_LIMIT * BLOCK_SIZE && P.Valid(s1, paths)
    requires BackedBy(s0, s1, ShadowPage(hs[c], maxEnd, I.Malloc(hs[c].shadow, n).1), hs[c].saddr,
                      FreeBlocks(hs[c].blocks.table)[..n])
    ensures var ptr := ShadowPage(hs[c], maxEnd, I.Malloc(hs[c].shadow, n).1);
            PutBack(hs, c, n, ptr, s0, s1, IntendedFree(s1, maxEnd, IntendedGiven(hs, c, n), [], ptr, depth))
  {
    hide P.Valid, Plain, FreeBlocks, Singles, ZeroedAt, BackedBy, I.Malloc, BlockTable.Free, BlockCount, Walk,
      IntendedEach, TranslationOf, RangesApart, Cleared;
    var h, s, hs1 := hs[c], I.Malloc(hs[c].shadow, n).1, IntendedGiven(hs, c, n);
    var bs, ptr := FreeBlocks(h.blocks.table)[..n], ShadowPage(h, maxEnd, I.Malloc(h.shadow, n).1);
    IntendedMallocThenFree(h.shadow, n);
    BackingInside(h, n);
    SinglesSize(h.blocks, bs);
    BlockBack(0, s);
    assert ShadowBlock(hs1[c], maxEnd, ptr) == s;
    SumAligned(maxEnd, h.saddr);
    PageAligned(maxEnd + h.saddr, s);
    forall j | 0 <= j < n ensures TranslationOf(s1, ptr + j * BLOCK_SIZE) == h.saddr + bs[j] * BLOCK_SIZE {
      BackedTranslation(s0, s1, paths, ptr, h.saddr, bs, j);
    }
    GivenRanges(hs, c, n);
    InsideEnd(h, s, 0);
    PagingOwnerInRange(hs1, c, maxEnd, ptr);
    ReleaseBacking(hs1, c, h.blocks, bs, s1, maxEnd, ptr, n, depth);
    assert bs[n..] == [];
    SinglesNothing(h.blocks, h.pool);
    assert [] + [PageRun(ptr, n)] == [PageRun(ptr, n)];
    OwnRunCleared(s0, s1, ptr, h.saddr, bs);
  }

  lemma PagingOwnerInRange(hs: seq<Node>, c: nat, maxEnd: nat, ptr: nat)
    requires RangesApart(hs) && c < |hs| && hs[c].paging && maxEnd + hs[c].saddr <= ptr < maxEnd + End(hs[c])
    ensures PagingOwner(hs, maxEnd, ptr, 0) == c
  {
  }

  lemma GivenRanges(hs: seq<Node>, c: nat, n: nat)
    requires RangesApart(hs) && c < |hs| && n <= |FreeBlocks(hs[c].blocks.table)|
    ensures RangesApart(IntendedGiven(hs, c, n))
  {
    SinglesSize(hs[c].blocks, FreeBlocks(hs[c].blocks.table)[..n]);
    hide FreeBlocks, Singles, ZeroedAt, I.Malloc;
  }
}
