/**
 The list of heaps behind one allocator (memory/heap/multiheap.c), and what allocating from
 it and freeing do to it and to the page tables, on values.

 The nodes of the list are records of the two heaps' tables and counters; what is done
 to them are the functions of `BlockTable` that class `Heap` is proved to carry out.
 */
module HeapList {
  import opened Basics
  import opened BlockTable
  import H = Heap
  import P = Paging

  const BLOCK_SIZE: nat := H.BLOCK_SIZE
  type Block = H.Block

  const BACKED := P.Flags(true, true, false)

  // ------------------------------------------------------------- free blocks

  /** The free blocks at or after `from`, lowest first. */
  function FreeList(e: seq<Entry>, from: nat): (r: seq<nat>)
    ensures forall i :: i in r <==> from <= i < |e| && !e[i].taken
    ensures forall j, k :: 0 <= j < k < |r| ==> r[j] < r[k]
    decreases |e| - from
  {
    if from >= |e| then []
    else if e[from].taken then FreeList(e, from + 1)
    else
      var rest := FreeList(e, from + 1);
      assert forall k :: 0 <= k < |rest| ==> rest[k] in rest;
      [from] + rest
  }

  function FreeBlocks(e: seq<Entry>): seq<nat> { FreeList(e, 0) }

  lemma {:induction false} FreeListCounts(e: seq<Entry>, from: nat)
    requires from <= |e|
    ensures |FreeList(e, from)| == |e| - from - Taken(e, from, |e|)
    decreases |e| - from
  {
    hide Taken;
    if from < |e| {
      FreeListCounts(e, from + 1);
      TakenFirst(e, from);
    } else {
      TakenExtremes(e, from, |e|);
    }
  }

  lemma TakenFirst(e: seq<Entry>, from: nat)
    requires from < |e|
    ensures Taken(e, from, |e|) == Taken(e, from + 1, |e|) + if e[from].taken then 1 else 0
  {
    TakenSplit(e, from, from + 1, |e|);
  }

  /** Each of `blocks` allocated on its own. */
  function Singles(st: State, blocks: seq<nat>): State {
    State(seq(|st.table|, i requires 0 <= i < |st.table| =>
            if i in blocks then Entry(true, true, false) else st.table[i]),
          U64(st.used + |blocks|), U64(st.free - |blocks|))
  }

  lemma SinglesGrow(st: State, all: seq<nat>, i: nat)
    requires i < |all|
    ensures var now := Singles(st, all[..i]);
            Singles(st, all[..i + 1]) == State(MarkTaken(now.table, all[i], 1), U64(now.used + 1), U64(now.free - 1))
  {
    var now := Singles(st, all[..i]);
    H.U64Twice(st.used + i, 1);
    H.U64Twice(st.free - i, -1);
    hide U64;
    assert all[..i + 1] == all[..i] + [all[i]];
    assert MarkTaken(now.table, all[i], 1) == Singles(st, all[..i + 1]).table;
  }

  /** One-block requests are answered with the free blocks in ascending order. */
  lemma NextSingle(st: State, i: nat)
    requires i <= |FreeBlocks(st.table)|
    ensures var all := FreeBlocks(st.table);
            Malloc(Singles(st, all[..i]), 1) ==
              if i < |all| then (Singles(st, all[..i + 1]), all[i] as int) else (Singles(st, all[..i]), -1)
  {
    var all := FreeBlocks(st.table);
    var now := Singles(st, all[..i]);
    var fit := FirstFit(now.table, 1);
    forall b: nat | b < |st.table| ensures FreeRun(now.table, b, 1) <==> b in all && b !in all[..i] {
      assert !now.table[b].taken <==> !st.table[b].taken && b !in all[..i];
    }
    if i < |all| {
      assert all[i] in all;
      assert FreeRun(now.table, all[i], 1);
      assert fit == all[i];
      SinglesGrow(st, all, i);
    }
  }

  // ------------------------------------------------------------ the heap list

  /**
   `struct multiheap_single_heap`: a heap, the contents of its blocks, and its paging
   heap, whose blocks are the pages from `maxEnd + saddr` on.
   */
  datatype Node = Node(saddr: nat, paging: bool, blocks: State, pool: seq<Block>, shadow: State)

  function End(h: Node): nat { h.saddr + |h.blocks.table| * BLOCK_SIZE }

  /** `heap_is_address_within_heap` counts the end address in. */
  predicate Holds(h: Node, address: nat) { h.saddr <= address <= End(h) }

  /** `multiheap_get_heap_for_address`: the first heap that holds the address, or -1. */
  function HeapFor(hs: seq<Node>, address: nat, from: nat): (c: int)
    ensures c == -1 || (from <= c < |hs| && Holds(hs[c], address))
    ensures forall i :: from <= i < |hs| && (c == -1 || i < c) ==> !Holds(hs[i], address)
    decreases |hs| - from
  {
    if from >= |hs| then -1
    else if Holds(hs[from], address) then from
    else HeapFor(hs, address, from + 1)
  }

  /** `multiheap_get_paging_heap_for_address`, on an address relative to `max_end_data_addr`. */
  function ShadowFor(hs: seq<Node>, offset: nat, from: nat): (c: int)
    ensures c == -1 || (from <= c < |hs| && hs[c].paging && Holds(hs[c], offset))
    ensures forall i :: from <= i < |hs| && (c == -1 || i < c) ==> !(hs[i].paging && Holds(hs[i], offset))
    decreases |hs| - from
  {
    if from >= |hs| then -1
    else if hs[from].paging && Holds(hs[from], offset) then from
    else ShadowFor(hs, offset, from + 1)
  }

  /** Half-open ranges of different heaps do not overlap; they may touch. */
  ghost predicate RangesApart(hs: seq<Node>) {
    forall i, j :: 0 <= i < j < |hs| ==> End(hs[i]) <= hs[j].saddr || End(hs[j]) <= hs[i].saddr
  }

  /** The lookup names the heap whose block it is iff no earlier heap ends right there. */
  lemma LookupExact(hs: seq<Node>, c: nat, address: nat)
    requires RangesApart(hs) && c < |hs| && hs[c].saddr <= address < End(hs[c])
    ensures HeapFor(hs, address, 0) == c <==> forall i :: 0 <= i < c ==> End(hs[i]) != address
    ensures forall i :: 0 <= i < |hs| && i != c && Holds(hs[i], address) ==> End(hs[i]) == address
  {
  }

  /** Of two touching heaps, the first block of the second is looked up in the first. */
  lemma TouchingHeapsAreConfused(pool: seq<Block>)
    ensures var hs := [Node(4096, false, Empty(4), pool, Empty(0)), Node(20480, false, Empty(4), pool, Empty(0))];
            RangesApart(hs) && hs[1].saddr <= 20480 < End(hs[1]) && HeapFor(hs, 20480, 0) == 0
  {
  }

  // ---------------------------------------------------------------- choosing

  /** A heap the second pass may choose: its counter and its paging heap both have room. */
  predicate Eligible(h: Node, n: nat) {
    h.paging && h.blocks.free >= n && FirstFit(h.shadow.table, n) >= 0
  }

  /** The first eligible heap at or after `from`, or -1. */
  function Choose(hs: seq<Node>, n: nat, from: nat): (c: int)
    ensures c == -1 || (from <= c < |hs| && Eligible(hs[c], n))
    ensures forall i :: from <= i < |hs| && (c == -1 || i < c) ==> !Eligible(hs[i], n)
    decreases |hs| - from
  {
    if from >= |hs| then -1
    else if Eligible(hs[from], n) then from
    else Choose(hs, n, from + 1)
  }

  /** The first heap at or after `from` with a free run of `n` blocks, or -1. */
  function FirstRoom(hs: seq<Node>, n: nat, from: nat): (c: int)
    ensures c == -1 || (from <= c < |hs| && FirstFit(hs[c].blocks.table, n) >= 0)
    ensures forall i :: from <= i < |hs| && (c == -1 || i < c) ==> FirstFit(hs[i].blocks.table, n) < 0
    decreases |hs| - from
  {
    if from >= |hs| then -1
    else if FirstFit(hs[from].blocks.table, n) >= 0 then from
    else FirstRoom(hs, n, from + 1)
  }

  lemma MallocWhenFits(st: State, n: nat)
    ensures Malloc(st, n).1 >= 0 <==> FirstFit(st.table, n) >= 0
    ensures Malloc(st, n).1 < 0 ==> Malloc(st, n).0 == st
    ensures Malloc(st, n).1 >= 0 ==> FreeRun(st.table, Malloc(st, n).1, n) && n > 0
  {
  }

  // ------------------------------------------------------------ backing pages

  /** Page k of the run at `virt` is backed by `blocks[k]` of the heap at `saddr`. */
  ghost predicate BackedBy(s: P.Space, s': P.Space, virt: nat, saddr: nat, blocks: seq<nat>) {
    forall v :: P.Lookup(s', v) ==
      if P.Offset(v, virt) < |blocks| then P.LeafEntry(saddr + blocks[P.Offset(v, virt)] * BLOCK_SIZE, BACKED)
      else P.Lookup(s, v)
  }

  lemma BackedByNothing(s: P.Space, virt: nat, saddr: nat)
    ensures BackedBy(s, s, virt, saddr, [])
  {
  }

  lemma BackedByOneMore(s: P.Space, s1: P.Space, s2: P.Space, virt: nat, saddr: nat, all: seq<nat>, i: nat)
    requires i < |all| && i < P.PAGE_NUMBERS && BackedBy(s, s1, virt, saddr, all[..i])
    requires forall v :: P.Lookup(s2, v) ==
               if P.PageNumber(v) == P.PageNumber(virt + i * BLOCK_SIZE) then
                 P.LeafEntry(saddr + all[i] * BLOCK_SIZE, BACKED)
               else P.Lookup(s1, v)
    ensures BackedBy(s, s2, virt, saddr, all[..i + 1])
  {
    hide P.Lookup, P.LeafEntry, P.PageNumber;
    forall v ensures P.Lookup(s2, v) ==
      if P.Offset(v, virt) < i + 1 then P.LeafEntry(saddr + all[..i + 1][P.Offset(v, virt)] * BLOCK_SIZE, BACKED)
      else P.Lookup(s, v)
    {
      hide P.Offset;
      P.OffsetOfPage(v, virt, i);
    }
  }

  lemma UnmappedOneMore(s: P.Space, s1: P.Space, s2: P.Space, virt: nat, i: nat)
    requires i < P.PAGE_NUMBERS && H.Unmapped(s, s1, virt, i)
    requires forall v :: P.Lookup(s2, v) ==
               if P.PageNumber(v) == P.PageNumber(virt + i * BLOCK_SIZE) then P.LeafEntry(0, H.NO_FLAGS)
               else P.Lookup(s1, v)
    ensures H.Unmapped(s, s2, virt, i + 1)
  {
    assert P.LeafEntry(0, H.NO_FLAGS) == P.NULL_ENTRY;
    hide P.Lookup, P.LeafEntry, P.PageNumber;
    forall v ensures P.Lookup(s2, v) == if P.Offset(v, virt) < i + 1 then P.NULL_ENTRY else P.Lookup(s, v) {
      hide P.Offset;
      P.OffsetOfPage(v, virt, i);
    }
  }

  /** `memset` over the given blocks. */
  function ZeroedAt(pool: seq<Block>, blocks: seq<nat>): (r: seq<Block>)
    ensures |r| == |pool|
  {
    seq(|pool|, i requires 0 <= i < |pool| => if i in blocks then H.ZeroBlock() else pool[i])
  }

  lemma SinglesNothing(st: State, pool: seq<Block>)
    requires st.used < WORD && st.free < WORD
    ensures Singles(st, []) == st && ZeroedAt(pool, []) == pool
  {
  }

  /** The chosen heap once `blocks` of it back the pages of block `s` of its paging heap. */
  function Defragmented(h: Node, n: nat, blocks: seq<nat>): Node {
    h.(shadow := Malloc(h.shadow, n).0, blocks := Singles(h.blocks, blocks), pool := ZeroedAt(h.pool, blocks))
  }

  // ------------------------------------------------------ what a request is given

  /** The blocks from `s` on, which were free, have been taken, and no others. */
  ghost predicate TookRun(e: seq<Entry>, e': seq<Entry>, s: nat, n: nat) {
    && |e'| == |e| && FreeRun(e, s, n)
    && forall i :: 0 <= i < |e| ==> (e'[i].taken <==> e[i].taken || s <= i < s + n)
  }

  /** So have the blocks `bs`, one after the other, and they have been filled with zeros. */
  ghost predicate TookBlocks(h: Node, h': Node, bs: seq<nat>) {
    && |h'.blocks.table| == |h.blocks.table| && |h'.pool| == |h.pool|
    && (forall j, k :: 0 <= j < k < |bs| ==> bs[j] < bs[k])
    && (forall b :: b in bs ==> b < |h.blocks.table| && !h.blocks.table[b].taken)
    && (forall i :: 0 <= i < |h.blocks.table| ==> (h'.blocks.table[i].taken <==> h.blocks.table[i].taken || i in bs))
    && (forall i :: 0 <= i < |h.pool| ==>
          if i in bs then |h'.pool[i]| == 4096 && forall k :: 0 <= k < 4096 ==> h'.pool[i][k] == 0
          else h'.pool[i] == h.pool[i])
  }

  /** The k-th page from `virt` on is block `bs[k]`, for the kernel to read and write; other pages are as before. */
  ghost predicate PagesGranted(s: P.Space, s': P.Space, virt: nat, saddr: nat, bs: seq<nat>) {
    forall v: nat :: P.Grants(s', v) ==
      if P.Offset(v, virt) < |bs| then
        Some(P.Access((saddr + bs[P.Offset(v, virt)] * BLOCK_SIZE) % P.PHYSICAL_LIMIT + v % BLOCK_SIZE, true, false))
      else P.Grants(s, v)
  }

  /** The first pass: one run of blocks at `address`, no longer than `size` bytes need. */
  ghost predicate GaveRun(h: Node, h': Node, size: nat, address: nat) {
    exists s: nat, n: nat :: TookRun(h.blocks.table, h'.blocks.table, s, n) && H.JustHold(n, size)
                             && address == h.saddr + s * BLOCK_SIZE
  }

  /** The second pass: one run of pages at `address`, and as many blocks of the heap, to which they lead. */
  ghost predicate GavePages(s: P.Space, s': P.Space, h: Node, h': Node, maxEnd: nat, size: nat, address: nat) {
    exists t: nat, bs: seq<nat> ::
      && TookRun(h.shadow.table, h'.shadow.table, t, |bs|) && H.JustHold(|bs|, size) && TookBlocks(h, h', bs)
      && address == maxEnd + h.saddr + t * BLOCK_SIZE && PagesGranted(s, s', address, h.saddr, bs)
  }

  lemma FirstGives(h: Node, size: nat)
    requires var n := H.BlocksFor(size); Malloc(h.blocks, n).1 >= 0
    ensures var (st, s) := Malloc(h.blocks, H.BlocksFor(size));
            GaveRun(h, h.(blocks := st), size, h.saddr + s * BLOCK_SIZE)
  {
    hide H.BlocksFor;
    var n := H.BlocksFor(size);
    TookMalloc(h.blocks, n);
  }

  lemma TookMalloc(st: State, n: nat)
    ensures var (st', s) := Malloc(st, n); s >= 0 ==> TookRun(st.table, st'.table, s, n)
  {
  }

  lemma SecondGives(space: P.Space, paths: P.Paths, space': P.Space, paths': P.Paths, h: Node, maxEnd: nat, size: nat)
    requires P.Valid(space, paths) && P.Valid(space', paths') && WellFormed(h)
    requires var n, all := H.BlocksFor(size), FreeBlocks(h.blocks.table);
             var s := Malloc(h.shadow, n).1;
             && n <= |all| && s >= 0
             && BackedBy(space, space', maxEnd + h.saddr + s * BLOCK_SIZE, h.saddr, all[..n])
    ensures var n := H.BlocksFor(size);
            GavePages(space, space', h, Defragmented(h, n, FreeBlocks(h.blocks.table)[..n]), maxEnd, size,
                      maxEnd + h.saddr + Malloc(h.shadow, n).1 * BLOCK_SIZE)
  {
    hide H.BlocksFor, P.Valid, BackedBy, Malloc, PagesGranted, TookBlocks;
    var n := H.BlocksFor(size);
    var bs, s := FreeBlocks(h.blocks.table)[..n], Malloc(h.shadow, n).1;
    TookMalloc(h.shadow, n);
    TookFree(h, n);
    BackedIsGranted(space, paths, space', paths', maxEnd + h.saddr + s * BLOCK_SIZE, h.saddr, bs);
    assert TookRun(h.shadow.table, Malloc(h.shadow, n).0.table, s, |bs|);
  }

  lemma TookFree(h: Node, n: nat)
    requires n <= |FreeBlocks(h.blocks.table)| && |h.pool| == |h.blocks.table|
    ensures TookBlocks(h, Defragmented(h, n, FreeBlocks(h.blocks.table)[..n]), FreeBlocks(h.blocks.table)[..n])
  {
    hide Malloc, U64;
    var all := FreeBlocks(h.blocks.table);
    assert forall b :: b in all[..n] ==> b in all;
  }

  lemma BackedIsGranted(s: P.Space, paths: P.Paths, s': P.Space, paths': P.Paths, virt: nat, saddr: nat, bs: seq<nat>)
    requires P.Valid(s, paths) && P.Valid(s', paths') && BackedBy(s, s', virt, saddr, bs) && saddr % BLOCK_SIZE == 0
    ensures PagesGranted(s, s', virt, saddr, bs)
  {
    hide P.Valid, P.Lookup, P.Grants, P.LeafEntry, P.Offset, P.GrantOf;
    forall v: nat
      ensures P.Grants(s', v) ==
        if P.Offset(v, virt) < |bs| then
          Some(P.Access((saddr + bs[P.Offset(v, virt)] * BLOCK_SIZE) % P.PHYSICAL_LIMIT + v % BLOCK_SIZE, true, false))
        else P.Grants(s, v)
    {
      P.LeafDecides(s, paths, v);
      P.LeafDecides(s', paths', v);
      if P.Offset(v, virt) < |bs| {
        var block := bs[P.Offset(v, virt)];
        P.LeafIsAsked(saddr + block * BLOCK_SIZE, BACKED, v);
        assert (saddr + block * BLOCK_SIZE) % BLOCK_SIZE == 0;
      }
    }
  }

  /** The paging heap of some heap in `hs` has the page of `v`, which it maps to itself without flags. */
  ghost predicate MappedToItself(s: P.Space, h: Node, maxEnd: nat, v: nat) {
    h.paging && P.Offset(v, maxEnd + h.saddr) < |h.pool| &&
    P.Lookup(s, v) == P.LeafEntry(maxEnd + h.saddr + P.Offset(v, maxEnd + h.saddr) * BLOCK_SIZE, H.NO_FLAGS)
  }

  /** Only pages of paging heaps are mapped anew, each to itself; all other translations stay. */
  ghost predicate PagingMapped(s: P.Space, s': P.Space, hs: seq<Node>, maxEnd: nat) {
    forall v :: P.Lookup(s', v) == P.Lookup(s, v) || exists i :: 0 <= i < |hs| && MappedToItself(s', hs[i], maxEnd, v)
  }

  lemma NothingMapped(s: P.Space, maxEnd: nat)
    ensures PagingMapped(s, s, [], maxEnd)
  {
  }

  /** One heap more, with or without a paging heap. */
  lemma PagingMappedMore(s: P.Space, s1: P.Space, s2: P.Space, hs: seq<Node>, maxEnd: nat)
    requires hs != [] && PagingMapped(s, s1, hs[..|hs| - 1], maxEnd)
    requires var h := hs[|hs| - 1];
             s2 == s1 || (h.paging && P.RangeMapped(s1, s2, maxEnd + h.saddr, maxEnd + h.saddr, |h.pool|, H.NO_FLAGS))
    ensures PagingMapped(s, s2, hs, maxEnd)
  {
    hide P.Lookup, P.Offset, P.LeafEntry;
    var h, before := hs[|hs| - 1], hs[..|hs| - 1];
    forall v
      ensures P.Lookup(s2, v) == P.Lookup(s, v) || exists i :: 0 <= i < |hs| && MappedToItself(s2, hs[i], maxEnd, v)
    {
      if s2 != s1 && P.Offset(v, maxEnd + h.saddr) < |h.pool| {
        assert MappedToItself(s2, hs[|hs| - 1], maxEnd, v);
      } else if P.Lookup(s1, v) != P.Lookup(s, v) {
        var i :| 0 <= i < |before| && MappedToItself(s1, before[i], maxEnd, v);
        assert MappedToItself(s2, hs[i], maxEnd, v);
      }
    }
  }

  lemma StateSupply(d: P.PageTables)
    ensures d.State().supply == d.supply && d.State().root == d.root
  {
  }

  /** The node with an empty paging heap of its own size, if it is to have one. */
  function WithShadow(h: Node): Node {
    if h.paging then h.(shadow := Empty(|h.blocks.table|)) else h
  }

  function HighestEnd(hs: seq<Node>): (max: nat)
    ensures forall i :: 0 <= i < |hs| ==> End(hs[i]) <= max
    ensures max == 0 || exists i :: 0 <= i < |hs| && End(hs[i]) == max
  {
    if hs == [] then 0
    else
      var before, last := HighestEnd(hs[..|hs| - 1]), hs[|hs| - 1];
      if End(last) >= before then End(last) else before
  }

  lemma MaxEndAligned(hs: seq<Node>)
    requires forall i :: 0 <= i < |hs| ==> WellFormed(hs[i])
    ensures HighestEnd(hs) % BLOCK_SIZE == 0
  {
    hide HighestEnd;
    if HighestEnd(hs) != 0 {
      var i :| 0 <= i < |hs| && End(hs[i]) == HighestEnd(hs);
      EndAligned(hs[i]);
    }
  }

  lemma EndAligned(h: Node)
    requires WellFormed(h)
    ensures End(h) % BLOCK_SIZE == 0 && End(h) == h.saddr + |h.pool| * BLOCK_SIZE
  {
  }

  lemma SumAligned(a: nat, b: nat)
    requires a % BLOCK_SIZE == 0 && b % BLOCK_SIZE == 0
    ensures (a + b) % BLOCK_SIZE == 0
  {
  }

  lemma AllWithShadow(a: seq<Node>, b: seq<Node>)
    requires |a| == |b| && forall i :: 0 <= i < |a| ==> WellFormed(a[i]) && b[i] == WithShadow(a[i])
    ensures HighestEnd(a) == HighestEnd(b) && forall i :: 0 <= i < |b| ==> WellFormed(b[i])
  {
  }

  /** The pages that `multiheap_ready` has to map. */
  function PagingBlocks(hs: seq<Node>): nat {
    if hs == [] then 0
    else PagingBlocks(hs[..|hs| - 1]) + if hs[|hs| - 1].paging then |hs[|hs| - 1].pool| else 0
  }

  lemma {:induction false} PagingBlocksStep(hs: seq<Node>, i: nat)
    requires i < |hs|
    ensures PagingBlocks(hs[..i + 1]) == PagingBlocks(hs[..i]) + (if hs[i].paging then |hs[i].pool| else 0)
    ensures PagingBlocks(hs[..i + 1]) <= PagingBlocks(hs)
    decreases |hs| - i
  {
    assert hs[..i + 1][..i] == hs[..i];
    if i + 1 < |hs| { PagingBlocksStep(hs, i + 1); } else { assert hs[..i + 1] == hs; }
  }

  /** The processor translates none of `n` pages from `virt` on. */
  ghost predicate Untranslated(s: P.Space, virt: nat, n: nat) {
    forall v :: P.Offset(v, virt) < n ==> !P.Lookup(s, v).present
  }

  lemma MapKeepsUntranslated(s: P.Space, s': P.Space, virt: nat, phys: nat, n: nat, other: nat, m: nat)
    requires P.RangeMapped(s, s', virt, phys, n, P.Flags(false, false, false))
    requires Untranslated(s, other, m) || (other == virt && m == n)
    ensures Untranslated(s', other, m)
  {
    hide P.Lookup, P.Offset;
  }

  lemma CoveredGrows(p: P.Paths, q: P.Paths, virt: nat, n: nat)
    requires P.Covered(p, virt, n) && forall x :: x in p ==> x in q
    ensures P.Covered(q, virt, n)
  {
  }

  lemma PagesOf(start: nat, n: nat)
    ensures P.Pages(start, start + n * BLOCK_SIZE) == n
  {
  }

  /** What `heap_create` has checked of a heap, and the range of its `size_t` counters. */
  ghost predicate WellFormed(h: Node) {
    && h.saddr % BLOCK_SIZE == 0 && |h.pool| == |h.blocks.table| <= 0x7FFF_FFFF
    && h.blocks.used < WORD && h.blocks.free < WORD && h.shadow.used < WORD && h.shadow.free < WORD
  }

  lemma MallocKeepsForm(st: State, n: nat)
    ensures |Malloc(st, n).0.table| == |st.table|
    ensures st.used < WORD && st.free < WORD ==> Malloc(st, n).0.used < WORD && Malloc(st, n).0.free < WORD
  {
  }

  lemma SinglesKeepForm(h: Node, blocks: seq<nat>)
    requires WellFormed(h)
    ensures WellFormed(h.(blocks := Singles(h.blocks, blocks), pool := ZeroedAt(h.pool, blocks)))
    ensures |Singles(h.blocks, blocks).table| == |h.blocks.table|
  {
  }

  lemma CoveredAt(paths: P.Paths, virt: nat, n: nat, i: nat)
    requires P.Covered(paths, virt, n) && i < n
    ensures P.PtPath(virt + i * BLOCK_SIZE) in paths
  {
    assert virt + i * BLOCK_SIZE == virt + i * P.PAGE_SIZE;
  }

  lemma ZeroedOneMore(pool: seq<Block>, all: seq<nat>, i: nat)
    requires i < |all|
    ensures H.Zeroed(ZeroedAt(pool, all[..i]), all[i], 1) == ZeroedAt(pool, all[..i + 1])
  {
  }
}
