/**
 What `multiheap_free` does (memory/heap/multiheap.c), on values: it calls itself for every
 page of a run, and what `multiheap_ready` sets up is what makes that end.
 */
module Freeing {
  import opened Basics
  import opened BlockTable
  import opened HeapList
  import H = Heap
  import P = Paging

  /** Free entries carry no flag. */
  ghost predicate Plain(e: seq<Entry>) {
    forall i :: 0 <= i < |e| && !e[i].taken ==> e[i] == FREE
  }

  /** The paging heap's block that a virtual pointer is in. */
  function ShadowBlock(h: Node, maxEnd: nat, ptr: nat): nat
    requires ptr >= maxEnd + h.saddr
  {
    (ptr - maxEnd - h.saddr) / BLOCK_SIZE
  }

  function ShadowPage(h: Node, maxEnd: nat, block: nat): nat { maxEnd + h.saddr + block * BLOCK_SIZE }

  /** Where `paging_get_physical_address` leads; the null pointer is address 0. */
  function TargetOf(s: P.Space, va: nat): nat {
    match P.PhysicalAddress(s, va)
    case None => 0
    case Some(a) => a
  }

  /** The addresses that freeing the virtual pointer hands back, in order. */
  function Targets(s: P.Space, h: Node, maxEnd: nat, ptr: nat): seq<nat>
    requires ptr >= maxEnd + h.saddr
  {
    var start := ShadowBlock(h, maxEnd, ptr);
    TargetRun(s, ptr + start * BLOCK_SIZE, BlockCount(h.shadow.table, start))
  }

  function TargetRun(s: P.Space, va: nat, n: nat): (r: seq<nat>)
    ensures |r| == n && forall k :: 0 <= k < n ==> r[k] == TargetOf(s, va + k * BLOCK_SIZE)
  {
    if n == 0 then [] else TargetRun(s, va, n - 1) + [TargetOf(s, va + (n - 1) * BLOCK_SIZE)]
  }

  /** The physical branch of `multiheap_free`. */
  function FreeAt(hs: seq<Node>, address: nat): (r: seq<Node>)
    ensures SameShape(hs, r)
  {
    var c := HeapFor(hs, address, 0);
    if c < 0 then hs
    else hs[c := hs[c].(blocks := BlockTable.Free(hs[c].blocks, (address - hs[c].saddr) / BLOCK_SIZE))]
  }

  function FreeAll(hs: seq<Node>, addresses: seq<nat>): (r: seq<Node>)
    ensures SameShape(hs, r)
  {
    if addresses == [] then hs
    else FreeAt(FreeAll(hs, addresses[..|addresses| - 1]), addresses[|addresses| - 1])
  }

  /** Freeing never changes where heaps are and how long they are. */
  predicate SameShape(a: seq<Node>, b: seq<Node>) {
    |a| == |b| && forall i :: 0 <= i < |a| ==>
      a[i].saddr == b[i].saddr && a[i].paging == b[i].paging
      && |a[i].blocks.table| == |b[i].blocks.table| && |a[i].shadow.table| == |b[i].shadow.table|
  }

  /** `n` pages from `virt` on. */
  datatype PageRun = PageRun(virt: nat, n: nat)

  predicate NullIn(nulled: seq<PageRun>, v: nat) {
    nulled != [] &&
    (P.Offset(v, nulled[|nulled| - 1].virt) < nulled[|nulled| - 1].n || NullIn(nulled[..|nulled| - 1], v))
  }

  /** `s'` is `s` with the leaf entries of the pages in `nulled` nulled. */
  ghost predicate NulledFrom(s: P.Space, s': P.Space, nulled: seq<PageRun>) {
    forall v :: P.Lookup(s', v) == if NullIn(nulled, v) then P.NULL_ENTRY else P.Lookup(s, v)
  }

  lemma NothingNulled(s: P.Space)
    ensures NulledFrom(s, s, [])
  {
  }

  lemma NulledOneMore(s: P.Space, s1: P.Space, s2: P.Space, nulled: seq<PageRun>, run: PageRun)
    requires NulledFrom(s, s1, nulled) && H.Unmapped(s1, s2, run.virt, run.n)
    ensures NulledFrom(s, s2, nulled + [run])
  {
    hide P.Lookup, P.Offset;
    assert (nulled + [run])[..|nulled|] == nulled;
    forall v ensures P.Lookup(s2, v) == if NullIn(nulled + [run], v) then P.NULL_ENTRY else P.Lookup(s, v) {
    }
  }

  /** Where `paging_get_physical_address` leads once the pages in `nulled` are nulled. */
  function TargetAfter(s: P.Space, nulled: seq<PageRun>, va: nat): nat {
    if NullIn(nulled, va) && P.Get(s, va).Some? then va % BLOCK_SIZE else TargetOf(s, va)
  }

  lemma TargetAfterNulling(s: P.Space, s': P.Space, paths: P.Paths, nulled: seq<PageRun>, va: nat)
    requires P.Valid(s, paths) && P.Valid(s', paths) && NulledFrom(s, s', nulled)
    ensures TargetOf(s', va) == TargetAfter(s, nulled, va)
  {
    hide P.Valid, P.Lookup, P.Get, NullIn;
    P.GetExact(s, paths, va);
    P.GetExact(s', paths, va);
  }

  lemma SoundIsValid(d: P.PageTables)
    requires d.Sound()
    ensures P.Valid(d.State(), d.paths)
  {
  }

  /** The heaps once something has been freed, and the pages nulled by then. */
  datatype Freed = Freed(heaps: seq<Node>, nulled: seq<PageRun>)

  /** `heap_free` on block `start` of paging heap `p`, whose callback nulls the pages it passes. */
  function RunReleased(f: Freed, maxEnd: nat, p: nat, start: nat): (r: Freed)
    requires p < |f.heaps|
    ensures SameShape(f.heaps, r.heaps)
  {
    var h := f.heaps[p];
    Freed(f.heaps[p := h.(shadow := BlockTable.Free(h.shadow, start))],
          f.nulled + [PageRun(ShadowPage(h, maxEnd, start), Walk(h.shadow.table, start))])
  }

  /**
   `multiheap_free` on values, as far as its calls of itself are nested at most `depth` deep:
   `None` if they are nested deeper.
   */
  function FreeDeep(s: P.Space, maxEnd: nat, hs: seq<Node>, nulled: seq<PageRun>, ptr: nat, depth: nat):
      (r: Option<Freed>)
    ensures r.Some? ==> SameShape(hs, r.value.heaps)
    decreases depth, 1, 0
  {
    var p := PagingFor(hs, maxEnd, ptr);
    if p < 0 then Some(Freed(FreeAt(hs, Physical(maxEnd, ptr)), nulled))
    else
      var start := ShadowBlock(hs[p], maxEnd, ptr);
      var n := BlockCount(hs[p].shadow.table, start);
      match FreeEach(s, maxEnd, hs, nulled, ptr + start * BLOCK_SIZE, n, depth)
      case None => None
      case Some(f) => Some(RunReleased(f, maxEnd, p, start))
  }

  /** The paging heap that a pointer is in, or -1. */
  function PagingFor(hs: seq<Node>, maxEnd: nat, ptr: nat): (p: int)
    ensures p == -1 || (0 <= p < |hs| && hs[p].paging && ptr >= maxEnd && Holds(hs[p], ptr - maxEnd))
  {
    if ptr < maxEnd then -1 else ShadowFor(hs, ptr - maxEnd, 0)
  }

  /** `real_phys_addr`. */
  function Physical(maxEnd: nat, ptr: nat): nat { if ptr < maxEnd then ptr else ptr - maxEnd }

  /** The loop over `n` pages from `va` on. */
  function FreeEach(s: P.Space, maxEnd: nat, hs: seq<Node>, nulled: seq<PageRun>, va: nat, n: nat, depth: nat):
      (r: Option<Freed>)
    ensures r.Some? ==> SameShape(hs, r.value.heaps)
    decreases depth, 0, n
  {
    if n == 0 then Some(Freed(hs, nulled))
    else
      match FreeEach(s, maxEnd, hs, nulled, va, n - 1, depth)
      case None => None
      case Some(f) =>
        if depth == 0 then None
        else FreeDeep(s, maxEnd, f.heaps, f.nulled, TargetAfter(s, f.nulled, va + (n - 1) * BLOCK_SIZE), depth - 1)
  }

  lemma FreeOfPages(s: P.Space, maxEnd: nat, hs: seq<Node>, nulled: seq<PageRun>, ptr: nat, p: nat, depth: nat)
    requires p < |hs| && PagingFor(hs, maxEnd, ptr) == p
    ensures var start := ShadowBlock(hs[p], maxEnd, ptr);
            var n := BlockCount(hs[p].shadow.table, start);
            var each := FreeEach(s, maxEnd, hs, nulled, ptr + start * BLOCK_SIZE, n, depth);
            FreeDeep(s, maxEnd, hs, nulled, ptr, depth) ==
            if each == None then None else Some(RunReleased(each.value, maxEnd, p, start))
  {
    hide FreeEach, PagingFor, BlockTable.Free, BlockCount, Walk, RunReleased;
  }

  lemma FreeOfPhysical(s: P.Space, maxEnd: nat, hs: seq<Node>, nulled: seq<PageRun>, ptr: nat, depth: nat)
    requires PagingFor(hs, maxEnd, ptr) < 0
    ensures FreeDeep(s, maxEnd, hs, nulled, ptr, depth) == Some(Freed(FreeAt(hs, Physical(maxEnd, ptr)), nulled))
  {
    hide FreeAt;
  }

  lemma FreeNone(s: P.Space, maxEnd: nat, hs: seq<Node>, nulled: seq<PageRun>, va: nat, depth: nat)
    ensures FreeEach(s, maxEnd, hs, nulled, va, 0, depth) == Some(Freed(hs, nulled))
  {
  }

  lemma FreeOneMore(s: P.Space, maxEnd: nat, hs: seq<Node>, nulled: seq<PageRun>, va: nat, k: nat, depth: nat)
    ensures var each := FreeEach(s, maxEnd, hs, nulled, va, k, depth);
            FreeEach(s, maxEnd, hs, nulled, va, k + 1, depth) ==
            if each == None || depth == 0 then None
            else
              var f := each.value;
              FreeDeep(s, maxEnd, f.heaps, f.nulled, TargetAfter(s, f.nulled, va + k * BLOCK_SIZE), depth - 1)
  {
  }

  lemma FreeAtKeepsForm(hs: seq<Node>, address: nat)
    requires forall i :: 0 <= i < |hs| ==> WellFormed(hs[i])
    ensures forall i :: 0 <= i < |hs| ==> WellFormed(FreeAt(hs, address)[i])
    ensures forall i :: 0 <= i < |hs| ==> FreeAt(hs, address)[i].shadow == hs[i].shadow
  {
  }

  lemma {:induction false} FreeAllKeepsShadows(hs: seq<Node>, addresses: seq<nat>)
    ensures forall i :: 0 <= i < |hs| ==> FreeAll(hs, addresses)[i].shadow == hs[i].shadow
  {
    if addresses != [] {
      FreeAllKeepsShadows(hs, addresses[..|addresses| - 1]);
    }
  }

  lemma ReleasedForm(hs: seq<Node>, p: nat, start: nat)
    requires p < |hs| && WellFormed(hs[p])
    ensures WellFormed(hs[p].(shadow := BlockTable.Free(hs[p].shadow, start)))
    ensures |BlockTable.Free(hs[p].shadow, start).table| == |hs[p].shadow.table|
  {
  }

  lemma HeapForShape(a: seq<Node>, b: seq<Node>, address: nat, from: nat)
    requires SameShape(a, b)
    ensures HeapFor(a, address, from) == HeapFor(b, address, from)
    decreases |a| - from
  {
    if from < |a| { HeapForShape(a, b, address, from + 1); }
  }

  lemma {:induction false} ShadowForShape(a: seq<Node>, b: seq<Node>, offset: nat, from: nat)
    requires SameShape(a, b)
    ensures ShadowFor(a, offset, from) == ShadowFor(b, offset, from)
    decreases |a| - from
  {
    if from < |a| { ShadowForShape(a, b, offset, from + 1); }
  }

  lemma ShapeParts(a: seq<Node>, b: seq<Node>, c: nat)
    requires SameShape(a, b) && c < |a|
    ensures |a| == |b| && b[c].saddr == a[c].saddr && b[c].paging == a[c].paging
    ensures |b[c].blocks.table| == |a[c].blocks.table|
  {
  }

  lemma BlockBack(saddr: nat, b: nat)
    ensures (saddr + b * BLOCK_SIZE - saddr) / BLOCK_SIZE == b
  {
  }

  lemma FrameOfAddress(saddr: nat, b: nat)
    requires saddr % BLOCK_SIZE == 0 && saddr + b * BLOCK_SIZE < P.FRAME_LIMIT * BLOCK_SIZE
    ensures P.LeafEntry(saddr + b * BLOCK_SIZE, BACKED).frame * P.PAGE_SIZE == saddr + b * BLOCK_SIZE
  {
    var f := saddr / BLOCK_SIZE + b;
    assert saddr + b * BLOCK_SIZE == f * BLOCK_SIZE;
  }

  lemma BackingInside(h: Node, n: nat)
    requires n <= |FreeBlocks(h.blocks.table)|
    ensures var bs := FreeBlocks(h.blocks.table)[..n];
            && (forall j :: 0 <= j < n ==> bs[j] < |h.blocks.table| && !h.blocks.table[bs[j]].taken)
            && (forall j :: 0 <= j < n ==> h.saddr + bs[j] * BLOCK_SIZE < End(h))
            && (forall j, k :: 0 <= j < k < n ==> bs[j] < bs[k])
            && n <= |h.blocks.table|
  {
    var all := FreeBlocks(h.blocks.table);
    forall j | 0 <= j < n ensures all[j] < |h.blocks.table| && !h.blocks.table[all[j]].taken { assert all[j] in all; }
    FreeListCounts(h.blocks.table, 0);
  }

  /** Virtual addresses of 48 bits. */
  const ADDRESS_LIMIT: nat := 0x1_0000_0000_0000

  /** Three times the memory of all heaps can be addressed; paging heaps are no longer than their heaps. */
  predicate Addressable(hs: seq<Node>, maxEnd: nat) {
    3 * maxEnd <= ADDRESS_LIMIT && forall i :: 0 <= i < |hs| ==> Fitting(hs[i], maxEnd)
  }

  predicate Fitting(h: Node, maxEnd: nat) {
    End(h) <= maxEnd && (h.paging ==> |h.shadow.table| <= |h.blocks.table|)
  }

  lemma AddressableKept(hs: seq<Node>, hs': seq<Node>, maxEnd: nat)
    requires SameShape(hs, hs') && Addressable(hs, maxEnd)
    ensures Addressable(hs', maxEnd)
  {
    forall i | 0 <= i < |hs'| ensures Fitting(hs'[i], maxEnd) {
      assert Fitting(hs[i], maxEnd);
    }
  }

  /** The pages that freeing a pointer looks at lie below three times the memory. */
  lemma PagesInside(hs: seq<Node>, maxEnd: nat, ptr: nat, p: nat)
    requires Addressable(hs, maxEnd) && ptr >= maxEnd && p < |hs| && hs[p].paging && Holds(hs[p], ptr - maxEnd)
    ensures var start := ShadowBlock(hs[p], maxEnd, ptr);
            ptr + start * BLOCK_SIZE + BlockCount(hs[p].shadow.table, start) * BLOCK_SIZE <= ADDRESS_LIMIT
  {
    hide Taken, Walk;
    var e, start := hs[p].shadow.table, ShadowBlock(hs[p], maxEnd, ptr);
    var n := BlockCount(e, start);
    assert start <= |hs[p].blocks.table|;
    if start <= |e| {
      assert n <= Walk(e, start) <= |e| - start;
    } else {
      NothingOutside(e, start);
    }
    assert start + n <= |hs[p].blocks.table|;
  }

  lemma NothingOutside(e: seq<Entry>, start: nat)
    requires start > |e|
    ensures BlockCount(e, start) == 0
  {
  }

  /** What a page leads to after the pass: its own pages to their blocks, the others as before. */
  lemma TargetAfterPass(s0: P.Space, s1: P.Space, paths: P.Paths, ptr: nat, saddr: nat, bs: seq<nat>, va: nat)
    requires P.Valid(s0, paths) && P.Valid(s1, paths) && BackedBy(s0, s1, ptr, saddr, bs)
    requires saddr % BLOCK_SIZE == 0
    requires forall k :: 0 <= k < |bs| ==> saddr + bs[k] * BLOCK_SIZE < P.FRAME_LIMIT * BLOCK_SIZE
    ensures var k := P.Offset(va, ptr);
            if k >= |bs| then TargetOf(s1, va) == TargetOf(s0, va)
            else TargetOf(s1, va) == 0 || TargetOf(s1, va) == saddr + bs[k] * BLOCK_SIZE + va % BLOCK_SIZE
  {
    hide P.Valid, P.Lookup, P.Get, P.Offset, P.LeafEntry;
    P.GetExact(s0, paths, va);
    P.GetExact(s1, paths, va);
    var k := P.Offset(va, ptr);
    if k < |bs| { FrameOfAddress(saddr, bs[k]); }
  }

  /** Addresses above the memory lead nowhere or to themselves. */
  ghost predicate PagesReady(s: P.Space, maxEnd: nat) {
    forall va: nat :: maxEnd <= va < ADDRESS_LIMIT ==> P.Lookup(s, va).frame in {0, va / BLOCK_SIZE}
  }

  /** `multiheap_ready` keeps that: it maps the pages of the paging heaps to themselves. */
  lemma ReadyMapsPages(s: P.Space, s': P.Space, hs: seq<Node>, maxEnd: nat)
    requires PagingMapped(s, s', hs, maxEnd) && maxEnd % BLOCK_SIZE == 0
    requires PagesReady(s, maxEnd)
    requires forall i :: 0 <= i < |hs| ==> WellFormed(hs[i]) && maxEnd + End(hs[i]) <= ADDRESS_LIMIT
    ensures PagesReady(s', maxEnd)
  {
    hide P.Lookup, P.Offset, P.LeafEntry;
    forall va: nat | maxEnd <= va < ADDRESS_LIMIT ensures P.Lookup(s', va).frame in {0, va / BLOCK_SIZE} {
      if P.Lookup(s', va) != P.Lookup(s, va) {
        var i :| 0 <= i < |hs| && MappedToItself(s', hs[i], maxEnd, va);
        SumAligned(maxEnd, hs[i].saddr);
        assert maxEnd + End(hs[i]) <= ADDRESS_LIMIT;
        OwnPage(maxEnd + hs[i].saddr, |hs[i].pool|, va);
      }
    }
  }

  lemma OwnPage(start: nat, n: nat, va: nat)
    requires start % BLOCK_SIZE == 0 && start + n * BLOCK_SIZE <= ADDRESS_LIMIT
    requires va < ADDRESS_LIMIT && P.Offset(va, start) < n
    ensures P.LeafEntry(start + P.Offset(va, start) * BLOCK_SIZE, H.NO_FLAGS).frame == va / BLOCK_SIZE
  {
    var k, q := P.Offset(va, start), start / BLOCK_SIZE;
    assert start == q * BLOCK_SIZE;
    assert q + k < P.PAGE_NUMBERS;
    assert (start + k * BLOCK_SIZE) / BLOCK_SIZE == q + k;
    assert va / BLOCK_SIZE == q + k;
  }

  // --------------------------------------------------------- the recursion ends

  /** Freeing the address looks at no further page. */
  predicate Calm(hs: seq<Node>, maxEnd: nat, t: nat) {
    var p := PagingFor(hs, maxEnd, t);
    p >= 0 ==> BlockCount(hs[p].shadow.table, ShadowBlock(hs[p], maxEnd, t)) == 0
  }

  /** Every address in a page of a taken block of the paging heap leads to memory. */
  ghost predicate TakenLead(h: Node, maxEnd: nat, s: P.Space, nulled: seq<PageRun>) {
    forall va: nat :: maxEnd + h.saddr <= va && TakenAt(h, ShadowBlock(h, maxEnd, va)) ==>
      TargetAfter(s, nulled, va) < maxEnd
  }

  predicate TakenAt(h: Node, j: nat) { j < |h.shadow.table| && h.shadow.table[j].taken }

  /** Where an address may lead that is not in memory: to no page, to memory or to itself. */
  predicate Leads(maxEnd: nat, va: nat, t: nat) { t < BLOCK_SIZE || t < maxEnd || t == va }

  /**
   What `multiheap_ready` brings about, and allocating and freeing keep: the paging heaps lie
   above all memory; their taken pages lead to memory, and all other addresses there to
   themselves if anywhere else.
   */
  ghost predicate Settled(hs: seq<Node>, maxEnd: nat, s: P.Space, nulled: seq<PageRun>) {
    && maxEnd % BLOCK_SIZE == 0 && Addressable(hs, maxEnd)
    && (forall va: nat :: maxEnd <= va < ADDRESS_LIMIT ==> Leads(maxEnd, va, TargetAfter(s, nulled, va)))
    && (forall i :: 0 <= i < |hs| && hs[i].paging ==>
          Plain(hs[i].shadow.table) && TakenLead(hs[i], maxEnd, s, nulled))
  }

  /** A block that is not taken counts for nothing. */
  lemma FreeCountsNothing(e: seq<Entry>, j: nat)
    requires Plain(e) && (j < |e| ==> !e[j].taken)
    ensures BlockCount(e, j) == 0
  {
    if j < |e| {
      assert Walk(e, j) == 1;
      assert Taken(e, j, j) == 0;
    }
  }

  /** An address that leads to itself is in no taken page, so freeing it looks no further. */
  lemma LeadsCalm(hs: seq<Node>, maxEnd: nat, s: P.Space, nulled: seq<PageRun>, va: nat)
    requires Settled(hs, maxEnd, s, nulled) && maxEnd <= va < ADDRESS_LIMIT
    ensures Calm(hs, maxEnd, TargetAfter(s, nulled, va))
  {
    hide TargetAfter, BlockCount;
    var t := TargetAfter(s, nulled, va);
    var p := PagingFor(hs, maxEnd, t);
    assert Leads(maxEnd, va, t);
    if p >= 0 {
      var h, j := hs[p], ShadowBlock(hs[p], maxEnd, t);
      assert TakenLead(h, maxEnd, s, nulled);
      if t != va {
        assert End(h) <= maxEnd == 0;
      }
      assert !TakenAt(h, j);
      FreeCountsNothing(h.shadow.table, j);
    }
  }

  /** What is calm is freed alike at every depth. */
  lemma CalmIsFlat(s: P.Space, maxEnd: nat, hs: seq<Node>, nulled: seq<PageRun>, t: nat, depth: nat)
    requires Calm(hs, maxEnd, t)
    ensures FreeDeep(s, maxEnd, hs, nulled, t, depth) == FreeDeep(s, maxEnd, hs, nulled, t, 0)
    ensures FreeDeep(s, maxEnd, hs, nulled, t, 0).Some?
  {
    hide FreeDeep, FreeEach, BlockCount, PagingFor;
    var p := PagingFor(hs, maxEnd, t);
    if p < 0 {
      FreeOfPhysical(s, maxEnd, hs, nulled, t, depth);
      FreeOfPhysical(s, maxEnd, hs, nulled, t, 0);
    } else {
      var start := ShadowBlock(hs[p], maxEnd, t);
      FreeOfPages(s, maxEnd, hs, nulled, t, p, depth);
      FreeOfPages(s, maxEnd, hs, nulled, t, p, 0);
      FreeNone(s, maxEnd, hs, nulled, t + start * BLOCK_SIZE, depth);
      FreeNone(s, maxEnd, hs, nulled, t + start * BLOCK_SIZE, 0);
    }
  }

  /** `h1` is `h` with some blocks of the paging heap released. */
  ghost predicate LessTaken(h: Node, h1: Node) {
    && h1.saddr == h.saddr && Plain(h1.shadow.table)
    && forall j: nat :: TakenAt(h1, j) ==> TakenAt(h, j)
  }

  /** Freeing nulls pages and clears entries, which unsettles nothing. */
  lemma SettledStays(hs: seq<Node>, hs': seq<Node>, maxEnd: nat, s: P.Space,
                     nulled: seq<PageRun>, nulled': seq<PageRun>)
    requires Settled(hs, maxEnd, s, nulled) && SameShape(hs, hs')
    requires forall i :: 0 <= i < |hs| && hs[i].paging ==> LessTaken(hs[i], hs'[i])
    requires forall v :: NullIn(nulled, v) ==> NullIn(nulled', v)
    ensures Settled(hs', maxEnd, s, nulled')
  {
    AddressableKept(hs, hs', maxEnd);
    hide NullIn, P.Get, TargetOf, Addressable, SameShape;
    forall va: nat | maxEnd <= va < ADDRESS_LIMIT ensures Leads(maxEnd, va, TargetAfter(s, nulled', va)) {
      assert Leads(maxEnd, va, TargetAfter(s, nulled, va));
    }
    forall i | 0 <= i < |hs'| && hs'[i].paging
      ensures Plain(hs'[i].shadow.table) && TakenLead(hs'[i], maxEnd, s, nulled')
    {
      ShapeParts(hs, hs', i);
      TakenStillLead(hs[i], hs'[i], maxEnd, s, nulled, nulled');
    }
  }

  lemma TakenStillLead(h: Node, h1: Node, maxEnd: nat, s: P.Space, nulled: seq<PageRun>, nulled': seq<PageRun>)
    requires TakenLead(h, maxEnd, s, nulled) && LessTaken(h, h1) && maxEnd % BLOCK_SIZE == 0
    requires |h1.shadow.table| <= |h1.blocks.table| && End(h1) <= maxEnd
    requires forall v :: NullIn(nulled, v) ==> NullIn(nulled', v)
    ensures TakenLead(h1, maxEnd, s, nulled')
  {
    hide NullIn, P.Get, TargetOf;
    forall va: nat | maxEnd + h1.saddr <= va && TakenAt(h1, ShadowBlock(h1, maxEnd, va))
      ensures TargetAfter(s, nulled', va) < maxEnd
    {
      assert TakenAt(h, ShadowBlock(h, maxEnd, va));
      assert TargetAfter(s, nulled, va) < maxEnd;
    }
  }
  lemma FreeAtKeepsShadows(hs: seq<Node>, address: nat)
    ensures forall i :: 0 <= i < |hs| ==> FreeAt(hs, address)[i].shadow == hs[i].shadow
  {
    hide BlockTable.Free, HeapFor;
  }

  lemma ReleasedTakesLess(h: Node, start: nat)
    requires Plain(h.shadow.table)
    ensures LessTaken(h, h.(shadow := BlockTable.Free(h.shadow, start)))
  {
    hide Walk, U64;
  }

  lemma SameTaken(h: Node, h1: Node)
    requires Plain(h.shadow.table) && h1.shadow == h.shadow && h1.saddr == h.saddr
    ensures LessTaken(h, h1)
  {
  }

  lemma MoreNulled(nulled: seq<PageRun>, run: PageRun)
    ensures forall v :: NullIn(nulled, v) ==> NullIn(nulled + [run], v)
  {
    assert (nulled + [run])[..|nulled|] == nulled;
    hide P.Offset;
  }

  /** Releasing a run of a paging heap. */
  lemma ReleaseSettles(f: Freed, maxEnd: nat, s: P.Space, p: nat, start: nat)
    requires Settled(f.heaps, maxEnd, s, f.nulled) && p < |f.heaps| && f.heaps[p].paging
    ensures var r := RunReleased(f, maxEnd, p, start); Settled(r.heaps, maxEnd, s, r.nulled)
  {
    var r, h := RunReleased(f, maxEnd, p, start), f.heaps[p];
    MoreNulled(f.nulled, PageRun(ShadowPage(h, maxEnd, start), Walk(h.shadow.table, start)));
    hide Walk, NullIn, BlockTable.Free, TakenLead;
    forall i | 0 <= i < |f.heaps| && f.heaps[i].paging ensures LessTaken(f.heaps[i], r.heaps[i]) {
      if i == p { ReleasedTakesLess(h, start); } else { SameTaken(f.heaps[i], r.heaps[i]); }
    }
    SettledStays(f.heaps, r.heaps, maxEnd, s, f.nulled, r.nulled);
  }

  lemma PhysicalFreeSettles(hs: seq<Node>, maxEnd: nat, s: P.Space, nulled: seq<PageRun>, address: nat)
    requires Settled(hs, maxEnd, s, nulled)
    ensures Settled(FreeAt(hs, address), maxEnd, s, nulled)
  {
    FreeAtKeepsShadows(hs, address);
    hide FreeAt, TakenLead, NullIn;
    var hs' := FreeAt(hs, address);
    forall i | 0 <= i < |hs| && hs[i].paging ensures LessTaken(hs[i], hs'[i]) {
      ShapeParts(hs, hs', i);
      SameTaken(hs[i], hs'[i]);
    }
    SettledStays(hs, hs', maxEnd, s, nulled, nulled);
  }

  lemma FlatSettles(s: P.Space, maxEnd: nat, hs: seq<Node>, nulled: seq<PageRun>, t: nat)
    requires Settled(hs, maxEnd, s, nulled) && Calm(hs, maxEnd, t)
    ensures var f := FreeDeep(s, maxEnd, hs, nulled, t, 0);
            f.Some? && Settled(f.value.heaps, maxEnd, s, f.value.nulled)
  {
    hide Settled, FreeDeep, FreeEach, PagingFor, BlockCount, RunReleased, FreeAt;
    var p := PagingFor(hs, maxEnd, t);
    if p < 0 {
      FreeOfPhysical(s, maxEnd, hs, nulled, t, 0);
      PhysicalFreeSettles(hs, maxEnd, s, nulled, Physical(maxEnd, t));
    } else {
      var start := ShadowBlock(hs[p], maxEnd, t);
      FreeOfPages(s, maxEnd, hs, nulled, t, p, 0);
      FreeNone(s, maxEnd, hs, nulled, t + start * BLOCK_SIZE, 0);
      ReleaseSettles(Freed(hs, nulled), maxEnd, s, p, start);
    }
  }

  lemma {:induction false} EachEnds(s: P.Space, maxEnd: nat, hs: seq<Node>, nulled: seq<PageRun>, va: nat, n: nat)
    requires Settled(hs, maxEnd, s, nulled) && maxEnd <= va && va + n * BLOCK_SIZE <= ADDRESS_LIMIT
    ensures var f := FreeEach(s, maxEnd, hs, nulled, va, n, 1);
            f.Some? && Settled(f.value.heaps, maxEnd, s, f.value.nulled)
    decreases n
  {
    hide Settled, FreeDeep, FreeEach, TargetAfter, Calm;
    if n == 0 {
      FreeNone(s, maxEnd, hs, nulled, va, 1);
    } else {
      EachEnds(s, maxEnd, hs, nulled, va, n - 1);
      FreeOneMore(s, maxEnd, hs, nulled, va, n - 1, 1);
      var f, page := FreeEach(s, maxEnd, hs, nulled, va, n - 1, 1).value, va + (n - 1) * BLOCK_SIZE;
      LeadsCalm(f.heaps, maxEnd, s, f.nulled, page);
      FlatSettles(s, maxEnd, f.heaps, f.nulled, TargetAfter(s, f.nulled, page));
    }
  }

  /**
   In a settled allocator `multiheap_free` ends whatever pointer it is given: the calls it
   makes of itself make none.  And it leaves the allocator settled.
   */
  lemma FreeEnds(s: P.Space, maxEnd: nat, hs: seq<Node>, nulled: seq<PageRun>, ptr: nat)
    requires Settled(hs, maxEnd, s, nulled)
    ensures var f := FreeDeep(s, maxEnd, hs, nulled, ptr, 1);
            f.Some? && Settled(f.value.heaps, maxEnd, s, f.value.nulled)
  {
    hide Settled, FreeDeep, FreeEach, PagingFor, BlockCount, RunReleased, FreeAt;
    var p := PagingFor(hs, maxEnd, ptr);
    if p < 0 {
      FreeOfPhysical(s, maxEnd, hs, nulled, ptr, 1);
      PhysicalFreeSettles(hs, maxEnd, s, nulled, Physical(maxEnd, ptr));
    } else {
      var start := ShadowBlock(hs[p], maxEnd, ptr);
      var n := BlockCount(hs[p].shadow.table, start);
      FreeOfPages(s, maxEnd, hs, nulled, ptr, p, 1);
      assert Addressable(hs, maxEnd) by { SettledAddresses(hs, maxEnd, s, nulled); }
      PagesInside(hs, maxEnd, ptr, p);
      EachEnds(s, maxEnd, hs, nulled, ptr + start * BLOCK_SIZE, n);
      var f := FreeEach(s, maxEnd, hs, nulled, ptr + start * BLOCK_SIZE, n, 1).value;
      ShapeParts(hs, f.heaps, p);
      ReleaseSettles(f, maxEnd, s, p, start);
    }
  }

  lemma SettledAddresses(hs: seq<Node>, maxEnd: nat, s: P.Space, nulled: seq<PageRun>)
    requires Settled(hs, maxEnd, s, nulled)
    ensures Addressable(hs, maxEnd)
  {
  }

  /** A free that has ended at some depth ends alike at every greater one. */
  lemma {:induction false} DeeperIsSame(s: P.Space, maxEnd: nat, hs: seq<Node>, nulled: seq<PageRun>, ptr: nat,
                                        depth: nat, more: nat)
    requires depth <= more && FreeDeep(s, maxEnd, hs, nulled, ptr, depth).Some?
    ensures FreeDeep(s, maxEnd, hs, nulled, ptr, more) == FreeDeep(s, maxEnd, hs, nulled, ptr, depth)
    decreases depth, 1, 0
  {
    hide FreeDeep, FreeEach, PagingFor, BlockCount, RunReleased, FreeAt;
    var p := PagingFor(hs, maxEnd, ptr);
    if p < 0 {
      FreeOfPhysical(s, maxEnd, hs, nulled, ptr, depth);
      FreeOfPhysical(s, maxEnd, hs, nulled, ptr, more);
    } else {
      var start := ShadowBlock(hs[p], maxEnd, ptr);
      FreeOfPages(s, maxEnd, hs, nulled, ptr, p, depth);
      FreeOfPages(s, maxEnd, hs, nulled, ptr, p, more);
      EachDeeperIsSame(s, maxEnd, hs, nulled, ptr + start * BLOCK_SIZE, BlockCount(hs[p].shadow.table, start), depth,
        more);
    }
  }

  lemma {:induction false} EachDeeperIsSame(s: P.Space, maxEnd: nat, hs: seq<Node>, nulled: seq<PageRun>, va: nat,
                                            n: nat, depth: nat, more: nat)
    requires depth <= more && FreeEach(s, maxEnd, hs, nulled, va, n, depth).Some?
    ensures FreeEach(s, maxEnd, hs, nulled, va, n, more) == FreeEach(s, maxEnd, hs, nulled, va, n, depth)
    decreases depth, 0, n
  {
    hide FreeDeep, FreeEach, TargetAfter;
    if n == 0 {
      FreeNone(s, maxEnd, hs, nulled, va, depth);
      FreeNone(s, maxEnd, hs, nulled, va, more);
    } else {
      FreeOneMore(s, maxEnd, hs, nulled, va, n - 1, depth);
      FreeOneMore(s, maxEnd, hs, nulled, va, n - 1, more);
      EachDeeperIsSame(s, maxEnd, hs, nulled, va, n - 1, depth, more);
      var f := FreeEach(s, maxEnd, hs, nulled, va, n - 1, depth).value;
      DeeperIsSame(s, maxEnd, f.heaps, f.nulled, TargetAfter(s, f.nulled, va + (n - 1) * BLOCK_SIZE), depth - 1,
        more - 1);
    }
  }

  /** So in a settled allocator the result does not depend on how deep one is willing to look. */
  lemma FreeEndsAtDepthOne(s: P.Space, maxEnd: nat, hs: seq<Node>, nulled: seq<PageRun>, ptr: nat, depth: nat)
    requires Settled(hs, maxEnd, s, nulled) && depth > 0
    ensures FreeDeep(s, maxEnd, hs, nulled, ptr, depth) == FreeDeep(s, maxEnd, hs, nulled, ptr, 1)
    ensures FreeDeep(s, maxEnd, hs, nulled, ptr, depth).Some?
  {
    hide Settled, FreeDeep;
    FreeEnds(s, maxEnd, hs, nulled, ptr);
    DeeperIsSame(s, maxEnd, hs, nulled, ptr, 1, depth);
  }

  /** Without that it need not end: a taken page that leads to itself is freed for ever. */
  lemma {:induction false} OwnPageNeverEnds(s: P.Space, maxEnd: nat, hs: seq<Node>, p: nat, ptr: nat, depth: nat)
    requires p < |hs| && ptr == maxEnd + hs[p].saddr && PagingFor(hs, maxEnd, ptr) == p
    requires BlockCount(hs[p].shadow.table, 0) > 0 && TargetOf(s, ptr) == ptr
    ensures FreeDeep(s, maxEnd, hs, [], ptr, depth) == None
    decreases depth
  {
    hide FreeDeep, FreeEach, PagingFor, BlockCount, TargetOf;
    var n := BlockCount(hs[p].shadow.table, 0);
    FreeOfPages(s, maxEnd, hs, [], ptr, p, depth);
    FreeNone(s, maxEnd, hs, [], ptr, depth);
    FreeOneMore(s, maxEnd, hs, [], ptr, 0, depth);
    if depth > 0 { OwnPageNeverEnds(s, maxEnd, hs, p, ptr, depth - 1); }
    NoneStays(s, maxEnd, hs, [], ptr, 1, n, depth);
  }

  lemma {:induction false} NoneStays(s: P.Space, maxEnd: nat, hs: seq<Node>, nulled: seq<PageRun>, va: nat, some: nat,
                                     n: nat, depth: nat)
    requires some <= n && FreeEach(s, maxEnd, hs, nulled, va, some, depth) == None
    ensures FreeEach(s, maxEnd, hs, nulled, va, n, depth) == None
    decreases n
  {
    hide FreeDeep, FreeEach;
    if some < n {
      NoneStays(s, maxEnd, hs, nulled, va, some, n - 1, depth);
      FreeOneMore(s, maxEnd, hs, nulled, va, n - 1, depth);
    }
  }

  // ------------------------------------------------------- how it gets settled

  /** The same, seen from the translations as they are after the nulling. */
  lemma SettledHere(hs: seq<Node>, maxEnd: nat, s: P.Space, s': P.Space, paths: P.Paths, nulled: seq<PageRun>)
    requires Settled(hs, maxEnd, s, nulled)
    requires P.Valid(s, paths) && P.Valid(s', paths) && NulledFrom(s, s', nulled)
    ensures Settled(hs, maxEnd, s', [])
  {
    hide P.Valid, NulledFrom, TargetOf, NullIn, P.Get;
    forall va ensures TargetAfter(s', [], va) == TargetAfter(s, nulled, va) {
      TargetAfterNulling(s, s', paths, nulled, va);
      NothingNullIn(va);
    }
    forall i | 0 <= i < |hs| && hs[i].paging ensures TakenLead(hs[i], maxEnd, s', []) {
    }
  }

  lemma NothingNullIn(v: nat)
    ensures !NullIn([], v)
  {
  }

  /** A first pass, which takes blocks of a heap and touches no paging heap. */
  lemma FirstPassSettles(hs: seq<Node>, c: nat, st: State, maxEnd: nat, s: P.Space)
    requires Settled(hs, maxEnd, s, []) && c < |hs| && |st.table| == |hs[c].blocks.table|
    ensures Settled(hs[c := hs[c].(blocks := st)], maxEnd, s, [])
  {
    var hs' := hs[c := hs[c].(blocks := st)];
    hide TakenLead, NullIn;
    forall i | 0 <= i < |hs| && hs[i].paging ensures LessTaken(hs[i], hs'[i]) {
      SameTaken(hs[i], hs'[i]);
    }
    SettledStays(hs, hs', maxEnd, s, [], []);
  }

  /** A second pass, which backs the pages it takes. */
  lemma PassSettles(hs: seq<Node>, c: nat, n: nat, maxEnd: nat, s0: P.Space, s1: P.Space, paths: P.Paths)
    requires Settled(hs, maxEnd, s0, []) && c < |hs| && n <= |FreeBlocks(hs[c].blocks.table)|
    requires hs[c].saddr % BLOCK_SIZE == 0 && Malloc(hs[c].shadow, n).1 >= 0
    requires P.Valid(s0, paths) && P.Valid(s1, paths)
    requires var virt := ShadowPage(hs[c], maxEnd, Malloc(hs[c].shadow, n).1);
             BackedBy(s0, s1, virt, hs[c].saddr, FreeBlocks(hs[c].blocks.table)[..n])
    ensures Settled(hs[c := Defragmented(hs[c], n, FreeBlocks(hs[c].blocks.table)[..n])], maxEnd, s1, [])
  {
    hide P.Valid, BackedBy, FreeBlocks, Malloc, TargetOf, P.Offset, Singles, ZeroedAt, TakenLead;
    var h, bs, s := hs[c], FreeBlocks(hs[c].blocks.table)[..n], Malloc(hs[c].shadow, n).1;
    var virt, hs' := ShadowPage(h, maxEnd, s), hs[c := Defragmented(h, n, bs)];
    BackingInside(h, n);
    assert SameShape(hs, hs') by { DefragmentedShape(h, n, bs); }
    AddressableKept(hs, hs', maxEnd);
    assert End(h) <= maxEnd;
    forall va: nat ensures PageAfterPass(maxEnd, s0, s1, virt, n, va) {
      TargetAfterPass(s0, s1, paths, virt, h.saddr, bs, va);
      BackedInMemory(h, maxEnd, bs, P.Offset(va, virt), va);
      NothingNullIn(va);
    }
    forall va: nat | maxEnd <= va < ADDRESS_LIMIT ensures Leads(maxEnd, va, TargetAfter(s1, [], va)) {
      assert PageAfterPass(maxEnd, s0, s1, virt, n, va);
      assert Leads(maxEnd, va, TargetAfter(s0, [], va));
    }
    forall i | 0 <= i < |hs'| && hs'[i].paging
      ensures Plain(hs'[i].shadow.table) && TakenLead(hs'[i], maxEnd, s1, [])
    {
      assert TakenLead(hs[i], maxEnd, s0, []);
      if i == c {
        OwnPagesLead(h, n, maxEnd, s0, s1, bs);
      } else {
        OtherPagesLead(hs[i], maxEnd, s0, s1, virt, n);
      }
    }
  }

  /** After the pass a page leads to memory, or where it led. */
  predicate PageAfterPass(maxEnd: nat, s0: P.Space, s1: P.Space, virt: nat, n: nat, va: nat) {
    var t := TargetAfter(s1, [], va);
    (t < maxEnd) || (P.Offset(va, virt) >= n && t == TargetAfter(s0, [], va))
  }

  lemma DefragmentedShape(h: Node, n: nat, bs: seq<nat>)
    ensures var h1 := Defragmented(h, n, bs);
            && h1.saddr == h.saddr && h1.paging == h.paging && h1.shadow == Malloc(h.shadow, n).0
            && |h1.blocks.table| == |h.blocks.table| && |h1.shadow.table| == |h.shadow.table|
  {
    MallocKeepsForm(h.shadow, n);
    hide Malloc;
  }

  lemma BackedInMemory(h: Node, maxEnd: nat, bs: seq<nat>, k: nat, va: nat)
    requires End(h) <= maxEnd && forall j :: 0 <= j < |bs| ==> bs[j] < |h.blocks.table|
    ensures k < |bs| ==> 0 < maxEnd && h.saddr + bs[k] * BLOCK_SIZE + va % BLOCK_SIZE < maxEnd
  {
    if k < |bs| { InsideEnd(h, bs[k], va % BLOCK_SIZE); }
  }

  lemma InsideEnd(h: Node, b: nat, off: nat)
    requires b < |h.blocks.table| && off < BLOCK_SIZE
    ensures h.saddr + b * BLOCK_SIZE + off < End(h)
  {
  }

  lemma OtherPagesLead(h: Node, maxEnd: nat, s0: P.Space, s1: P.Space, virt: nat, n: nat)
    requires TakenLead(h, maxEnd, s0, []) && forall va: nat :: PageAfterPass(maxEnd, s0, s1, virt, n, va)
    ensures TakenLead(h, maxEnd, s1, [])
  {
    hide TargetAfter, P.Offset;
    forall va: nat | maxEnd + h.saddr <= va && TakenAt(h, ShadowBlock(h, maxEnd, va))
      ensures TargetAfter(s1, [], va) < maxEnd
    {
      assert PageAfterPass(maxEnd, s0, s1, virt, n, va);
      assert TargetAfter(s0, [], va) < maxEnd;
    }
  }

  lemma OwnPagesLead(h: Node, n: nat, maxEnd: nat, s0: P.Space, s1: P.Space, bs: seq<nat>)
    requires TakenLead(h, maxEnd, s0, []) && Plain(h.shadow.table) && Malloc(h.shadow, n).1 >= 0
    requires |h.shadow.table| <= |h.blocks.table| && End(h) <= maxEnd && 3 * maxEnd <= ADDRESS_LIMIT
    requires h.saddr % BLOCK_SIZE == 0 && maxEnd % BLOCK_SIZE == 0
    requires var virt := ShadowPage(h, maxEnd, Malloc(h.shadow, n).1);
             forall va: nat :: PageAfterPass(maxEnd, s0, s1, virt, n, va)
    ensures Plain(Defragmented(h, n, bs).shadow.table) && TakenLead(Defragmented(h, n, bs), maxEnd, s1, [])
  {
    hide TargetAfter, P.Offset, FirstFit, Singles, ZeroedAt;
    MallocWhenFits(h.shadow, n);
    SumAligned(maxEnd, h.saddr);
    var h1, s := Defragmented(h, n, bs), Malloc(h.shadow, n).1;
    var virt := ShadowPage(h, maxEnd, s);
    forall va: nat | maxEnd + h1.saddr <= va && TakenAt(h1, ShadowBlock(h1, maxEnd, va))
      ensures TargetAfter(s1, [], va) < maxEnd
    {
      var j := ShadowBlock(h, maxEnd, va);
      assert PageAfterPass(maxEnd, s0, s1, virt, n, va);
      if s <= j < s + n {
        OffsetInRun(h, maxEnd, s, j, va);
      } else {
        assert TakenAt(h, j);
        assert TargetAfter(s0, [], va) < maxEnd;
      }
    }
  }

  lemma OffsetInRun(h: Node, maxEnd: nat, s: nat, j: nat, va: nat)
    requires va >= maxEnd + h.saddr && ShadowBlock(h, maxEnd, va) == j && s <= j < P.PAGE_NUMBERS
    requires (maxEnd + h.saddr) % BLOCK_SIZE == 0
    ensures P.Offset(va, ShadowPage(h, maxEnd, s)) == j - s
  {
    var base := maxEnd + h.saddr;
    assert va / BLOCK_SIZE == base / BLOCK_SIZE + j;
    assert (base + s * BLOCK_SIZE + (j - s) * BLOCK_SIZE) / BLOCK_SIZE == base / BLOCK_SIZE + j;
    P.OffsetOfPage(va, ShadowPage(h, maxEnd, s), j - s);
  }

  /** With paging heaps that are empty and pages that lead to themselves, as `multiheap_ready` leaves them. */
  lemma ReadySettles(hs: seq<Node>, maxEnd: nat, s: P.Space, paths: P.Paths)
    requires P.Valid(s, paths) && PagesReady(s, maxEnd) && Addressable(hs, maxEnd) && maxEnd % BLOCK_SIZE == 0
    requires forall i :: 0 <= i < |hs| && hs[i].paging ==> NothingTaken(hs[i].shadow.table)
    ensures Settled(hs, maxEnd, s, [])
  {
    hide P.Valid, P.Lookup, P.Get;
    forall va: nat | maxEnd <= va < ADDRESS_LIMIT ensures Leads(maxEnd, va, TargetAfter(s, [], va)) {
      P.GetExact(s, paths, va);
      assert va / BLOCK_SIZE * BLOCK_SIZE + va % BLOCK_SIZE == va;
      NothingNullIn(va);
    }
    hide TargetAfter;
    forall i | 0 <= i < |hs| && hs[i].paging
      ensures Plain(hs[i].shadow.table) && TakenLead(hs[i], maxEnd, s, [])
    {
      assert NothingTaken(hs[i].shadow.table);
    }
  }

  predicate NothingTaken(e: seq<Entry>) { forall j :: 0 <= j < |e| ==> e[j] == FREE }

  /** `multiheap_ready` as a whole: `a` are the heaps before it and `b` those after it. */
  lemma FreshSettles(s: P.Space, s': P.Space, paths: P.Paths, a: seq<Node>, b: seq<Node>, maxEnd: nat)
    requires P.Valid(s', paths) && PagingMapped(s, s', a, maxEnd) && PagesReady(s, maxEnd)
    requires maxEnd == HighestEnd(a) && 3 * maxEnd <= ADDRESS_LIMIT
    requires |b| == |a| && forall i :: 0 <= i < |a| ==> WellFormed(a[i]) && b[i] == WithShadow(a[i])
    ensures Settled(b, maxEnd, s', [])
  {
    hide P.Valid, P.Lookup, PagingMapped, PagesReady, WellFormed, HighestEnd, Settled;
    MaxEndAligned(a);
    forall i | 0 <= i < |a| ensures maxEnd + End(a[i]) <= ADDRESS_LIMIT && Fitting(b[i], maxEnd) {
      assert End(a[i]) <= maxEnd;
    }
    ReadyMapsPages(s, s', a, maxEnd);
    ReadySettles(b, maxEnd, s', paths);
  }
}
