/**
 Several heaps behind one allocator (memory/heap/multiheap.c).

 When no heap has a long enough run, the second pass reserves a run of virtual pages in
 a heap's shadow "paging heap" and backs every page with any free physical block.
 */
module MultiHeap {
  import opened Basics
  import opened BlockTable
  import opened HeapList
  import opened Freeing
  import H = Heap
  import P = Paging

  datatype Outcome = Null | Panic | Pointer(address: nat)

  class MultiHeap {
    var heaps: seq<Node>
    var ready: bool
    var maxEnd: nat
    const desc: P.PageTables

    /** `multiheap_new`; `desc` stands for the current paging descriptor throughout. */
    constructor (desc: P.PageTables)
      requires desc.Sound()
      ensures this.desc == desc && heaps == [] && !ready && maxEnd == 0 && Valid()
    {
      this.desc, heaps, ready, maxEnd := desc, [], false, 0;
    }

    /** What `heap_create` checked, and in a ready allocator the page tables of the paging heaps. */
    ghost predicate Valid()
      reads this, desc
    {
      && desc.Sound()
      && (forall i :: 0 <= i < |heaps| ==> WellFormed(heaps[i]))
      && (ready ==> forall i :: 0 <= i < |heaps| && heaps[i].paging ==> Premapped(heaps[i]))
    }

    /** What makes freeing end: see `FreeEnds`.  Set up by `Ready`, kept by allocating and freeing. */
    ghost predicate Calmed()
      reads this`heaps, this`maxEnd, desc
    {
      Settled(heaps, maxEnd, desc.State(), [])
    }

    ghost predicate Premapped(h: Node)
      reads this`maxEnd, desc
    {
      |h.shadow.table| == |h.blocks.table| && P.Covered(desc.paths, maxEnd + h.saddr, |h.shadow.table|)
    }

    /** `multiheap_alloc_paging`, on a whole number of blocks. */
    method AllocPaging(n: nat) returns (address: Option<nat>, chosen: nat)
      requires Valid()
      modifies this`heaps
      ensures Valid()
      ensures var hs := old(heaps);
              var c := Choose(hs, n, 0);
              if c < 0 then address == None && heaps == hs
              else
                && chosen == c
                && var (st, s) := Malloc(hs[c].shadow, n);
                && s >= 0 && address == Some(maxEnd + hs[c].saddr + s * BLOCK_SIZE)
                && heaps == hs[c := hs[c].(shadow := st)]
    {
      hide Malloc, FirstFit, P.Covered, P.PageTables.Sound;
      chosen := 0;
      address := None;
      for i := 0 to |heaps|
        invariant heaps == old(heaps) && Choose(heaps, n, 0) == Choose(heaps, n, i)
      {
        if !heaps[i].paging {
          continue;
        }
        if heaps[i].blocks.free < n {
          continue;
        }
        MallocWhenFits(heaps[i].shadow, n);
        MallocKeepsForm(heaps[i].shadow, n);
        var (st, s) := Malloc(heaps[i].shadow, n);
        if s >= 0 {
          address := Some(maxEnd + heaps[i].saddr + s * BLOCK_SIZE);
          heaps := heaps[i := heaps[i].(shadow := st)];
          chosen := i;
          return;
        }
      }
    }

    /**
     The loop of `multiheap_alloc_second_pass`.  `ok` is false where the code panics: the
     heap has run out of blocks, with the pages before that one already backed.
     */
    method BackPages(c: nat, virt: nat, n: nat) returns (ok: bool)
      requires Valid() && c < |heaps| && P.Covered(desc.paths, virt, n) && n <= P.PAGE_NUMBERS
      modifies this`heaps, desc
      ensures Valid()
      ensures var h := old(heaps)[c];
              var all := FreeBlocks(h.blocks.table);
              var m := Min(n, |all|);
              && ok == (n <= |all|)
              && heaps == old(heaps)[c := h.(blocks := Singles(h.blocks, all[..m]), pool := ZeroedAt(h.pool, all[..m]))]
              && BackedBy(old(desc.State()), desc.State(), virt, h.saddr, all[..m])
      ensures desc.paths == old(desc.paths) && desc.supply == old(desc.supply)
    {
      hide P.Valid, P.MapPage, P.Lookup, P.PageNumber, P.Offset, P.LeafEntry, P.Covered, BackedBy, Singles, Malloc,
        FreeBlocks, ZeroedAt;
      ghost var h, space := heaps[c], desc.State();
      ghost var all := FreeBlocks(h.blocks.table);
      SinglesNothing(h.blocks, h.pool);
      BackedByNothing(space, virt, h.saddr);
      var current := virt;
      for i := 0 to n
        invariant current == virt + i * BLOCK_SIZE && i <= |all| && desc.Sound()
        invariant heaps ==
                  old(heaps)[c := h.(blocks := Singles(h.blocks, all[..i]), pool := ZeroedAt(h.pool, all[..i]))]
        invariant BackedBy(space, desc.State(), virt, h.saddr, all[..i])
        invariant desc.paths == old(desc.paths) && desc.supply == old(desc.supply)
      {
        ghost var before := desc.State();
        NextSingle(h.blocks, i);
        var (st, block) := Malloc(heaps[c].blocks, 1);
        if block < 0 {
          assert all[..|all|] == all;
          SinglesKeepForm(h, all);
          return false;
        }
        ZeroedOneMore(h.pool, all, i);
        heaps := heaps[c := heaps[c].(blocks := st, pool := H.Zeroed(heaps[c].pool, block, 1))];
        CoveredAt(desc.paths, virt, n, i);
        P.MapPageMaps(desc.State(), desc.paths, current, h.saddr + block * BLOCK_SIZE, BACKED);
        desc.Map(current, heaps[c].saddr + block * BLOCK_SIZE, BACKED);
        BackedByOneMore(space, before, desc.State(), virt, h.saddr, all, i);
        current := current + BLOCK_SIZE;
      }
      SinglesKeepForm(h, all[..n]);
      return true;
    }

    /** `multiheap_alloc_second_pass`. */
    method SecondPass(size: nat) returns (outcome: Outcome)
      requires Valid() && ready
      modifies this`heaps, desc
      ensures Valid()
      ensures var hs, n := old(heaps), H.BlocksFor(size);
              var c := Choose(hs, n, 0);
              if c < 0 then outcome == Null && heaps == hs && desc.State() == old(desc.State())
              else
                var s, all := Malloc(hs[c].shadow, n).1, FreeBlocks(hs[c].blocks.table);
                if n <= |all| then
                  && s >= 0 && outcome == Pointer(maxEnd + hs[c].saddr + s * BLOCK_SIZE)
                  && heaps == hs[c := Defragmented(hs[c], n, all[..n])]
                  && BackedBy(old(desc.State()), desc.State(), outcome.address, hs[c].saddr, all[..n])
                  && GavePages(old(desc.State()), desc.State(), hs[c], heaps[c], maxEnd, size, outcome.address)
                else outcome == Panic
      ensures desc.paths == old(desc.paths) && desc.supply == old(desc.supply)
      ensures old(Calmed()) && outcome != Panic ==> Calmed()
    {
      hide P.PageTables.Sound, P.PageTables.State, P.Covered, BackedBy, Singles, FirstFit, FreeBlocks, ZeroedAt,
        H.BlocksFor, Settled, P.Valid, GavePages;
      ghost var space, calm := desc.State(), Calmed();
      SoundIsValid(desc);
      var total := H.BlocksFor(size);
      ghost var hs := heaps;
      var address, c := AllocPaging(total);
      if address == None {
        return Null;
      }
      MallocWhenFits(hs[c].shadow, total);
      ghost var s := Malloc(hs[c].shadow, total).1;
      ShadowCovered(hs[c], s, total);
      var ok := BackPages(c, address.value, total);
      outcome := if ok then Pointer(address.value) else Panic;
      SoundIsValid(desc);
      if ok { SecondGives(space, old(desc.paths), desc.State(), desc.paths, hs[c], maxEnd, size); }
      if ok && calm { PassSettles(hs, c, total, maxEnd, space, desc.State(), desc.paths); }
    }

    /** A run inside a paging heap has its page tables. */
    lemma ShadowCovered(h: Node, s: nat, n: nat)
      requires Premapped(h) && WellFormed(h) && FreeRun(h.shadow.table, s, n)
      ensures P.Covered(desc.paths, maxEnd + h.saddr + s * BLOCK_SIZE, n) && n <= P.PAGE_NUMBERS
    {
      var virt := maxEnd + h.saddr;
      forall k | 0 <= k < n ensures P.PtPath(virt + s * BLOCK_SIZE + k * P.PAGE_SIZE) in desc.paths {
        assert virt + s * BLOCK_SIZE + k * P.PAGE_SIZE == virt + (s + k) * P.PAGE_SIZE;
      }
    }

    /** `multiheap_alloc_first_pass`, which is all of `multiheap_alloc`. */
    method FirstPass(size: nat) returns (outcome: Outcome)
      requires Valid()
      modifies this`heaps
      ensures Valid()
      ensures var hs, n := old(heaps), H.BlocksFor(size);
              var c := FirstRoom(hs, n, 0);
              if c < 0 then outcome == Null && heaps == hs
              else
                var (st, s) := Malloc(hs[c].blocks, n);
                && s >= 0 && outcome == Pointer(hs[c].saddr + s * BLOCK_SIZE)
                && heaps == hs[c := hs[c].(blocks := st)] && GaveRun(hs[c], heaps[c], size, outcome.address)
      ensures old(Calmed()) ==> Calmed()
    {
      hide Malloc, FirstFit, P.Covered, P.PageTables.Sound, H.BlocksFor, Settled, GaveRun;
      var n := H.BlocksFor(size);
      outcome := Null;
      for i := 0 to |heaps|
        invariant heaps == old(heaps) && FirstRoom(heaps, n, 0) == FirstRoom(heaps, n, i)
      {
        MallocWhenFits(heaps[i].blocks, n);
        MallocKeepsForm(heaps[i].blocks, n);
        var (st, s) := Malloc(heaps[i].blocks, n);
        if s >= 0 {
          outcome := Pointer(heaps[i].saddr + s * BLOCK_SIZE);
          FirstGives(heaps[i], size);
          if Calmed() { FirstPassSettles(heaps, i, st, maxEnd, desc.State()); }
          heaps := heaps[i := heaps[i].(blocks := st)];
          return;
        }
      }
    }

    /** `multiheap_palloc`: defragment only when no heap has a run long enough. */
    method Palloc(size: nat) returns (outcome: Outcome)
      requires Valid() && ready
      modifies this`heaps, desc
      ensures Valid()
      ensures var hs, n := old(heaps), H.BlocksFor(size);
              var f, c := FirstRoom(hs, n, 0), Choose(hs, n, 0);
              if f >= 0 then
                var (st, s) := Malloc(hs[f].blocks, n);
                && s >= 0 && outcome == Pointer(hs[f].saddr + s * BLOCK_SIZE)
                && heaps == hs[f := hs[f].(blocks := st)] && desc.State() == old(desc.State())
                && GaveRun(hs[f], heaps[f], size, outcome.address)
              else if c < 0 then outcome == Null && heaps == hs && desc.State() == old(desc.State())
              else
                var s, all := Malloc(hs[c].shadow, n).1, FreeBlocks(hs[c].blocks.table);
                if n <= |all| then
                  && s >= 0 && outcome == Pointer(maxEnd + hs[c].saddr + s * BLOCK_SIZE)
                  && heaps == hs[c := Defragmented(hs[c], n, all[..n])]
                  && BackedBy(old(desc.State()), desc.State(), outcome.address, hs[c].saddr, all[..n])
                  && GavePages(old(desc.State()), desc.State(), hs[c], heaps[c], maxEnd, size, outcome.address)
                else outcome == Panic
      ensures desc.paths == old(desc.paths)
      ensures old(Calmed()) && outcome != Panic ==> Calmed()
    {
      hide P.PageTables.Sound, P.PageTables.State, P.Covered, BackedBy, Malloc, FreeBlocks, Defragmented, H.BlocksFor,
        Settled, GaveRun, GavePages;
      outcome := FirstPass(size);
      if outcome == Null {
        outcome := SecondPass(size);
      }
    }

    /** `multiheap_add_heap`; refused once the allocator is ready. */
    method Add(h: Node) returns (status: P.Status)
      requires Valid() && WellFormed(h)
      modifies this`heaps
      ensures Valid()
      ensures status == (if ready then P.InvalidArgument else P.Ok)
      ensures heaps == if ready then old(heaps) else old(heaps) + [h]
    {
      if ready {
        return P.InvalidArgument;
      }
      heaps := heaps + [h];
      status := P.Ok;
    }

    /** Freeing blocks of a paging heap runs `multiheap_paging_heap_free_block` on each. */
    method UnmapPages(virt: nat, n: nat)
      requires desc.Sound() && P.Covered(desc.paths, virt, n) && n <= P.PAGE_NUMBERS
      modifies desc
      ensures desc.Sound() && desc.paths == old(desc.paths) && desc.supply == old(desc.supply)
      ensures H.Unmapped(old(desc.State()), desc.State(), virt, n)
    {
      hide P.Valid, P.MapPage, P.Lookup, P.PageNumber, P.Offset, P.LeafEntry, P.Covered, H.Unmapped;
      ghost var space := desc.State();
      H.UnmappedNothing(space, virt);
      for i := 0 to n
        invariant desc.Sound() && desc.paths == old(desc.paths) && desc.supply == old(desc.supply)
        invariant H.Unmapped(space, desc.State(), virt, i)
      {
        ghost var before := desc.State();
        CoveredAt(desc.paths, virt, n, i);
        P.MapPageMaps(desc.State(), desc.paths, virt + i * BLOCK_SIZE, 0, H.NO_FLAGS);
        desc.Map(virt + i * BLOCK_SIZE, 0, H.NO_FLAGS);
        UnmappedOneMore(space, before, desc.State(), virt, i);
      }
    }

    /**
     `multiheap_free`.  For a virtual pointer the loop index starts at the block number but
     is added to the pointer itself.  What the recursion needs to end is that the allocator
     is `Calmed`, which it is from `multiheap_ready` on, whatever is allocated and freed.
     */
    method Free(ptr: nat)
      requires Valid() && ready && Calmed()
      modifies this`heaps, desc
      ensures Valid() && Calmed() && SameShape(old(heaps), heaps) && desc.paths == old(desc.paths)
      ensures var f := FreeDeep(old(desc.State()), maxEnd, old(heaps), [], ptr, 1);
              f.Some? && heaps == f.value.heaps && NulledFrom(old(desc.State()), desc.State(), f.value.nulled)
    {
      hide P.PageTables.Sound, P.Valid, FreeDeep, NulledFrom, WellFormed, Settled, Calm;
      ghost var space := desc.State();
      NothingNulled(space);
      SoundIsValid(desc);
      FreeEnds(space, maxEnd, heaps, [], ptr);
      ghost var nulled := FreeFrom(ptr, 1, space, []);
      SoundIsValid(desc);
      SettledHere(heaps, maxEnd, space, desc.State(), desc.paths, nulled);
    }

    /**
     The recursion, on translations of which the pages in `before` have been lost already.
     The calls that `Free` makes of itself are at level 0 and make none.
     */
    method FreeFrom(ptr: nat, ghost level: nat, ghost space: P.Space, ghost before: seq<PageRun>)
        returns (ghost nulled: seq<PageRun>)
      requires Valid() && ready && P.Valid(space, desc.paths) && NulledFrom(space, desc.State(), before)
      requires Settled(heaps, maxEnd, space, before) && (level == 0 ==> Calm(heaps, maxEnd, ptr))
      modifies this`heaps, desc
      ensures Valid() && SameShape(old(heaps), heaps) && desc.paths == old(desc.paths)
      ensures FreeDeep(space, maxEnd, old(heaps), before, ptr, level) == Some(Freed(heaps, nulled))
      ensures NulledFrom(space, desc.State(), nulled) && Settled(heaps, maxEnd, space, nulled)
      decreases level, 2
    {
      hide P.Valid, P.Covered, P.PageTables.Sound, P.PageTables.State, FreeAt, WellFormed, FreeEach, NulledFrom, Walk,
        Settled, BlockCount, FreeDeep, RunReleased;
      nulled := before;
      var p, address := -1, ptr;
      if ptr >= maxEnd {
        p := ShadowFor(heaps, ptr - maxEnd, 0);
        address := ptr - maxEnd;
      }
      if p >= 0 {
        nulled := FreePages(ptr, p, level, space, before);
      } else {
        FreeOfPhysical(space, maxEnd, heaps, before, ptr, level);
        PhysicalFreeSettles(heaps, maxEnd, space, before, address);
        FreeAtKeepsForm(heaps, address);
        heaps := FreeAt(heaps, address);
      }
    }

    /** The virtual branch of `multiheap_free`. */
    method FreePages(ptr: nat, p: nat, ghost level: nat, ghost space: P.Space, ghost before: seq<PageRun>)
      returns (ghost nulled: seq<PageRun>)
      requires Valid() && ready && p < |heaps| && PagingFor(heaps, maxEnd, ptr) == p
      requires P.Valid(space, desc.paths) && NulledFrom(space, desc.State(), before)
      requires Settled(heaps, maxEnd, space, before) && (level == 0 ==> Calm(heaps, maxEnd, ptr))
      modifies this`heaps, desc
      ensures Valid() && SameShape(old(heaps), heaps) && desc.paths == old(desc.paths)
      ensures FreeDeep(space, maxEnd, old(heaps), before, ptr, level) == Some(Freed(heaps, nulled))
      ensures NulledFrom(space, desc.State(), nulled) && Settled(heaps, maxEnd, space, nulled)
      decreases level, 1
    {
      hide P.Valid, P.PageTables.Sound, P.PageTables.State, FreeEach, BlockTable.Free, Walk, H.Unmapped, Premapped,
        WellFormed, BlockCount, NulledFrom, Settled, FreeDeep;
      FreeOfPages(space, maxEnd, heaps, before, ptr, p, level);
      var start := ShadowBlock(heaps[p], maxEnd, ptr);
      var n := BlockCount(heaps[p].shadow.table, start);
      SettledAddresses(heaps, maxEnd, space, before);
      PagesInside(heaps, maxEnd, ptr, p);
      nulled := FreeTargets(ptr + start * BLOCK_SIZE, n, level, space, before);
      ghost var between := desc.State();
      ghost var run := PageRun(ShadowPage(heaps[p], maxEnd, start), Walk(heaps[p].shadow.table, start));
      ReleaseSettles(Freed(heaps, nulled), maxEnd, space, p, start);
      ReleaseShadow(p, start);
      NulledOneMore(space, between, desc.State(), nulled, run);
      nulled := nulled + [run];
    }

    /** The loop over the pages, each handed to `multiheap_free` again. */
    method FreeTargets(va: nat, n: nat, ghost level: nat, ghost space: P.Space, ghost before: seq<PageRun>)
      returns (ghost nulled: seq<PageRun>)
      requires Valid() && ready && P.Valid(space, desc.paths) && NulledFrom(space, desc.State(), before)
      requires Settled(heaps, maxEnd, space, before) && (level == 0 ==> n == 0)
      requires maxEnd <= va && va + n * BLOCK_SIZE <= ADDRESS_LIMIT
      modifies this`heaps, desc
      ensures Valid() && SameShape(old(heaps), heaps) && desc.paths == old(desc.paths)
      ensures FreeEach(space, maxEnd, old(heaps), before, va, n, level) == Some(Freed(heaps, nulled))
      ensures NulledFrom(space, desc.State(), nulled) && Settled(heaps, maxEnd, space, nulled)
      decreases level, 0
    {
      hide P.Valid, P.PhysicalAddress, P.Covered, P.PageTables.Sound, P.PageTables.State, FreeDeep, FreeEach,
        WellFormed, NulledFrom, Settled, Calm, TargetAfter;
      ghost var hs := heaps;
      nulled := before;
      FreeNone(space, maxEnd, hs, before, va, level);
      for k := 0 to n
        invariant Valid() && SameShape(hs, heaps) && desc.paths == old(desc.paths)
        invariant NulledFrom(space, desc.State(), nulled) && Settled(heaps, maxEnd, space, nulled)
        invariant FreeEach(space, maxEnd, hs, before, va, k, level) == Some(Freed(heaps, nulled))
      {
        SoundIsValid(desc);
        ghost var page := va + k * BLOCK_SIZE;
        TargetAfterNulling(space, desc.State(), desc.paths, nulled, page);
        var target := TargetOf(desc.State(), va + k * BLOCK_SIZE);
        FreeOneMore(space, maxEnd, hs, before, va, k, level);
        LeadsCalm(heaps, maxEnd, space, nulled, page);
        CalmIsFlat(space, maxEnd, heaps, nulled, target, level - 1);
        nulled := FreeFrom(target, 0, space, nulled);
      }
    }

    /** `heap_free` on a paging heap, with its callback. */
    method ReleaseShadow(p: nat, start: nat)
      requires Valid() && ready && p < |heaps| && heaps[p].paging
      modifies this`heaps, desc
      ensures Valid() && desc.paths == old(desc.paths)
      ensures heaps == old(heaps)[p := old(heaps)[p].(shadow := BlockTable.Free(old(heaps)[p].shadow, start))]
      ensures SameShape(old(heaps), heaps)
      ensures H.Unmapped(old(desc.State()), desc.State(), ShadowPage(old(heaps)[p], maxEnd, start),
                         Walk(old(heaps)[p].shadow.table, start))
    {
      hide P.Covered, P.PageTables.Sound, P.PageTables.State, BlockTable.Free, H.Unmapped, Walk;
      var h := heaps[p];
      var w := Walk(h.shadow.table, start);
      ReleasedForm(heaps, p, start);
      if start <= |h.shadow.table| {
        ShadowPagesCovered(h, start, w);
      } else {
        NothingCovered(ShadowPage(h, maxEnd, start));
        WalkOutside(h.shadow.table, start);
      }
      heaps := heaps[p := h.(shadow := BlockTable.Free(h.shadow, start))];
      UnmapPages(ShadowPage(h, maxEnd, start), w);
    }

    lemma NothingCovered(virt: nat)
      ensures P.Covered(desc.paths, virt, 0)
    {
    }

    lemma WalkOutside(e: seq<Entry>, i: nat)
      ensures i >= |e| ==> Walk(e, i) == 0
    {
    }

    lemma ShadowPagesCovered(h: Node, start: nat, n: nat)
      requires Premapped(h) && WellFormed(h) && start + n <= |h.shadow.table|
      ensures P.Covered(desc.paths, ShadowPage(h, maxEnd, start), n) && n <= P.PAGE_NUMBERS
    {
      var virt := maxEnd + h.saddr;
      forall k | 0 <= k < n ensures P.PtPath(virt + start * BLOCK_SIZE + k * P.PAGE_SIZE) in desc.paths {
        assert virt + start * BLOCK_SIZE + k * P.PAGE_SIZE == virt + (start + k) * P.PAGE_SIZE;
      }
    }

    /** `multiheap_get_max_memory_end_address`. */
    method MaxEndAddress() returns (max: nat)
      ensures max == HighestEnd(heaps)
    {
      max := 0;
      for i := 0 to |heaps|
        invariant max == HighestEnd(heaps[..i])
      {
        assert heaps[..i + 1][..i] == heaps[..i];
        if End(heaps[i]) >= max {
          max := End(heaps[i]);
        }
      }
      assert heaps[..|heaps|] == heaps;
    }

    /** The paging heap has page tables for all of its pages, and none of them is present. */
    ghost predicate Prepared(h: Node)
      reads this`maxEnd, desc
    {
      h.paging ==> Premapped(h) && Untranslated(desc.State(), maxEnd + h.saddr, |h.pool|)
    }

    /** The mapping `multiheap_ready` makes for one paging heap. */
    method PremapPages(h: Node)
      requires desc.Sound() && h.paging && 3 * |h.pool| <= |desc.supply|
      requires WellFormed(h) && maxEnd % BLOCK_SIZE == 0
      modifies desc
      ensures desc.Sound() && |desc.supply| >= |old(desc.supply)| - 3 * |h.pool|
      ensures Prepared(WithShadow(h))
      ensures forall other: Node :: old(Prepared(other)) ==> Prepared(other)
      ensures P.RangeMapped(old(desc.State()), desc.State(), maxEnd + h.saddr, maxEnd + h.saddr, |h.pool|, H.NO_FLAGS)
    {
      hide P.Valid, P.Lookup, P.Covered, P.Offset, P.RangeMapped, Untranslated, P.PageTables.State;
      EndAligned(h);
      SumAligned(maxEnd, h.saddr);
      SumAligned(maxEnd, End(h));
      var start, n := maxEnd + h.saddr, |h.pool|;
      PagesOf(start, n);
      ghost var before, paths := desc.State(), desc.paths;
      StateSupply(desc);
      var status := desc.MapTo(start, start, maxEnd + End(h), H.NO_FLAGS);
      StateSupply(desc);
      assert status == P.Ok;
      MapKeepsUntranslated(before, desc.State(), start, start, n, start, n);
      forall other: Node | old(Prepared(other)) && other.paging ensures Prepared(other) {
        CoveredGrows(paths, desc.paths, maxEnd + other.saddr, |other.shadow.table|);
        MapKeepsUntranslated(before, desc.State(), start, start, n, maxEnd + other.saddr, |other.pool|);
      }
    }

    /**
     `multiheap_ready`: gives each heap that may be defragmented an empty paging heap above
     all physical memory, and page tables for all of its pages, none of them present.
     */
    method Ready()
      requires Valid() && !ready && 3 * PagingBlocks(heaps) <= |desc.supply|
      modifies this, desc
      ensures Valid() && ready && maxEnd == HighestEnd(heaps)
      ensures |heaps| == |old(heaps)| && forall i :: 0 <= i < |heaps| ==> heaps[i] == WithShadow(old(heaps)[i])
      ensures forall i :: 0 <= i < |heaps| ==> Prepared(heaps[i])
      ensures PagingMapped(old(desc.State()), desc.State(), old(heaps), maxEnd)
      ensures 3 * maxEnd <= ADDRESS_LIMIT && PagesReady(old(desc.State()), maxEnd) ==> Calmed()
    {
      hide P.PageTables.Sound, P.Valid, Settled, PagesReady, Prepared, Empty, End, HighestEnd, PagingBlocks,
        WellFormed, WithShadow, PagingMapped, P.RangeMapped;
      ghost var space := desc.State();
      NothingMapped(space, maxEnd);
      ready := true;
      var max := MaxEndAddress();
      maxEnd := max;
      MaxEndAligned(heaps);
      NothingMapped(space, maxEnd);
      for i := 0 to |heaps|
        invariant ready && maxEnd == HighestEnd(old(heaps)) && desc.Sound() && |heaps| == |old(heaps)|
        invariant forall j :: 0 <= j < |heaps| ==>
          heaps[j] == if j < i then WithShadow(old(heaps)[j]) else old(heaps)[j]
        invariant 3 * (PagingBlocks(old(heaps)) - PagingBlocks(old(heaps)[..i])) <= |desc.supply|
        invariant forall j :: 0 <= j < i ==> Prepared(heaps[j])
        invariant PagingMapped(space, desc.State(), old(heaps)[..i], maxEnd)
      {
        assert old(heaps)[..i + 1][..i] == old(heaps)[..i];
        PagingMappedMore(space, desc.State(), desc.State(), old(heaps)[..i + 1], maxEnd);
        ghost var before := desc.State();
        PagingBlocksStep(old(heaps), i);
        UnpagedNode(heaps[i]);
        if heaps[i].paging {
          PremapPages(heaps[i]);
          PagingMappedMore(space, before, desc.State(), old(heaps)[..i + 1], maxEnd);
          heaps := heaps[i := heaps[i].(shadow := Empty(|heaps[i].blocks.table|))];
        }
      }
      assert old(heaps)[..|heaps|] == old(heaps);
      AllWithShadow(old(heaps), heaps);
      forall i | 0 <= i < |heaps| && heaps[i].paging ensures Premapped(heaps[i]) { PreparedPages(heaps[i]); }
      SoundIsValid(desc);
      if 3 * maxEnd <= ADDRESS_LIMIT && PagesReady(space, maxEnd) {
        FreshSettles(space, desc.State(), desc.paths, old(heaps), heaps, maxEnd);
      }
    }

    lemma UnpagedNode(h: Node)
      ensures WithShadow(h) == if h.paging then h.(shadow := Empty(|h.blocks.table|)) else h
      ensures !h.paging ==> Prepared(h)
    {
    }

    lemma PreparedPages(h: Node)
      requires Prepared(h) && h.paging
      ensures Premapped(h)
    {
    }
  }

  // ---------------------------------------------------------------- theorems

  /**
   With truthful counters the second pass succeeds exactly when some heap that may be
   defragmented has n free blocks and its paging heap n free pages in a row; the heap it
   chooses then never runs out, so the panic is not reached.
   */
  lemma SecondPassSucceeds(hs: seq<Node>, n: nat)
    requires n > 0 && forall i :: 0 <= i < |hs| ==> Accurate(hs[i].blocks)
    ensures var c := Choose(hs, n, 0);
            && (c >= 0 ==> n <= |FreeBlocks(hs[c].blocks.table)|)
            && (c >= 0 <==> exists i, b :: 0 <= i < |hs| && hs[i].paging && n <= |FreeBlocks(hs[i].blocks.table)|
                              && FreeRun(hs[i].shadow.table, b, n))
  {
    forall i | 0 <= i < |hs|
      ensures Eligible(hs[i], n) <==>
              hs[i].paging && n <= |FreeBlocks(hs[i].blocks.table)| && exists b :: FreeRun(hs[i].shadow.table, b, n)
    {
      FreeListCounts(hs[i].blocks.table, 0);
      if Eligible(hs[i], n) {
        assert FreeRun(hs[i].shadow.table, FirstFit(hs[i].shadow.table, n), n);
      }
    }
  }

  /**
   Without truthful counters it is: releasing the open allocation of blocks 1 and 2 counts
   the free block 3 as well, and a request for all four blocks then meets only three.
   */
  lemma PanicIsReachable()
    ensures var st1 := Malloc(Empty(4), 1).0;
            var st2 := Malloc(st1, 2).0;
            var h := Node(0x100_0000, true, Free(st2, 1), [[], [], [], []], Empty(4));
            && Inv(Empty(4), map[])
            && Choose([h], 4, 0) == 0 && |FreeBlocks(h.blocks.table)| == 3
  {
    EmptyHasInv(4);
    var st1 := Malloc(Empty(4), 1).0;
    assert FreeRun(Empty(4).table, 0, 1);
    assert st1.table == [Entry(true, true, false), FREE, FREE, FREE];
    var st2 := Malloc(st1, 2).0;
    assert st1.table[0].taken;
    assert !FreeRun(st1.table, 0, 2) && FreeRun(st1.table, 1, 2);
    assert st2.table == [Entry(true, true, false), Entry(true, true, true), Entry(true, false, true), FREE];
    assert Walk(st2.table, 3) == 1;
    assert Walk(st2.table, 2) == 2;
    assert Walk(st2.table, 1) == 3;
    var st3 := Free(st2, 1);
    assert st3.table == [Entry(true, true, false), FREE, FREE, FREE];
    assert FreeList(st3.table, 4) == [];
    assert FreeList(st3.table, 3) == [3];
    assert FreeList(st3.table, 2) == [2, 3];
    assert FreeList(st3.table, 1) == [1, 2, 3];
    assert FreeRun(Empty(4).table, 0, 4);
  }

  function WithSingles(live: map<nat, nat>, blocks: seq<nat>): (r: map<nat, nat>)
    ensures r.Keys == live.Keys + set b | b in blocks
  {
    if blocks == [] then live else WithSingles(live, blocks[..|blocks| - 1])[blocks[|blocks| - 1] := 1]
  }

  /** The backing blocks become allocations of their own, all of them closed. */
  lemma {:induction false} SinglesKeepInv(st: State, live: map<nat, nat>, m: nat)
    requires Inv(st, live) && m <= |FreeBlocks(st.table)|
    ensures var bs := FreeBlocks(st.table)[..m];
            var live' := WithSingles(live, bs);
            && Inv(Singles(st, bs), live')
            && ClosedAsBefore(st.table, live, Singles(st, bs).table, live')
  {
    hide Inv, ClosedAsBefore, Singles, Malloc, FreeBlocks, Closed;
    var all := FreeBlocks(st.table);
    if m == 0 {
      CountersFit(st, live);
      SinglesNothing(st, []);
      StaysClosed(st.table, live);
    } else {
      assert all[..m][..m - 1] == all[..m - 1];
      SinglesKeepInv(st, live, m - 1);
      NextSingle(st, m - 1);
      var st1, live1 := Singles(st, all[..m - 1]), WithSingles(live, all[..m - 1]);
      MallocKeepsInv(st1, live1, 1);
      ClosedStep(st.table, live, st1, live1, all[m - 1]);
    }
  }

  /** The allocations of `a` are closed in `b` as they were, and any others are closed. */
  ghost predicate ClosedAsBefore(e: seq<Entry>, a: map<nat, nat>, e': seq<Entry>, b: map<nat, nat>) {
    && Disjoint(a, |e|) && Disjoint(b, |e'|) && a.Keys <= b.Keys
    && forall t :: t in b ==> (Closed(e', b, t) <==> (t in a ==> Closed(e, a, t)))
  }

  lemma StaysClosed(e: seq<Entry>, a: map<nat, nat>)
    requires Disjoint(a, |e|)
    ensures ClosedAsBefore(e, a, e, a)
  {
  }

  lemma ClosedStep(e: seq<Entry>, a: map<nat, nat>, st: State, b: map<nat, nat>, s: nat)
    requires ClosedAsBefore(e, a, st.table, b) && Inv(st, b) && Malloc(st, 1).1 == s
    ensures ClosedAsBefore(e, a, Malloc(st, 1).0.table, b[s := 1]) && s !in a
  {
    hide Chains, Closed, Total, Malloc;
    MallocKeepsInv(st, b, 1);
  }

  lemma CountersFit(st: State, live: map<nat, nat>)
    requires Inv(st, live)
    ensures st.used < WORD && st.free < WORD && Disjoint(live, |st.table|)
  {
    TotalSplits(st.table, 0, |st.table|);
  }
}
