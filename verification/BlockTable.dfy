/**
 The block table of one heap (memory/heap/heap.c): one flag byte per 4096-byte block,
 here a record of its three bits.  This module gives the table operations as functions
 on sequences and proves what they keep; class `Heap` runs them in place.
 */
module BlockTable {

  datatype Entry = Entry(taken: bool, first: bool, hasNext: bool)

  const FREE := Entry(false, false, false)

  // --------------------------------------------------------------- allocation

  predicate FreeRun(e: seq<Entry>, start: int, n: nat) {
    0 <= start && start + n <= |e| && forall i :: start <= i < start + n ==> !e[i].taken
  }

  /** The lowest start of a free run of `n` blocks at or after `from`, or -1. */
  function FitFrom(e: seq<Entry>, n: nat, from: nat): (r: int)
    ensures r == -1 || (from <= r && FreeRun(e, r, n))
    ensures forall b :: from <= b && FreeRun(e, b, n) ==> r != -1 && r <= b
    decreases |e| - from
  {
    if from + n > |e| then -1
    else if FreeRun(e, from, n) then from
    else if from == |e| then -1
    else FitFrom(e, n, from + 1)
  }

  /** A request for no block at all is refused. */
  function FirstFit(e: seq<Entry>, n: nat): int {
    if n == 0 then -1 else FitFrom(e, n, 0)
  }

  /**
   `heap_mark_blocks_taken`.  The flag for block i+1 is prepared after writing block i
   and the test for the end looks at i, so the last of several blocks also gets HAS_NEXT.
   */
  function MarkTaken(e: seq<Entry>, start: nat, n: nat): (r: seq<Entry>)
    ensures |r| == |e|
  {
    seq(|e|, i requires 0 <= i < |e| =>
      if i == start && n > 0 then Entry(true, true, n > 1)
      else if start < i < start + n then Entry(true, false, true)
      else e[i])
  }

  // -------------------------------------------------------------------- free

  /** How many blocks `heap_mark_blocks_free` goes over, starting at `i`. */
  function Walk(e: seq<Entry>, i: nat): (n: nat)
    ensures i <= |e| ==> i + n <= |e|
    ensures i < |e| ==> n > 0
    ensures forall k :: i <= k < i + n - 1 && k < |e| ==> e[k].hasNext
    ensures n > 0 && i + n < |e| ==> !e[i + n - 1].hasNext
    decreases |e| - i
  {
    if i >= |e| then 0
    else if !e[i].hasNext then 1
    else 1 + Walk(e, i + 1)
  }

  function Clear(e: seq<Entry>, start: nat, n: nat): (r: seq<Entry>)
    ensures |r| == |e|
  {
    seq(|e|, i requires 0 <= i < |e| => if start <= i < start + n then FREE else e[i])
  }

  function MarkFree(e: seq<Entry>, start: nat): seq<Entry> {
    Clear(e, start, Walk(e, start))
  }

  /** `heap_allocation_block_count`: the same walk, but only TAKEN blocks count. */
  function BlockCount(e: seq<Entry>, i: nat): nat {
    Taken(e, i, i + Walk(e, i))
  }

  /** The number of TAKEN blocks in [lo, hi). */
  function Taken(e: seq<Entry>, lo: nat, hi: nat): (n: nat)
    ensures lo <= hi ==> n <= hi - lo
    decreases hi - lo
  {
    if hi <= lo then 0
    else Taken(e, lo, hi - 1) + if hi <= |e| && e[hi - 1].taken then 1 else 0
  }

  // --------------------------------------------------------------- invariant

  ghost predicate Within(live: map<nat, nat>, s: nat, i: int) {
    s in live && s <= i < s + live[s]
  }

  /** Live allocations, start to length: in range, non-empty and disjoint. */
  ghost predicate Disjoint(live: map<nat, nat>, total: nat) {
    && (forall s :: s in live ==> live[s] > 0 && s + live[s] <= total)
    && (forall s, t :: s in live && t in live && s < t ==> s + live[s] <= t)
  }

  /** FIRST marks the head of an allocation, HAS_NEXT every block before its last. */
  ghost predicate Chains(e: seq<Entry>, live: map<nat, nat>)
    requires Disjoint(live, |e|)
  {
    forall s, i :: Within(live, s, i) ==>
      e[i].taken && (e[i].first <==> i == s) && (i + 1 < s + live[s] ==> e[i].hasNext)
  }

  /** The table is made of free blocks and the chains of the live allocations. */
  ghost predicate Parsed(e: seq<Entry>, live: map<nat, nat>) {
    && Disjoint(live, |e|)
    && Chains(e, live)
    && (forall i :: 0 <= i < |e| && e[i].taken ==> exists s :: Within(live, s, i))
    && (forall i :: 0 <= i < |e| && !e[i].taken ==> e[i] == FREE)
  }

  /** The last block does not point on, or there is nothing behind it. */
  ghost predicate Closed(e: seq<Entry>, live: map<nat, nat>, s: nat)
    requires Disjoint(live, |e|) && s in live
  {
    !e[s + live[s] - 1].hasNext || s + live[s] == |e|
  }

  // -------------------------------------------------------------- uniqueness

  /** The table alone says which allocations are live. */
  lemma ParseIsUnique(e: seq<Entry>, a: map<nat, nat>, b: map<nat, nat>)
    requires Parsed(e, a) && Parsed(e, b)
    ensures a == b
  {
    forall s | s in a ensures s in b && b[s] == a[s] { ParsesAgree(e, a, b, s); }
    forall s | s in b ensures s in a { ParsesAgree(e, b, a, s); }
  }

  lemma ParsesAgree(e: seq<Entry>, a: map<nat, nat>, b: map<nat, nat>, s: nat)
    requires Parsed(e, a) && Parsed(e, b) && s in a
    ensures s in b && b[s] == a[s]
  {
    assert Within(a, s, s);
    var t :| Within(b, t, s);
    assert t == s;
    if a[s] < b[s] {
      assert Within(b, s, s + a[s]);
    } else if b[s] < a[s] {
      assert Within(a, s, s + b[s]);
    }
  }

  // -------------------------------------------------------------- malloc

  /** An allocation never takes a block that a live allocation owns. */
  lemma MarkTakenKeepsParse(e: seq<Entry>, live: map<nat, nat>, s: nat, n: nat)
    requires Parsed(e, live) && n > 0 && FreeRun(e, s, n)
    ensures s !in live && Parsed(MarkTaken(e, s, n), live[s := n])
    ensures Closed(MarkTaken(e, s, n), live[s := n], s) <==> n == 1 || s + n == |e|
    ensures forall t :: t in live ==> (Closed(MarkTaken(e, s, n), live[s := n], t) <==> Closed(e, live, t))
  {
    RunIsOutside(e, live, s, n);
    var e', live' := MarkTaken(e, s, n), live[s := n];
    forall i | 0 <= i < |e| && e'[i].taken ensures exists t :: Within(live', t, i) {
      if s <= i < s + n { assert Within(live', s, i); }
      else { var t :| Within(live, t, i); assert Within(live', t, i); }
    }
    assert Chains(e', live') by { MarkTakenChains(e, live, s, n); }
  }

  lemma RunIsOutside(e: seq<Entry>, live: map<nat, nat>, s: nat, n: nat)
    requires Parsed(e, live) && n > 0 && FreeRun(e, s, n)
    ensures s !in live && Disjoint(live[s := n], |e|)
    ensures forall t :: t in live ==> t + live[t] <= s || s + n <= t
  {
    assert !e[s].taken;
    forall t | t in live ensures t != s && (t + live[t] <= s || s + n <= t) {
      if t <= s {
        if s < t + live[t] { assert Within(live, t, s); }
      } else if t < s + n {
        assert Within(live, t, t);
      }
    }
  }

  lemma MarkTakenChains(e: seq<Entry>, live: map<nat, nat>, s: nat, n: nat)
    requires Parsed(e, live) && n > 0 && FreeRun(e, s, n) && Disjoint(live[s := n], |e|)
    ensures Chains(MarkTaken(e, s, n), live[s := n])
  {
    var e', live' := MarkTaken(e, s, n), live[s := n];
    forall t, i | Within(live', t, i)
      ensures e'[i].taken && (e'[i].first <==> i == t) && (i + 1 < t + live'[t] ==> e'[i].hasNext)
    {
      if t != s { assert Within(live, t, i); }
    }
  }

  // ------------------------------------------------------------ counting

  function Total(e: seq<Entry>): nat { Taken(e, 0, |e|) }

  lemma {:induction false} TakenSplit(e: seq<Entry>, lo: nat, mid: nat, hi: nat)
    requires lo <= mid <= hi
    ensures Taken(e, lo, hi) == Taken(e, lo, mid) + Taken(e, mid, hi)
    decreases hi
  {
    if mid < hi { TakenSplit(e, lo, mid, hi - 1); }
  }

  lemma {:induction false} TakenSame(a: seq<Entry>, b: seq<Entry>, lo: nat, hi: nat)
    requires |a| == |b| && hi <= |a|
    requires forall i :: lo <= i < hi ==> a[i].taken == b[i].taken
    ensures Taken(a, lo, hi) == Taken(b, lo, hi)
    decreases hi
  {
    if lo < hi { TakenSame(a, b, lo, hi - 1); }
  }

  /** The count is full exactly when every block is taken, and zero when none is. */
  lemma {:induction false} TakenExtremes(e: seq<Entry>, lo: nat, hi: nat)
    requires lo <= hi <= |e|
    ensures Taken(e, lo, hi) == hi - lo <==> forall i :: lo <= i < hi ==> e[i].taken
    ensures Taken(e, lo, hi) == 0 <==> forall i :: lo <= i < hi ==> !e[i].taken
    decreases hi
  {
    if lo < hi { TakenExtremes(e, lo, hi - 1); }
  }

  lemma TotalSplits(e: seq<Entry>, s: nat, n: nat)
    requires s + n <= |e|
    ensures Total(e) == Taken(e, 0, s) + Taken(e, s, s + n) + Taken(e, s + n, |e|)
  {
    TakenSplit(e, 0, s, |e|);
    TakenSplit(e, s, s + n, |e|);
  }

  /** Changing only the blocks [s, s+n) moves the total by what changed there. */
  lemma TotalMoves(a: seq<Entry>, b: seq<Entry>, s: nat, n: nat)
    requires |a| == |b| && s + n <= |a|
    requires forall i :: 0 <= i < |a| && !(s <= i < s + n) ==> a[i].taken == b[i].taken
    ensures Total(b) == Total(a) - Taken(a, s, s + n) + Taken(b, s, s + n)
  {
    TotalSplits(a, s, n);
    TotalSplits(b, s, n);
    TakenSame(a, b, 0, s);
    TakenSame(a, b, s + n, |a|);
  }

  /** Releasing exactly the taken blocks [s, s+n) lowers the total by n. */
  lemma ReleasedTotal(a: seq<Entry>, b: seq<Entry>, s: nat, n: nat)
    requires |a| == |b| && s + n <= |a|
    requires forall i :: s <= i < s + n ==> a[i].taken && !b[i].taken
    requires forall i :: 0 <= i < |a| && !(s <= i < s + n) ==> a[i].taken == b[i].taken
    ensures Total(b) == Total(a) - n
  {
    TotalMoves(a, b, s, n);
    TakenExtremes(a, s, s + n);
    TakenExtremes(b, s, s + n);
  }

  lemma ClaimedTotal(a: seq<Entry>, b: seq<Entry>, s: nat, n: nat)
    requires |a| == |b| && s + n <= |a|
    requires forall i :: s <= i < s + n ==> !a[i].taken && b[i].taken
    requires forall i :: 0 <= i < |a| && !(s <= i < s + n) ==> a[i].taken == b[i].taken
    ensures Total(b) == Total(a) + n <= |b|
  {
    hide Taken;
    ReleasedTotal(b, a, s, n);
  }

  // --------------------------------------------------------------- counters

  const WORD: nat := 0x1_0000_0000_0000_0000

  function U64(x: int): nat { x % WORD }

  /** `struct heap` without its addresses: the table and the two `size_t` counters. */
  datatype State = State(table: seq<Entry>, used: nat, free: nat)

  ghost predicate Accurate(st: State) {
    st.used == Total(st.table) && st.free == |st.table| - Total(st.table)
  }

  ghost predicate Inv(st: State, live: map<nat, nat>) {
    Parsed(st.table, live) && Accurate(st) && |st.table| < WORD
  }

  /** `heap_malloc_blocks`; the answer is the first block, or -1 for the null pointer. */
  function Malloc(st: State, n: nat): (State, int) {
    var s := FirstFit(st.table, n);
    if s < 0 then (st, -1)
    else (State(MarkTaken(st.table, s, n), U64(st.used + n), U64(st.free - n)), s)
  }

  /** `heap_mark_blocks_free` and so `heap_free`. */
  function Free(st: State, s: nat): State {
    var n := Walk(st.table, s);
    State(Clear(st.table, s, n), U64(st.used - n), U64(st.free + n))
  }

  /**
   First fit: the lowest start with n free blocks, no answer only when there is none;
   the blocks come from no live allocation and the counters follow.
   */
  lemma MallocKeepsInv(st: State, live: map<nat, nat>, n: nat)
    requires Inv(st, live)
    ensures var (st', s) := Malloc(st, n);
            if s < 0 then st' == st && (n == 0 || forall b :: !FreeRun(st.table, b, n))
            else n > 0 && FreeRun(st.table, s, n) && (forall b :: 0 <= b < s ==> !FreeRun(st.table, b, n))
                 && s !in live && Inv(st', live[s := n])
                 && (Closed(st'.table, live[s := n], s) <==> n == 1 || s + n == |st.table|)
                 && forall t :: t in live ==> (Closed(st'.table, live[s := n], t) <==> Closed(st.table, live, t))
  {
    hide Parsed, Closed, Total, MarkTaken;
    var (st', s) := Malloc(st, n);
    if s >= 0 {
      MarkTakenKeepsParse(st.table, live, s, n);
      MarkTakenTotal(st.table, s, n);
    }
  }

  lemma MarkTakenTotal(e: seq<Entry>, s: nat, n: nat)
    requires FreeRun(e, s, n)
    ensures Total(MarkTaken(e, s, n)) == Total(e) + n <= |e|
  {
    hide Total;
    ClaimedTotal(e, MarkTaken(e, s, n), s, n);
  }

  // ------------------------------------------------------------------- free

  /** A walk from inside a live allocation ends with it iff the allocation is closed. */
  lemma {:induction false} WalkEndsWithChain(e: seq<Entry>, live: map<nat, nat>, s: nat, k: nat)
    requires Parsed(e, live) && s in live && k < live[s]
    ensures Walk(e, s + k) >= live[s] - k
    ensures Walk(e, s + k) == live[s] - k <==> Closed(e, live, s)
    decreases live[s] - k
  {
    assert Within(live, s, s + k);
    if k + 1 < live[s] { WalkEndsWithChain(e, live, s, k + 1); }
  }

  lemma ClearDropsChain(e: seq<Entry>, live: map<nat, nat>, s: nat)
    requires Parsed(e, live) && s in live
    ensures Parsed(Clear(e, s, live[s]), live - {s})
  {
    var e', live' := Clear(e, s, live[s]), live - {s};
    forall i | 0 <= i < |e| && e'[i].taken ensures exists t :: Within(live', t, i) {
      var t :| Within(live, t, i);
      assert Within(live', t, i);
    }
    assert Chains(e', live') by {
      forall t, i | Within(live', t, i) ensures Within(live, t, i) && !(s <= i < s + live[s]) {
      }
    }
  }

  lemma ClearTotal(e: seq<Entry>, s: nat, n: nat)
    requires s + n <= |e|
    ensures Total(Clear(e, s, n)) == Total(e) - Taken(e, s, s + n)
  {
    var e' := Clear(e, s, n);
    TotalMoves(e, e', s, n);
    TakenExtremes(e', s, s + n);
  }

  lemma ChainBlocks(e: seq<Entry>, live: map<nat, nat>, s: nat)
    requires Parsed(e, live) && s in live
    ensures Disjoint(live, |e|) && 0 < live[s] && s + live[s] <= |e|
    ensures forall i :: s <= i < s + live[s] ==> e[i].taken
  {
    forall i | s <= i < s + live[s] ensures e[i].taken { assert Within(live, s, i); }
  }

  lemma ChainIsTaken(e: seq<Entry>, live: map<nat, nat>, s: nat)
    requires Parsed(e, live) && s in live
    ensures s + live[s] <= |e| && Taken(e, s, s + live[s]) == live[s]
    ensures Taken(e, 0, s) + live[s] <= Total(e)
  {
    hide Parsed, Taken;
    ChainBlocks(e, live, s);
    TakenExtremes(e, s, s + live[s]);
    TotalSplits(e, s, live[s]);
  }

  /**
   Freeing a live allocation leaves exactly the other allocations, with right counters,
   if and only if the allocation is closed.  The block behind an open one is freed (or,
   when it was free already, counted) along with it.
   */
  lemma FreeExact(st: State, live: map<nat, nat>, s: nat)
    requires Inv(st, live) && s in live
    ensures Inv(Free(st, s), live - {s}) <==> Closed(st.table, live, s)
  {
    hide Chains, Closed, Clear, Walk, Taken, Total;
    WalkEndsWithChain(st.table, live, s, 0);
    if Closed(st.table, live, s) {
      ClearDropsChain(st.table, live, s);
      ChainIsTaken(st.table, live, s);
      ClearTotal(st.table, s, live[s]);
    } else {
      OpenFreeTakesNeighbour(st, live, s);
    }
  }

  lemma OpenFreeTakesNeighbour(st: State, live: map<nat, nat>, s: nat)
    requires Inv(st, live) && s in live && !Closed(st.table, live, s)
    ensures !Inv(Free(st, s), live - {s})
  {
    hide Parsed, Closed, Walk, Taken, Total, Clear;
    var e, n, st' := st.table, Walk(st.table, s), Free(st, s);
    ChainBlocks(e, live, s);
    WalkEndsWithChain(e, live, s, 0);
    if Inv(st', live - {s}) {
      AccurateFreeIsFull(st, s);
      TakenExtremes(e, s, s + n);
      FreedNeighbourWasLive(e, live, s, n);
    }
  }

  lemma AccurateFreeIsFull(st: State, s: nat)
    requires s < |st.table| < WORD && Accurate(st) && Accurate(Free(st, s))
    ensures Taken(st.table, s, s + Walk(st.table, s)) == Walk(st.table, s)
  {
    hide Clear, Walk, Taken, Total;
    var n := Walk(st.table, s);
    ClearTotal(st.table, s, n);
    TotalSplits(st.table, s, n);
  }

  lemma FreedNeighbourWasLive(e: seq<Entry>, live: map<nat, nat>, s: nat, n: nat)
    requires Parsed(e, live) && s in live && n > live[s] && s + n <= |e| && e[s + live[s]].taken
    ensures !Parsed(Clear(e, s, n), live - {s})
  {
    var i := s + live[s];
    var t :| Within(live, t, i);
    assert t != s;
    if Parsed(Clear(e, s, n), live - {s}) {
      assert Within(live - {s}, t, i);
    }
  }

  // ---------------------------------------------------------------- realloc

  /** `heap_is_block_range_free`, for blocks [lo, hi). */
  predicate BlocksFree(e: seq<Entry>, lo: nat, hi: nat) {
    hi <= |e| && forall i :: lo <= i < hi ==> !e[i].taken
  }

  /** The scan goes past the end of the table, and the bytes behind it look free as well. */
  predicate Leaves(st: State, behind: seq<Entry>, s: nat, k: nat) {
    var cur := BlockCount(st.table, s);
    cur < k && |st.table| < s + k && BlocksFree(st.table + behind, s + cur, s + k)
  }

  /** The allocation at `s` cut down to its first `k` blocks. */
  function Shrunk(e: seq<Entry>, s: nat, k: nat): seq<Entry>
    requires 0 < k && s + k <= |e|
  {
    var cut := MarkFree(e, s + k);
    cut[s + k - 1 := cut[s + k - 1].(hasNext := false)]
  }

  /** The allocation at `s` of `n` blocks grown in place to `k`. */
  function Extended(e: seq<Entry>, s: nat, n: nat, k: nat): (r: seq<Entry>)
    ensures |r| == |e|
  {
    seq(|e|, i requires 0 <= i < |e| =>
      if s + n <= i < s + k then Entry(true, false, i + 1 < s + k)
      else if i == s + n - 1 then e[i].(hasNext := true)
      else e[i])
  }

  /**
   `heap_realloc` on block numbers, when the bytes behind the table are as `behind` says:
   the room to grow is looked for, and taken, without regard to the end of the table.
   */
  function ReallocIn(st: State, behind: seq<Entry>, s: nat, k: nat): (State, seq<Entry>, int) {
    var cur, flags := BlockCount(st.table, s), st.table + behind;
    if cur < k && BlocksFree(flags, s + cur, s + k) then
      var grown := Extended(flags, s, cur, k);
      (State(grown[..|st.table|], U64(st.used + (k - cur)), U64(st.free - (k - cur))), grown[|st.table|..], s)
    else
      var (st', r) := Realloc(st, s, k);
      (st', behind, r)
  }

  /** The same inside the table; the shrinking case adjusts the counters twice. */
  function Realloc(st: State, s: nat, k: nat): (State, int) {
    var cur := BlockCount(st.table, s);
    if k == 0 then (Free(st, s), -1)
    else if cur == k then (st, s)
    else if cur > k then
      var freed := Walk(st.table, s + k);
      (State(Shrunk(st.table, s, k), U64(st.used - freed - (cur - k)), U64(st.free + freed + (cur - k))), s)
    else if BlocksFree(st.table, s + cur, s + k) then
      (State(Extended(st.table, s, cur, k), U64(st.used + (k - cur)), U64(st.free - (k - cur))), s)
    else
      var (st1, t) := Malloc(st, k);
      if t < 0 then (st, -1) else (Free(st1, s), t)
  }

  lemma {:induction false} WalkGoesOn(e: seq<Entry>, live: map<nat, nat>, s: nat, k: nat)
    requires Parsed(e, live) && s in live && k < live[s] && !Closed(e, live, s)
    ensures Walk(e, s + k) == live[s] - k + Walk(e, s + live[s])
    decreases live[s] - k
  {
    assert Within(live, s, s + k);
    if k + 1 < live[s] { WalkGoesOn(e, live, s, k + 1); }
  }

  /** The allocation's length is counted right: see `BlockCountExact`. */
  ghost predicate Countable(e: seq<Entry>, live: map<nat, nat>, s: nat)
    requires Disjoint(live, |e|) && s in live
  {
    Closed(e, live, s) || !e[s + live[s]].taken
  }

  /** `heap_allocation_block_count` is right iff no other allocation follows an open one. */
  lemma BlockCountExact(e: seq<Entry>, live: map<nat, nat>, s: nat)
    requires Parsed(e, live) && s in live
    ensures BlockCount(e, s) == live[s] <==> Countable(e, live, s)
    ensures BlockCount(e, s) >= live[s]
  {
    hide Chains, Taken, Walk;
    WalkEndsWithChain(e, live, s, 0);
    ChainIsTaken(e, live, s);
    TakenSplit(e, s, s + live[s], s + Walk(e, s));
    if !Closed(e, live, s) {
      WalkGoesOn(e, live, s, 0);
      BlockBehind(e, s + live[s]);
    }
  }

  lemma BlockBehind(e: seq<Entry>, i: nat)
    requires i < |e| && (!e[i].taken ==> e[i] == FREE)
    ensures Taken(e, i, i + Walk(e, i)) == 0 <==> !e[i].taken
  {
    TakenExtremes(e, i, i + Walk(e, i));
  }

  lemma ShrinkKeepsParse(e: seq<Entry>, live: map<nat, nat>, s: nat, k: nat)
    requires Parsed(e, live) && s in live && 0 < k < live[s] && Countable(e, live, s)
    ensures Parsed(Shrunk(e, s, k), live[s := k]) && Closed(Shrunk(e, s, k), live[s := k], s)
    ensures Total(Shrunk(e, s, k)) == Total(e) - (live[s] - k)
    ensures live[s] - k <= Walk(e, s + k) <= live[s] - k + 1
    ensures Walk(e, s + k) == live[s] - k <==> Closed(e, live, s)
  {
    ShrunkShape(e, live, s, k);
    ShrinkParses(e, live, s, k);
    hide Shrunk, Walk, Closed, Countable, Total;
    forall i | s + k <= i < s + live[s] ensures e[i].taken { assert Within(live, s, i); }
    ReleasedTotal(e, Shrunk(e, s, k), s + k, live[s] - k);
  }

  lemma ShrunkShape(e: seq<Entry>, live: map<nat, nat>, s: nat, k: nat)
    requires Parsed(e, live) && s in live && 0 < k < live[s] && Countable(e, live, s)
    ensures |Shrunk(e, s, k)| == |e|
    ensures forall i :: 0 <= i < |e| ==> (Shrunk(e, s, k)[i] ==
              if s + k <= i < s + live[s] then FREE
              else if i == s + k - 1 then e[i].(hasNext := false) else e[i])
    ensures live[s] - k <= Walk(e, s + k) <= live[s] - k + 1
    ensures Walk(e, s + k) == live[s] - k <==> Closed(e, live, s)
  {
    WalkEndsWithChain(e, live, s, k);
    if !Closed(e, live, s) { WalkGoesOn(e, live, s, k); }
  }

  lemma ShrinkParses(e: seq<Entry>, live: map<nat, nat>, s: nat, k: nat)
    requires Parsed(e, live) && s in live && 0 < k < live[s] && Countable(e, live, s)
    ensures |Shrunk(e, s, k)| == |e| && Parsed(Shrunk(e, s, k), live[s := k])
    ensures Closed(Shrunk(e, s, k), live[s := k], s)
  {
    hide Shrunk, Walk, Countable;
    ShrunkShape(e, live, s, k);
    var e', live' := Shrunk(e, s, k), live[s := k];
    assert Chains(e', live') by {
      forall t: nat, i: nat | Within(live', t, i)
        ensures e'[i].taken && (e'[i].first <==> i == t) && (i + 1 < t + live'[t] ==> e'[i].hasNext)
      {
        ShrinkChain(e, live, s, k, t, i);
      }
    }
    hide Chains;
    forall i | 0 <= i < |e| && e'[i].taken ensures exists t :: Within(live', t, i) {
      var t :| Within(live, t, i);
      assert Within(live', t, i);
    }
  }

  lemma ShrinkChain(e: seq<Entry>, live: map<nat, nat>, s: nat, k: nat, t: nat, i: nat)
    requires Parsed(e, live) && s in live && 0 < k < live[s] && Countable(e, live, s) && Within(live[s := k], t, i)
    ensures i < |e| == |Shrunk(e, s, k)|
    ensures var entry := Shrunk(e, s, k)[i];
            entry.taken && (entry.first <==> i == t) && (i + 1 < t + live[s := k][t] ==> entry.hasNext)
  {
    hide Shrunk, Walk, Countable;
    ShrunkShape(e, live, s, k);
    assert Within(live, t, i);
  }

  lemma ExtendKeepsParse(e: seq<Entry>, live: map<nat, nat>, s: nat, k: nat)
    requires Parsed(e, live) && s in live && live[s] < k && BlocksFree(e, s + live[s], s + k)
    ensures Parsed(Extended(e, s, live[s], k), live[s := k])
    ensures Closed(Extended(e, s, live[s], k), live[s := k], s)
    ensures Total(Extended(e, s, live[s], k)) == Total(e) + (k - live[s]) <= |e|
  {
    hide Parsed, Total, Closed;
    ChainBlocks(e, live, s);
    ExtendParses(e, live, s, k);
    ClaimedTotal(e, Extended(e, s, live[s], k), s + live[s], k - live[s]);
  }

  lemma ExtendParses(e: seq<Entry>, live: map<nat, nat>, s: nat, k: nat)
    requires Parsed(e, live) && s in live && live[s] < k && BlocksFree(e, s + live[s], s + k)
    ensures Parsed(Extended(e, s, live[s], k), live[s := k])
    ensures Closed(Extended(e, s, live[s], k), live[s := k], s)
  {
    var e', live' := Extended(e, s, live[s], k), live[s := k];
    ExtendDisjoint(e, live, s, k);
    assert Chains(e', live') by {
      forall t: nat, i: nat | Within(live', t, i)
        ensures e'[i].taken && (e'[i].first <==> i == t) && (i + 1 < t + live'[t] ==> e'[i].hasNext)
      {
        ExtendChain(e, live, s, k, t, i);
      }
    }
    hide Chains;
    forall i | 0 <= i < |e| && e'[i].taken ensures exists t :: Within(live', t, i) {
      if s + live[s] <= i < s + k { assert Within(live', s, i); }
      else { var t :| Within(live, t, i); assert Within(live', t, i); }
    }
  }

  lemma ExtendDisjoint(e: seq<Entry>, live: map<nat, nat>, s: nat, k: nat)
    requires Parsed(e, live) && s in live && live[s] < k && BlocksFree(e, s + live[s], s + k)
    ensures Disjoint(live[s := k], |e|)
  {
    forall t | t in live && s < t ensures s + k <= t {
      assert Within(live, t, t);
    }
  }

  lemma ExtendChain(e: seq<Entry>, live: map<nat, nat>, s: nat, k: nat, t: nat, i: nat)
    requires Parsed(e, live) && s in live && live[s] < k && BlocksFree(e, s + live[s], s + k)
    requires Disjoint(live[s := k], |e|) && Within(live[s := k], t, i)
    ensures var entry := Extended(e, s, live[s], k)[i];
            entry.taken && (entry.first <==> i == t) && (i + 1 < t + live[s := k][t] ==> entry.hasNext)
  {
    if t != s || i < s + live[s] {
      assert Within(live, t, i);
    }
  }

  /** The live allocations after a call that answered block `r`. */
  ghost function Resized(live: map<nat, nat>, s: nat, k: nat, r: int): map<nat, nat>
    requires s in live
  {
    if r < 0 then live else if r == s then live[s := k] else live[r := k] - {s}
  }

  /**
   What `heap_realloc` does to a live allocation.  If the kernel counts its length right,
   the table stays a table of chains in every case but moving an open allocation; the
   counters survive growing in place, and shrinking never leaves them right.  If the count
   takes in a neighbour, every call that does not fail breaks the heap.
   */
  lemma ReallocExact(st: State, live: map<nat, nat>, behind: seq<Entry>, s: nat, k: nat)
    requires Inv(st, live) && s in live && k > 0 && s + k <= |st.table| + |behind| < WORD
    ensures var (st', behind', r) := ReallocIn(st, behind, s, k);
            var n := live[s];
            if Leaves(st, behind, s, k) then r == s && behind' != behind && forall live' :: !Inv(st', live')
            else
              behind' == behind &&
              if !Countable(st.table, live, s) then
                if r < 0 then st' == st && forall b :: !FreeRun(st.table, b, k)
                else !Inv(st', Resized(live, s, k, r))
              else if k == n then st' == st && r == s
              else if k < n then
                r == s && Parsed(st'.table, live[s := k]) && Closed(st'.table, live[s := k], s) && !Accurate(st')
              else if BlocksFree(st.table, s + n, s + k) then
                r == s && Inv(st', live[s := k]) && Closed(st'.table, live[s := k], s)
              else if r < 0 then
                st' == st && forall b :: !FreeRun(st.table, b, k)
              else
                r !in live && FreeRun(st.table, r, k) &&
                (Inv(st', live[r := k] - {s}) <==> Closed(st.table, live, s))
  {
    hide Chains, Closed, Countable, Walk, Taken, BlockCount, Total, Extended, FreeRun, BlocksFree, Parsed, Realloc;
    if Leaves(st, behind, s, k) {
      LeavingBreaks(st, live, behind, s, k);
    } else {
      ChainBlocks(st.table, live, s);
      BlockCountExact(st.table, live, s);
      StayingIsRealloc(st, behind, s, k);
      ReallocInTable(st, live, s, k);
    }
  }

  /** A call that does not leave the table is one that looks no further. */
  lemma StayingIsRealloc(st: State, behind: seq<Entry>, s: nat, k: nat)
    requires !Leaves(st, behind, s, k) && BlockCount(st.table, s) > 0
    ensures var (st', r) := Realloc(st, s, k); ReallocIn(st, behind, s, k) == (st', behind, r)
  {
    hide BlockCount, Malloc, Free, U64;
    var e, cur := st.table, BlockCount(st.table, s);
    if cur < k && BlocksFree(e + behind, s + cur, s + k) {
      assert Extended(e + behind, s, cur, k)[..|e|] == Extended(e, s, cur, k);
      assert Extended(e + behind, s, cur, k)[|e|..] == behind;
      forall i | s + cur <= i < s + k ensures !e[i].taken { assert (e + behind)[i] == e[i]; }
    }
  }

  /** One that does marks bytes behind the table, and counts them. */
  lemma LeavingBreaks(st: State, live: map<nat, nat>, behind: seq<Entry>, s: nat, k: nat)
    requires Inv(st, live) && s in live && Leaves(st, behind, s, k) && s + k <= |st.table| + |behind| < WORD
    ensures var (st', behind', r) := ReallocIn(st, behind, s, k);
            r == s && behind' != behind && st'.table == Extended(st.table, s, BlockCount(st.table, s), k)
            && !Accurate(st')
  {
    hide Chains, Walk, BlockCount, Total, Parsed;
    var e, cur := st.table, BlockCount(st.table, s);
    BlockCountInside(st.table, live, s);
    var e' := Extended(e, s, cur, k);
    assert Extended(e + behind, s, cur, k)[..|e|] == e';
    forall i | s + cur <= i < |e| ensures !e[i].taken { assert (e + behind)[i] == e[i]; }
    ClaimedTotal(e, e', s + cur, |e| - (s + cur));
    var last := s + k - 1;
    assert !(e + behind)[last].taken && Extended(e + behind, s, cur, k)[last].taken;
    assert (e + behind)[last] == behind[last - |e|];
    var (st', behind', r) := ReallocIn(st, behind, s, k);
    assert behind'[last - |e|] != behind[last - |e|];
    assert U64(st.used + (k - cur)) != Total(e');
  }

  lemma BlockCountInside(e: seq<Entry>, live: map<nat, nat>, s: nat)
    requires Parsed(e, live) && s in live
    ensures 0 < BlockCount(e, s) && s + BlockCount(e, s) <= |e|
  {
    hide Taken, Walk, Chains;
    ChainBlocks(e, live, s);
    BlockCountExact(e, live, s);
  }

  lemma ReallocInTable(st: State, live: map<nat, nat>, s: nat, k: nat)
    requires Inv(st, live) && s in live && k > 0
    ensures var (st', r) := Realloc(st, s, k);
            var n := live[s];
            if !Countable(st.table, live, s) then
              if r < 0 then st' == st && forall b :: !FreeRun(st.table, b, k)
              else !Inv(st', Resized(live, s, k, r))
            else if k == n then st' == st && r == s
            else if k < n then
              r == s && Parsed(st'.table, live[s := k]) && Closed(st'.table, live[s := k], s) && !Accurate(st')
            else if BlocksFree(st.table, s + n, s + k) then
              r == s && Inv(st', live[s := k]) && Closed(st'.table, live[s := k], s)
            else if r < 0 then
              st' == st && forall b :: !FreeRun(st.table, b, k)
            else
              r !in live && FreeRun(st.table, r, k) &&
              (Inv(st', live[r := k] - {s}) <==> Closed(st.table, live, s))
  {
    BlockCountExact(st.table, live, s);
    if !Countable(st.table, live, s) {
      OvercountedRealloc(st, live, s, k);
    } else if k < live[s] {
      ShrinkUnsettlesCounters(st, live, s, k);
    } else if k > live[s] {
      if BlocksFree(st.table, s + live[s], s + k) {
        GrowInPlace(st, live, s, k);
      } else {
        GrowByMoving(st, live, s, k);
      }
    }
  }

  /** An open allocation with another one right behind it. */
  lemma OvercountedRealloc(st: State, live: map<nat, nat>, s: nat, k: nat)
    requires Inv(st, live) && s in live && k > 0 && !Countable(st.table, live, s)
    ensures var (st', r) := Realloc(st, s, k);
            if r < 0 then st' == st && forall b :: !FreeRun(st.table, b, k)
            else !Inv(st', Resized(live, s, k, r))
  {
    hide Chains, Closed, Walk, Taken, BlockCount, Total, BlocksFree, Clear, MarkTaken, Shrunk, Extended;
    var (st', r) := Realloc(st, s, k);
    var n, cur := live[s], BlockCount(st.table, s);
    BlockCountExact(st.table, live, s);
    NeighbourBehind(st.table, live, s);
    if cur == k {
      if Inv(st, live[s := k]) { ParseIsUnique(st.table, live, live[s := k]); }
    } else if k <= n {
      OvercountedShrink(st.table, live, s, k);
    } else if r >= 0 && r != s {
      MallocKeepsInv(st, live, k);
      FreeExact(Malloc(st, k).0, live[r := k], s);
    } else if r < 0 {
      MallocKeepsInv(st, live, k);
    } else {
      assert s + n in live[s := k] && s + live[s := k][s] > s + n;
    }
  }

  lemma NeighbourBehind(e: seq<Entry>, live: map<nat, nat>, s: nat)
    requires Parsed(e, live) && s in live && !Countable(e, live, s)
    ensures !Closed(e, live, s) && s + live[s] in live && s + live[s] < |e|
  {
    var t :| Within(live, t, s + live[s]);
  }

  /** Cutting it down, even to its own size, releases the neighbour's first block. */
  lemma OvercountedShrink(e: seq<Entry>, live: map<nat, nat>, s: nat, k: nat)
    requires Parsed(e, live) && s in live && !Countable(e, live, s) && 0 < k <= live[s]
    ensures s + k <= |e| && !Shrunk(e, s, k)[s + live[s]].taken && !Parsed(Shrunk(e, s, k), live[s := k])
  {
    NeighbourBehind(e, live, s);
    hide Closed, Countable;
    if k < live[s] { WalkGoesOn(e, live, s, k); }
    var e', t := Shrunk(e, s, k), s + live[s];
    assert !e'[t].taken;
    if Parsed(e', live[s := k]) { HeadIsTaken(e', live[s := k], t); }
  }

  lemma HeadIsTaken(e: seq<Entry>, live: map<nat, nat>, t: nat)
    requires Parsed(e, live) && t in live
    ensures e[t].taken
  {
    assert Within(live, t, t);
  }

  /** Resizing two blocks to two blocks frees the live block behind them. */
  lemma SameSizeReleasesNeighbour()
    ensures var (st1, a) := Malloc(Empty(4), 2);
            var (st2, b) := Malloc(st1, 1);
            a == 0 && b == 2 &&
            var (st3, c) := Realloc(st2, a, 2);
            c == 0 && st2.table[b].taken && st3.table[b] == FREE
  {
    var st2 := TwoThenOne();
    assert BlockCount(st2.table, 0) == 3 by {
      assert Taken(st2.table, 0, 0) == 0;
      assert Taken(st2.table, 0, 1) == 1;
      assert Taken(st2.table, 0, 2) == 2;
    }
  }

  /** Growing two blocks of four to five, with a byte behind the table that looks free: it is marked, five are used. */
  lemma GrowthLeavesTable()
    ensures var (st, a) := Malloc(Empty(4), 2);
            a == 0 && Leaves(st, [FREE], a, 5) &&
            var (st', behind, r) := ReallocIn(st, [FREE], a, 5);
            r == a && st'.used == 5 && st'.free == WORD - 1 && behind == [Entry(true, false, false)]
  {
    var st := Malloc(Empty(4), 2).0;
    assert FreeRun(Empty(4).table, 0, 2);
    assert st.table == [Entry(true, true, true), Entry(true, false, true), FREE, FREE];
    assert Walk(st.table, 2) == 1;
    assert Walk(st.table, 1) == 2;
    assert Walk(st.table, 0) == 3;
    assert Taken(st.table, 0, 1) == 1;
    assert Taken(st.table, 0, 2) == 2;
  }

  /** Four blocks after requests for two and for one. */
  lemma TwoThenOne() returns (st2: State)
    ensures Malloc(Empty(4), 2).1 == 0 && Malloc(Malloc(Empty(4), 2).0, 1) == (st2, 2)
    ensures st2.table == [Entry(true, true, true), Entry(true, false, true), Entry(true, true, false), FREE]
    ensures Walk(st2.table, 2) == 1 && Walk(st2.table, 1) == 2 && Walk(st2.table, 0) == 3
  {
    var (st1, a) := Malloc(Empty(4), 2);
    assert FreeRun(Empty(4).table, 0, 2);
    assert st1.table == [Entry(true, true, true), Entry(true, false, true), FREE, FREE];
    st2 := Malloc(st1, 1).0;
    assert st1.table[0].taken && st1.table[1].taken;
    assert FreeRun(st1.table, 2, 1) && !FreeRun(st1.table, 0, 1) && !FreeRun(st1.table, 1, 1);
    assert st2.table == [Entry(true, true, true), Entry(true, false, true), Entry(true, true, false), FREE];
    assert Walk(st2.table, 2) == 1;
    assert Walk(st2.table, 1) == 2;
    assert Walk(st2.table, 0) == 3;
  }

  /**
   By how much: shrinking counts the blocks it gives back a second time, and for an open
   allocation the free block behind it as well.
   */
  lemma ShrinkMiscounts(st: State, live: map<nat, nat>, s: nat, k: nat)
    requires Inv(st, live) && s in live && 0 < k < live[s] && Countable(st.table, live, s)
    ensures var st', n := Realloc(st, s, k).0, live[s];
            var twice := n - k + if Closed(st.table, live, s) then 0 else 1;
            && Total(st'.table) == Total(st.table) - (n - k)
            && st'.used == U64(Total(st'.table) - twice) && st'.free == U64(|st'.table| - Total(st'.table) + twice)
  {
    hide Shrunk, Parsed, Closed, Countable, Walk, Taken, BlockCount, Total;
    ChainBlocks(st.table, live, s);
    BlockCountExact(st.table, live, s);
    ShrinkKeepsParse(st.table, live, s, k);
    ShrunkShape(st.table, live, s, k);
  }

  lemma ShrinkUnsettlesCounters(st: State, live: map<nat, nat>, s: nat, k: nat)
    requires Inv(st, live) && s in live && 0 < k < live[s] && Countable(st.table, live, s)
    ensures var (st', r) := Realloc(st, s, k);
            r == s && Parsed(st'.table, live[s := k]) && Closed(st'.table, live[s := k], s) && !Accurate(st')
  {
    hide Shrunk, Parsed, Closed, Countable, Walk, Taken, BlockCount, Total;
    ChainBlocks(st.table, live, s);
    BlockCountExact(st.table, live, s);
    ShrinkKeepsParse(st.table, live, s, k);
    ChainIsTaken(st.table, live, s);
  }

  lemma GrowInPlace(st: State, live: map<nat, nat>, s: nat, k: nat)
    requires Inv(st, live) && s in live && live[s] < k && BlocksFree(st.table, s + live[s], s + k)
    requires Countable(st.table, live, s)
    ensures var (st', r) := Realloc(st, s, k);
            r == s && Inv(st', live[s := k]) && Closed(st'.table, live[s := k], s)
  {
    hide Extended, Parsed, Closed, Countable, Walk, Taken, BlockCount, Total, BlocksFree;
    ChainBlocks(st.table, live, s);
    BlockCountExact(st.table, live, s);
    ExtendKeepsParse(st.table, live, s, k);
  }

  lemma GrowByMoving(st: State, live: map<nat, nat>, s: nat, k: nat)
    requires Inv(st, live) && s in live && live[s] < k && !BlocksFree(st.table, s + live[s], s + k)
    requires Countable(st.table, live, s)
    ensures var (st', r) := Realloc(st, s, k);
            if r < 0 then st' == st && forall b :: !FreeRun(st.table, b, k)
            else r !in live && FreeRun(st.table, r, k) &&
                 (Inv(st', live[r := k] - {s}) <==> Closed(st.table, live, s))
  {
    hide Parsed, Closed, Countable, Walk, Taken, BlockCount, Total, BlocksFree, Clear, MarkTaken;
    ChainBlocks(st.table, live, s);
    BlockCountExact(st.table, live, s);
    MallocKeepsInv(st, live, k);
    var (st1, t) := Malloc(st, k);
    if t >= 0 {
      FreeExact(st1, live[t := k], s);
    }
  }

  // --------------------------------------------------------------- whole runs

  /** A call of the heap; a resizing one finds the bytes `behind` behind the table. */
  datatype Op = Alloc(n: nat) | Release(start: nat) | Resize(start: nat, n: nat, behind: seq<Entry>)

  /** The call names a live allocation, and there is memory as far as its scan may look. */
  ghost predicate Names(op: Op, st: State, live: map<nat, nat>) {
    match op
    case Alloc(_) => true
    case Release(s) => s in live
    case Resize(s, k, behind) => s in live && s + k <= |st.table| + |behind| < WORD
  }

  /** The calls that leave the heap whole: see `CallKeepsInvExactly`. */
  ghost predicate Harmless(op: Op, st: State, live: map<nat, nat>)
    requires Inv(st, live) && Names(op, st, live)
  {
    match op
    case Alloc(_) => true
    case Release(s) => Closed(st.table, live, s)
    case Resize(s, k, behind) =>
      if k == 0 then Closed(st.table, live, s)
      else if Leaves(st, behind, s, k) then false
      else if Countable(st.table, live, s) then
        k >= live[s]
        && (k == live[s] || BlocksFree(st.table, s + live[s], s + k) || Closed(st.table, live, s) || NoRoom(st, k))
      else k > BlockCount(st.table, s) && !BlocksFree(st.table, s + BlockCount(st.table, s), s + k) && NoRoom(st, k)
  }

  /** No run of `k` free blocks: the request is refused. */
  predicate NoRoom(st: State, k: nat) { FirstFit(st.table, k) < 0 }

  ghost function Do(op: Op, st: State, live: map<nat, nat>): (State, map<nat, nat>)
    requires Names(op, st, live)
  {
    match op
    case Alloc(n) =>
      var (st', s) := Malloc(st, n);
      (st', if s < 0 then live else live[s := n])
    case Release(s) => (Free(st, s), live - {s})
    case Resize(s, k, behind) =>
      var (st', _, r) := ReallocIn(st, behind, s, k);
      (st', if k == 0 then live - {s} else Resized(live, s, k, r))
  }

  /** Each call leaves the heap whole exactly if it is harmless. */
  lemma CallKeepsInvExactly(op: Op, st: State, live: map<nat, nat>)
    requires Inv(st, live) && Names(op, st, live)
    ensures var (st', live') := Do(op, st, live); Inv(st', live') <==> Harmless(op, st, live)
  {
    hide Parsed, Closed, Accurate, Countable, BlockCount, BlocksFree, FirstFit, FreeRun, Walk, Total, Free;
    match op
    case Alloc(n) =>
      MallocKeepsInv(st, live, n);
    case Release(s) =>
      FreeExact(st, live, s);
    case Resize(s, k, behind) =>
      if k == 0 {
        FreeExact(st, live, s);
      } else {
        ResizeKeepsInvExactly(st, live, s, k, behind);
      }
  }

  lemma ResizeKeepsInvExactly(st: State, live: map<nat, nat>, s: nat, k: nat, behind: seq<Entry>)
    requires Inv(st, live) && k > 0 && Names(Resize(s, k, behind), st, live)
    ensures var (st', _, r) := ReallocIn(st, behind, s, k);
            Inv(st', Resized(live, s, k, r)) <==> Harmless(Resize(s, k, behind), st, live)
  {
    hide Parsed, Closed, Countable, BlocksFree, FreeRun, Walk, Total, Free, FirstFit, Taken, BlockCount, Leaves,
      Shrunk;
    ChainBlocks(st.table, live, s);
    ReallocExact(st, live, behind, s, k);
    BlockCountExact(st.table, live, s);
    if !Leaves(st, behind, s, k) { StayingIsRealloc(st, behind, s, k); }
    var (st', r) := Realloc(st, s, k);
    if k == live[s] { assert live[s := k] == live; }
    FitOfNothing(st, k);
  }

  lemma FitOfNothing(st: State, k: nat)
    ensures Malloc(st, k).1 < 0 <==> NoRoom(st, k)
    ensures Malloc(st, k).1 >= -1
  {
  }

  /** Every call names an allocation that is live then, as far as the heap has stayed whole. */
  ghost predicate AllNamed(ops: seq<Op>, st: State, live: map<nat, nat>)
    decreases |ops|
  {
    ops == [] || (
      Names(ops[0], st, live) &&
      var (st', live') := Do(ops[0], st, live);
      Inv(st', live') ==> AllNamed(ops[1..], st', live'))
  }

  /** The heap is whole after every call. */
  ghost predicate StaysWhole(ops: seq<Op>, st: State, live: map<nat, nat>)
    requires AllNamed(ops, st, live)
    decreases |ops|
  {
    ops == [] || (
      var (st', live') := Do(ops[0], st, live);
      Inv(st', live') && StaysWhole(ops[1..], st', live'))
  }

  /** Every call is harmless in the heap it meets. */
  ghost predicate AllHarmless(ops: seq<Op>, st: State, live: map<nat, nat>)
    requires Inv(st, live) && AllNamed(ops, st, live)
    decreases |ops|
  {
    ops == [] || (
      Harmless(ops[0], st, live) &&
      (CallKeepsInvExactly(ops[0], st, live);
       var (st', live') := Do(ops[0], st, live);
       AllHarmless(ops[1..], st', live')))
  }

  /** `heap_create`: every entry free. */
  function Empty(total: nat): State {
    State(seq(total, i => FREE), 0, total)
  }

  /**
   Over every run, live allocations own disjoint in-range block intervals laid out as
   chains and both counters tell the truth after each call, exactly if each call is
   harmless when it comes.
   */
  lemma {:induction false} RunKeepsInvExactly(ops: seq<Op>, st: State, live: map<nat, nat>)
    requires Inv(st, live) && AllNamed(ops, st, live)
    ensures StaysWhole(ops, st, live) <==> AllHarmless(ops, st, live)
    decreases |ops|
  {
    hide Inv, Names, Harmless, Do;
    if ops != [] {
      CallKeepsInvExactly(ops[0], st, live);
      var (st', live') := Do(ops[0], st, live);
      if Inv(st', live') {
        RunKeepsInvExactly(ops[1..], st', live');
      }
    }
  }

  lemma EmptyHasInv(total: nat)
    requires total < WORD
    ensures Inv(Empty(total), map[])
  {
    TakenExtremes(Empty(total).table, 0, total);
  }

  /** Freeing an open allocation of two blocks lets the block behind it be handed out twice. */
  lemma OpenFreeHandsOutTwice()
    ensures var (st1, a) := Malloc(Empty(4), 2);
            var (st2, b) := Malloc(st1, 1);
            a == 0 && b == 2 &&
            var (st3, c) := Malloc(Free(st2, a), 3);
            c == 0 && c <= b < c + 3
  {
    var st2 := TwoThenOne();
    var st3 := Free(st2, 0);
    assert st3.table == [FREE, FREE, FREE, FREE];
    assert FreeRun(st3.table, 0, 3);
  }
}
