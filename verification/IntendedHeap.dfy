/**
 The block heap as its own reallocation code has it (memory/heap/heap.c:341, 364): the last
 block of an allocation does not point on, and freed blocks are counted once.  In this form
 no run of calls does harm; `BlockTable` says exactly which runs do in the form that is
 there.
 */
module IntendedHeap {
  import opened BlockTable

  /** `heap_mark_blocks_taken` with the test for the end on block i + 1. */
  function Mark(e: seq<Entry>, s: nat, n: nat): (r: seq<Entry>)
    ensures |r| == |e|
  {
    seq(|e|, i requires 0 <= i < |e| => if s <= i < s + n then Entry(true, i == s, i + 1 < s + n) else e[i])
  }

  function Malloc(st: State, n: nat): (State, int) {
    var s := FirstFit(st.table, n);
    if s < 0 then (st, -1) else (State(Mark(st.table, s, n), U64(st.used + n), U64(st.free - n)), s)
  }

  /** `heap_realloc` without the second adjustment of the counters. */
  function Realloc(st: State, s: nat, k: nat): (State, int) {
    var cur := BlockCount(st.table, s);
    if k == 0 then (Free(st, s), -1)
    else if cur == k then (st, s)
    else if cur > k then
      var freed := Walk(st.table, s + k);
      (State(Shrunk(st.table, s, k), U64(st.used - freed), U64(st.free + freed)), s)
    else if BlocksFree(st.table, s + cur, s + k) then
      (State(Extended(st.table, s, cur, k), U64(st.used + (k - cur)), U64(st.free - (k - cur))), s)
    else
      var (st1, t) := Malloc(st, k);
      if t < 0 then (st, -1) else (Free(st1, s), t)
  }

  /** The heap is whole and every allocation closed. */
  ghost predicate Whole(st: State, live: map<nat, nat>) { Inv(st, live) && AllClosed(st.table, live) }

  ghost predicate AllClosed(e: seq<Entry>, live: map<nat, nat>)
    requires Disjoint(live, |e|)
  {
    forall s :: s in live ==> Closed(e, live, s)
  }

  /** What a call leaves alone is closed as before. */
  lemma OthersStayClosed(e: seq<Entry>, live: map<nat, nat>, e': seq<Entry>, live': map<nat, nat>)
    requires Parsed(e, live) && Parsed(e', live') && |e'| == |e|
    requires forall t :: t in live ==> Closed(e, live, t)
    requires forall t :: t in live' ==>
               Closed(e', live', t) || (t in live && live'[t] == live[t] && e'[t + live[t] - 1] == e[t + live[t] - 1])
    ensures forall t :: t in live' ==> Closed(e', live', t)
  {
    forall t | t in live' ensures Closed(e', live', t) {
    }
  }

  lemma MarkKeepsParse(e: seq<Entry>, live: map<nat, nat>, s: nat, n: nat)
    requires Parsed(e, live) && n > 0 && FreeRun(e, s, n)
    ensures s !in live && Parsed(Mark(e, s, n), live[s := n]) && Closed(Mark(e, s, n), live[s := n], s)
    ensures Total(Mark(e, s, n)) == Total(e) + n <= |e|
  {
    RunIsOutside(e, live, s, n);
    var e', live' := Mark(e, s, n), live[s := n];
    assert Chains(e', live') by {
      forall t, i | Within(live', t, i)
        ensures e'[i].taken && (e'[i].first <==> i == t) && (i + 1 < t + live'[t] ==> e'[i].hasNext)
      {
        if t != s { assert Within(live, t, i); }
      }
    }
    forall i | 0 <= i < |e| && e'[i].taken ensures exists t :: Within(live', t, i) {
      if s <= i < s + n { assert Within(live', s, i); }
      else { var t :| Within(live, t, i); assert Within(live', t, i); }
    }
    ClaimedTotal(e, e', s, n);
  }

  lemma InWord(x: int)
    ensures 0 <= x < WORD ==> U64(x) == x
  {
  }

  lemma MallocKeepsWhole(st: State, live: map<nat, nat>, n: nat)
    requires Whole(st, live)
    ensures var (st', s) := Malloc(st, n);
            if s < 0 then st' == st && (n == 0 || forall b :: !FreeRun(st.table, b, n))
            else s !in live && FreeRun(st.table, s, n) && Whole(st', live[s := n])
  {
    var (st', s) := Malloc(st, n);
    if s >= 0 {
      assert Disjoint(live, |st.table|);
      hide Mark, Total, AllClosed, FreeRun, Parsed, U64;
      MarkKeepsParse(st.table, live, s, n);
      assert Accurate(st') by {
        InWord(st.used + n);
        InWord(st.free - n);
      }
      MarkKeepsClosed(st.table, live, s, n);
    }
  }

  lemma MarkKeepsClosed(e: seq<Entry>, live: map<nat, nat>, s: nat, n: nat)
    requires Parsed(e, live) && n > 0 && FreeRun(e, s, n)
    requires AllClosed(e, live)
    ensures var e', live' := Mark(e, s, n), live[s := n]; Parsed(e', live') && AllClosed(e', live')
  {
    var e', live' := Mark(e, s, n), live[s := n];
    ParsedIsDisjoint(e, live);
    hide Parsed, Disjoint, Mark, FreeRun, Closed;
    MarkKeepsParse(e, live, s, n);
    ParsedIsDisjoint(e', live');
    LastUnmarked(e, live, s, n);
    forall t | t in live' ensures Closed(e', live', t) {
      if t != s {
        SameLast(e, live, e', live', t);
      }
    }
  }

  lemma SameLast(e: seq<Entry>, live: map<nat, nat>, e': seq<Entry>, live': map<nat, nat>, t: nat)
    requires Disjoint(live, |e|) && Disjoint(live', |e'|) && |e'| == |e| && t in live && t in live'
    requires Closed(e, live, t) && live'[t] == live[t] && e'[t + live[t] - 1] == e[t + live[t] - 1]
    ensures Closed(e', live', t)
  {
  }

  lemma ParsedIsDisjoint(e: seq<Entry>, live: map<nat, nat>)
    requires Parsed(e, live)
    ensures Disjoint(live, |e|)
  {
  }

  lemma LastUnmarked(e: seq<Entry>, live: map<nat, nat>, s: nat, n: nat)
    requires Parsed(e, live) && n > 0 && FreeRun(e, s, n)
    ensures forall t :: t in live ==> Mark(e, s, n)[t + live[t] - 1] == e[t + live[t] - 1]
  {
    hide Parsed, Chains, FreeRun;
    RunIsOutside(e, live, s, n);
    forall t | t in live ensures Mark(e, s, n)[t + live[t] - 1] == e[t + live[t] - 1] {
      assert live[s := n][t] == live[t];
    }
  }

  /** Releasing an allocation leaves the last blocks of the others. */
  lemma LastCleared(e: seq<Entry>, live: map<nat, nat>, s: nat)
    requires Parsed(e, live) && s in live
    ensures forall t :: t in live && t != s ==> Clear(e, s, live[s])[t + live[t] - 1] == e[t + live[t] - 1]
  {
    hide Parsed, Chains;
    ChainBlocks(e, live, s);
  }

  lemma FreeKeepsWhole(st: State, live: map<nat, nat>, s: nat)
    requires Whole(st, live) && s in live
    ensures Whole(Free(st, s), live - {s}) && |Free(st, s).table| == |st.table|
  {
    hide Total, Chains, Accurate, Closed, Clear, Walk, Parsed;
    FreeExact(st, live, s);
    ChainBlocks(st.table, live, s);
    WalkEndsWithChain(st.table, live, s, 0);
    LastCleared(st.table, live, s);
    OthersStayClosed(st.table, live, Free(st, s).table, live - {s});
  }

  lemma ShrinkKeepsWhole(st: State, live: map<nat, nat>, s: nat, k: nat)
    requires Whole(st, live) && s in live && 0 < k < live[s]
    ensures Realloc(st, s, k).1 == s && Whole(Realloc(st, s, k).0, live[s := k])
  {
    hide Shrunk, Walk, Total, Taken, BlockCount, Chains, Closed, Parsed, Countable;
    ChainBlocks(st.table, live, s);
    BlockCountExact(st.table, live, s);
    assert Countable(st.table, live, s) by { ClosedIsCountable(st.table, live, s); }
    ShrinkKeepsParse(st.table, live, s, k);
    ChainIsTaken(st.table, live, s);
    LastShrunk(st.table, live, s, k);
    OthersStayClosed(st.table, live, Realloc(st, s, k).0.table, live[s := k]);
  }

  lemma ClosedIsCountable(e: seq<Entry>, live: map<nat, nat>, s: nat)
    requires Disjoint(live, |e|) && s in live && Closed(e, live, s)
    ensures Countable(e, live, s)
  {
  }

  lemma LastShrunk(e: seq<Entry>, live: map<nat, nat>, s: nat, k: nat)
    requires Parsed(e, live) && s in live && 0 < k < live[s] && Countable(e, live, s)
    ensures |Shrunk(e, s, k)| == |e|
    ensures forall t :: t in live && t != s ==> Shrunk(e, s, k)[t + live[t] - 1] == e[t + live[t] - 1]
  {
    hide Shrunk, Parsed, Chains, Countable, Closed, Walk;
    ChainBlocks(e, live, s);
    ShrunkShape(e, live, s, k);
  }

  lemma ExtendKeepsWhole(st: State, live: map<nat, nat>, s: nat, k: nat)
    requires Whole(st, live) && s in live && live[s] < k && BlocksFree(st.table, s + live[s], s + k)
    ensures Realloc(st, s, k).1 == s && Whole(Realloc(st, s, k).0, live[s := k])
  {
    hide Walk, Total, Taken, BlockCount, Chains, Closed, Extended, Parsed, BlocksFree;
    ChainBlocks(st.table, live, s);
    BlockCountExact(st.table, live, s);
    ExtendKeepsParse(st.table, live, s, k);
    LastExtended(st.table, live, s, k);
    OthersStayClosed(st.table, live, Realloc(st, s, k).0.table, live[s := k]);
  }

  lemma LastExtended(e: seq<Entry>, live: map<nat, nat>, s: nat, k: nat)
    requires Parsed(e, live) && s in live && live[s] < k && BlocksFree(e, s + live[s], s + k)
    ensures forall t :: t in live && t != s ==> Extended(e, s, live[s], k)[t + live[t] - 1] == e[t + live[t] - 1]
  {
    hide Parsed, Chains;
    ChainBlocks(e, live, s);
    forall t | t in live && t != s ensures e[t + live[t] - 1].taken {
      ChainBlocks(e, live, t);
    }
  }

  lemma MoveKeepsWhole(st: State, live: map<nat, nat>, s: nat, k: nat)
    requires Whole(st, live) && s in live && live[s] < k && !BlocksFree(st.table, s + live[s], s + k)
    ensures var (st', r) := Realloc(st, s, k);
            if r < 0 then st' == st && forall b :: !FreeRun(st.table, b, k)
            else r !in live && Whole(st', live[r := k] - {s})
  {
    hide Walk, Total, Taken, BlockCount, Chains, Mark, Closed, BlocksFree, FreeRun, FirstFit, BlockTable.Free, Parsed;
    ChainBlocks(st.table, live, s);
    BlockCountExact(st.table, live, s);
    MallocKeepsWhole(st, live, k);
    var (st1, t) := Malloc(st, k);
    if t >= 0 {
      FreeKeepsWhole(st1, live[t := k], s);
    }
  }

  /** Every reallocation of a live allocation leaves the heap whole. */
  lemma ReallocKeepsWhole(st: State, live: map<nat, nat>, s: nat, k: nat)
    requires Whole(st, live) && s in live && k > 0
    ensures var (st', r) := Realloc(st, s, k); Whole(st', Resized(live, s, k, r))
  {
    hide Walk, Total, Taken, BlockCount, Chains, BlocksFree, Realloc;
    BlockCountExact(st.table, live, s);
    if k == live[s] {
      SameSize(st, live, s);
      assert live[s := k] == live;
    } else if k < live[s] {
      ShrinkKeepsWhole(st, live, s, k);
    } else if BlocksFree(st.table, s + live[s], s + k) {
      ExtendKeepsWhole(st, live, s, k);
    } else {
      MoveKeepsWhole(st, live, s, k);
    }
  }

  lemma SameSize(st: State, live: map<nat, nat>, s: nat)
    requires Whole(st, live) && s in live
    ensures Realloc(st, s, live[s]) == (st, s)
  {
    BlockCountExact(st.table, live, s);
  }

  // ------------------------------------------------------------------ all runs

  ghost predicate Names(op: Op, live: map<nat, nat>) { op.Alloc? || op.start in live }

  ghost function Do(op: Op, st: State, live: map<nat, nat>): (State, map<nat, nat>)
    requires Names(op, live)
  {
    match op
    case Alloc(n) =>
      var (st', s) := Malloc(st, n);
      (st', if s < 0 then live else live[s := n])
    case Release(s) => (Free(st, s), live - {s})
    case Resize(s, k, _) =>
      var (st', r) := Realloc(st, s, k);
      (st', if k == 0 then live - {s} else Resized(live, s, k, r))
  }

  lemma CallKeepsWhole(op: Op, st: State, live: map<nat, nat>)
    requires Whole(st, live) && Names(op, live)
    ensures var (st', live') := Do(op, st, live); Whole(st', live')
  {
    hide Whole, Free, Realloc, Malloc;
    match op
    case Alloc(n) => MallocKeepsWhole(st, live, n);
    case Release(s) => FreeKeepsWhole(st, live, s);
    case Resize(s, k, _) =>
      if k == 0 {
        FreeKeepsWhole(st, live, s);
        ZeroFrees(st, s);
      } else {
        ReallocKeepsWhole(st, live, s, k);
      }
  }

  lemma ZeroFrees(st: State, s: nat)
    ensures Realloc(st, s, 0) == (Free(st, s), -1)
  {
  }

  /** Every call names an allocation that is live then. */
  ghost predicate AllNamed(ops: seq<Op>, st: State, live: map<nat, nat>)
    decreases |ops|
  {
    ops == [] || (Names(ops[0], live) && var (st', live') := Do(ops[0], st, live); AllNamed(ops[1..], st', live'))
  }

  ghost function DoAll(ops: seq<Op>, st: State, live: map<nat, nat>): (State, map<nat, nat>)
    requires AllNamed(ops, st, live)
    decreases |ops|
  {
    if ops == [] then (st, live)
    else var (st', live') := Do(ops[0], st, live); DoAll(ops[1..], st', live')
  }

  /** Over every run the heap stays whole: no call needs to be ruled out. */
  lemma {:induction false} RunsKeepWhole(ops: seq<Op>, st: State, live: map<nat, nat>)
    requires Whole(st, live) && AllNamed(ops, st, live)
    ensures var (st', live') := DoAll(ops, st, live); Whole(st', live')
    decreases |ops|
  {
    hide Whole, Names, Do;
    if ops != [] {
      CallKeepsWhole(ops[0], st, live);
      var (st', live') := Do(ops[0], st, live);
      RunsKeepWhole(ops[1..], st', live');
    }
  }
}
