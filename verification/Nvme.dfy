/**
 The NVMe queue pair and the driver's reads (disk/drivers/nvme.c).

 The host and the controller share a submission ring and a completion ring; a phase tag
 tells a fresh completion from a stale one (NVM Express Base Specification 1.4, sections
 4.1, 4.3 and 4.6).  The controller is a step relation: it fetches commands in order, and
 may complete the ones it holds in any order, whenever it likes.
 */
module Nvme {
  import opened Basics

  // ------------------------------------------------------------ the state machine

  /** A completion: its phase tag, and the submission (by number) that it answers. */
  datatype Entry = Entry(tag: bool, of: nat)

  /**
   The rings and the registers of both sides; then the history: how many commands were
   submitted, fetched, which were completed and which completions the host has taken,
   and how often it gave up waiting.
   */
  datatype State = State(n: nat, sq: seq<nat>, tail: nat, sqHead: nat, cq: seq<Entry>, cqTail: nat, ctlTag: bool,
                         head: nat, phase: bool, polling: bool, inflight: seq<nat>,
                         submitted: nat, fetched: nat, posted: seq<nat>, consumed: seq<nat>, timeouts: nat)

  datatype Step = Submit | Consume | Timeout | Fetch | Post(j: nat)

  function Next(i: nat, n: nat): nat { if i + 1 >= n then 0 else i + 1 }

  /** Zeroed rings, and both sides expecting tag 1. */
  function Start(n: nat): State {
    State(n, seq(n, i => 0), 0, 0, seq(n, i => Entry(false, 0)), 0, true, 0, true, false, [], 0, 0, [], [], 0)
  }

  predicate Formed(s: State) {
    s.n >= 2 && |s.sq| == |s.cq| == s.n && s.tail < s.n && s.sqHead < s.n && s.cqTail < s.n && s.head < s.n
  }

  /** The host submits only when it is not polling; the controller never overruns the completions. */
  predicate Enabled(s: State, step: Step)
    requires Formed(s)
  {
    match step
    case Submit => !s.polling
    case Consume => s.polling && s.cq[s.head].tag == s.phase
    case Timeout => s.polling && s.cq[s.head].tag != s.phase
    case Fetch => s.sqHead != s.tail
    case Post(j) => j < |s.inflight| && Next(s.cqTail, s.n) != s.head
  }

  function Do(s: State, step: Step): (t: State)
    requires Formed(s) && Enabled(s, step)
    ensures Formed(t) && t.n == s.n
  {
    match step
    case Submit =>
      s.(sq := s.sq[s.tail := s.submitted], tail := Next(s.tail, s.n), polling := true, submitted := s.submitted + 1)
    case Consume =>
      s.(consumed := s.consumed + [s.cq[s.head].of], polling := false, head := Next(s.head, s.n),
         phase := if s.head + 1 >= s.n then !s.phase else s.phase)
    case Timeout =>
      s.(polling := false, timeouts := s.timeouts + 1)
    case Fetch =>
      s.(inflight := s.inflight + [s.sq[s.sqHead]], sqHead := Next(s.sqHead, s.n), fetched := s.fetched + 1)
    case Post(j) =>
      s.(cq := s.cq[s.cqTail := Entry(s.ctlTag, s.inflight[j])], cqTail := Next(s.cqTail, s.n),
         ctlTag := if s.cqTail + 1 >= s.n then !s.ctlTag else s.ctlTag,
         posted := s.posted + [s.inflight[j]], inflight := s.inflight[..j] + s.inflight[j + 1..])
  }

  // ------------------------------------------------------------------ the rings

  /** The tag of the k-th completion: it changes with every lap. */
  function Tag(k: nat, n: nat): bool
    requires n > 0
  {
    (k / n) % 2 == 0
  }

  /** The registers count modulo the ring size, and tags flip where they wrap. */
  lemma NextCounts(k: nat, n: nat)
    requires n > 0
    ensures Next(k % n, n) == (k + 1) % n
    ensures Tag(k + 1, n) == if k % n + 1 >= n then !Tag(k, n) else Tag(k, n)
  {
    var q, r := k / n, k % n;
    assert k == q * n + r;
    if r + 1 >= n {
      assert (q + 1) * n == q * n + n;
      DivMod(q + 1, 0, n);
    } else {
      DivMod(q, r + 1, n);
    }
  }

  lemma NextLap(k: nat, n: nat)
    requires n > 0
    ensures (k + n) % n == k % n && Tag(k + n, n) == !Tag(k, n)
  {
    var q, r := k / n, k % n;
    assert k == q * n + r;
    assert (q + 1) * n == q * n + n;
    DivMod(q + 1, r, n);
  }

  /** Within a window of one lap the slots are distinct. */
  lemma WindowIsDistinct(a: nat, b: nat, n: nat)
    requires n > 0 && a < b < a + n
    ensures a % n != b % n
  {
    var q, r := a / n, a % n;
    assert a == q * n + r && (q + 1) * n == q * n + n;
    if r + (b - a) < n {
      DivMod(q, r + (b - a), n);
    } else {
      DivMod(q + 1, r + (b - a) - n, n);
    }
  }

  lemma TagSmall(k: nat, n: nat)
    requires k < n
    ensures Tag(k, n) && k % n == k
  {
    DivMod(0, k, n);
  }

  // -------------------------------------------------------------- the invariant

  /** The registers are the counters modulo the ring size. */
  predicate Registers(s: State) {
    && s.n >= 2 && |s.sq| == |s.cq| == s.n
    && s.tail == s.submitted % s.n && s.sqHead == s.fetched % s.n
    && s.cqTail == |s.posted| % s.n && s.head == |s.consumed| % s.n
    && s.ctlTag == Tag(|s.posted|, s.n) && s.phase == Tag(|s.consumed|, s.n)
  }

  predicate Counters(s: State) {
    && |s.consumed| <= |s.posted| && s.fetched == |s.posted| + |s.inflight| && s.fetched <= s.submitted
    && s.submitted == |s.consumed| + s.timeouts + (if s.polling then 1 else 0)
  }

  /** What has been submitted and not fetched is in the submission ring. */
  predicate Submissions(s: State)
    requires s.n > 0 && |s.sq| == s.n
  {
    forall k :: s.fetched <= k < s.submitted ==> s.sq[k % s.n] == k
  }

  /** The completion ring holds the last lap of completions; before the first lap, tag 0. */
  predicate Completions(s: State)
    requires s.n > 0 && |s.cq| == s.n
  {
    && (forall k :: 0 <= k < |s.posted| && |s.posted| - s.n <= k ==> s.cq[k % s.n] == Entry(Tag(k, s.n), s.posted[k]))
    && (forall i :: |s.posted| <= i < s.n ==> !s.cq[i].tag)
  }

  predicate Inv(s: State) {
    Registers(s) && Counters(s) && Submissions(s) && Completions(s) && s.consumed == s.posted[..|s.consumed|]
  }

  /** The phase tag at the head shows whether a completion waits there. */
  lemma TagShowsFresh(s: State)
    requires Inv(s)
    ensures Formed(s) && |s.posted| - |s.consumed| <= s.n ==>
              (s.cq[s.head].tag == s.phase <==> |s.consumed| < |s.posted|)
    ensures Formed(s) && |s.consumed| < |s.posted| <= |s.consumed| + s.n ==> s.cq[s.head].of == s.posted[|s.consumed|]
  {
    var c, p, n := |s.consumed|, |s.posted|, s.n;
    if c == p {
      if p >= n {
        NextLap(p - n, n);
        assert s.cq[(p - n) % n] == Entry(Tag(p - n, n), s.posted[p - n]);
      } else {
        TagSmall(p, n);
      }
    } else if p <= c + n {
      assert s.cq[c % n] == Entry(Tag(c, n), s.posted[c]);
    }
  }

  /** Fewer than n - 1 timeouts: what is outstanding still fits in the rings. */
  predicate Fits(s: State) { s.timeouts + 2 <= s.n }

  lemma SubmitKeeps(s: State)
    requires Inv(s) && Fits(s) && Formed(s) && Enabled(s, Submit)
    ensures Inv(Do(s, Submit))
  {
    NextCounts(s.submitted, s.n);
    forall k | s.fetched <= k < s.submitted ensures k % s.n != s.submitted % s.n {
      WindowIsDistinct(k, s.submitted, s.n);
    }
  }

  lemma ConsumeKeeps(s: State)
    requires Inv(s) && Fits(s) && Formed(s) && Enabled(s, Consume)
    ensures Inv(Do(s, Consume))
    ensures Do(s, Consume).consumed == s.consumed + [s.posted[|s.consumed|]]
  {
    TagShowsFresh(s);
    NextCounts(|s.consumed|, s.n);
  }

  lemma FetchKeeps(s: State)
    requires Inv(s) && Fits(s) && Formed(s) && Enabled(s, Fetch)
    ensures Inv(Do(s, Fetch))
    ensures Do(s, Fetch).inflight == s.inflight + [s.fetched]
  {
    NextCounts(s.fetched, s.n);
  }

  lemma PostKeeps(s: State, j: nat)
    requires Inv(s) && Fits(s) && Formed(s) && Enabled(s, Post(j))
    ensures Inv(Do(s, Post(j)))
  {
    var p, n := |s.posted|, s.n;
    NextCounts(p, n);
    forall k | 0 <= k < p && p + 1 - n <= k ensures k % n != p % n {
      WindowIsDistinct(k, p, n);
    }
    if p < n { TagSmall(p, n); }
    hide Tag;
  }

  lemma StepKeepsInv(s: State, step: Step)
    requires Inv(s) && Fits(s) && Formed(s) && Enabled(s, step)
    ensures Inv(Do(s, step))
  {
    hide Inv, Do, Enabled, Formed;
    match step
    case Submit => SubmitKeeps(s);
    case Consume => ConsumeKeeps(s);
    case Timeout => TimeoutKeeps(s);
    case Fetch => FetchKeeps(s);
    case Post(j) => PostKeeps(s, j);
  }

  lemma TimeoutKeeps(s: State)
    requires Inv(s) && Formed(s) && Enabled(s, Timeout)
    ensures Inv(Do(s, Timeout))
  {
  }

  lemma StartHasInv(n: nat)
    requires n >= 2
    ensures Inv(Start(n)) && Formed(Start(n))
  {
    TagSmall(0, n);
  }

  // ------------------------------------------------------------------- all runs

  /** `t` is reached from `s` by the steps, each enabled, with the rings never overcommitted. */
  predicate Runs(s: State, steps: seq<Step>, t: State)
    decreases |steps|
  {
    if steps == [] then s == t
    else Formed(s) && Fits(s) && Enabled(s, steps[0]) && Runs(Do(s, steps[0]), steps[1..], t)
  }

  /** Over any interleaving the completion ring is a queue: taken in order, none lost, none twice. */
  lemma {:induction false} RunsKeepInv(s: State, steps: seq<Step>, t: State)
    requires Inv(s) && Runs(s, steps, t)
    ensures Inv(t)
    decreases |steps|
  {
    hide Inv, Do, Enabled, Formed, Fits;
    if steps != [] {
      StepKeepsInv(s, steps[0]);
      RunsKeepInv(Do(s, steps[0]), steps[1..], t);
    }
  }

  /** Completions are in the order of submission. */
  predicate Fifo(s: State) {
    && (forall k :: 0 <= k < |s.posted| ==> s.posted[k] == k)
    && (forall j :: 0 <= j < |s.inflight| ==> s.inflight[j] == |s.posted| + j)
  }

  /** A controller that completes commands in order keeps them in order. */
  lemma FifoStep(s: State, step: Step)
    requires Inv(s) && Fits(s) && Formed(s) && Enabled(s, step) && Fifo(s) && (step.Post? ==> step.j == 0)
    ensures Fifo(Do(s, step))
  {
    if step == Fetch { FetchKeeps(s); }
  }

  /** While nothing has timed out at most one command is outstanding, so order is all the controller can do. */
  lemma PatientMeansInOrder(s: State, j: nat)
    requires Inv(s) && s.timeouts == 0 && j < |s.inflight|
    ensures j == 0
  {
  }

  lemma {:induction false} PatientRunsAreFifo(s: State, steps: seq<Step>, t: State)
    requires Inv(s) && Fifo(s) && Runs(s, steps, t) && t.timeouts == 0
    ensures Fifo(t) && s.timeouts == 0
    decreases |steps|
  {
    if steps != [] {
      hide Inv, Fifo, Formed, Fits;
      StepKeepsInv(s, steps[0]);
      var u := Do(s, steps[0]);
      TimeoutsGrow(u, steps[1..], t);
      assert s.timeouts <= u.timeouts;
      if steps[0].Post? { PatientMeansInOrder(s, steps[0].j); }
      FifoStep(s, steps[0]);
      PatientRunsAreFifo(u, steps[1..], t);
    }
  }

  lemma {:induction false} TimeoutsGrow(s: State, steps: seq<Step>, t: State)
    requires Runs(s, steps, t)
    ensures s.timeouts <= t.timeouts
    decreases |steps|
  {
    if steps != [] { TimeoutsGrow(Do(s, steps[0]), steps[1..], t); }
  }

  /**
   Ring safety: for queues of any size from 2 on, across any number of laps and any
   interleaving in which the host never gives up, the k-th completion it takes is the one
   posted for the k-th command it submitted.
   */
  lemma KthCompletionAnswersKthCommand(n: nat, steps: seq<Step>, t: State, k: nat)
    requires n >= 2 && Runs(Start(n), steps, t) && t.timeouts == 0 && k < |t.consumed|
    ensures t.consumed[k] == k
    ensures t.submitted == |t.consumed| + (if t.polling then 1 else 0)
  {
    StartHasInv(n);
    RunsKeepInv(Start(n), steps, t);
    PatientRunsAreFifo(Start(n), steps, t);
  }

  /**
   Once the host has given up, it is behind for good: with an in-order controller the
   completion it takes for a command is that of the command as many earlier as there have
   been timeouts, and hence the right one exactly if there has been none.
   */
  lemma TimeoutsShiftAnswers(s: State)
    requires Inv(s) && Fits(s) && Formed(s) && Enabled(s, Consume) && Fifo(s)
    ensures s.cq[s.head].of == s.submitted - 1 - s.timeouts
    ensures s.cq[s.head].of == s.submitted - 1 <==> s.timeouts == 0
  {
    TagShowsFresh(s);
  }

  /** Such a state is reached: a completion posted late is taken for the next command. */
  lemma LateCompletionIsTakenForNext()
    ensures exists steps, t :: Runs(Start(4), steps, t) && t.submitted == 2 && t.consumed == [0] && !t.polling
  {
    var s0 := Start(4);
    var s1 := Do(s0, Submit);
    var s2 := Do(s1, Timeout);
    var s3 := Do(s2, Submit);
    var s4 := Do(s3, Fetch);
    var s5 := Do(s4, Post(0));
    var s6 := Do(s5, Consume);
    hide Do;
    var steps := [Submit, Timeout, Submit, Fetch, Post(0), Consume];
    RunsOne(s5, Consume, [], s6);
    RunsOne(s4, Post(0), [Consume], s6);
    RunsOne(s3, Fetch, [Post(0), Consume], s6);
    RunsOne(s2, Submit, [Fetch, Post(0), Consume], s6);
    RunsOne(s1, Timeout, [Submit, Fetch, Post(0), Consume], s6);
    RunsOne(s0, Submit, [Timeout, Submit, Fetch, Post(0), Consume], s6);
  }

  lemma RunsOne(s: State, step: Step, rest: seq<Step>, t: State)
    requires Formed(s) && Fits(s) && Enabled(s, step) && Runs(Do(s, step), rest, t)
    ensures Runs(s, [step] + rest, t)
  {
    assert ([step] + rest)[1..] == rest;
  }

  /** How many controller steps are still due. */
  function Due(s: State): int { 2 * (s.submitted - s.fetched) + |s.inflight| }

  /** A polling host is never stuck: it can take a completion, or the controller has a step that brings one nearer. */
  lemma NeverStuck(s: State)
    requires Inv(s) && Fits(s) && Formed(s) && s.polling
    ensures Due(s) >= 0
    ensures || Enabled(s, Consume)
            || (Enabled(s, Fetch) && Due(Do(s, Fetch)) < Due(s))
            || (Enabled(s, Post(0)) && Due(Do(s, Post(0))) < Due(s))
  {
    TagShowsFresh(s);
    if |s.consumed| == |s.posted| {
      if s.inflight != [] {
        NextCounts(|s.posted|, s.n);
        WindowIsDistinct(|s.posted|, |s.posted| + 1, s.n);
      } else {
        WindowIsDistinct(s.fetched, s.submitted, s.n);
      }
    }
  }

  lemma {:induction false} RunsAppend(s: State, steps: seq<Step>, t: State, step: Step)
    requires Runs(s, steps, t) && Formed(t) && Fits(t) && Enabled(t, step)
    ensures Runs(s, steps + [step], Do(t, step))
    decreases |steps|
  {
    hide Do, Enabled, Formed, Fits;
    if steps == [] {
      RunsNone(Do(t, step));
      RunsOne(t, step, [], Do(t, step));
      assert steps + [step] == [step] + [];
    } else {
      RunsAppend(Do(s, steps[0]), steps[1..], t, step);
      RunsOne(s, steps[0], steps[1..] + [step], Do(t, step));
      assert steps + [step] == [steps[0]] + (steps[1..] + [step]);
    }
  }

  lemma RunsNone(s: State)
    ensures Runs(s, [], s)
  {
  }

  // ------------------------------------------------------------ one polling period

  /** The host sees a completion at the head. */
  predicate Fresh(s: State)
    requires Formed(s)
  {
    s.cq[s.head].tag == s.phase
  }

  /** A step that the controller may take now or not. */
  function Moved(s: State, step: Step): (t: State)
    requires Formed(s)
    ensures Formed(t) && t.n == s.n && t.polling == s.polling && t.timeouts == s.timeouts && t.consumed == s.consumed
    ensures t.submitted == s.submitted && s.posted <= t.posted
  {
    if (step.Fetch? || step.Post?) && Enabled(s, step) then Do(s, step) else s
  }

  /** What becomes of the queues when the controller tries `moves` and nobody looks. */
  function After(s: State, moves: seq<Step>): (t: State)
    requires Formed(s)
    ensures Formed(t) && s.posted <= t.posted
    decreases |moves|
  {
    if moves == [] then s else After(Moved(s, moves[0]), moves[1..])
  }

  /** The polling loop of `nvme_io_submit_and_poll`: it looks before every move and once after the last. */
  function Polled(s: State, moves: seq<Step>): (t: State)
    requires Formed(s)
    ensures Formed(t) && t.polling == s.polling && t.timeouts == s.timeouts && t.consumed == s.consumed && t.n == s.n
    decreases |moves|
  {
    if moves == [] || Fresh(s) then s else Polled(Moved(s, moves[0]), moves[1..])
  }

  /** The whole exchange: the queues afterwards, and the answer if there was one in time. */
  function Exchange(s: State, moves: seq<Step>): (State, Option<nat>)
    requires Formed(s) && !s.polling
  {
    var last := Polled(Do(s, Submit), moves);
    if Fresh(last) then (Do(last, Consume), Some(last.cq[last.head].of)) else (Do(last, Timeout), None)
  }

  /** The host gives up exactly if it has tried all the moves and no look showed a completion. */
  lemma {:induction false} GivesUpExactly(s: State, moves: seq<Step>)
    requires Formed(s)
    ensures !Fresh(Polled(s, moves)) <==> forall k :: 0 <= k <= |moves| ==> !Fresh(After(s, moves[..k]))
    ensures !Fresh(Polled(s, moves)) ==> Polled(s, moves) == After(s, moves)
    decreases |moves|
  {
    hide Fresh;
    assert After(s, moves[..0]) == s;
    if moves != [] && !Fresh(s) {
      var rest, u := moves[1..], Moved(s, moves[0]);
      GivesUpExactly(u, rest);
      forall k | 0 < k <= |moves| ensures After(s, moves[..k]) == After(u, rest[..k - 1]) {
        assert moves[..k][1..] == rest[..k - 1];
      }
      forall k | 0 <= k <= |rest| ensures After(u, rest[..k]) == After(s, moves[..k + 1]) {
        assert moves[..k + 1][1..] == rest[..k];
      }
    }
  }

  lemma MovedKeepsInv(s: State, step: Step)
    requires Inv(s) && Fits(s) && Formed(s)
    ensures Inv(Moved(s, step))
  {
    if Enabled(s, step) { StepKeepsInv(s, step); }
  }

  /** It has its answer exactly if the moves, left to themselves, post one more than it has taken. */
  lemma {:induction false} AnsweredExactly(s: State, moves: seq<Step>)
    requires Inv(s) && Fits(s) && Formed(s) && s.polling
    ensures Fresh(Polled(s, moves)) <==> |s.consumed| < |After(s, moves).posted|
    decreases |moves|
  {
    TagShowsFresh(s);
    hide Inv, Moved, Enabled, Do;
    if moves != [] && !Fresh(s) {
      MovedKeepsInv(s, moves[0]);
      AnsweredExactly(Moved(s, moves[0]), moves[1..]);
    }
  }

  /** The controller fetches and later completes: all that a command needs of it. */
  predicate Completing(moves: seq<Step>) {
    exists i, j :: 0 <= i < j < |moves| && moves[i] == Fetch && moves[j] == Post(0)
  }

  /** The controller holds the command that is polled for, and nothing else is under way. */
  predicate Holding(s: State) {
    Inv(s) && Fits(s) && s.timeouts == 0 && s.polling && |s.inflight| == 1
  }

  /** The command that is polled for still waits in the submission ring. */
  predicate Waiting(s: State) {
    Inv(s) && Fits(s) && s.timeouts == 0 && s.polling && s.fetched < s.submitted
  }

  lemma HoldingMoves(s: State, step: Step)
    requires Holding(s)
    ensures Formed(s) && if step == Post(0) then |s.consumed| < |Moved(s, step).posted| else Moved(s, step) == s
  {
    NextCounts(|s.posted|, s.n);
  }

  lemma WaitingMoves(s: State, step: Step)
    requires Waiting(s)
    ensures Formed(s) && if step == Fetch then Holding(Moved(s, step)) else Moved(s, step) == s
  {
    WindowIsDistinct(s.fetched, s.submitted, s.n);
    if step == Fetch { FetchKeeps(s); }
  }

  lemma {:induction false} HoldingAnswered(s: State, moves: seq<Step>)
    requires Holding(s) && Formed(s)
    ensures |s.consumed| < |After(s, moves).posted| <==> exists j :: 0 <= j < |moves| && moves[j] == Post(0)
    decreases |moves|
  {
    if moves != [] {
      HoldingMoves(s, moves[0]);
      hide Holding, Moved, Inv;
      if moves[0] != Post(0) {
        HoldingAnswered(s, moves[1..]);
        assert forall j :: 0 < j < |moves| ==> moves[j] == moves[1..][j - 1];
      }
    } else {
      assert |s.consumed| == |s.posted|;
    }
  }

  lemma {:induction false} WaitingAnswered(s: State, moves: seq<Step>)
    requires Waiting(s) && Formed(s)
    ensures |s.consumed| < |After(s, moves).posted| <==> Completing(moves)
    decreases |moves|
  {
    if moves != [] {
      var rest := moves[1..];
      assert forall j :: 0 < j < |moves| ==> moves[j] == rest[j - 1];
      WaitingMoves(s, moves[0]);
      hide Waiting, Moved, Inv, Holding;
      if moves[0] == Fetch {
        HoldingAnswered(Moved(s, Fetch), rest);
        assert Completing(moves) <==> exists j :: 0 <= j < |rest| && rest[j] == Post(0) by {
          if j :| 0 <= j < |rest| && rest[j] == Post(0) { assert moves[0] == Fetch && moves[j + 1] == Post(0); }
        }
      } else {
        WaitingAnswered(s, rest);
        if Completing(rest) {
          var i, j :| 0 <= i < j < |rest| && rest[i] == Fetch && rest[j] == Post(0);
          assert moves[i + 1] == Fetch && moves[j + 1] == Post(0);
        }
        if Completing(moves) {
          var i, j :| 0 <= i < j < |moves| && moves[i] == Fetch && moves[j] == Post(0);
          assert rest[i - 1] == Fetch && rest[j - 1] == Post(0);
        }
      }
    } else {
      assert |s.consumed| == |s.posted|;
    }
  }

  /**
   As long as nothing has timed out, a command is answered in time exactly if the controller
   fetches it and later completes it while the host polls, whatever else it tries.
   */
  lemma PatientExchange(s: State, moves: seq<Step>)
    requires Inv(s) && Fits(s) && Formed(s) && !s.polling && s.timeouts == 0
    ensures Exchange(s, moves).1.Some? <==> Completing(moves)
  {
    SubmitKeeps(s);
    var u := Do(s, Submit);
    assert Waiting(u);
    hide Inv, Do, Polled, After, Completing;
    AnsweredExactly(u, moves);
    WaitingAnswered(u, moves);
  }

  // ------------------------------------------------------------------ in place

  /** The two rings, the registers of both sides and the history. */
  class QueuePair {
    const n: nat
    const sq: array<nat>
    const cq: array<Entry>
    var tail: nat
    var head: nat
    var phase: bool
    var polling: bool
    var sqHead: nat
    var cqTail: nat
    var ctlTag: bool
    var inflight: seq<nat>
    var submitted: nat
    var fetched: nat
    var posted: seq<nat>
    var consumed: seq<nat>
    var timeouts: nat

    function View(): State
      reads this, sq, cq
    {
      State(n, sq[..], tail, sqHead, cq[..], cqTail, ctlTag, head, phase, polling, inflight,
            submitted, fetched, posted, consumed, timeouts)
    }

    constructor (n: nat)
      requires n >= 2
      ensures View() == Start(n) && Inv(View()) && fresh(sq) && fresh(cq)
    {
      this.n := n;
      sq := new nat[n](i => 0);
      cq := new Entry[n](i => Entry(false, 0));
      tail, head, phase, polling := 0, 0, true, false;
      sqHead, cqTail, ctlTag, inflight := 0, 0, true, [];
      submitted, fetched, posted, consumed, timeouts := 0, 0, [], [], 0;
      new;
      StartHasInv(n);
      assert sq[..] == Start(n).sq && cq[..] == Start(n).cq;
    }

    /** The command goes to the tail and the doorbell rings. */
    method SubmitCommand()
      requires Formed(View()) && Enabled(View(), Submit)
      modifies this, sq
      ensures View() == Do(old(View()), Submit)
    {
      sq[tail] := submitted;
      var newTail := tail + 1;
      if newTail >= n {
        newTail := 0;
      }
      tail := newTail;
      submitted := submitted + 1;
      polling := true;
    }

    /** The completion at the head is taken. */
    method TakeCompletion() returns (answers: nat)
      requires Formed(View()) && Enabled(View(), Consume)
      modifies this
      ensures View() == Do(old(View()), Consume) && consumed == old(consumed) + [answers]
      ensures answers == old(cq[head].of)
    {
      answers := cq[head].of;
      consumed := consumed + [answers];
      var newHead := head + 1;
      if newHead >= n {
        newHead := 0;
        phase := !phase;
      }
      head := newHead;
      polling := false;
    }

    /** The controller takes the next command from the ring. */
    method FetchCommand()
      requires Formed(View()) && Enabled(View(), Fetch)
      modifies this
      ensures View() == Do(old(View()), Fetch)
    {
      inflight := inflight + [sq[sqHead]];
      sqHead := Next(sqHead, n);
      fetched := fetched + 1;
    }

    /** The controller completes one of the commands it holds. */
    method PostCompletion(j: nat)
      requires Formed(View()) && Enabled(View(), Post(j))
      modifies this, cq
      ensures View() == Do(old(View()), Post(j))
    {
      cq[cqTail] := Entry(ctlTag, inflight[j]);
      posted := posted + [inflight[j]];
      inflight := inflight[..j] + inflight[j + 1..];
      if cqTail + 1 >= n {
        ctlTag := !ctlTag;
      }
      cqTail := Next(cqTail, n);
    }

    /** The controller tries a step. */
    method ControllerMove(step: Step) returns (ghost taken: seq<Step>)
      requires Formed(View())
      modifies this, sq, cq
      ensures Formed(View()) && View() == Moved(old(View()), step)
      ensures (taken == [] && View() == old(View())) ||
              (taken == [step] && Enabled(old(View()), step) && View() == Do(old(View()), step))
    {
      taken := [];
      if step == Fetch && sqHead != tail {
        FetchCommand();
        taken := [step];
      } else if step.Post? && step.j < |inflight| && Next(cqTail, n) != head {
        PostCompletion(step.j);
        taken := [step];
      }
    }

    /**
     The queue half of `nvme_io_submit_and_poll`; `moves[i]` is what the controller tries
     between two looks at the completion.  Without an answer the host has given up.
     */
    method SubmitAndPoll(moves: seq<Step>) returns (answer: Option<nat>, ghost steps: seq<Step>)
      requires Inv(View()) && Fits(View()) && !polling
      modifies this, sq, cq
      ensures Runs(old(View()), steps, View()) && Inv(View()) && !polling
      ensures Formed(old(View())) && (View(), answer) == Exchange(old(View()), moves)
      ensures answer == None ==> timeouts == old(timeouts) + 1 && consumed == old(consumed)
      ensures answer.Some? ==> timeouts == old(timeouts) && consumed == old(consumed) + [answer.value]
    {
      hide Do, Enabled, Inv, Runs, Polled, Fresh;
      ghost var start := View();
      InvIsFormed(start);
      SubmitEnabled(start);
      SubmitOnly(start);
      SubmitCommand();
      ghost var polled := Poll(moves);
      ghost var last := View();
      RunsOne(start, Submit, polled, last);
      steps := [Submit] + polled;
      LookDecides(last);
      if cq[head].tag != phase {
        timeouts, polling := timeouts + 1, false;
        GivesUp(last);
        RunsAppend(start, steps, last, Timeout);
        steps := steps + [Timeout];
        answer := None;
      } else {
        var k := TakeCompletion();
        TakesOne(last);
        RunsAppend(start, steps, last, Consume);
        steps := steps + [Consume];
        answer := Some(k);
      }
      RunsKeepInv(start, steps, View());
    }

    /** Its loop. */
    method Poll(moves: seq<Step>) returns (ghost taken: seq<Step>)
      requires Formed(View()) && Fits(View())
      modifies this, sq, cq
      ensures Formed(View()) && View() == Polled(old(View()), moves) && Runs(old(View()), taken, View())
    {
      hide Do, Enabled, Runs, Moved;
      ghost var start := View();
      RunsNone(start);
      taken := [];
      var i := 0;
      while i < |moves| && cq[head].tag != phase
        invariant 0 <= i <= |moves| && Formed(View()) && Fits(View()) && Runs(start, taken, View())
        invariant Polled(start, moves) == Polled(View(), moves[i..])
        decreases |moves| - i
      {
        ghost var before := View();
        ghost var step := ControllerMove(moves[i]);
        if step != [] {
          RunsAppend(start, taken, before, moves[i]);
          taken := taken + step;
        }
        i := i + 1;
      }
    }
  }

  lemma InvIsFormed(s: State)
    requires Inv(s)
    ensures Formed(s)
  {
  }

  lemma SubmitEnabled(s: State)
    requires Formed(s) && !s.polling
    ensures Enabled(s, Submit)
  {
  }

  lemma SubmitOnly(s: State)
    requires Formed(s) && Enabled(s, Submit)
    ensures var t := Do(s, Submit); t.polling && t.timeouts == s.timeouts && t.consumed == s.consumed && t.n == s.n
  {
  }

  lemma LookDecides(s: State)
    requires Formed(s) && s.polling
    ensures Fresh(s) == (s.cq[s.head].tag == s.phase)
    ensures Enabled(s, Consume) == (s.cq[s.head].tag == s.phase) && Enabled(s, Timeout) == !Enabled(s, Consume)
  {
  }

  lemma GivesUp(s: State)
    requires Formed(s) && Enabled(s, Timeout)
    ensures Do(s, Timeout) == s.(polling := false, timeouts := s.timeouts + 1)
  {
  }

  lemma TakesOne(s: State)
    requires Formed(s) && Enabled(s, Consume)
    ensures !Do(s, Consume).polling && Do(s, Consume).timeouts == s.timeouts
  {
  }

  // -------------------------------------------------------------- data transfer

  /** A read command: first block, number of blocks and the two physical region pages. */
  datatype Command = Command(lba: nat, sectors: nat, prp1: nat, prp2: nat)

  /** The command that `nvme_io_submit_and_poll` builds for a buffer at `addr`. */
  function CommandFor(lba: nat, nlb: nat, addr: nat): Command {
    var bytes := nlb * 512;
    var first := Min(4096 - addr % 4096, bytes);
    if bytes > first then
      var described := first + Min(bytes - first, 4096);
      Command(lba, (described + 511) / 512, addr, addr + first)
    else Command(lba, nlb, addr, 0)
  }

  /** The commands of `nvme_disk_driver_read`. */
  function Commands(lba: nat, total: nat, addr: nat): seq<Command>
    decreases total
  {
    if total == 0 then []
    else
      var nlb := Min(total, 16);
      [CommandFor(lba, nlb, addr)] + Commands(lba + nlb, total - nlb, addr + nlb * 512)
  }

  /** The bytes that go to the first page. */
  function FirstSpan(c: Command): nat { Min(4096 - c.prp1 % 4096, c.sectors * 512) }

  /** More than two pages: the second entry then points to a list of pages. */
  predicate UsesList(c: Command) { c.sectors * 512 - FirstSpan(c) > 4096 }

  /** The byte of the transfer that the controller puts at `a`, by the two page entries. */
  function Source(c: Command, a: nat): Option<nat> {
    var first := FirstSpan(c);
    if c.prp1 <= a < c.prp1 + first then Some(a - c.prp1)
    else if c.prp2 <= a < c.prp2 + (c.sectors * 512 - first) then Some(first + a - c.prp2)
    else None
  }

  /** What memory holds at `a` after the commands; unknown once a buffer was read as a list. */
  function MemoryAt(cs: seq<Command>, disk: nat -> bv8, a: nat, before: bv8): Option<bv8> {
    if cs == [] then Some(before)
    else if UsesList(cs[0]) then None
    else
      var k := Source(cs[0], a);
      MemoryAt(cs[1..], disk, a, if k.Some? then disk(cs[0].lba * 512 + k.value) else before)
  }

  /** What memory should hold at `a` when `total` sectors have been read to `addr`. */
  function Wanted(lba: nat, total: nat, addr: nat, disk: nat -> bv8, a: nat, before: bv8): bv8 {
    if addr <= a < addr + total * 512 then disk(lba * 512 + a - addr) else before
  }

  lemma WantedSplits(lba: nat, some: nat, total: nat, addr: nat, disk: nat -> bv8, a: nat, before: bv8)
    requires some <= total
    ensures Wanted(lba, total, addr, disk, a, before) ==
            Wanted(lba + some, total - some, addr + some * 512, disk, a, Wanted(lba, some, addr, disk, a, before))
  {
    assert (lba + some) * 512 + a - (addr + some * 512) == lba * 512 + a - addr;
  }

  /** The commands bring the sectors into the buffer, in order, and change nothing else. */
  ghost predicate Delivers(cs: seq<Command>, lba: nat, total: nat, addr: nat) {
    forall disk: nat -> bv8, a: nat, before: bv8 ::
      MemoryAt(cs, disk, a, before) == Some(Wanted(lba, total, addr, disk, a, before))
  }

  /** A buffer that two pages hold is described truly. */
  lemma TwoPagesAreDescribed(lba: nat, nlb: nat, addr: nat, a: nat)
    requires nlb > 0 && addr % 4096 + nlb * 512 <= 8192
    ensures var c := CommandFor(lba, nlb, addr);
            && c.lba == lba && !UsesList(c) && (c.prp2 == 0 <==> addr % 4096 + nlb * 512 <= 4096)
            && Source(c, a) == if addr <= a < addr + nlb * 512 then Some(a - addr) else None
  {
  }

  lemma FirstCommand(lba: nat, total: nat, addr: nat, disk: nat -> bv8, a: nat, before: bv8)
    requires total > 0
    ensures var nlb := Min(total, 16);
            var c := CommandFor(lba, nlb, addr);
            MemoryAt(Commands(lba, total, addr), disk, a, before) ==
            if UsesList(c) then None
            else
              MemoryAt(Commands(lba + nlb, total - nlb, addr + nlb * 512), disk, a,
                       if Source(c, a).Some? then disk(c.lba * 512 + Source(c, a).value) else before)
  {
    hide Source, UsesList, CommandFor;
  }

  lemma {:induction false} AlignedReadsRight(lba: nat, total: nat, addr: nat, disk: nat -> bv8, a: nat, before: bv8)
    requires addr % 4096 == 0 || total * 512 + addr % 4096 <= 8192
    ensures MemoryAt(Commands(lba, total, addr), disk, a, before) == Some(Wanted(lba, total, addr, disk, a, before))
    decreases total
  {
    hide Source, UsesList, CommandFor, Commands, MemoryAt;
    if total > 0 {
      var nlb := Min(total, 16);
      TwoPagesAreDescribed(lba, nlb, addr, a);
      FirstCommand(lba, total, addr, disk, a, before);
      var mid := Wanted(lba, nlb, addr, disk, a, before);
      WantedSplits(lba, nlb, total, addr, disk, a, before);
      hide Wanted;
      assert nlb == 16 || total - nlb == 0;
      AlignedReadsRight(lba + nlb, total - nlb, addr + nlb * 512, disk, a, mid);
    } else {
      NoCommands(lba, addr);
    }
  }

  /** Commands for a buffer do not write below it. */
  lemma {:induction false} NothingBelow(lba: nat, total: nat, addr: nat, disk: nat -> bv8, a: nat, before: bv8)
    requires a < addr
    ensures MemoryAt(Commands(lba, total, addr), disk, a, before) in {None, Some(before)}
    decreases total
  {
    if total > 0 {
      var nlb := Min(total, 16);
      assert Source(CommandFor(lba, nlb, addr), a) == None;
      FirstCommand(lba, total, addr, disk, a, before);
      NothingBelow(lba + nlb, total - nlb, addr + nlb * 512, disk, a, before);
    }
  }

  /** The sector at 8192 bytes from the start of the buffer's page is never read. */
  lemma UnalignedLeavesGap(lba: nat, total: nat, addr: nat)
    requires addr % 4096 != 0 && total * 512 + addr % 4096 > 8192
    ensures var gap := addr + 8192 - addr % 4096;
            addr <= gap < addr + total * 512 && MemoryAt(Commands(lba, total, addr), Ones(), gap, 0) != Some(1)
  {
    hide CommandFor, Commands, Source, UsesList, MemoryAt;
    var nlb, gap := Min(total, 16), addr + 8192 - addr % 4096;
    ShortCommand(lba, nlb, addr);
    FirstCommand(lba, total, addr, Ones(), gap, 0);
    if !UsesList(CommandFor(lba, nlb, addr)) {
      if total > 16 {
        NothingBelow(lba + nlb, total - nlb, addr + nlb * 512, Ones(), gap, 0);
      } else {
        NoCommands(lba + nlb, addr + nlb * 512);
      }
    }
  }

  function Ones(): nat -> bv8 { (n: nat) => 1 }

  lemma NoCommands(lba: nat, addr: nat)
    ensures forall disk: nat -> bv8, a: nat, before: bv8 ::
              MemoryAt(Commands(lba, 0, addr), disk, a, before) == Some(before)
  {
  }

  lemma ShortCommand(lba: nat, nlb: nat, addr: nat)
    requires nlb <= 16 && addr % 4096 != 0 && nlb * 512 + addr % 4096 > 8192
    ensures var c := CommandFor(lba, nlb, addr);
            UsesList(c) || Source(c, addr + 8192 - addr % 4096) == None
  {
    var o := addr % 4096;
    var c := CommandFor(lba, nlb, addr);
    assert FirstSpan(c) == 4096 - o;
    assert c.sectors == (8192 - o + 511) / 512;
  }

  /**
   The driver reads right, whatever the disk and the memory hold, exactly when the buffer
   is page-aligned or lies in two pages.
   */
  lemma ReadsRightExactly(lba: nat, total: nat, addr: nat)
    ensures Delivers(Commands(lba, total, addr), lba, total, addr) <==>
            addr % 4096 == 0 || total * 512 + addr % 4096 <= 8192
  {
    hide MemoryAt, Commands;
    if addr % 4096 == 0 || total * 512 + addr % 4096 <= 8192 {
      forall disk: nat -> bv8, a: nat, before: bv8
        ensures MemoryAt(Commands(lba, total, addr), disk, a, before) == Some(Wanted(lba, total, addr, disk, a, before))
      {
        AlignedReadsRight(lba, total, addr, disk, a, before);
      }
    } else {
      UnalignedLeavesGap(lba, total, addr);
    }
  }

  /** Reads of up to eight sectors, such as the streamer's of one, are right at any address. */
  lemma ShortReadsRightAnywhere(lba: nat, total: nat, addr: nat)
    requires total <= 8
    ensures Delivers(Commands(lba, total, addr), lba, total, addr)
  {
    ReadsRightExactly(lba, total, addr);
  }

  // ------------------------------------------------------- reads through the queue

  /** The completions after the first `from` answer the commands `cs`, in order. */
  predicate Performed(posted: seq<nat>, from: nat, commands: seq<Command>, cs: seq<Command>) {
    |posted| == from + |cs| && forall j :: 0 <= j < |cs| ==> Answers(posted[from + j], commands, cs[j])
  }

  /** The command that was submitted as number `k` is `c`. */
  predicate Answers(k: nat, commands: seq<Command>, c: Command) { k < |commands| && commands[k] == c }

  /** With no timeout and no command under way, the controller has performed exactly what was submitted, in order. */
  lemma IdleIsDone(t: State)
    requires Inv(t) && Fifo(t) && t.timeouts == 0 && !t.polling
    ensures t.consumed == t.posted && |t.posted| == t.submitted
    ensures forall k :: 0 <= k < t.submitted ==> t.posted[k] == t.consumed[k] == k
  {
    assert |t.consumed| == |t.posted| == t.submitted;
    assert t.posted[..|t.consumed|] == t.posted;
  }

  /** The driver of one disk: its queue pair, and what each command said, by its number. */
  class Driver {
    const queue: QueuePair
    /** How the controller ends each command, and what it tries while the host polls for it. */
    const status: nat -> bool
    const moves: nat -> seq<Step>
    var commands: seq<Command>

    ghost predicate Valid()
      reads this, queue, queue.sq, queue.cq
    {
      Inv(queue.View()) && !queue.polling && |commands| == queue.submitted
    }

    constructor (n: nat, status: nat -> bool, moves: nat -> seq<Step>)
      requires n >= 2
      ensures Valid() && queue.View() == Start(n) && commands == []
      ensures this.status == status && this.moves == moves && fresh(queue) && fresh(queue.sq) && fresh(queue.cq)
    {
      this.status, this.moves, commands := status, moves, [];
      queue := new QueuePair(n);
    }

    /**
     `nvme_io_submit_and_poll`: the command goes out, and whatever completion comes first is its
     answer.  Nothing having timed out before, this one does not, exactly if the controller
     fetches and completes it while the host polls.
     */
    method Perform(c: Command) returns (ok: bool, ghost steps: seq<Step>)
      requires Valid() && Fits(queue.View())
      modifies this, queue, queue.sq, queue.cq
      ensures Valid() && Runs(old(queue.View()), steps, queue.View()) && commands == old(commands) + [c]
      ensures if queue.timeouts == old(queue.timeouts) then
                && |queue.consumed| == |old(queue.consumed)| + 1
                && old(queue.consumed) == queue.consumed[..|old(queue.consumed)|]
                && ok == status(queue.consumed[|old(queue.consumed)|])
              else queue.timeouts == old(queue.timeouts) + 1 && !ok && queue.consumed == old(queue.consumed)
      ensures old(queue.timeouts) == 0 ==> (queue.timeouts == 0 <==> Completing(moves(|old(commands)|)))
      ensures Fifo(old(queue.View())) && old(queue.timeouts) == 0 ==>
                && (ok <==> Served(|old(commands)|))
                && (queue.timeouts == 0 ==> Fifo(queue.View()) && ok == status(|old(commands)|))
    {
      hide Runs, Exchange, Completing, Fifo, Submissions, Completions;
      ghost var before := queue.View();
      InvIsFormed(before);
      if queue.timeouts == 0 { PatientExchange(before, moves(|commands|)); }
      var answer;
      answer, steps := queue.SubmitAndPoll(moves(|commands|));
      StayFifo(before, steps, queue.View());
      commands := commands + [c];
      return answer.Some? && status(answer.value), steps;
    }

    /** The controller completes the command while the host polls for it, and with a good status. */
    ghost predicate Served(k: nat) { Completing(moves(k)) && status(k) }

    /**
     `nvme_disk_driver_read`.  As long as nothing has ever timed out, the commands of the call
     are performed up to the first that fails, and success means that all have been.  It
     succeeds exactly if the controller completes every command while the host polls for it,
     each with a good status.
     */
    method ReadSectors(lba: nat, total: nat, addr: nat) returns (ok: bool, ghost issued: seq<Command>)
      requires Valid() && Fits(queue.View())
      modifies this, queue, queue.sq, queue.cq
      ensures Valid() && commands == old(commands) + issued
      ensures var all := Commands(lba, total, addr);
              && |issued| <= |all| && issued == all[..|issued|] && (ok ==> issued == all)
      ensures queue.timeouts == old(queue.timeouts) || (queue.timeouts == old(queue.timeouts) + 1 && !ok)
      ensures Fifo(old(queue.View())) && old(queue.timeouts) == 0 ==>
                var first, n := |old(commands)|, |Commands(lba, total, addr)|;
                ok <==> forall k: nat :: first <= k < first + n ==> Served(k)
      ensures Fifo(old(queue.View())) && queue.timeouts == 0 ==>
                && Fifo(queue.View())
                && Performed(queue.posted, |old(queue.posted)|, commands, issued)
                && (ok <==> forall k :: |old(commands)| <= k < |commands| ==> status(k))
                && (ok ==>
                      (Delivers(issued, lba, total, addr) <==> addr % 4096 == 0 || total * 512 + addr % 4096 <= 8192))
    {
      hide CommandFor, Commands, Inv, Fifo, Delivers, Performed, Served;
      ok, issued := IssueCommands(lba, total, addr);
      ReadsRightExactly(lba, total, addr);
    }

    /** Its loop. */
    method IssueCommands(lba: nat, total: nat, addr: nat) returns (ok: bool, ghost issued: seq<Command>)
      requires Valid() && Fits(queue.View())
      modifies this, queue, queue.sq, queue.cq
      ensures Valid() && commands == old(commands) + issued
      ensures var all := Commands(lba, total, addr);
              && |issued| <= |all| && issued == all[..|issued|] && (ok ==> issued == all)
      ensures queue.timeouts == old(queue.timeouts) || (queue.timeouts == old(queue.timeouts) + 1 && !ok)
      ensures Fifo(old(queue.View())) && old(queue.timeouts) == 0 ==>
                var first, n := |old(commands)|, |Commands(lba, total, addr)|;
                ok <==> forall k: nat :: first <= k < first + n ==> Served(k)
      ensures Fifo(old(queue.View())) && queue.timeouts == 0 ==>
                && Fifo(queue.View())
                && Performed(queue.posted, |old(queue.posted)|, commands, issued)
                && (ok <==> forall k :: |old(commands)| <= k < |commands| ==> status(k))
    {
      hide CommandFor, Commands, Runs, Inv, Fifo, Performed, Completing, Served;
      ghost var start := queue.View();
      ghost var first := |commands|;
      var remaining, slba, p := total, lba, addr;
      issued := [];
      ghost var all := Commands(lba, total, addr);
      while remaining > 0
        invariant 0 <= remaining && Valid() && Fits(queue.View())
        invariant queue.timeouts == start.timeouts && commands == old(commands) + issued
        invariant all == issued + Commands(slba, remaining, p)
        invariant Fifo(start) && start.timeouts == 0 ==>
                    Fifo(queue.View()) && forall k: nat :: first <= k < |commands| ==> Served(k) && status(k)
      {
        var nlb := if remaining > 16 then 16 else remaining;
        CommandsSplit(slba, remaining, p);
        var done;
        ghost var steps;
        done, steps := Perform(CommandFor(slba, nlb, p));
        issued := issued + [CommandFor(slba, nlb, p)];
        if !done {
          Finished(start, queue.View(), first, old(commands), issued);
          return false, issued;
        }
        slba := slba + nlb;
        p := p + nlb * 512;
        remaining := remaining - nlb;
      }
      CommandsSplit(slba, remaining, p);
      Finished(start, queue.View(), first, old(commands), issued);
      return true, issued;
    }
  }

  lemma StayFifo(s: State, steps: seq<Step>, t: State)
    requires Inv(s) && Inv(t) && Runs(s, steps, t)
    ensures Fifo(s) && t.timeouts == 0 ==> Fifo(t)
    ensures Fifo(s) && t.timeouts == 0 && !t.polling ==> forall k :: 0 <= k < |t.consumed| ==> t.consumed[k] == k
    ensures Fifo(s) && t.timeouts == 0 && !t.polling ==> |t.consumed| == t.submitted
  {
    hide Inv, Fifo, Runs;
    if Fifo(s) && t.timeouts == 0 {
      PatientRunsAreFifo(s, steps, t);
      if !t.polling { IdleIsDone(t); }
    }
  }

  lemma Finished(s: State, t: State, first: nat, earlier: seq<Command>, issued: seq<Command>)
    requires Inv(s) && Inv(t) && !s.polling && !t.polling
    requires s.submitted == first == |earlier| && t.submitted == first + |issued|
    ensures Fifo(s) && Fifo(t) && s.timeouts == t.timeouts == 0 ==>
              Performed(t.posted, |s.posted|, earlier + issued, issued)
  {
    hide Inv, Fifo;
    if Fifo(s) && Fifo(t) && s.timeouts == t.timeouts == 0 {
      IdleIsDone(s);
      IdleIsDone(t);
      InOrder(t.posted, first, earlier, issued);
    }
  }

  lemma InOrder(posted: seq<nat>, first: nat, earlier: seq<Command>, issued: seq<Command>)
    requires |earlier| == first && |posted| == first + |issued| && forall k :: 0 <= k < |posted| ==> posted[k] == k
    ensures Performed(posted, first, earlier + issued, issued)
  {
    forall j | 0 <= j < |issued| ensures Answers(posted[first + j], earlier + issued, issued[j]) {
      assert posted[first + j] == first + j;
    }
  }

  lemma CommandsSplit(lba: nat, total: nat, addr: nat)
    ensures Commands(lba, total, addr) ==
            if total == 0 then []
            else
              var nlb := Min(total, 16);
              [CommandFor(lba, nlb, addr)] + Commands(lba + nlb, total - nlb, addr + nlb * 512)
  {
    hide CommandFor;
  }
}
