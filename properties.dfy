/**
 * Properties of the two evaluation strategies: the step budget only bounds
 * them, each is exact with respect to `Accepts` whenever it answers, they
 * never fail on a well-formed program, and so they agree.
 */
module Properties {
  import opened Helper
  import opened Semantics

  // ---------------------------------------------------------------------
  // Depth-first: the shape of Split, and the step budget
  // ---------------------------------------------------------------------

  /** A single successor is tried exactly as itself. */
  lemma FirstAnswerSingle(inst: seq<Instruction>, line: seq<char>, offset: usize, s: State, fuel: nat)
    ensures FirstAnswer(inst, line, offset, [s], fuel) == Depth(inst, line, offset, s, fuel)
  {
  }

  /**
   * `Split(a1, a2)` runs `a1` and then, only when that found no match and
   * raised no error, `a2`, both from the same `sp`.
   */
  lemma DepthSplit(inst: seq<Instruction>, line: seq<char>, offset: usize, pc: usize, sp: usize, fuel: nat)
    requires pc < |inst| && inst[pc].Split? && fuel > 0
    ensures var first := Depth(inst, line, offset, State(inst[pc].addr1, sp), fuel - 1);
            var second := Depth(inst, line, offset, State(inst[pc].addr2, sp), fuel - 1);
            Depth(inst, line, offset, State(pc, sp), fuel) == if first == Done(Ok(false)) then second else first
  {
    var ss := [State(inst[pc].addr1, sp), State(inst[pc].addr2, sp)];
    assert ss[1..] == [ss[1]];
    FirstAnswerSingle(inst, line, offset, ss[1], fuel - 1);
  }

  /** Once the depth-first run answers, a larger budget gives the same answer. */
  lemma {:induction false} DepthFuelMonotone(inst: seq<Instruction>, line: seq<char>, offset: usize, s: State, f: nat, g: nat)
    requires f <= g && Depth(inst, line, offset, s, f) != OutOfFuel
    ensures Depth(inst, line, offset, s, g) == Depth(inst, line, offset, s, f)
    decreases f, 0
  {
    if s.pc < |inst| {
      match Exec(inst[s.pc], s.pc, s.sp, line, offset)
      case Next(succ) => FirstAnswerFuelMonotone(inst, line, offset, succ, f - 1, g - 1);
      case _ =>
    }
  }

  lemma {:induction false} FirstAnswerFuelMonotone(inst: seq<Instruction>, line: seq<char>, offset: usize, ss: seq<State>, f: nat, g: nat)
    requires f <= g && FirstAnswer(inst, line, offset, ss, f) != OutOfFuel
    ensures FirstAnswer(inst, line, offset, ss, g) == FirstAnswer(inst, line, offset, ss, f)
    decreases f, 1, |ss|
  {
    if ss != [] {
      DepthFuelMonotone(inst, line, offset, ss[0], f, g);
      if Depth(inst, line, offset, ss[0], f) == Done(Ok(false)) {
        FirstAnswerFuelMonotone(inst, line, offset, ss[1..], f, g);
      }
    }
  }

  // ---------------------------------------------------------------------
  // Breadth-first: address checks at enqueue time
  // ---------------------------------------------------------------------

  /**
   * A successor outside the program fails the whole breadth-first run with
   * `InvalidContext`, before anything is queued, even if another successor
   * or a queued entry could still match.
   */
  lemma WidthBadTarget(inst: seq<Instruction>, line: seq<char>, offset: usize, queue: seq<Entry>, fuel: nat, k: nat)
    requires queue != [] && fuel > 0
    requires var e := Exec(queue[0].inst, queue[0].pc, queue[0].sp, line, offset);
             e.Next? && k < |e.succ| && e.succ[k].pc >= |inst|
    ensures Width(inst, line, offset, queue, fuel) == Done(Err(InvalidContext))
  {
  }

  /** Once the breadth-first run answers, a larger budget gives the same answer. */
  lemma {:induction false} WidthFuelMonotone(inst: seq<Instruction>, line: seq<char>, offset: usize, queue: seq<Entry>, f: nat, g: nat)
    requires f <= g && Width(inst, line, offset, queue, f) != OutOfFuel
    ensures Width(inst, line, offset, queue, g) == Width(inst, line, offset, queue, f)
    decreases f
  {
    if queue != [] {
      var node := queue[0];
      match Exec(node.inst, node.pc, node.sp, line, offset)
      case Reject => WidthFuelMonotone(inst, line, offset, queue[1..], f - 1, g - 1);
      case Next(succ) =>
        if forall k :: 0 <= k < |succ| ==> succ[k].pc < |inst| {
          WidthFuelMonotone(inst, line, offset, queue[1..] + Enqueued(inst, succ), f - 1, g - 1);
        }
      case _ =>
    }
  }

  // ---------------------------------------------------------------------
  // Depth-first answers agree with Accepts
  // ---------------------------------------------------------------------

  /** A depth-first match is a path to `Match` of at most `fuel` instructions. */
  lemma {:induction false} DepthMatchAccepts(inst: seq<Instruction>, line: seq<char>, offset: usize, s: State, fuel: nat)
    requires Depth(inst, line, offset, s, fuel) == Done(Ok(true))
    ensures AcceptsWithin(inst, line, offset, s, fuel)
    decreases fuel, 0
  {
    match Exec(inst[s.pc], s.pc, s.sp, line, offset)
    case Next(succ) =>
      var k := FirstAnswerMatchAccepts(inst, line, offset, succ, fuel - 1);
    case _ =>
  }

  lemma {:induction false} FirstAnswerMatchAccepts(inst: seq<Instruction>, line: seq<char>, offset: usize, ss: seq<State>, fuel: nat)
    returns (k: nat)
    requires FirstAnswer(inst, line, offset, ss, fuel) == Done(Ok(true))
    ensures k < |ss| && AcceptsWithin(inst, line, offset, ss[k], fuel)
    decreases fuel, 1, |ss|
  {
    if Depth(inst, line, offset, ss[0], fuel) == Done(Ok(true)) {
      DepthMatchAccepts(inst, line, offset, ss[0], fuel);
      k := 0;
    } else {
      var j := FirstAnswerMatchAccepts(inst, line, offset, ss[1..], fuel);
      k := j + 1;
    }
  }

  /** A depth-first "no match" means no path of any length reaches `Match`. */
  lemma {:induction false} DepthNoMatchRejects(inst: seq<Instruction>, line: seq<char>, offset: usize, s: State, fuel: nat, n: nat)
    requires Depth(inst, line, offset, s, fuel) == Done(Ok(false))
    ensures !AcceptsWithin(inst, line, offset, s, n)
    decreases fuel, 0
  {
    if n > 0 {
      match Exec(inst[s.pc], s.pc, s.sp, line, offset)
      case Next(succ) =>
        forall k | 0 <= k < |succ|
          ensures !AcceptsWithin(inst, line, offset, succ[k], n - 1)
        {
          FirstAnswerNoMatchRejects(inst, line, offset, succ, fuel - 1, k, n - 1);
        }
      case _ =>
    }
  }

  lemma {:induction false} FirstAnswerNoMatchRejects(inst: seq<Instruction>, line: seq<char>, offset: usize, ss: seq<State>, fuel: nat, k: nat, n: nat)
    requires FirstAnswer(inst, line, offset, ss, fuel) == Done(Ok(false)) && k < |ss|
    ensures !AcceptsWithin(inst, line, offset, ss[k], n)
    decreases fuel, 1, |ss|
  {
    if k == 0 {
      DepthNoMatchRejects(inst, line, offset, ss[0], fuel, n);
    } else {
      FirstAnswerNoMatchRejects(inst, line, offset, ss[1..], fuel, k - 1, n);
    }
  }

  /** Whenever the depth-first strategy answers, its answer is exactly `Accepts`. */
  lemma DepthExact(inst: seq<Instruction>, line: seq<char>, offset: usize, s: State, fuel: nat)
    requires Depth(inst, line, offset, s, fuel).Done? && Depth(inst, line, offset, s, fuel).result.Ok?
    ensures Depth(inst, line, offset, s, fuel).result.value <==> Accepts(inst, line, offset, s)
  {
    if Depth(inst, line, offset, s, fuel).result.value {
      DepthMatchAccepts(inst, line, offset, s, fuel);
    } else {
      forall n: nat ensures !AcceptsWithin(inst, line, offset, s, n) {
        DepthNoMatchRejects(inst, line, offset, s, fuel, n);
      }
    }
  }

  // ---------------------------------------------------------------------
  // Breadth-first answers agree with Accepts
  // ---------------------------------------------------------------------

  /** Some queued entry has a path to `Match` of at most `n` instructions. */
  ghost predicate SomeAcceptsWithin(inst: seq<Instruction>, line: seq<char>, offset: usize, queue: seq<Entry>, n: nat)
  {
    exists k :: 0 <= k < |queue| && AcceptsWithin(inst, line, offset, State(queue[k].pc, queue[k].sp), n)
  }

  /** Some queued entry is accepted. */
  ghost predicate SomeAccepts(inst: seq<Instruction>, line: seq<char>, offset: usize, queue: seq<Entry>)
  {
    exists n: nat :: SomeAcceptsWithin(inst, line, offset, queue, n)
  }

  /**
   * Stepping the front entry into its successors (appended at the back)
   * keeps the set of accepted entries.
   */
  lemma StepKeepsAcceptance(inst: seq<Instruction>, line: seq<char>, offset: usize, queue: seq<Entry>, succ: seq<State>)
    requires queue != [] && queue[0].pc < |inst| && queue[0].inst == inst[queue[0].pc]
    requires Exec(queue[0].inst, queue[0].pc, queue[0].sp, line, offset) == Next(succ)
    requires forall k :: 0 <= k < |succ| ==> succ[k].pc < |inst|
    ensures SomeAccepts(inst, line, offset, queue) <==> SomeAccepts(inst, line, offset, queue[1..] + Enqueued(inst, succ))
  {
    var q' := queue[1..] + Enqueued(inst, succ);
    var front := State(queue[0].pc, queue[0].sp);
    if SomeAccepts(inst, line, offset, queue) {
      var n: nat, k :| 0 <= k < |queue| && AcceptsWithin(inst, line, offset, State(queue[k].pc, queue[k].sp), n);
      if k == 0 {
        assert AcceptsWithin(inst, line, offset, front, n);
        var j :| 0 <= j < |succ| && AcceptsWithin(inst, line, offset, succ[j], n - 1);
        assert q'[|queue| - 1 + j] == Entry(inst[succ[j].pc], succ[j].pc, succ[j].sp);
        assert SomeAcceptsWithin(inst, line, offset, q', n - 1);
      } else {
        assert q'[k - 1] == queue[k];
        assert SomeAcceptsWithin(inst, line, offset, q', n);
      }
    }
    if SomeAccepts(inst, line, offset, q') {
      var n: nat, k :| 0 <= k < |q'| && AcceptsWithin(inst, line, offset, State(q'[k].pc, q'[k].sp), n);
      if k < |queue| - 1 {
        assert q'[k] == queue[k + 1];
        assert SomeAcceptsWithin(inst, line, offset, queue, n);
      } else {
        var j := k - (|queue| - 1);
        assert State(q'[k].pc, q'[k].sp) == succ[j];
        assert AcceptsWithin(inst, line, offset, front, n + 1);
        assert SomeAcceptsWithin(inst, line, offset, queue, n + 1);
      }
    }
  }

  /** Whenever the breadth-first strategy answers, its answer is exactly "some queued entry is accepted". */
  lemma {:induction false} WidthExact(inst: seq<Instruction>, line: seq<char>, offset: usize, queue: seq<Entry>, fuel: nat)
    requires WellFormedQueue(inst, line, queue)
    requires Width(inst, line, offset, queue, fuel).Done? && Width(inst, line, offset, queue, fuel).result.Ok?
    ensures Width(inst, line, offset, queue, fuel).result.value <==> SomeAccepts(inst, line, offset, queue)
    decreases fuel
  {
    if queue == [] {
      assert !SomeAccepts(inst, line, offset, queue);
    } else {
      var node := queue[0];
      var front := State(node.pc, node.sp);
      assert node.inst == inst[node.pc];
      match Exec(node.inst, node.pc, node.sp, line, offset)
      case Accept =>
        assert AcceptsWithin(inst, line, offset, front, 1);
        assert SomeAcceptsWithin(inst, line, offset, queue, 1);
      case Reject =>
        WidthExact(inst, line, offset, queue[1..], fuel - 1);
        if SomeAccepts(inst, line, offset, queue) {
          var n: nat, k :| 0 <= k < |queue| && AcceptsWithin(inst, line, offset, State(queue[k].pc, queue[k].sp), n);
          assert !AcceptsWithin(inst, line, offset, front, n);
          assert queue[1..][k - 1] == queue[k];
          assert SomeAcceptsWithin(inst, line, offset, queue[1..], n);
        }
        if SomeAccepts(inst, line, offset, queue[1..]) {
          var n: nat, k :| 0 <= k < |queue[1..]| && AcceptsWithin(inst, line, offset, State(queue[1..][k].pc, queue[1..][k].sp), n);
          assert SomeAcceptsWithin(inst, line, offset, queue, n);
        }
      case Next(succ) =>
        var q' := queue[1..] + Enqueued(inst, succ);
        assert WellFormedQueue(inst, line, q');
        WidthExact(inst, line, offset, q', fuel - 1);
        StepKeepsAcceptance(inst, line, offset, queue, succ);
    }
  }

  // ---------------------------------------------------------------------
  // Breadth-first finds every match
  // ---------------------------------------------------------------------

  /** On a well-formed program, stepping a well-formed queue never fails. */
  lemma StepWellFormed(inst: seq<Instruction>, line: seq<char>, offset: usize, node: Entry)
    requires WellFormedProgram(inst) && |line| <= USIZE_MAX
    requires node.pc < |inst| && node.inst == inst[node.pc] && node.sp <= |line|
    ensures var e := Exec(node.inst, node.pc, node.sp, line, offset);
            && !e.Fault?
            && (e.Next? ==> forall k :: 0 <= k < |e.succ| ==> e.succ[k].pc < |inst|)
  {
  }

  /**
   * On a well-formed program, a queue holding an entry with a path of at most
   * `n` instructions to `Match` answers "match" once given enough dequeues.
   */
  lemma {:induction false} WidthFindsMatch(inst: seq<Instruction>, line: seq<char>, offset: usize, queue: seq<Entry>, k: nat, n: nat)
    returns (fuel: nat)
    requires WellFormedProgram(inst) && |line| <= USIZE_MAX && WellFormedQueue(inst, line, queue)
    requires k < |queue| && AcceptsWithin(inst, line, offset, State(queue[k].pc, queue[k].sp), n)
    ensures Width(inst, line, offset, queue, fuel) == Done(Ok(true))
    decreases n, k
  {
    var node := queue[0];
    StepWellFormed(inst, line, offset, node);
    match Exec(node.inst, node.pc, node.sp, line, offset)
    case Accept =>
      fuel := 1;
    case Reject =>
      assert k != 0;
      assert queue[1..][k - 1] == queue[k];
      var f := WidthFindsMatch(inst, line, offset, queue[1..], k - 1, n);
      fuel := f + 1;
    case Next(succ) =>
      var q' := queue[1..] + Enqueued(inst, succ);
      assert WellFormedQueue(inst, line, q');
      if k == 0 {
        var j :| 0 <= j < |succ| && AcceptsWithin(inst, line, offset, succ[j], n - 1);
        assert State(q'[|queue| - 1 + j].pc, q'[|queue| - 1 + j].sp) == succ[j];
        var f := WidthFindsMatch(inst, line, offset, q', |queue| - 1 + j, n - 1);
        fuel := f + 1;
      } else {
        assert q'[k - 1] == queue[k];
        var f := WidthFindsMatch(inst, line, offset, q', k - 1, n);
        fuel := f + 1;
      }
  }

  // ---------------------------------------------------------------------
  // Errors only come from malformed programs
  // ---------------------------------------------------------------------

  /** On a well-formed program the depth-first strategy never reports an error. */
  lemma {:induction false} DepthNoError(inst: seq<Instruction>, line: seq<char>, offset: usize, s: State, fuel: nat)
    requires WellFormedProgram(inst) && |line| <= USIZE_MAX && s.pc < |inst| && s.sp <= |line|
    ensures !Depth(inst, line, offset, s, fuel).IsError()
    decreases fuel, 0
  {
    if fuel > 0 {
      StepWellFormed(inst, line, offset, Entry(inst[s.pc], s.pc, s.sp));
      match Exec(inst[s.pc], s.pc, s.sp, line, offset)
      case Next(succ) => FirstAnswerNoError(inst, line, offset, succ, fuel - 1);
      case _ =>
    }
  }

  lemma {:induction false} FirstAnswerNoError(inst: seq<Instruction>, line: seq<char>, offset: usize, ss: seq<State>, fuel: nat)
    requires WellFormedProgram(inst) && |line| <= USIZE_MAX
    requires forall k :: 0 <= k < |ss| ==> ss[k].pc < |inst| && ss[k].sp <= |line|
    ensures !FirstAnswer(inst, line, offset, ss, fuel).IsError()
    decreases fuel, 1, |ss|
  {
    if ss != [] {
      DepthNoError(inst, line, offset, ss[0], fuel);
      FirstAnswerNoError(inst, line, offset, ss[1..], fuel);
    }
  }

  /** On a well-formed program the breadth-first strategy never reports an error. */
  lemma {:induction false} WidthNoError(inst: seq<Instruction>, line: seq<char>, offset: usize, queue: seq<Entry>, fuel: nat)
    requires WellFormedProgram(inst) && |line| <= USIZE_MAX && WellFormedQueue(inst, line, queue)
    ensures !Width(inst, line, offset, queue, fuel).IsError()
    decreases fuel
  {
    if queue != [] && fuel > 0 {
      var node := queue[0];
      StepWellFormed(inst, line, offset, node);
      match Exec(node.inst, node.pc, node.sp, line, offset)
      case Reject => WidthNoError(inst, line, offset, queue[1..], fuel - 1);
      case Next(succ) =>
        var q' := queue[1..] + Enqueued(inst, succ);
        assert WellFormedQueue(inst, line, q');
        WidthNoError(inst, line, offset, q', fuel - 1);
      case _ =>
    }
  }

  // ---------------------------------------------------------------------
  // The two strategies
  // ---------------------------------------------------------------------

  /** Whatever the strategy, an answer is exactly whether the program accepts from `(0, 0)`. */
  lemma EvaluateExact(inst: seq<Instruction>, line: seq<char>, offset: usize, isDepth: bool, fuel: nat)
    requires Evaluate(inst, line, offset, isDepth, fuel).Done? && Evaluate(inst, line, offset, isDepth, fuel).result.Ok?
    ensures Evaluate(inst, line, offset, isDepth, fuel).result.value <==> Accepts(inst, line, offset, State(0, 0))
  {
    if isDepth {
      DepthExact(inst, line, offset, State(0, 0), fuel);
    } else {
      var queue := [Entry(inst[0], 0, 0)];
      WidthExact(inst, line, offset, queue, fuel);
      if Accepts(inst, line, offset, State(0, 0)) {
        var n: nat :| AcceptsWithin(inst, line, offset, State(0, 0), n);
        assert SomeAcceptsWithin(inst, line, offset, queue, n);
      }
      if SomeAccepts(inst, line, offset, queue) {
        var n: nat :| SomeAcceptsWithin(inst, line, offset, queue, n);
        assert AcceptsWithin(inst, line, offset, State(0, 0), n);
      }
    }
  }

  /** On a well-formed program neither strategy reports an error. */
  lemma EvaluateNoError(inst: seq<Instruction>, line: seq<char>, offset: usize, isDepth: bool, fuel: nat)
    requires WellFormedProgram(inst) && |line| <= USIZE_MAX
    ensures !Evaluate(inst, line, offset, isDepth, fuel).IsError()
  {
    if isDepth {
      DepthNoError(inst, line, offset, State(0, 0), fuel);
    } else {
      WidthNoError(inst, line, offset, [Entry(inst[0], 0, 0)], fuel);
    }
  }

  /** When both strategies answer, they give the same boolean, on every program. */
  lemma StrategiesAgree(inst: seq<Instruction>, line: seq<char>, offset: usize, depthFuel: nat, widthFuel: nat)
    requires Evaluate(inst, line, offset, true, depthFuel).Done? && Evaluate(inst, line, offset, true, depthFuel).result.Ok?
    requires Evaluate(inst, line, offset, false, widthFuel).Done? && Evaluate(inst, line, offset, false, widthFuel).result.Ok?
    ensures Evaluate(inst, line, offset, true, depthFuel) == Evaluate(inst, line, offset, false, widthFuel)
  {
    EvaluateExact(inst, line, offset, true, depthFuel);
    EvaluateExact(inst, line, offset, false, widthFuel);
  }

  // ---------------------------------------------------------------------
  // Breadth-first finishes whenever depth-first says "no match"
  // ---------------------------------------------------------------------

  /** Number of states in the execution tree below `s`, cut off at depth `f`. */
  ghost function TreeSize(inst: seq<Instruction>, line: seq<char>, offset: usize, s: State, f: nat): nat
    decreases f, 0
  {
    if f == 0 || s.pc >= |inst| then 1
    else
      match Exec(inst[s.pc], s.pc, s.sp, line, offset)
      case Next(succ) => 1 + ForestSize(inst, line, offset, succ, f - 1)
      case _ => 1
  }

  ghost function ForestSize(inst: seq<Instruction>, line: seq<char>, offset: usize, ss: seq<State>, f: nat): nat
    decreases f, 1, |ss|
  {
    if ss == [] then 0
    else TreeSize(inst, line, offset, ss[0], f) + ForestSize(inst, line, offset, ss[1..], f)
  }

  /** Total size of the execution trees below the queued entries. */
  ghost function QueueSize(inst: seq<Instruction>, line: seq<char>, offset: usize, queue: seq<Entry>, f: nat): nat
  {
    if queue == [] then 0
    else TreeSize(inst, line, offset, State(queue[0].pc, queue[0].sp), f) + QueueSize(inst, line, offset, queue[1..], f)
  }

  lemma {:induction false} QueueSizeAppend(inst: seq<Instruction>, line: seq<char>, offset: usize, a: seq<Entry>, b: seq<Entry>, f: nat)
    ensures QueueSize(inst, line, offset, a + b, f) == QueueSize(inst, line, offset, a, f) + QueueSize(inst, line, offset, b, f)
  {
    if a != [] {
      assert (a + b)[1..] == a[1..] + b;
      QueueSizeAppend(inst, line, offset, a[1..], b, f);
    } else {
      assert a + b == b;
    }
  }

  lemma {:induction false} QueueSizeEnqueued(inst: seq<Instruction>, line: seq<char>, offset: usize, succ: seq<State>, f: nat)
    requires forall k :: 0 <= k < |succ| ==> succ[k].pc < |inst|
    ensures QueueSize(inst, line, offset, Enqueued(inst, succ), f) == ForestSize(inst, line, offset, succ, f)
  {
    if succ != [] {
      assert Enqueued(inst, succ)[1..] == Enqueued(inst, succ[1..]);
      QueueSizeEnqueued(inst, line, offset, succ[1..], f);
    }
  }

  /** A tree whose every path ends without a match within `f` steps is the same at any larger depth. */
  lemma {:induction false} TreeSizeStable(inst: seq<Instruction>, line: seq<char>, offset: usize, s: State, f: nat, g: nat)
    requires f <= g && Depth(inst, line, offset, s, f) == Done(Ok(false))
    ensures TreeSize(inst, line, offset, s, g) == TreeSize(inst, line, offset, s, f)
    decreases f, 0
  {
    match Exec(inst[s.pc], s.pc, s.sp, line, offset)
    case Next(succ) => ForestSizeStable(inst, line, offset, succ, f - 1, g - 1);
    case _ =>
  }

  lemma {:induction false} ForestSizeStable(inst: seq<Instruction>, line: seq<char>, offset: usize, ss: seq<State>, f: nat, g: nat)
    requires f <= g && FirstAnswer(inst, line, offset, ss, f) == Done(Ok(false))
    ensures ForestSize(inst, line, offset, ss, g) == ForestSize(inst, line, offset, ss, f)
    decreases f, 1, |ss|
  {
    if ss != [] {
      TreeSizeStable(inst, line, offset, ss[0], f, g);
      ForestSizeStable(inst, line, offset, ss[1..], f, g);
    }
  }

  /** "No match" from a list of alternatives means "no match" from each of them. */
  lemma {:induction false} FirstAnswerNoMatchEach(inst: seq<Instruction>, line: seq<char>, offset: usize, ss: seq<State>, f: nat, k: nat)
    requires FirstAnswer(inst, line, offset, ss, f) == Done(Ok(false)) && k < |ss|
    ensures Depth(inst, line, offset, ss[k], f) == Done(Ok(false))
    decreases k
  {
    if k > 0 {
      FirstAnswerNoMatchEach(inst, line, offset, ss[1..], f, k - 1);
    }
  }

  /**
   * On a well-formed program, a queue whose entries the depth-first strategy
   * rejects within `bound` steps is rejected by the breadth-first strategy
   * within `QueueSize` dequeues: each dequeue removes one tree node.
   */
  lemma {:induction false} WidthFinishesNoMatch(inst: seq<Instruction>, line: seq<char>, offset: usize, queue: seq<Entry>, bound: nat, fuel: nat)
    requires WellFormedProgram(inst) && |line| <= USIZE_MAX && WellFormedQueue(inst, line, queue)
    requires forall k :: 0 <= k < |queue| ==> Depth(inst, line, offset, State(queue[k].pc, queue[k].sp), bound) == Done(Ok(false))
    requires QueueSize(inst, line, offset, queue, bound) <= fuel
    ensures Width(inst, line, offset, queue, fuel) == Done(Ok(false))
    decreases fuel
  {
    if queue != [] {
      var node := queue[0];
      var front := State(node.pc, node.sp);
      assert Depth(inst, line, offset, front, bound) == Done(Ok(false));
      StepWellFormed(inst, line, offset, node);
      match Exec(node.inst, node.pc, node.sp, line, offset)
      case Reject =>
        WidthFinishesNoMatch(inst, line, offset, queue[1..], bound, fuel - 1);
      case Next(succ) =>
        var added := Enqueued(inst, succ);
        var q' := queue[1..] + added;
        assert WellFormedQueue(inst, line, q');
        forall k | 0 <= k < |q'|
          ensures Depth(inst, line, offset, State(q'[k].pc, q'[k].sp), bound) == Done(Ok(false))
        {
          if k < |queue| - 1 {
            assert q'[k] == queue[k + 1];
          } else {
            var j := k - (|queue| - 1);
            assert State(q'[k].pc, q'[k].sp) == succ[j];
            FirstAnswerNoMatchEach(inst, line, offset, succ, bound - 1, j);
            DepthFuelMonotone(inst, line, offset, succ[j], bound - 1, bound);
          }
        }
        ForestSizeStable(inst, line, offset, succ, bound - 1, bound);
        QueueSizeEnqueued(inst, line, offset, succ, bound);
        QueueSizeAppend(inst, line, offset, queue[1..], added, bound);
        WidthFinishesNoMatch(inst, line, offset, q', bound, fuel - 1);
    }
  }

  /**
   * On a well-formed program, whenever the depth-first strategy answers, the
   * breadth-first strategy gives the same answer once allowed enough dequeues.
   */
  lemma WidthFindsEveryDepthAnswer(inst: seq<Instruction>, line: seq<char>, offset: usize, depthFuel: nat)
    returns (widthFuel: nat)
    requires WellFormedProgram(inst) && |line| <= USIZE_MAX
    requires Evaluate(inst, line, offset, true, depthFuel) != OutOfFuel
    ensures Evaluate(inst, line, offset, false, widthFuel) == Evaluate(inst, line, offset, true, depthFuel)
  {
    EvaluateNoError(inst, line, offset, true, depthFuel);
    EvaluateExact(inst, line, offset, true, depthFuel);
    var queue := [Entry(inst[0], 0, 0)];
    if Evaluate(inst, line, offset, true, depthFuel).result.value {
      var n: nat :| AcceptsWithin(inst, line, offset, State(0, 0), n);
      widthFuel := WidthFindsMatch(inst, line, offset, queue, 0, n);
    } else {
      widthFuel := QueueSize(inst, line, offset, queue, depthFuel);
      WidthFinishesNoMatch(inst, line, offset, queue, depthFuel, widthFuel);
    }
  }

  // ---------------------------------------------------------------------
  // Where the strategies differ
  // ---------------------------------------------------------------------

  /**
   * The strategies detect bad addresses differently: depth-first only when it
   * reaches one (`InvalidPC`), breadth-first when it would queue one
   * (`InvalidContext`), checking both `Split` targets first.
   */
  lemma BadAddressDetection()
    ensures Evaluate([Split(1, 5), Match], "", 0, true, 2) == Done(Ok(true))
    ensures Evaluate([Split(1, 5), Match], "", 0, false, 1) == Done(Err(InvalidContext))
    ensures Evaluate([Jump(3)], "", 0, true, 2) == Done(Err(InvalidPC))
    ensures Evaluate([Jump(3)], "", 0, false, 1) == Done(Err(InvalidContext))
  {
    var succ := Exec(Split(1, 5), 0, 0, "", 0).succ;
    assert succ[1].pc >= 2;
  }

  /**
   * A `Split` whose first branch leads back to itself without consuming
   * input: depth-first never answers, breadth-first matches.
   */
  lemma {:induction false} DepthFirstMayNotFinish(fuel: nat)
    ensures Depth([Split(0, 1), Match], "", 0, State(0, 0), fuel) == OutOfFuel
    ensures WidthEval([Split(0, 1), Match], "", 0, 3) == Done(Ok(true))
  {
    if fuel > 0 {
      DepthFirstMayNotFinish(fuel - 1);
    }
  }
}
