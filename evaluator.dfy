/**
 * The evaluator: a depth-first strategy that steps `pc` and `sp` in a loop
 * and recurses at `Split`, a breadth-first strategy driven by a FIFO queue,
 * and the entry point that picks one. Each is proved equal to its function
 * in `Semantics`; the properties proved there carry over through `Eval`.
 */
module Evaluator {
  import opened Helper
  import opened Semantics
  import Properties

  /**
   * Depth-first evaluation from `(pc0, sp0)`. No path may execute more than
   * `fuel` instructions; a recursive attempt at `Split` gets what is left.
   */
  method EvalDepth(inst: seq<Instruction>, line: seq<char>, offset: usize, pc0: usize, sp0: usize, fuel: nat)
    returns (r: Outcome)
    ensures r == Depth(inst, line, offset, State(pc0, sp0), fuel)
    decreases fuel
  {
    var pc: usize, sp: usize, steps: nat := pc0, sp0, fuel;
    while steps > 0
      invariant steps <= fuel
      invariant Depth(inst, line, offset, State(pc, sp), steps) == Depth(inst, line, offset, State(pc0, sp0), fuel)
      decreases steps
    {
      if pc >= |inst| {
        return Done(Err(InvalidPC));
      }
      var next := inst[pc];
      steps := steps - 1;
      match next
      case Char(c) =>
        if sp < |line| {
          if c == line[sp] {
            var p := SafeAdd(pc, 1, PCOverFlow);
            if p.Err? {
              return Done(Err(p.error));
            }
            var q := SafeAdd(sp, 1, SPOverFlow);
            if q.Err? {
              return Done(Err(q.error));
            }
            Properties.FirstAnswerSingle(inst, line, offset, State(p.value, q.value), steps);
            pc, sp := p.value, q.value;
          } else {
            return Done(Ok(false));
          }
        } else {
          return Done(Ok(false));
        }
      case Dot =>
        if sp < |line| {
          var p := SafeAdd(pc, 1, PCOverFlow);
          if p.Err? {
            return Done(Err(p.error));
          }
          var q := SafeAdd(sp, 1, SPOverFlow);
          if q.Err? {
            return Done(Err(q.error));
          }
          Properties.FirstAnswerSingle(inst, line, offset, State(p.value, q.value), steps);
          pc, sp := p.value, q.value;
        } else {
          return Done(Ok(false));
        }
      case Caret =>
        if offset == 0 && sp == 0 {
          var p := SafeAdd(pc, 1, PCOverFlow);
          if p.Err? {
            return Done(Err(p.error));
          }
          Properties.FirstAnswerSingle(inst, line, offset, State(p.value, sp), steps);
          pc := p.value;
        } else {
          return Done(Ok(false));
        }
      case Dollar =>
        if sp == |line| {
          var p := SafeAdd(pc, 1, PCOverFlow);
          if p.Err? {
            return Done(Err(p.error));
          }
          Properties.FirstAnswerSingle(inst, line, offset, State(p.value, sp), steps);
          pc := p.value;
        } else {
          return Done(Ok(false));
        }
      case Match =>
        return Done(Ok(true));
      case Jump(addr) =>
        Properties.FirstAnswerSingle(inst, line, offset, State(addr, sp), steps);
        pc := addr;
      case Split(addr1, addr2) =>
        Properties.DepthSplit(inst, line, offset, pc, sp, steps + 1);
        var first := EvalDepth(inst, line, offset, addr1, sp, steps);
        if first != Done(Ok(false)) {
          return first;
        }
        r := EvalDepth(inst, line, offset, addr2, sp, steps);
        return;
    }
    return OutOfFuel;
  }

  /**
   * Breadth-first evaluation: a FIFO queue of `(instruction, pc, sp)`
   * entries seeded with `(inst[0], 0, 0)`, allowed `fuel` dequeues.
   */
  method EvalWidth(inst: seq<Instruction>, line: seq<char>, offset: usize, fuel: nat) returns (r: Outcome)
    ensures r == WidthEval(inst, line, offset, fuel)
  {
    if |inst| == 0 {
      return Done(Err(InvalidContext));
    }
    var queue := [Entry(inst[0], 0, 0)];
    var result := false;
    var steps: nat := fuel;

    while queue != []
      invariant WellFormedQueue(inst, line, queue)
      invariant !result
      invariant Width(inst, line, offset, queue, steps) == WidthEval(inst, line, offset, fuel)
      decreases steps
    {
      if steps == 0 {
        return OutOfFuel;
      }
      var node := queue[0];
      ghost var before := queue;
      queue := queue[1..];
      steps := steps - 1;
      match node.inst
      case Char(c) =>
        if node.sp < |line| {
          if c == line[node.sp] {
            var p := SafeAdd(node.pc, 1, PCOverFlow);
            if p.Err? {
              return Done(Err(p.error));
            }
            var s := SafeAdd(node.sp, 1, SPOverFlow);
            if s.Err? {
              return Done(Err(s.error));
            }
            if p.value >= |inst| {
              Properties.WidthBadTarget(inst, line, offset, before, steps + 1, 0);
              return Done(Err(InvalidContext));
            }
            assert Enqueued(inst, [State(p.value, s.value)]) == [Entry(inst[p.value], p.value, s.value)];
            queue := queue + [Entry(inst[p.value], p.value, s.value)];
          }
        }
      case Dot =>
        if node.sp < |line| {
          var p := SafeAdd(node.pc, 1, PCOverFlow);
          if p.Err? {
            return Done(Err(p.error));
          }
          var s := SafeAdd(node.sp, 1, SPOverFlow);
          if s.Err? {
            return Done(Err(s.error));
          }
          if p.value >= |inst| {
            Properties.WidthBadTarget(inst, line, offset, before, steps + 1, 0);
            return Done(Err(InvalidContext));
          }
          assert Enqueued(inst, [State(p.value, s.value)]) == [Entry(inst[p.value], p.value, s.value)];
          queue := queue + [Entry(inst[p.value], p.value, s.value)];
        }
      case Caret =>
        if offset == 0 && node.sp == 0 {
          var p := SafeAdd(node.pc, 1, PCOverFlow);
          if p.Err? {
            return Done(Err(p.error));
          }
          if p.value >= |inst| {
            Properties.WidthBadTarget(inst, line, offset, before, steps + 1, 0);
            return Done(Err(InvalidContext));
          }
          assert Enqueued(inst, [State(p.value, node.sp)]) == [Entry(inst[p.value], p.value, node.sp)];
          queue := queue + [Entry(inst[p.value], p.value, node.sp)];
        }
      case Dollar =>
        if node.sp == |line| {
          var p := SafeAdd(node.pc, 1, PCOverFlow);
          if p.Err? {
            return Done(Err(p.error));
          }
          if p.value >= |inst| {
            Properties.WidthBadTarget(inst, line, offset, before, steps + 1, 0);
            return Done(Err(InvalidContext));
          }
          assert Enqueued(inst, [State(p.value, node.sp)]) == [Entry(inst[p.value], p.value, node.sp)];
          queue := queue + [Entry(inst[p.value], p.value, node.sp)];
        }
      case Match =>
        assert Width(inst, line, offset, before, steps + 1) == Done(Ok(true));
        result := true;
        break;
      case Jump(addr) =>
        if addr >= |inst| {
          Properties.WidthBadTarget(inst, line, offset, before, steps + 1, 0);
          return Done(Err(InvalidContext));
        }
        assert Enqueued(inst, [State(addr, node.sp)]) == [Entry(inst[addr], addr, node.sp)];
        queue := queue + [Entry(inst[addr], addr, node.sp)];
      case Split(addr1, addr2) =>
        if addr1 >= |inst| {
          Properties.WidthBadTarget(inst, line, offset, before, steps + 1, 0);
          return Done(Err(InvalidContext));
        }
        if addr2 >= |inst| {
          Properties.WidthBadTarget(inst, line, offset, before, steps + 1, 1);
          return Done(Err(InvalidContext));
        }
        assert Enqueued(inst, [State(addr1, node.sp), State(addr2, node.sp)])
            == [Entry(inst[addr1], addr1, node.sp), Entry(inst[addr2], addr2, node.sp)];
        queue := queue + [Entry(inst[addr1], addr1, node.sp), Entry(inst[addr2], addr2, node.sp)];
    }
    return Done(Ok(result));
  }

  /**
   * The entry point: depth-first from `(0, 0)` when `isDepth`, breadth-first
   * otherwise. An answer is exactly whether the program accepts the input,
   * and on a well-formed program it is never an error.
   */
  method Eval(inst: seq<Instruction>, line: seq<char>, offset: usize, isDepth: bool, fuel: nat) returns (r: Outcome)
    ensures r == Evaluate(inst, line, offset, isDepth, fuel)
    ensures r.Done? && r.result.Ok? ==> (r.result.value <==> Accepts(inst, line, offset, State(0, 0)))
    ensures WellFormedProgram(inst) && |line| <= USIZE_MAX ==> !r.IsError()
  {
    if isDepth {
      r := EvalDepth(inst, line, offset, 0, 0, fuel);
    } else {
      r := EvalWidth(inst, line, offset, fuel);
    }
    if r.Done? && r.result.Ok? {
      Properties.EvaluateExact(inst, line, offset, isDepth, fuel);
    }
    if WellFormedProgram(inst) && |line| <= USIZE_MAX {
      Properties.EvaluateNoError(inst, line, offset, isDepth, fuel);
    }
  }
}
