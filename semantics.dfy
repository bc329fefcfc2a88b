/**
 * The instruction set of the regex bytecode and the meaning of running it.
 *
 * `Exec` is the effect of one instruction, shared by both strategies.
 * `AcceptsWithin`/`Accepts` say when a program accepts an input: some finite
 * path of successor states reaches a `Match`. `Depth` and `Width` are the
 * two evaluation strategies as functions, each bounded by a step budget
 * (`fuel`) because neither strategy terminates on every program.
 */
module Semantics {
  import opened Helper

  /** One bytecode instruction; addresses are absolute indices into the program. */
  datatype Instruction =
    | Char(c: char)
    | Dot
    | Caret
    | Dollar
    | Match
    | Jump(addr: usize)
    | Split(addr1: usize, addr2: usize)

  /** Run-time errors of the evaluator. */
  datatype EvalError = PCOverFlow | SPOverFlow | InvalidPC | InvalidContext

  /**
   * The answer of a run: the evaluator's own `Result<bool, EvalError>`, or
   * `OutOfFuel` when the step budget ran out before the evaluator answered.
   */
  datatype Outcome = Done(result: Result<bool, EvalError>) | OutOfFuel {
    predicate IsError() { Done? && result.Err? }
  }

  /** An execution state: program counter and input cursor. */
  datatype State = State(pc: usize, sp: usize)

  /** A breadth-first queue entry: the instruction fetched at `pc`, with `pc` and `sp`. */
  datatype Entry = Entry(inst: Instruction, pc: usize, sp: usize)

  /** What executing one instruction does. */
  datatype Effect =
    | Accept                   // `Match`
    | Reject                   // an input check failed: this path ends without a match
    | Fault(error: EvalError)  // a counter increment overflowed
    | Next(succ: seq<State>)   // the successor states, in the order they are tried or queued

  /** Moves `pc` (and, when `consume`, `sp`) one step forward with checked additions. */
  function Advance(pc: usize, sp: usize, consume: bool): Effect
  {
    match SafeAdd(pc, 1, PCOverFlow)
    case Err(e) => Fault(e)
    case Ok(pc') =>
      if !consume then Next([State(pc', sp)])
      else
        match SafeAdd(sp, 1, SPOverFlow)
        case Err(e) => Fault(e)
        case Ok(sp') => Next([State(pc', sp')])
  }

  /**
   * The effect of instruction `i` in state `(pc, sp)` on input `line`, whose
   * first character sits at position `offset` of the original line.
   */
  function Exec(i: Instruction, pc: usize, sp: usize, line: seq<char>, offset: usize): (r: Effect)
    // Match is the only accepting instruction
    ensures r.Accept? <==> i.Match?
    // a failed check ends the path; it is never an error
    ensures r.Reject? <==> match i
      case Char(c) => !(sp < |line| && line[sp] == c)
      case Dot => !(sp < |line|)
      case Caret => !(offset == 0 && sp == 0)
      case Dollar => sp != |line|
      case _ => false
    // an error only comes from a counter that is already at usize::MAX
    ensures r.Fault? ==>
      || (r.error == PCOverFlow && pc == USIZE_MAX)
      || (r.error == SPOverFlow && sp == USIZE_MAX && (i.Char? || i.Dot?))
    // pc is incremented first, so its overflow wins when both counters are at usize::MAX
    ensures r.Fault? && pc == USIZE_MAX ==> r.error == PCOverFlow
    // Char and Dot advance pc and sp together; Caret and Dollar advance pc only
    ensures (i.Char? || i.Dot?) && r.Next? ==> pc < USIZE_MAX && sp < USIZE_MAX && r.succ == [State(pc + 1, sp + 1)]
    ensures (i.Caret? || i.Dollar?) && r.Next? ==> pc < USIZE_MAX && r.succ == [State(pc + 1, sp)]
    ensures i.Jump? ==> r == Next([State(i.addr, sp)])
    ensures i.Split? ==> r == Next([State(i.addr1, sp), State(i.addr2, sp)])
    // sp only moves past a character that exists
    ensures r.Next? && sp <= |line| ==> forall k :: 0 <= k < |r.succ| ==> r.succ[k].sp <= |line|
  {
    match i
    case Char(c) => if sp < |line| && line[sp] == c then Advance(pc, sp, true) else Reject
    case Dot => if sp < |line| then Advance(pc, sp, true) else Reject
    case Caret => if offset == 0 && sp == 0 then Advance(pc, sp, false) else Reject
    case Dollar => if sp == |line| then Advance(pc, sp, false) else Reject
    case Match => Accept
    case Jump(addr) => Next([State(addr, sp)])
    case Split(addr1, addr2) => Next([State(addr1, sp), State(addr2, sp)])
  }

  /**
   * Reference semantics: from state `s` some path of at most `n` instructions,
   * each inside the program, reaches `Match`.
   */
  ghost predicate AcceptsWithin(inst: seq<Instruction>, line: seq<char>, offset: usize, s: State, n: nat)
    decreases n
  {
    && n > 0
    && s.pc < |inst|
    && var e := Exec(inst[s.pc], s.pc, s.sp, line, offset);
       || e.Accept?
       || (e.Next? && exists k :: 0 <= k < |e.succ| && AcceptsWithin(inst, line, offset, e.succ[k], n - 1))
  }

  /** The program accepts from state `s`. */
  ghost predicate Accepts(inst: seq<Instruction>, line: seq<char>, offset: usize, s: State)
  {
    exists n: nat :: AcceptsWithin(inst, line, offset, s, n)
  }

  /**
   * Depth-first strategy from state `s`, where no path may execute more than
   * `fuel` instructions.
   */
  function Depth(inst: seq<Instruction>, line: seq<char>, offset: usize, s: State, fuel: nat): Outcome
    decreases fuel, 0
  {
    if fuel == 0 then OutOfFuel
    else if s.pc >= |inst| then Done(Err(InvalidPC))
    else
      match Exec(inst[s.pc], s.pc, s.sp, line, offset)
      case Accept => Done(Ok(true))
      case Reject => Done(Ok(false))
      case Fault(e) => Done(Err(e))
      case Next(succ) => FirstAnswer(inst, line, offset, succ, fuel - 1)
  }

  /**
   * Tries the states of `ss` in order: the first answer other than "no match"
   * is the answer; "no match" only when every state says so.
   */
  function FirstAnswer(inst: seq<Instruction>, line: seq<char>, offset: usize, ss: seq<State>, fuel: nat): Outcome
    decreases fuel, 1, |ss|
  {
    if ss == [] then Done(Ok(false))
    else
      var first := Depth(inst, line, offset, ss[0], fuel);
      if first == Done(Ok(false)) then FirstAnswer(inst, line, offset, ss[1..], fuel) else first
  }

  /** Queue entries for the states `succ`, each with the instruction at its `pc`. */
  function Enqueued(inst: seq<Instruction>, succ: seq<State>): seq<Entry>
    requires forall k :: 0 <= k < |succ| ==> succ[k].pc < |inst|
  {
    seq(|succ|, k requires 0 <= k < |succ| => Entry(inst[succ[k].pc], succ[k].pc, succ[k].sp))
  }

  /**
   * Breadth-first strategy on a FIFO `queue`, allowed `fuel` dequeues: the
   * front entry is stepped once; its successors go to the back, after an
   * address check that fails the whole run.
   */
  function Width(inst: seq<Instruction>, line: seq<char>, offset: usize, queue: seq<Entry>, fuel: nat): Outcome
    decreases fuel
  {
    if queue == [] then Done(Ok(false))
    else if fuel == 0 then OutOfFuel
    else
      var node := queue[0];
      match Exec(node.inst, node.pc, node.sp, line, offset)
      case Accept => Done(Ok(true))
      case Reject => Width(inst, line, offset, queue[1..], fuel - 1)
      case Fault(e) => Done(Err(e))
      case Next(succ) =>
        if forall k :: 0 <= k < |succ| ==> succ[k].pc < |inst| then
          Width(inst, line, offset, queue[1..] + Enqueued(inst, succ), fuel - 1)
        else
          Done(Err(InvalidContext))
  }

  /** Breadth-first strategy from the start state `(inst[0], 0, 0)`. */
  function WidthEval(inst: seq<Instruction>, line: seq<char>, offset: usize, fuel: nat): Outcome
  {
    if |inst| == 0 then Done(Err(InvalidContext))
    else Width(inst, line, offset, [Entry(inst[0], 0, 0)], fuel)
  }

  /** Either strategy from the start of the program and of the input. */
  function Evaluate(inst: seq<Instruction>, line: seq<char>, offset: usize, isDepth: bool, fuel: nat): Outcome
  {
    if isDepth then Depth(inst, line, offset, State(0, 0), fuel)
    else WidthEval(inst, line, offset, fuel)
  }

  /** Every queued entry holds a valid address, the instruction there, and a cursor inside the input. */
  ghost predicate WellFormedQueue(inst: seq<Instruction>, line: seq<char>, queue: seq<Entry>)
  {
    forall k :: 0 <= k < |queue| ==>
      queue[k].pc < |inst| && queue[k].inst == inst[queue[k].pc] && queue[k].sp <= |line|
  }

  /**
   * A program as code generation is meant to produce it: it fits in memory,
   * ends with `Match`, and every `Jump`/`Split` target is inside it.
   */
  ghost predicate WellFormedProgram(inst: seq<Instruction>)
  {
    && 0 < |inst| <= USIZE_MAX
    && inst[|inst| - 1] == Match
    && forall k :: 0 <= k < |inst| ==>
         && (inst[k].Jump? ==> inst[k].addr < |inst|)
         && (inst[k].Split? ==> inst[k].addr1 < |inst| && inst[k].addr2 < |inst|)
  }
}
