# Regex bytecode evaluator, modelled in Dafny

This project models the evaluator of a small regular-expression engine. A
regex is compiled into a program of seven instructions: `Char(c)`, `Dot`,
`Caret`, `Dollar`, `Match`, `Jump(addr)` and `Split(addr1, addr2)`. The
evaluator runs that program against an input line whose first character
sits at position `offset` of the original line. It answers `Ok(true)` on a
match, `Ok(false)` on no match, or an `EvalError`: `PCOverFlow`,
`SPOverFlow`, `InvalidPC` or `InvalidContext`. The entry point `eval` picks
one of two strategies:

- **depth-first**: a backtracking evaluator. It steps `pc` and `sp` in a
  loop and recurses only at `Split`, trying the first target before the
  second.
- **breadth-first**: a FIFO queue of `(instruction, pc, sp)` entries seeded
  with `(inst[0], 0, 0)`. The front entry is stepped once, and its
  successors go to the back of the queue.

Files:

- `helper.dfy` (module `Helper`): the 64-bit `usize` type and `SafeAdd`,
  the checked addition used for every counter increment.
- `semantics.dfy` (module `Semantics`): the instruction set; `Exec`, the
  effect of one instruction, shared by both strategies; `Accepts`, the
  reference meaning of a program (some finite path of successor states
  reaches `Match`); and the two strategies as functions `Depth` and `Width`.
- `properties.dfy` (module `Properties`): what is proved about them.
- `evaluator.dfy` (module `Evaluator`): `EvalDepth`, `EvalWidth` and `Eval`
  as methods with the shape of the original code. `EvalDepth` has a
  `while` loop over `pc`/`sp` and recursion at `Split`. `EvalWidth` has a
  `while` loop over an explicit queue and a `result` flag. Each is proved
  equal to its function.

Neither strategy answers on every program. Depth-first, a `Jump` cycle such
as `[Jump(0)]` loops forever, and a `Split` whose first target leads back to
itself without consuming input, such as `[Split(0, 1), Match]`, recurses
without end until the stack overflows and the process aborts. So every run carries a step budget `fuel`, and the outcome is
either the evaluator's own `Result<bool, EvalError>` or `OutOfFuel`. For
depth-first, `fuel` bounds the length of any single path. For
breadth-first, it bounds the number of dequeues. The proved results say
what the answer is whenever the evaluator answers, and, for both
strategies, that a larger budget never changes an answer once one is given.

Main results:

- Whenever either strategy answers `Ok(b)`, `b` is exactly
  `Accepts(inst, line, offset, (0, 0))`. This holds on every program,
  malformed ones included. So when both strategies answer `Ok`, they agree.
- On a well-formed program, neither strategy ever reports an error. A
  well-formed program fits in a `usize`, ends with `Match`, and has every
  jump target in range.
- On a well-formed program, whenever the depth-first strategy answers, the
  breadth-first strategy gives the same answer once it has enough steps.
  The converse fails: breadth-first finds matches that depth-first loops
  past.

The two strategies report bad addresses differently. Depth-first reports
`InvalidPC` only when it reaches one (ch06/regex/src/engine/evaluator.rs:51-55).
Breadth-first reports `InvalidContext` as soon as it would queue one, and it
checks both `Split` targets first (ch06/regex/src/engine/evaluator.rs:183-200).
So `[Split(1, 5), Match]` matches depth-first but is an error breadth-first
(`Properties.BadAddressDetection`).

## Model

| member | source | states |
|---|---|---|
| `Helper.SafeAdd` | ch06/regex/src/main.rs:64-76 | checked `usize` addition: the sum exactly when it is at most 2^64-1, the caller's error otherwise, never a wrapped value |
| `Helper.SafeAddExamples` | ch06/regex/src/main.rs:64-76 | 10 + 20 gives 30; usize::MAX + 1 gives the error |
| `Semantics.Exec` | ch06/regex/src/engine/evaluator.rs:57-104 | `Match` alone accepts; `Char(c)` advances pc and sp by one iff `line[sp] == c`; `Dot` iff `sp < |line|`; `Caret` advances only pc iff `offset == 0 && sp == 0`; `Dollar` only pc iff `sp == |line|`; a failed check rejects the path and is never an error; `Jump` goes to its target; `Split` gives its two targets in order, both at the same sp; overflow errors only when the counter is already usize::MAX, and `PCOverFlow` wins when both are; sp never passes `|line|` |
| `Properties.DepthSplit` | ch06/regex/src/engine/evaluator.rs:98-104 | depth-first `Split(a1, a2)` runs `a1` from the same sp; `Ok(true)` or an error from it is the answer and `a2` plays no part; otherwise the answer is that of `a2` from the same sp |
| `Properties.DepthFuelMonotone` | ch06/regex/src/engine/evaluator.rs:50-106 | once the depth-first run answers within a budget, every larger budget gives the same answer |
| `Properties.DepthMatchAccepts` | ch06/regex/src/engine/evaluator.rs:92-94 | a depth-first `Ok(true)` means a path to `Match` exists within the budget |
| `Properties.DepthNoMatchRejects` | ch06/regex/src/engine/evaluator.rs:57-104 | a depth-first `Ok(false)` means no path of any length reaches `Match` |
| `Properties.DepthExact` | ch06/regex/src/engine/evaluator.rs:43-107 | whenever depth-first answers `Ok(b)`, `b` holds exactly when the program accepts (both directions) |
| `Properties.WidthFuelMonotone` | ch06/regex/src/engine/evaluator.rs:118-206 | once the breadth-first run answers within a budget of dequeues, every larger budget gives the same answer |
| `Properties.WidthBadTarget` | ch06/regex/src/engine/evaluator.rs:183-200 | a successor outside the program ends the breadth-first run with `InvalidContext`, whatever the rest of the queue holds |
| `Properties.StepKeepsAcceptance` | ch06/regex/src/engine/evaluator.rs:182-202 | replacing the front entry by its successors at the back keeps "some queued entry is accepted" unchanged |
| `Properties.WidthExact` | ch06/regex/src/engine/evaluator.rs:118-206 | for a queue whose entries satisfy `pc < |inst|`, `inst == inst[pc]` and `sp <= |line|`, a breadth-first `Ok(b)` has `b` exactly when some entry is accepted |
| `Properties.StepWellFormed` | ch06/regex/src/engine/evaluator.rs:124-177 | on a well-formed program, stepping an in-range state never overflows and never yields an out-of-range successor |
| `Properties.WidthFindsMatch` | ch06/regex/src/engine/evaluator.rs:118-206 | on a well-formed program, a queue holding an accepted entry answers `Ok(true)` given enough dequeues |
| `Properties.DepthNoError` | ch06/regex/src/engine/evaluator.rs:51-62 | on a well-formed program, depth-first from an in-range state with `sp <= |line|` never reports `InvalidPC` or an overflow |
| `Properties.WidthNoError` | ch06/regex/src/engine/evaluator.rs:129-135 | on a well-formed program, breadth-first from a well-formed queue never reports `InvalidContext` or an overflow |
| `Properties.EvaluateExact` | ch06/regex/src/engine/evaluator.rs:34-40 | whichever strategy is chosen, an `Ok(b)` answer has `b` exactly when the program accepts from pc 0, sp 0 |
| `Properties.EvaluateNoError` | ch06/regex/src/engine/evaluator.rs:34-40 | on a well-formed program, neither strategy reports an error |
| `Properties.StrategiesAgree` | ch06/regex/src/main.rs:79-139 | on every program, when both strategies answer `Ok`, they give the same boolean |
| `Properties.WidthFinishesNoMatch` | ch06/regex/src/engine/evaluator.rs:118-206 | on a well-formed program, a queue whose entries depth-first rejects is rejected breadth-first within as many dequeues as the queue's execution trees have states |
| `Properties.WidthFindsEveryDepthAnswer` | ch06/regex/src/main.rs:111-139 | on a well-formed program, whenever depth-first answers, breadth-first gives the same answer with a large enough budget |
| `Properties.BadAddressDetection` | ch06/regex/src/engine/evaluator.rs:183-200 | `[Split(1, 5), Match]` is `Ok(true)` depth-first but `Err(InvalidContext)` breadth-first; `[Jump(3)]` is `Err(InvalidPC)` depth-first and `Err(InvalidContext)` breadth-first |
| `Properties.DepthFirstMayNotFinish` | ch06/regex/src/engine/evaluator.rs:95-104 | on `[Split(0, 1), Match]` depth-first never answers, at any budget (the original's recursion overflows the stack), while breadth-first matches within three dequeues |
| `Evaluator.EvalDepth` | ch06/regex/src/engine/evaluator.rs:43-107 | the loop-and-recursion evaluator returns exactly `Depth` from its start state |
| `Evaluator.EvalWidth` | ch06/regex/src/engine/evaluator.rs:110-207 | the queue evaluator returns exactly `WidthEval`: `InvalidContext` on an empty program, else the queue run from `(inst[0], 0, 0)`; every queued entry keeps `pc < |inst|`, `inst == inst[pc]` and `sp <= |line|` |
| `Evaluator.Eval` | ch06/regex/src/engine/evaluator.rs:34-40 | dispatches on `isDepth`; an `Ok(b)` answer has `b` exactly when the program accepts, and a well-formed program never yields an error |

## Left out

- Non-termination: each evaluator takes a step budget and may return `OutOfFuel`, which the original cannot. An unbounded depth-first run of the original either loops forever (a `Jump` cycle) or aborts on stack overflow (endless recursion at `Split`); the model shows both as `OutOfFuel` at every budget. An unbounded breadth-first run loops forever, its queue possibly growing until memory runs out; the model shows it as `OutOfFuel` at every budget too.
- Stack overflow on deep but finite recursion: the original's depth-first recursion at `Split` is not a tail call, so a very deep but finite recursion can abort the original while the model returns an answer. The model does not capture this abort.
- Memory growth of the queue and the lack of `(pc, sp)` deduplication are performance properties. Only outcomes are modelled.
- The `Instruction` type is defined in a file that is not part of this model. Its seven variants are reconstructed from the evaluator's match arms, with `usize` addresses.
- Slices are `seq`s of any length. The bound `|inst|, |line| <= usize::MAX` that Rust slices carry is a hypothesis of the no-error lemmas, so the overflow branches stay reachable in the model.
- The queue holds instruction values rather than references into the program, and it is a `seq` rather than a ring buffer. FIFO order is the same.
- `main` and `match_file` in ch06/regex/src/main.rs: argument handling, file reading, printing, and the loop that retries every start offset of a line.
- ch06/regex/src/lib.rs holds only module declarations and a re-export.
- The `Display` and `Error` implementations of `EvalError` only format messages.
- The parser, the code generator, `do_matching` and `print` are not part of this model. The example programs in the lemmas are hand-built and are not claimed to be compiler output.
