/** The extended Intcode machine of `src/intcode.rs`: a fetch/decode/execute
    loop over one flat memory of integers that holds both code and data.

    Every panic of the Rust code (an unknown opcode, an unknown mode digit, a
    vector index out of range, `input.unwrap()` on `None`, the single-output
    check of `run_program`) is an explicit `Fault` here, and the loop, which
    may run forever, takes a fuel bound on the number of instructions. */
module Intcode {
  import opened Results
  import opened Arith
  import opened Loops

  datatype Opcode = Stop | Add | Mul | Mov | Out | Jnz | Jz | Lt | Eq

  datatype Mode = Position | Immediate

  datatype Fault =
    | BadOpcode(word: int)        // `get_opcode` on a word whose remainder is not an opcode
    | BadMode(digit: int)         // a mode digit other than 0 or 1
    | AddressOutOfRange(addr: int) // an index outside memory; a negative value cast to `usize` is one too
    | MissingInput                // the input instruction ran without an input value
    | OutputProtocol(output: int) // an instruction other than Stop after a nonzero output
    | StopHasNoArguments          // operands were asked of Stop

  /** The machine registers: the memory image and the instruction pointer. */
  datatype State = State(mem: seq<int>, pc: int)

  /** The effect of one instruction: the next state and the value it emitted. */
  datatype Transition = Transition(next: State, output: Option<int>)

  /** How a run ends. `OutOfFuel` is the model's bound on an unbounded loop. */
  datatype Outcome = Halted(output: int, mem: seq<int>) | Faulted(fault: Fault) | OutOfFuel

  /** The canonical number of each opcode; `DecodeOpcode` inverts it. */
  function Code(op: Opcode): int {
    match op
    case Stop => 99
    case Add => 1
    case Mul => 2
    case Mov => 3
    case Out => 4
    case Jnz => 5
    case Jz => 6
    case Lt => 7
    case Eq => 8
  }

  /** `get_opcode`: the opcode is selected by the word's remainder modulo 100,
      taken with Rust's truncating `%`. A negative word leaves a remainder in
      -99..0, so no negative word is an instruction. */
  function DecodeOpcode(word: int): (r: Result<Opcode, Fault>)
    ensures r.Ok? <==> TruncRem(word, 100) in {1, 2, 3, 4, 5, 6, 7, 8, 99}
    ensures r.Ok? ==> Code(r.value) == TruncRem(word, 100)
    ensures r.Ok? ==> word > 0
    ensures r.Err? ==> r.error == BadOpcode(word)
  {
    match TruncRem(word, 100)
    case 99 => Ok(Stop)
    case 1 => Ok(Add)
    case 2 => Ok(Mul)
    case 3 => Ok(Mov)
    case 4 => Ok(Out)
    case 5 => Ok(Jnz)
    case 6 => Ok(Jz)
    case 7 => Ok(Lt)
    case 8 => Ok(Eq)
    case _ => Err(BadOpcode(word))
  }

  /** `num_args`: the number of operands that follow each opcode's word. */
  function Arity(op: Opcode): (n: nat)
    ensures n <= 3
    ensures n == 0 <==> op == Stop
  {
    match op
    case Stop => 0
    case Add => 3
    case Mul => 3
    case Mov => 1
    case Out => 1
    case Jnz => 2
    case Jz => 2
    case Lt => 3
    case Eq => 3
  }

  /** `writes_to_program`: the opcodes whose last operand is a destination. */
  predicate Writes(op: Opcode)
    // A writing opcode has an operand to write through; Stop, Out and the
    // jumps write nothing.
    ensures Writes(op) ==> Arity(op) >= 1
    ensures op in {Stop, Out, Jnz, Jz} ==> !Writes(op)
  {
    op in {Add, Mul, Mov, Lt, Eq}
  }

  /** The mode digit of operand `i` (counted from 1): the `i`-th decimal digit of
      `word / 100`, least significant first. Only positive words reach here. */
  function ModeDigit(word: nat, i: nat): (d: nat)
    ensures d < 10
  {
    word / Pow10(i + 1) % 10
  }

  /** `mem[addr]`, or the index panic. */
  function Read(mem: seq<int>, addr: int): (r: Result<int, Fault>)
    ensures r.Ok? <==> 0 <= addr < |mem|
    ensures r.Ok? ==> r.value == mem[addr]
    ensures r.Err? ==> r.error == AddressOutOfRange(addr)
  {
    if 0 <= addr < |mem| then Ok(mem[addr]) else Err(AddressOutOfRange(addr))
  }

  /** `mem[addr] = v`, or the index panic. */
  function Write(mem: seq<int>, addr: int, v: int): (r: Result<seq<int>, Fault>)
    ensures r.Ok? <==> 0 <= addr < |mem|
    ensures r.Ok? ==> r.value == mem[addr := v]
    ensures r.Err? ==> r.error == AddressOutOfRange(addr)
  {
    if 0 <= addr < |mem| then Ok(mem[addr := v]) else Err(AddressOutOfRange(addr))
  }

  /** `program[pos]` followed by `get_opcode`. */
  function OpcodeAt(mem: seq<int>, pc: int): (r: Result<Opcode, Fault>)
    ensures r.Ok? ==> 0 <= pc < |mem| && DecodeOpcode(mem[pc]) == r
    ensures !(0 <= pc < |mem|) ==> r == Err(AddressOutOfRange(pc))
  {
    var word :- Read(mem, pc);
    DecodeOpcode(word)
  }

  /** The mode operand `i` of `op` is read in. A destination (the last operand
      of a writing opcode) is always read raw, whatever its digit says, and its
      digit is never checked. */
  function OperandMode(word: nat, op: Opcode, i: nat): (r: Result<Mode, Fault>)
    ensures i == Arity(op) && Writes(op) ==> r == Ok(Immediate)
    ensures !(i == Arity(op) && Writes(op)) ==>
              (r == Ok(Position) <==> ModeDigit(word, i) == 0) &&
              (r == Ok(Immediate) <==> ModeDigit(word, i) == 1) &&
              (r.Err? <==> ModeDigit(word, i) >= 2)
    ensures r.Err? ==> r.error == BadMode(ModeDigit(word, i))
  {
    if i == Arity(op) && Writes(op) then Ok(Immediate)
    else if ModeDigit(word, i) == 0 then Ok(Position)
    else if ModeDigit(word, i) == 1 then Ok(Immediate)
    else Err(BadMode(ModeDigit(word, i)))
  }

  /** The value of operand `i` of the instruction `word` at `pc`: `mem[mem[pc+i]]`
      in position mode, `mem[pc+i]` in immediate mode. */
  function Operand(mem: seq<int>, pc: int, word: nat, op: Opcode, i: nat): (r: Result<int, Fault>)
    ensures r.Ok? ==> OperandMode(word, op, i).Ok? && 0 <= pc + i < |mem|
    ensures r.Ok? && OperandMode(word, op, i) == Ok(Immediate) ==> r.value == mem[pc + i]
    ensures r.Ok? && OperandMode(word, op, i) == Ok(Position) ==>
              0 <= mem[pc + i] < |mem| && r.value == mem[mem[pc + i]]
    // The faults, in the order they are raised: the mode digit, the operand's
    // own address, then the address it points to.
    ensures OperandMode(word, op, i).Err? ==> r == Err(OperandMode(word, op, i).error)
    ensures OperandMode(word, op, i).Ok? && !(0 <= pc + i < |mem|) ==> r == Err(AddressOutOfRange(pc + i))
    ensures OperandMode(word, op, i) == Ok(Position) && 0 <= pc + i < |mem| && !(0 <= mem[pc + i] < |mem|) ==>
              r == Err(AddressOutOfRange(mem[pc + i]))
  {
    var mode :- OperandMode(word, op, i);
    var raw :- Read(mem, pc + i);
    match mode
    case Immediate => Ok(raw)
    case Position => Read(mem, raw)
  }

  /** Operands `i`, `i+1`, ..., `Arity(op)`, read left to right; the first
      failing operand decides the fault. */
  function OperandsFrom(mem: seq<int>, pc: int, word: nat, op: Opcode, i: nat): (r: Result<seq<int>, Fault>)
    requires i >= 1
    ensures r.Ok? ==> |r.value| == Arity(op) + 1 - i || (i > Arity(op) && r.value == [])
    ensures r.Ok? ==> forall k | 0 <= k < |r.value| :: Operand(mem, pc, word, op, i + k) == Ok(r.value[k])
    ensures r.Err? ==> exists k :: i <= k <= Arity(op) && Operand(mem, pc, word, op, k) == Err(r.error)
    decreases Arity(op) + 1 - i
  {
    if i > Arity(op) then Ok([])
    else
      var v :- Operand(mem, pc, word, op, i);
      var rest :- OperandsFrom(mem, pc, word, op, i + 1);
      Ok([v] + rest)
  }

  /** `get_args`: the operand values of the instruction at `pc`. */
  function Args(mem: seq<int>, pc: int): (r: Result<seq<int>, Fault>)
    ensures r.Ok? ==> OpcodeAt(mem, pc).Ok? && OpcodeAt(mem, pc).value != Stop
    ensures r.Ok? ==> |r.value| == Arity(OpcodeAt(mem, pc).value)
    ensures r.Ok? ==> forall i | 1 <= i <= |r.value| ::
              Operand(mem, pc, mem[pc], OpcodeAt(mem, pc).value, i) == Ok(r.value[i - 1])
    ensures r.Ok? && Writes(OpcodeAt(mem, pc).value) ==>
              0 <= pc + |r.value| < |mem| && r.value[|r.value| - 1] == mem[pc + |r.value|]
    ensures OpcodeAt(mem, pc) == Ok(Stop) ==> r == Err(StopHasNoArguments)
  {
    var op :- OpcodeAt(mem, pc);
    if op == Stop then Err(StopHasNoArguments)
    else
      var r := OperandsFrom(mem, pc, mem[pc], op, 1);
      OperandsFromFirst(mem, pc, mem[pc], op, r);
      r
  }

  /** The operand list from the first operand has one value per operand, the
      last of which, for a writing opcode, is the raw destination cell. */
  lemma OperandsFromFirst(mem: seq<int>, pc: int, word: nat, op: Opcode, r: Result<seq<int>, Fault>)
    requires op != Stop && r == OperandsFrom(mem, pc, word, op, 1)
    ensures r.Ok? ==> |r.value| == Arity(op)
    ensures r.Ok? ==> forall i | 1 <= i <= |r.value| :: Operand(mem, pc, word, op, i) == Ok(r.value[i - 1])
    ensures r.Ok? && Writes(op) ==>
              0 <= pc + |r.value| < |mem| && r.value[|r.value| - 1] == mem[pc + |r.value|]
  {
    if r.Ok? {
      var n := Arity(op);
      assert |r.value| == n;
      forall i | 1 <= i <= n ensures Operand(mem, pc, word, op, i) == Ok(r.value[i - 1]) {
        assert Operand(mem, pc, word, op, 1 + (i - 1)) == Ok(r.value[i - 1]);
      }
      if Writes(op) {
        var last := Operand(mem, pc, word, op, n);
        assert last == Ok(r.value[n - 1]);
        assert OperandMode(word, op, n) == Ok(Immediate);
      }
    }
  }

  /** `get_args` as the source writes it: one pass over the operands that
      shifts the mode digits right by one decimal place per operand. */
  method GetArgs(mem: seq<int>, pc: int) returns (r: Result<seq<int>, Fault>)
    ensures r == Args(mem, pc)
  {
    if !(0 <= pc < |mem|) {
      return Err(AddressOutOfRange(pc));
    }
    var word := mem[pc];
    var decoded := DecodeOpcode(word);
    if decoded.Err? {
      return Err(decoded.error);
    }
    var op := decoded.value;
    if op == Stop {
      return Err(StopHasNoArguments);
    }
    r := ReadOperands(mem, pc, word, op);
  }

  /** The loop of `get_args`: operands 1 to `Arity(op)`, peeling one mode
      digit off the instruction word for each. */
  method ReadOperands(mem: seq<int>, pc: int, word: nat, op: Opcode) returns (r: Result<seq<int>, Fault>)
    ensures r == OperandsFrom(mem, pc, word, op, 1)
  {
    var n := Arity(op);
    var modeDigits: nat := word / 100;
    var args: seq<int> := [];
    var i := 1;
    assert modeDigits == word / Pow10(i + 1) by {
      assert Pow10(2) == 100;
    }
    PrependNothing(OperandsFrom(mem, pc, word, op, 1));
    while i <= n
      invariant 1 <= i <= n + 1
      invariant modeDigits == word / Pow10(i + 1)
      invariant OperandsFrom(mem, pc, word, op, 1) == Prepend(args, OperandsFrom(mem, pc, word, op, i))
    {
      var x;
      x, modeDigits := ReadOperand(mem, pc, word, op, i, modeDigits);
      if x.Err? {
        OperandsFromFault(mem, pc, word, op, i);
        return Err(x.error);
      }
      OperandsFromCons(mem, pc, word, op, i, x.value);
      PrependTwice(args, x.value, OperandsFrom(mem, pc, word, op, i + 1));
      args := args + [x.value];
      i := i + 1;
    }
    assert args + [] == args;
    return Ok(args);
  }

  /** One operand of `get_args`, given the mode digits not yet used (its
      own is the lowest): a destination is read raw, otherwise the digit
      picks position or immediate mode. The digits left for the next
      operand are returned too. */
  method ReadOperand(mem: seq<int>, pc: int, word: nat, op: Opcode, i: nat, modeDigits: nat)
      returns (r: Result<int, Fault>, nextDigits: nat)
    requires modeDigits == word / Pow10(i + 1)
    ensures r == Operand(mem, pc, word, op, i)
    ensures nextDigits == word / Pow10(i + 2)
  {
    nextDigits := modeDigits / 10;
    assert nextDigits == word / Pow10(i + 2) by {
      DivPow10Step(word, i + 1);
    }
    var digit := modeDigits % 10;
    assert digit == ModeDigit(word, i);
    var mode: Mode;
    if i == Arity(op) && Writes(op) {
      mode := Immediate;
    } else if digit == 0 {
      mode := Position;
    } else if digit == 1 {
      mode := Immediate;
    } else {
      return Err(BadMode(digit)), nextDigits;
    }
    if !(0 <= pc + i < |mem|) {
      return Err(AddressOutOfRange(pc + i)), nextDigits;
    }
    if mode == Position {
      var addr := mem[pc + i];
      if !(0 <= addr < |mem|) {
        return Err(AddressOutOfRange(addr)), nextDigits;
      }
      return Ok(mem[addr]), nextDigits;
    }
    return Ok(mem[pc + i]), nextDigits;
  }

  /** `r` with `front` put before its value, or its fault. */
  function Prepend(front: seq<int>, r: Result<seq<int>, Fault>): Result<seq<int>, Fault> {
    match r
    case Ok(rest) => Ok(front + rest)
    case Err(e) => Err(e)
  }

  lemma OperandsFromCons(mem: seq<int>, pc: int, word: nat, op: Opcode, i: nat, x: int)
    requires 1 <= i <= Arity(op)
    requires Operand(mem, pc, word, op, i) == Ok(x)
    ensures OperandsFrom(mem, pc, word, op, i) == Prepend([x], OperandsFrom(mem, pc, word, op, i + 1))
  {
  }

  lemma PrependTwice(front: seq<int>, x: int, r: Result<seq<int>, Fault>)
    ensures Prepend(front, Prepend([x], r)) == Prepend(front + [x], r)
  {
    if r.Ok? {
      assert front + ([x] + r.value) == (front + [x]) + r.value;
    }
  }

  lemma PrependNothing(r: Result<seq<int>, Fault>)
    ensures Prepend([], r) == r
  {
    if r.Ok? {
      assert [] + r.value == r.value;
    }
  }

  /** A fault reading operand `i` is the fault of the operands from `i`. */
  lemma OperandsFromFault(mem: seq<int>, pc: int, word: nat, op: Opcode, i: nat)
    requires 1 <= i <= Arity(op)
    requires Operand(mem, pc, word, op, i).Err?
    ensures OperandsFrom(mem, pc, word, op, i) == Err(Operand(mem, pc, word, op, i).error)
  {
  }

  /** The destination of a writing instruction: the raw last operand cell. */
  function Destination(s: State, op: Opcode): int
    requires Writes(op) && 0 <= s.pc + Arity(op) < |s.mem|
  {
    s.mem[s.pc + Arity(op)]
  }

  /** `*pos + num_args + 1`: the address of the following instruction. */
  function FallThrough(s: State, op: Opcode): int {
    s.pc + Arity(op) + 1
  }

  /** Whether the instruction jumps, given its first operand. */
  predicate Taken(op: Opcode, a: int) {
    (op == Jnz && a != 0) || (op == Jz && a == 0)
  }

  /** A write of `v` to `dest`, then fall through. */
  function Store(s: State, op: Opcode, dest: int, v: int): Result<Transition, Fault> {
    var mem :- Write(s.mem, dest, v);
    Ok(Transition(State(mem, FallThrough(s, op)), None))
  }

  /** Memory `m2` is `m1` except, possibly, at address `dest`. */
  ghost predicate OnlyChanges(m1: seq<int>, m2: seq<int>, dest: int) {
    |m2| == |m1| && forall j | 0 <= j < |m1| && j != dest :: m2[j] == m1[j]
  }

  /** The per-opcode effect of `run_instruction`, on operands already read.
      For a writing opcode, the destination is popped off the operand list. */
  function Execute(s: State, op: Opcode, args: seq<int>, input: Option<int>): (r: Result<Transition, Fault>)
    requires op != Stop && |args| == Arity(op)
    // A writing opcode changes exactly its destination cell; the others change nothing.
    ensures r.Ok? && !Writes(op) ==> r.value.next.mem == s.mem
    ensures r.Ok? && Writes(op) ==>
              0 <= args[|args| - 1] < |s.mem| && OnlyChanges(s.mem, r.value.next.mem, args[|args| - 1])
    // The value stored.
    ensures r.Ok? && Writes(op) ==>
              var stored := r.value.next.mem[args[|args| - 1]];
              (op == Add ==> stored == args[0] + args[1]) &&
              (op == Mul ==> stored == args[0] * args[1]) &&
              (op == Mov ==> input.Some? && stored == input.value) &&
              (op == Lt ==> (stored == 1 <==> args[0] < args[1]) && (stored == 0 <==> args[0] >= args[1])) &&
              (op == Eq ==> (stored == 1 <==> args[0] == args[1]) && (stored == 0 <==> args[0] != args[1]))
    // Jumps that are taken set the pointer; everything else moves past the operands.
    ensures r.Ok? ==> r.value.next.pc == if Taken(op, args[0]) then args[1] else s.pc + Arity(op) + 1
    ensures r.Ok? ==> r.value.output == if op == Out then Some(args[0]) else None
    // The faults: a missing input first, then a destination outside memory.
    ensures op == Mov && input.None? ==> r == Err(MissingInput)
    ensures !(op == Mov && input.None?) ==>
              (r.Err? <==> Writes(op) && !(0 <= args[|args| - 1] < |s.mem|)) &&
              (r.Err? ==> r.error == AddressOutOfRange(args[|args| - 1]))
  {
    match op
    case Add => Store(s, op, args[2], args[0] + args[1])
    case Mul => Store(s, op, args[2], args[0] * args[1])
    case Mov =>
      // The assigned value is evaluated before the place it is assigned to.
      if input.None? then Err(MissingInput) else Store(s, op, args[0], input.value)
    case Out => Ok(Transition(State(s.mem, FallThrough(s, op)), Some(args[0])))
    case Jnz => Ok(Transition(State(s.mem, if Taken(op, args[0]) then args[1] else FallThrough(s, op)), None))
    case Jz => Ok(Transition(State(s.mem, if Taken(op, args[0]) then args[1] else FallThrough(s, op)), None))
    case Lt => Store(s, op, args[2], if args[0] < args[1] then 1 else 0)
    case Eq => Store(s, op, args[2], if args[0] == args[1] then 1 else 0)
  }

  /** One instruction: `run_instruction` on the opcode at `pc`. */
  function Step(s: State, input: Option<int>): (r: Result<Transition, Fault>)
    // Stop is never executed, and every operand is read before anything is written.
    ensures r.Ok? ==> OpcodeAt(s.mem, s.pc).Ok? && OpcodeAt(s.mem, s.pc).value != Stop && Args(s.mem, s.pc).Ok?
    // At most one cell changes: the raw last operand of a writing opcode.
    ensures r.Ok? ==> |r.value.next.mem| == |s.mem|
    ensures r.Ok? && !Writes(OpcodeAt(s.mem, s.pc).value) ==> r.value.next.mem == s.mem
    ensures r.Ok? && Writes(OpcodeAt(s.mem, s.pc).value) ==>
              OnlyChanges(s.mem, r.value.next.mem, Destination(s, OpcodeAt(s.mem, s.pc).value))
    // The pointer moves past the instruction unless a jump is taken.
    ensures r.Ok? ==>
              var op := OpcodeAt(s.mem, s.pc).value;
              var a := Args(s.mem, s.pc).value;
              r.value.next.pc == if Taken(op, a[0]) then a[1] else s.pc + Arity(op) + 1
    // Only Out emits.
    ensures r.Ok? ==> (r.value.output.Some? <==> OpcodeAt(s.mem, s.pc).value == Out)
    // The input instruction never defaults a missing input.
    ensures Args(s.mem, s.pc).Ok? && OpcodeAt(s.mem, s.pc) == Ok(Mov) && input.None? ==> r == Err(MissingInput)
    // Faults of the decode and of the operand reads surface unchanged.
    ensures Args(s.mem, s.pc).Err? ==> r == Err(Args(s.mem, s.pc).error)
    // An instruction whose operands read is executed with them, so it has
    // the effect `Execute` states for its opcode.
    ensures Args(s.mem, s.pc).Ok? ==>
              r == Execute(s, OpcodeAt(s.mem, s.pc).value, Args(s.mem, s.pc).value, input)
  {
    var op :- OpcodeAt(s.mem, s.pc);
    var args :- Args(s.mem, s.pc);
    Execute(s, op, args, input)
  }

  /** When an instruction succeeds: its operands read, Mov has an input, and
      a writing opcode's destination lies inside memory. */
  lemma StepSucceeds(s: State, input: Option<int>)
    ensures Step(s, input).Ok? <==>
              && Args(s.mem, s.pc).Ok?
              && !(OpcodeAt(s.mem, s.pc).value == Mov && input.None?)
              && (Writes(OpcodeAt(s.mem, s.pc).value) ==> 0 <= Destination(s, OpcodeAt(s.mem, s.pc).value) < |s.mem|)
  {
  }

  /** Where `run_program`'s loop stands between instructions: the machine
      state and the last value output so far (0 before any). */
  datatype Config = Config(state: State, output: int)

  /** One pass of `run_program`'s loop: fetch the opcode at the program
      counter; Stop halts with the pending output and the memory; any other
      instruction faults if a nonzero output is pending, and otherwise
      executes, replacing the pending output when it outputs. */
  function Pass(c: Config, input: Option<int>): (t: Turn<Config, Outcome>)
    ensures OpcodeAt(c.state.mem, c.state.pc).Err? ==> t == Done(Faulted(OpcodeAt(c.state.mem, c.state.pc).error))
    ensures t.Done? && t.outcome.Halted? <==> OpcodeAt(c.state.mem, c.state.pc) == Ok(Stop)
    ensures t.Done? && t.outcome.Halted? ==> t.outcome == Halted(c.output, c.state.mem)
    ensures t.Done? ==> !t.outcome.OutOfFuel?
    ensures OpcodeAt(c.state.mem, c.state.pc).Ok? && OpcodeAt(c.state.mem, c.state.pc).value != Stop && c.output != 0 ==>
              t == Done(Faulted(OutputProtocol(c.output)))
    ensures t.Continue? ==> c.output == 0 && Step(c.state, input).Ok? && t.next.state == Step(c.state, input).value.next
    ensures t.Continue? ==> t.next.output == OrElse(Step(c.state, input).value.output, 0)
    ensures t.Continue? ==> |t.next.state.mem| == |c.state.mem|
    // With no output pending, the instruction at hand steps or its fault ends the run.
    ensures OpcodeAt(c.state.mem, c.state.pc).Ok? && OpcodeAt(c.state.mem, c.state.pc).value != Stop && c.output == 0 ==>
              (t.Continue? <==> Step(c.state, input).Ok?)
    ensures OpcodeAt(c.state.mem, c.state.pc).Ok? && OpcodeAt(c.state.mem, c.state.pc).value != Stop && c.output == 0 ==>
              (Step(c.state, input).Err? ==> t == Done(Faulted(Step(c.state, input).error)))
  {
    match OpcodeAt(c.state.mem, c.state.pc)
    case Err(f) => Done(Faulted(f))
    case Ok(op) =>
      if op == Stop then Done(Halted(c.output, c.state.mem))
      else if c.output != 0 then Done(Faulted(OutputProtocol(c.output)))
      else
        match Step(c.state, input)
        case Err(f) => Done(Faulted(f))
        case Ok(t) => Continue(Config(t.next, OrElse(t.output, c.output)))
  }

  /** The value of `o`, or `default` when there is none. */
  function OrElse(o: Option<int>, default: int): int {
    if o.Some? then o.value else default
  }

  /** The loop body as a function value, so every run uses the same one. */
  function Passes(input: Option<int>): Config -> Turn<Config, Outcome> {
    c => Pass(c, input)
  }

  /** `run_program`'s loop from `c`, for at most `fuel` instructions. */
  function RunFrom(c: Config, input: Option<int>, fuel: nat): (r: Outcome)
    ensures r.Halted? ==> |r.mem| == |c.state.mem|
  {
    KeepsLength(c, input, fuel);
    match Loop(Passes(input), c, fuel)
    case None => OutOfFuel
    case Some(o) => o
  }

  /** Instructions never resize the memory, so a halted run ends with
      memory as long as the tape it started from. */
  lemma KeepsLength(c: Config, input: Option<int>, fuel: nat)
    ensures var r := Loop(Passes(input), c, fuel);
            r.Some? && r.value.Halted? ==> |r.value.mem| == |c.state.mem|
  {
    var n := |c.state.mem|;
    var inv := (d: Config) => |d.state.mem| == n;
    var post := (o: Outcome) => o.Halted? ==> |o.mem| == n;
    Invariant(Passes(input), inv, post, c, fuel);
  }

  /** `run_program`: a run from address 0 with no output yet, on the model's
      own copy of the tape (values are immutable, so the caller's is never
      touched). At most `fuel` instructions are executed. */
  function RunProgram(tape: seq<int>, input: Option<int>, fuel: nat): (r: Outcome)
    ensures |tape| == 0 ==> r == Faulted(AddressOutOfRange(0))
    ensures r.Halted? ==> |r.mem| == |tape|
  {
    RunFrom(Config(State(tape, 0), 0), input, fuel)
  }
}
