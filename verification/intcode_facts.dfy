/** Properties of the extended Intcode machine: the decoder against its
    inverse, the destination rule, what `run_program` returns against an
    unchecked reference run that records every output, and the source's
    test vectors. */
module IntcodeFacts {
  import opened Results
  import opened Arith
  import opened Loops
  import opened Intcode

  /** Decoding inverts `Code`, whatever mode digits sit above the opcode. */
  lemma DecodeCode(op: Opcode, modes: nat)
    ensures DecodeOpcode(Code(op) + 100 * modes) == Ok(op)
  {
    var w := Code(op) + 100 * modes;
    assert w % 100 == Code(op);
  }

  /** The opcode depends on the word only through its truncated remainder. */
  lemma DecodeByRemainder(w1: int, w2: int)
    requires TruncRem(w1, 100) == TruncRem(w2, 100)
    ensures DecodeOpcode(w1).Ok? <==> DecodeOpcode(w2).Ok?
    ensures DecodeOpcode(w1).Ok? ==> DecodeOpcode(w1) == DecodeOpcode(w2)
  {
  }

  /** The source's decoder test, and two negative words: under Rust's
      truncating `%` they are faults, where a Euclidean remainder would have
      read -1 as Stop and -99 as Add. */
  lemma DecodeExamples()
    ensures DecodeOpcode(12304) == Ok(Out)
    ensures DecodeOpcode(12301) == Ok(Add)
    ensures DecodeOpcode(12399) == Ok(Stop)
    ensures DecodeOpcode(-1) == Err(BadOpcode(-1))
    ensures DecodeOpcode(-99) == Err(BadOpcode(-99))
    ensures DecodeOpcode(100) == Err(BadOpcode(100))
  {
  }

  /** Two instruction words with the same opcode and the same mode digits for
      every operand that is not a destination read the same operands: the
      digit above a destination is never consulted. */
  lemma {:induction false} DestinationDigitIgnored(mem: seq<int>, pc: int, w1: nat, w2: nat, op: Opcode, i: nat)
    requires i >= 1
    requires forall k | i <= k <= Arity(op) && !(k == Arity(op) && Writes(op)) ::
               ModeDigit(w1, k) == ModeDigit(w2, k)
    ensures OperandsFrom(mem, pc, w1, op, i) == OperandsFrom(mem, pc, w2, op, i)
    decreases Arity(op) + 1 - i
  {
    if i <= Arity(op) {
      assert Operand(mem, pc, w1, op, i) == Operand(mem, pc, w2, op, i) by {
        assert (i == Arity(op) && Writes(op)) || ModeDigit(w1, i) == ModeDigit(w2, i);
        SameOperand(mem, pc, w1, w2, op, i);
      }
      assert OperandsFrom(mem, pc, w1, op, i + 1) == OperandsFrom(mem, pc, w2, op, i + 1) by {
        DestinationDigitIgnored(mem, pc, w1, w2, op, i + 1);
      }
      SameHeadSameList(mem, pc, w1, w2, op, i);
    } else {
      assert OperandsFrom(mem, pc, w1, op, i) == Ok([]) == OperandsFrom(mem, pc, w2, op, i);
    }
  }

  /** Two operand lists from `i` agree when their first operands and the
      rest of the lists agree. */
  lemma SameHeadSameList(mem: seq<int>, pc: int, w1: nat, w2: nat, op: Opcode, i: nat)
    requires 1 <= i <= Arity(op)
    requires Operand(mem, pc, w1, op, i) == Operand(mem, pc, w2, op, i)
    requires OperandsFrom(mem, pc, w1, op, i + 1) == OperandsFrom(mem, pc, w2, op, i + 1)
    ensures OperandsFrom(mem, pc, w1, op, i) == OperandsFrom(mem, pc, w2, op, i)
  {
    OperandsFromStep(mem, pc, w1, op, i);
    OperandsFromStep(mem, pc, w2, op, i);
  }

  /** Operand `i` reads the same under two words that agree on its digit,
      or whose operand `i` is the destination. */
  lemma SameOperand(mem: seq<int>, pc: int, w1: nat, w2: nat, op: Opcode, i: nat)
    requires (i == Arity(op) && Writes(op)) || ModeDigit(w1, i) == ModeDigit(w2, i)
    ensures Operand(mem, pc, w1, op, i) == Operand(mem, pc, w2, op, i)
  {
    assert OperandMode(w1, op, i) == OperandMode(w2, op, i);
  }

  /** The operand list from `i` is operand `i` put before the list from
      `i + 1`, or operand `i`'s fault. */
  lemma OperandsFromStep(mem: seq<int>, pc: int, word: nat, op: Opcode, i: nat)
    requires 1 <= i <= Arity(op)
    ensures Operand(mem, pc, word, op, i).Err? ==>
              OperandsFrom(mem, pc, word, op, i) == Err(Operand(mem, pc, word, op, i).error)
    ensures Operand(mem, pc, word, op, i).Ok? ==>
              OperandsFrom(mem, pc, word, op, i) ==
                Prepend([Operand(mem, pc, word, op, i).value], OperandsFrom(mem, pc, word, op, i + 1))
  {
  }

  /** The converse of `OperandsFrom`'s contract: operands that each read
      successfully make up the whole operand list. */
  lemma {:induction false} OperandsFromAll(mem: seq<int>, pc: int, word: nat, op: Opcode, i: nat, vals: seq<int>)
    requires 1 <= i <= Arity(op) + 1 && |vals| == Arity(op)
    requires forall k | i <= k <= Arity(op) :: Operand(mem, pc, word, op, k) == Ok(vals[k - 1])
    ensures OperandsFrom(mem, pc, word, op, i) == Ok(vals[i - 1..])
    decreases Arity(op) + 1 - i
  {
    if i <= Arity(op) {
      OperandsFromAll(mem, pc, word, op, i + 1, vals);
      OperandsFromCons(mem, pc, word, op, i, vals[i - 1]);
      PrependSlice(vals, i);
    } else {
      assert vals[i - 1..] == [];
    }
  }

  /** An element put back in front of the rest of a list gives the list from
      that element on. */
  lemma PrependSlice(vals: seq<int>, i: nat)
    requires 1 <= i <= |vals|
    ensures Prepend([vals[i - 1]], Ok(vals[i..])) == Ok(vals[i - 1..])
  {
    assert [vals[i - 1]] + vals[i..] == vals[i - 1..];
  }

  /** `get_args` succeeds with `vals` exactly when the instruction is not
      Stop and each operand reads as the matching element of `vals`. */
  lemma ArgsFromOperands(mem: seq<int>, pc: int, op: Opcode, vals: seq<int>)
    requires OpcodeAt(mem, pc) == Ok(op) && op != Stop && |vals| == Arity(op)
    ensures Args(mem, pc) == Ok(vals) <==>
              forall k | 1 <= k <= Arity(op) :: Operand(mem, pc, mem[pc], op, k) == Ok(vals[k - 1])
  {
    if forall k | 1 <= k <= Arity(op) :: Operand(mem, pc, mem[pc], op, k) == Ok(vals[k - 1]) {
      OperandsFromAll(mem, pc, mem[pc], op, 1, vals);
      assert vals[0..] == vals;
    }
  }

  /** The source's operand test: `1002` is a multiply with a position-mode
      first operand, an immediate second one and a raw destination. */
  lemma GetArgsExample()
    ensures OpcodeAt([1002, 4, 3, 4, 33], 0) == Ok(Mul)
    ensures Args([1002, 4, 3, 4, 33], 0) == Ok([33, 3, 4])
  {
    var mem := [1002, 4, 3, 4, 33];
    assert OpcodeAt(mem, 0) == Ok(Mul) by { assert TruncRem(1002, 100) == 2; }
    ModeDigits(1002, 0, 1);
    ArgsFromOperands(mem, 0, Mul, [33, 3, 4]);
  }

  /** A destination digit of 2 is no fault: `21101` adds 1 and 2 into
      cell 0... */
  lemma DestinationDigitExample()
    ensures Args([21101, 1, 2, 0, 99], 0) == Ok([1, 2, 0])
  {
    var mem := [21101, 1, 2, 0, 99];
    DecodeCode(Add, 211);
    ModeDigits(21101, 1, 1);
    ImmediateOperand(mem, 0, 21101, Add, 1);
    ImmediateOperand(mem, 0, 21101, Add, 2);
    ImmediateOperand(mem, 0, 21101, Add, 3);
    ArgsFromOperands(mem, 0, Add, [1, 2, 0]);
  }

  /** ...but the same digit on a value operand is (`201`). */
  lemma BadModeExample()
    ensures Args([201, 1, 2, 0, 99], 0) == Err(BadMode(2))
  {
    var mem := [201, 1, 2, 0, 99];
    DecodeCode(Add, 2);
    ModeDigits(201, 2, 0);
    assert Operand(mem, 0, 201, Add, 1) == Err(BadMode(2));
  }

  // ---------------------------------------------------------------------
  // What run_program returns.

  /** Fuel only bounds a run: once it halts or faults, more fuel gives the
      same outcome. */
  lemma MoreFuel(c: Config, input: Option<int>, fuel: nat, more: nat)
    requires more >= fuel
    ensures !RunFrom(c, input, fuel).OutOfFuel? ==> RunFrom(c, input, more) == RunFrom(c, input, fuel)
  {
    if !RunFrom(c, input, fuel).OutOfFuel? {
      Loops.MoreFuel(Passes(input), c, fuel, more);
    }
  }

  /** Every value a run emits, in order, with the final memory. */
  datatype Transcript = Transcript(outputs: seq<int>, mem: seq<int>)

  /** A reference run's configuration: the machine state and every value
      output so far. */
  datatype Recording = Recording(state: State, outputs: seq<int>)

  /** The values one transition emits. */
  function Emitted(t: Transition): seq<int> {
    if t.output.Some? then [t.output.value] else []
  }

  /** One pass of the reference loop: the same instructions as `Pass`, with
      no check on the outputs, each of which is recorded. */
  function RecordPass(c: Recording, input: Option<int>): Turn<Recording, Result<Transcript, Fault>> {
    match OpcodeAt(c.state.mem, c.state.pc)
    case Err(f) => Done(Err(f))
    case Ok(op) =>
      if op == Stop then Done(Ok(Transcript(c.outputs, c.state.mem)))
      else
        match Step(c.state, input)
        case Err(f) => Done(Err(f))
        case Ok(t) => Continue(Recording(t.next, c.outputs + Emitted(t)))
  }

  function Recorder(input: Option<int>): Recording -> Turn<Recording, Result<Transcript, Fault>> {
    c => RecordPass(c, input)
  }

  /** The reference run of a tape from address 0. */
  function RunRecorded(tape: seq<int>, input: Option<int>, fuel: nat): Option<Result<Transcript, Fault>> {
    Loop(Recorder(input), Recording(State(tape, 0), []), fuel)
  }

  /** The last element of `xs`, or `default` when it is empty. */
  function LastOr(xs: seq<int>, default: int): int {
    if |xs| == 0 then default else xs[|xs| - 1]
  }

  predicate AllZero(xs: seq<int>) {
    forall i | 0 <= i < |xs| :: xs[i] == 0
  }

  predicate ZeroBeforeLast(xs: seq<int>) {
    forall i | 0 <= i < |xs| - 1 :: xs[i] == 0
  }

  /** The relation `run_program` keeps with the reference run: the same
      state, the pending output is the last one recorded, and every earlier
      one was 0. */
  predicate Tracks(b: Recording, a: Config) {
    && a.state == b.state
    && a.output == LastOr(b.outputs, 0)
    && ZeroBeforeLast(b.outputs)
  }

  /** What the reference run's result says about a halted `run_program`. */
  predicate Explains(o: Outcome, r: Result<Transcript, Fault>) {
    && o.Halted?
    && r.Ok?
    && r.value.mem == o.mem
    && o.output == LastOr(r.value.outputs, 0)
    && ZeroBeforeLast(r.value.outputs)
  }

  /** One pass of `run_program` from a configuration the reference run
      tracks is matched by one pass of the reference run. */
  lemma PassTracked(a: Config, b: Recording, input: Option<int>)
    requires Tracks(b, a)
    ensures Lockstep(Pass(a, input), RecordPass(b, input), (x: Config, y: Recording) => Tracks(y, x),
                     (x: Config) => false, (o: Outcome) => o.Halted?, Explains)
  {
    var s := a.state;
    match OpcodeAt(s.mem, s.pc)
    case Err(f) =>
      assert Pass(a, input) == Done(Faulted(f));
    case Ok(op) =>
      if op == Stop {
        assert Pass(a, input) == Done(Halted(a.output, s.mem));
        assert RecordPass(b, input) == Done(Ok(Transcript(b.outputs, s.mem)));
      } else if a.output != 0 {
        assert Pass(a, input) == Done(Faulted(OutputProtocol(a.output)));
      } else {
        match Step(s, input)
        case Err(f) =>
          assert Pass(a, input) == Done(Faulted(f));
        case Ok(t) =>
          var outs := b.outputs + Emitted(t);
          assert Pass(a, input) == Continue(Config(t.next, OrElse(t.output, 0)));
          assert RecordPass(b, input) == Continue(Recording(t.next, outs));
          TracksAfter(b.outputs, t);
      }
  }

  /** Appending what one transition emits to outputs whose last one is 0
      (and so, by `ZeroBeforeLast`, all of them) keeps the pending output
      the last recorded one, after zeros only. */
  lemma TracksAfter(outs: seq<int>, t: Transition)
    requires LastOr(outs, 0) == 0 && ZeroBeforeLast(outs)
    ensures OrElse(t.output, 0) == LastOr(outs + Emitted(t), 0)
    ensures ZeroBeforeLast(outs + Emitted(t))
  {
    var all := outs + Emitted(t);
    assert AllZero(outs) by {
      if |outs| > 0 { assert outs[|outs| - 1] == 0; }
    }
    assert ZeroBeforeLast(all) by {
      forall i | 0 <= i < |all| - 1 ensures all[i] == 0 {
        assert i < |outs|;
      }
    }
  }

  /** A run of `run_program` that halts returns the last value the program
      output (0 if it output nothing), every earlier output was 0, and the
      final memory is the reference run's. */
  lemma HaltedReturnsLastOutput(tape: seq<int>, input: Option<int>, fuel: nat)
    ensures RunProgram(tape, input, fuel).Halted? ==>
              RunRecorded(tape, input, fuel).Some? &&
              Explains(RunProgram(tape, input, fuel), RunRecorded(tape, input, fuel).value)
  {
    var rel := (x: Config, y: Recording) => Tracks(y, x);
    var doomed := (x: Config) => false;
    var good := (o: Outcome) => o.Halted?;
    forall a, b | rel(a, b) ensures Lockstep(Passes(input)(a), Recorder(input)(b), rel, doomed, good, Explains) {
      PassTracked(a, b, input);
    }
    Simulation(Passes(input), Recorder(input), rel, doomed, good, Explains,
               Config(State(tape, 0), 0), Recording(State(tape, 0), []), fuel);
  }

  /** The relation a quiet reference run keeps with `run_program`: the same
      state, nothing but zeros output so far and none pending. */
  predicate Quiet(b: Recording, a: Config) {
    a.state == b.state && a.output == 0 && AllZero(b.outputs)
  }

  predicate QuietResult(r: Result<Transcript, Fault>) {
    r.Ok? && AllZero(r.value.outputs)
  }

  predicate HaltsQuietly(r: Result<Transcript, Fault>, o: Outcome) {
    r.Ok? && o == Halted(0, r.value.mem)
  }

  /** One pass of a quiet reference run is matched by one pass of
      `run_program`, unless it outputs a nonzero value. */
  lemma PassQuiet(b: Recording, a: Config, input: Option<int>)
    requires Quiet(b, a)
    ensures Lockstep(RecordPass(b, input), Pass(a, input), Quiet,
                     (y: Recording) => !AllZero(y.outputs), QuietResult, HaltsQuietly)
  {
    if OpcodeAt(b.state.mem, b.state.pc).Ok? && OpcodeAt(b.state.mem, b.state.pc).value != Stop
       && Step(b.state, input).Ok? {
      var t := Step(b.state, input).value;
      var outs := b.outputs + Emitted(t);
      if AllZero(outs) && t.output.Some? {
        assert outs[|outs| - 1] == t.output.value;
      }
    }
  }

  /** Outputs are only ever appended, so once a nonzero value is out the
      reference run cannot end quietly. */
  lemma NoisyStaysNoisy(b: Recording, input: Option<int>, fuel: nat)
    requires !AllZero(b.outputs)
    ensures Loop(Recorder(input), b, fuel).Some? ==> !QuietResult(Loop(Recorder(input), b, fuel).value)
  {
    var inv := (y: Recording) => !AllZero(y.outputs);
    var post := (r: Result<Transcript, Fault>) => !QuietResult(r);
    forall y | inv(y) && Recorder(input)(y).Continue? ensures inv(Recorder(input)(y).next) {
      var t := Step(y.state, input).value;
      var i :| 0 <= i < |y.outputs| && y.outputs[i] != 0;
      assert (y.outputs + Emitted(t))[i] != 0;
    }
    Invariant(Recorder(input), inv, post, b, fuel);
  }

  /** Conversely, a reference run that halts having output nothing but
      zeros is a run of `run_program` that halts with output 0. */
  lemma QuietRunHalts(tape: seq<int>, input: Option<int>, fuel: nat)
    requires RunRecorded(tape, input, fuel).Some? && QuietResult(RunRecorded(tape, input, fuel).value)
    ensures RunProgram(tape, input, fuel) == Halted(0, RunRecorded(tape, input, fuel).value.value.mem)
  {
    var doomed := (y: Recording) => !AllZero(y.outputs);
    forall b, a | Quiet(b, a) ensures Lockstep(Recorder(input)(b), Passes(input)(a), Quiet, doomed, QuietResult, HaltsQuietly) {
      PassQuiet(b, a, input);
    }
    forall b, f: nat | doomed(b) && Loop(Recorder(input), b, f).Some?
      ensures !QuietResult(Loop(Recorder(input), b, f).value)
    {
      NoisyStaysNoisy(b, input, f);
    }
    Simulation(Recorder(input), Passes(input), Quiet, doomed, QuietResult, HaltsQuietly,
               Recording(State(tape, 0), []), Config(State(tape, 0), 0), fuel);
  }

  /** A nonzero output followed by any instruction but Stop ends the whole
      run with the protocol fault, whatever fuel is left. */
  lemma NoisyRunFaults(c: Config, input: Option<int>, fuel: nat)
    requires fuel > 0 && c.output != 0
    requires OpcodeAt(c.state.mem, c.state.pc).Ok? && OpcodeAt(c.state.mem, c.state.pc).value != Stop
    ensures RunFrom(c, input, fuel) == Faulted(OutputProtocol(c.output))
  {
  }

  /** Why `QuietRunHalts` asks for all-zero outputs rather than the zeros
      before the last that `HaltedReturnsLastOutput` promises: this program's
      reference run halts having output a single 5, but `run_program` faults
      at the add that follows the output. */
  lemma NoisyAddExample()
    ensures RunRecorded([104, 5, 1101, 0, 0, 7, 99, 0], None, 10) ==
              Some(Ok(Transcript([5], [104, 5, 1101, 0, 0, 7, 99, 0])))
    ensures RunProgram([104, 5, 1101, 0, 0, 7, 99, 0], None, 10) == Faulted(OutputProtocol(5))
  {
    var mem := [104, 5, 1101, 0, 0, 7, 99, 0];
    OutPass(mem, 0, 5);
    RunContinues(Config(State(mem, 0), 0), None, 10, Config(State(mem, 2), 5));
    AddImmediateArgs(mem, 2);
    NoisyRunFaults(Config(State(mem, 2), 5), None, 9);
    NoisyAddRecorded();
  }

  lemma NoisyAddRecorded()
    ensures RunRecorded([104, 5, 1101, 0, 0, 7, 99, 0], None, 10) ==
              Some(Ok(Transcript([5], [104, 5, 1101, 0, 0, 7, 99, 0])))
  {
    var mem := [104, 5, 1101, 0, 0, 7, 99, 0];
    NoisyAddRecordedOut();
    LoopContinue(Recorder(None), Recording(State(mem, 0), []), 10);
    NoisyAddRecordedAdd();
    LoopContinue(Recorder(None), Recording(State(mem, 2), [5]), 9);
    DecodeCode(Stop, 0);
    assert RecordPass(Recording(State(mem, 6), [5]), None) == Done(Ok(Transcript([5], mem)));
  }

  lemma NoisyAddRecordedOut()
    ensures var mem := [104, 5, 1101, 0, 0, 7, 99, 0];
            RecordPass(Recording(State(mem, 0), []), None) == Continue(Recording(State(mem, 2), [5]))
  {
    var mem := [104, 5, 1101, 0, 0, 7, 99, 0];
    OutPass(mem, 0, 5);
    DecodeCode(Out, 1);
    RecordFollowsPass(Recording(State(mem, 0), []), None);
    assert Emitted(Step(State(mem, 0), None).value) == [5];
    assert [] + [5] == [5];
  }

  lemma NoisyAddRecordedAdd()
    ensures var mem := [104, 5, 1101, 0, 0, 7, 99, 0];
            RecordPass(Recording(State(mem, 2), [5]), None) == Continue(Recording(State(mem, 6), [5]))
  {
    var mem := [104, 5, 1101, 0, 0, 7, 99, 0];
    assert mem[mem[5] := mem[3] + mem[4]] == mem;
    AddImmediatePass(mem, 2, None, mem);
    DecodeCode(Add, 11);
    RecordFollowsPass(Recording(State(mem, 2), [5]), None);
    assert Emitted(Step(State(mem, 2), None).value) == [];
    assert [5] + [] == [5];
  }

  /** Where `run_program` continues with no output pending, the reference
      run takes the same step and records what it emits. */
  lemma RecordFollowsPass(b: Recording, input: Option<int>)
    requires Pass(Config(b.state, 0), input).Continue?
    ensures Step(b.state, input).Ok?
    ensures RecordPass(b, input) ==
              Continue(Recording(Pass(Config(b.state, 0), input).next.state, b.outputs + Emitted(Step(b.state, input).value)))
  {
  }

  /** A pass that continues hands the rest of the run to its successor. */
  lemma RunContinues(c: Config, input: Option<int>, fuel: nat, next: Config)
    requires Pass(c, input) == Continue(next) && fuel > 0
    ensures RunFrom(c, input, fuel) == RunFrom(next, input, fuel - 1)
  {
    LoopContinue(Passes(input), c, fuel);
  }

  /** One pass of `run_program`'s loop, once the instruction's opcode,
      operands and effect are known. */
  lemma PassIs(c: Config, input: Option<int>, op: Opcode, args: seq<int>, t: Transition)
    requires c.output == 0 && OpcodeAt(c.state.mem, c.state.pc) == Ok(op) && op != Stop
    requires Args(c.state.mem, c.state.pc) == Ok(args) && |args| == Arity(op)
    requires Execute(c.state, op, args, input) == Ok(t)
    ensures Pass(c, input) == Continue(Config(t.next, OrElse(t.output, 0)))
  {
  }

  /** A pass at a Stop instruction halts with the pending output. */
  lemma RunHalts(c: Config, input: Option<int>, fuel: nat)
    requires OpcodeAt(c.state.mem, c.state.pc) == Ok(Stop)
    ensures RunFrom(c, input, fuel) == Halted(c.output, c.state.mem)
  {
  }

  /** The input instruction faults without an input... */
  lemma MissingInputExample()
    ensures RunProgram([3, 0, 99], None, 10) == Faulted(MissingInput)
  {
    MissingInputPass();
  }

  lemma MissingInputPass()
    ensures Pass(Config(State([3, 0, 99], 0), 0), None) == Done(Faulted(MissingInput))
  {
    var s := State([3, 0, 99], 0);
    assert OpcodeAt(s.mem, 0) == Ok(Mov) && Args(s.mem, 0) == Ok([0]) by {
      MovArgs(s.mem, 0);
    }
    assert Step(s, None) == Err(MissingInput);
  }

  /** ...and stores the input when there is one. */
  lemma InputExample()
    ensures RunProgram([3, 0, 99], Some(7), 10) == Halted(0, [7, 0, 99])
  {
    var c0 := Config(State([3, 0, 99], 0), 0);
    var c1 := Config(State([7, 0, 99], 2), 0);
    InputPass();
    RunContinues(c0, Some(7), 10, c1);
    DecodeCode(Stop, 0);
    RunHalts(c1, Some(7), 9);
  }

  lemma InputPass()
    ensures Pass(Config(State([3, 0, 99], 0), 0), Some(7)) == Continue(Config(State([7, 0, 99], 2), 0))
  {
    MovPass([3, 0, 99], 0, 7, [7, 0, 99]);
  }

  /** The first two mode digits of an instruction word: the hundreds and
      the thousands digit. */
  lemma ModeDigits(word: nat, d1: nat, d2: nat)
    requires word / 100 % 10 == d1 && word / 1000 % 10 == d2
    ensures ModeDigit(word, 1) == d1 && ModeDigit(word, 2) == d2
  {
    assert Pow10(2) == 100 && Pow10(3) == 1000;
  }

  /** An operand whose mode is immediate, or which is a destination, reads
      its own cell. */
  lemma ImmediateOperand(mem: seq<int>, pc: int, word: nat, op: Opcode, i: nat)
    requires 1 <= i <= Arity(op) && 0 <= pc + i < |mem|
    requires ModeDigit(word, i) == 1 || (i == Arity(op) && Writes(op))
    ensures Operand(mem, pc, word, op, i) == Ok(mem[pc + i])
  {
  }

  /** An operand in position mode reads the cell its own cell points to. */
  lemma PositionOperand(mem: seq<int>, pc: int, word: nat, op: Opcode, i: nat)
    requires 1 <= i <= Arity(op) && 0 <= pc + i < |mem| && 0 <= mem[pc + i] < |mem|
    requires ModeDigit(word, i) == 0 && !(i == Arity(op) && Writes(op))
    ensures Operand(mem, pc, word, op, i) == Ok(mem[mem[pc + i]])
  {
  }

  /** An input instruction. */
  lemma MovPass(mem: seq<int>, pc: nat, v: int, after: seq<int>)
    requires pc + 1 < |mem| && mem[pc] == 3 && 0 <= mem[pc + 1] < |mem|
    requires after == mem[mem[pc + 1] := v]
    ensures Pass(Config(State(mem, pc), 0), Some(v)) == Continue(Config(State(after, pc + 2), 0))
  {
    MovArgs(mem, pc);
    PassIs(Config(State(mem, pc), 0), Some(v), Mov, [mem[pc + 1]],
           Transition(State(mem[mem[pc + 1] := v], pc + 2), None));
  }

  lemma MovArgs(mem: seq<int>, pc: nat)
    requires pc + 1 < |mem| && mem[pc] == 3
    ensures OpcodeAt(mem, pc) == Ok(Mov) && Args(mem, pc) == Ok([mem[pc + 1]])
  {
    DecodeCode(Mov, 0);
    ArgsFromOperands(mem, pc, Mov, [mem[pc + 1]]);
  }

  /** An output instruction with a position-mode operand. */
  lemma OutPositionPass(mem: seq<int>, pc: nat, input: Option<int>)
    requires pc + 1 < |mem| && mem[pc] == 4 && 0 <= mem[pc + 1] < |mem|
    ensures Pass(Config(State(mem, pc), 0), input) == Continue(Config(State(mem, pc + 2), mem[mem[pc + 1]]))
  {
    OutPositionArgs(mem, pc);
    PassIs(Config(State(mem, pc), 0), input, Out, [mem[mem[pc + 1]]],
           Transition(State(mem, pc + 2), Some(mem[mem[pc + 1]])));
  }

  lemma OutPositionArgs(mem: seq<int>, pc: nat)
    requires pc + 1 < |mem| && mem[pc] == 4 && 0 <= mem[pc + 1] < |mem|
    ensures OpcodeAt(mem, pc) == Ok(Out) && Args(mem, pc) == Ok([mem[mem[pc + 1]]])
  {
    DecodeCode(Out, 0);
    ModeDigits(4, 0, 0);
    ArgsFromOperands(mem, pc, Out, [mem[mem[pc + 1]]]);
  }

  /** A jump-if-nonzero with both operands immediate. */
  lemma JnzImmediatePass(mem: seq<int>, pc: nat, input: Option<int>)
    requires pc + 2 < |mem| && mem[pc] == 1105
    ensures Pass(Config(State(mem, pc), 0), input) ==
              Continue(Config(State(mem, if mem[pc + 1] != 0 then mem[pc + 2] else pc + 3), 0))
  {
    JnzImmediateArgs(mem, pc);
    PassIs(Config(State(mem, pc), 0), input, Jnz, [mem[pc + 1], mem[pc + 2]],
           Transition(State(mem, if mem[pc + 1] != 0 then mem[pc + 2] else pc + 3), None));
  }

  lemma JnzImmediateArgs(mem: seq<int>, pc: nat)
    requires pc + 2 < |mem| && mem[pc] == 1105
    ensures OpcodeAt(mem, pc) == Ok(Jnz) && Args(mem, pc) == Ok([mem[pc + 1], mem[pc + 2]])
  {
    DecodeCode(Jnz, 11);
    ModeDigits(1105, 1, 1);
    ImmediateOperand(mem, pc, 1105, Jnz, 1);
    ImmediateOperand(mem, pc, 1105, Jnz, 2);
    ArgsFromOperands(mem, pc, Jnz, [mem[pc + 1], mem[pc + 2]]);
  }

  /** An add with both value operands immediate. */
  lemma AddImmediatePass(mem: seq<int>, pc: nat, input: Option<int>, after: seq<int>)
    requires pc + 3 < |mem| && mem[pc] == 1101 && 0 <= mem[pc + 3] < |mem|
    requires after == mem[mem[pc + 3] := mem[pc + 1] + mem[pc + 2]]
    ensures Pass(Config(State(mem, pc), 0), input) == Continue(Config(State(after, pc + 4), 0))
  {
    AddImmediateArgs(mem, pc);
    PassIs(Config(State(mem, pc), 0), input, Add, [mem[pc + 1], mem[pc + 2], mem[pc + 3]],
           Transition(State(mem[mem[pc + 3] := mem[pc + 1] + mem[pc + 2]], pc + 4), None));
  }

  lemma AddImmediateArgs(mem: seq<int>, pc: nat)
    requires pc + 3 < |mem| && mem[pc] == 1101
    ensures OpcodeAt(mem, pc) == Ok(Add) && Args(mem, pc) == Ok([mem[pc + 1], mem[pc + 2], mem[pc + 3]])
  {
    DecodeCode(Add, 11);
    ModeDigits(1101, 1, 1);
    ImmediateOperand(mem, pc, 1101, Add, 1);
    ImmediateOperand(mem, pc, 1101, Add, 2);
    ImmediateOperand(mem, pc, 1101, Add, 3);
    ArgsFromOperands(mem, pc, Add, [mem[pc + 1], mem[pc + 2], mem[pc + 3]]);
  }

  /** An equality test with both value operands in position mode. */
  lemma EqPositionPass(mem: seq<int>, pc: nat, input: Option<int>, after: seq<int>)
    requires pc + 3 < |mem| && mem[pc] == 8
    requires 0 <= mem[pc + 1] < |mem| && 0 <= mem[pc + 2] < |mem| && 0 <= mem[pc + 3] < |mem|
    requires after == mem[mem[pc + 3] := if mem[mem[pc + 1]] == mem[mem[pc + 2]] then 1 else 0]
    ensures Pass(Config(State(mem, pc), 0), input) == Continue(Config(State(after, pc + 4), 0))
  {
    var args := [mem[mem[pc + 1]], mem[mem[pc + 2]], mem[pc + 3]];
    EqPositionArgs(mem, pc);
    PassIs(Config(State(mem, pc), 0), input, Eq, args,
           Transition(State(mem[mem[pc + 3] := if args[0] == args[1] then 1 else 0], pc + 4), None));
  }

  lemma EqPositionArgs(mem: seq<int>, pc: nat)
    requires pc + 3 < |mem| && mem[pc] == 8
    requires 0 <= mem[pc + 1] < |mem| && 0 <= mem[pc + 2] < |mem|
    ensures OpcodeAt(mem, pc) == Ok(Eq) && Args(mem, pc) == Ok([mem[mem[pc + 1]], mem[mem[pc + 2]], mem[pc + 3]])
  {
    DecodeCode(Eq, 0);
    ModeDigits(8, 0, 0);
    PositionOperand(mem, pc, 8, Eq, 1);
    PositionOperand(mem, pc, 8, Eq, 2);
    ImmediateOperand(mem, pc, 8, Eq, 3);
    ArgsFromOperands(mem, pc, Eq, [mem[mem[pc + 1]], mem[mem[pc + 2]], mem[pc + 3]]);
  }

  /** The self-modifying multiply of the operand test: cell 4 becomes
      `33 * 3 = 99`, which the next fetch reads as Stop. */
  lemma SelfModifyingExample()
    ensures RunProgram([1002, 4, 3, 4, 33], None, 1) == Halted(0, [1002, 4, 3, 4, 99])
  {
    var c1 := Config(State([1002, 4, 3, 4, 99], 4), 0);
    SelfModifyingPass();
    RunContinues(Config(State([1002, 4, 3, 4, 33], 0), 0), None, 1, c1);
    DecodeCode(Stop, 0);
    RunHalts(c1, None, 0);
  }

  lemma SelfModifyingPass()
    ensures Pass(Config(State([1002, 4, 3, 4, 33], 0), 0), None) == Continue(Config(State([1002, 4, 3, 4, 99], 4), 0))
  {
    var s := State([1002, 4, 3, 4, 33], 0);
    GetArgsExample();
    assert s.mem[4 := 99] == [1002, 4, 3, 4, 99];
    PassIs(Config(s, 0), None, Mul, [33, 3, 4], Transition(State([1002, 4, 3, 4, 99], 4), None));
  }

  /** An output instruction with an immediate operand. */
  lemma OutPass(mem: seq<int>, pc: nat, v: int)
    requires pc + 1 < |mem| && mem[pc] == 104 && mem[pc + 1] == v
    ensures Pass(Config(State(mem, pc), 0), None) == Continue(Config(State(mem, pc + 2), v))
  {
    DecodeCode(Out, 1);
    ModeDigits(104, 1, 0);
    ArgsFromOperands(mem, pc, Out, [v]);
    PassIs(Config(State(mem, pc), 0), None, Out, [v], Transition(State(mem, pc + 2), Some(v)));
  }

  /** A nonzero output right before Stop is the result... */
  lemma OutputThenStopExample()
    ensures RunProgram([104, 5, 99], None, 10) == Halted(5, [104, 5, 99])
  {
    var mem := [104, 5, 99];
    OutPass(mem, 0, 5);
    RunContinues(Config(State(mem, 0), 0), None, 10, Config(State(mem, 2), 5));
    DecodeCode(Stop, 0);
    RunHalts(Config(State(mem, 2), 5), None, 9);
  }

  /** ...a nonzero output followed by anything but Stop is a fault... */
  lemma OutputProtocolExample()
    ensures RunProgram([104, 5, 104, 6, 99], None, 10) == Faulted(OutputProtocol(5))
  {
    var mem := [104, 5, 104, 6, 99];
    OutPass(mem, 0, 5);
    RunContinues(Config(State(mem, 0), 0), None, 10, Config(State(mem, 2), 5));
    DecodeCode(Out, 1);
    assert Pass(Config(State(mem, 2), 5), None) == Done(Faulted(OutputProtocol(5)));
  }

  /** ...and a zero output before another one is no fault. */
  lemma ZeroOutputExample()
    ensures RunProgram([104, 0, 104, 6, 99], None, 10) == Halted(6, [104, 0, 104, 6, 99])
  {
    var mem := [104, 0, 104, 6, 99];
    OutPass(mem, 0, 0);
    RunContinues(Config(State(mem, 0), 0), None, 10, Config(State(mem, 2), 0));
    OutPass(mem, 2, 6);
    RunContinues(Config(State(mem, 2), 0), None, 9, Config(State(mem, 4), 6));
    DecodeCode(Stop, 0);
    RunHalts(Config(State(mem, 4), 6), None, 8);
  }

  /** A program that outputs whether its input equals 8: the input lands
      in cell 9, the comparison overwrites it with 1 or 0, and that is
      output. */
  lemma EqualsEightExample()
    ensures RunProgram([3, 9, 8, 9, 10, 9, 4, 9, 99, -1, 8], Some(8), 10) == Halted(1, [3, 9, 8, 9, 10, 9, 4, 9, 99, 1, 8])
    ensures RunProgram([3, 9, 8, 9, 10, 9, 4, 9, 99, -1, 8], Some(7), 10) == Halted(0, [3, 9, 8, 9, 10, 9, 4, 9, 99, 0, 8])
  {
    EqualsEightRun(8);
    EqualsEightRun(7);
  }

  lemma EqualsEightRun(v: int)
    ensures var b := if v == 8 then 1 else 0;
            RunProgram([3, 9, 8, 9, 10, 9, 4, 9, 99, -1, 8], Some(v), 10) == Halted(b, [3, 9, 8, 9, 10, 9, 4, 9, 99, b, 8])
  {
    var m0 := [3, 9, 8, 9, 10, 9, 4, 9, 99, -1, 8];
    var m1 := [3, 9, 8, 9, 10, 9, 4, 9, 99, v, 8];
    MovPass(m0, 0, v, m1);
    RunContinues(Config(State(m0, 0), 0), Some(v), 10, Config(State(m1, 2), 0));
    EqualsEightFrom2(v);
  }

  lemma EqualsEightFrom2(v: int)
    ensures var b := if v == 8 then 1 else 0;
            RunFrom(Config(State([3, 9, 8, 9, 10, 9, 4, 9, 99, v, 8], 2), 0), Some(v), 9) ==
              Halted(b, [3, 9, 8, 9, 10, 9, 4, 9, 99, b, 8])
  {
    var b := if v == 8 then 1 else 0;
    var m1 := [3, 9, 8, 9, 10, 9, 4, 9, 99, v, 8];
    var m2 := [3, 9, 8, 9, 10, 9, 4, 9, 99, b, 8];
    assert m1[9 := b] == m2;
    EqPositionPass(m1, 2, Some(v), m2);
    RunContinues(Config(State(m1, 2), 0), Some(v), 9, Config(State(m2, 6), 0));
    EqualsEightFrom6(v, b);
  }

  lemma EqualsEightFrom6(v: int, b: int)
    ensures var m2 := [3, 9, 8, 9, 10, 9, 4, 9, 99, b, 8];
            RunFrom(Config(State(m2, 6), 0), Some(v), 8) == Halted(b, m2)
  {
    var m2 := [3, 9, 8, 9, 10, 9, 4, 9, 99, b, 8];
    OutPositionPass(m2, 6, Some(v));
    RunContinues(Config(State(m2, 6), 0), Some(v), 8, Config(State(m2, 8), b));
    DecodeCode(Stop, 0);
    RunHalts(Config(State(m2, 8), b), Some(v), 7);
  }

  /** A program that outputs whether its input is nonzero, through a jump
      with immediate operands: taken for a nonzero input, which then outputs
      the 1 in cell 12; not taken for 0, which first overwrites that cell
      with 0 + 0. */
  lemma JumpExample()
    ensures RunProgram([3, 3, 1105, -1, 9, 1101, 0, 0, 12, 4, 12, 99, 1], Some(0), 10) ==
              Halted(0, [3, 3, 1105, 0, 9, 1101, 0, 0, 12, 4, 12, 99, 0])
    ensures RunProgram([3, 3, 1105, -1, 9, 1101, 0, 0, 12, 4, 12, 99, 1], Some(5), 10) ==
              Halted(1, [3, 3, 1105, 5, 9, 1101, 0, 0, 12, 4, 12, 99, 1])
  {
    JumpNotTaken();
    JumpTaken(5);
  }

  lemma JumpNotTaken()
    ensures RunProgram([3, 3, 1105, -1, 9, 1101, 0, 0, 12, 4, 12, 99, 1], Some(0), 10) ==
              Halted(0, [3, 3, 1105, 0, 9, 1101, 0, 0, 12, 4, 12, 99, 0])
  {
    var m0 := [3, 3, 1105, -1, 9, 1101, 0, 0, 12, 4, 12, 99, 1];
    var m1 := [3, 3, 1105, 0, 9, 1101, 0, 0, 12, 4, 12, 99, 1];
    assert m0[3 := 0] == m1;
    MovPass(m0, 0, 0, m1);
    RunContinues(Config(State(m0, 0), 0), Some(0), 10, Config(State(m1, 2), 0));
    JumpNotTakenFrom2();
  }

  lemma JumpNotTakenFrom2()
    ensures RunFrom(Config(State([3, 3, 1105, 0, 9, 1101, 0, 0, 12, 4, 12, 99, 1], 2), 0), Some(0), 9) ==
              Halted(0, [3, 3, 1105, 0, 9, 1101, 0, 0, 12, 4, 12, 99, 0])
  {
    var m1 := [3, 3, 1105, 0, 9, 1101, 0, 0, 12, 4, 12, 99, 1];
    JnzImmediatePass(m1, 2, Some(0));
    RunContinues(Config(State(m1, 2), 0), Some(0), 9, Config(State(m1, 5), 0));
    JumpNotTakenFrom5();
  }

  lemma JumpNotTakenFrom5()
    ensures RunFrom(Config(State([3, 3, 1105, 0, 9, 1101, 0, 0, 12, 4, 12, 99, 1], 5), 0), Some(0), 8) ==
              Halted(0, [3, 3, 1105, 0, 9, 1101, 0, 0, 12, 4, 12, 99, 0])
  {
    var m1 := [3, 3, 1105, 0, 9, 1101, 0, 0, 12, 4, 12, 99, 1];
    var m2 := [3, 3, 1105, 0, 9, 1101, 0, 0, 12, 4, 12, 99, 0];
    assert m1[m1[8] := m1[6] + m1[7]] == m2;
    assert Pass(Config(State(m1, 5), 0), Some(0)) == Continue(Config(State(m2, 9), 0)) by {
      AddImmediatePass(m1, 5, Some(0), m2);
    }
    RunContinues(Config(State(m1, 5), 0), Some(0), 8, Config(State(m2, 9), 0));
    JumpNotTakenFrom9();
  }

  lemma JumpNotTakenFrom9()
    ensures var m2 := [3, 3, 1105, 0, 9, 1101, 0, 0, 12, 4, 12, 99, 0];
            RunFrom(Config(State(m2, 9), 0), Some(0), 7) == Halted(0, m2)
  {
    var m2 := [3, 3, 1105, 0, 9, 1101, 0, 0, 12, 4, 12, 99, 0];
    OutPositionPass(m2, 9, Some(0));
    RunContinues(Config(State(m2, 9), 0), Some(0), 7, Config(State(m2, 11), 0));
    DecodeCode(Stop, 0);
    RunHalts(Config(State(m2, 11), 0), Some(0), 6);
  }

  lemma JumpTaken(v: int)
    requires v != 0
    ensures RunProgram([3, 3, 1105, -1, 9, 1101, 0, 0, 12, 4, 12, 99, 1], Some(v), 10) ==
              Halted(1, [3, 3, 1105, v, 9, 1101, 0, 0, 12, 4, 12, 99, 1])
  {
    var m0 := [3, 3, 1105, -1, 9, 1101, 0, 0, 12, 4, 12, 99, 1];
    var m1 := [3, 3, 1105, v, 9, 1101, 0, 0, 12, 4, 12, 99, 1];
    assert m0[3 := v] == m1;
    MovPass(m0, 0, v, m1);
    RunContinues(Config(State(m0, 0), 0), Some(v), 10, Config(State(m1, 2), 0));
    JumpTakenFrom2(v);
  }

  lemma JumpTakenFrom2(v: int)
    requires v != 0
    ensures var m1 := [3, 3, 1105, v, 9, 1101, 0, 0, 12, 4, 12, 99, 1];
            RunFrom(Config(State(m1, 2), 0), Some(v), 9) == Halted(1, m1)
  {
    var m1 := [3, 3, 1105, v, 9, 1101, 0, 0, 12, 4, 12, 99, 1];
    JnzImmediatePass(m1, 2, Some(v));
    RunContinues(Config(State(m1, 2), 0), Some(v), 9, Config(State(m1, 9), 0));
    JumpTakenFrom9(v);
  }

  lemma JumpTakenFrom9(v: int)
    ensures var m1 := [3, 3, 1105, v, 9, 1101, 0, 0, 12, 4, 12, 99, 1];
            RunFrom(Config(State(m1, 9), 0), Some(v), 8) == Halted(1, m1)
  {
    var m1 := [3, 3, 1105, v, 9, 1101, 0, 0, 12, 4, 12, 99, 1];
    OutPositionPass(m1, 9, Some(v));
    RunContinues(Config(State(m1, 9), 0), Some(v), 8, Config(State(m1, 11), 1));
    DecodeCode(Stop, 0);
    RunHalts(Config(State(m1, 11), 1), Some(v), 7);
  }

  /** A jump-if-zero with both operands immediate. */
  lemma JzImmediatePass(mem: seq<int>, pc: nat, input: Option<int>)
    requires pc + 2 < |mem| && mem[pc] == 1106
    ensures Pass(Config(State(mem, pc), 0), input) ==
              Continue(Config(State(mem, if mem[pc + 1] == 0 then mem[pc + 2] else pc + 3), 0))
  {
    JzImmediateArgs(mem, pc);
    PassIs(Config(State(mem, pc), 0), input, Jz, [mem[pc + 1], mem[pc + 2]],
           Transition(State(mem, if mem[pc + 1] == 0 then mem[pc + 2] else pc + 3), None));
  }

  lemma JzImmediateArgs(mem: seq<int>, pc: nat)
    requires pc + 2 < |mem| && mem[pc] == 1106
    ensures OpcodeAt(mem, pc) == Ok(Jz) && Args(mem, pc) == Ok([mem[pc + 1], mem[pc + 2]])
  {
    DecodeCode(Jz, 11);
    ModeDigits(1106, 1, 1);
    ImmediateOperand(mem, pc, 1106, Jz, 1);
    ImmediateOperand(mem, pc, 1106, Jz, 2);
    ArgsFromOperands(mem, pc, Jz, [mem[pc + 1], mem[pc + 2]]);
  }

  /** The same program with a jump-if-zero in place of the jump-if-nonzero:
      it outputs whether its input is zero. Taken for 0, which outputs the 1
      in cell 12; not taken for a nonzero input, which first overwrites that
      cell with 0 + 0. */
  lemma JumpIfZeroExample()
    ensures RunProgram([3, 3, 1106, -1, 9, 1101, 0, 0, 12, 4, 12, 99, 1], Some(0), 10) ==
              Halted(1, [3, 3, 1106, 0, 9, 1101, 0, 0, 12, 4, 12, 99, 1])
    ensures RunProgram([3, 3, 1106, -1, 9, 1101, 0, 0, 12, 4, 12, 99, 1], Some(5), 10) ==
              Halted(0, [3, 3, 1106, 5, 9, 1101, 0, 0, 12, 4, 12, 99, 0])
  {
    ZeroJumpTaken();
    ZeroJumpNotTaken(5);
  }

  lemma ZeroJumpTaken()
    ensures RunProgram([3, 3, 1106, -1, 9, 1101, 0, 0, 12, 4, 12, 99, 1], Some(0), 10) ==
              Halted(1, [3, 3, 1106, 0, 9, 1101, 0, 0, 12, 4, 12, 99, 1])
  {
    var m0 := [3, 3, 1106, -1, 9, 1101, 0, 0, 12, 4, 12, 99, 1];
    var m1 := [3, 3, 1106, 0, 9, 1101, 0, 0, 12, 4, 12, 99, 1];
    assert m0[3 := 0] == m1;
    MovPass(m0, 0, 0, m1);
    RunContinues(Config(State(m0, 0), 0), Some(0), 10, Config(State(m1, 2), 0));
    ZeroJumpTakenFrom2();
  }

  lemma ZeroJumpTakenFrom2()
    ensures var m1 := [3, 3, 1106, 0, 9, 1101, 0, 0, 12, 4, 12, 99, 1];
            RunFrom(Config(State(m1, 2), 0), Some(0), 9) == Halted(1, m1)
  {
    var m1 := [3, 3, 1106, 0, 9, 1101, 0, 0, 12, 4, 12, 99, 1];
    JzImmediatePass(m1, 2, Some(0));
    RunContinues(Config(State(m1, 2), 0), Some(0), 9, Config(State(m1, 9), 0));
    ZeroJumpTakenFrom9();
  }

  lemma ZeroJumpTakenFrom9()
    ensures var m1 := [3, 3, 1106, 0, 9, 1101, 0, 0, 12, 4, 12, 99, 1];
            RunFrom(Config(State(m1, 9), 0), Some(0), 8) == Halted(1, m1)
  {
    var m1 := [3, 3, 1106, 0, 9, 1101, 0, 0, 12, 4, 12, 99, 1];
    OutPositionPass(m1, 9, Some(0));
    RunContinues(Config(State(m1, 9), 0), Some(0), 8, Config(State(m1, 11), 1));
    DecodeCode(Stop, 0);
    RunHalts(Config(State(m1, 11), 1), Some(0), 7);
  }

  lemma ZeroJumpNotTaken(v: int)
    requires v != 0
    ensures RunProgram([3, 3, 1106, -1, 9, 1101, 0, 0, 12, 4, 12, 99, 1], Some(v), 10) ==
              Halted(0, [3, 3, 1106, v, 9, 1101, 0, 0, 12, 4, 12, 99, 0])
  {
    var m0 := [3, 3, 1106, -1, 9, 1101, 0, 0, 12, 4, 12, 99, 1];
    var m1 := [3, 3, 1106, v, 9, 1101, 0, 0, 12, 4, 12, 99, 1];
    assert m0[3 := v] == m1;
    MovPass(m0, 0, v, m1);
    RunContinues(Config(State(m0, 0), 0), Some(v), 10, Config(State(m1, 2), 0));
    ZeroJumpNotTakenFrom2(v);
  }

  lemma ZeroJumpNotTakenFrom2(v: int)
    requires v != 0
    ensures RunFrom(Config(State([3, 3, 1106, v, 9, 1101, 0, 0, 12, 4, 12, 99, 1], 2), 0), Some(v), 9) ==
              Halted(0, [3, 3, 1106, v, 9, 1101, 0, 0, 12, 4, 12, 99, 0])
  {
    var m1 := [3, 3, 1106, v, 9, 1101, 0, 0, 12, 4, 12, 99, 1];
    JzImmediatePass(m1, 2, Some(v));
    RunContinues(Config(State(m1, 2), 0), Some(v), 9, Config(State(m1, 5), 0));
    ZeroJumpNotTakenFrom5(v);
  }

  lemma ZeroJumpNotTakenFrom5(v: int)
    ensures RunFrom(Config(State([3, 3, 1106, v, 9, 1101, 0, 0, 12, 4, 12, 99, 1], 5), 0), Some(v), 8) ==
              Halted(0, [3, 3, 1106, v, 9, 1101, 0, 0, 12, 4, 12, 99, 0])
  {
    var m1 := [3, 3, 1106, v, 9, 1101, 0, 0, 12, 4, 12, 99, 1];
    var m2 := [3, 3, 1106, v, 9, 1101, 0, 0, 12, 4, 12, 99, 0];
    assert m1[m1[8] := m1[6] + m1[7]] == m2;
    assert Pass(Config(State(m1, 5), 0), Some(v)) == Continue(Config(State(m2, 9), 0)) by {
      AddImmediatePass(m1, 5, Some(v), m2);
    }
    RunContinues(Config(State(m1, 5), 0), Some(v), 8, Config(State(m2, 9), 0));
    ZeroJumpNotTakenFrom9(v);
  }

  lemma ZeroJumpNotTakenFrom9(v: int)
    ensures var m2 := [3, 3, 1106, v, 9, 1101, 0, 0, 12, 4, 12, 99, 0];
            RunFrom(Config(State(m2, 9), 0), Some(v), 7) == Halted(0, m2)
  {
    var m2 := [3, 3, 1106, v, 9, 1101, 0, 0, 12, 4, 12, 99, 0];
    OutPositionPass(m2, 9, Some(v));
    RunContinues(Config(State(m2, 9), 0), Some(v), 7, Config(State(m2, 11), 0));
    DecodeCode(Stop, 0);
    RunHalts(Config(State(m2, 11), 0), Some(v), 6);
  }
}
