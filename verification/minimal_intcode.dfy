/** The first, minimal Intcode machine of `src/bin/day2/main.rs`: add,
    multiply and halt only, every operand an address, a fixed stride of four
    words, and the brute-force search for the noun and verb that make the
    program leave 19690720 in cell 0.

    Panics are `Fault`s of the extended machine's kind. The run needs no
    fuel: the position grows by four each instruction, so it leaves the
    memory after finitely many. */
module MinimalIntcode {
  import opened Results
  import opened Arith
  import opened Intcode
  import opened IntcodeFacts
  import opened Loops

  /** The value `part2` looks for in cell 0. */
  const Target := 19690720

  /** One instruction at `pos`: the three operand cells are read first,
      then the opcode chooses add or multiply, whose operands are read
      before the destination is written. The stored value uses the cells as
      they were before the step. */
  function StepAt(mem: seq<int>, pos: nat): (r: Result<seq<int>, Fault>)
    requires pos < |mem|
    ensures r.Ok? <==> && pos + 3 < |mem| && mem[pos] in {1, 2}
                       && 0 <= mem[pos + 1] < |mem| && 0 <= mem[pos + 2] < |mem| && 0 <= mem[pos + 3] < |mem|
    ensures r.Ok? ==> |r.value| == |mem|
    ensures r.Ok? ==> forall i | 0 <= i < |mem| && i != mem[pos + 3] :: r.value[i] == mem[i]
    ensures r.Ok? && mem[pos] == 1 ==> r.value[mem[pos + 3]] == mem[mem[pos + 1]] + mem[mem[pos + 2]]
    ensures r.Ok? && mem[pos] == 2 ==> r.value[mem[pos + 3]] == mem[mem[pos + 1]] * mem[mem[pos + 2]]
    ensures pos + 3 < |mem| && mem[pos] !in {1, 2} ==> r == Err(BadOpcode(mem[pos]))
    ensures pos + 3 >= |mem| ==> r == Err(AddressOutOfRange(|mem|))
  {
    var a1 :- Read(mem, pos + 1);
    var a2 :- Read(mem, pos + 2);
    var dest :- Read(mem, pos + 3);
    if mem[pos] == 1 || mem[pos] == 2 then
      var x :- Read(mem, a1);
      var y :- Read(mem, a2);
      Write(mem, dest, if mem[pos] == 1 then x + y else x * y)
    else
      Err(BadOpcode(mem[pos]))
  }

  /** `run_program`'s loop from `pos`: halt on 99, otherwise step and move
      four words on. */
  function Run(mem: seq<int>, pos: nat): (r: Result<seq<int>, Fault>)
    ensures r.Ok? ==> |r.value| == |mem|
    ensures pos >= |mem| ==> r == Err(AddressOutOfRange(pos))
    ensures pos < |mem| && mem[pos] == 99 ==> r == Ok(mem)
    decreases |mem| - pos
  {
    var op :- Read(mem, pos);
    if op == 99 then Ok(mem)
    else
      var next :- StepAt(mem, pos);
      Run(next, pos + 4)
  }

  /** `run_program`: a run from position 0 of the model's own copy of the
      tape. */
  function RunProgram(tape: seq<int>): (r: Result<seq<int>, Fault>)
    ensures r.Ok? ==> |r.value| == |tape|
    ensures |tape| > 0 && tape[0] == 99 ==> r == Ok(tape)
  {
    Run(tape, 0)
  }

  /** `k` instructions from `pos`, as the reference for what a run does:
      each one is a `StepAt` at a position four words past the last. */
  function Steps(mem: seq<int>, pos: nat, k: nat): (r: Result<seq<int>, Fault>)
    ensures r.Ok? ==> |r.value| == |mem|
    decreases k
  {
    if k == 0 then Ok(mem)
    else if pos >= |mem| then Err(AddressOutOfRange(pos))
    else
      var next :- StepAt(mem, pos);
      Steps(next, pos + 4, k - 1)
  }

  /** The instructions before the `k`-th from `pos` all ran, none at a 99. */
  predicate NoHaltBefore(mem: seq<int>, pos: nat, k: nat) {
    forall j | 0 <= j < k ::
      Steps(mem, pos, j).Ok? && pos + 4 * j < |mem| && Steps(mem, pos, j).value[pos + 4 * j] != 99
  }

  /** One instruction that is not a halt, followed by `k` that run without
      halting, is `k + 1` that run without halting. */
  lemma NoHaltBeforeCons(mem: seq<int>, pos: nat, next: seq<int>, k: nat)
    requires pos < |mem| && mem[pos] != 99 && StepAt(mem, pos) == Ok(next)
    requires NoHaltBefore(next, pos + 4, k)
    ensures NoHaltBefore(mem, pos, k + 1)
  {
    forall j | 0 <= j < k + 1
      ensures Steps(mem, pos, j).Ok? && pos + 4 * j < |mem| && Steps(mem, pos, j).value[pos + 4 * j] != 99
    {
      if j > 0 {
        assert Steps(mem, pos, j) == Steps(next, pos + 4, j - 1);
        assert pos + 4 * j == (pos + 4) + 4 * (j - 1);
      } else {
        assert Steps(mem, pos, j) == Ok(mem);
      }
    }
  }

  /** A run that halts has executed some number `k` of instructions at
      `pos`, `pos + 4`, ..., none of them at a 99, and halted at the 99 at
      `pos + 4 * k`. */
  lemma {:induction false} RunIsSteps(mem: seq<int>, pos: nat) returns (k: nat)
    requires Run(mem, pos).Ok?
    ensures Steps(mem, pos, k) == Run(mem, pos)
    ensures pos + 4 * k < |mem| && Run(mem, pos).value[pos + 4 * k] == 99
    ensures NoHaltBefore(mem, pos, k)
    decreases |mem| - pos
  {
    if mem[pos] == 99 {
      k := 0;
    } else {
      var next := RunStep(mem, pos);
      var k' := RunIsSteps(next, pos + 4);
      k := k' + 1;
      assert Steps(mem, pos, k) == Steps(next, pos + 4, k');
      assert pos + 4 * k == (pos + 4) + 4 * k';
      NoHaltBeforeCons(mem, pos, next, k');
    }
  }

  /** A run that does not halt at once is the run of the next position on
      the memory one instruction leaves. */
  lemma RunStep(mem: seq<int>, pos: nat) returns (next: seq<int>)
    requires Run(mem, pos).Ok? && mem[pos] != 99
    ensures StepAt(mem, pos) == Ok(next) && |next| == |mem|
    ensures Run(mem, pos) == Run(next, pos + 4)
  {
    next := StepAt(mem, pos).value;
  }

  /** Overwrites the noun (cell 1) and the verb (cell 2), as `part1` and
      `part2` do; `Err` when the tape is too short for either. */
  function Patch(tape: seq<int>, noun: int, verb: int): (r: Result<seq<int>, Fault>)
    ensures |tape| < 2 ==> r == Err(AddressOutOfRange(1))
    ensures |tape| == 2 ==> r == Err(AddressOutOfRange(2))
    ensures |tape| >= 3 <==> r.Ok?
    ensures r.Ok? ==> |r.value| == |tape| && r.value[1] == noun && r.value[2] == verb
    ensures r.Ok? ==> forall i | 0 <= i < |tape| && i != 1 && i != 2 :: r.value[i] == tape[i]
  {
    var p :- Write(tape, 1, noun);
    Write(p, 2, verb)
  }

  /** `part1`: cell 0 after running the tape with noun 12 and verb 2. */
  function Part1(tape: seq<int>): (r: Result<int, Fault>)
    ensures |tape| < 3 ==> r == Patch(tape, 12, 2).PropagateFailure()
    ensures r.Ok? <==> Patch(tape, 12, 2).Ok? && RunProgram(Patch(tape, 12, 2).value).Ok?
    ensures r.Ok? ==> r.value == RunProgram(Patch(tape, 12, 2).value).value[0]
  {
    var program :- Patch(tape, 12, 2);
    var after :- RunProgram(program);
    Read(after, 0)
  }

  /** A noun and verb `part2` tries. */
  datatype Candidate = Candidate(noun: nat, verb: nat)

  /** Both below 99, the range of each of `part2`'s loops. */
  predicate InRange(c: Candidate) {
    c.noun < 99 && c.verb < 99
  }

  /** `part2`'s order: nouns in the outer loop, verbs in the inner one. */
  predicate Precedes(c1: Candidate, c2: Candidate) {
    c1.noun < c2.noun || (c1.noun == c2.noun && c1.verb < c2.verb)
  }

  /** Cell 0 after the run of candidate `c`. */
  function Cell0(tape: seq<int>, c: Candidate): (r: Result<int, Fault>)
    requires |tape| >= 3
    ensures r.Ok? <==> RunProgram(Patch(tape, c.noun, c.verb).value).Ok?
    ensures r.Ok? ==> r.value == RunProgram(Patch(tape, c.noun, c.verb).value).value[0]
    ensures r.Err? ==> r.error == RunProgram(Patch(tape, c.noun, c.verb).value).error
  {
    var after :- RunProgram(Patch(tape, c.noun, c.verb).value);
    Ok(after[0])
  }

  /** Every candidate's result, as one function value. */
  function Attempts(tape: seq<int>): Candidate -> Result<int, Fault>
    requires |tape| >= 3
  {
    c => Cell0(tape, c)
  }

  /** Candidate `c` runs to completion without leaving the target. */
  predicate Misses(results: Candidate -> Result<int, Fault>, c: Candidate) {
    results(c).Ok? && results(c).value != Target
  }

  /** Candidate `c` leaves the target in cell 0. */
  predicate Hits(results: Candidate -> Result<int, Fault>, c: Candidate) {
    results(c) == Ok(Target)
  }

  /** The search from candidate `from` on, in `part2`'s order, given each
      candidate's result: the first candidate that hits, or `None` when
      every one misses. A run that faults ends the search with its fault. */
  function SearchFrom(results: Candidate -> Result<int, Fault>, from: Candidate): (r: Result<Option<Candidate>, Fault>)
    requires from.verb <= 99
    ensures r.Ok? && r.value.Some? ==> InRange(r.value.value) && !Precedes(r.value.value, from)
    decreases 99 - from.noun, 99 - from.verb
  {
    if from.noun >= 99 then Ok(None)
    else if from.verb == 99 then SearchFrom(results, Candidate(from.noun + 1, 0))
    else
      var v :- results(from);
      if v == Target then Ok(Some(from))
      else SearchFrom(results, Candidate(from.noun, from.verb + 1))
  }

  /** What the search finds: a candidate that hits with every candidate
      before it missing; `None` only when every candidate misses; a fault
      only from a candidate whose run faults, every one before it missing. */
  lemma {:induction false} SearchFromSound(results: Candidate -> Result<int, Fault>, from: Candidate)
    requires from.verb <= 99
    ensures SearchFrom(results, from).Ok? && SearchFrom(results, from).value.Some? ==>
              var found := SearchFrom(results, from).value.value;
              && Hits(results, found)
              && forall c | InRange(c) && !Precedes(c, from) && Precedes(c, found) :: Misses(results, c)
    ensures SearchFrom(results, from) == Ok(None) ==>
              forall c | InRange(c) && !Precedes(c, from) :: Misses(results, c)
    ensures SearchFrom(results, from).Err? ==>
              exists bad | InRange(bad) && !Precedes(bad, from) ::
                && results(bad) == Err(SearchFrom(results, from).error)
                && forall c | InRange(c) && !Precedes(c, from) && Precedes(c, bad) :: Misses(results, c)
    decreases 99 - from.noun, 99 - from.verb
  {
    if from.noun >= 99 {
    } else if from.verb == 99 {
      SearchFromSound(results, Candidate(from.noun + 1, 0));
    } else if results(from).Ok? && results(from).value != Target {
      var next := Candidate(from.noun, from.verb + 1);
      SearchFromSound(results, next);
      if SearchFrom(results, from).Err? {
        var bad :| InRange(bad) && !Precedes(bad, next) && results(bad) == Err(SearchFrom(results, next).error)
                   && forall c | InRange(c) && !Precedes(c, next) && Precedes(c, bad) :: Misses(results, c);
        assert forall c | InRange(c) && !Precedes(c, from) && Precedes(c, bad) :: Misses(results, c) by {
          forall c | InRange(c) && !Precedes(c, from) && Precedes(c, bad) ensures Misses(results, c) {
            if c == from { } else { assert !Precedes(c, next); }
          }
        }
      }
    } else if results(from).Err? {
      assert forall c | InRange(c) && !Precedes(c, from) && Precedes(c, from) :: Misses(results, c);
    }
  }

  /** The number `part2` reports for candidate `c`. */
  function Answer(c: Candidate): int {
    100 * c.noun + c.verb
  }

  /** `part2`: `100 * noun + verb` for the first candidate that hits, 0
      when none does. */
  function Part2(tape: seq<int>): (r: Result<int, Fault>)
    ensures |tape| < 3 ==> r == Patch(tape, 0, 0).PropagateFailure()
  {
    var _ :- Patch(tape, 0, 0);
    var found :- SearchFrom(Attempts(tape), Candidate(0, 0));
    match found
    case None => Ok(0)
    case Some(c) => Ok(Answer(c))
  }

  /** `part2` on a tape long enough to patch reports what the search finds. */
  lemma Part2Search(tape: seq<int>)
    requires |tape| >= 3
    ensures SearchFrom(Attempts(tape), Candidate(0, 0)).Err? ==>
              Part2(tape) == Err(SearchFrom(Attempts(tape), Candidate(0, 0)).error)
    ensures SearchFrom(Attempts(tape), Candidate(0, 0)) == Ok(None) ==> Part2(tape) == Ok(0)
    ensures SearchFrom(Attempts(tape), Candidate(0, 0)).Ok? && SearchFrom(Attempts(tape), Candidate(0, 0)).value.Some? ==>
              var c := SearchFrom(Attempts(tape), Candidate(0, 0)).value.value;
              Part2(tape) == Ok(Answer(c))
  {
  }

  /** What `part2` answers: `100 * noun + verb` for the first candidate in
      its order whose run leaves the target in cell 0; 0 when every run
      finishes without it; the fault of the first candidate whose run
      faults, when no hit comes before it. */
  lemma Part2Answer(tape: seq<int>)
    requires |tape| >= 3
    ensures Part2(tape).Ok? ==>
              || (Part2(tape).value == 0 && forall c | InRange(c) :: Misses(Attempts(tape), c))
              || exists found | InRange(found) ::
                   && Part2(tape).value == Answer(found)
                   && Hits(Attempts(tape), found)
                   && forall c | InRange(c) && Precedes(c, found) :: Misses(Attempts(tape), c)
    ensures Part2(tape).Err? ==>
              exists bad | InRange(bad) ::
                && Attempts(tape)(bad) == Err(Part2(tape).error)
                && forall c | InRange(c) && Precedes(c, bad) :: Misses(Attempts(tape), c)
  {
    SearchFromSound(Attempts(tape), Candidate(0, 0));
  }

  /** One candidate of the search: a fault ends it, a hit is the answer,
      a miss moves on to the next verb. */
  lemma SearchAt(results: Candidate -> Result<int, Fault>, c: Candidate)
    requires InRange(c)
    ensures results(c).Err? ==> SearchFrom(results, c) == Err(results(c).error)
    ensures Hits(results, c) ==> SearchFrom(results, c) == Ok(Some(c))
    ensures Misses(results, c) ==> SearchFrom(results, c) == SearchFrom(results, Candidate(c.noun, c.verb + 1))
  {
  }

  /** After the last verb comes the next noun. */
  lemma SearchNextNoun(results: Candidate -> Result<int, Fault>, noun: nat)
    ensures SearchFrom(results, Candidate(noun, 99)) == SearchFrom(results, Candidate(noun + 1, 0))
  {
  }

  /** One turn of `part2`'s inner loop: patch the tape with candidate `c`
      and run it. What the run gives decides how the search goes on. */
  method RunCandidate(tape: seq<int>, c: Candidate) returns (after: Result<seq<int>, Fault>)
    requires |tape| >= 3 && InRange(c)
    ensures after.Ok? ==> |after.value| == |tape|
    ensures after.Err? ==> SearchFrom(Attempts(tape), c) == Err(after.error)
    ensures after.Ok? && after.value[0] == Target ==> SearchFrom(Attempts(tape), c) == Ok(Some(c))
    ensures after.Ok? && after.value[0] != Target ==>
              SearchFrom(Attempts(tape), c) == SearchFrom(Attempts(tape), Candidate(c.noun, c.verb + 1))
  {
    var program := Patch(tape, c.noun, c.verb).value;
    after := RunProgram(program);
    assert Attempts(tape)(c) == Cell0(tape, c);
    SearchAt(Attempts(tape), c);
  }

  /** `part2`'s inner loop for one noun: the first verb that hits or
      faults ends the search there; when every verb misses (`None`), the
      search goes on with the next noun. */
  method TryVerbs(tape: seq<int>, noun: nat) returns (found: Result<Option<Candidate>, Fault>)
    requires |tape| >= 3 && noun < 99
    ensures found != Ok(None) ==> found == SearchFrom(Attempts(tape), Candidate(noun, 0))
    ensures found == Ok(None) ==>
              SearchFrom(Attempts(tape), Candidate(noun, 0)) == SearchFrom(Attempts(tape), Candidate(noun + 1, 0))
  {
    var verb := 0;
    while verb < 99
      invariant 0 <= verb <= 99
      invariant SearchFrom(Attempts(tape), Candidate(noun, 0)) == SearchFrom(Attempts(tape), Candidate(noun, verb))
    {
      var after := RunCandidate(tape, Candidate(noun, verb));
      if after.Err? {
        return Err(after.error);
      }
      if after.value[0] == Target {
        return Ok(Some(Candidate(noun, verb)));
      }
      verb := verb + 1;
    }
    SearchNextNoun(Attempts(tape), noun);
    return Ok(None);
  }

  /** `part2` as the source writes it, two nested loops over noun and
      verb; it computes exactly `Part2`. */
  method Part2Loops(tape: seq<int>) returns (r: Result<int, Fault>)
    ensures r == Part2(tape)
  {
    if |tape| < 3 {
      return Patch(tape, 0, 0).PropagateFailure();
    }
    Part2Search(tape);
    var noun := 0;
    while noun < 99
      invariant 0 <= noun <= 99
      invariant SearchFrom(Attempts(tape), Candidate(0, 0)) == SearchFrom(Attempts(tape), Candidate(noun, 0))
    {
      var found := TryVerbs(tape, noun);
      if found.Err? {
        return Err(found.error);
      }
      if found.value.Some? {
        return Ok(Answer(found.value.value));
      }
      noun := noun + 1;
    }
    return Ok(0);
  }

  /** The first examples of `run_program`: `1,0,0,0,99` adds cell 0 to
      itself. */
  lemma AddExample()
    ensures RunProgram([1, 0, 0, 0, 99]) == Ok([2, 0, 0, 0, 99])
  {
    var m0: seq<int> := [1, 0, 0, 0, 99];
    assert m0[0 := 1 + 1] == [2, 0, 0, 0, 99];
    assert StepAt(m0, 0) == Ok([2, 0, 0, 0, 99]);
    assert Run([2, 0, 0, 0, 99], 4) == Ok([2, 0, 0, 0, 99]);
  }

  /** `2,4,4,5,99,0` squares cell 4 into cell 5. */
  lemma MultiplyExample()
    ensures RunProgram([2, 4, 4, 5, 99, 0]) == Ok([2, 4, 4, 5, 99, 9801])
  {
    var m0: seq<int> := [2, 4, 4, 5, 99, 0];
    assert m0[5 := 99 * 99] == [2, 4, 4, 5, 99, 9801];
    assert StepAt(m0, 0) == Ok([2, 4, 4, 5, 99, 9801]);
    assert Run([2, 4, 4, 5, 99, 9801], 4) == Ok([2, 4, 4, 5, 99, 9801]);
  }

  /** `1,1,1,4,99,5,6,0,99`: the first instruction overwrites the 99 at
      cell 4 with a multiply, which runs next. */
  lemma SelfModifyingExample()
    ensures RunProgram([1, 1, 1, 4, 99, 5, 6, 0, 99]) == Ok([30, 1, 1, 4, 2, 5, 6, 0, 99])
  {
    var m0: seq<int> := [1, 1, 1, 4, 99, 5, 6, 0, 99];
    var m1: seq<int> := [1, 1, 1, 4, 2, 5, 6, 0, 99];
    var m2: seq<int> := [30, 1, 1, 4, 2, 5, 6, 0, 99];
    assert m0[4 := 2] == m1;
    assert StepAt(m0, 0) == Ok(m1);
    assert m1[0 := 30] == m2;
    assert StepAt(m1, 4) == Ok(m2);
    assert Run(m2, 8) == Ok(m2);
    assert Run(m1, 4) == Ok(m2);
  }

  /** A word below 100 has no mode digits: every operand is in position
      mode. */
  lemma TwoDigitModes(word: nat)
    requires word < 100
    ensures ModeDigit(word, 1) == 0 && ModeDigit(word, 2) == 0
  {
    assert Pow10(2) == 100 && Pow10(3) == 1000;
    DivUnique(word, 100, 0, word);
    DivUnique(word, 1000, 0, word);
  }

  /** The three operands of a writing instruction whose word has no mode
      digits: two cells read in position mode, then the destination as
      written. */
  lemma PositionOperands(mem: seq<int>, pc: nat, word: nat, op: Opcode)
    requires word < 100 && Arity(op) == 3 && Writes(op)
    requires pc + 3 < |mem| && 0 <= mem[pc + 1] < |mem| && 0 <= mem[pc + 2] < |mem|
    ensures forall k | 1 <= k <= Arity(op) ::
              Operand(mem, pc, word, op, k) == Ok([mem[mem[pc + 1]], mem[mem[pc + 2]], mem[pc + 3]][k - 1])
  {
    TwoDigitModes(word);
    PositionOperand(mem, pc, word, op, 1);
    PositionOperand(mem, pc, word, op, 2);
    ImmediateOperand(mem, pc, word, op, 3);
  }

  /** The opcode and operands the extended machine finds at an add of the
      minimal machine. */
  lemma AddArgs(mem: seq<int>, pc: nat)
    requires pc + 3 < |mem| && mem[pc] == 1
    requires 0 <= mem[pc + 1] < |mem| && 0 <= mem[pc + 2] < |mem|
    ensures OpcodeAt(mem, pc) == Ok(Add) && Args(mem, pc) == Ok([mem[mem[pc + 1]], mem[mem[pc + 2]], mem[pc + 3]])
  {
    DecodeCode(Add, 0);
    PositionOperands(mem, pc, mem[pc], Add);
    ArgsFromOperands(mem, pc, Add, [mem[mem[pc + 1]], mem[mem[pc + 2]], mem[pc + 3]]);
  }

  /** The same for a multiply. */
  lemma MulArgs(mem: seq<int>, pc: nat)
    requires pc + 3 < |mem| && mem[pc] == 2
    requires 0 <= mem[pc + 1] < |mem| && 0 <= mem[pc + 2] < |mem|
    ensures OpcodeAt(mem, pc) == Ok(Mul) && Args(mem, pc) == Ok([mem[mem[pc + 1]], mem[mem[pc + 2]], mem[pc + 3]])
  {
    DecodeCode(Mul, 0);
    PositionOperands(mem, pc, mem[pc], Mul);
    ArgsFromOperands(mem, pc, Mul, [mem[mem[pc + 1]], mem[mem[pc + 2]], mem[pc + 3]]);
  }

  /** What the extended machine's add does with operands already read. */
  lemma AddExecute(s: State, args: seq<int>, input: Option<int>)
    requires |args| == 3 && 0 <= args[2] < |s.mem|
    ensures Execute(s, Add, args, input) == Ok(Transition(State(s.mem[args[2] := args[0] + args[1]], s.pc + 4), None))
  {
  }

  /** What the extended machine's multiply does with operands already read. */
  lemma MulExecute(s: State, args: seq<int>, input: Option<int>)
    requires |args| == 3 && 0 <= args[2] < |s.mem|
    ensures Execute(s, Mul, args, input) == Ok(Transition(State(s.mem[args[2] := args[0] * args[1]], s.pc + 4), None))
  {
  }

  /** An add of the minimal machine, once its operands are known, is one
      pass of the extended one. */
  lemma AddPass(mem: seq<int>, pc: nat, input: Option<int>, args: seq<int>)
    requires OpcodeAt(mem, pc) == Ok(Add) && Args(mem, pc) == Ok(args)
    requires |args| == 3 && 0 <= args[2] < |mem|
    ensures Pass(Config(State(mem, pc), 0), input) ==
              Continue(Config(State(mem[args[2] := args[0] + args[1]], pc + 4), 0))
  {
    AddExecute(State(mem, pc), args, input);
    PassIs(Config(State(mem, pc), 0), input, Add, args,
           Transition(State(mem[args[2] := args[0] + args[1]], pc + 4), None));
  }

  /** The same for a multiply. */
  lemma MulPass(mem: seq<int>, pc: nat, input: Option<int>, args: seq<int>)
    requires OpcodeAt(mem, pc) == Ok(Mul) && Args(mem, pc) == Ok(args)
    requires |args| == 3 && 0 <= args[2] < |mem|
    ensures Pass(Config(State(mem, pc), 0), input) ==
              Continue(Config(State(mem[args[2] := args[0] * args[1]], pc + 4), 0))
  {
    MulExecute(State(mem, pc), args, input);
    PassIs(Config(State(mem, pc), 0), input, Mul, args,
           Transition(State(mem[args[2] := args[0] * args[1]], pc + 4), None));
  }

  /** The memory after a step of the minimal machine, as one update. */
  function Stepped(mem: seq<int>, pos: nat): seq<int>
    requires pos + 3 < |mem| && 0 <= mem[pos + 1] < |mem| && 0 <= mem[pos + 2] < |mem| && 0 <= mem[pos + 3] < |mem|
  {
    var x := mem[mem[pos + 1]];
    var y := mem[mem[pos + 2]];
    mem[mem[pos + 3] := if mem[pos] == 1 then x + y else x * y]
  }

  /** A step that completes is an add or a multiply whose cells exist. */
  lemma StepAtOk(mem: seq<int>, pos: nat)
    requires pos < |mem| && StepAt(mem, pos).Ok?
    ensures pos + 3 < |mem| && (mem[pos] == 1 || mem[pos] == 2)
    ensures 0 <= mem[pos + 1] < |mem| && 0 <= mem[pos + 2] < |mem| && 0 <= mem[pos + 3] < |mem|
    ensures StepAt(mem, pos).value == Stepped(mem, pos)
  {
  }

  /** Every instruction the minimal machine completes is one pass of the
      extended machine's loop to the same memory and the next position. */
  lemma StepAgrees(mem: seq<int>, pos: nat, input: Option<int>)
    requires pos + 3 < |mem| && (mem[pos] == 1 || mem[pos] == 2)
    requires 0 <= mem[pos + 1] < |mem| && 0 <= mem[pos + 2] < |mem| && 0 <= mem[pos + 3] < |mem|
    ensures Pass(Config(State(mem, pos), 0), input) == Continue(Config(State(Stepped(mem, pos), pos + 4), 0))
  {
    var args := [mem[mem[pos + 1]], mem[mem[pos + 2]], mem[pos + 3]];
    if mem[pos] == 1 {
      assert Stepped(mem, pos) == mem[args[2] := args[0] + args[1]];
      AddArgs(mem, pos);
      AddPass(mem, pos, input, args);
    } else {
      assert Stepped(mem, pos) == mem[args[2] := args[0] * args[1]];
      MulArgs(mem, pos);
      MulPass(mem, pos, input, args);
    }
  }

  /** The minimal machine is the extended one restricted to its three
      opcodes: a run that halts with memory `m` is, given enough fuel, a run
      of the extended machine that halts with `m` and no output. */
  lemma {:induction false} RunAgrees(mem: seq<int>, pos: nat, input: Option<int>) returns (fuel: nat)
    requires Run(mem, pos).Ok?
    ensures Intcode.RunFrom(Config(State(mem, pos), 0), input, fuel) == Halted(0, Run(mem, pos).value)
    decreases |mem| - pos
  {
    if mem[pos] == 99 {
      fuel := 0;
      DecodeCode(Stop, 0);
      RunHalts(Config(State(mem, pos), 0), input, fuel);
    } else {
      var next := StepAt(mem, pos).value;
      assert Run(mem, pos) == Run(next, pos + 4);
      var rest := RunAgrees(next, pos + 4, input);
      fuel := rest + 1;
      StepAtOk(mem, pos);
      StepAgrees(mem, pos, input);
      RunContinues(Config(State(mem, pos), 0), input, fuel, Config(State(next, pos + 4), 0));
    }
  }

  /** Day 2's `run_program` and the extended `run_program` agree on every
      tape the former runs to completion. */
  lemma RunProgramAgrees(tape: seq<int>, input: Option<int>)
    requires RunProgram(tape).Ok?
    ensures exists fuel: nat :: Intcode.RunProgram(tape, input, fuel) == Halted(0, RunProgram(tape).value)
  {
    var fuel := RunAgrees(tape, 0, input);
    assert Intcode.RunProgram(tape, input, fuel) == Halted(0, RunProgram(tape).value);
  }
}
