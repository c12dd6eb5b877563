/** Instruction dispatch: argument resolution, label lookup, the opcodes every
    entity understands, line execution with the device fallback, and `Step`. */
module Dispatch {
  import opened Wrappers
  import opened Text
  import opened Registers
  import opened Program
  import opened Control

  /** The floating-point operations the interpreter borrows from the runtime:
      division, `Mathf.Pow`, the `%` operator and `float.Parse` (which may reject
      its input). Addition, subtraction and multiplication are exact here. */
  datatype FloatOps = FloatOps(
    div: (real, real) -> real,
    pow: (real, real) -> real,
    mod: (real, real) -> real,
    parse: string -> Option<real>)

  /** A device handler: given the entity and the tokens of a line, declines the
      opcode (`None`, nothing changed), completes it (`Some` of the new state), or
      throws. */
  type DeviceHandler = (Controllable, seq<string>) -> Outcome<Option<Controllable>>

  /** `GetArgumentValue`: a register name is tried first; otherwise the token is
      parsed as a number, and a token that is neither is fatal. */
  function GetArgumentValue(ops: FloatOps, c: Controllable, arg: string): (r: Outcome<real>)
    ensures r.Success? <==> IsValid(c.registers, arg) || ops.parse(arg).Some?
    ensures IsValid(c.registers, arg) ==> r == Success(Lookup(c.registers, arg).value)
    ensures !IsValid(c.registers, arg) && ops.parse(arg).Some? ==> r == Success(ops.parse(arg).value)
    ensures r.Failure? ==> r.error == Fault(InvalidArgument, Halt(c))
  {
    if IsValid(c.registers, arg) then
      GetRegisterValue(c, arg)
    else
      match ops.parse(arg)
      case Some(v) => Success(v)
      case None => Error(InvalidArgument, c)
  }

  /** A register name wins over a literal: whenever the token names a register, the
      parser is never consulted, so any two parsers give the same value. */
  lemma RegisterBeforeLiteral(ops1: FloatOps, ops2: FloatOps, c: Controllable, arg: string)
    requires IsValid(c.registers, arg)
    ensures GetArgumentValue(ops1, c, arg) == GetArgumentValue(ops2, c, arg)
    ensures GetArgumentValue(ops1, c, arg).Success?
  {
  }

  /** `GetLabelLineNumber`: the upper-cased name must be in the label table. */
  function GetLabelLineNumber(c: Controllable, name: string): (r: Outcome<int>)
    ensures r.Success? <==> Upper(name) in c.labels
    ensures r.Success? ==> r.value == c.labels[Upper(name)]
    ensures r.Failure? ==> r.error == Fault(InvalidLabelReference, Halt(c))
  {
    var key := Upper(name);
    if key !in c.labels then Error(InvalidLabelReference, c) else Success(c.labels[key])
  }

  /** Against the table a successful label scan builds, a label reference resolves
      exactly when some line declares that name, upper-cased, and it resolves to
      the index of that declaration. */
  lemma LabelReferenceFindsDeclaration(c: Controllable, lines: seq<string>, name: string)
    requires IsLabelTable(lines, c.labels)
    ensures GetLabelLineNumber(c, name).Success? <==>
              exists j :: 0 <= j < |lines| && IsLabelDeclaration(lines[j]) && LabelName(lines[j]) == Upper(name)
    ensures GetLabelLineNumber(c, name).Success? ==>
              var j := GetLabelLineNumber(c, name).value;
              0 <= j < |lines| && IsLabelDeclaration(lines[j]) && LabelName(lines[j]) == Upper(name)
  {
    if j :| 0 <= j < |lines| && IsLabelDeclaration(lines[j]) && LabelName(lines[j]) == Upper(name) {
      assert Upper(name) in c.labels;
    }
  }

  /** The opcodes with two register-or-literal operands and a destination. */
  predicate IsArithmetic(op: string) {
    op == "add" || op == "sub" || op == "mult" || op == "div" || op == "pow" || op == "mod"
  }

  /** The value an arithmetic opcode computes from its two operands. */
  function Arith(ops: FloatOps, op: string, a: real, b: real): real
    requires IsArithmetic(op)
  {
    if op == "add" then a + b
    else if op == "sub" then a - b
    else if op == "mult" then a * b
    else if op == "div" then ops.div(a, b)
    else if op == "pow" then ops.pow(a, b)
    else ops.mod(a, b)
  }

  /** The number of tokens, opcode included, each shared opcode takes; `None` for
      an opcode the shared dispatcher does not know. */
  function BasicArity(op: string): Option<nat> {
    if op == "print" || op == "br" then Some(2)
    else if op == "copy" then Some(3)
    else if IsArithmetic(op) then Some(4)
    else None
  }

  /** `HandleBasicOperations`: dispatch on the first token. `print` records its
      operand's value, `copy` writes its operand to a register, the arithmetic
      opcodes write the result of their two operands to a register, `br` writes a
      label's line index to the counter; any other opcode is declined. Each opcode
      first checks its token count, then resolves operands, then writes. */
  function HandleBasicOperations(ops: FloatOps, c: Controllable, args: seq<string>): (r: Outcome<Option<Controllable>>)
    requires |args| >= 1
    ensures r == Success(None) <==> BasicArity(args[0]).None?
  {
    var op := args[0];
    if op == "print" then
      if |args| != 2 then Error(ArgumentCountMismatch, c)
      else
        var a :- GetArgumentValue(ops, c, args[1]);
        Success(Some(c.(trace := c.trace + [Printed(a)])))
    else if op == "copy" then
      if |args| != 3 then Error(ArgumentCountMismatch, c)
      else
        var a :- GetArgumentValue(ops, c, args[1]);
        var d :- SetRegisterValue(c, args[2], a);
        Success(Some(d))
    else if IsArithmetic(op) then
      if |args| != 4 then Error(ArgumentCountMismatch, c)
      else
        var a :- GetArgumentValue(ops, c, args[1]);
        var b :- GetArgumentValue(ops, c, args[2]);
        var d :- SetRegisterValue(c, args[3], Arith(ops, op, a, b));
        Success(Some(d))
    else if op == "br" then
      if |args| != 2 then Error(ArgumentCountMismatch, c)
      else
        var line :- GetLabelLineNumber(c, args[1]);
        var d :- SetRegisterValue(c, ProgramCounter, line as real);
        Success(Some(d))
    else
      Success(None)
  }

  /** An opcode outside the shared set is declined with nothing changed, and a
      shared opcode with the wrong token count is fatal before any operand is
      resolved or any register written. */
  lemma BasicArityChecked(ops: FloatOps, c: Controllable, args: seq<string>)
    requires |args| >= 1
    ensures BasicArity(args[0]).None? ==> HandleBasicOperations(ops, c, args) == Success(None)
    ensures BasicArity(args[0]).Some? && |args| != BasicArity(args[0]).value ==>
              HandleBasicOperations(ops, c, args) == Failure(Fault(ArgumentCountMismatch, Halt(c)))
  {
  }

  /** Every outcome of the shared dispatcher keeps the text, label table and halt
      flag; a throw leaves the entity exactly as it was, only halted, since every
      check comes before the single write. */
  lemma BasicOperationsKeepProgram(ops: FloatOps, c: Controllable, args: seq<string>)
    requires |args| >= 1
    ensures var r := HandleBasicOperations(ops, c, args);
      && (r.Success? && r.value.Some? ==>
            var d := r.value.value;
            d.code == c.code && d.labels == c.labels && d.halt == c.halt)
      && (r.Failure? ==> r.error.state == Halt(c))
  {
  }

  /** `print A`: with a resolvable operand, its value is appended to the trace and
      nothing else changes; otherwise the entity halts unchanged. */
  lemma PrintRecordsValue(ops: FloatOps, c: Controllable, args: seq<string>)
    requires |args| == 2 && args[0] == "print"
    ensures var r := HandleBasicOperations(ops, c, args); var a := GetArgumentValue(ops, c, args[1]);
      && (r.Success? <==> a.Success?)
      && (r.Success? ==> r.value.Some? && r.value.value.registers == c.registers
                         && r.value.value.trace == c.trace + [Printed(a.value)])
      && (r.Failure? ==> r.error == Fault(InvalidArgument, Halt(c)))
  {
  }

  /** `copy A B` and the arithmetic opcodes write one register: the destination
      reads the computed value afterwards, every register with another upper-case
      name reads as before, no register appears or disappears, and nothing else in
      the entity changes. It succeeds exactly when every operand resolves and the
      destination exists. */
  lemma WritesOnlyDestination(ops: FloatOps, c: Controllable, args: seq<string>)
    requires (|args| == 3 && args[0] == "copy") || (|args| == 4 && IsArithmetic(args[0]))
    ensures var r := HandleBasicOperations(ops, c, args);
      var dst := args[|args| - 1];
      var a := GetArgumentValue(ops, c, args[1]);
      var b := if args[0] == "copy" then a else GetArgumentValue(ops, c, args[2]);
      && (r.Success? <==> a.Success? && b.Success? && IsValid(c.registers, dst))
      && (r.Success? ==>
            && r.value.Some?
            && var d := r.value.value;
               && var v := if args[0] == "copy" then a.value else Arith(ops, args[0], a.value, b.value);
               && Lookup(d.registers, dst) == Some(v)
               && (forall name :: Upper(name) != Upper(dst) ==> Lookup(d.registers, name) == Lookup(c.registers, name))
               && Shape(d.registers) == Shape(c.registers)
               && d == c.(registers := d.registers))
      && (r.Failure? ==> r.error.state == Halt(c) && r.error.kind in {InvalidArgument, UnknownRegister})
  {
    var r := HandleBasicOperations(ops, c, args);
    if r.Success? {
      var dst := args[|args| - 1];
      var d := r.value.value;
      var a := GetArgumentValue(ops, c, args[1]).value;
      var v := if args[0] == "copy" then a else Arith(ops, args[0], a, GetArgumentValue(ops, c, args[2]).value);
      assert Store(c.registers, dst, v) == Some(d.registers);
      StoreKeepsShape(c.registers, dst, v);
      forall name | Upper(name) != Upper(dst)
        ensures Lookup(d.registers, name) == Lookup(c.registers, name)
      {
        StoreThenLookup(c.registers, dst, v, name);
      }
      StoreThenLookup(c.registers, dst, v, dst);
    }
  }

  /** `br L`: succeeds exactly when the label is in the table (and the counter
      exists); it then moves the counter to the label's line and changes nothing
      else. An unknown label is fatal with the entity unchanged but halted. */
  lemma BranchMovesCounter(ops: FloatOps, c: Controllable, args: seq<string>)
    requires |args| == 2 && args[0] == "br"
    requires IsValid(c.registers, ProgramCounter)
    ensures var r := HandleBasicOperations(ops, c, args);
      && (r.Success? <==> Upper(args[1]) in c.labels)
      && (r.Success? ==>
            && r.value.Some?
            && var d := r.value.value;
               && PcOf(d) == Some(c.labels[Upper(args[1])] as real)
               && d == c.(registers := Store(c.registers, ProgramCounter, c.labels[Upper(args[1])] as real).value))
      && (r.Failure? ==> r.error == Fault(InvalidLabelReference, Halt(c)))
  {
    if Upper(args[1]) in c.labels {
      StoreThenLookup(c.registers, ProgramCounter, c.labels[Upper(args[1])] as real, ProgramCounter);
    }
  }

  /** The tokens of a line as `ExecuteLine` forms them: lower-cased, trimmed and
      split at every single space. */
  function Tokens(line: string): (r: seq<string>)
    ensures |r| >= 1
  {
    Split(Trim(Lower(line)), ' ')
  }

  /** The tokens are the one way to cut the normalised line at spaces: a list of
      pieces is the line's tokens exactly when no piece holds a space and the
      pieces, glued back with single spaces, give the lower-cased, trimmed line. */
  lemma TokensCharacterised(line: string, pieces: seq<string>)
    ensures pieces == Tokens(line) <==>
      && |pieces| >= 1
      && (forall i :: 0 <= i < |pieces| ==> ' ' !in pieces[i])
      && Join(pieces, ' ') == Trim(Lower(line))
  {
    var s := Trim(Lower(line));
    SplitPiecesFree(s, ' ');
    SplitThenJoin(s, ' ');
    if && |pieces| >= 1
       && (forall i :: 0 <= i < |pieces| ==> ' ' !in pieces[i])
       && Join(pieces, ' ') == s
    {
      JoinThenSplit(pieces, ' ');
    }
  }

  /** A device handler that declines without changing anything, keeps the text,
      label table and halt flag when it completes, and throws only from the
      entity as it was, halted. */
  ghost predicate WellBehaved(device: DeviceHandler) {
    forall c: Controllable, args: seq<string> ::
      && (device(c, args).Success? && device(c, args).value.Some? ==>
            var d := device(c, args).value.value;
            d.code == c.code && d.labels == c.labels && d.halt == c.halt)
      && (device(c, args).Failure? ==> device(c, args).error.state == Halt(c))
  }

  /** `ExecuteLine`: fetch the line (an invalid index is fatal), tokenize it, offer
      it to the shared dispatcher, then to the device handler, and fail with an
      invalid opcode when neither takes it. */
  function ExecuteLine(ops: FloatOps, device: DeviceHandler, c: Controllable, lineNumber: int): (r: Outcome<Controllable>)
    ensures !(0 <= lineNumber < GetLineCount(c.code)) ==> r == Failure(Fault(InvalidLineIndex, Halt(c)))
  {
    var line :- GetLine(c, lineNumber);
    var tokens := Tokens(line);
    var basic :- HandleBasicOperations(ops, c, tokens);
    if basic.Some? then
      Success(basic.value)
    else
      var handled :- device(c, tokens);
      if handled.Some? then Success(handled.value) else Error(InvalidOpcode, c)
  }

  /** The device handler is consulted only for an opcode the shared dispatcher
      declines, and a line neither of them takes is an invalid opcode. */
  lemma ExecuteLineDispatch(ops: FloatOps, device: DeviceHandler, c: Controllable, lineNumber: int, line: string)
    requires GetLine(c, lineNumber) == Success(line)
    ensures var tokens := Tokens(line);
      var r := ExecuteLine(ops, device, c, lineNumber);
      && (BasicArity(tokens[0]).Some? ==> r == Taken(HandleBasicOperations(ops, c, tokens)))
      && (BasicArity(tokens[0]).None? ==>
            && (device(c, tokens).Failure? ==> r == Failure(device(c, tokens).error))
            && (device(c, tokens) == Success(None) ==> r == Failure(Fault(InvalidOpcode, Halt(c))))
            && (device(c, tokens).Success? && device(c, tokens).value.Some? ==>
                  r == Success(device(c, tokens).value.value)))
  {
    BasicArityChecked(ops, c, Tokens(line));
  }

  /** The state outcome of a handler that took the line: its fault, or its new state. */
  function Taken(r: Outcome<Option<Controllable>>): Outcome<Controllable>
    requires r.Failure? || r.value.Some?
  {
    if r.Failure? then Failure(r.error) else Success(r.value.value)
  }

  /** With a well-behaved device handler, executing a line keeps the text, label
      table and halt flag, and any throw leaves the entity as it was, halted. */
  lemma ExecuteLineKeepsProgram(ops: FloatOps, device: DeviceHandler, c: Controllable, lineNumber: int)
    requires WellBehaved(device)
    ensures var r := ExecuteLine(ops, device, c, lineNumber);
      && (r.Success? ==> r.value.code == c.code && r.value.labels == c.labels && r.value.halt == c.halt)
      && (r.Failure? ==> r.error.state == Halt(c))
  {
    if 0 <= lineNumber < GetLineCount(c.code) {
      var tokens := Tokens(LineAt(c.code, lineNumber));
      BasicOperationsKeepProgram(ops, c, tokens);
    }
  }

  /** `Step`: execute the line at the counter, then advance the counter; declared
      without a result in the C# code but returning the halt flag, which is what the
      pair's first half holds. A throw anywhere ends the step. */
  function Step(ops: FloatOps, device: DeviceHandler, c: Controllable): (r: Outcome<(bool, Controllable)>)
    ensures !IsValid(c.registers, ProgramCounter) ==> r == Failure(Fault(UnknownRegister, Halt(c)))
    ensures r.Success? ==> r.value.0 == r.value.1.halt
  {
    var pc :- GetRegisterValue(c, ProgramCounter);
    var executed :- ExecuteLine(ops, device, c, Trunc(pc));
    var advanced :- IncrementProgramCounter(executed);
    Success((advanced.halt, advanced))
  }

  /** A throw from the executed line ends the step before the counter moves: the
      step fails with that same fault. */
  lemma StepSkipsAdvanceOnError(ops: FloatOps, device: DeviceHandler, c: Controllable, pc: real)
    requires PcOf(c) == Some(pc)
    requires ExecuteLine(ops, device, c, Trunc(pc)).Failure?
    ensures Step(ops, device, c) == Failure(ExecuteLine(ops, device, c, Trunc(pc)).error)
  {
    UpperProgramCounter();
    assert GetRegisterValue(c, ProgramCounter) == Success(pc);
  }

  /** A line that completes is followed by the advance: the step fails exactly when
      the advance does, with its fault; when it succeeds, everything the line did
      survives: the trace, the text, the label table and every register other than
      the counter read as the executed line left them. */
  lemma StepAfterLine(ops: FloatOps, device: DeviceHandler, c: Controllable, pc: real, e: Controllable)
    requires PcOf(c) == Some(pc)
    requires ExecuteLine(ops, device, c, Trunc(pc)) == Success(e)
    ensures var r := Step(ops, device, c); var a := IncrementProgramCounter(e);
      && (r.Failure? <==> a.Failure?)
      && (a.Failure? ==> r.error == a.error)
      && (r.Success? ==>
            && r.value.1.trace == e.trace && r.value.1.code == e.code && r.value.1.labels == e.labels
            && forall name :: Upper(name) != ProgramCounter ==>
                 Lookup(r.value.1.registers, name) == Lookup(e.registers, name))
  {
    hide ExecuteLine;
    UpperProgramCounter();
    assert GetRegisterValue(c, ProgramCounter) == Success(pc);
    IncrementProgramCounterKeepsRegisters(e);
  }

  /** `Step` does not look at the halt flag: once the counter has reached the line
      count (where a finished program leaves it), the next step fails on the
      invalid line index. */
  lemma StepPastEnd(ops: FloatOps, device: DeviceHandler, c: Controllable, pc: real)
    requires PcOf(c) == Some(pc)
    requires Trunc(pc) >= GetLineCount(c.code)
    ensures Step(ops, device, c) == Failure(Fault(InvalidLineIndex, Halt(c)))
  {
    UpperProgramCounter();
    assert GetRegisterValue(c, ProgramCounter) == Success(pc);
  }

  /** After a successful step with a well-behaved device handler, the returned flag
      is the entity's halt flag, the text and labels are as before, and the counter
      sits on an executable line with the halt flag as the line left it, or at or
      past the line count with the entity halted. */
  lemma StepLandsOnLine(ops: FloatOps, device: DeviceHandler, c: Controllable)
    requires WellBehaved(device)
    ensures var r := Step(ops, device, c);
      r.Success? ==>
        && r.value.0 == r.value.1.halt
        && r.value.1.code == c.code && r.value.1.labels == c.labels
        && PcOf(r.value.1).Some?
        && var pc := PcOf(r.value.1).value;
           || (Executable(c.code, Trunc(pc)) && r.value.1.halt == c.halt)
           || (pc >= GetLineCount(c.code) as real && r.value.1.halt)
  {
    hide ExecuteLine;
    var r := Step(ops, device, c);
    if r.Success? {
      UpperProgramCounter();
      var pc0 := PcOf(c).value;
      assert GetRegisterValue(c, ProgramCounter) == Success(pc0);
      ExecuteLineKeepsProgram(ops, device, c, Trunc(pc0));
      IncrementProgramCounterLands(ExecuteLine(ops, device, c, Trunc(pc0)).value);
    }
  }
}
