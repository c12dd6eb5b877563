/** The state of one controllable entity and the operations on it that do not
    involve control flow: fatal errors, register access, and the program text. */
module Program {
  import opened Wrappers
  import opened Text
  import opened Registers

  /** What the entity emits to the outside: a `print` value, or a device effect
      named by its opcode with its resolved arguments. */
  datatype Event = Printed(value: real) | Effect(op: string, args: seq<real>)

  /** One controllable entity: its registers, label table, program text, halt
      flag, and the events it has emitted so far. */
  datatype Controllable = Controllable(
    registers: Bank,
    labels: map<string, int>,
    code: string,
    halt: bool,
    trace: seq<Event>)

  /** The kinds of failure. All but `DuplicateLabel` go through `Error`, which halts
      the entity; `DuplicateLabel` is the exception `Dictionary.Add` throws on a
      second label of the same name, which does not halt it. */
  datatype ErrorKind =
    | MalformedLabel
    | InvalidLineIndex
    | UnknownRegister
    | InvalidArgument
    | InvalidLabelReference
    | ArgumentCountMismatch
    | InvalidOpcode
    | DuplicateLabel

  /** A thrown exception: its kind and the entity state at the moment of the throw
      (writes made before it stand). */
  datatype Fault = Fault(kind: ErrorKind, state: Controllable)

  type Outcome<T> = Result<T, Fault>

  /** The name of the program counter. */
  const ProgramCounter: string := "PC"

  /** `Halt`: marks the entity as halted. */
  function Halt(c: Controllable): (r: Controllable)
    ensures r.halt
    ensures r.(halt := c.halt) == c
  {
    c.(halt := true)
  }

  /** `Error`: halts the entity and aborts the current operation. */
  function Error<T>(kind: ErrorKind, c: Controllable): Outcome<T> {
    Failure(Fault(kind, Halt(c)))
  }

  /** The state an operation leaves behind, whether it completed or threw. */
  function StateAfter<T>(r: Outcome<T>, done: T -> Controllable): Controllable {
    if r.Success? then done(r.value) else r.error.state
  }

  /** `GetRegisterValue`: an unknown name is fatal. */
  function GetRegisterValue(c: Controllable, name: string): (r: Outcome<real>)
    ensures r.Success? <==> IsValid(c.registers, name)
    ensures r.Success? ==> Lookup(c.registers, name) == Some(r.value)
    ensures r.Failure? ==> r.error == Fault(UnknownRegister, Halt(c))
  {
    match Lookup(c.registers, name)
    case Some(v) => Success(v)
    case None => Error(UnknownRegister, c)
  }

  /** `SetRegisterValue`: an unknown name is fatal; otherwise only the registers change. */
  function SetRegisterValue(c: Controllable, name: string, v: real): (r: Outcome<Controllable>)
    ensures r.Success? <==> IsValid(c.registers, name)
    ensures r.Success? ==> Store(c.registers, name, v) == Some(r.value.registers)
    ensures r.Success? ==> r.value == c.(registers := r.value.registers)
    ensures r.Failure? ==> r.error == Fault(UnknownRegister, Halt(c))
  {
    match Store(c.registers, name, v)
    case Some(b) => Success(c.(registers := b))
    case None => Error(UnknownRegister, c)
  }

  /** The C# `(int)` cast of a value: truncation toward zero. */
  function Trunc(x: real): (r: int)
    ensures x >= 0.0 ==> r >= 0 && r as real <= x < r as real + 1.0
    ensures x < 0.0 ==> r <= 0 && r as real - 1.0 < x <= r as real
  {
    if x >= 0.0 then x.Floor else -((-x).Floor)
  }

  /** `SetCode`: stores the text with every carriage return removed; nothing else changes. */
  function SetCode(c: Controllable, newCode: string): (r: Controllable)
    ensures '\r' !in r.code
    ensures forall ch :: ch != '\r' ==> multiset(r.code)[ch] == multiset(newCode)[ch]
    ensures r == c.(code := r.code)
  {
    c.(code := Remove(newCode, '\r'))
  }

  /** `GetCode`. */
  function GetCode(c: Controllable): string {
    c.code
  }

  /** Text without carriage returns is stored verbatim, and a Windows line ending
      becomes a single newline. */
  lemma SetCodeThenGetCode(c: Controllable, text: string, a: string, b: string)
    ensures '\r' !in text ==> GetCode(SetCode(c, text)) == text
    ensures GetCode(SetCode(c, a + "\r\n" + b)) == GetCode(SetCode(c, a)) + "\n" + GetCode(SetCode(c, b))
  {
    if '\r' !in text {
      RemoveAbsent(text, '\r');
    }
    RemoveAppend(a + "\r\n", b, '\r');
    RemoveAppend(a, "\r\n", '\r');
    assert Remove("\r\n", '\r') == "\n";
  }

  /** The raw lines of the text, as `code.Split('\n')` gives them. */
  function RawLines(code: string): seq<string> {
    Split(code, '\n')
  }

  /** `GetLineCount`: the number of lines of the trimmed text. */
  function GetLineCount(code: string): (r: int)
    ensures r >= 1
  {
    |Split(Trim(code), '\n')|
  }

  /** Trimming removes no newline that is not white space around the text, so the
      trimmed text never has more lines than the raw one: every counted index is a
      raw line. */
  lemma LineCountBound(code: string)
    ensures GetLineCount(code) <= |RawLines(code)|
  {
    TrimKeepsContent(code);
    SplitCount(Trim(code), '\n');
    SplitCount(code, '\n');
  }

  /** Line `i` of the text as `GetLine` returns it: the trimmed raw line. */
  function LineAt(code: string, i: int): string
    requires 0 <= i < GetLineCount(code)
  {
    LineCountBound(code);
    Trim(RawLines(code)[i])
  }

  /** `GetLine`: an index outside `[0, GetLineCount)` is fatal. */
  function GetLine(c: Controllable, i: int): (r: Outcome<string>)
    ensures r.Success? <==> 0 <= i < GetLineCount(c.code)
    ensures r.Success? ==> r.value == LineAt(c.code, i)
    ensures r.Failure? ==> r.error == Fault(InvalidLineIndex, Halt(c))
  {
    if i >= GetLineCount(c.code) || i < 0 then Error(InvalidLineIndex, c)
    else Success(LineAt(c.code, i))
  }

  /** The trimmed text of a newline followed by one line is that line. */
  lemma TrimLeadingNewline(code: string, text: string)
    requires code == ['\n'] + text
    requires text != [] && !IsSpace(text[0]) && !IsSpace(text[|text| - 1])
    ensures Trim(code) == text
  {
    assert SkipSpaces(code, 1) == 1;
    assert TrimStart(code) == text;
    assert SkipSpacesBack(text, |text|) == |text|;
  }

  /** A blank first line shifts every line: the counted lines come from the trimmed
      text but are fetched from the untrimmed one. For a newline followed by a
      single line (`"\nprint 1"`), the count is 1 and line 0 is the empty first
      line, so the one real line is never reachable. */
  lemma LeadingBlankLineShiftsIndices(c: Controllable, text: string)
    requires c.code == ['\n'] + text
    requires '\n' !in text && text != [] && !IsSpace(text[0]) && !IsSpace(text[|text| - 1])
    ensures GetLineCount(c.code) == 1
    ensures GetLine(c, 0) == Success("")
    ensures GetLine(c, 1).Failure?
  {
    TrimLeadingNewline(c.code, text);
    SplitOfPiece(text, '\n');
    assert GetLineCount(c.code) == 1;
    SplitAfterPiece("", text, '\n');
    assert "" + ['\n'] + text == c.code;
    assert RawLines(c.code)[0] == "";
  }

  /** A new entity as its field initialisers leave it: only the program counter,
      no labels, empty text, not halted. */
  function Initial(): (r: Controllable)
    ensures forall name :: IsValid(r.registers, name) <==> Upper(name) == ProgramCounter
    ensures forall name :: IsValid(r.registers, name) ==> Lookup(r.registers, name) == Some(0.0)
    ensures r.labels == map[] && r.code == "" && !r.halt && r.trace == []
  {
    Controllable(Bank(map[], map[ProgramCounter := 0.0], map[]), map[], "", false, [])
  }

  /** `Start`: adds the general registers `R0` to `R3` to a new entity, resets every
      register, and loads the entity's script when it has one. */
  method Start(script: Option<string>) returns (c: Controllable)
    ensures c.registers.device == map[] && c.registers.special == map[ProgramCounter := 0.0]
    ensures c.registers.general == map["R0" := 0.0, "R1" := 0.0, "R2" := 0.0, "R3" := 0.0]
    ensures c.code == if script.Some? then Remove(script.value, '\r') else ""
    ensures c.labels == map[] && !c.halt && c.trace == []
  {
    c := Initial();
    var general := GenerateGeneralRegisters(GeneralRegisterCount);
    DefaultGeneralNames();
    c := c.(registers := c.registers.(general := general));
    var reset := ResetAllRegisters(c.registers);
    c := c.(registers := reset);
    if script.Some? {
      c := SetCode(c, script.value);
    }
  }
}
