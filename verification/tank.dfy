/** The tank: a controllable entity whose device opcodes turn its turret and
    drive its hull, and which declares one device register. */
module Tank {
  import opened Wrappers
  import opened Text
  import opened Registers
  import opened Program
  import opened Dispatch

  /** How far one `forward` moves the tank. */
  const ForwardSpeed: real := 1.0
  /** How far one `backward` moves the tank. */
  const BackwardSpeed: real := 0.75
  /** How far one `turnleft` rotates the tank, in degrees. */
  const LeftTurnSpeed: real := 15.0
  /** How far one `turnright` rotates the tank, in degrees. */
  const RightTurnSpeed: real := 15.0

  /** The name under which the tank declares its turret angle register. */
  const TurretAngle: string := "TurretAngle"

  /** The movement opcodes, which take no operand. */
  predicate IsMovement(op: string) {
    op == "forward" || op == "backward" || op == "turnleft" || op == "turnright"
  }

  /** The effect of a movement opcode: the signed displacement along the facing
      direction for the drives, the signed rotation about the vertical axis in
      degrees for the turns. */
  function MovementEffect(op: string): Event
    requires IsMovement(op)
  {
    if op == "forward" then Effect(op, [ForwardSpeed])
    else if op == "backward" then Effect(op, [-BackwardSpeed])
    else if op == "turnleft" then Effect(op, [-LeftTurnSpeed])
    else Effect(op, [RightTurnSpeed])
  }

  /** `HandleDeviceOperations` of the tank. `rotateturret A` takes one operand and
      sets the turret's rotation to its value in degrees; the movement opcodes take
      none. Each checks its token count first. The scene changes are recorded as
      effects in the trace; no register is written. Any other opcode is declined. */
  function HandleDeviceOperations(ops: FloatOps, c: Controllable, args: seq<string>): (r: Outcome<Option<Controllable>>)
    requires |args| >= 1
    ensures r == Success(None) <==> args[0] != "rotateturret" && !IsMovement(args[0])
    ensures r.Success? && r.value.Some? ==> r.value.value == c.(trace := r.value.value.trace)
    ensures r.Failure? ==> r.error.state == Halt(c)
  {
    var op := args[0];
    if op == "rotateturret" then
      if |args| != 2 then Error(ArgumentCountMismatch, c)
      else
        var angle :- GetArgumentValue(ops, c, args[1]);
        Success(Some(c.(trace := c.trace + [Effect(op, [angle])])))
    else if IsMovement(op) then
      if |args| != 1 then Error(ArgumentCountMismatch, c)
      else Success(Some(c.(trace := c.trace + [MovementEffect(op)])))
    else
      Success(None)
  }

  /** The tank's handler as the interpreter calls it; a line always has at least
      one token, so the empty case never arises. */
  function Device(ops: FloatOps): DeviceHandler {
    (c: Controllable, args: seq<string>) =>
      if |args| == 0 then Success(None) else HandleDeviceOperations(ops, c, args)
  }

  /** Every tank opcode records exactly one effect and nothing else: the effect
      names the opcode; `rotateturret` carries its operand's value, and fails, with
      the entity halted, exactly when that operand resolves to nothing; a wrong
      token count is fatal before anything is resolved. */
  lemma TankOpcodes(ops: FloatOps, c: Controllable, args: seq<string>)
    requires |args| >= 1
    ensures var r := HandleDeviceOperations(ops, c, args);
      && (args[0] == "rotateturret" && |args| == 2 ==>
            var a := GetArgumentValue(ops, c, args[1]);
            && (r.Success? <==> a.Success?)
            && (r.Success? ==> r.value == Some(c.(trace := c.trace + [Effect("rotateturret", [a.value])])))
            && (r.Failure? ==> r.error == Fault(InvalidArgument, Halt(c))))
      && (args[0] == "rotateturret" && |args| != 2 ==> r == Failure(Fault(ArgumentCountMismatch, Halt(c))))
      && (IsMovement(args[0]) && |args| == 1 ==>
            r == Success(Some(c.(trace := c.trace + [Effect(args[0], MovementEffect(args[0]).args)]))))
      && (IsMovement(args[0]) && |args| != 1 ==> r == Failure(Fault(ArgumentCountMismatch, Halt(c))))
  {
  }

  /** The tank handler keeps the text, label table and halt flag, and throws only
      from the entity as it was, halted: the interpreter's frame lemmas apply to it. */
  lemma DeviceWellBehaved(ops: FloatOps)
    ensures WellBehaved(Device(ops))
  {
    forall c: Controllable, args: seq<string> | |args| >= 1
      ensures var r := HandleDeviceOperations(ops, c, args);
        && (r.Success? && r.value.Some? ==>
              r.value.value.code == c.code && r.value.value.labels == c.labels && r.value.value.halt == c.halt)
        && (r.Failure? ==> r.error.state == Halt(c))
    {
    }
  }

  /** A tank line the shared dispatcher declines is run by the tank handler; one
      neither knows is an invalid opcode. Shared opcodes never reach the tank. */
  lemma TankLineDispatch(ops: FloatOps, c: Controllable, lineNumber: int, line: string)
    requires GetLine(c, lineNumber) == Success(line)
    ensures var tokens := Tokens(line);
      var r := ExecuteLine(ops, Device(ops), c, lineNumber);
      && (BasicArity(tokens[0]).None? && (tokens[0] == "rotateturret" || IsMovement(tokens[0])) ==>
            r == Taken(HandleDeviceOperations(ops, c, tokens)))
      && (BasicArity(tokens[0]).None? && tokens[0] != "rotateturret" && !IsMovement(tokens[0]) ==>
            r == Failure(Fault(InvalidOpcode, Halt(c))))
  {
    ExecuteLineDispatch(ops, Device(ops), c, lineNumber, line);
  }

  /** `Start` of the tank: the shared start, then the device registers replaced by
      the turret angle at 0. */
  method Start(script: Option<string>) returns (c: Controllable)
    ensures c.registers.device == map[TurretAngle := 0.0]
    ensures forall name :: IsValid(c.registers, name) <==> Upper(name) in {"PC", "R0", "R1", "R2", "R3"}
    ensures forall name :: IsValid(c.registers, name) ==> Lookup(c.registers, name) == Some(0.0)
    ensures c.code == if script.Some? then Remove(script.value, '\r') else ""
    ensures c.labels == map[] && !c.halt && c.trace == []
  {
    c := Program.Start(script);
    c := c.(registers := c.registers.(device := map[TurretAngle := 0.0]));
    forall name
      ensures Upper(name) != TurretAngle
    {
      NotAnUpperForm(TurretAngle, name, 1);
    }
  }

  /** The turret angle is declared under a mixed-case key while every lookup and
      write uses the upper-cased name, so no instruction can read or write it: the
      bank behaves as if the device namespace were empty, and every write leaves it
      as it was. */
  lemma TurretAngleUnreachable(b: Bank)
    requires b.device.Keys == {TurretAngle}
    ensures forall name :: IsValid(b, name) <==> IsValid(b.(device := map[]), name)
    ensures forall name :: Lookup(b, name) == Lookup(b.(device := map[]), name)
    ensures forall name, v :: IsValid(b, name) ==> Store(b, name, v).value.device == b.device
  {
    forall name
      ensures Upper(name) !in b.device
    {
      NotAnUpperForm(TurretAngle, name, 1);
    }
  }
}
