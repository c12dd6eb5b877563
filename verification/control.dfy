/** Control flow of one entity: the line classifier, the program-counter advance,
    the label scan, and the preparation for a run. */
module Control {
  import opened Wrappers
  import opened Text
  import opened Registers
  import opened Program

  /** A trimmed line that takes part in stepping: not a comment, not a label
      declaration, not blank. */
  predicate IsCodeText(line: string) {
    !StartsWith(line, '#') && !EndsWith(line, ':') && |line| > 0
  }

  /** A colon-terminated line that is not a comment but contains white space: the
      classifier throws on it. */
  predicate IsFatalForClassifier(line: string) {
    !StartsWith(line, '#') && EndsWith(line, ':') && HasSpace(line)
  }

  /** `IsLineExecutable`: an index past the end is simply not executable, a negative
      one is fatal (through `GetLine`), and a non-comment colon-terminated line
      with white space is fatal; otherwise the line executes exactly when it is
      code text. */
  function IsLineExecutable(c: Controllable, i: int): (r: Outcome<bool>)
    ensures i >= GetLineCount(c.code) ==> r == Success(false)
    ensures i < 0 ==> r == Failure(Fault(InvalidLineIndex, Halt(c)))
    ensures 0 <= i < GetLineCount(c.code) ==>
              && (r.Failure? <==> IsFatalForClassifier(LineAt(c.code, i)))
              && (r.Failure? ==> r.error == Fault(MalformedLabel, Halt(c)))
              && (r.Success? ==> (r.value <==> IsCodeText(LineAt(c.code, i))))
  {
    if i >= GetLineCount(c.code) then
      Success(false)
    else
      var line :- GetLine(c, i);
      if StartsWith(line, '#') then
        Success(false)
      else if EndsWith(line, ':') then
        if HasSpace(line) then Error(MalformedLabel, c) else Success(false)
      else if |line| == 0 then
        Success(false)
      else
        Success(true)
  }

  /** Line `i` is passed over without error: past the end, or a comment, label
      declaration or blank line the classifier accepts. */
  predicate Skipped(code: string, i: int) {
    || i >= GetLineCount(code)
    || (0 <= i && !IsCodeText(LineAt(code, i)) && !IsFatalForClassifier(LineAt(code, i)))
  }

  /** Line `i` is executable code. */
  predicate Executable(code: string, i: int) {
    0 <= i < GetLineCount(code) && IsCodeText(LineAt(code, i))
  }

  /** The classifier's verdict depends on the text alone. */
  lemma {:induction false} ClassifierVerdict(c: Controllable, i: int)
    ensures IsLineExecutable(c, i) == Success(false) <==> Skipped(c.code, i)
    ensures IsLineExecutable(c, i) == Success(true) <==> Executable(c.code, i)
  {
  }

  /** The line the advance loop examines `k` increments after the counter value `pc`. */
  function Probe(pc: real, k: int): int {
    Trunc(pc + k as real)
  }

  /** The program counter's value, when the counter exists. */
  function PcOf(c: Controllable): Option<real> {
    Lookup(c.registers, ProgramCounter)
  }

  /** The number of increments the advance loop can still make before the counter
      passes the last line. */
  function Remaining(c: Controllable): int {
    match PcOf(c)
    case Some(pc) => GetLineCount(c.code) - pc.Floor
    case None => 0
  }

  lemma UpperProgramCounter()
    ensures Upper(ProgramCounter) == ProgramCounter
  {
    var u := Upper(ProgramCounter);
    assert u[0] == 'P' && u[1] == 'C';
  }

  /** The outcome of one pass of the skip loop: stop in the given state, or go on
      from it. */
  datatype Move = Stop(state: Controllable) | Continue(state: Controllable)

  /** One pass of the `while` loop of `IncrementProgramCounter`: stop on an
      executable line; stop and halt once the counter has reached the line count;
      otherwise add 1 to the counter and go on. Going on brings the counter closer
      to the line count. */
  function SkipStep(c: Controllable): (r: Outcome<Move>)
    ensures r.Success? && r.value.Continue? ==> 0 <= Remaining(r.value.state) < Remaining(c)
  {
    var pc :- GetRegisterValue(c, ProgramCounter);
    var executable :- IsLineExecutable(c, Trunc(pc));
    if executable then
      Success(Stop(c))
    else if pc >= GetLineCount(c.code) as real then
      Success(Stop(Halt(c)))
    else
      var next := SetRegisterValue(c, ProgramCounter, pc + 1.0).value;
      assert PcOf(next) == Some(pc + 1.0);
      assert (pc + 1.0).Floor == pc.Floor + 1;
      Success(Continue(next))
  }

  /** The pass from `d`, if it goes on, lowers `measure` and keeps it non-negative. */
  ghost predicate Lowers(step: Controllable -> Outcome<Move>, measure: Controllable -> int, d: Controllable) {
    step(d).Success? && step(d).value.Continue? ==> 0 <= measure(step(d).value.state) < measure(d)
  }

  /** A pass function under which every pass that goes on lowers `measure`, so that
      repeating passes ends. */
  ghost predicate Converges(step: Controllable -> Outcome<Move>, measure: Controllable -> int) {
    forall d :: Lowers(step, measure, d)
  }

  /** Repeats passes of `step` until one stops or throws. */
  function Run(step: Controllable -> Outcome<Move>, measure: Controllable -> int, c: Controllable): Outcome<Controllable>
    requires Converges(step, measure)
    decreases measure(c)
  {
    var m :- step(c);
    if m.Stop? then Success(m.state)
    else
      assert Lowers(step, measure, c);
      Run(step, measure, m.state)
  }

  /** The number of passes of `step` that go on. */
  ghost function Passes(step: Controllable -> Outcome<Move>, measure: Controllable -> int, c: Controllable): nat
    requires Converges(step, measure)
    decreases measure(c)
  {
    match step(c)
    case Success(Continue(next)) =>
      assert Lowers(step, measure, c);
      1 + Passes(step, measure, next)
    case _ => 0
  }

  /** The repetition ends with the pass that stops or throws, and a pass that goes on
      leaves the rest to the state it produced. */
  lemma RunUnfold(step: Controllable -> Outcome<Move>, measure: Controllable -> int, c: Controllable)
    requires Converges(step, measure)
    ensures step(c).Failure? ==> Run(step, measure, c) == Failure(step(c).error)
    ensures step(c).Success? && step(c).value.Stop? ==> Run(step, measure, c) == Success(step(c).value.state)
    ensures step(c).Success? && step(c).value.Continue? ==>
              Run(step, measure, c) == Run(step, measure, step(c).value.state)
  {
  }

  /** The skip loop's passes bring the counter closer to the line count. */
  lemma SkipStepConverges()
    ensures Converges(SkipStep, Remaining)
  {
    forall d
      ensures Lowers(SkipStep, Remaining, d)
    {
    }
  }

  /** The skip loop: passes until one stops. */
  function AdvanceWhile(c: Controllable): Outcome<Controllable> {
    SkipStepConverges();
    Run(SkipStep, Remaining, c)
  }

  /** `IncrementProgramCounter`: one increment, then the skip loop. Without a
      counter register it throws on the read. */
  function IncrementProgramCounter(c: Controllable): (r: Outcome<Controllable>)
    ensures PcOf(c).None? ==> r == Failure(Fault(UnknownRegister, Halt(c)))
  {
    var pc :- GetRegisterValue(c, ProgramCounter);
    AdvanceWhile(SetRegisterValue(c, ProgramCounter, pc + 1.0).value)
  }

  /** The number of passes of the skip loop that go on. */
  ghost function Increments(c: Controllable): nat {
    SkipStepConverges();
    Passes(SkipStep, Remaining, c)
  }

  /** One pass from `d`, when its counter exists, moves the counter by 1 and
      changes nothing else if it goes on, changes at most the halt flag if it stops,
      and halts the entity as it was if it throws. */
  ghost predicate MovesCounter(step: Controllable -> Outcome<Move>, d: Controllable) {
    var o := step(d);
    PcOf(d).Some? ==>
      && (o.Success? && o.value.Continue? ==>
            o.value.state == d.(registers := Store(d.registers, ProgramCounter, PcOf(d).value + 1.0).value))
      && (o.Success? && o.value.Stop? ==> o.value.state == d.(halt := o.value.state.halt))
      && (o.Failure? ==> o.error.state == Halt(d))
  }

  /** One pass from `d`, when its counter exists, goes the way the line at the
      counter says, as judged by `skip` (passed over), `exec` (executable) and
      `count` (the number of lines): stop untouched on an executable line, stop
      halted on a skipped line at or past the line count, go on over a skipped
      line before it with the counter 1 higher, throw on any other line. */
  ghost predicate FollowsLines(step: Controllable -> Outcome<Move>, d: Controllable, skip: (string, int) -> bool,
                               exec: (string, int) -> bool, count: string -> int) {
    var o := step(d);
    PcOf(d).Some? ==>
      var pc := PcOf(d).value;
      && (exec(d.code, Trunc(pc)) ==> o == Success(Stop(d)))
      && (skip(d.code, Trunc(pc)) && pc >= count(d.code) as real ==> o == Success(Stop(Halt(d))))
      && (skip(d.code, Trunc(pc)) && pc < count(d.code) as real ==>
            && o.Success? && o.value.Continue?
            && PcOf(o.value.state) == Some(pc + 1.0)
            && o.value.state.code == d.code && o.value.state.halt == d.halt)
      && (!exec(d.code, Trunc(pc)) && !skip(d.code, Trunc(pc)) ==>
            o.Failure? && o.error.kind in {MalformedLabel, InvalidLineIndex})
  }

  /** Every pass of the skip loop moves only the counter (and on stopping, the halt flag). */
  lemma SkipStepMovesCounter()
    ensures forall d :: MovesCounter(SkipStep, d)
  {
    forall d
      ensures MovesCounter(SkipStep, d)
    {
      if PcOf(d).Some? {
        UpperProgramCounter();
        assert GetRegisterValue(d, ProgramCounter) == Success(PcOf(d).value);
      }
    }
  }

  /** Every pass of the skip loop goes the way the line at the counter says. */
  lemma SkipStepFollowsLines()
    ensures forall d :: FollowsLines(SkipStep, d, Skipped, Executable, GetLineCount)
  {
    forall d
      ensures FollowsLines(SkipStep, d, Skipped, Executable, GetLineCount)
    {
      if PcOf(d).Some? {
        var pc := PcOf(d).value;
        UpperProgramCounter();
        ClassifierVerdict(d, Trunc(pc));
        assert GetRegisterValue(d, ProgramCounter) == Success(pc);
        StoreThenLookup(d.registers, ProgramCounter, pc + 1.0, ProgramCounter);
      }
    }
  }

  /** Repeating passes that move only the counter, starting with it at `pc0`: after
      `n` passes going on, the outcome is the starting state with the counter at
      `pc0 + n` (and possibly halted), or a throw from that state. */
  lemma {:induction false} RunFrame(step: Controllable -> Outcome<Move>, measure: Controllable -> int,
                                    c: Controllable, pc0: real)
    requires Converges(step, measure)
    requires forall d :: MovesCounter(step, d)
    requires PcOf(c) == Some(pc0)
    ensures IsValid(c.registers, ProgramCounter)
    ensures var r := Run(step, measure, c); var n := Passes(step, measure, c);
      var moved := c.(registers := Store(c.registers, ProgramCounter, pc0 + n as real).value);
      && (r.Success? ==> r.value == moved.(halt := r.value.halt))
      && (r.Failure? ==> r.error.state == Halt(moved))
    decreases measure(c)
  {
    var m := step(c);
    assert MovesCounter(step, c);
    assert Lowers(step, measure, c);
    RunUnfold(step, measure, c);
    if m.Success? && m.value.Continue? {
      var next := m.value.state;
      StoreThenLookup(c.registers, ProgramCounter, pc0 + 1.0, ProgramCounter);
      assert PcOf(next) == Some(pc0 + 1.0);
      RunFrame(step, measure, next, pc0 + 1.0);
      var n := Passes(step, measure, next);
      assert Passes(step, measure, c) == n + 1;
      assert pc0 + 1.0 + n as real == pc0 + (n + 1) as real;
      StoreTwice(c.registers, ProgramCounter, pc0 + 1.0, pc0 + (n + 1) as real);
    } else {
      assert Passes(step, measure, c) == 0;
      assert pc0 + 0 as real == pc0;
      StoreSame(c.registers, ProgramCounter, pc0);
    }
  }

  /** Repeating passes that follow the lines, starting with the counter at `pc0`:
      with `n` passes going on, every line examined before the last was skipped. */
  lemma {:induction false} RunSkips(step: Controllable -> Outcome<Move>, measure: Controllable -> int,
                                    c: Controllable, pc0: real,
                                    skip: (string, int) -> bool, exec: (string, int) -> bool, count: string -> int)
    requires Converges(step, measure)
    requires forall d :: FollowsLines(step, d, skip, exec, count)
    requires PcOf(c) == Some(pc0)
    ensures forall k :: 0 <= k < Passes(step, measure, c) ==> skip(c.code, Probe(pc0, k))
    decreases measure(c)
  {
    var m := step(c);
    assert FollowsLines(step, c, skip, exec, count);
    assert Lowers(step, measure, c);
    if m.Success? && m.value.Continue? {
      var next := m.value.state;
      RunSkips(step, measure, next, pc0 + 1.0, skip, exec, count);
      var n := Passes(step, measure, next);
      assert Passes(step, measure, c) == n + 1;
      assert Probe(pc0, 0) == Trunc(pc0);
      forall k | 0 < k < n + 1
        ensures skip(c.code, Probe(pc0, k))
      {
        assert Probe(pc0, k) == Probe(pc0 + 1.0, k - 1);
      }
    }
  }

  /** Repeating passes that follow the lines, starting with the counter at `pc0`,
      with `n` passes going on: on completion the line at `pc0 + n` is executable
      and the halt flag untouched, or it is skipped, the counter has reached the
      line count and the entity is halted; a throw happens on a line that is
      neither skipped nor executable. */
  lemma {:induction false} RunLines(step: Controllable -> Outcome<Move>, measure: Controllable -> int,
                                    c: Controllable, pc0: real,
                                    skip: (string, int) -> bool, exec: (string, int) -> bool, count: string -> int)
    requires Converges(step, measure)
    requires forall d :: FollowsLines(step, d, skip, exec, count)
    requires PcOf(c) == Some(pc0)
    ensures var r := Run(step, measure, c); var n := Passes(step, measure, c);
      && (r.Success? ==>
            || (exec(c.code, Probe(pc0, n)) && r.value.halt == c.halt)
            || (skip(c.code, Probe(pc0, n)) && pc0 + n as real >= count(c.code) as real
                && r.value.halt))
      && (r.Failure? ==>
            && !exec(c.code, Probe(pc0, n)) && !skip(c.code, Probe(pc0, n))
            && r.error.kind in {MalformedLabel, InvalidLineIndex})
    decreases measure(c)
  {
    var m := step(c);
    assert FollowsLines(step, c, skip, exec, count);
    assert Lowers(step, measure, c);
    RunUnfold(step, measure, c);
    assert Probe(pc0, 0) == Trunc(pc0);
    if m.Success? && m.value.Continue? {
      var next := m.value.state;
      RunLines(step, measure, next, pc0 + 1.0, skip, exec, count);
      var n := Passes(step, measure, next);
      assert Passes(step, measure, c) == n + 1;
      assert Probe(pc0, n + 1) == Probe(pc0 + 1.0, n);
      assert pc0 + 1.0 + n as real == pc0 + (n + 1) as real;
    } else {
      assert Passes(step, measure, c) == 0;
      assert pc0 + 0 as real == pc0;
    }
  }

  /** What the skip loop does to the state, starting with the counter at `pc0`: with
      `n` passes going on, it completes with the counter moved to `pc0 + n` and
      nothing else changed but the halt flag, or throws with the entity in that
      same state halted. */
  lemma AdvanceWhileFrame(c: Controllable, pc0: real)
    requires PcOf(c) == Some(pc0)
    ensures IsValid(c.registers, ProgramCounter)
    ensures var r := AdvanceWhile(c); var n := Increments(c);
      var moved := c.(registers := Store(c.registers, ProgramCounter, pc0 + n as real).value);
      && (r.Success? ==> r.value == moved.(halt := r.value.halt) && PcOf(r.value) == Some(pc0 + n as real))
      && (r.Failure? ==> r.error.state == Halt(moved))
  {
    hide SkipStep;
    SkipStepConverges();
    SkipStepMovesCounter();
    RunFrame(SkipStep, Remaining, c, pc0);
    assert AdvanceWhile(c) == Run(SkipStep, Remaining, c);
    assert Increments(c) == Passes(SkipStep, Remaining, c);
    StoreThenLookup(c.registers, ProgramCounter, pc0 + Increments(c) as real, ProgramCounter);
  }

  /** What the skip loop finds in the text, starting with the counter at `pc0`: with
      `n` passes going on, every line examined before the last was skipped; on
      completion the last line is executable and the halt flag untouched, or it is
      skipped, the counter has reached the line count and the entity is halted; a
      throw happens on a line that is neither skipped nor executable. */
  lemma AdvanceWhileLines(c: Controllable, pc0: real)
    requires PcOf(c) == Some(pc0)
    ensures var r := AdvanceWhile(c); var n := Increments(c);
      && (forall k :: 0 <= k < n ==> Skipped(c.code, Probe(pc0, k)))
      && (r.Success? ==>
            || (Executable(c.code, Probe(pc0, n)) && r.value.halt == c.halt)
            || (Skipped(c.code, Probe(pc0, n)) && pc0 + n as real >= GetLineCount(c.code) as real
                && r.value.halt))
      && (r.Failure? ==>
            && !Executable(c.code, Probe(pc0, n)) && !Skipped(c.code, Probe(pc0, n))
            && r.error.kind in {MalformedLabel, InvalidLineIndex})
  {
    SkipStepConverges();
    SkipStepFollowsLines();
    RunSkips(SkipStep, Remaining, c, pc0, Skipped, Executable, GetLineCount);
    RunLines(SkipStep, Remaining, c, pc0, Skipped, Executable, GetLineCount);
  }

  /** With the counter at `pc0`, `IncrementProgramCounter` is the skip loop started
      with the counter at `pc0 + 1`. */
  lemma IncrementIsAdvance(c: Controllable, pc0: real)
    requires PcOf(c) == Some(pc0)
    ensures IncrementProgramCounter(c) == AdvanceWhile(SetRegisterValue(c, ProgramCounter, pc0 + 1.0).value)
    ensures PcOf(SetRegisterValue(c, ProgramCounter, pc0 + 1.0).value) == Some(pc0 + 1.0)
  {
    UpperProgramCounter();
    assert GetRegisterValue(c, ProgramCounter) == Success(pc0);
    StoreThenLookup(c.registers, ProgramCounter, pc0 + 1.0, ProgramCounter);
  }

  /** What `IncrementProgramCounter` does to the state, starting with the counter
      at `pc0`: with `n` passes of the loop going on, it completes with the counter
      `n + 1` above `pc0` and nothing else changed but the halt flag, or throws with
      the entity in that same state halted. */
  lemma IncrementProgramCounterFrame(c: Controllable, pc0: real)
    requires PcOf(c) == Some(pc0)
    ensures IsValid(c.registers, ProgramCounter)
    ensures var r := IncrementProgramCounter(c);
      var n := Increments(SetRegisterValue(c, ProgramCounter, pc0 + 1.0).value) + 1;
      var moved := c.(registers := Store(c.registers, ProgramCounter, pc0 + n as real).value);
      && (r.Success? ==> r.value == moved.(halt := r.value.halt) && PcOf(r.value) == Some(pc0 + n as real))
      && (r.Failure? ==> r.error.state == Halt(moved))
  {
    hide SkipStep;
    IncrementIsAdvance(c, pc0);
    UpperProgramCounter();
    var next := SetRegisterValue(c, ProgramCounter, pc0 + 1.0).value;
    AdvanceWhileFrame(next, pc0 + 1.0);
    var n := Increments(next);
    assert pc0 + 1.0 + n as real == pc0 + (n + 1) as real;
    StoreTwice(c.registers, ProgramCounter, pc0 + 1.0, pc0 + (n + 1) as real);
    var moved := c.(registers := Store(c.registers, ProgramCounter, pc0 + (n + 1) as real).value);
    assert next.(registers := Store(next.registers, ProgramCounter, pc0 + 1.0 + n as real).value) == moved;
  }

  /** A completed advance keeps everything but the counter and the halt flag: the
      trace, the text, the label table, and every register other than the counter
      reads as before. */
  lemma IncrementProgramCounterKeepsRegisters(c: Controllable)
    ensures var r := IncrementProgramCounter(c);
      r.Success? ==>
        && r.value.trace == c.trace && r.value.code == c.code && r.value.labels == c.labels
        && forall name :: Upper(name) != ProgramCounter ==>
             Lookup(r.value.registers, name) == Lookup(c.registers, name)
  {
    var r := IncrementProgramCounter(c);
    if r.Success? {
      UpperProgramCounter();
      assert PcOf(c).Some?;
      var p := PcOf(c).value;
      hide IncrementProgramCounter;
      IncrementProgramCounterFrame(c, p);
      var n := Increments(SetRegisterValue(c, ProgramCounter, p + 1.0).value) + 1;
      forall name | Upper(name) != ProgramCounter
        ensures Lookup(r.value.registers, name) == Lookup(c.registers, name)
      {
        StoreThenLookup(c.registers, ProgramCounter, p + n as real, name);
      }
    }
  }

  /** What `IncrementProgramCounter` finds in the text, starting with the counter at
      `pc0`: with `n` passes of the loop going on, every line it passed over was
      skipped, and it stops either on an executable line with the halt flag
      untouched or on a skipped line at or past the line count with the entity
      halted; it throws only on a line the classifier rejects. */
  lemma IncrementProgramCounterLines(c: Controllable, pc0: real)
    requires PcOf(c) == Some(pc0)
    ensures var r := IncrementProgramCounter(c);
      var n := Increments(SetRegisterValue(c, ProgramCounter, pc0 + 1.0).value) + 1;
      && (forall k :: 1 <= k < n ==> Skipped(c.code, Probe(pc0, k)))
      && (r.Success? ==>
            || (Executable(c.code, Probe(pc0, n)) && r.value.halt == c.halt)
            || (Skipped(c.code, Probe(pc0, n)) && pc0 + n as real >= GetLineCount(c.code) as real
                && r.value.halt))
      && (r.Failure? ==>
            && !Executable(c.code, Probe(pc0, n)) && !Skipped(c.code, Probe(pc0, n))
            && r.error.kind in {MalformedLabel, InvalidLineIndex})
  {
    hide SkipStep;
    IncrementIsAdvance(c, pc0);
    var next := SetRegisterValue(c, ProgramCounter, pc0 + 1.0).value;
    AdvanceWhileLines(next, pc0 + 1.0);
    var n := Increments(next);
    assert pc0 + 1.0 + n as real == pc0 + (n + 1) as real;
    assert Probe(pc0, n + 1) == Probe(pc0 + 1.0, n);
    forall k | 1 <= k < n + 1
      ensures Skipped(c.code, Probe(pc0, k))
    {
      assert Probe(pc0, k) == Probe(pc0 + 1.0, k - 1);
    }
  }

  /** A completed advance keeps the text and labels and leaves the counter on an
      executable line with the halt flag untouched, or at or past the line count
      with the entity halted. */
  lemma IncrementProgramCounterLands(c: Controllable)
    ensures var r := IncrementProgramCounter(c);
      r.Success? ==>
        && r.value.code == c.code && r.value.labels == c.labels
        && PcOf(r.value).Some?
        && var pc := PcOf(r.value).value;
           || (Executable(c.code, Trunc(pc)) && r.value.halt == c.halt)
           || (pc >= GetLineCount(c.code) as real && r.value.halt)
  {
    UpperProgramCounter();
    if PcOf(c).None? {
      return;
    }
    var p := PcOf(c).value;
    var n := Increments(SetRegisterValue(c, ProgramCounter, p + 1.0).value) + 1;
    assert Probe(p, n) == Trunc(p + n as real);
    hide IncrementProgramCounter, Executable, Skipped, Probe, Trunc, Store, Lookup, GetLineCount;
    hide SetRegisterValue, GetRegisterValue, PcOf, Increments;
    var r := IncrementProgramCounter(c);
    if r.Success? {
      var q := p + n as real;
      assert r.value.code == c.code && r.value.labels == c.labels && PcOf(r.value) == Some(q) by {
        IncrementProgramCounterFrame(c, p);
      }
      assert || (Executable(c.code, Trunc(q)) && r.value.halt == c.halt)
             || (q >= GetLineCount(c.code) as real && r.value.halt) by {
        IncrementProgramCounterLines(c, p);
      }
    }
  }

  /** `IncrementProgramCounter` as the C# code writes it, with its `while` loop; it
      computes the same outcome as the recursive definition. */
  method AdvanceProgramCounter(c: Controllable) returns (r: Outcome<Controllable>)
    ensures r == IncrementProgramCounter(c)
  {
    var pc0 := GetRegisterValue(c, ProgramCounter);
    if pc0.Failure? {
      return pc0.PropagateFailure();
    }
    var cur := SetRegisterValue(c, ProgramCounter, pc0.value + 1.0).value;
    while true
      invariant AdvanceWhile(cur) == IncrementProgramCounter(c)
      decreases Remaining(cur)
    {
      var pc := GetRegisterValue(cur, ProgramCounter);
      if pc.Failure? {
        return pc.PropagateFailure();
      }
      var executable := IsLineExecutable(cur, Trunc(pc.value));
      if executable.Failure? {
        return executable.PropagateFailure();
      }
      if executable.value {
        return Success(cur);
      }
      if pc.value >= GetLineCount(cur.code) as real {
        return Success(Halt(cur));
      }
      var next := SetRegisterValue(cur, ProgramCounter, pc.value + 1.0).value;
      assert SkipStep(cur) == Success(Continue(next));
      SkipStepConverges();
      RunUnfold(SkipStep, Remaining, cur);
      cur := next;
    }
  }

  /** A trimmed line the label scan registers: colon-terminated, no white space. */
  predicate IsLabelDeclaration(line: string) {
    EndsWith(line, ':') && !HasSpace(line)
  }

  /** A colon-terminated line with white space, which the label scan rejects
      (comments included: the scan does not look for `#`). */
  predicate IsSpacedLabel(line: string) {
    EndsWith(line, ':') && HasSpace(line)
  }

  /** The table key of a label declaration: the line without its colon, upper-cased. */
  function LabelName(line: string): string
    requires EndsWith(line, ':')
  {
    Upper(line[..|line| - 1])
  }

  /** The digit test of the scan runs on the line with its colon, and the colon is
      not a digit, so the test always passes on a colon-terminated line. */
  lemma ColonLineHasNonDigit(line: string)
    requires EndsWith(line, ':')
    ensures HasNonDigit(line)
  {
    assert !IsDigit(line[|line| - 1]);
  }

  /** The lines `GetLine` returns for the indices 0 to `GetLineCount - 1`, which the
      label scan visits in order. */
  function Lines(code: string): (r: seq<string>)
    ensures |r| == GetLineCount(code)
    ensures forall i :: 0 <= i < |r| ==> r[i] == LineAt(code, i)
  {
    seq(GetLineCount(code), i requires 0 <= i < GetLineCount(code) => LineAt(code, i))
  }

  /** Every label declaration among the first `n` lines is in the table at its index. */
  ghost predicate TableCovers(lines: seq<string>, labels: map<string, int>, n: int)
    requires 0 <= n <= |lines|
  {
    forall j :: 0 <= j < n && IsLabelDeclaration(lines[j]) ==>
      LabelName(lines[j]) in labels && labels[LabelName(lines[j])] == j
  }

  /** Every table entry names a label declaration among the first `n` lines. */
  ghost predicate TableSound(lines: seq<string>, labels: map<string, int>, n: int)
    requires 0 <= n <= |lines|
  {
    forall name :: name in labels ==>
      && 0 <= labels[name] < n
      && IsLabelDeclaration(lines[labels[name]])
      && LabelName(lines[labels[name]]) == name
  }

  /** The label table of the whole text: exactly its label declarations, each at its line. */
  ghost predicate IsLabelTable(lines: seq<string>, labels: map<string, int>) {
    TableCovers(lines, labels, |lines|) && TableSound(lines, labels, |lines|)
  }

  /** None of the first `n` lines is a colon-terminated line with white space. */
  ghost predicate NoSpacedLabel(lines: seq<string>, n: int)
    requires 0 <= n <= |lines|
  {
    forall j :: 0 <= j < n ==> !IsSpacedLabel(lines[j])
  }

  /** No two of the first `n` lines declare the same label. */
  ghost predicate DistinctLabels(lines: seq<string>, n: int)
    requires 0 <= n <= |lines|
  {
    forall j, k :: 0 <= j < k < n && IsLabelDeclaration(lines[j]) && IsLabelDeclaration(lines[k]) ==>
      LabelName(lines[j]) != LabelName(lines[k])
  }

  /** The label scan of `GetReadyToExecute`, from line `i` of `lines` on: registers
      each label declaration, throws through `Error` on a colon-terminated line with
      white space, and throws without halting (the dictionary's exception) on a
      repeated label. The branch for an all-digit label is kept as written; it
      cannot be taken. */
  function ScanLabels(c: Controllable, lines: seq<string>, i: nat): Outcome<Controllable>
    requires i <= |lines|
    decreases |lines| - i
  {
    if i == |lines| then
      Success(c)
    else
      var line := lines[i];
      if EndsWith(line, ':') then
        if !HasSpace(line) then
          if HasNonDigit(line) then
            var name := Upper(line[..|line| - 1]);
            if name in c.labels then Failure(Fault(DuplicateLabel, c))
            else ScanLabels(c.(labels := c.labels[name := i]), lines, i + 1)
          else
            Error(MalformedLabel, c)
        else
          Error(MalformedLabel, c)
      else
        ScanLabels(c, lines, i + 1)
  }

  /** The scan changes nothing but the label table; a spaced label throws through
      `Error`, which halts, and a repeated label throws without halting. */
  lemma {:induction false} ScanLabelsFrame(c: Controllable, lines: seq<string>, i: nat)
    requires i <= |lines|
    ensures var r := ScanLabels(c, lines, i);
      && (r.Success? ==> r.value == c.(labels := r.value.labels))
      && (r.Failure? ==>
            || (r.error.kind == MalformedLabel && r.error.state.halt)
            || (r.error.kind == DuplicateLabel && r.error.state.halt == c.halt))
    decreases |lines| - i
  {
    if i < |lines| {
      var line := lines[i];
      if EndsWith(line, ':') && !HasSpace(line) && HasNonDigit(line) {
        var name := Upper(line[..|line| - 1]);
        if name !in c.labels {
          ScanLabelsFrame(c.(labels := c.labels[name := i]), lines, i + 1);
        }
      } else if !EndsWith(line, ':') {
        ScanLabelsFrame(c, lines, i + 1);
      }
    }
  }

  /** Given the exact table of the first `i` lines, a successful scan from line `i`
      yields the exact table of the whole text. */
  lemma {:induction false} ScanLabelsTable(c: Controllable, lines: seq<string>, i: nat)
    requires i <= |lines|
    requires TableCovers(lines, c.labels, i) && TableSound(lines, c.labels, i)
    ensures ScanLabels(c, lines, i).Success? ==> IsLabelTable(lines, ScanLabels(c, lines, i).value.labels)
    decreases |lines| - i
  {
    hide HasSpace, HasNonDigit, Upper;
    if i == |lines| {
      return;
    }
    var line := lines[i];
    if EndsWith(line, ':') {
      ColonLineHasNonDigit(line);
      if !HasSpace(line) {
        var name := LabelName(line);
        if name !in c.labels {
          var c' := c.(labels := c.labels[name := i]);
          assert TableCovers(lines, c'.labels, i + 1) by {
            forall j | 0 <= j < i + 1 && IsLabelDeclaration(lines[j])
              ensures LabelName(lines[j]) in c'.labels && c'.labels[LabelName(lines[j])] == j
            {
              if j < i {
                assert LabelName(lines[j]) in c.labels;
              }
            }
          }
          ScanLabelsTable(c', lines, i + 1);
        }
      }
    } else {
      ScanLabelsTable(c, lines, i + 1);
    }
  }

  /** Given the exact table of the first `i` lines, none of them a spaced label, the
      scan from line `i` succeeds exactly when no line is a spaced label and no label
      is declared twice. When it fails on a text whose labels are distinct, a spaced
      label threw and the entity is halted; when it fails on a text without spaced
      labels, a repeated label threw and the halt flag is as it was. */
  lemma {:induction false} ScanLabelsSucceeds(c: Controllable, lines: seq<string>, i: nat)
    requires i <= |lines|
    requires TableCovers(lines, c.labels, i) && TableSound(lines, c.labels, i)
    requires NoSpacedLabel(lines, i)
    ensures ScanLabels(c, lines, i).Success? <==> NoSpacedLabel(lines, |lines|) && DistinctLabels(lines, |lines|)
    ensures var r := ScanLabels(c, lines, i);
      r.Failure? && DistinctLabels(lines, |lines|) ==> r.error.kind == MalformedLabel && r.error.state.halt
    ensures var r := ScanLabels(c, lines, i);
      r.Failure? && NoSpacedLabel(lines, |lines|) ==> r.error.kind == DuplicateLabel && r.error.state.halt == c.halt
    decreases |lines| - i
  {
    hide HasSpace, HasNonDigit, Upper;
    var n := |lines|;
    if i == n {
      return;
    }
    var line := lines[i];
    if EndsWith(line, ':') {
      ColonLineHasNonDigit(line);
      if !HasSpace(line) {
        var name := LabelName(line);
        if name in c.labels {
          var j := c.labels[name];
          assert !DistinctLabels(lines, n) by {
            assert 0 <= j < i < n && IsLabelDeclaration(lines[j]) && IsLabelDeclaration(lines[i]);
          }
        } else {
          var c' := c.(labels := c.labels[name := i]);
          assert TableCovers(lines, c'.labels, i + 1) by {
            forall j | 0 <= j < i + 1 && IsLabelDeclaration(lines[j])
              ensures LabelName(lines[j]) in c'.labels && c'.labels[LabelName(lines[j])] == j
            {
              if j < i {
                assert LabelName(lines[j]) in c.labels;
              }
            }
          }
          ScanLabelsSucceeds(c', lines, i + 1);
        }
      } else {
        assert !NoSpacedLabel(lines, n) by {
          assert IsSpacedLabel(lines[i]);
        }
      }
    } else {
      ScanLabelsSucceeds(c, lines, i + 1);
    }
    if ScanLabels(c, lines, i).Success? {
      ScanLabelsTable(c, lines, i);
      TableHasDistinctLabels(lines, ScanLabels(c, lines, i).value.labels);
    }
    ScanLabelsFrame(c, lines, i);
  }

  /** A table that holds every label declaration at its own line maps no name to
      two lines, so the declarations it covers are distinct. */
  lemma TableHasDistinctLabels(lines: seq<string>, labels: map<string, int>)
    requires TableCovers(lines, labels, |lines|)
    ensures DistinctLabels(lines, |lines|)
  {
    forall j, k | 0 <= j < k < |lines| && IsLabelDeclaration(lines[j]) && IsLabelDeclaration(lines[k])
      ensures LabelName(lines[j]) != LabelName(lines[k])
    {
      assert labels[LabelName(lines[j])] == j;
      assert labels[LabelName(lines[k])] == k;
    }
  }

  /** A trimmed label line such as `LOOP:` is in the table at its own index and is
      never executed: the classifier passes over it. */
  lemma LabelLineNotExecuted(code: string, labels: map<string, int>, name: string)
    requires IsLabelTable(Lines(code), labels)
    requires name in labels
    ensures Skipped(code, labels[name])
    ensures !Executable(code, labels[name])
  {
    assert Lines(code)[labels[name]] == LineAt(code, labels[name]);
  }

  /** A line of digits and a colon, such as `42:`, passes every test of the scan
      and is registered under its digits; the all-digit branch never rejects it. */
  lemma DigitLabelAccepted(c: Controllable, lines: seq<string>, i: nat, digits: string)
    requires i < |lines|
    requires forall k :: 0 <= k < |digits| ==> IsDigit(digits[k])
    requires lines[i] == digits + ":"
    requires digits !in c.labels
    ensures ScanLabels(c, lines, i) == ScanLabels(c.(labels := c.labels[digits := i]), lines, i + 1)
  {
    var line := lines[i];
    assert !HasSpace(line) by {
      forall k | 0 <= k < |line|
        ensures !IsSpace(line[k])
      {
        assert k < |digits| ==> IsDigit(line[k]);
      }
    }
    ColonLineHasNonDigit(line);
    assert line[..|line| - 1] == digits;
    assert Upper(digits) == digits;
  }

  /** The first half of `GetReadyToExecute`, on the reset entity: when the line at
      the counter is not executable, advance the counter to the next one that is.
      The classifier runs before the old label table is cleared. */
  function MoveToFirstLine(c: Controllable): Outcome<Controllable> {
    var pc :- GetRegisterValue(c, ProgramCounter);
    var executable :- IsLineExecutable(c, Trunc(pc));
    if executable then Success(c) else IncrementProgramCounter(c)
  }

  /** `GetReadyToExecute`: reset every register, move to the first executable line,
      then clear the label table and scan the labels. The halt flag is never
      cleared. */
  function GetReadyToExecute(c: Controllable): Outcome<Controllable> {
    var started :- MoveToFirstLine(c.(registers := ResetAll(c.registers)));
    ScanLabels(started.(labels := map[]), Lines(started.code), 0)
  }

  /** From a counter at 0, the move changes only the counter and possibly the halt
      flag, and a throw halts the entity. */
  lemma MoveToFirstLineFrame(c: Controllable)
    requires PcOf(c) == Some(0.0)
    ensures IsValid(c.registers, ProgramCounter)
    ensures var r := MoveToFirstLine(c);
      && (r.Success? ==>
            && PcOf(r.value).Some?
            && r.value == c.(registers := Store(c.registers, ProgramCounter, PcOf(r.value).value).value,
                             halt := r.value.halt))
      && (r.Failure? ==> r.error.state.halt)
  {
    hide IncrementProgramCounter;
    UpperProgramCounter();
    assert GetRegisterValue(c, ProgramCounter) == Success(0.0);
    assert Trunc(0.0) == 0;
    var executable := IsLineExecutable(c, 0);
    if executable.Success? {
      if executable.value {
        StoreSame(c.registers, ProgramCounter, 0.0);
      } else {
        IncrementProgramCounterFrame(c, 0.0);
      }
    }
  }

  /** From a counter at 0, a successful move leaves the counter on the first
      executable line with the halt flag untouched, or at or past the line count
      with the entity halted; every line before it is passed over. A throw comes
      from a line the classifier rejects. */
  lemma MoveToFirstLineLines(c: Controllable)
    requires PcOf(c) == Some(0.0)
    ensures var r := MoveToFirstLine(c);
      && (r.Success? ==>
            && PcOf(r.value).Some?
            && var pc := PcOf(r.value).value;
               && pc >= 0.0
               && (forall j :: 0 <= j < Trunc(pc) ==> Skipped(c.code, j))
               && ((Executable(c.code, Trunc(pc)) && r.value.halt == c.halt)
                   || (pc >= GetLineCount(c.code) as real && r.value.halt)))
      && (r.Failure? ==> r.error.kind in {MalformedLabel, InvalidLineIndex})
  {
    hide IncrementProgramCounter, Executable, Skipped, GetLineCount, LineAt;
    UpperProgramCounter();
    assert GetRegisterValue(c, ProgramCounter) == Success(0.0);
    assert Trunc(0.0) == 0;
    var executable := IsLineExecutable(c, 0);
    ClassifierVerdict(c, 0);
    if executable.Success? && !executable.value {
      IncrementProgramCounterFrame(c, 0.0);
      IncrementProgramCounterLines(c, 0.0);
      var s := IncrementProgramCounter(c);
      var n := Increments(SetRegisterValue(c, ProgramCounter, 0.0 + 1.0).value) + 1;
      assert Probe(0.0, n) == Trunc(0.0 + n as real);
      if s.Success? {
        forall j | 0 <= j < Trunc(PcOf(s.value).value)
          ensures Skipped(c.code, j)
        {
          assert Probe(0.0, j) == j;
          if j == 0 {
            assert Skipped(c.code, Trunc(0.0));
          }
        }
      }
    }
  }

  /** After a successful preparation the text and trace are as before, the label
      table is exactly the text's labels (nothing stale survives), and the registers
      are the reset bank with only the counter moved. */
  lemma GetReadyToExecuteState(c: Controllable)
    ensures var r := GetReadyToExecute(c);
      r.Success? ==>
        && IsValid(c.registers, ProgramCounter)
        && r.value.code == c.code && r.value.trace == c.trace
        && IsLabelTable(Lines(c.code), r.value.labels)
        && PcOf(r.value).Some?
        && r.value.registers == Store(ResetAll(c.registers), ProgramCounter, PcOf(r.value).value).value
  {
    hide IncrementProgramCounter;
    UpperProgramCounter();
    var reset := c.(registers := ResetAll(c.registers));
    if !IsValid(reset.registers, ProgramCounter) {
      return;
    }
    assert PcOf(reset) == Some(0.0);
    MoveToFirstLineFrame(reset);
    var started := MoveToFirstLine(reset);
    if started.Success? {
      var cleared := started.value.(labels := map[]);
      ScanLabelsFrame(cleared, Lines(c.code), 0);
      ScanLabelsTable(cleared, Lines(c.code), 0);
    }
  }

  /** After a successful preparation the key sets of the register namespaces are as
      before and every register but the counter reads 0. */
  lemma GetReadyToExecuteZeroes(c: Controllable)
    ensures var r := GetReadyToExecute(c);
      r.Success? ==>
        && Shape(r.value.registers) == Shape(c.registers)
        && forall name :: IsValid(c.registers, name) && Upper(name) != ProgramCounter ==>
             Lookup(r.value.registers, name) == Some(0.0)
  {
    var r := GetReadyToExecute(c);
    if r.Success? {
      GetReadyToExecuteState(c);
      UpperProgramCounter();
      var pc := PcOf(r.value).value;
      StoreKeepsShape(ResetAll(c.registers), ProgramCounter, pc);
      forall name | IsValid(c.registers, name) && Upper(name) != ProgramCounter
        ensures Lookup(r.value.registers, name) == Some(0.0)
      {
        StoreThenLookup(ResetAll(c.registers), ProgramCounter, pc, name);
      }
    }
  }

  /** After a successful preparation the counter sits on the first executable line,
      with the halt flag untouched, or at or past the line count with the entity
      halted; every line before it is passed over. A throw halts the entity unless
      it is a repeated label, and a halted entity stays halted either way. */
  lemma GetReadyToExecuteLines(c: Controllable)
    ensures var r := GetReadyToExecute(c);
      && (r.Success? ==>
            && PcOf(r.value).Some?
            && var pc := PcOf(r.value).value;
               && pc >= 0.0
               && (forall j :: 0 <= j < Trunc(pc) ==> Skipped(c.code, j))
               && ((Executable(c.code, Trunc(pc)) && r.value.halt == c.halt)
                   || (pc >= GetLineCount(c.code) as real && r.value.halt)))
      && (r.Failure? ==> r.error.state.halt || r.error.kind == DuplicateLabel)
      && (c.halt ==> StateAfter(r, (x: Controllable) => x).halt)
  {
    hide IncrementProgramCounter;
    UpperProgramCounter();
    var reset := c.(registers := ResetAll(c.registers));
    if !IsValid(reset.registers, ProgramCounter) {
      return;
    }
    assert PcOf(reset) == Some(0.0);
    MoveToFirstLineFrame(reset);
    MoveToFirstLineLines(reset);
    var started := MoveToFirstLine(reset);
    if started.Success? {
      var cleared := started.value.(labels := map[]);
      ScanLabelsFrame(cleared, Lines(c.code), 0);
    }
  }

  /** When line 0 is a non-comment label with white space, preparation throws from
      the classifier, before the old label table is cleared: the stale table survives
      in the halted entity. */
  lemma SpacedFirstLineKeepsStaleLabels(c: Controllable)
    requires IsValid(c.registers, ProgramCounter)
    requires IsFatalForClassifier(LineAt(c.code, 0))
    ensures GetReadyToExecute(c).Failure?
    ensures GetReadyToExecute(c).error.kind == MalformedLabel
    ensures GetReadyToExecute(c).error.state.labels == c.labels
    ensures GetReadyToExecute(c).error.state.halt
  {
    var reset := c.(registers := ResetAll(c.registers));
    assert GetRegisterValue(reset, ProgramCounter) == Success(0.0);
    assert Trunc(0.0) == 0;
  }
}
