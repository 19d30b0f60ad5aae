/**
 * The fetch-execute cycle of `Processor::run_program` (19/src/main.rs) as
 * pure functions: one step, and a run bounded by a number of steps.
 */
module Execution {
  import opened Word
  import opened InstructionSet

  /** Every command of the program names only registers that exist. */
  predicate ValidProgram(prog: seq<Command>) {
    forall i :: 0 <= i < |prog| ==> WellFormed(prog[i])
  }

  /** `commands.len() as i32`: the length the halting test compares with. */
  function LengthAsI32(prog: seq<Command>): Int32 {
    Wrap(|prog|)
  }

  /**
   * What one pass of the loop body does: the fetch indexes out of the program
   * (the source panics), or the command runs and the pointer is incremented,
   * after which the loop either breaks or goes round again.
   */
  datatype StepResult = Fault | Halt(regs: Registers) | Continue(regs: Registers)

  function Step(prog: seq<Command>, ipr: int, regs: Registers): (r: StepResult)
    requires ValidProgram(prog) && IsRegister(ipr)
    ensures r.Fault? <==> !(0 <= regs[ipr] < |prog|)
  {
    var ip := regs[ipr];
    if ip < 0 || ip >= |prog| then Fault
    else
      var after := Execute(prog[ip], regs);
      var next := after[ipr := Wrap(after[ipr] as int + 1)];
      if next[ipr] >= LengthAsI32(prog) then Halt(next) else Continue(next)
  }

  /**
   * A step that fetches command `cmd` stores its value in `cmd.c`, then adds 1
   * (wrapping) to the pointer register, whether or not `cmd` wrote it; every
   * other register keeps its value, and the loop breaks exactly when the new
   * pointer is at or past the program's length.
   */
  lemma StepEffect(prog: seq<Command>, ipr: int, regs: Registers)
    requires ValidProgram(prog) && IsRegister(ipr) && 0 <= regs[ipr] < |prog|
    ensures var cmd := prog[regs[ipr]];
            var r := Step(prog, ipr, regs);
            && r.regs[ipr] == Wrap((if cmd.c == ipr then Value(cmd, regs) else regs[ipr]) as int + 1)
            && (forall i :: 0 <= i < 6 && i != ipr ==>
                  r.regs[i] == if i == cmd.c then Value(cmd, regs) else regs[i])
            && (r.Halt? <==> r.regs[ipr] >= LengthAsI32(prog))
  {
  }

  datatype Status = Halted | Faulted | OutOfFuel

  /** How a run ended, the registers at that point and the commands executed. */
  datatype Outcome = Outcome(status: Status, regs: Registers, steps: nat)

  /**
   * `run_program` allowed at most `fuel` passes of its loop. The source has
   * no bound; `OutOfFuel` only says that the bound was reached.
   */
  function Run(prog: seq<Command>, ipr: int, regs: Registers, fuel: nat): (r: Outcome)
    requires ValidProgram(prog) && IsRegister(ipr)
    ensures r.steps <= fuel
    ensures r.status == OutOfFuel ==> r.steps == fuel
    decreases fuel
  {
    if fuel == 0 then Outcome(OutOfFuel, regs, 0)
    else
      match Step(prog, ipr, regs)
      case Fault => Outcome(Faulted, regs, 0)
      case Halt(next) => Outcome(Halted, next, 1)
      case Continue(next) =>
        var rest := Run(prog, ipr, next, fuel - 1);
        rest.(steps := rest.steps + 1)
  }

  /** A run that ended without exhausting its bound ends the same way under any larger bound. */
  lemma {:induction false} FuelIrrelevant(prog: seq<Command>, ipr: int, regs: Registers, fuel: nat, more: nat)
    requires ValidProgram(prog) && IsRegister(ipr)
    requires fuel <= more
    requires Run(prog, ipr, regs, fuel).status != OutOfFuel
    ensures Run(prog, ipr, regs, more) == Run(prog, ipr, regs, fuel)
    decreases fuel
  {
    match Step(prog, ipr, regs)
    case Fault =>
    case Halt(_) =>
    case Continue(next) =>
      FuelIrrelevant(prog, ipr, next, fuel - 1, more - 1);
  }

  /**
   * How a run can end: a halt comes after at least one step, with the pointer
   * at or past the program's length; a fault leaves a pointer outside the
   * program.
   */
  lemma {:induction false} RunEnds(prog: seq<Command>, ipr: int, regs: Registers, fuel: nat)
    requires ValidProgram(prog) && IsRegister(ipr)
    ensures var o := Run(prog, ipr, regs, fuel);
            && (o.status == Halted ==> 1 <= o.steps && o.regs[ipr] >= LengthAsI32(prog))
            && (o.status == Faulted ==> !(0 <= o.regs[ipr] < |prog|))
    decreases fuel
  {
    if fuel > 0 {
      match Step(prog, ipr, regs)
      case Fault =>
      case Halt(_) =>
        StepEffect(prog, ipr, regs);
      case Continue(next) =>
        RunEnds(prog, ipr, next, fuel - 1);
    }
  }

  /** No command of the program has register `r` as its destination. */
  predicate NeverWrites(prog: seq<Command>, r: int) {
    forall i :: 0 <= i < |prog| ==> prog[i].c != r
  }

  /**
   * Started at address `k`, a program that never writes the pointer register
   * runs its remaining `|prog| - k` commands in order and halts with the
   * pointer at `|prog|`; a smaller bound is exhausted first.
   */
  lemma {:induction false} StraightLineFrom(prog: seq<Command>, ipr: int, regs: Registers, fuel: nat)
    requires ValidProgram(prog) && IsRegister(ipr) && NeverWrites(prog, ipr)
    requires |prog| <= I32_MAX
    requires 0 <= regs[ipr] < |prog|
    ensures var o := Run(prog, ipr, regs, fuel);
            if fuel >= |prog| - regs[ipr] then
              o.status == Halted && o.steps == |prog| - regs[ipr] && o.regs[ipr] == |prog|
            else
              o.status == OutOfFuel
    decreases |prog| - regs[ipr]
  {
    if fuel > 0 {
      var k := regs[ipr];
      var after := Execute(prog[k], regs);
      assert after[ipr] == k;
      match Step(prog, ipr, regs)
      case Halt(next) =>
      case Continue(next) =>
        assert next[ipr] == k + 1;
        StraightLineFrom(prog, ipr, next, fuel - 1);
    }
  }

  /**
   * From a zero pointer, such a program halts after exactly `|prog|` steps with
   * the pointer register holding `|prog|`; an empty program faults at the
   * first fetch.
   */
  lemma StraightLineHalts(prog: seq<Command>, ipr: int, regs: Registers, fuel: nat)
    requires ValidProgram(prog) && IsRegister(ipr) && NeverWrites(prog, ipr)
    requires |prog| <= I32_MAX && regs[ipr] == 0 && 1 <= fuel
    ensures |prog| == 0 ==> Run(prog, ipr, regs, fuel) == Outcome(Faulted, regs, 0)
    ensures 0 < |prog| <= fuel ==>
              var o := Run(prog, ipr, regs, fuel);
              o.status == Halted && o.steps == |prog| && o.regs[ipr] == |prog|
    ensures fuel < |prog| ==> Run(prog, ipr, regs, fuel).status == OutOfFuel
  {
    if |prog| > 0 {
      StraightLineFrom(prog, ipr, regs, fuel);
    }
  }

  /**
   * `seti t _ R` with R the pointer register is a jump: the pointer becomes
   * t + 1 (the write is incremented, not discarded), the loop breaks exactly
   * when t + 1 is past the end, and no other register changes.
   */
  lemma SetiJump(prog: seq<Command>, ipr: int, regs: Registers)
    requires ValidProgram(prog) && IsRegister(ipr) && |prog| <= I32_MAX
    requires 0 <= regs[ipr] < |prog|
    requires prog[regs[ipr]].opcode == Seti && prog[regs[ipr]].c == ipr
    requires prog[regs[ipr]].a < I32_MAX
    ensures var t := prog[regs[ipr]].a;
            var r := Step(prog, ipr, regs);
            && !r.Fault?
            && r.regs[ipr] == t + 1
            && (r.Halt? <==> t + 1 >= |prog|)
            && (forall i :: 0 <= i < 6 && i != ipr ==> r.regs[i] == regs[i])
  {
  }

  /**
   * A negative pointer passes the halting test, so the loop goes round again
   * and the next fetch faults.
   */
  lemma NegativePointerFaults(prog: seq<Command>, ipr: int, regs: Registers, fuel: nat)
    requires ValidProgram(prog) && IsRegister(ipr) && |prog| <= I32_MAX
    requires 2 <= fuel
    requires 0 <= regs[ipr] < |prog|
    requires Step(prog, ipr, regs).regs[ipr] < 0
    ensures Step(prog, ipr, regs).Continue?
    ensures Run(prog, ipr, regs, fuel) == Outcome(Faulted, Step(prog, ipr, regs).regs, 1)
  {
  }

  /** The program made of the one command `seti t 0 R`, R being the pointer register. */
  function SingleJump(t: Int32, ipr: int): (prog: seq<Command>)
    requires IsRegister(ipr)
    ensures ValidProgram(prog) && |prog| == 1
  {
    [Command(Seti, t, 0, ipr)]
  }

  /**
   * Ways `seti t 0 R` alone can end, from a zero pointer: it halts after one
   * step for 0 <= t < i32::MAX; `t == -1` jumps back to itself forever;
   * t < -1, and t == i32::MAX (whose increment wraps), leave a negative
   * pointer and fault at the second fetch.
   */
  lemma {:induction false} SingleJumpOutcomes(t: Int32, ipr: int, regs: Registers, fuel: nat)
    requires IsRegister(ipr) && regs[ipr] == 0 && 2 <= fuel
    ensures var o := Run(SingleJump(t, ipr), ipr, regs, fuel);
            && (0 <= t < I32_MAX ==> o.status == Halted && o.steps == 1 && o.regs[ipr] == t + 1)
            && (t == -1 ==> o.status == OutOfFuel)
            && ((t < -1 || t == I32_MAX) ==> o.status == Faulted && o.steps == 1)
  {
    if t == -1 {
      JumpToSelfLoops(t, ipr, regs, fuel);
    }
  }

  lemma {:induction false} JumpToSelfLoops(t: Int32, ipr: int, regs: Registers, fuel: nat)
    requires IsRegister(ipr) && regs[ipr] == 0 && t == -1
    ensures Run(SingleJump(t, ipr), ipr, regs, fuel).status == OutOfFuel
    decreases fuel
  {
    if fuel > 0 {
      var next := Step(SingleJump(t, ipr), ipr, regs).regs;
      assert next == regs;
      JumpToSelfLoops(t, ipr, next, fuel - 1);
    }
  }

  const Zero: Registers := [0, 0, 0, 0, 0, 0]

  /** `seti 5 0 1`, `seti 6 0 2`, `addr 1 2 3` with the pointer in register 0. */
  function ThreeCommands(): (prog: seq<Command>)
    ensures ValidProgram(prog)
  {
    [Command(Seti, 5, 0, 1), Command(Seti, 6, 0, 2), Command(Addr, 1, 2, 3)]
  }

  /** The register snapshots after each of the three steps, by hand. */
  lemma ThreeCommandsTrace()
    ensures Step(ThreeCommands(), 0, Zero) == Continue([1, 5, 0, 0, 0, 0])
    ensures Step(ThreeCommands(), 0, [1, 5, 0, 0, 0, 0]) == Continue([2, 5, 6, 0, 0, 0])
    ensures Step(ThreeCommands(), 0, [2, 5, 6, 0, 0, 0]) == Halt([3, 5, 6, 11, 0, 0])
    ensures Run(ThreeCommands(), 0, Zero, 3) == Outcome(Halted, [3, 5, 6, 11, 0, 0], 3)
  {
  }

  /**
   * The seven-command example: `addi 0 1 0` at address 2 skips address 3,
   * `setr 1 0 0` at address 4 jumps to address 6, and the run halts after
   * five commands.
   */
  function SevenCommands(): (prog: seq<Command>)
    ensures ValidProgram(prog)
  {
    [ Command(Seti, 5, 0, 1), Command(Seti, 6, 0, 2), Command(Addi, 0, 1, 0),
      Command(Addr, 1, 2, 3), Command(Setr, 1, 0, 0), Command(Seti, 8, 0, 4),
      Command(Seti, 9, 0, 5) ]
  }

  /** The register snapshots after the first three of the five steps, by hand. */
  lemma SevenCommandsFirstSteps()
    ensures Step(SevenCommands(), 0, Zero) == Continue([1, 5, 0, 0, 0, 0])
    ensures Step(SevenCommands(), 0, [1, 5, 0, 0, 0, 0]) == Continue([2, 5, 6, 0, 0, 0])
    ensures Step(SevenCommands(), 0, [2, 5, 6, 0, 0, 0]) == Continue([4, 5, 6, 0, 0, 0])
  {
    assert Step(SevenCommands(), 0, Zero) == Continue([1, 5, 0, 0, 0, 0]);
  }

  /** The last two steps: `setr 1 0 0` jumps to address 6, whose `seti` ends the run. */
  lemma SevenCommandsLastSteps()
    ensures Step(SevenCommands(), 0, [4, 5, 6, 0, 0, 0]) == Continue([6, 5, 6, 0, 0, 0])
    ensures Step(SevenCommands(), 0, [6, 5, 6, 0, 0, 0]) == Halt([7, 5, 6, 0, 0, 9])
  {
    assert Step(SevenCommands(), 0, [4, 5, 6, 0, 0, 0]) == Continue([6, 5, 6, 0, 0, 0]);
  }

  /** With any bound of at least five steps, the run halts after five commands. */
  lemma SevenCommandsResult(fuel: nat)
    requires 5 <= fuel
    ensures Run(SevenCommands(), 0, Zero, fuel) == Outcome(Halted, [7, 5, 6, 0, 0, 9], 5)
  {
    SevenCommandsFirstSteps();
    SevenCommandsLastSteps();
    var p := SevenCommands();
    assert Run(p, 0, [6, 5, 6, 0, 0, 0], 1) == Outcome(Halted, [7, 5, 6, 0, 0, 9], 1);
    assert Run(p, 0, [4, 5, 6, 0, 0, 0], 2) == Outcome(Halted, [7, 5, 6, 0, 0, 9], 2);
    assert Run(p, 0, [2, 5, 6, 0, 0, 0], 3) == Outcome(Halted, [7, 5, 6, 0, 0, 9], 3);
    assert Run(p, 0, [1, 5, 0, 0, 0, 0], 4) == Outcome(Halted, [7, 5, 6, 0, 0, 9], 4);
    assert Run(p, 0, Zero, 5) == Outcome(Halted, [7, 5, 6, 0, 0, 9], 5);
    FuelIrrelevant(p, 0, Zero, 5, fuel);
  }
}
