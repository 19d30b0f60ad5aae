/**
 * `Processor` of 19/src/main.rs: six i32 registers updated in place, one of
 * them bound to the instruction pointer. Each opcode method is an instance of
 * one of the source's macros, and `RunProgram` is its fetch-execute loop.
 */
module Device {
  import opened Word
  import opened InstructionSet
  import opened Execution

  class Processor {
    const registers: array<Int32>
    const ipRegister: int

    ghost predicate Valid()
      reads this
    {
      registers.Length == 6 && IsRegister(ipRegister)
    }

    /** The register file as a value: register 0 first. */
    function Snapshot(): Registers
      reads this, registers
      requires Valid()
    {
      registers[..]
    }

    /** A processor with every register 0, as `main` builds it. */
    constructor (ipRegister: int)
      requires IsRegister(ipRegister)
      ensures Valid() && fresh(registers)
      ensures this.ipRegister == ipRegister
      ensures Snapshot() == [0, 0, 0, 0, 0, 0]
    {
      this.ipRegister := ipRegister;
      registers := new Int32[6](_ => 0);
    }

    method Read(r: int) returns (v: Int32)
      requires Valid() && IsRegister(r)
      ensures v == Snapshot()[r]
    {
      v := registers[r];
    }

    /** Sets register `r` to `v`; the other five keep their values. */
    method Write(r: int, v: Int32)
      requires Valid() && IsRegister(r)
      modifies registers
      ensures Snapshot() == old(Snapshot())[r := v]
    {
      registers[r] := v;
    }

    /** An instance of `binaryr!`: register c := register a `f` register b. */
    method BinaryR(f: BinaryOp, a: int, b: int, c: int)
      requires Valid() && IsRegister(a) && IsRegister(b) && IsRegister(c)
      modifies registers
      ensures Snapshot() == old(Snapshot())[c := Combine(f, old(Snapshot())[a], old(Snapshot())[b])]
    {
      var x := Read(a);
      var y := Read(b);
      Write(c, Combine(f, x, y));
    }

    /** An instance of `binaryi!`: register c := register a `f` the literal b. */
    method BinaryI(f: BinaryOp, a: int, b: Int32, c: int)
      requires Valid() && IsRegister(a) && IsRegister(c)
      modifies registers
      ensures Snapshot() == old(Snapshot())[c := Combine(f, old(Snapshot())[a], b)]
    {
      var x := Read(a);
      Write(c, Combine(f, x, b));
    }

    /** `setr`: register c := register a; the second operand is ignored. */
    method Setr(a: int, c: int)
      requires Valid() && IsRegister(a) && IsRegister(c)
      modifies registers
      ensures Snapshot() == old(Snapshot())[c := old(Snapshot())[a]]
    {
      var x := Read(a);
      Write(c, x);
    }

    /** `seti`: register c := the literal a; the second operand is ignored. */
    method Seti(a: Int32, c: int)
      requires Valid() && IsRegister(c)
      modifies registers
      ensures Snapshot() == old(Snapshot())[c := a]
    {
      Write(c, a);
    }

    /** An instance of `testingir!`: register c := 1 if literal a `rel` register b, else 0. */
    method TestingIR(rel: Relation, a: Int32, b: int, c: int)
      requires Valid() && IsRegister(b) && IsRegister(c)
      modifies registers
      ensures Snapshot() == old(Snapshot())[c := Flag(Holds(rel, a, old(Snapshot())[b]))]
    {
      var y := Read(b);
      Write(c, if Holds(rel, a, y) then 1 else 0);
    }

    /** An instance of `testingri!`: register c := 1 if register a `rel` literal b, else 0. */
    method TestingRI(rel: Relation, a: int, b: Int32, c: int)
      requires Valid() && IsRegister(a) && IsRegister(c)
      modifies registers
      ensures Snapshot() == old(Snapshot())[c := Flag(Holds(rel, old(Snapshot())[a], b))]
    {
      var x := Read(a);
      Write(c, if Holds(rel, x, b) then 1 else 0);
    }

    /** An instance of `testingrr!`: register c := 1 if register a `rel` register b, else 0. */
    method TestingRR(rel: Relation, a: int, b: int, c: int)
      requires Valid() && IsRegister(a) && IsRegister(b) && IsRegister(c)
      modifies registers
      ensures Snapshot() == old(Snapshot())[c := Flag(Holds(rel, old(Snapshot())[a], old(Snapshot())[b]))]
    {
      var x := Read(a);
      var y := Read(b);
      Write(c, if Holds(rel, x, y) then 1 else 0);
    }

    /**
     * `run_command`: dispatches on the opcode to the method instance of that
     * name; the registers end up as `Execute` describes.
     */
    method RunCommand(cmd: Command)
      requires Valid() && WellFormed(cmd)
      modifies registers
      ensures Snapshot() == Execute(cmd, old(Snapshot()))
    {
      var a, b, c := cmd.a, cmd.b, cmd.c;
      match cmd.opcode
      case Addr => BinaryR(Add, a, b, c);
      case Addi => BinaryI(Add, a, b, c);
      case Mulr => BinaryR(Mul, a, b, c);
      case Muli => BinaryI(Mul, a, b, c);
      case Banr => BinaryR(And, a, b, c);
      case Bani => BinaryI(And, a, b, c);
      case Borr => BinaryR(Or, a, b, c);
      case Bori => BinaryI(Or, a, b, c);
      case Setr => Setr(a, c);
      case Seti => Seti(a, c);
      case Gtir => TestingIR(Greater, a, b, c);
      case Gtri => TestingRI(Greater, a, b, c);
      case Gtrr => TestingRR(Greater, a, b, c);
      case Eqir => TestingIR(Equal, a, b, c);
      case Eqri => TestingRI(Equal, a, b, c);
      case Eqrr => TestingRR(Equal, a, b, c);
    }

    /** `ip`: the value of the register bound to the instruction pointer. */
    method Ip() returns (v: Int32)
      requires Valid()
      ensures v == Snapshot()[ipRegister]
    {
      v := Read(ipRegister);
    }

    /**
     * One pass of the body of `run_program`'s loop: fetches the command at
     * the pointer's address (reporting a fault, with nothing changed, when the
     * pointer is outside the program), runs it, adds 1 to the pointer register
     * and reports whether the loop breaks.
     */
    method Cycle(commands: seq<Command>) returns (fault: bool, halt: bool)
      requires Valid() && ValidProgram(commands)
      modifies registers
      ensures var r := Step(commands, ipRegister, old(Snapshot()));
              && fault == r.Fault? && halt == r.Halt?
              && (if r.Fault? then Snapshot() == old(Snapshot()) else Snapshot() == r.regs)
    {
      var ip := Ip();
      if ip < 0 || ip >= |commands| {
        return true, false;
      }
      RunCommand(commands[ip]);
      var written := Ip();
      Write(ipRegister, Wrap(written as int + 1));
      var next := Ip();
      fault, halt := false, next >= LengthAsI32(commands);
    }

    /**
     * `run_program`, allowed at most `fuel` passes of its loop: runs the
     * command at the pointer's address, adds 1 to the pointer register (on top
     * of any value the command wrote there) and stops once the pointer is at
     * or past the program's end. A fetch outside the program (where the source
     * panics) stops the loop with `Faulted`.
     */
    method RunProgram(commands: seq<Command>, fuel: nat) returns (status: Status, steps: nat)
      requires Valid() && ValidProgram(commands)
      modifies registers
      ensures Outcome(status, Snapshot(), steps) == Run(commands, ipRegister, old(Snapshot()), fuel)
    {
      var remaining: nat := fuel;
      steps := 0;
      while remaining > 0
        invariant remaining + steps == fuel
        invariant Run(commands, ipRegister, old(Snapshot()), fuel)
               == var rest := Run(commands, ipRegister, Snapshot(), remaining);
                  rest.(steps := rest.steps + steps)
        decreases remaining
      {
        var fault, halt := Cycle(commands);
        if fault {
          return Faulted, steps;
        }
        steps, remaining := steps + 1, remaining - 1;
        if halt {
          return Halted, steps;
        }
      }
      status := OutOfFuel;
    }
  }
}
