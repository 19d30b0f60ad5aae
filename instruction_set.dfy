/**
 * The sixteen opcodes of the register machine (19/src/main.rs): what each one
 * writes into its destination register, the mnemonic each is written with,
 * and the number `Command::new` and `get_instructions` give it.
 */
module InstructionSet {
  import opened Wrappers
  import opened Word

  /** Six i32 registers, numbered 0 to 5. */
  type Registers = r: seq<Int32> | |r| == 6 witness [0, 0, 0, 0, 0, 0]

  predicate IsRegister(r: int) {
    0 <= r < 6
  }

  datatype Opcode =
    | Addr | Addi | Mulr | Muli | Banr | Bani | Borr | Bori
    | Setr | Seti | Gtir | Gtri | Gtrr | Eqir | Eqri | Eqrr

  /** One program line: an opcode, two operands and a destination register. */
  datatype Command = Command(opcode: Opcode, a: Int32, b: Int32, c: Int32)

  /** The operator a `binaryr!`/`binaryi!` instance is generated with. */
  datatype BinaryOp = Add | Mul | And | Or

  /** The comparison a `testing..!` instance is generated with. */
  datatype Relation = Greater | Equal

  function Combine(f: BinaryOp, x: Int32, y: Int32): Int32 {
    match f
    case Add => Wrap(x + y)
    case Mul => Wrap(x * y)
    case And => BitAnd(x, y)
    case Or => BitOr(x, y)
  }

  predicate Holds(rel: Relation, x: Int32, y: Int32) {
    match rel
    case Greater => x > y
    case Equal => x == y
  }

  /** The value a comparison opcode stores: 1 for true, 0 for false. */
  function Flag(b: bool): Int32 {
    if b then 1 else 0
  }

  /** Whether operand `a` names a register (otherwise it is a literal or unused). */
  predicate ReadsA(op: Opcode) {
    op !in {Seti, Gtir, Eqir}
  }

  /** Whether operand `b` names a register (otherwise it is a literal or unused). */
  predicate ReadsB(op: Opcode) {
    op in {Addr, Mulr, Banr, Borr, Gtir, Gtrr, Eqir, Eqrr}
  }

  /**
   * Every register a command reads or writes exists; any other index reaches
   * the `unreachable!()` arm of `read`/`write`.
   */
  predicate WellFormed(cmd: Command) {
    IsRegister(cmd.c)
    && (ReadsA(cmd.opcode) ==> IsRegister(cmd.a))
    && (ReadsB(cmd.opcode) ==> IsRegister(cmd.b))
  }

  /** The value a command writes into its destination register. */
  function Value(cmd: Command, regs: Registers): Int32
    requires WellFormed(cmd)
  {
    var a, b := cmd.a, cmd.b;
    match cmd.opcode
    case Addr => Combine(Add, regs[a], regs[b])
    case Addi => Combine(Add, regs[a], b)
    case Mulr => Combine(Mul, regs[a], regs[b])
    case Muli => Combine(Mul, regs[a], b)
    case Banr => Combine(And, regs[a], regs[b])
    case Bani => Combine(And, regs[a], b)
    case Borr => Combine(Or, regs[a], regs[b])
    case Bori => Combine(Or, regs[a], b)
    case Setr => regs[a]
    case Seti => a
    case Gtir => Flag(Holds(Greater, a, regs[b]))
    case Gtri => Flag(Holds(Greater, regs[a], b))
    case Gtrr => Flag(Holds(Greater, regs[a], regs[b]))
    case Eqir => Flag(Holds(Equal, a, regs[b]))
    case Eqri => Flag(Holds(Equal, regs[a], b))
    case Eqrr => Flag(Holds(Equal, regs[a], regs[b]))
  }

  /** The registers after one command. */
  function Execute(cmd: Command, regs: Registers): Registers
    requires WellFormed(cmd)
  {
    regs[cmd.c := Value(cmd, regs)]
  }

  /** A command stores its value in its destination and changes no other register. */
  lemma ExecuteWritesDestination(cmd: Command, regs: Registers)
    requires WellFormed(cmd)
    ensures Execute(cmd, regs)[cmd.c] == Value(cmd, regs)
    ensures forall i :: 0 <= i < 6 && i != cmd.c ==> Execute(cmd, regs)[i] == regs[i]
  {
  }

  /**
   * A command's value depends on nothing but the registers its opcode names:
   * two register files that agree on those give the same value.
   */
  lemma ReadsOnlyNamedRegisters(cmd: Command, regs: Registers, other: Registers)
    requires WellFormed(cmd)
    requires ReadsA(cmd.opcode) ==> regs[cmd.a] == other[cmd.a]
    requires ReadsB(cmd.opcode) ==> regs[cmd.b] == other[cmd.b]
    ensures Value(cmd, regs) == Value(cmd, other)
  {
  }

  /** `setr` and `seti` ignore operand `b`. */
  lemma SetIgnoresB(op: Opcode, a: Int32, b: Int32, b': Int32, c: Int32, regs: Registers)
    requires op == Setr || op == Seti
    requires WellFormed(Command(op, a, b, c))
    ensures WellFormed(Command(op, a, b', c))
    ensures Value(Command(op, a, b, c), regs) == Value(Command(op, a, b', c), regs)
    ensures Value(Command(op, a, b, c), regs) == if op == Setr then regs[a] else a
  {
  }

  /** The register form of an immediate binary opcode: `addi` to `addr`, and so on. */
  function RegisterForm(op: Opcode): Opcode
    requires op in {Addi, Muli, Bani, Bori}
  {
    match op
    case Addi => Addr
    case Muli => Mulr
    case Bani => Banr
    case Bori => Borr
  }

  /**
   * An immediate form uses `b` itself as its second operand: it stores what
   * its register form would with any register k other than `a` holding `b`.
   */
  lemma ImmediateUsesLiteral(op: Opcode, a: Int32, b: Int32, c: Int32, k: Int32, regs: Registers)
    requires op in {Addi, Muli, Bani, Bori}
    requires WellFormed(Command(op, a, b, c)) && IsRegister(k) && k != a
    ensures WellFormed(Command(RegisterForm(op), a, k, c))
    ensures Value(Command(op, a, b, c), regs) == Value(Command(RegisterForm(op), a, k, c), regs[k := b])
  {
  }

  /**
   * The comparison opcodes store exactly 0 or 1, and 1 exactly when the
   * comparison holds with the operand roles of the suffix: `ir` compares the
   * literal `a` with register `b`, `ri` register `a` with the literal `b`,
   * `rr` register `a` with register `b`.
   */
  lemma ComparisonIsFlag(cmd: Command, regs: Registers)
    requires WellFormed(cmd)
    requires cmd.opcode in {Gtir, Gtri, Gtrr, Eqir, Eqri, Eqrr}
    ensures Value(cmd, regs) == 0 || Value(cmd, regs) == 1
    ensures var lhs := if cmd.opcode in {Gtir, Eqir} then cmd.a else regs[cmd.a];
            var rhs := if cmd.opcode in {Gtri, Eqri} then cmd.b else regs[cmd.b];
            Value(cmd, regs) == 1 <==>
              if cmd.opcode in {Gtir, Gtri, Gtrr} then lhs > rhs else lhs == rhs
  {
  }

  // ---------------------------------------------------------------------
  // Mnemonics and opcode numbers

  /** The text a program writes for each opcode. */
  function Mnemonic(op: Opcode): string {
    match op
    case Addr => "addr"
    case Addi => "addi"
    case Mulr => "mulr"
    case Muli => "muli"
    case Banr => "banr"
    case Bani => "bani"
    case Borr => "borr"
    case Bori => "bori"
    case Setr => "setr"
    case Seti => "seti"
    case Gtir => "gtir"
    case Gtri => "gtri"
    case Gtrr => "gtrr"
    case Eqir => "eqir"
    case Eqri => "eqri"
    case Eqrr => "eqrr"
  }

  /**
   * The opcode number `Command::new` gives a mnemonic; `None` for any other
   * text, where the source reaches `unreachable!()`.
   */
  function OpcodeNumber(name: string): Option<int> {
    if name == "addr" then Some(0)
    else if name == "addi" then Some(1)
    else if name == "mulr" then Some(2)
    else if name == "muli" then Some(3)
    else if name == "banr" then Some(4)
    else if name == "bani" then Some(5)
    else if name == "borr" then Some(6)
    else if name == "bori" then Some(7)
    else if name == "setr" then Some(8)
    else if name == "seti" then Some(9)
    else if name == "gtir" then Some(10)
    else if name == "gtri" then Some(11)
    else if name == "gtrr" then Some(12)
    else if name == "eqir" then Some(13)
    else if name == "eqri" then Some(14)
    else if name == "eqrr" then Some(15)
    else None
  }

  /** The table `get_instructions` builds: opcode number to opcode. */
  function InstructionTable(): map<int, Opcode> {
    map[0 := Addr, 1 := Addi, 2 := Mulr, 3 := Muli,
        4 := Banr, 5 := Bani, 6 := Borr, 7 := Bori,
        8 := Setr, 9 := Seti, 10 := Gtir, 11 := Gtri,
        12 := Gtrr, 13 := Eqir, 14 := Eqri, 15 := Eqrr]
  }

  /**
   * `Command::new` followed by the table lookup of `run_command`: the command
   * a mnemonic and its operands denote, or `None` for an unknown mnemonic.
   */
  function NewCommand(name: string, a: Int32, b: Int32, c: Int32): (r: Option<Command>)
    ensures r.Some? <==> exists op :: Mnemonic(op) == name
    ensures r.Some? ==>
              Mnemonic(r.value.opcode) == name && r.value.a == a && r.value.b == b && r.value.c == c
  {
    match OpcodeNumber(name)
    case None => None
    case Some(n) =>
      NumberNamesOpcode(name);
      Some(Command(InstructionTable()[n], a, b, c))
  }

  /** The table entry under a mnemonic's number is the opcode of that name. */
  lemma NumberNamesOpcode(name: string)
    requires OpcodeNumber(name).Some?
    ensures OpcodeNumber(name).value in InstructionTable()
    ensures Mnemonic(InstructionTable()[OpcodeNumber(name).value]) == name
  {
    if name == "addr" || name == "addi" || name == "mulr" || name == "muli" {
      ArithmeticNamesOpcode(name);
    } else if name == "banr" || name == "bani" || name == "borr" || name == "bori" {
      BitwiseNamesOpcode(name);
    } else if name == "setr" || name == "seti" || name == "gtir" || name == "gtri" || name == "gtrr" {
      AssignmentAndGreaterNamesOpcode(name);
    } else if name == "eqir" || name == "eqri" || name == "eqrr" {
      EqualityNamesOpcode(name);
    }
  }

  /** `NumberNamesOpcode` for the addition and multiplication mnemonics. */
  lemma ArithmeticNamesOpcode(name: string)
    requires name == "addr" || name == "addi" || name == "mulr" || name == "muli"
    ensures OpcodeNumber(name).Some? && OpcodeNumber(name).value in InstructionTable()
    ensures Mnemonic(InstructionTable()[OpcodeNumber(name).value]) == name
  {
    TableEntries();
    ArithmeticNumbers();
    if name == "addr" {
      assert OpcodeNumber(name) == Some(0) && Mnemonic(Addr) == name;
    } else if name == "addi" {
      assert OpcodeNumber(name) == Some(1) && Mnemonic(Addi) == name;
    } else if name == "mulr" {
      assert OpcodeNumber(name) == Some(2) && Mnemonic(Mulr) == name;
    } else if name == "muli" {
      assert OpcodeNumber(name) == Some(3) && Mnemonic(Muli) == name;
    }
  }

  /** `NumberNamesOpcode` for the bitwise mnemonics. */
  lemma BitwiseNamesOpcode(name: string)
    requires name == "banr" || name == "bani" || name == "borr" || name == "bori"
    ensures OpcodeNumber(name).Some? && OpcodeNumber(name).value in InstructionTable()
    ensures Mnemonic(InstructionTable()[OpcodeNumber(name).value]) == name
  {
    TableEntries();
    BitwiseNumbers();
    if name == "banr" {
      assert OpcodeNumber(name) == Some(4) && Mnemonic(Banr) == name;
    } else if name == "bani" {
      assert OpcodeNumber(name) == Some(5) && Mnemonic(Bani) == name;
    } else if name == "borr" {
      assert OpcodeNumber(name) == Some(6) && Mnemonic(Borr) == name;
    } else if name == "bori" {
      assert OpcodeNumber(name) == Some(7) && Mnemonic(Bori) == name;
    }
  }

  /** `NumberNamesOpcode` for the assignment and greater-than mnemonics. */
  lemma AssignmentAndGreaterNamesOpcode(name: string)
    requires name == "setr" || name == "seti" || name == "gtir" || name == "gtri" || name == "gtrr"
    ensures OpcodeNumber(name).Some? && OpcodeNumber(name).value in InstructionTable()
    ensures Mnemonic(InstructionTable()[OpcodeNumber(name).value]) == name
  {
    TableEntries();
    AssignmentAndGreaterNumbers();
    if name == "setr" {
      assert OpcodeNumber(name) == Some(8) && Mnemonic(Setr) == name;
    } else if name == "seti" {
      assert OpcodeNumber(name) == Some(9) && Mnemonic(Seti) == name;
    } else if name == "gtir" {
      assert OpcodeNumber(name) == Some(10) && Mnemonic(Gtir) == name;
    } else if name == "gtri" {
      assert OpcodeNumber(name) == Some(11) && Mnemonic(Gtri) == name;
    } else if name == "gtrr" {
      assert OpcodeNumber(name) == Some(12) && Mnemonic(Gtrr) == name;
    }
  }

  /** `NumberNamesOpcode` for the equality mnemonics. */
  lemma EqualityNamesOpcode(name: string)
    requires name == "eqir" || name == "eqri" || name == "eqrr"
    ensures OpcodeNumber(name).Some? && OpcodeNumber(name).value in InstructionTable()
    ensures Mnemonic(InstructionTable()[OpcodeNumber(name).value]) == name
  {
    TableEntries();
    EqualityNumbers();
    if name == "eqir" {
      assert OpcodeNumber(name) == Some(13) && Mnemonic(Eqir) == name;
    } else if name == "eqri" {
      assert OpcodeNumber(name) == Some(14) && Mnemonic(Eqri) == name;
    } else if name == "eqrr" {
      assert OpcodeNumber(name) == Some(15) && Mnemonic(Eqrr) == name;
    }
  }

  /** `Command::new` sends the sixteen mnemonics to distinct numbers in 0..15 and nothing else anywhere. */
  lemma OpcodeNumbersInjective(n1: string, n2: string)
    ensures OpcodeNumber(n1).Some? <==> exists op :: Mnemonic(op) == n1
    ensures OpcodeNumber(n1).Some? ==> 0 <= OpcodeNumber(n1).value < 16
    ensures OpcodeNumber(n1).Some? && OpcodeNumber(n1) == OpcodeNumber(n2) ==> n1 == n2
  {
    if OpcodeNumber(n1).Some? {
      NumberNamesOpcode(n1);
      TableKeys();
      if OpcodeNumber(n1) == OpcodeNumber(n2) {
        NumberNamesOpcode(n2);
      }
    }
    if exists op :: Mnemonic(op) == n1 {
      var op :| Mnemonic(op) == n1;
      TableAgreesWithMnemonics(op);
    }
  }

  /**
   * The number `Command::new` gives an opcode's mnemonic is the key under
   * which `get_instructions` stores that same opcode.
   */
  lemma TableAgreesWithMnemonics(op: Opcode)
    ensures OpcodeNumber(Mnemonic(op)).Some?
    ensures OpcodeNumber(Mnemonic(op)).value in InstructionTable()
    ensures InstructionTable()[OpcodeNumber(Mnemonic(op)).value] == op
  {
    TableEntries();
    match op
    case Addr => ArithmeticNumbers();
    case Addi => ArithmeticNumbers();
    case Mulr => ArithmeticNumbers();
    case Muli => ArithmeticNumbers();
    case Banr => BitwiseNumbers();
    case Bani => BitwiseNumbers();
    case Borr => BitwiseNumbers();
    case Bori => BitwiseNumbers();
    case Setr => AssignmentAndGreaterNumbers();
    case Seti => AssignmentAndGreaterNumbers();
    case Gtir => AssignmentAndGreaterNumbers();
    case Gtri => AssignmentAndGreaterNumbers();
    case Gtrr => AssignmentAndGreaterNumbers();
    case Eqir => EqualityNumbers();
    case Eqri => EqualityNumbers();
    case Eqrr => EqualityNumbers();
  }

  /** The sixteen entries of the table. */
  lemma TableEntries()
    ensures 0 in InstructionTable() && InstructionTable()[0] == Addr
    ensures 1 in InstructionTable() && InstructionTable()[1] == Addi
    ensures 2 in InstructionTable() && InstructionTable()[2] == Mulr
    ensures 3 in InstructionTable() && InstructionTable()[3] == Muli
    ensures 4 in InstructionTable() && InstructionTable()[4] == Banr
    ensures 5 in InstructionTable() && InstructionTable()[5] == Bani
    ensures 6 in InstructionTable() && InstructionTable()[6] == Borr
    ensures 7 in InstructionTable() && InstructionTable()[7] == Bori
    ensures 8 in InstructionTable() && InstructionTable()[8] == Setr
    ensures 9 in InstructionTable() && InstructionTable()[9] == Seti
    ensures 10 in InstructionTable() && InstructionTable()[10] == Gtir
    ensures 11 in InstructionTable() && InstructionTable()[11] == Gtri
    ensures 12 in InstructionTable() && InstructionTable()[12] == Gtrr
    ensures 13 in InstructionTable() && InstructionTable()[13] == Eqir
    ensures 14 in InstructionTable() && InstructionTable()[14] == Eqri
    ensures 15 in InstructionTable() && InstructionTable()[15] == Eqrr
  {
  }

  /** The numbers of the addition and multiplication mnemonics. */
  lemma ArithmeticNumbers()
    ensures OpcodeNumber("addr") == Some(0)
    ensures OpcodeNumber("addi") == Some(1)
    ensures OpcodeNumber("mulr") == Some(2)
    ensures OpcodeNumber("muli") == Some(3)
  {
  }

  /** The numbers of the bitwise mnemonics. */
  lemma BitwiseNumbers()
    ensures OpcodeNumber("banr") == Some(4)
    ensures OpcodeNumber("bani") == Some(5)
    ensures OpcodeNumber("borr") == Some(6)
    ensures OpcodeNumber("bori") == Some(7)
  {
  }

  /** The numbers of the assignment and greater-than mnemonics. */
  lemma AssignmentAndGreaterNumbers()
    ensures OpcodeNumber("setr") == Some(8)
    ensures OpcodeNumber("seti") == Some(9)
    ensures OpcodeNumber("gtir") == Some(10)
    ensures OpcodeNumber("gtri") == Some(11)
    ensures OpcodeNumber("gtrr") == Some(12)
  {
  }

  /** The numbers of the equality mnemonics. */
  lemma EqualityNumbers()
    ensures OpcodeNumber("eqir") == Some(13)
    ensures OpcodeNumber("eqri") == Some(14)
    ensures OpcodeNumber("eqrr") == Some(15)
  {
  }

  /** The table `get_instructions` builds has exactly the keys 0..15. */
  lemma TableKeys()
    ensures forall n :: n in InstructionTable() <==> 0 <= n < 16
  {
  }
}
