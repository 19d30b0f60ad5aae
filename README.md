# Register machine and cave erosion, in Dafny

This project models two programs of an Advent of Code 2018 repository written
in Rust, and proves properties of the models.

**The register machine (19/src/main.rs).**
- A `Processor` holds six `i32` registers, one of them bound to the
  instruction pointer.
- Sixteen opcodes each write one register. They are the register and
  immediate forms of add, multiply, bitwise and, bitwise or, set, greater-than
  and equality.
- `run_program` fetches the command at the address in the pointer register and runs it. It then
  adds 1 to the pointer register, whatever the command wrote there, and stops
  once the pointer is at or past the program's length.
- The model keeps the source's imperative form: `Device.Processor` is a class
  over a six-element array, with one method per macro (`BinaryR`, `BinaryI`,
  `TestingIR`, `TestingRI`, `TestingRR`, each taking the operator or relation
  its instances are generated with) plus `Setr` and `Seti`, and a
  fetch-execute `while` loop.
- Each method is proved against pure functions (`InstructionSet.Execute`,
  `Execution.Step`, `Execution.Run`), and the properties of the machine are
  lemmas about those functions.
- `Command::new` and `get_instructions` are modelled as a mnemonic-to-number
  function and a number-to-opcode map, with lemmas that the two agree.
- The `#ip` rule of `main` (exactly one directive) is a loop over lines that
  are already classified.

**The cave (22/src/main.rs).**
- `Region::set_geologic_index` and `Region::new` are functions on a `Region`
  value (the source's Rust struct is `Copy`).
- `CaveSystem` is a class over an array of regions.
- Its constructor runs the source's two passes. The first pass pushes
  `Region::new` for every cell in row-major order. The second, column by
  column, overwrites each interior cell with the product of the erosion levels
  to its left and above, always skipping the far corner.
- The result is specified by `Cave.CellAt`, a recursive function of the
  coordinates.
- The `Display` picture and the danger index `main` sums are specified and
  proved as well.

Integer behaviour:
- The machine's `+` and `*` wrap around as in a release build (`Word.Wrap`).
- `&` and `|` work on the 32-bit two's-complement pattern (`Word.BitAnd`,
  `Word.BitOr`).
- The cave has no overflow: its constructor requires sizes for which no `i32`
  operation overflows and no `unreachable!()` or `expect` is reached
  (`Cave.GridDefined`).
- Rust's `%` is modelled with the sign of the dividend (`Erosion.Rem`).

## Model

| member | source | states |
|---|---|---|
| Device.Processor.constructor | 19/src/main.rs:239-242 | a processor starts with all six registers 0 and the given pointer register |
| Device.Processor.Read | 19/src/main.rs:70-80 | `read(r)` returns register r |
| Device.Processor.Write | 19/src/main.rs:82-92 | `write(r, v)` sets register r to v and leaves the other five unchanged |
| Device.Processor.BinaryR | 19/src/main.rs:25-31 | `binaryr!` instances store reg[a] op reg[b] in c and change nothing else |
| Device.Processor.BinaryI | 19/src/main.rs:32-38 | `binaryi!` instances store reg[a] op b, b being a literal, in c and change nothing else |
| Device.Processor.Setr | 19/src/main.rs:106-108 | `setr` copies reg[a] into c |
| Device.Processor.Seti | 19/src/main.rs:109-111 | `seti` stores the literal a in c |
| Device.Processor.TestingIR | 19/src/main.rs:41-47 | `testingir!` stores 1 in c if literal a rel reg[b], else 0 |
| Device.Processor.TestingRI | 19/src/main.rs:48-54 | `testingri!` stores 1 in c if reg[a] rel literal b, else 0 |
| Device.Processor.TestingRR | 19/src/main.rs:55-61 | `testingrr!` stores 1 in c if reg[a] rel reg[b], else 0 |
| Device.Processor.RunCommand | 19/src/main.rs:121-124 | dispatching a command to its opcode's method leaves the registers as `Execute` gives them |
| Device.Processor.Ip | 19/src/main.rs:126-128 | `ip()` is the value of the pointer register |
| Device.Processor.Cycle | 19/src/main.rs:131-141 | one pass of the loop body: a fetch outside the program faults with nothing changed; otherwise the registers become those of `Step`, and the loop breaks exactly when `Step` halts |
| Device.Processor.RunProgram | 19/src/main.rs:130-143 | the loop, bounded by `fuel` passes, ends with the status, registers and step count of `Run` |
| InstructionSet.ExecuteWritesDestination | 19/src/main.rs:25-61 | a command stores its value in its destination register and changes no other register |
| InstructionSet.ReadsOnlyNamedRegisters | 19/src/main.rs:25-61 | a command's value depends only on the registers its opcode reads |
| InstructionSet.SetIgnoresB | 19/src/main.rs:106-111 | `setr` and `seti` ignore operand b; `setr` yields reg[a], `seti` the literal a |
| InstructionSet.ImmediateUsesLiteral | 19/src/main.rs:32-38 | an immediate form (`addi`, `muli`, `bani`, `bori`) stores what its register form would with some other register k holding the literal b |
| InstructionSet.ComparisonIsFlag | 19/src/main.rs:41-61 | comparisons store exactly 0 or 1, and 1 exactly when the comparison holds with the operand roles of the `ir`/`ri`/`rr` suffix |
| InstructionSet.NewCommand | 19/src/main.rs:175-197 | a command exists exactly for the sixteen mnemonics, and it carries the named opcode and the operands unchanged |
| InstructionSet.OpcodeNumbersInjective | 19/src/main.rs:177-195 | the mnemonic match gives a number exactly to the sixteen mnemonics, each in 0..15, and distinct mnemonics get distinct numbers |
| InstructionSet.NumberNamesOpcode | 19/src/main.rs:146-165 | the table entry stored under a mnemonic's number is the opcode of that name |
| InstructionSet.TableAgreesWithMnemonics | 19/src/main.rs:146-165 | every opcode's mnemonic is numbered, and the table stores that opcode under that number |
| InstructionSet.TableKeys | 19/src/main.rs:146-165 | the table's keys are exactly 0..15 |
| Word.Wrap | 19/src/main.rs:94-98 | the wrapped result equals the exact one when that fits in an i32 and is congruent to it modulo 2^32 |
| Word.BitAndSign | 19/src/main.rs:100-101 | `x & y` is negative exactly when both operands are |
| Word.BitOrSign | 19/src/main.rs:103-104 | the bitwise or of x and y is negative exactly when either operand is |
| Word.BitBounds | 19/src/main.rs:100-104 | on non-negative operands `x & y` lies in [0, min(x, y)] and their bitwise or is at least max(x, y) |
| Word.BitIdentities | 19/src/main.rs:100-104 | -1 is the identity of bitwise and, and 0 that of bitwise or |
| Word.BitwiseByBit | 19/src/main.rs:100-104 | each of the 32 bits of the two's-complement pattern of `x & y` (bitwise or) is the and (or) of the operands' bits at that position |
| Execution.Step | 19/src/main.rs:133-133 | a step faults exactly when the pointer is outside the program |
| Execution.StepEffect | 19/src/main.rs:133-141 | a step stores the command's value in its destination, then sets the pointer to its post-command value plus 1, even when the command wrote it; other registers keep their values; the loop breaks exactly when the new pointer is at or past the length |
| Execution.Run | 19/src/main.rs:130-143 | a run takes at most `fuel` steps, and exactly `fuel` when it runs out |
| Execution.RunEnds | 19/src/main.rs:130-143 | a halt comes after at least one step with the pointer at or past the length; a fault leaves a pointer outside the program |
| Execution.FuelIrrelevant | 19/src/main.rs:130-143 | a run that halted or faulted within a bound ends identically under any larger bound |
| Execution.StraightLineFrom | 19/src/main.rs:130-143 | from address k, a program that never writes the pointer register halts after exactly the remaining commands with the pointer at the length, and a smaller bound runs out |
| Execution.StraightLineHalts | 19/src/main.rs:130-143 | from pointer 0 such a program halts after exactly its length in steps; an empty program faults at the first fetch |
| Execution.SetiJump | 19/src/main.rs:133-141 | `seti t _ ip` jumps to t + 1, breaking exactly when t + 1 is past the end, and changes no other register |
| Execution.NegativePointerFaults | 19/src/main.rs:133-141 | a negative pointer passes the halting test and the next fetch faults |
| Execution.SingleJumpOutcomes | 19/src/main.rs:130-143 | `seti t 0 ip` alone halts after one step for 0 <= t < i32::MAX, loops forever for t = -1 and faults at the second fetch for t < -1 or t = i32::MAX |
| Execution.JumpToSelfLoops | 19/src/main.rs:130-143 | `seti -1 0 ip` never halts: every bound runs out |
| Execution.ThreeCommandsTrace | 19/src/main.rs:130-143 | a three-command program passes through the expected register snapshots and halts after three steps |
| Execution.SevenCommandsResult | 19/src/main.rs:130-143 | a program with a relative and an absolute jump halts after five steps with the expected registers, under any bound of at least five |
| Loader.Load | 19/src/main.rs:219-234 | loading succeeds exactly when there is one `#ip` line and yields its register and the other lines' commands in order; no directive and a second directive are reported as distinct errors |
| Loader.DirectivesGrow | 19/src/main.rs:221-229 | a prefix of the input never holds more `#ip` lines than the whole |
| Erosion.Region.SetGeologicIndex | 22/src/main.rs:44-54 | the region afterwards holds gi, an erosion level and a known type; for non-negative gi + depth the level lies in [0, 20182] |
| Erosion.SetGeologicIndexMeaning | 22/src/main.rs:44-54 | the result does not depend on the earlier region; the level is (gi + depth) mod 20183, and the type is Rocky, Wet or Narrow as the level is 0, 1 or 2 mod 3 |
| Erosion.NonNegativeSumsCanBeSet | 22/src/main.rs:46-53 | a non-negative gi + depth never reaches `unreachable!()`, and its level lies in [0, 20182] |
| Erosion.NegativeSumCannotBeSet | 22/src/main.rs:48-53 | gi + depth = -1 reaches `unreachable!()`; -3 gives Rocky |
| Erosion.NewRegion | 22/src/main.rs:22-42 | the x = 0 rule overrides the y = 0 rule, which overrides the origin/target rule; a cell with both coordinates non-zero that is not the target stays blank (Unknown) |
| Erosion.NewRegionConsistent | 22/src/main.rs:22-42 | every region `Region::new` builds has the erosion level and type its index gives |
| Cave.IndexBounds | 22/src/main.rs:106-112 | cell (x, y) of a width * rows grid lies at an index inside the vector |
| Cave.IndexInjective | 22/src/main.rs:106-112 | distinct cells occupy distinct indices x + width * y |
| Cave.IndexCovers | 22/src/main.rs:70-75 | every index of the vector is some cell's |
| Cave.FirstPass | 22/src/main.rs:70-75 | the first pass pushes exactly width * height regions, `Region::new(x, y)` at index x + width * y |
| Cave.InteriorStep | 22/src/main.rs:88-99 | when the pass reaches (x, y), both neighbours already have an erosion level (the `expect` never fails), and setting the product of those levels gives the cell's final region |
| Cave.CellAt | 22/src/main.rs:88-100 | a cell outside the interior keeps `Region::new`'s region; every cell other than an unreached corner has a level in [0, 20182] and a known type |
| Cave.CellAtConsistent | 22/src/main.rs:88-100 | every cell of the finished grid has the erosion level and type its index gives |
| Cave.NoUnknownWhenTargetIsCorner | 22/src/main.rs:161-161 | with the target at (width-1, height-1), as `main` places it, no cell is Unknown |
| Cave.CaveSystem.constructor | 22/src/main.rs:67-103 | builds a width * height grid whose every cell (x, y) is `CellAt(x, y)`; with the target at the far corner no region is Unknown |
| Cave.CaveSystem.FillColumn | 22/src/main.rs:89-99 | one column of the interior pass: starting with the cells of columns 1 to x - 1 in their final state and all others as first pushed, it leaves column x in its final state too |
| Cave.CaveSystem.Get | 22/src/main.rs:110-112 | `get(x, y)` is the region at index x + width * y |
| Cave.CaveSystem.SetGeologicIndexAt | 22/src/main.rs:106-108 | `get_mut_ref(x, y).set_geologic_index(gi)` changes the region at x + width * y and no other |
| Cave.CaveSystem.Display | 22/src/main.rs:115-132 | the picture has height lines of width + 1 characters, each ending in '\n', with the glyph of cell (j, r) at column j of line r |
| Cave.JoinLines | 22/src/main.rs:123-130 | the row loop appends each row of glyphs followed by '\n' |
| Cave.LinesShape | 22/src/main.rs:124-130 | the joined rows render the grid cell by cell |
| Cave.LinesAt | 22/src/main.rs:124-130 | character j of line r is the glyph of cell (j, r), or '\n' at j = width |
| Cave.LinesLength | 22/src/main.rs:124-130 | n joined rows are n * (width + 1) characters long |
| Cave.RiskLevel | 22/src/main.rs:164-169 | a known region's risk is 0, 1 or 2 |
| Cave.DangerIndex | 22/src/main.rs:164-169 | the danger index lies between 0 and twice the number of regions |
| Cave.DangerIndexCounts | 22/src/main.rs:164-169 | the danger index counts each Wet region once and each Narrow region twice |

## Left out

- File reading, `s_to_i`, `parse_command`'s split of a line, `main`'s recognition of `#ip` lines and of the `depth`/`target` lines, and every `println!`: these are input and output. `Loader.Load` receives lines already classified into directives and commands.
- The `Display` of `Registers` and `Processor`: it is output only.
- The `HashMap` of function references: dispatch is a match on a sixteen-variant datatype, and the table is a pure map with lemmas tying it to the mnemonics. An opcode missing from the table (`expect("Unknown opcode")`) therefore cannot arise.
- An unknown mnemonic in `Command::new` reaches `unreachable!()`: `InstructionSet.NewCommand` returns `None` for it.
- Register numbers outside 0..5 reach `unreachable!()` in `read` and `write`. The processor methods require valid register numbers, and programs require well-formed commands (`Execution.ValidProgram`).
- Device.Processor.constructor: requires the `#ip` register to be in 0..5, where the source would panic at the first `ip()`.
- Release-build wrap-around is modelled for the machine's `+`, `*` and pointer increment; the panic a debug build raises on overflow is not.
- `commands.len() as i32` is modelled as the wrapped length (`Execution.LengthAsI32`).
- A fetch at a negative or too-large pointer (`commands[ip as usize]` panics) is modelled as the `Faulted` outcome of a run.
- Device.Processor.RunProgram: `run_program` has no step bound; the model runs at most `fuel` passes and reports `OutOfFuel` when the bound is reached, so runs that never halt appear only as exhausted bounds.
- Cave.CaveSystem.constructor: requires `Cave.GridDefined`: non-negative sizes and depth, (width - 1) * 16807 + depth and (height - 1) * 48271 + depth at most i32::MAX, and, for a grid at least 2 by 2, the worst-case interior sum 20182 * 20182 + depth at most i32::MAX, whatever the actual levels. Negative sizes, a negative depth (which can reach `unreachable!()`) and inputs outside these bounds are not modelled, even where the actual levels would not overflow.
- Cave.DangerIndex: the source sums in an `i32`; the model sums unbounded integers, which equal the source's sum whenever it does not overflow.
- The first, pushing pass of `CaveSystem::new` is the module method `Cave.FirstPass`; the inner loop of the interior pass (one column) is the method `Cave.CaveSystem.FillColumn`, while its outer loop over columns stays in the constructor. The loops are otherwise the source's.
