/**
 * The line loop of `main` in 19/src/main.rs: every `#ip` line sets the
 * pointer register, which may happen only once, and every other line is a
 * command appended to the program. Splitting the text and parsing numbers
 * happen before this model starts: each line arrives already classified.
 */
module Loader {
  import opened Wrappers
  import opened Word
  import opened InstructionSet

  datatype Line = IpDirective(register: Int32) | Instruction(command: Command)

  datatype LoadError =
    | DuplicateIpDirective  // the `assert!(ip_register == None)` fails
    | MissingIpDirective    // "Didn't find the instruction pointer register"

  datatype Loaded = Loaded(ipRegister: Int32, commands: seq<Command>)

  /** The number of `#ip` lines. */
  function Directives(lines: seq<Line>): nat {
    if lines == [] then 0
    else Directives(lines[..|lines| - 1]) + (if lines[|lines| - 1].IpDirective? then 1 else 0)
  }

  /** The commands of the non-directive lines, in order. */
  function Commands(lines: seq<Line>): seq<Command> {
    if lines == [] then []
    else
      Commands(lines[..|lines| - 1])
      + (if lines[|lines| - 1].Instruction? then [lines[|lines| - 1].command] else [])
  }

  /**
   * Runs the loop of `main` over the lines: succeeds exactly when there is one
   * `#ip` line, giving its register and all the other lines' commands in
   * order, and otherwise names which rule was broken.
   */
  method Load(lines: seq<Line>) returns (r: Result<Loaded, LoadError>)
    ensures r.Ok? <==> Directives(lines) == 1
    ensures r == Err(MissingIpDirective) <==> Directives(lines) == 0
    ensures r == Err(DuplicateIpDirective) <==> Directives(lines) >= 2
    ensures r.Ok? ==> IpDirective(r.value.ipRegister) in lines
                      && r.value.commands == Commands(lines)
  {
    var ipRegister: Option<Int32> := None;
    var commands: seq<Command> := [];
    var i := 0;
    while i < |lines|
      invariant 0 <= i <= |lines|
      invariant Directives(lines[..i]) <= 1
      invariant ipRegister.None? <==> Directives(lines[..i]) == 0
      invariant ipRegister.Some? ==> IpDirective(ipRegister.value) in lines[..i]
      invariant commands == Commands(lines[..i])
    {
      assert lines[..i + 1][..i] == lines[..i];
      if lines[i].IpDirective? {
        if ipRegister.Some? {
          DirectivesGrow(lines, i + 1);
          return Err(DuplicateIpDirective);
        }
        ipRegister := Some(lines[i].register);
      } else {
        commands := commands + [lines[i].command];
      }
      i := i + 1;
    }
    assert lines[..i] == lines;
    if ipRegister.None? {
      return Err(MissingIpDirective);
    }
    r := Ok(Loaded(ipRegister.value, commands));
  }

  /** A prefix never has more `#ip` lines than the whole. */
  lemma {:induction false} DirectivesGrow(lines: seq<Line>, k: nat)
    requires k <= |lines|
    ensures Directives(lines[..k]) <= Directives(lines)
    decreases |lines| - k
  {
    if k < |lines| {
      DirectivesGrow(lines, k + 1);
      assert lines[..k + 1][..k] == lines[..k];
    } else {
      assert lines[..k] == lines;
    }
  }
}
