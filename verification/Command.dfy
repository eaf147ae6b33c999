/** From a command line to the arguments the program sees: `execute` splits the command, keeps
    the arguments in the new control block, and `getargs` hands them over once. */
module Command {
  import opened Prelude
  import opened CStrings

  const MAX_ARGS := 128

  /** Where the program name ends: at the first blank, or after 32 bytes. */
  function NameEnd(cmd: seq<byte>): (k: nat)
    ensures k <= |cmd| && k <= NAME_LEN && SPACE !in cmd[..k]
    ensures k < |cmd| && k < NAME_LEN ==> cmd[k] == SPACE
  {
    NameEndFrom(cmd, 0)
  }

  function NameEndFrom(cmd: seq<byte>, i: nat): (k: nat)
    requires i <= |cmd| && i <= NAME_LEN && SPACE !in cmd[..i]
    ensures i <= k <= |cmd| && k <= NAME_LEN && SPACE !in cmd[..k]
    ensures k < |cmd| && k < NAME_LEN ==> cmd[k] == SPACE
    decreases |cmd| - i
  {
    if i == |cmd| || i == NAME_LEN || cmd[i] == SPACE then i else NameEndFrom(cmd, i + 1)
  }

  lemma {:induction false} NameEndIs(cmd: seq<byte>, i: nat, k: nat)
    requires i <= k <= |cmd| && k <= NAME_LEN && SPACE !in cmd[..i] && SPACE !in cmd[..k]
    requires k == |cmd| || k == NAME_LEN || cmd[k] == SPACE
    ensures NameEndFrom(cmd, i) == k
    decreases k - i
  {
    if i < k {
      assert cmd[..k][i] == cmd[i] && cmd[..i + 1] == cmd[..i] + [cmd[i]];
      NameEndIs(cmd, i + 1, k);
    }
  }

  /** Program name and arguments of a command line. */
  function Split(cmd: seq<byte>): (seq<byte>, seq<byte>) {
    var k := NameEnd(cmd);
    (cmd[..k], if k < |cmd| && k < NAME_LEN then cmd[k + 1..] else [])
  }

  /** A name and its arguments come back from the command line made of them exactly when the name
      has at most 31 bytes: a 32-byte name swallows the blank after it. */
  lemma SplitUndoesJoinIff(name: seq<byte>, args: seq<byte>)
    requires SPACE !in name && args != []
    ensures Split(name + [SPACE] + args) == (name, args) <==> |name| <= 31
  {
    var cmd := name + [SPACE] + args;
    if |name| <= NAME_LEN {
      assert cmd[..|name|] == name && cmd[|name| + 1..] == args;
      NameEndIs(cmd, 0, |name|);
    } else {
      assert cmd[..NAME_LEN] == name[..NAME_LEN];
      NameEndIs(cmd, 0, NAME_LEN);
    }
  }

  /** Such a name and the arguments it loses. */
  lemma LongNameLosesArguments() returns (name: seq<byte>, args: seq<byte>)
    ensures |name| == 32 && SPACE !in name && args != []
    ensures Split(name + [SPACE] + args) == (name, [])
  {
    name, args := seq(NAME_LEN, _ => 97), [98];
    var cmd := name + [SPACE] + args;
    assert cmd[..NAME_LEN] == name;
    NameEndIs(cmd, 0, NAME_LEN);
  }

  /** How far the parsing loop has got: `parse` bytes of the command are dealt with. */
  ghost predicate Parsed(cmd: seq<byte>, parse: nat, start: nat, inArgs: bool, filename: seq<byte>,
                         arguments: seq<byte>)
    requires |filename| == NAME_LEN + 1 && |arguments| == MAX_ARGS
  {
    var k := NameEnd(cmd);
    && parse <= |cmd|
    && (!inArgs ==> parse <= k && start == 0 && filename[..parse] == cmd[..parse] && arguments[0] == NUL)
    && (inArgs ==> && k < |cmd| && k < NAME_LEN && start == k + 1 <= parse
                   && filename[..k] == cmd[..k] && filename[k] == NUL
                   && parse - start < MAX_ARGS && arguments[..parse - start] == cmd[start..parse])
  }

  lemma ParsedCommand(cmd: seq<byte>, parse: nat, start: nat, inArgs: bool, filename: seq<byte>, arguments: seq<byte>)
    requires |filename| == NAME_LEN + 1 && |arguments| == MAX_ARGS && NUL !in cmd
    requires Parsed(cmd, parse, start, inArgs, filename, arguments)
    requires parse == |cmd| || (parse == NAME_LEN && !inArgs)
    requires inArgs ==> arguments[parse - start] == NUL
    requires !inArgs ==> filename[parse] == NUL
    ensures Terminated(filename) && Terminated(arguments)
    ensures (CStr(filename), CStr(arguments)) == Split(cmd)
  {
    var k := NameEnd(cmd);
    CStrIs(filename, k);
    CStrIs(arguments, if inArgs then parse - start else 0);
    if inArgs { assert cmd[start..parse] == cmd[k + 1..]; }
  }

  lemma ParsedNameByte(cmd: seq<byte>, parse: nat, filename: seq<byte>, arguments: seq<byte>)
    requires |filename| == NAME_LEN + 1 && |arguments| == MAX_ARGS
    requires Parsed(cmd, parse, 0, false, filename, arguments)
    requires parse < |cmd| && parse < NAME_LEN && cmd[parse] != SPACE
    ensures Parsed(cmd, parse + 1, 0, false, filename[parse := cmd[parse]], arguments)
  {
    assert cmd[..parse + 1] == cmd[..parse] + [cmd[parse]];
    assert filename[parse := cmd[parse]][..parse + 1] == filename[..parse] + [cmd[parse]];
  }

  lemma ParsedBlank(cmd: seq<byte>, parse: nat, filename: seq<byte>, arguments: seq<byte>)
    requires |filename| == NAME_LEN + 1 && |arguments| == MAX_ARGS
    requires Parsed(cmd, parse, 0, false, filename, arguments)
    requires parse < |cmd| && parse < NAME_LEN && cmd[parse] == SPACE
    ensures Parsed(cmd, parse + 1, parse + 1, true, filename[parse := NUL], arguments)
  {
    NameEndIs(cmd, 0, parse);
    assert filename[parse := NUL][..parse] == filename[..parse];
  }

  lemma ParsedArgByte(cmd: seq<byte>, parse: nat, start: nat, filename: seq<byte>, arguments: seq<byte>)
    requires |filename| == NAME_LEN + 1 && |arguments| == MAX_ARGS && |Split(cmd).1| < MAX_ARGS
    requires Parsed(cmd, parse, start, true, filename, arguments) && parse < |cmd|
    ensures Parsed(cmd, parse + 1, start, true, filename, arguments[parse - start := cmd[parse]])
  {
    var n := parse - start;
    assert cmd[start..parse + 1] == cmd[start..parse] + [cmd[parse]];
    assert arguments[n := cmd[parse]][..n + 1] == arguments[..n] + [cmd[parse]];
  }

  /** The parsing loop of `execute`; the arguments must fit the array it fills. */
  method ParseCommand(command: array<byte>, filename: array<byte>, arguments: array<byte>)
    requires Terminated(command[..]) && |Split(CStr(command[..])).1| < MAX_ARGS
    requires filename.Length == NAME_LEN + 1 && arguments.Length == MAX_ARGS
    requires filename != arguments && command != filename && command != arguments
    modifies filename, arguments
    ensures Terminated(filename[..]) && Terminated(arguments[..])
    ensures (CStr(filename[..]), CStr(arguments[..])) == Split(CStr(command[..]))
  {
    ghost var cmd := CStr(command[..]);
    var parse, start: nat := 0, 0;
    var inArgs := false;
    arguments[0] := NUL;
    while command[parse] != NUL
      invariant Parsed(cmd, parse, start, inArgs, filename[..], arguments[..])
      invariant !inArgs ==> parse < NAME_LEN
      decreases |cmd| - parse
    {
      Continues(command[..], parse);
      var c := command[parse];
      if c == SPACE && !inArgs {
        ParsedBlank(cmd, parse, filename[..], arguments[..]);
        inArgs := true;
        filename[parse] := NUL;
        parse := parse + 1;
        start := parse;
        continue;
      }
      if inArgs {
        ParsedArgByte(cmd, parse, start, filename[..], arguments[..]);
        arguments[parse - start] := c;
      } else {
        ParsedNameByte(cmd, parse, filename[..], arguments[..]);
        filename[parse] := c;
      }
      parse := parse + 1;
      if parse == NAME_LEN && !inArgs { break; }
    }
    if command[parse] == NUL { Ends(command[..], parse); }
    FinishParse(cmd, parse, start, inArgs, filename, arguments);
  }

  /** The terminators written after the loop. */
  method FinishParse(ghost cmd: seq<byte>, parse: nat, start: nat, inArgs: bool, filename: array<byte>,
                     arguments: array<byte>)
    requires filename.Length == NAME_LEN + 1 && arguments.Length == MAX_ARGS && filename != arguments && NUL !in cmd
    requires Parsed(cmd, parse, start, inArgs, filename[..], arguments[..])
    requires parse == |cmd| || (parse == NAME_LEN && !inArgs)
    modifies filename, arguments
    ensures Terminated(filename[..]) && Terminated(arguments[..])
    ensures (CStr(filename[..]), CStr(arguments[..])) == Split(cmd)
  {
    ghost var f, a := filename[..], arguments[..];
    if !inArgs {
      filename[parse] := NUL;
      assert filename[..][..parse] == f[..parse];
    }
    arguments[parse - start] := NUL;
    assert arguments[..][..parse - start] == a[..parse - start];
    ParsedCommand(cmd, parse, start, inArgs, filename[..], arguments[..]);
  }

  // ---------- arguments in the control block ----------

  class ArgumentArea {
    const args: array<byte>   // args_array of one pcb

    ghost predicate Valid()
      reads this, args
    {
      args.Length == MAX_ARGS && Terminated(args[..])
    }

    /** What `getargs` has left to hand over. */
    ghost function Pending(): seq<byte>
      reads this, args
    {
      CStr(args[..])
    }

    constructor ()
      ensures Valid() && Pending() == [] && fresh(args)
    {
      args := new byte[MAX_ARGS](_ => NUL);
      new;
      CStrIs(args[..], 0);
    }

    method Clear()
      requires args.Length == MAX_ARGS
      modifies args
      ensures Valid() && Pending() == [] && forall k :: 0 <= k < MAX_ARGS ==> args[k] == NUL
    {
      for i := 0 to MAX_ARGS
        invariant forall k :: 0 <= k < i ==> args[k] == NUL
      {
        args[i] := NUL;
      }
      CStrIs(args[..], 0);
    }

    /** The copying loop of `execute`, into an area that `create_pcb` has zeroed. */
    method Store(arguments: array<byte>)
      requires args.Length == MAX_ARGS && arguments != args
      requires Terminated(arguments[..]) && arguments.Length == MAX_ARGS
      modifies args
      ensures Valid() && Pending() == CStr(arguments[..])
    {
      Clear();
      ghost var text := CStr(arguments[..]);
      var i := 0;
      while arguments[i] != NUL
        invariant i <= |text| && args[..i] == text[..i]
        invariant forall k :: i <= k < MAX_ARGS ==> args[k] == NUL
        decreases |text| - i
      {
        Continues(arguments[..], i);
        args[i] := arguments[i];
        i := i + 1;
      }
      Ends(arguments[..], i);
      CStrIs(args[..], i);
    }

    /** `getargs`.  Without room for the terminator it looks one byte behind its share of the buffer,
        and whether it succeeds depends on what stands there. */
    method GetArgs(buf: array<byte>, nbytes: int) returns (r: int)
      requires Valid() && nbytes <= buf.Length && buf != args
      requires 1 <= nbytes <= |Pending()| ==> nbytes < buf.Length
      modifies buf, args
      ensures Valid()
      ensures var text := old(Pending());
              if text == [] || nbytes < 1 then r == -1 && Pending() == text && buf[..] == old(buf[..])
              else if |text| < nbytes then r == 0 && Terminated(buf[..]) && CStr(buf[..]) == text && Pending() == []
              else && buf[..nbytes] == text[..nbytes] && buf[nbytes..] == old(buf[nbytes..])
                   && if buf[nbytes] == NUL then r == 0 && Pending() == [] else r == -1 && Pending() == text
    {
      ghost var text := Pending();
      if args[0] == NUL || nbytes < 1 {
        if args[0] == NUL { CStrIs(args[..], 0); }
        return -1;
      }
      var i := 0;
      while i < nbytes
        invariant 0 <= i <= nbytes && i <= |text| && buf[..i] == text[..i]
        invariant forall k :: i <= k < buf.Length ==> buf[k] == old(buf[k])
        modifies buf
        decreases nbytes - i
      {
        if args[i] == NUL {
          buf[i] := NUL;
          break;
        }
        Continues(args[..], i);
        buf[i] := args[i];
        i := i + 1;
      }
      if i < nbytes {
        Ends(args[..], i);
        CStrIs(buf[..], i);
      }
      if buf[i] != NUL { return -1; }
      Clear();
      return 0;
    }
  }

  /** Arguments are handed over once. */
  method FetchTwice(area: ArgumentArea, buf: array<byte>, ghost args: seq<byte>)
      returns (first: int, second: int, kept: seq<byte>)
    requires area.Valid() && area.Pending() == args != [] && |args| < buf.Length && buf != area.args
    modifies buf, area.args
    ensures first == 0 && Terminated(kept) && CStr(kept) == args && second == -1
  {
    first := area.GetArgs(buf, buf.Length);
    kept := buf[..];
    second := area.GetArgs(buf, buf.Length);
  }

  /** Parse, store, fetch: the child gets back exactly the arguments it was started with, once. */
  method RoundTrip(command: array<byte>, ghost name: seq<byte>, ghost args: seq<byte>, buf: array<byte>)
      returns (filename: array<byte>, first: int, second: int, kept: seq<byte>)
    requires Terminated(command[..]) && CStr(command[..]) == name + [SPACE] + args
    requires SPACE !in name && |name| < NAME_LEN && args != [] && |args| < MAX_ARGS && |args| < buf.Length
    modifies buf
    ensures Terminated(filename[..]) && CStr(filename[..]) == name
    ensures first == 0 && Terminated(kept) && CStr(kept) == args && second == -1
  {
    filename := new byte[NAME_LEN + 1];
    var arguments := new byte[MAX_ARGS];
    SplitUndoesJoinIff(name, args);
    ParseCommand(command, filename, arguments);
    var area := new ArgumentArea();
    area.Store(arguments);
    first, second, kept := FetchTwice(area, buf, args);
  }
}
