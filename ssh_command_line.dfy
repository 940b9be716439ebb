/**
 The shape of the `ssh` command line the deployer builds: an identity file, a list of
 `-o` options, a `user@host` target and one remote command. `Argv` lays an invocation
 out as an argument vector; `ParseArgv` reads back exactly the layout `Argv` produces.
 It is not `ssh`'s own option parser: it takes the last two arguments as the target and
 the command even when the target starts with `-`, which `ssh` would read as an option.
 */
module SshCommandLine {
  import opened Wrappers

  datatype Invocation = Invocation(identityFile: string, options: seq<string>, target: string, command: string)

  /** Each option becomes the pair `-o <option>`. */
  function OptionArgs(options: seq<string>): seq<string>
  {
    if options == [] then [] else ["-o", options[0]] + OptionArgs(options[1..])
  }

  function Argv(inv: Invocation): seq<string>
  {
    ["ssh", "-i", inv.identityFile] + OptionArgs(inv.options) + [inv.target, inv.command]
  }

  /** Takes `-o <option>` pairs from the front for as long as the target and the command are still left behind them. */
  function ParseOptions(args: seq<string>): (seq<string>, seq<string>)
  {
    if |args| >= 4 && args[0] == "-o" then
      var (options, rest) := ParseOptions(args[2..]);
      ([args[1]] + options, rest)
    else ([], args)
  }

  function ParseArgv(argv: seq<string>): Option<Invocation>
  {
    if |argv| >= 3 && argv[0] == "ssh" && argv[1] == "-i" then
      var (options, rest) := ParseOptions(argv[3..]);
      if |rest| == 2 then Some(Invocation(argv[2], options, rest[0], rest[1])) else None
    else None
  }

  lemma {:induction false} ParseOptionsInverse(options: seq<string>, last: seq<string>)
    requires |last| == 2
    ensures ParseOptions(OptionArgs(options) + last) == (options, last)
  {
    if options != [] {
      var args := OptionArgs(options) + last;
      assert args == ["-o", options[0]] + (OptionArgs(options[1..]) + last);
      assert args[2..] == OptionArgs(options[1..]) + last;
      ParseOptionsInverse(options[1..], last);
      assert |args| >= 4 && args[0] == "-o" && args[1] == options[0];
      assert [options[0]] + options[1..] == options;
      assert ParseOptions(args) == ([options[0]] + options[1..], last);
    } else {
      assert OptionArgs(options) + last == last;
    }
  }

  /** Reading back an argument vector recovers every part of the invocation it was laid out from. */
  lemma ArgvRoundTrip(inv: Invocation)
    ensures ParseArgv(Argv(inv)) == Some(inv)
  {
    var argv := Argv(inv);
    assert argv[3..] == OptionArgs(inv.options) + [inv.target, inv.command];
    ParseOptionsInverse(inv.options, [inv.target, inv.command]);
  }
}
