/**
 * The command line each worker hands to the external `./imapsync` tool for
 * one job, and how an option reader of the Getopt kind, which gives every
 * value option the argument that follows it, reads that command line back.
 */
module Invocation {
  import opened Wrappers
  import opened Records

  /** The executable every worker runs. */
  const ImapsyncPath: string := "./imapsync"

  /** The arguments after the program name, for configuration `c` and job `m`. */
  function SyncArgs(c: Config, m: Mail): (args: seq<string>)
    ensures |args| == 15
  {
    ["--host1", c.source, "--user1", m.login1, "--password1", m.pass1,
     "--host2", c.destination, "--user2", m.login2, "--password2", m.pass2,
     "--nolog", "--errorsmax", c.errors]
  }

  /** The options a command line sets: a value per value option, and the switches given. */
  datatype Options = Options(values: map<string, string>, switches: set<string>)

  const ValueOptions: set<string> :=
    {"--host1", "--user1", "--password1", "--host2", "--user2", "--password2", "--errorsmax"}

  const SwitchOptions: set<string> := {"--nolog"}

  /**
   * Reads `args` left to right into `acc`: a switch stands alone, a value
   * option takes the next argument whatever it looks like (a later
   * occurrence overrides an earlier one); anything else, or a value option
   * with nothing after it, makes the command line unreadable.
   */
  function ReadOptions(args: seq<string>, acc: Options): Option<Options>
    decreases |args|
  {
    if args == [] then Some(acc)
    else if args[0] in SwitchOptions then
      ReadOptions(args[1..], acc.(switches := acc.switches + {args[0]}))
    else if args[0] in ValueOptions && |args| >= 2 then
      ReadOptions(args[2..], acc.(values := acc.values[args[0] := args[1]]))
    else None
  }

  lemma ReadValue(opt: string, value: string, rest: seq<string>, acc: Options)
    requires opt in ValueOptions
    ensures ReadOptions([opt, value] + rest, acc)
         == ReadOptions(rest, acc.(values := acc.values[opt := value]))
  {
    assert opt !in SwitchOptions;
    assert ([opt, value] + rest)[2..] == rest;
  }

  lemma ReadSwitch(opt: string, rest: seq<string>, acc: Options)
    requires opt in SwitchOptions
    ensures ReadOptions([opt] + rest, acc)
         == ReadOptions(rest, acc.(switches := acc.switches + {opt}))
  {
    assert ([opt] + rest)[1..] == rest;
  }

  /**
   * The command line carries the job's credentials and the configured hosts
   * and error limit each under its own option, whatever the strings are, and
   * switches logging off.
   */
  lemma SyncArgsRoundTrip(c: Config, m: Mail)
    ensures ReadOptions(SyncArgs(c, m), Options(map[], {}))
         == Some(Options(
              map["--host1" := c.source, "--user1" := m.login1, "--password1" := m.pass1,
                  "--host2" := c.destination, "--user2" := m.login2, "--password2" := m.pass2,
                  "--errorsmax" := c.errors],
              {"--nolog"}))
  {
    var args := SyncArgs(c, m);
    var v1 := map["--host1" := c.source];
    var v2 := v1["--user1" := m.login1];
    var v3 := v2["--password1" := m.pass1];
    var v4 := v3["--host2" := c.destination];
    var v5 := v4["--user2" := m.login2];
    var v6 := v5["--password2" := m.pass2];
    var v7 := v6["--errorsmax" := c.errors];
    calc {
      ReadOptions(args, Options(map[], {}));
    == { assert args == ["--host1", c.source] + args[2..];
         ReadValue("--host1", c.source, args[2..], Options(map[], {})); }
      ReadOptions(args[2..], Options(v1, {}));
    == { assert args[2..] == ["--user1", m.login1] + args[4..];
         ReadValue("--user1", m.login1, args[4..], Options(v1, {})); }
      ReadOptions(args[4..], Options(v2, {}));
    == { assert args[4..] == ["--password1", m.pass1] + args[6..];
         ReadValue("--password1", m.pass1, args[6..], Options(v2, {})); }
      ReadOptions(args[6..], Options(v3, {}));
    == { assert args[6..] == ["--host2", c.destination] + args[8..];
         ReadValue("--host2", c.destination, args[8..], Options(v3, {})); }
      ReadOptions(args[8..], Options(v4, {}));
    == { assert args[8..] == ["--user2", m.login2] + args[10..];
         ReadValue("--user2", m.login2, args[10..], Options(v4, {})); }
      ReadOptions(args[10..], Options(v5, {}));
    == { assert args[10..] == ["--password2", m.pass2] + args[12..];
         ReadValue("--password2", m.pass2, args[12..], Options(v5, {})); }
      ReadOptions(args[12..], Options(v6, {}));
    == { assert args[12..] == ["--nolog"] + args[13..];
         ReadSwitch("--nolog", args[13..], Options(v6, {}));
         assert {} + {"--nolog"} == {"--nolog"}; }
      ReadOptions(args[13..], Options(v6, {"--nolog"}));
    == { assert args[13..] == ["--errorsmax", c.errors] + [];
         ReadValue("--errorsmax", c.errors, [], Options(v6, {"--nolog"})); }
      ReadOptions([], Options(v7, {"--nolog"}));
    ==
      Some(Options(v7, {"--nolog"}));
    }
  }
}
