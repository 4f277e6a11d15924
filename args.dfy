/** The command line: COM_InitArgv, which rebuilds the `cmdline` text,
    copies the arguments into `largv` (adding the safe-mode switches for
    `-safe`) and sets the mission-pack flags, and COM_CheckParm. */
module Args {

  const MAX_NUM_ARGVS: nat := 50
  const NUM_SAFE_ARGVS: nat := 5
  /** The size of `com_cmdline`, terminator included. */
  const CMDLINE_LENGTH: nat := 256

  const SafeArgs: seq<string> := ["-nolan", "-nosound", "-nocdaudio", "-nojoy", "-nomouse"]

  function Min(a: nat, b: nat): nat { if a < b then a else b }

  /** Every argument followed by one space. */
  function Joined(args: seq<string>): (j: string)
    ensures |args| > 0 ==> |j| > 0 && j[|j| - 1] == ' '
  {
    if args == [] then [] else Joined(args[..|args| - 1]) + args[|args| - 1] + " "
  }

  /** The arguments separated by single spaces. */
  function Spaced(args: seq<string>): string
    requires args != []
  {
    if |args| == 1 then args[0] else args[0] + " " + Spaced(args[1..])
  }

  function Take(s: string, n: nat): (t: string)
    ensures |t| == Min(|s|, n) && t == s[..|t|]
  {
    if |s| <= n then s else s[..n]
  }

  /** The `cmdline` text: the first MAX_NUM_ARGVS arguments, each followed
      by a space, cut to CMDLINE_LENGTH - 1 characters, without a final
      space. */
  function CmdLineOf(args: seq<string>): string
  {
    var t := Take(Joined(args[..Min(|args|, MAX_NUM_ARGVS)]), CMDLINE_LENGTH - 1);
    if |t| > 0 && t[|t| - 1] == ' ' then t[..|t| - 1] else t
  }

  /** `largv[..com_argc]`: the first MAX_NUM_ARGVS arguments, then the safe
      switches when one of those arguments is "-safe". */
  function LargvOf(args: seq<string>): seq<string>
  {
    var kept := args[..Min(|args|, MAX_NUM_ARGVS)];
    if "-safe" in kept then kept + SafeArgs else kept
  }

  /** COM_CheckParm over `argv`: the first index from 1 whose argument is
      `parm`, or 0. */
  function CheckParmOf(argv: seq<string>, parm: string): (i: nat)
    ensures i < |argv| || i == 0
    ensures i > 0 ==> argv[i] == parm && forall k :: 1 <= k < i ==> argv[k] != parm
    ensures i == 0 ==> forall k :: 1 <= k < |argv| ==> argv[k] != parm
  {
    CheckParmFrom(argv, parm, 1)
  }

  function CheckParmFrom(argv: seq<string>, parm: string, from: nat): (i: nat)
    requires from >= 1
    ensures i == 0 || from <= i < |argv|
    ensures i > 0 ==> argv[i] == parm && forall k :: from <= k < i ==> argv[k] != parm
    ensures i == 0 ==> forall k :: from <= k < |argv| ==> argv[k] != parm
    decreases |argv| - from
  {
    if from >= |argv| then 0
    else if argv[from] == parm then from
    else CheckParmFrom(argv, parm, from + 1)
  }

  /** COM_CheckParm, with its loop. */
  method CheckParm(argv: seq<string>, parm: string) returns (i: nat)
    ensures i == CheckParmOf(argv, parm)
  {
    i := 1;
    while i < |argv|
      invariant 1 <= i
      invariant CheckParmFrom(argv, parm, i) == CheckParmOf(argv, parm)
      decreases |argv| - i
    {
      if argv[i] == parm {
        return;
      }
      i := i + 1;
    }
    return 0;
  }

  /** The mission-pack flags COM_InitArgv sets. */
  datatype Flags = Flags(rogue: bool, hipnotic: bool, quoth: bool, nehahra: bool, standardQuake: bool)

  /** The flags' initial values: only `standard_quake` is set. */
  const InitialFlags: Flags := Flags(false, false, false, false, true)

  function FlagsOf(argv: seq<string>): Flags
  {
    var rogue := CheckParmOf(argv, "-rogue") != 0;
    var hipnotic := CheckParmOf(argv, "-hipnotic") != 0 || CheckParmOf(argv, "-quoth") != 0;
    Flags(rogue, hipnotic, CheckParmOf(argv, "-quoth") != 0, CheckParmOf(argv, "-nehahra") != 0,
          !rogue && !hipnotic)
  }

  // ---------------------------------------------------------------------
  // Properties

  lemma {:induction false} JoinedLength(args: seq<string>)
    ensures |Joined(args)| >= |args|
    decreases |args|
  {
    if args != [] {
      JoinedLength(args[..|args| - 1]);
    }
  }

  /** A shorter argument list gives a prefix of the joined text. */
  lemma {:induction false} JoinedPrefix(args: seq<string>, k: nat)
    requires k <= |args|
    ensures Joined(args[..k]) <= Joined(args)
    decreases |args| - k
  {
    if k < |args| {
      var m := |args| - 1;
      assert args[..m][..k] == args[..k];
      JoinedPrefix(args[..m], k);
      assert args[..|args|][..m] == args[..m];
    } else {
      assert args[..k] == args;
    }
  }

  /** The joined text read the other way: the first argument comes first. */
  lemma {:induction false} JoinedFront(args: seq<string>)
    requires args != []
    ensures Joined(args) == args[0] + " " + Joined(args[1..])
    decreases |args|
  {
    if |args| > 1 {
      var m := |args| - 1;
      var init := args[..m];
      var tail := args[1..];
      JoinedFront(init);
      assert init[1..] == tail[..|tail| - 1];
      assert init[0] == args[0] && tail[|tail| - 1] == args[m];
      calc {
        Joined(args);
        Joined(init) + args[m] + " ";
        args[0] + " " + Joined(init[1..]) + args[m] + " ";
        args[0] + " " + (Joined(tail[..|tail| - 1]) + tail[|tail| - 1] + " ");
        args[0] + " " + Joined(tail);
      }
    } else {
      assert args[..0] == [];
    }
  }

  /** Without truncation the joined text is the spaced text plus one space. */
  lemma {:induction false} JoinedIsSpaced(args: seq<string>)
    requires args != []
    ensures Joined(args) == Spaced(args) + " "
    decreases |args|
  {
    JoinedFront(args);
    if |args| > 1 {
      JoinedIsSpaced(args[1..]);
    } else {
      assert args[1..] == [];
    }
  }

  /** The command line never fills the buffer's last byte. */
  lemma CmdLineFits(args: seq<string>)
    ensures |CmdLineOf(args)| <= CMDLINE_LENGTH - 1
  {
  }

  /** When the arguments fit and the last one does not end in a space, the
      command line is exactly the arguments separated by single spaces. */
  lemma {:induction false} CmdLineOfShortArgs(args: seq<string>)
    requires 0 < |args| <= MAX_NUM_ARGVS
    requires |Joined(args)| <= CMDLINE_LENGTH - 1
    requires |args[|args| - 1]| > 0 && args[|args| - 1][|args[|args| - 1]| - 1] != ' '
    ensures CmdLineOf(args) == Spaced(args)
  {
    assert args[..Min(|args|, MAX_NUM_ARGVS)] == args;
    JoinedIsSpaced(args);
    var j := Joined(args);
    assert j[..|j| - 1] == Spaced(args);
  }

  /** `largv` holds at most MAX_NUM_ARGVS + NUM_SAFE_ARGVS entries, so the
      slot for the trailing dummy argument is always there; with "-safe"
      every safe switch is present. */
  lemma LargvBounds(args: seq<string>)
    ensures |LargvOf(args)| <= MAX_NUM_ARGVS + NUM_SAFE_ARGVS
    ensures "-safe" in args[..Min(|args|, MAX_NUM_ARGVS)] ==>
      forall s :: s in SafeArgs ==> CheckParmOf(LargvOf(args), s) != 0
  {
    var kept := args[..Min(|args|, MAX_NUM_ARGVS)];
    if "-safe" in kept {
      var l := LargvOf(args);
      forall s | s in SafeArgs ensures CheckParmOf(l, s) != 0 {
        var k :| 0 <= k < 5 && SafeArgs[k] == s;
        assert l[|kept| + k] == s;
        assert |kept| + k >= 1 by {
          var t :| 0 <= t < |kept| && kept[t] == "-safe";
        }
      }
    }
  }

  /** `-quoth` implies the hipnotic flag, and any mission pack clears
      `standard_quake`. */
  lemma FlagsRelations(argv: seq<string>)
    ensures FlagsOf(argv).quoth ==> FlagsOf(argv).hipnotic
    ensures FlagsOf(argv).standardQuake <==> !FlagsOf(argv).rogue && !FlagsOf(argv).hipnotic
    ensures FlagsOf(argv).standardQuake <==>
      forall k :: 1 <= k < |argv| ==> argv[k] != "-rogue" && argv[k] != "-hipnotic" && argv[k] != "-quoth"
  {
  }

  // ---------------------------------------------------------------------
  // The state COM_InitArgv fills

  class CommandLine {
    /** `com_cmdline`, a zero-initialised global buffer. */
    const cmdline: array<char>
    var cmdlen: nat
    /** `com_argv[..com_argc]`. */
    var argv: seq<string>
    var flags: Flags

    constructor ()
      ensures cmdline.Length == CMDLINE_LENGTH && fresh(cmdline)
      ensures forall i :: 0 <= i < cmdline.Length ==> cmdline[i] == '\0'
      ensures cmdlen == 0 && argv == []
      ensures flags == InitialFlags
    {
      cmdline := new char[CMDLINE_LENGTH](_ => '\0');
      cmdlen := 0;
      argv := [];
      flags := InitialFlags;
    }

    /** The text in `com_cmdline`: the bytes before its first 0. */
    ghost function CmdLine(): string
      reads this, cmdline
      requires cmdlen < cmdline.Length
    {
      cmdline[..cmdlen]
    }

    /** COM_InitArgv.  It runs once at start-up, on the zeroed buffer. */
    method InitArgv(args: seq<string>)
      requires cmdline.Length == CMDLINE_LENGTH
      requires forall i :: 0 <= i < cmdline.Length ==> cmdline[i] == '\0'
      requires flags == InitialFlags
      modifies this, cmdline
      ensures cmdlen < cmdline.Length && cmdline[cmdlen] == '\0'
      ensures CmdLine() == CmdLineOf(args)
      ensures argv == LargvOf(args)
      ensures flags == FlagsOf(LargvOf(args))
    {
      FillCmdLine(args);
      argv := CopyArgs(args);
      var rogue := CheckParm(argv, "-rogue");
      var hipnotic := CheckParm(argv, "-hipnotic");
      var quoth := CheckParm(argv, "-quoth");
      var nehahra := CheckParm(argv, "-nehahra");
      if rogue != 0 {
        flags := flags.(rogue := true, standardQuake := false);
      }
      if hipnotic != 0 || quoth != 0 {
        flags := flags.(hipnotic := true, standardQuake := false);
      }
      if quoth != 0 {
        flags := flags.(quoth := true);
      }
      if nehahra != 0 {
        flags := flags.(nehahra := true);
      }
    }

    /** The first part of COM_InitArgv: rebuild the command line text. */
    method FillCmdLine(args: seq<string>)
      requires cmdline.Length == CMDLINE_LENGTH
      requires forall i :: 0 <= i < cmdline.Length ==> cmdline[i] == '\0'
      modifies this`cmdlen, cmdline
      ensures cmdlen < cmdline.Length && cmdline[cmdlen] == '\0'
      ensures CmdLine() == CmdLineOf(args)
    {
      var n: nat := 0;
      var j := 0;
      var limit := Min(|args|, MAX_NUM_ARGVS);
      ghost var whole := Joined(args[..limit]);
      while j < limit
        invariant j <= limit && n <= CMDLINE_LENGTH - 1
        invariant n == |Joined(args[..j])| && cmdline[..n] == Joined(args[..j])
        invariant forall k :: n <= k < cmdline.Length ==> cmdline[k] == '\0'
      {
        var full;
        n, full := PutArg(args, limit, j, n, whole);
        if full {
          break;
        }
        j := j + 1;
      }
      if j == limit {
        assert args[..j] == args[..limit];
      }
      assert cmdline[..n] == Take(whole, CMDLINE_LENGTH - 1);
      DropTrailingSpace(n);
    }

    /** One turn of the command-line loop: copy `args[j]` and its space
        after the text so far, or stop when the buffer fills. */
    method PutArg(args: seq<string>, limit: nat, j: nat, n0: nat, ghost whole: string) returns (n: nat, full: bool)
      requires cmdline.Length == CMDLINE_LENGTH && j < limit <= |args| && whole == Joined(args[..limit])
      requires n0 <= CMDLINE_LENGTH - 1 && n0 == |Joined(args[..j])| && cmdline[..n0] == Joined(args[..j])
      requires forall k :: n0 <= k < cmdline.Length ==> cmdline[k] == '\0'
      modifies cmdline
      ensures n <= CMDLINE_LENGTH - 1
      ensures forall k :: n <= k < cmdline.Length ==> cmdline[k] == '\0'
      ensures !full ==> n == |Joined(args[..j + 1])| && cmdline[..n] == Joined(args[..j + 1])
      ensures full ==> cmdline[..n] == Take(whole, CMDLINE_LENGTH - 1)
    {
      var copied;
      n, copied := AppendArg(args[j], n0);
      JoinedStep(args, limit, j);
      if n < CMDLINE_LENGTH - 1 {
        assert copied == |args[j]| && args[j][..copied] == args[j];
        cmdline[n] := ' ';
        n := n + 1;
        assert cmdline[..n] == Joined(args[..j + 1]);
        full := false;
      } else {
        PrefixTake(cmdline[..n], Joined(args[..j + 1]), whole);
        full := true;
      }
    }

    /** The end of the command-line text: a final space becomes the
        terminator. */
    method DropTrailingSpace(n: nat)
      requires cmdline.Length == CMDLINE_LENGTH && n < CMDLINE_LENGTH && cmdline[n] == '\0'
      modifies this`cmdlen, cmdline
      ensures cmdlen < cmdline.Length && cmdline[cmdlen] == '\0'
      ensures var t := old(cmdline[..n]);
        CmdLine() == if |t| > 0 && t[|t| - 1] == ' ' then t[..|t| - 1] else t
    {
      cmdlen := n;
      if n > 0 && cmdline[n - 1] == ' ' {
        cmdline[n - 1] := '\0';
        cmdlen := n - 1;
      }
    }

    /** The inner loop of COM_InitArgv: copy one argument while there is
        room before the buffer's last byte. */
    method AppendArg(a: string, n0: nat) returns (n: nat, copied: nat)
      requires cmdline.Length == CMDLINE_LENGTH && n0 <= CMDLINE_LENGTH - 1
      modifies cmdline
      ensures copied == Min(|a|, CMDLINE_LENGTH - 1 - n0) && n == n0 + copied
      ensures cmdline[..n] == old(cmdline[..n0]) + a[..copied]
      ensures forall k :: n <= k < cmdline.Length ==> cmdline[k] == old(cmdline[k])
    {
      n := n0;
      copied := 0;
      while n < CMDLINE_LENGTH - 1 && copied < |a|
        invariant copied <= |a| && n == n0 + copied && n <= CMDLINE_LENGTH - 1
        invariant cmdline[..n] == old(cmdline[..n0]) + a[..copied]
        invariant forall k :: n <= k < cmdline.Length ==> cmdline[k] == old(cmdline[k])
      {
        cmdline[n] := a[copied];
        n := n + 1;
        copied := copied + 1;
        assert a[..copied] == a[..copied - 1] + [a[copied - 1]];
      }
    }
  }

  /** One step of the command-line loop: the text so far, the next argument
      and its space are a prefix of the whole joined text. */
  lemma PrefixTake(t: string, u: string, whole: string)
    requires |t| == CMDLINE_LENGTH - 1 && t <= u && u <= whole
    ensures Take(whole, CMDLINE_LENGTH - 1) == t
  {
  }

  lemma JoinedStep(args: seq<string>, limit: nat, j: nat)
    requires j < limit <= |args|
    ensures Joined(args[..j + 1]) == Joined(args[..j]) + args[j] + " "
    ensures Joined(args[..j + 1]) <= Joined(args[..limit])
  {
    assert args[..j + 1][..j] == args[..j];
    JoinedPrefix(args[..limit], j + 1);
    assert args[..limit][..j + 1] == args[..j + 1];
  }

  /** The second part of COM_InitArgv: fill `largv`. */
  method CopyArgs(args: seq<string>) returns (largv: seq<string>)
    ensures largv == LargvOf(args)
  {
    var limit := Min(|args|, MAX_NUM_ARGVS);
    largv := [];
    var safe := false;
    while |largv| < limit
      invariant |largv| <= limit && largv == args[..|largv|]
      invariant safe <==> "-safe" in largv
    {
      largv := largv + [args[|largv|]];
      if args[|largv| - 1] == "-safe" {
        safe := true;
      }
    }
    if safe {
      var i := 0;
      while i < NUM_SAFE_ARGVS
        invariant i <= NUM_SAFE_ARGVS
        invariant largv == args[..limit] + SafeArgs[..i]
      {
        largv := largv + [SafeArgs[i]];
        i := i + 1;
      }
    }
  }
}
