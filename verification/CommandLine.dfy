/**
  Finding the operand of a command line and fencing off the remote command
  (crates/qsh-cli/src/cli.rs, `operand_from`, `first_operand`,
  `normalize_args`, `is_root_form_usage_error`). The names of the subcommands
  are a parameter; arguments are strings.
 */
module CommandLine {
  import opened Options

  const ROOT_VALUE_SHORTS: string := "LRDlpiFoJEeSOwbBcmQW"
  const ROOT_VALUE_LONGS: seq<string> := ["--escape-char", "--screen-sync", "--predict", "--status-line"]

  // ---- What one word is ----

  /** An option may take the following word as its value. */
  datatype Word = Terminator | Opt(takesNext: bool) | Operand

  predicate StartsWith(s: string, prefix: string) { prefix <= s }

  /** The part of a long option before any `=`. */
  function UpToEquals(s: string): string {
    if s == "" || s[0] == '=' then "" else [s[0]] + UpToEquals(s[1..])
  }

  /** In a cluster of short options the first one that takes a value ends the cluster. */
  predicate ClusterTakesNext(cluster: string) {
    && cluster != "" && cluster[|cluster| - 1] in ROOT_VALUE_SHORTS
    && forall i | 0 <= i < |cluster| - 1 :: cluster[i] !in ROOT_VALUE_SHORTS
  }

  function Classify(arg: string): Word {
    if arg == "--" then Terminator
    else if StartsWith(arg, "--") then
      Opt(("--" + UpToEquals(arg[2..])) in ROOT_VALUE_LONGS && '=' !in arg[2..])
    else if StartsWith(arg, "-") && |arg| > 1 then Opt(ClusterTakesNext(arg[1..]))
    else Operand
  }

  lemma {:induction false} NoEquals(s: string)
    requires '=' !in s
    ensures UpToEquals(s) == s
  {
    if s != "" {
      NoEquals(s[1..]);
    }
  }

  /**
    What a word is: an operand unless it starts with a dash and is more than
    that dash. A long option takes the next word exactly if it is one of the
    four names, a cluster exactly if its last letter is its first that takes a
    value.
   */
  lemma ClassifyExactly(arg: string)
    ensures Classify(arg).Terminator? <==> arg == "--"
    ensures Classify(arg).Operand? <==> arg == "" || arg == "-" || arg[0] != '-'
    ensures |arg| > 2 && arg[0] == '-' && arg[1] == '-' ==>
              (Classify(arg) == Opt(true) <==> arg in ["--escape-char", "--screen-sync", "--predict", "--status-line"])
    ensures |arg| > 1 && arg[0] == '-' && arg[1] != '-' ==>
              (Classify(arg) == Opt(true) <==>
                && arg[|arg| - 1] in "LRDlpiFoJEeSOwbBcmQW"
                && forall i | 1 <= i < |arg| - 1 :: arg[i] !in "LRDlpiFoJEeSOwbBcmQW")
  {
    if |arg| > 2 && arg[0] == '-' && arg[1] == '-' {
      assert arg == "--" + arg[2..];
      if '=' !in arg[2..] {
        NoEquals(arg[2..]);
      } else {
        EqualsInNoName(arg);
      }
    } else if |arg| > 1 && arg[0] == '-' {
      var cluster := arg[1..];
      assert forall i | 0 <= i < |cluster| :: cluster[i] == arg[i + 1];
      assert forall i | 1 <= i < |arg| :: arg[i] == cluster[i - 1];
    }
  }

  lemma EqualsInNoName(arg: string)
    requires |arg| > 2 && '=' in arg[2..]
    ensures arg !in ROOT_VALUE_LONGS
  {
    var i :| 2 <= i < |arg| && arg[i] == '=';
    assert forall k | 0 <= k < |ROOT_VALUE_LONGS| :: '=' !in ROOT_VALUE_LONGS[k];
  }

  // ---- The scan ----

  /** Where an operand was found, and whether a `--` forced it. */
  datatype Found = Found(at: nat, forced: bool)

  /** One option's step: past the option and the word it takes. */
  function Next(args: seq<string>, at: nat): nat
    requires at < |args|
  {
    if Classify(args[at]) == Opt(true) then at + 2 else at + 1
  }

  /** Stepping over options leads from `from` to `to`. */
  ghost predicate Path(args: seq<string>, from: nat, to: nat)
    decreases to - from
  {
    from == to || (from < to && from < |args| && Classify(args[from]).Opt? && Path(args, Next(args, from), to))
  }

  /** The first operand at or after `from`, and whether a `--` forced it. */
  function Scan(args: seq<string>, from: nat): (r: Option<Found>)
    decreases |args| - from
  {
    if from >= |args| then None
    else match Classify(args[from])
         case Terminator => if from + 1 < |args| then Some(Found(from + 1, true)) else None
         case Operand => Some(Found(from, false))
         case Opt(_) => Scan(args, Next(args, from))
  }

  /** `p` is the operand that ends the options started at `from`. */
  ghost predicate Unforced(args: seq<string>, from: nat, p: nat) {
    p < |args| && Path(args, from, p) && Classify(args[p]).Operand?
  }

  /** `p` follows the `--` that ends the options started at `from`. */
  ghost predicate Forced(args: seq<string>, from: nat, p: nat) {
    0 < p < |args| && Path(args, from, p - 1) && Classify(args[p - 1]).Terminator?
  }

  /** The scan finds exactly the word that ends the options. */
  lemma {:induction false} ScanExact(args: seq<string>, from: nat, p: nat)
    ensures Scan(args, from) == Some(Found(p, false)) <==> Unforced(args, from, p)
    ensures Scan(args, from) == Some(Found(p, true)) <==> Forced(args, from, p)
    decreases |args| - from
  {
    if from < |args| && Classify(args[from]).Opt? {
      ScanExact(args, Next(args, from), p);
    }
  }

  /** Only the words stepped over matter. */
  lemma {:induction false} PathLocal(a: seq<string>, b: seq<string>, from: nat, to: nat)
    requires Path(a, from, to) && to <= |a| && to <= |b| && a[..to] == b[..to]
    ensures Path(b, from, to)
    decreases if from < to then to - from else 0
  {
    if from != to {
      assert a[from] == a[..to][from] && b[from] == b[..to][from];
      PathLocal(a, b, Next(a, from), to);
    }
  }

  /** An option is stepped over, and with it the next word exactly if it takes one. */
  lemma {:induction false} OptionSkipped(args: seq<string>, from: nat, p: nat)
    requires Path(args, from, p) && p < |args| && Classify(args[p]).Opt?
    ensures Scan(args, from) == Scan(args, if Classify(args[p]).takesNext then p + 2 else p + 1)
    decreases p - from
  {
    if from != p {
      PathForward(args, Next(args, from), p);
      OptionSkipped(args, Next(args, from), p);
    }
  }

  /** The loop of `operand_from`. */
  method OperandFrom(args: seq<string>, from: nat) returns (r: Option<Found>)
    ensures r == Scan(args, from)
  {
    var at := from;
    while at < |args|
      invariant Scan(args, at) == Scan(args, from)
      decreases |args| - at
    {
      var arg := args[at];
      at := at + 1;
      if arg == "--" {
        return if at < |args| then Some(Found(at, true)) else None;
      }
      if StartsWith(arg, "--") {
        var long := arg[2..];
        if ("--" + UpToEquals(long)) in ROOT_VALUE_LONGS && '=' !in long {
          at := at + 1;
        }
        continue;
      }
      if StartsWith(arg, "-") && arg[1..] != "" {
        var cluster := arg[1..];
        var takes := false;
        var n := 0;
        while n < |cluster|
          invariant 0 <= n <= |cluster| && !takes
          invariant forall i | 0 <= i < n :: cluster[i] !in ROOT_VALUE_SHORTS
        {
          if cluster[n] in ROOT_VALUE_SHORTS {
            takes := n + 1 == |cluster|;
            break;
          }
          n := n + 1;
        }
        assert takes == ClusterTakesNext(cluster);
        if takes {
          at := at + 1;
        }
        continue;
      }
      return Some(Found(at - 1, false));
    }
    return None;
  }

  // ---- What the callers do with it ----

  function FirstOperand(args: seq<string>): Option<(string, bool)> {
    match Scan(args, 1)
    case None => None
    case Some(Found(p, forced)) => if p < |args| then Some((args[p], forced)) else None
  }

  predicate IsRootFormUsageError(args: seq<string>, subcommands: set<string>) {
    match FirstOperand(args)
    case None => true
    case Some((word, forced)) => forced || word !in subcommands
  }

  /** The first operand is the word that ends the options, or follows the `--` that does. */
  lemma FirstOperandExactly(args: seq<string>, word: string)
    ensures FirstOperand(args) == Some((word, false)) <==> exists p: nat :: Unforced(args, 1, p) && args[p] == word
    ensures FirstOperand(args) == Some((word, true)) <==> exists p: nat :: Forced(args, 1, p) && args[p] == word
  {
    forall p: nat
      ensures Scan(args, 1) == Some(Found(p, false)) <==> Unforced(args, 1, p)
      ensures Scan(args, 1) == Some(Found(p, true)) <==> Forced(args, 1, p)
    {
      ScanExact(args, 1, p);
    }
    hide Scan;
    if Scan(args, 1).Some? {
      var f := Scan(args, 1).value;
      assert f == Found(f.at, f.forced);
      assert if f.forced then Forced(args, 1, f.at) else Unforced(args, 1, f.at);
    }
  }

  /** A mistake belongs to a subcommand exactly when an unforced first operand names one. */
  lemma UsageErrorExactly(args: seq<string>, subcommands: set<string>)
    ensures !IsRootFormUsageError(args, subcommands) <==> exists p: nat :: Unforced(args, 1, p) && args[p] in subcommands
  {
    if !IsRootFormUsageError(args, subcommands) {
      FirstOperandExactly(args, FirstOperand(args).value.0);
    }
    if exists p: nat :: Unforced(args, 1, p) && args[p] in subcommands {
      var p: nat :| Unforced(args, 1, p) && args[p] in subcommands;
      FirstOperandExactly(args, args[p]);
    }
  }

  function InsertAt(args: seq<string>, at: nat, word: string): seq<string>
    requires at <= |args|
  {
    args[..at] + [word] + args[at..]
  }

  /** Where a `--` is to go: in front of the command after an unforced host. */
  function CommandAt(args: seq<string>, subcommands: set<string>): (r: Option<nat>)
    ensures r.Some? ==> r.value < |args|
  {
    match Scan(args, 1)
    case Some(Found(host, false)) =>
      if host < |args| && args[host] !in subcommands then
        (match Scan(args, host + 1)
         case Some(Found(command, false)) => if command < |args| then Some(command) else None
         case _ => None)
      else None
    case _ => None
  }

  function NormalizeArgs(args: seq<string>, subcommands: set<string>): seq<string> {
    match CommandAt(args, subcommands)
    case Some(c) => InsertAt(args, c, "--")
    case None => args
  }

  // ---- The laws ----

  lemma ScanInBounds(args: seq<string>, from: nat)
    ensures Scan(args, from).Some? ==> Scan(args, from).value.at < |args|
  {
    if Scan(args, from).Some? {
      ScanExact(args, from, Scan(args, from).value.at);
    }
  }

  /** `CommandAt` is the second of two unforced operands, the first not a subcommand. */
  lemma CommandAtMeans(args: seq<string>, subcommands: set<string>, host: nat, command: nat)
    ensures Unforced(args, 1, host) && args[host] !in subcommands && Unforced(args, host + 1, command) ==>
              CommandAt(args, subcommands) == Some(command)
    ensures Scan(args, 1) == Some(Found(host, false)) && CommandAt(args, subcommands) == Some(command) ==>
              Unforced(args, 1, host) && args[host] !in subcommands && Unforced(args, host + 1, command)
  {
    ScanExact(args, 1, host);
    ScanExact(args, host + 1, command);
  }

  lemma {:induction false} PathForward(args: seq<string>, from: nat, to: nat)
    requires Path(args, from, to)
    ensures from <= to
  {
  }

  /** An operand found before a change is still found after it. */
  lemma OperandKept(args: seq<string>, out: seq<string>, from: nat, p: nat)
    requires Unforced(args, from, p) && p < |out| && args[..p + 1] == out[..p + 1]
    ensures Scan(out, from) == Some(Found(p, false))
  {
    assert args[p] == args[..p + 1][p] && out[p] == out[..p + 1][p];
    assert args[..p] == args[..p + 1][..p] && out[..p] == out[..p + 1][..p];
    PathLocal(args, out, from, p);
    ScanExact(out, from, p);
  }

  /** A `--` put where the options end forces the word after it. */
  lemma TerminatorFound(args: seq<string>, out: seq<string>, from: nat, p: nat)
    requires Path(args, from, p) && p <= |args| && p + 1 < |out| && args[..p] == out[..p] && out[p] == "--"
    ensures Scan(out, from) == Some(Found(p + 1, true))
  {
    PathLocal(args, out, from, p);
    var q := p + 1;
    assert Classify(out[q - 1]).Terminator?;
    assert Forced(out, from, q);
    ScanExact(out, from, q);
  }

  /** What a fence at the command word does to the two scans. */
  lemma Fenced(args: seq<string>, subcommands: set<string>, host: nat, command: nat)
    requires Scan(args, 1) == Some(Found(host, false)) && CommandAt(args, subcommands) == Some(command)
    ensures var out := NormalizeArgs(args, subcommands);
            && host < command < |args| && out[host] == args[host]
            && Scan(out, 1) == Some(Found(host, false))
            && Scan(out, host + 1) == Some(Found(command + 1, true))
  {
    CommandAtMeans(args, subcommands, host, command);
    var out := InsertAt(args, command, "--");
    PathForward(args, host + 1, command);
    assert out[..command] == args[..command];
    assert out[..host + 1] == args[..host + 1];
    OperandKept(args, out, 1, host);
    TerminatorFound(args, out, host + 1, command);
  }

  /**
    `normalize_args` returns its input or inserts exactly one `--`. It inserts
    one exactly when an unforced host that is no subcommand is followed by an
    unforced command word; that word is then found as a forced operand, with
    everything before and after it untouched.
   */
  lemma NormalizeInserts(args: seq<string>, subcommands: set<string>)
    ensures var out := NormalizeArgs(args, subcommands); var c := CommandAt(args, subcommands);
            if c.None? then out == args
            else
              && |out| == |args| + 1 && out[c.value] == "--"
              && out[..c.value] == args[..c.value] && out[c.value + 1..] == args[c.value..]
              && Scan(args, 1).Some? && !Scan(args, 1).value.forced
              && Scan(out, Scan(args, 1).value.at + 1) == Some(Found(c.value + 1, true))
  {
    var c := CommandAt(args, subcommands);
    if c.Some? {
      var out := NormalizeArgs(args, subcommands);
      Fenced(args, subcommands, Scan(args, 1).value.at, c.value);
      assert out[..c.value] == args[..c.value] && out[c.value + 1..] == args[c.value..];
    }
  }

  /** The first operand, and with it the verdict on a usage error, is the same before and after. */
  lemma NormalizeKeepsFirstOperand(args: seq<string>, subcommands: set<string>)
    ensures FirstOperand(NormalizeArgs(args, subcommands)) == FirstOperand(args)
    ensures IsRootFormUsageError(NormalizeArgs(args, subcommands), subcommands) == IsRootFormUsageError(args, subcommands)
  {
    var c := CommandAt(args, subcommands);
    if c.Some? {
      Fenced(args, subcommands, Scan(args, 1).value.at, c.value);
    }
  }

  /** Normalizing twice is normalizing once. */
  lemma NormalizeIdempotent(args: seq<string>, subcommands: set<string>)
    ensures NormalizeArgs(NormalizeArgs(args, subcommands), subcommands) == NormalizeArgs(args, subcommands)
  {
    var c := CommandAt(args, subcommands);
    if c.Some? {
      Fenced(args, subcommands, Scan(args, 1).value.at, c.value);
    }
  }

  /** `normalize_args`, inserting into its own vector. */
  method NormalizeInPlace(args: seq<string>, subcommands: set<string>) returns (out: seq<string>)
    ensures out == NormalizeArgs(args, subcommands)
  {
    out := args;
    var first := OperandFrom(args, 1);
    ScanInBounds(args, 1);
    if first.None? || first.value.forced || args[first.value.at] in subcommands {
      return;
    }
    var second := OperandFrom(args, first.value.at + 1);
    ScanInBounds(args, first.value.at + 1);
    if second.Some? && !second.value.forced {
      out := InsertAt(out, second.value.at, "--");
    }
  }
}
