/**
 * The command loop of the shell: trimming an input line, turning tokens
 * into argument vectors, joining them back into a command line, splitting
 * a pipeline at `|`, and the handling of one command, from the `&` test
 * through the expansions to the built-ins, external commands and the job
 * table.
 */
module Shell {
  import opened Common
  import opened Strings
  import Piping
  import Tilde
  import ExpandEnv
  import Exec
  import Builtins
  import JobSpec
  import JobTable

  // join_argv

  /** The `len` of join_argv after i tokens: each token's length plus one. */
  function Budget(ts: seq<string>, i: nat): nat
    requires i <= |ts|
  {
    if i == 0 then 0 else Budget(ts, i - 1) + |ts[i - 1]| + 1
  }

  /** Joining one more part adds the separator and the part at the end. */
  lemma {:induction false} JoinSnoc(parts: seq<string>, x: string, sep: char)
    requires |parts| > 0
    ensures Join(parts + [x], sep) == Join(parts, sep) + [sep] + x
    decreases |parts|
  {
    if |parts| == 1 {
      assert parts + [x] == [parts[0], x];
      assert Join([x], sep) == x;
    } else {
      assert (parts + [x])[1..] == parts[1..] + [x];
      JoinSnoc(parts[1..], x, sep);
    }
  }

  /** The joined line of the first i tokens and its terminator take exactly `len` bytes. */
  lemma {:induction false} JoinFits(ts: seq<string>, i: nat)
    requires 1 <= i <= |ts|
    ensures |Join(ts[..i], ' ')| + 1 == Budget(ts, i)
  {
    if i == 1 {
      assert ts[..1] == [ts[0]];
    } else {
      JoinFits(ts, i - 1);
      assert ts[..i] == ts[..i - 1] + [ts[i - 1]];
      JoinSnoc(ts[..i - 1], ts[i - 1], ' ');
    }
  }

  /**
   * join_argv: the tokens separated by single spaces, in a buffer of `size`
   * bytes; nothing for a NULL or empty vector.
   */
  method JoinArgv(argv: array?<Option<string>>) returns (out: Option<string>, size: nat)
    requires argv != null ==> Terminated(argv[..])
    ensures out.None? <==> argv == null || argv[0].None?
    ensures out.Some? ==> out.value == Join(Tokens(argv[..]), ' ')
    ensures out.Some? ==> |out.value| + 1 < size
  {
    if argv == null || argv[0] == None {
      return None, 0;
    }
    ghost var ts := Tokens(argv[..]);
    var len := LineBudget(argv);
    var line := JoinTokens(argv);
    JoinFits(ts, |ts|);
    assert ts[..|ts|] == ts;
    return Some(line), len + 1;
  }

  /** The first loop of join_argv: each token's length plus one, summed. */
  method LineBudget(argv: array<Option<string>>) returns (len: nat)
    requires Terminated(argv[..])
    ensures len == Budget(Tokens(argv[..]), |Tokens(argv[..])|)
  {
    ghost var ts := Tokens(argv[..]);
    len := 0;
    var i := 0;
    while argv[i] != None
      invariant 0 <= i <= |ts|
      invariant len == Budget(ts, i)
      decreases |ts| - i
    {
      assert argv[i] == argv[..][i];
      len := len + |argv[i].value| + 1;
      i := i + 1;
    }
    assert argv[i] == argv[..][i];
  }

  /** The strcat loop of join_argv: a space before every token but the first. */
  method JoinTokens(argv: array<Option<string>>) returns (s: string)
    requires Terminated(argv[..])
    ensures s == Join(Tokens(argv[..]), ' ')
  {
    ghost var ts := Tokens(argv[..]);
    s := "";
    var i := 0;
    assert ts[..0] == [];
    while argv[i] != None
      invariant 0 <= i <= |ts|
      invariant s == Join(ts[..i], ' ')
      decreases |ts| - i
    {
      assert argv[i] == argv[..][i];
      if i > 0 {
        s := s + " ";
      }
      s := s + argv[i].value;
      assert ts[..i + 1] == ts[..i] + [ts[i]];
      if i > 0 {
        JoinSnoc(ts[..i], ts[i], ' ');
      }
      i := i + 1;
    }
    assert argv[i] == argv[..][i];
    assert ts[..|ts|] == ts;
  }

  // tokenlist_to_argv

  /** tokenlist_to_argv: the tokens followed by NULL; nothing for a NULL or empty list. */
  function TokenlistToArgv(tokens: Option<seq<string>>): (argv: Option<seq<Option<string>>>)
    ensures argv.None? <==> tokens.None? || |tokens.value| == 0
    ensures argv.Some? ==> Terminated(argv.value) && |argv.value| == |tokens.value| + 1
    ensures argv.Some? ==> Tokens(argv.value) == tokens.value
  {
    if tokens.None? || |tokens.value| == 0 then None
    else
      WrapArgv(tokens.value);
      Some(Wrap(tokens.value) + [None])
  }

  // The pipeline split

  /** The token is the single character `|`. */
  predicate IsBar(t: string) {
    |t| == 1 && t[0] == '|'
  }

  /** The number of `|` tokens among the first n. */
  function BarsUpTo(ts: seq<string>, n: nat): nat
    requires n <= |ts|
  {
    if n == 0 then 0 else BarsUpTo(ts, n - 1) + (if IsBar(ts[n - 1]) then 1 else 0)
  }

  /** The counting loop of process_command. */
  method CountPipes(tokens: seq<string>) returns (count: nat)
    ensures count == BarsUpTo(tokens, |tokens|)
  {
    count := 0;
    for i := 0 to |tokens|
      invariant count == BarsUpTo(tokens, i)
    {
      if IsBar(tokens[i]) {
        count := count + 1;
      }
    }
  }

  /** The stages written out again with a `|` token between neighbours. */
  function JoinStages(ss: seq<seq<string>>): seq<string> {
    if |ss| == 0 then []
    else if |ss| == 1 then ss[0]
    else JoinStages(ss[..|ss| - 1]) + ["|"] + ss[|ss| - 1]
  }

  /** No stage holds a `|` token. */
  predicate BarFree(ss: seq<seq<string>>) {
    forall j, k | 0 <= j < |ss| && 0 <= k < |ss[j]| :: !IsBar(ss[j][k])
  }

  /** The split loop has read the first i tokens; the current stage starts at start. */
  ghost predicate Splitting(tokens: seq<string>, stages: seq<seq<string>>, start: nat, i: nat) {
    && start <= i <= |tokens|
    && |stages| == BarsUpTo(tokens, i)
    && BarFree(stages)
    && (forall k | start <= k < i :: !IsBar(tokens[k]))
    && JoinStages(stages + [tokens[start..i]]) == tokens[..i]
  }

  lemma SplitAtBar(tokens: seq<string>, stages: seq<seq<string>>, start: nat, i: nat)
    requires Splitting(tokens, stages, start, i) && i < |tokens| && IsBar(tokens[i])
    ensures Splitting(tokens, stages + [tokens[start..i]], i + 1, i + 1)
  {
    var ss := stages + [tokens[start..i]];
    assert (ss + [tokens[i + 1..i + 1]])[..|ss|] == ss;
    assert tokens[i] == [tokens[i][0]] == "|";
    assert tokens[..i + 1] == tokens[..i] + ["|"];
  }

  lemma SplitInside(tokens: seq<string>, stages: seq<seq<string>>, start: nat, i: nat)
    requires Splitting(tokens, stages, start, i) && i < |tokens| && !IsBar(tokens[i])
    ensures Splitting(tokens, stages, start, i + 1)
  {
    assert tokens[start..i + 1] == tokens[start..i] + [tokens[i]];
    assert tokens[..i + 1] == tokens[..i] + [tokens[i]];
    if |stages| > 0 {
      assert (stages + [tokens[start..i]])[..|stages|] == stages;
      assert (stages + [tokens[start..i + 1]])[..|stages|] == stages;
    } else {
      assert |tokens[..i]| == i - start;
    }
  }

  lemma SplitEnd(tokens: seq<string>, stages: seq<seq<string>>, start: nat)
    requires Splitting(tokens, stages, start, |tokens|)
    ensures var ss := stages + [tokens[start..]];
            |ss| == BarsUpTo(tokens, |tokens|) + 1 && BarFree(ss) && JoinStages(ss) == tokens
  {
    assert tokens[start..|tokens|] == tokens[start..];
    assert tokens[..|tokens|] == tokens;
  }

  /**
   * The stage-building loop of process_command: the runs of tokens between
   * `|` separators, in order, possibly empty. The last run, closed by the
   * end of the list, is added after the loop.
   */
  method SplitStages(tokens: seq<string>) returns (stages: seq<seq<string>>)
    ensures |stages| == BarsUpTo(tokens, |tokens|) + 1
    ensures BarFree(stages) && JoinStages(stages) == tokens
  {
    stages := [];
    var start := 0;
    var i := 0;
    while i < |tokens|
      invariant Splitting(tokens, stages, start, i)
      decreases |tokens| - i
    {
      if IsBar(tokens[i]) {
        SplitAtBar(tokens, stages, start, i);
        stages := stages + [tokens[start..i]];
        start := i + 1;
      } else {
        SplitInside(tokens, stages, start, i);
      }
      i := i + 1;
    }
    SplitEnd(tokens, stages, start);
    stages := stages + [tokens[start..]];
  }

  /** The last stage ends the joined tokens, with a `|` in front of it when there is an earlier stage. */
  lemma LastStage(ss: seq<seq<string>>)
    requires |ss| > 0
    ensures var j, x := JoinStages(ss), ss[|ss| - 1];
            && |j| >= |x|
            && (forall k | 0 <= k < |x| :: j[|j| - |x| + k] == x[k])
            && (|ss| == 1 ==> j == x)
            && (|ss| > 1 ==> |j| > |x| && j[|j| - |x| - 1] == "|" && JoinStages(ss[..|ss| - 1]) == j[..|j| - |x| - 1])
  {
  }

  /** Two bar-free splits with the same join are the same split: the stages are determined by the tokens. */
  lemma {:induction false} SplitIsUnique(a: seq<seq<string>>, b: seq<seq<string>>)
    requires |a| > 0 && |b| > 0 && BarFree(a) && BarFree(b) && JoinStages(a) == JoinStages(b)
    ensures a == b
    decreases |a| + |b|
  {
    var x, y := a[|a| - 1], b[|b| - 1];
    if |x| < |y| {
      assert !IsBar(y[|y| - |x| - 1]);
      LastStage(a);
      LastStage(b);
      assert false;
    } else if |y| < |x| {
      assert !IsBar(x[|x| - |y| - 1]);
      LastStage(a);
      LastStage(b);
      assert false;
    } else {
      LastStage(a);
      LastStage(b);
      assert x == y;
      if |a| > 1 && |b| > 1 {
        var pa, pb := a[..|a| - 1], b[..|b| - 1];
        SplitIsUnique(pa, pb);
        assert a == pa + [x] && b == pb + [y];
      }
    }
  }

  // The `&` test of process_command

  /**
   * The `&` test of process_command: a final `&` token is replaced by the
   * terminator and argc counts the tokens left.
   */
  method StripAmpersand(argv: array<Option<string>>) returns (background: bool, argc: nat)
    requires Terminated(argv[..])
    modifies argv
    ensures background == Piping.LastIsBackground(Some(old(argv[..])))
    ensures Terminated(argv[..]) && argc == Argc(argv[..])
    ensures background ==> argc + 1 == |Tokens(old(argv[..]))| && Tokens(argv[..]) == Tokens(old(argv[..]))[..argc]
    ensures !background ==> argc == |Tokens(old(argv[..]))|
    ensures background ==> argv[..] == old(argv[..])[argc := None]
    ensures !background ==> argv[..] == old(argv[..])
  {
    ghost var before := argv[..];
    background := Piping.StripBackground(argv);
    if background {
      Piping.StrippedTokens(before);
    }
    ghost var after := argv[..];
    argc := 0;
    while argv[argc] != None
      invariant 0 <= argc <= Argc(after)
      decreases Argc(after) - argc
    {
      argc := argc + 1;
    }
  }

  // Input trimming in main

  /**
   * The trimming in main: the input holds n characters and a NUL. Trailing
   * white space is overwritten with NULs, then start skips the leading white
   * space; the command is input[start..len], and start == len for a blank line.
   */
  method TrimInput(input: array<char>, n: nat) returns (start: nat, len: nat)
    requires n < input.Length && input[n] == '\0'
    requires forall k | 0 <= k < n :: input[k] != '\0'
    modifies input
    ensures start <= len <= n
    ensures forall k | 0 <= k < len :: input[k] == old(input[k])
    ensures forall k | len <= k < n :: IsSpace(old(input[k])) && input[k] == '\0'
    ensures forall k | n <= k < input.Length :: input[k] == old(input[k])
    ensures forall k | 0 <= k < start :: IsSpace(input[k])
    ensures start < len ==> !IsSpace(input[start]) && !IsSpace(input[len - 1])
    ensures start == len <==> forall k | 0 <= k < n :: IsSpace(old(input[k]))
  {
    len := n;
    while len > 0 && IsSpace(input[len - 1])
      invariant 0 <= len <= n
      invariant forall k | 0 <= k < len :: input[k] == old(input[k])
      invariant forall k | len <= k < n :: IsSpace(old(input[k])) && input[k] == '\0'
      invariant forall k | n <= k < input.Length :: input[k] == old(input[k])
    {
      len := len - 1;
      input[len] := '\0';
    }
    assert input[len] == '\0';
    start := 0;
    while input[start] != '\0' && IsSpace(input[start])
      invariant 0 <= start <= len
      invariant forall k | 0 <= k < start :: IsSpace(input[k])
      decreases len - start
    {
      start := start + 1;
    }
  }

  // One command: the `&` test, the copies, the expansions

  /** The line ends in a lone `&`: the command runs in the background. */
  predicate Background(tokens: seq<string>) {
    |tokens| > 0 && Piping.IsAmp(tokens[|tokens| - 1])
  }

  /** The tokens without a final `&`. */
  function Stripped(tokens: seq<string>): (ts: seq<string>)
    ensures |ts| == |tokens| - (if Background(tokens) then 1 else 0)
    ensures ts == tokens[..|ts|]
    ensures |ts| > 0 && Background(tokens) ==> ts[|ts| - 1] == tokens[|tokens| - 2]
  {
    if Background(tokens) then tokens[..|tokens| - 1] else tokens
  }

  /** A token after tilde expansion (with every allocation succeeding). */
  function TildeWord(env: Env, t: string): string {
    Tilde.Result(t, Tilde.ExpandTilde(Some(t), env, true))
  }

  function TildeAll(env: Env, ts: seq<string>): (r: seq<string>)
    ensures |r| == |ts| && forall i | 0 <= i < |ts| :: r[i] == TildeWord(env, ts[i])
  {
    seq(|ts|, i requires 0 <= i < |ts| => TildeWord(env, ts[i]))
  }

  /** The words a simple command runs with: `&` removed, then `~` expanded, then `$NAME` expanded. */
  function Words(tokens: seq<string>, env: Env): seq<string> {
    ExpandEnv.ExpandTokens(env, TildeAll(env, Stripped(tokens)))
  }

  /** The tilde loop of process_command: each token is replaced by its expansion when that is a new string. */
  method ExpandTildes(dup: array<Option<string>>, env: Env)
    requires Terminated(dup[..])
    modifies dup
    ensures Terminated(dup[..]) && Argc(dup[..]) == Argc(old(dup[..]))
    ensures Tokens(dup[..]) == TildeAll(env, Tokens(old(dup[..])))
    ensures forall k | Argc(old(dup[..])) <= k < dup.Length :: dup[k] == old(dup[k])
  {
    ghost var before := dup[..];
    ghost var n := Argc(before);
    var i := 0;
    while dup[i] != None
      invariant 0 <= i <= n
      invariant forall k | 0 <= k < i :: dup[k] == Some(TildeWord(env, before[k].value))
      invariant forall k | i <= k < dup.Length :: dup[k] == before[k]
      decreases n - i
    {
      var e := Tilde.ExpandTilde(dup[i], env, true);
      if e.Fresh? {
        dup[i] := Some(e.text);
      }
      i := i + 1;
    }
    ArgcIsFirstNull(dup[..], n);
    assert Tokens(dup[..]) == TildeAll(env, Tokens(before));
  }

  /** The strdup loop of process_command: a fresh vector of the argc tokens of argv and a NULL. */
  method CopyArgv(argv: array<Option<string>>, argc: nat) returns (dup: array<Option<string>>)
    requires Terminated(argv[..]) && argc == Argc(argv[..])
    ensures fresh(dup)
    ensures dup[..] == Wrap(Tokens(argv[..])) + [None]
  {
    ghost var ts := Tokens(argv[..]);
    dup := new Option<string>[argc + 1](_ => None);
    for i := 0 to argc
      invariant forall k | 0 <= k < i :: dup[k] == Some(ts[k])
      invariant dup[argc] == None
    {
      dup[i] := argv[i];
    }
    assert dup[..] == Wrap(ts) + [None];
  }

  /** The argv of process_command with a final `&` removed, and its strdup copy. */
  method ArgvCopy(tokens: seq<string>) returns (dup: array<Option<string>>, background: bool)
    requires |tokens| > 0
    ensures fresh(dup)
    ensures dup[..] == Wrap(Stripped(tokens)) + [None]
    ensures background == Background(tokens)
  {
    var vector := TokenlistToArgv(Some(tokens)).value;
    var argv := new Option<string>[|vector|](i requires 0 <= i < |vector| => vector[i]);
    assert argv[..] == vector;
    var argc;
    background, argc := StripAmpersand(argv);
    assert Tokens(argv[..]) == Stripped(tokens);
    dup := CopyArgv(argv, argc);
  }

  /** The tilde loop followed by expand_env_vars_inplace, on a copied vector of the tokens ts. */
  method ExpandWords(dup: array<Option<string>>, ghost ts: seq<string>, env: Env)
    requires dup[..] == Wrap(ts) + [None]
    modifies dup
    ensures dup[..] == Wrap(ExpandEnv.ExpandTokens(env, TildeAll(env, ts))) + [None]
  {
    WrapArgv(ts);
    ExpandTildes(dup, env);
    ghost var tilded := dup[..];
    var _ := ExpandEnv.ExpandEnvVarsInplace(dup, env);
    ExpandEnv.ExpandArgvTokens(env, tilded);
    ghost var words := ExpandEnv.ExpandTokens(env, TildeAll(env, ts));
    assert Tokens(dup[..]) == words;
    assert dup[..] == Wrap(words) + [None] by {
      assert |dup[..]| == |words| + 1;
      forall k | 0 <= k < |words|
        ensures dup[k] == Some(words[k])
      {
      }
    }
  }

  /**
   * The preparation of a simple command in process_command: the argv of
   * the tokens, the `&` test, the strdup copy of what is left, the tilde
   * loop and the in-place `$NAME` expansion.
   */
  method PrepareArgs(tokens: seq<string>, env: Env) returns (dup: array<Option<string>>, background: bool)
    requires |tokens| > 0
    ensures fresh(dup)
    ensures dup[..] == Wrap(Words(tokens, env)) + [None]
    ensures background == Background(tokens)
  {
    dup, background := ArgvCopy(tokens);
    ExpandWords(dup, Stripped(tokens), env);
  }

  // The dispatch

  /** Which branch of process_command a simple command takes. */
  datatype Command = Nothing | Undefined | ExitBuiltin | CdBuiltin | JobsBuiltin | ExternalCommand

  /**
   * The dispatch as written: strcmp(dup_argv[0], ...) with dup_argv[0]
   * NULL when nothing is left of the command, which is undefined behaviour.
   */
  function ClassifyAsWritten(args: seq<string>): (c: Command)
    ensures c == Undefined <==> |args| == 0
  {
    if |args| == 0 then Undefined
    else if args[0] == "exit" then ExitBuiltin
    else if args[0] == "cd" then CdBuiltin
    else if args[0] == "jobs" then JobsBuiltin
    else ExternalCommand
  }

  /** The dispatch with an empty command treated like an empty line. */
  function Classify(args: seq<string>): (c: Command)
    ensures c != Undefined
    ensures c == Nothing <==> |args| == 0
    ensures |args| > 0 ==> c == ClassifyAsWritten(args)
  {
    if |args| == 0 then Nothing else ClassifyAsWritten(args)
  }

  /** The line `&` passes the empty-line checks, yet leaves no word, so the dispatch as written reads NULL. */
  lemma LoneAmpersandIsUndefined(env: Env)
    ensures Background(["&"]) && Words(["&"], env) == []
    ensures ClassifyAsWritten(Words(["&"], env)) == Undefined
    ensures Classify(Words(["&"], env)) == Nothing
  {
    assert Stripped(["&"]) == [];
  }

  /** What process_command did. */
  datatype Handled =
    | Ignored
    | Piped(stages: seq<seq<string>>, plan: Option<Piping.Pipeline>)
    | Exited
    | ChangedDir(result: Builtins.CdResult)
    | ListedJobs
    | External(launch: Exec.Launch)

  /**
   * The effect of a simple command with words args on the job table (s0
   * to s1, printing out0 to out1) and on the history (h0 to h1). Every
   * command that is run is remembered, except a `cd` that fails; only an
   * external command started in the background registers a job, with one
   * pid, the child's, as its leader.
   */
  ghost predicate Effect(r: Handled, args: seq<string>, background: bool, env: Env, fs: FileSystem,
                         forkPid: int, copied: bool, s0: JobSpec.TableState, s1: JobSpec.TableState,
                         out0: seq<JobSpec.Line>, out1: seq<JobSpec.Line>, h0: seq<string>, h1: seq<string>)
    requires JobSpec.Shaped(s0) && |h0| <= Builtins.HistoryDepth && forkPid != 0
  {
    WrapArgv(args);
    var argv := Wrap(args) + [None];
    var line := Join(args, ' ');
    match Classify(args)
    case Nothing => r == Ignored && s1 == s0 && out1 == out0 && h1 == h0
    case Undefined => false
    case ExitBuiltin =>
      r == Exited && s1 == JobSpec.Shutdown(s0) && out1 == out0 && h1 == Builtins.Remember(h0, Some(line))
    case CdBuiltin =>
      && r == ChangedDir(Builtins.Cd(argv, env, fs.directories)) && s1 == s0 && out1 == out0
      && h1 == (if r.result.status == 1 then Builtins.Remember(h0, Some(line)) else h0)
    case JobsBuiltin =>
      r == ListedJobs && s1 == s0 && out1 == out0 + JobSpec.Listing(s0) && h1 == Builtins.Remember(h0, Some(line))
    case ExternalCommand =>
      && r.External?
      && ExternalEffect(r.launch, args, background, env, fs, forkPid, copied, s0, s1, out0, out1)
      && h1 == Builtins.Remember(h0, Some(line))
  }

  /**
   * An external command: the launch of execute_command with the path
   * find_executable resolves, and, for a child started in the background,
   * a job of one pid, the child's, as its own leader.
   */
  ghost predicate ExternalEffect(l: Exec.Launch, args: seq<string>, background: bool, env: Env, fs: FileSystem,
                                 forkPid: int, copied: bool, s0: JobSpec.TableState, s1: JobSpec.TableState,
                                 out0: seq<JobSpec.Line>, out1: seq<JobSpec.Line>)
    requires JobSpec.Shaped(s0) && |args| > 0 && forkPid != 0
  {
    WrapArgv(args);
    var argv := Wrap(args) + [None];
    var line := Join(args, ' ');
    && l == Exec.ExecuteCommand(Some(argv), Exec.Resolve(argv[0], env, fs.executable), background, env, fs, forkPid)
    && if l.ret > 0 && background then
         var step := JobSpec.Add(s0, Some(line), Some([l.ret]), 1, l.ret, copied);
         s1 == step.state && out1 == out0 + step.lines
       else s1 == s0 && out1 == out0
  }

  /**
   * The dispatch of process_command on the prepared vector dup. forkPid is
   * what fork returns to the parent and copied whether add_job's strdup
   * succeeds.
   */
  method RunCommand(dup: array<Option<string>>, ghost args: seq<string>, background: bool, env: Env,
                    fs: FileSystem, forkPid: int, copied: bool, jobs: JobTable.Table, history: Builtins.History)
    returns (r: Handled)
    requires dup[..] == Wrap(args) + [None] && dup != history.slots
    requires forkPid != 0
    requires jobs.Valid() && history.Valid()
    modifies jobs, jobs.slots, history, history.slots
    ensures jobs.Valid() && history.Valid()
    ensures Effect(r, args, background, env, fs, forkPid, copied, old(jobs.State()), jobs.State(),
                   old(jobs.output), jobs.output, old(history.Commands()), history.Commands())
  {
    WrapArgv(args);
    if dup[0] == None {
      return Ignored;
    }
    assert dup[0] == Some(args[0]);
    var line, _ := JoinArgv(dup);
    var word := dup[0].value;
    if word == "exit" {
      assert Classify(args) == ExitBuiltin;
      RunExit(line, jobs, history);
      return Exited;
    } else if word == "cd" {
      assert Classify(args) == CdBuiltin;
      var result := RunCd(dup[..], line, env, fs, history);
      return ChangedDir(result);
    } else if word == "jobs" {
      assert Classify(args) == JobsBuiltin;
      RunJobs(line, jobs, history);
      return ListedJobs;
    }
    assert Classify(args) == ExternalCommand;
    var launch := RunExternal(dup, args, line.value, background, env, fs, forkPid, copied, jobs);
    history.Add(line);
    return External(launch);
  }

  /** `exit`: the command line is remembered and the job table shut down (the process then ends). */
  method RunExit(line: Option<string>, jobs: JobTable.Table, history: Builtins.History)
    requires jobs.Valid() && history.Valid() && JobSpec.Shaped(jobs.State())
    modifies jobs, jobs.slots, history, history.slots
    ensures jobs.Valid() && history.Valid()
    ensures jobs.State() == JobSpec.Shutdown(old(jobs.State())) && jobs.output == old(jobs.output)
    ensures history.Commands() == Builtins.Remember(old(history.Commands()), line)
  {
    history.Add(line);
    jobs.Shutdown();
  }

  /** `cd`: the command line is remembered only when the directory changed. */
  method RunCd(argv: seq<Option<string>>, line: Option<string>, env: Env, fs: FileSystem, history: Builtins.History)
    returns (result: Builtins.CdResult)
    requires Terminated(argv) && Argc(argv) >= 1 && history.Valid()
    modifies history, history.slots
    ensures history.Valid()
    ensures result == Builtins.Cd(argv, env, fs.directories)
    ensures history.Commands() ==
              if result.status == 1 then Builtins.Remember(old(history.Commands()), line) else old(history.Commands())
  {
    result := Builtins.Cd(argv, env, fs.directories);
    if result.status == 1 {
      history.Add(line);
    }
  }

  /** `jobs`: the command line is remembered, then the table is listed. */
  method RunJobs(line: Option<string>, jobs: JobTable.Table, history: Builtins.History)
    requires jobs.Valid() && history.Valid() && JobSpec.Shaped(jobs.State())
    modifies jobs, jobs.slots, history, history.slots
    ensures jobs.Valid() && history.Valid()
    ensures jobs.State() == old(jobs.State()) && jobs.output == old(jobs.output) + JobSpec.Listing(old(jobs.State()))
    ensures history.Commands() == Builtins.Remember(old(history.Commands()), line)
  {
    history.Add(line);
    jobs.JobsBuiltin();
  }

  /** The external-command branch of process_command. */
  method RunExternal(dup: array<Option<string>>, ghost args: seq<string>, line: string, background: bool, env: Env,
                     fs: FileSystem, forkPid: int, copied: bool, jobs: JobTable.Table)
    returns (launch: Exec.Launch)
    requires dup[..] == Wrap(args) + [None] && |args| > 0 && line == Join(args, ' ')
    requires forkPid != 0
    requires jobs.Valid()
    modifies jobs, jobs.slots
    ensures jobs.Valid()
    ensures ExternalEffect(launch, args, background, env, fs, forkPid, copied, old(jobs.State()), jobs.State(),
                           old(jobs.output), jobs.output)
  {
    WrapArgv(args);
    var fullpath := Exec.FindExecutable(dup[0], env, fs.executable);
    launch := Exec.ExecuteCommand(Some(dup[..]), fullpath, background, env, fs, forkPid);
    var child := launch.ret;
    if child > 0 && background {
      ghost var s0 := jobs.State();
      var _ := jobs.AddJob(Some(line), Some([child]), 1, child, copied);
      JobSpec.AddPreservesValid(s0, Some(line), Some([child]), 1, child, copied);
    }
  }

  /** The ghost view of process_command's pipeline branch. */
  ghost predicate PipedAs(r: Handled, tokens: seq<string>, ok1: bool, ok2: bool) {
    && r.Piped?
    && |r.stages| == BarsUpTo(tokens, |tokens|) + 1
    && BarFree(r.stages) && JoinStages(r.stages) == tokens
    && (r.plan.Some? <==> |r.stages| <= 3)
    && (r.plan.Some? ==> 2 <= |r.stages| && r.plan.value == Piping.Plan(|r.stages|, Background(r.stages[|r.stages| - 1]), ok1, ok2))
  }

  /**
   * The pipeline branch of process_command: split at `|` and hand the
   * stages, each as a NULL-terminated vector, to execute_pipeline. Only
   * pipelines of two or three stages are planned.
   */
  method RunPipeline(tokens: seq<string>, ok1: bool, ok2: bool) returns (r: Handled)
    requires BarsUpTo(tokens, |tokens|) > 0
    ensures PipedAs(r, tokens, ok1, ok2)
  {
    var stages := SplitStages(tokens);
    var n := |stages|;
    if n > 3 {
      return Piped(stages, None);
    }
    var cmds: seq<array<Option<string>>> := [];
    for i := 0 to n
      invariant |cmds| == i
      invariant forall k | 0 <= k < i :: fresh(cmds[k]) && cmds[k][..] == Wrap(stages[k]) + [None]
    {
      var stage := Wrap(stages[i]) + [None];
      var a := new Option<string>[|stage|](k requires 0 <= k < |stage| => stage[k]);
      assert a[..] == stage;
      cmds := cmds + [a];
    }
    var last := stages[n - 1];
    WrapArgv(last);
    var lastBg, plan := Piping.ExecutePipeline(cmds, n, ok1, ok2);
    assert lastBg == Background(last);
    return Piped(stages, Some(plan));
  }

  /**
   * What process_command does with the tokens, from the job table s0, the
   * output out0 and the history h0 to s1, out1 and h1: nothing for a NULL
   * or empty list; the split and the pipeline plan when a `|` is present,
   * with neither the table, the output nor the history touched; otherwise
   * the effect of the prepared words.
   */
  ghost predicate Processed(r: Handled, tokens: Option<seq<string>>, env: Env, fs: FileSystem, forkPid: int,
                            copied: bool, ok1: bool, ok2: bool, s0: JobSpec.TableState, s1: JobSpec.TableState,
                            out0: seq<JobSpec.Line>, out1: seq<JobSpec.Line>, h0: seq<string>, h1: seq<string>)
    requires JobSpec.Shaped(s0) && |h0| <= Builtins.HistoryDepth && forkPid != 0
  {
    if tokens.None? || |tokens.value| == 0 then
      r == Ignored && s1 == s0 && out1 == out0 && h1 == h0
    else if BarsUpTo(tokens.value, |tokens.value|) > 0 then
      PipedAs(r, tokens.value, ok1, ok2) && s1 == s0 && out1 == out0 && h1 == h0
    else
      Effect(r, Words(tokens.value, env), Background(tokens.value), env, fs, forkPid, copied, s0, s1, out0, out1, h0, h1)
  }

  /**
   * process_command: nothing for a NULL or empty token list, the pipeline
   * branch when a `|` token is present, and otherwise the preparation and
   * dispatch of a simple command. Pipelines touch neither the history nor
   * the job table.
   */
  method ProcessCommand(tokens: Option<seq<string>>, env: Env, fs: FileSystem, forkPid: int, copied: bool,
                        ok1: bool, ok2: bool, jobs: JobTable.Table, history: Builtins.History)
    returns (r: Handled)
    requires forkPid != 0
    requires jobs.Valid() && history.Valid()
    modifies jobs, jobs.slots, history, history.slots
    ensures jobs.Valid() && history.Valid()
    ensures Processed(r, tokens, env, fs, forkPid, copied, ok1, ok2, old(jobs.State()), jobs.State(),
                      old(jobs.output), jobs.output, old(history.Commands()), history.Commands())
  {
    if tokens.None? || |tokens.value| == 0 {
      return Ignored;
    }
    var count := CountPipes(tokens.value);
    if count > 0 {
      r := RunPipeline(tokens.value, ok1, ok2);
      return;
    }
    var dup, background := PrepareArgs(tokens.value, env);
    r := RunCommand(dup, Words(tokens.value, env), background, env, fs, forkPid, copied, jobs, history);
  }

  /**
   * One turn of the main loop after the input line is read: the line
   * (NUL-terminated at n) is trimmed; a blank line, or one the lexer turns
   * into no tokens, runs nothing; any other line is processed. The turn
   * ends by reaping finished background jobs with the wait results ws,
   * unless the command was `exit`, which ends the process first. tokens is
   * what the lexer makes of the trimmed line. mid and midOut are the job
   * table and the output between the command and the reaping.
   */
  method Step(input: array<char>, n: nat, tokens: Option<seq<string>>, env: Env, fs: FileSystem, forkPid: int,
              copied: bool, ok1: bool, ok2: bool, ws: seq<JobSpec.WaitResult>, jobs: JobTable.Table,
              history: Builtins.History)
    returns (r: Handled, ghost mid: JobSpec.TableState, ghost midOut: seq<JobSpec.Line>)
    requires n < input.Length && input[n] == '\0' && forall k | 0 <= k < n :: input[k] != '\0'
    requires forkPid != 0
    requires jobs.Valid() && history.Valid()
    modifies input, jobs, jobs.slots, history, history.slots
    ensures jobs.Valid() && history.Valid() && JobSpec.Valid(mid)
    ensures (forall k | 0 <= k < n :: IsSpace(old(input[k]))) ==>
              r == Ignored && mid == old(jobs.State()) && midOut == old(jobs.output) &&
              history.Commands() == old(history.Commands())
    ensures (exists k | 0 <= k < n :: !IsSpace(old(input[k]))) ==>
              Processed(r, tokens, env, fs, forkPid, copied, ok1, ok2, old(jobs.State()), mid,
                        old(jobs.output), midOut, old(history.Commands()), history.Commands())
    ensures r.Exited? ==> jobs.State() == mid && jobs.output == midOut
    ensures !r.Exited? ==>
              var reaped := JobSpec.CheckJobs(mid, ws);
              jobs.State() == reaped.state && jobs.output == midOut + reaped.lines
  {
    var start, len := TrimInput(input, n);
    if start == len || tokens.None? || |tokens.value| == 0 {
      mid, midOut := jobs.State(), jobs.output;
      var _ := jobs.CheckJobs(ws);
      return Ignored, mid, midOut;
    }
    r := ProcessCommand(tokens, env, fs, forkPid, copied, ok1, ok2, jobs, history);
    mid, midOut := jobs.State(), jobs.output;
    if r.Exited? {
      return;
    }
    var _ := jobs.CheckJobs(ws);
  }
}
