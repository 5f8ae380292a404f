/**
 * Command resolution and the launch of an external command: the PATH
 * search of find_executable, the checks execute_command makes before it
 * forks, what the parent returns, and what the forked child does.
 */
module Exec {
  import opened Common
  import opened Strings
  import Redirection

  /** The search list used when PATH is unset. */
  const DefaultPath: string := "/bin:/usr/bin"

  /** The directories searched: the non-empty `:`-separated fields of PATH, or of the default. */
  function SearchDirs(env: Env): seq<string> {
    Fields(GetEnv(env, "PATH").GetOr(DefaultPath), ':')
  }

  /** With PATH unset the search list is /bin, then /usr/bin. */
  lemma DefaultSearchDirs(env: Env)
    requires "PATH" !in env
    ensures SearchDirs(env) == ["/bin", "/usr/bin"]
  {
    assert DefaultPath == Join(["/bin", "/usr/bin"], ':');
    FieldsOfJoin(["/bin", "/usr/bin"], ':');
  }

  /** The candidate path built by snprintf("%s/%s", dir, cmd). */
  function Candidate(dir: string, cmd: string): string {
    dir + "/" + cmd
  }

  /**
   * The index of the first directory from i on whose candidate passes the
   * executable check, or -1.
   */
  function FirstHit(dirs: seq<string>, cmd: string, exe: set<string>, i: nat): (k: int)
    requires i <= |dirs|
    ensures k == -1 || i <= k < |dirs|
    ensures k >= 0 ==> Candidate(dirs[k], cmd) in exe
    ensures forall m | i <= m < |dirs| && (k == -1 || m < k) :: Candidate(dirs[m], cmd) !in exe
    decreases |dirs| - i
  {
    if i == |dirs| then -1
    else if Candidate(dirs[i], cmd) in exe then i
    else FirstHit(dirs, cmd, exe, i + 1)
  }

  /**
   * What find_executable returns: nothing for NULL or "", the command itself
   * when it holds a `/`, otherwise the first candidate on the search list
   * that passes the executable check (exe stands for access(X_OK)).
   */
  function Resolve(cmd: Option<string>, env: Env, exe: set<string>): (r: Option<string>)
    ensures cmd.None? || cmd.value == "" ==> r.None?
    ensures cmd.Some? && cmd.value != "" && '/' in cmd.value ==> r == cmd
    ensures cmd.Some? && cmd.value != "" && '/' !in cmd.value && r.Some? ==>
              r.value in exe &&
              exists k | 0 <= k < |SearchDirs(env)| ::
                && r.value == Candidate(SearchDirs(env)[k], cmd.value)
                && forall m | 0 <= m < k :: Candidate(SearchDirs(env)[m], cmd.value) !in exe
    ensures cmd.Some? && cmd.value != "" && '/' !in cmd.value && r.None? ==>
              forall k | 0 <= k < |SearchDirs(env)| :: Candidate(SearchDirs(env)[k], cmd.value) !in exe
  {
    if cmd.None? || cmd.value == "" then None
    else if '/' in cmd.value then cmd
    else
      var dirs := SearchDirs(env);
      var k := FirstHit(dirs, cmd.value, exe, 0);
      if k < 0 then None else Some(Candidate(dirs[k], cmd.value))
  }

  /**
   * find_executable: the strtok_r loop over the search list, returning the
   * first candidate that passes the executable check.
   */
  method FindExecutable(cmd: Option<string>, env: Env, exe: set<string>) returns (r: Option<string>)
    ensures r == Resolve(cmd, env, exe)
  {
    if cmd.None? || cmd.value == "" {
      return None;
    }
    if '/' in cmd.value {
      return cmd;
    }
    var dirs := SearchDirs(env);
    var i := 0;
    while i < |dirs|
      invariant 0 <= i <= |dirs|
      invariant FirstHit(dirs, cmd.value, exe, 0) == FirstHit(dirs, cmd.value, exe, i)
    {
      var candidate := Candidate(dirs[i], cmd.value);
      if candidate in exe {
        return Some(candidate);
      }
      i := i + 1;
    }
    return None;
  }

  /** Why a resolved path cannot be run, as print_exec_error tells it from stat. */
  datatype Why = StatFailed | PermissionDenied | CannotExecute

  /** The diagnostic execute_command prints on standard error before giving up. */
  datatype Diagnostic =
    | NotFound(prog: string)                       // "<prog>: command not found"
    | Unusable(prog: string, path: string, why: Why)
    | ForkFailed                                   // perror("fork")

  /**
   * The parent's view of execute_command: the value returned, errno when
   * the function sets it, the diagnostic printed, the path of the started
   * child, and whether the parent waited for it.
   */
  datatype Launch = Launch(ret: int, errno: Option<Errno>, diag: Option<Diagnostic>,
                           child: Option<string>, waited: bool)

  function Refuse(d: Diagnostic): Launch {
    Launch(-1, None, Some(d), None, false)
  }

  function WhyUnusable(path: string, fs: FileSystem): Why {
    if path !in fs.existing then StatFailed
    else if path !in fs.userExecBit then PermissionDenied
    else CannotExecute
  }

  /**
   * execute_command(argv, fullpath, background). forkPid is what fork
   * returns to the parent: a negative value for failure, else the child's
   * pid. The status waitpid reports is ignored by the source.
   */
  function ExecuteCommand(argv: Option<seq<Option<string>>>, fullpath: Option<string>, background: bool,
                          env: Env, fs: FileSystem, forkPid: int): (r: Launch)
    requires argv.Some? ==> Terminated(argv.value)
    requires forkPid != 0
    ensures argv.None? || argv.value[0].None? ==> r == Launch(-1, Some(EINVAL), None, None, false)
    ensures r.ret == -1 <==> r.child.None?
    ensures r.child.Some? ==>
              && argv.Some? && argv.value[0].Some?
              && r.ret == forkPid && forkPid > 0
              && r.child.value in fs.executable
              && r.child == (if fullpath.Some? then fullpath else Resolve(argv.value[0], env, fs.executable))
              && r.waited == !background
              && r.diag.None?
    ensures argv.Some? && argv.value[0].Some? && fullpath.None? && Resolve(argv.value[0], env, fs.executable).None? ==>
              r == Refuse(NotFound(argv.value[0].value))
    ensures r.child.None? ==> !r.waited
    ensures argv.Some? && argv.value[0].Some? ==>
              var p := if fullpath.Some? then fullpath else Resolve(argv.value[0], env, fs.executable);
              && (p.Some? && p.value !in fs.executable ==>
                    r == Refuse(Unusable(argv.value[0].value, p.value, WhyUnusable(p.value, fs))))
              && (p.Some? && p.value in fs.executable && forkPid < 0 ==> r == Refuse(ForkFailed))
              && (p.Some? && p.value in fs.executable && forkPid > 0 ==> r == Launch(forkPid, None, None, p, !background))
  {
    if argv.None? || argv.value[0].None? then
      Launch(-1, Some(EINVAL), None, None, false)
    else
      var prog := argv.value[0].value;
      var path := if fullpath.Some? then fullpath else Resolve(argv.value[0], env, fs.executable);
      if path.None? then Refuse(NotFound(prog))
      else if path.value !in fs.executable then Refuse(Unusable(prog, path.value, WhyUnusable(path.value, fs)))
      else if forkPid < 0 then Refuse(ForkFailed)
      else Launch(forkPid, None, None, path, !background)
  }

  /** What becomes of the forked child. */
  datatype ChildFate =
    | Exited(status: int)
    | Runs(path: string, args: seq<string>, input: Option<string>, output: Option<string>)

  /**
   * The child of execute_command: apply the redirections of its argument
   * vector, then execv path. execOk is whether execv succeeds. When
   * ExecuteCommand returns a launch whose child is Some(path), this is what
   * becomes of that child (see LaunchedChild).
   */
  function Child(args: seq<string>, path: string, fs: FileSystem, execOk: bool): (f: ChildFate)
    ensures f.Exited? ==> f.status == 1 || f.status == 127
    ensures Redirection.Redirect(args, fs).Exit? ==> f == Exited(1)
    ensures Redirection.Redirect(args, fs).Bound? && !execOk ==> f == Exited(127)
    ensures Redirection.Redirect(args, fs).Bound? && execOk ==>
              var b := Redirection.Redirect(args, fs);
              f == Runs(path, b.args, b.input, b.output)
    ensures f.Runs? ==> forall k | 0 <= k < |f.args| :: !Redirection.IsOp(f.args[k])
  {
    match Redirection.Redirect(args, fs)
    case Exit(status, _) => Exited(status)
    case Bound(input, output, rest) =>
      if execOk then Runs(path, rest, input, output) else Exited(127)
  }

  /**
   * A command launched without redirection operators runs the resolved
   * program on its own argument vector, with the shell's standard input and
   * output, as soon as execv succeeds.
   */
  lemma LaunchedChild(argv: seq<Option<string>>, fullpath: Option<string>, background: bool,
                      env: Env, fs: FileSystem, forkPid: int)
    requires Terminated(argv) && forkPid != 0
    requires forall k | 0 <= k < |Tokens(argv)| :: !Redirection.IsOp(Tokens(argv)[k])
    requires ExecuteCommand(Some(argv), fullpath, background, env, fs, forkPid).child.Some?
    ensures var l := ExecuteCommand(Some(argv), fullpath, background, env, fs, forkPid);
            && Child(Tokens(argv), l.child.value, fs, true) == Runs(l.child.value, Tokens(argv), None, None)
            && Child(Tokens(argv), l.child.value, fs, false) == Exited(127)
  {
    var ts := Tokens(argv);
    Redirection.NoOpsUnbound(ts, fs);
  }
}
