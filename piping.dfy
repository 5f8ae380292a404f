/**
 * Pipelines of two or three stages: the `&` test on the last stage, its
 * removal, and the plan of pipe, fork, dup2, close and wait steps that
 * execute_pipeline carries out, as a structured plan.
 */
module Piping {
  import opened Common

  /** The token is the single character `&`. */
  predicate IsAmp(t: string) {
    |t| == 1 && t[0] == '&'
  }

  /** last_is_background: the vector is not NULL, not empty, and its last token is `&`. */
  function LastIsBackground(argv: Option<seq<Option<string>>>): (bg: bool)
    requires argv.Some? ==> Terminated(argv.value)
    ensures bg <==> argv.Some? && |Tokens(argv.value)| > 0 && IsAmp(Tokens(argv.value)[|Tokens(argv.value)| - 1])
  {
    if argv.None? then false
    else
      var n := Argc(argv.value);
      n > 0 && IsAmp(argv.value[n - 1].value)
  }

  // The descriptor plan

  datatype Std = StdIn | StdOut
  datatype End = ReadEnd | WriteEnd

  /** One end of pipe number `pipe` (1 for pipe1, 2 for pipe2). */
  datatype Fd = Fd(pipe: nat, end: End)

  /** dup2(fd, onto). */
  datatype Bind = Bind(fd: Fd, onto: Std)

  /** A forked stage: its dup2 calls, then its close calls, then it runs cmds[stage]. */
  datatype Child = Child(stage: nat, binds: seq<Bind>, closes: seq<Fd>)

  /**
   * What execute_pipeline does after the `&` test: either it gives up after
   * `created` successful pipe() calls, closing the ends in `closed`, or it
   * creates `pipes` pipes, forks the children in order, closes the ends in
   * `closed` and waits `waits` times.
   */
  datatype Pipeline =
    | Aborted(created: nat, closed: seq<Fd>)
    | Launched(pipes: nat, children: seq<Child>, closed: seq<Fd>, waits: nat)

  /** Both ends of pipes 1 .. count are among the closed ends. */
  predicate ClosesAll(closed: seq<Fd>, count: nat) {
    forall p | 1 <= p <= count :: Fd(p, ReadEnd) in closed && Fd(p, WriteEnd) in closed
  }

  /** The shell is left holding a pipe end it created. */
  predicate Leaks(r: Pipeline) {
    !ClosesAll(r.closed, if r.Aborted? then r.created else r.pipes)
  }

  /**
   * The child for stage i of n: standard input from the read end of the
   * pipe in front of it, standard output to the write end of the pipe
   * behind it, and every end of every pipe closed before it runs.
   */
  function ChildOf(n: nat, i: nat): (c: Child)
    requires 2 <= n <= 3 && i < n
    ensures c.stage == i
    ensures ClosesAll(c.closes, n - 1) && |c.closes| == 2 * (n - 1)
    ensures forall fd | fd in c.closes :: 1 <= fd.pipe <= n - 1
    ensures Bind(Fd(i, ReadEnd), StdIn) in c.binds <==> i > 0
    ensures Bind(Fd(i + 1, WriteEnd), StdOut) in c.binds <==> i < n - 1
    ensures forall b | b in c.binds :: b == Bind(Fd(i, ReadEnd), StdIn) || b == Bind(Fd(i + 1, WriteEnd), StdOut)
  {
    var one := [Fd(1, ReadEnd), Fd(1, WriteEnd)];
    var both := [Fd(1, ReadEnd), Fd(1, WriteEnd), Fd(2, ReadEnd), Fd(2, WriteEnd)];
    if n == 2 then
      if i == 0 then Child(0, [Bind(Fd(1, WriteEnd), StdOut)], one)
      else Child(1, [Bind(Fd(1, ReadEnd), StdIn)], one)
    else if i == 0 then Child(0, [Bind(Fd(1, WriteEnd), StdOut)], both)
    else if i == 1 then Child(1, [Bind(Fd(1, ReadEnd), StdIn), Bind(Fd(2, WriteEnd), StdOut)], both)
    else Child(2, [Bind(Fd(2, ReadEnd), StdIn)], [Fd(2, ReadEnd), Fd(2, WriteEnd), Fd(1, ReadEnd), Fd(1, WriteEnd)])
  }

  /** Each pipe joins neighbouring stages: stage i writes pipe i+1 and stage i+1 reads it. */
  lemma Connected(n: nat, i: nat)
    requires 2 <= n <= 3 && i < n - 1
    ensures Bind(Fd(i + 1, WriteEnd), StdOut) in ChildOf(n, i).binds
    ensures Bind(Fd(i + 1, ReadEnd), StdIn) in ChildOf(n, i + 1).binds
    ensures forall j | 0 <= j < n && j != i :: Bind(Fd(i + 1, WriteEnd), StdOut) !in ChildOf(n, j).binds
    ensures forall j | 0 <= j < n && j != i + 1 :: Bind(Fd(i + 1, ReadEnd), StdIn) !in ChildOf(n, j).binds
  {
    forall j | 0 <= j < n && j != i
      ensures Bind(Fd(i + 1, WriteEnd), StdOut) !in ChildOf(n, j).binds
    {
      var c := ChildOf(n, j);
      assert Bind(Fd(i + 1, WriteEnd), StdOut) != Bind(Fd(j, ReadEnd), StdIn);
    }
    forall j | 0 <= j < n && j != i + 1
      ensures Bind(Fd(i + 1, ReadEnd), StdIn) !in ChildOf(n, j).binds
    {
      var c := ChildOf(n, j);
      assert Bind(Fd(i + 1, ReadEnd), StdIn) != Bind(Fd(j + 1, WriteEnd), StdOut);
    }
  }

  /** The children of an n-stage pipeline, in fork order. */
  function Children(n: nat): (cs: seq<Child>)
    requires 2 <= n <= 3
    ensures |cs| == n && forall i | 0 <= i < n :: cs[i] == ChildOf(n, i)
  {
    if n == 2 then [ChildOf(2, 0), ChildOf(2, 1)] else [ChildOf(3, 0), ChildOf(3, 1), ChildOf(3, 2)]
  }

  /** The ends the parent closes once every stage is forked. */
  function ParentCloses(n: nat): (closed: seq<Fd>)
    requires 2 <= n <= 3
    ensures ClosesAll(closed, n - 1)
  {
    if n == 2 then [Fd(1, ReadEnd), Fd(1, WriteEnd)]
    else [Fd(1, ReadEnd), Fd(1, WriteEnd), Fd(2, ReadEnd), Fd(2, WriteEnd)]
  }

  /**
   * execute_pipeline for n stages. ok1 and ok2 are whether pipe() succeeds
   * for pipe1 and pipe2; closeOnFailure is whether pipe1 is closed when
   * pipe2 cannot be created, which the code as written does not do.
   */
  function Launch(n: nat, lastBg: bool, ok1: bool, ok2: bool, closeOnFailure: bool): (r: Pipeline)
    requires 2 <= n <= 3
    ensures r.Aborted? <==> !ok1 || (n == 3 && !ok2)
    ensures r.Aborted? ==> r.created == (if ok1 then 1 else 0)
    ensures r.Launched? ==> r.pipes == n - 1 && r.children == Children(n)
    ensures r.Launched? ==> r.waits == if lastBg then n - 1 else n
  {
    if !ok1 then Aborted(0, [])
    else if n == 3 && !ok2 then Aborted(1, if closeOnFailure then [Fd(1, ReadEnd), Fd(1, WriteEnd)] else [])
    else Launched(n - 1, Children(n), ParentCloses(n), if lastBg then n - 1 else n)
  }

  /** The steps of execute_pipeline as written. */
  function PlanAsWritten(n: nat, lastBg: bool, ok1: bool, ok2: bool): (r: Pipeline)
    requires 2 <= n <= 3
    ensures r.Aborted? <==> !ok1 || (n == 3 && !ok2)
  {
    Launch(n, lastBg, ok1, ok2, false)
  }

  /** The steps of execute_pipeline with pipe1 closed when pipe2 fails: no pipe end is ever left open. */
  function Plan(n: nat, lastBg: bool, ok1: bool, ok2: bool): (r: Pipeline)
    requires 2 <= n <= 3
    ensures !Leaks(r)
    ensures r.Launched? ==> forall c | c in r.children :: ClosesAll(c.closes, r.pipes)
  {
    Launch(n, lastBg, ok1, ok2, true)
  }

  /** As written, a failure of the second pipe() leaves both ends of pipe1 open in the shell. */
  lemma PipeTwoFailureLeaks(lastBg: bool)
    ensures Leaks(PlanAsWritten(3, lastBg, true, false))
  {
    assert Fd(1, ReadEnd) !in PlanAsWritten(3, lastBg, true, false).closed;
  }

  /** The plan is the as-written one in every case except the pipe2 failure. */
  lemma PlanDiffersOnlyOnPipeTwoFailure(n: nat, lastBg: bool, ok1: bool, ok2: bool)
    requires 2 <= n <= 3
    ensures Plan(n, lastBg, ok1, ok2) != PlanAsWritten(n, lastBg, ok1, ok2) <==> ok1 && n == 3 && !ok2
  {
    if ok1 && n == 3 && !ok2 {
      assert |Plan(n, lastBg, ok1, ok2).closed| == 2;
    }
  }

  /**
   * execute_pipeline(cmds, n): strip a trailing `&` from the last stage in
   * place, create the pipes, fork the stages, close the pipe ends in the
   * parent and wait. ok1 and ok2 are what pipe() reports.
   */
  method ExecutePipeline(cmds: seq<array<Option<string>>>, n: int, ok1: bool, ok2: bool)
    returns (lastBg: bool, r: Pipeline)
    requires 2 <= n <= 3 && |cmds| == n
    requires Terminated(cmds[n - 1][..])
    modifies cmds[n - 1]
    ensures lastBg == LastIsBackground(Some(old(cmds[n - 1][..])))
    ensures var before := old(cmds[n - 1][..]);
            if lastBg then cmds[n - 1][..] == before[Argc(before) - 1 := None]
            else cmds[n - 1][..] == before
    ensures r == Plan(n, lastBg, ok1, ok2)
  {
    lastBg := StripBackground(cmds[n - 1]);
    r := Run(n, lastBg, ok1, ok2);
  }

  /** The pipe, fork, close and wait steps of execute_pipeline, after the `&` test. */
  method Run(n: int, lastBg: bool, ok1: bool, ok2: bool) returns (r: Pipeline)
    requires 2 <= n <= 3
    ensures r == Plan(n, lastBg, ok1, ok2)
  {
    if !ok1 {
      return Aborted(0, []);
    }
    if n == 3 && !ok2 {
      return Aborted(1, [Fd(1, ReadEnd), Fd(1, WriteEnd)]);
    }
    var children := [ChildOf(n, 0), ChildOf(n, 1)];
    var closed := [Fd(1, ReadEnd), Fd(1, WriteEnd)];
    if n == 3 {
      children := children + [ChildOf(n, 2)];
      closed := closed + [Fd(2, ReadEnd), Fd(2, WriteEnd)];
    }
    var waits := WaitLoop(n, lastBg);
    return Launched(n - 1, children, closed, waits);
  }

  /** The wait loop: one wait per stage, skipping the round of a backgrounded last stage. */
  method WaitLoop(n: int, lastBg: bool) returns (waits: nat)
    requires n >= 1
    ensures waits == if lastBg then n - 1 else n
  {
    waits := 0;
    for i := 0 to n
      invariant waits == if lastBg && i == n then i - 1 else i
    {
      if i == n - 1 && lastBg {
        continue;
      }
      waits := waits + 1;
    }
  }

  /** The `&` test of execute_pipeline and the removal of that token from the last stage. */
  method StripBackground(argv: array<Option<string>>) returns (bg: bool)
    requires Terminated(argv[..])
    modifies argv
    ensures bg == LastIsBackground(Some(old(argv[..])))
    ensures var before := old(argv[..]);
            if bg then argv[..] == before[Argc(before) - 1 := None] else argv[..] == before
  {
    ghost var before := argv[..];
    var i := 0;
    while argv[i] != None
      invariant 0 <= i <= Argc(before)
      decreases Argc(before) - i
    {
      i := i + 1;
    }
    bg := i > 0 && IsAmp(argv[i - 1].value);
    if bg {
      argv[i - 1] := None;
    }
  }

  /** Stripping leaves the tokens of the last stage without its final `&`. */
  lemma StrippedTokens(before: seq<Option<string>>)
    requires Terminated(before) && LastIsBackground(Some(before))
    ensures Terminated(before[Argc(before) - 1 := None])
    ensures Tokens(before[Argc(before) - 1 := None]) == Tokens(before)[..Argc(before) - 1]
  {
    var n := Argc(before);
    var after := before[n - 1 := None];
    ArgcIsFirstNull(after, n - 1);
    assert Tokens(after) == Tokens(before)[..n - 1];
  }
}
