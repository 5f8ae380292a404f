/**
 * The built-in commands: the history of the last three commands that the
 * shell keeps in a fixed array, the listing `exit` prints from it, and the
 * directory choice and result of `cd`.
 */
module Builtins {
  import opened Common

  /** HISTORY_DEPTH: how many commands the history keeps. */
  const HistoryDepth: nat := 3

  /** The history after cmd is added to h: NULL is ignored, and a full history drops its oldest entry. */
  function Remember(h: seq<string>, cmd: Option<string>): (r: seq<string>)
    requires |h| <= HistoryDepth
    ensures |r| <= HistoryDepth
    ensures cmd.None? ==> r == h
    ensures cmd.Some? ==> |r| > 0 && r[|r| - 1] == cmd.value && r[..|r| - 1] == Last(h, HistoryDepth - 1)
  {
    if cmd.None? then h
    else if |h| == HistoryDepth then h[1..] + [cmd.value]
    else h + [cmd.value]
  }

  /** The last n elements of xs, or all of them when there are fewer. */
  function Last(xs: seq<string>, n: nat): (r: seq<string>)
    ensures |r| == if |xs| <= n then |xs| else n
    ensures r == xs[|xs| - |r|..]
  {
    if |xs| <= n then xs else xs[|xs| - n..]
  }

  /** The commands of cmds that are not NULL, in order. */
  function Present(cmds: seq<Option<string>>): (r: seq<string>)
    ensures |r| <= |cmds|
  {
    if |cmds| == 0 then []
    else if cmds[|cmds| - 1].None? then Present(cmds[..|cmds| - 1])
    else Present(cmds[..|cmds| - 1]) + [cmds[|cmds| - 1].value]
  }

  /** The history after cmds are added one after another to an empty one. */
  function Replay(cmds: seq<Option<string>>): (h: seq<string>)
    ensures |h| <= HistoryDepth
  {
    if |cmds| == 0 then []
    else Remember(Replay(cmds[..|cmds| - 1]), cmds[|cmds| - 1])
  }

  /** Adding one element and keeping the last three keeps the last two before it. */
  lemma LastSnoc(xs: seq<string>, x: string)
    ensures Last(xs + [x], HistoryDepth) == Last(xs, HistoryDepth - 1) + [x]
  {
    var ys := xs + [x];
    if |xs| >= HistoryDepth {
      assert ys[|ys| - HistoryDepth..] == xs[|xs| - (HistoryDepth - 1)..] + [x];
    }
  }

  /** The last two of the last three are the last two. */
  lemma LastOfLast(xs: seq<string>)
    ensures Last(Last(xs, HistoryDepth), HistoryDepth - 1) == Last(xs, HistoryDepth - 1)
  {
  }

  /** The history always holds the last three (or fewer) non-NULL commands, oldest first. */
  lemma {:induction false} ReplayKeepsLastThree(cmds: seq<Option<string>>)
    ensures Replay(cmds) == Last(Present(cmds), HistoryDepth)
  {
    if |cmds| > 0 {
      var pre := cmds[..|cmds| - 1];
      ReplayKeepsLastThree(pre);
      var c := cmds[|cmds| - 1];
      if c.Some? {
        var h := Replay(pre);
        var r := Replay(cmds);
        LastSnoc(Present(pre), c.value);
        LastOfLast(Present(pre));
        assert r == r[..|r| - 1] + [r[|r| - 1]];
      }
    }
  }

  /** The commands held in the first n slots, in slot order. */
  function Held(a: seq<Option<string>>, n: nat): (h: seq<string>)
    requires n <= |a| && forall k | 0 <= k < n :: a[k].Some?
    ensures |h| == n && forall k | 0 <= k < n :: a[k] == Some(h[k])
  {
    if n == 0 then [] else Held(a, n - 1) + [a[n - 1].value]
  }

  /** One line of what `exit` prints. */
  datatype ExitLine = Exiting | NoHistory | Header | Entry(number: int, cmd: string)

  /** The numbered rows of the history listing from index i on. */
  function Entries(h: seq<string>, i: nat): (rows: seq<ExitLine>)
    requires i <= |h|
    ensures |rows| == |h| - i
    ensures forall k | 0 <= k < |rows| :: rows[k] == Entry(i + k + 1, h[i + k])
    decreases |h| - i
  {
    if i == |h| then [] else [Entry(i + 1, h[i])] + Entries(h, i + 1)
  }

  /** What builtin_exit prints: a debug line, then the history numbered from 1, or a note that it is empty. */
  function ExitReport(h: seq<string>): (lines: seq<ExitLine>)
    ensures |h| == 0 ==> lines == [Exiting, NoHistory]
    ensures |h| > 0 ==> |lines| == |h| + 2 && lines[..2] == [Exiting, Header] &&
                        forall k | 0 <= k < |h| :: lines[k + 2] == Entry(k + 1, h[k])
  {
    if |h| == 0 then [Exiting, NoHistory] else [Exiting, Header] + Entries(h, 0)
  }

  /** history and history_count. */
  class History {
    const slots: array<Option<string>>
    var count: int

    ghost predicate Valid()
      reads this, slots
    {
      && slots.Length == HistoryDepth
      && 0 <= count <= HistoryDepth
      && forall k | 0 <= k < count :: slots[k].Some?
    }

    /** The commands in the history, oldest first. */
    function Commands(): seq<string>
      requires Valid()
      reads this, slots
    {
      Held(slots[..], count)
    }

    /** The history as the program loads it: empty. */
    constructor ()
      ensures Valid() && Commands() == []
    {
      slots := new Option<string>[HistoryDepth](_ => None);
      count := 0;
    }

    /** add_to_history: drop the oldest command when full, shifting the rest down, then append cmd. */
    method Add(cmd: Option<string>)
      requires Valid()
      modifies this, slots
      ensures Valid() && Commands() == Remember(old(Commands()), cmd)
    {
      if cmd.None? {
        return;
      }
      ghost var h := Commands();
      if count == HistoryDepth {
        for i := 0 to HistoryDepth - 1
          invariant count == HistoryDepth
          invariant forall k | 0 <= k < i :: slots[k] == Some(h[k + 1])
          invariant forall k | i <= k < HistoryDepth :: slots[k] == Some(h[k])
        {
          slots[i] := slots[i + 1];
        }
        count := count - 1;
      }
      slots[count] := cmd;
      count := count + 1;
      assert Commands() == Remember(h, cmd) by {
        var r := Remember(h, cmd);
        forall k | 0 <= k < count
          ensures slots[k] == Some(r[k])
        {
        }
      }
    }

    /** The listing loop of builtin_exit (the shutdown of the job table that precedes it is JobTable.Table.Shutdown). */
    method Exit() returns (lines: seq<ExitLine>)
      requires Valid()
      ensures lines == ExitReport(Commands())
    {
      lines := [Exiting];
      if count == 0 {
        lines := lines + [NoHistory];
        return;
      }
      lines := lines + [Header];
      ghost var h := Commands();
      for i := 0 to count
        invariant |lines| == i + 2 && lines[..2] == [Exiting, Header]
        invariant forall k | 0 <= k < i :: lines[k + 2] == Entry(k + 1, h[k])
      {
        lines := lines + [Entry(i + 1, slots[i].value)];
      }
    }
  }

  /** Why `cd` fails. */
  datatype CdError = HomeUnset | TooManyArguments | ChdirFailed

  /** The result of builtin_cd: the value returned, the directory entered, the error reported. */
  datatype CdResult = CdResult(status: int, entered: Option<string>, error: Option<CdError>)

  /**
   * builtin_cd(args): args[0] is "cd" itself. With no argument the target
   * is HOME, with one it is that argument, with more it is an error.
   * dirs is the set of paths chdir accepts.
   */
  function Cd(args: seq<Option<string>>, env: Env, dirs: set<string>): (r: CdResult)
    requires Terminated(args) && Argc(args) >= 1
    ensures r.status == 1 <==> r.entered.Some?
    ensures r.status == 0 <==> r.error.Some?
    ensures r.entered.Some? ==> r.entered.value in dirs
    ensures Argc(args) == 1 && r.entered.Some? ==> r.entered == GetEnv(env, "HOME")
    ensures Argc(args) == 2 && r.entered.Some? ==> r.entered == args[1]
    ensures Argc(args) == 1 && "HOME" !in env ==> r.error == Some(HomeUnset)
    ensures Argc(args) > 2 ==> r.error == Some(TooManyArguments)
    ensures r.status == 0 || r.status == 1
    ensures Argc(args) == 1 && "HOME" in env ==>
              r == if env["HOME"] in dirs then CdResult(1, Some(env["HOME"]), None) else CdResult(0, None, Some(ChdirFailed))
    ensures Argc(args) == 2 ==>
              r == if args[1].value in dirs then CdResult(1, args[1], None) else CdResult(0, None, Some(ChdirFailed))
  {
    var target :=
      if args[1].None? then GetEnv(env, "HOME")
      else if args[2].None? then args[1]
      else None;
    if args[1].None? && target.None? then CdResult(0, None, Some(HomeUnset))
    else if target.None? then CdResult(0, None, Some(TooManyArguments))
    else if target.value !in dirs then CdResult(0, None, Some(ChdirFailed))
    else CdResult(1, target, None)
  }
}
