/**
 * The background job table of the shell, as values: the slot layout of
 * job_t, the bookkeeping counters, and one pure function per operation
 * (register, reap one pid, the reaping loop over waitpid results, the
 * `jobs` listing, shutdown). The class in module JobTable updates a real
 * array in place and is proved to follow these functions; the lemmas here
 * state what the table promises across calls.
 */
module JobSpec {
  import opened Common
  import Strings

  const MaxActiveJobs := 10
  const MaxJobHistory := 1024
  const MaxProcsPerJob := 3

  /** One slot of the table (job_t): pids is the fixed three-entry array, of which nprocs are used. */
  datatype Job = Job(
    active: bool,
    jobno: int,
    pids: seq<int>,
    nprocs: int,
    leaderPid: int,
    remaining: int,
    cmdline: Option<string>)

  /** A slot as memset(0) leaves it. */
  const Zeroed: Job := Job(false, 0, [0, 0, 0], 0, 0, 0, None)

  /** The command line as printed: an absent one prints as "". */
  function CmdText(j: Job): string {
    j.cmdline.GetOr("")
  }

  /** A line the table prints on standard output. */
  datatype Line =
    | Started(jobno: int, leader: int)
    | Done(jobno: int, cmdline: string)
    | Row(jobno: int, mostRecent: bool, leader: int, cmdline: string)

  /** The printf text of each line. */
  function Render(l: Line): string {
    match l
    case Started(n, p) => "[" + Strings.IntToString(n) + "] " + Strings.IntToString(p) + "\n"
    case Done(n, c) => "[" + Strings.IntToString(n) + "]  + done " + c + "\n"
    case Row(n, m, p, c) =>
      "[" + Strings.IntToString(n) + (if m then "]+ " else "]  ") + Strings.IntToString(p) + " " + c + "\n"
  }

  /** The whole table: all 1024 slots, the next slot, the next job number and the active count. */
  datatype TableState = TableState(slots: seq<Job>, nextIndex: int, nextNumber: int, activeCount: int)

  /** Number of active slots among the first n. */
  function CountActive(js: seq<Job>, n: int): nat
    requires 0 <= n <= |js|
    decreases n
  {
    if n == 0 then 0
    else CountActive(js, n - 1) + (if js[n - 1].active then 1 else 0)
  }

  /**
   * The table has its fixed size, the next slot lies within it, and no slot
   * claims more pids than its pids array holds.
   */
  predicate Shaped(s: TableState) {
    && |s.slots| == MaxJobHistory
    && 0 <= s.nextIndex <= MaxJobHistory
    && (forall i | 0 <= i < |s.slots| :: |s.slots[i].pids| == MaxProcsPerJob && 0 <= s.slots[i].nprocs <= MaxProcsPerJob)
  }

  /** An active slot holds 1..3 pids, some still running, and its own command line; a retired one holds nothing. */
  predicate SlotOk(j: Job) {
    if j.active then 1 <= j.nprocs <= MaxProcsPerJob && 1 <= j.remaining <= j.nprocs && j.cmdline.Some?
    else j.nprocs == 0 && j.remaining == 0 && j.cmdline.None?
  }

  /**
   * The table invariant: used slots are well formed, their job numbers
   * increase with the slot index and stay below the next number, and the
   * active count is the number of active used slots, at most 10.
   */
  predicate Valid(s: TableState) {
    && Shaped(s)
    && (forall i | 0 <= i < s.nextIndex :: SlotOk(s.slots[i]))
    && Ordered(s)
    && (forall i | 0 <= i < s.nextIndex :: 1 <= s.slots[i].jobno < s.nextNumber)
    && 1 <= s.nextNumber
    && s.activeCount == CountActive(s.slots, s.nextIndex)
    && s.activeCount <= MaxActiveJobs
  }

  /** Job numbers increase with the slot index over the used slots. */
  predicate Ordered(s: TableState)
    requires Shaped(s)
  {
    forall i, k | 0 <= i < k < s.nextIndex :: s.slots[i].jobno < s.slots[k].jobno
  }

  /** The job numbers of the active used slots. */
  function ActiveNos(s: TableState): set<int>
    requires Shaped(s)
  {
    set k | 0 <= k < s.nextIndex && s.slots[k].active :: s.slots[k].jobno
  }

  /** The table after part_eight_init: every slot zeroed, counters reset. */
  function Initial(): (s: TableState)
    ensures Valid(s)
    ensures s.nextIndex == 0 && s.nextNumber == 1 && s.activeCount == 0
    ensures ActiveNos(s) == {}
  {
    TableState(seq(MaxJobHistory, _ => Zeroed), 0, 1, 0)
  }

  // ---------------------------------------------------------------- lookups

  /** The slot is active and pid is one of its nprocs stored pids. */
  predicate Holds(j: Job, pid: int) {
    j.active && 0 <= j.nprocs <= |j.pids| && pid in j.pids[..j.nprocs]
  }

  /** The first slot in [i, n) whose job holds pid, or -1 (find_job_by_pid from slot i on). */
  function FindFrom(slots: seq<Job>, i: int, n: int, pid: int): (r: int)
    requires 0 <= i <= n <= |slots|
    ensures r == -1 || i <= r < n
    ensures r == -1 <==> forall k | i <= k < n :: !Holds(slots[k], pid)
    ensures r != -1 ==> Holds(slots[r], pid) && forall k | i <= k < r :: !Holds(slots[k], pid)
    decreases n - i
  {
    if i == n then -1
    else if Holds(slots[i], pid) then i
    else FindFrom(slots, i + 1, n, pid)
  }

  /** find_job_by_pid: the first used slot whose active job holds pid, or -1. */
  function FindJob(s: TableState, pid: int): int
    requires Shaped(s)
  {
    FindFrom(s.slots, 0, s.nextIndex, pid)
  }

  /**
   * find_most_recent_active_job_index over the slots [0, n): the active slot
   * with the largest job number (the first one on a tie), starting from a
   * best job number of -1; -1 when no active slot beats that.
   */
  function MostRecentIn(slots: seq<Job>, n: int): (r: int)
    requires 0 <= n <= |slots|
    ensures -1 <= r < n
    ensures r >= 0 ==> slots[r].active && slots[r].jobno > -1
    ensures r >= 0 ==> forall i | 0 <= i < n && slots[i].active :: slots[i].jobno <= slots[r].jobno
    ensures r >= 0 ==> forall i | 0 <= i < r && slots[i].active :: slots[i].jobno < slots[r].jobno
    ensures r == -1 <==> forall i | 0 <= i < n && slots[i].active :: slots[i].jobno <= -1
    decreases n
  {
    if n == 0 then -1
    else
      var b := MostRecentIn(slots, n - 1);
      var bestNo := if b == -1 then -1 else slots[b].jobno;
      if slots[n - 1].active && slots[n - 1].jobno > bestNo then n - 1 else b
  }

  // ------------------------------------------------------------ registering

  /** What part_eight_add_job returns: the job number, or -1 with errno. */
  datatype AddOutcome = Added(jobno: int) | Refused(err: Errno)

  datatype AddStep = AddStep(state: TableState, outcome: AddOutcome, lines: seq<Line>)

  /** The caller's pids array has at least nprocs entries whenever add_job reads it. */
  predicate PidsReadable(pids: Option<seq<int>>, nprocs: int) {
    pids.Some? && 1 <= nprocs <= MaxProcsPerJob ==> nprocs <= |pids.value|
  }

  /** The arguments pass the EINVAL check. */
  predicate ArgsOk(cmdline: Option<string>, pids: Option<seq<int>>, nprocs: int) {
    cmdline.Some? && pids.Some? && 1 <= nprocs <= MaxProcsPerJob
  }

  /**
   * part_eight_add_job. `copied` is whether strdup of the command line
   * succeeds; when it does not, the job number is used up but the slot is
   * not taken.
   */
  function Add(s: TableState, cmdline: Option<string>, pids: Option<seq<int>>, nprocs: int,
               leader: int, copied: bool): (r: AddStep)
    requires Shaped(s)
    requires PidsReadable(pids, nprocs)
    ensures r.outcome == Refused(EINVAL) <==> !ArgsOk(cmdline, pids, nprocs)
    ensures r.outcome == Refused(EBUSY) <==> ArgsOk(cmdline, pids, nprocs) && s.activeCount >= MaxActiveJobs
    ensures r.outcome.Added? <==>
              ArgsOk(cmdline, pids, nprocs) && s.activeCount < MaxActiveJobs && s.nextIndex < MaxJobHistory && copied
    ensures r.outcome == Refused(ENOMEM) <==>
              ArgsOk(cmdline, pids, nprocs) && s.activeCount < MaxActiveJobs && (s.nextIndex >= MaxJobHistory || !copied)
    // every refusal except a failed copy leaves the table untouched and prints nothing
    ensures r.outcome.Refused? && (r.outcome.err != ENOMEM || s.nextIndex >= MaxJobHistory) ==>
              r.state == s && r.lines == []
    // a failed copy consumes a job number and nothing else
    ensures r.outcome == Refused(ENOMEM) && s.nextIndex < MaxJobHistory ==>
              && r.state.nextNumber == s.nextNumber + 1
              && r.state.nextIndex == s.nextIndex && r.state.activeCount == s.activeCount
              && |r.state.slots| == |s.slots|
              && r.state.slots[..s.nextIndex] == s.slots[..s.nextIndex]
              && r.lines == []
    ensures r.outcome.Added? ==>
              && 0 <= s.nextIndex < |s.slots|
              && r.outcome.jobno == s.nextNumber
              && r.state.nextNumber == s.nextNumber + 1
              && r.state.nextIndex == s.nextIndex + 1
              && r.state.activeCount == s.activeCount + 1
              && |r.state.slots| == |s.slots|
              && (forall i | 0 <= i < |s.slots| && i != s.nextIndex :: r.state.slots[i] == s.slots[i])
              && var j := r.state.slots[s.nextIndex];
                 && j.active && j.jobno == s.nextNumber && j.leaderPid == leader
                 && j.nprocs == nprocs && j.remaining == nprocs
                 && |j.pids| == MaxProcsPerJob && j.pids[..nprocs] == pids.value[..nprocs]
                 && j.cmdline == cmdline
                 && r.lines == [Started(s.nextNumber, leader)]
  {
    if cmdline.None? || pids.None? || nprocs <= 0 || nprocs > MaxProcsPerJob then
      AddStep(s, Refused(EINVAL), [])
    else if s.activeCount >= MaxActiveJobs then
      AddStep(s, Refused(EBUSY), [])
    else if s.nextIndex >= MaxJobHistory then
      AddStep(s, Refused(ENOMEM), [])
    else
      var prev := s.slots[s.nextIndex];
      var job := prev.(active := true, jobno := s.nextNumber, nprocs := nprocs,
                       remaining := nprocs, leaderPid := leader);
      if !copied then
        AddStep(s.(slots := s.slots[s.nextIndex := job.(cmdline := None)], nextNumber := s.nextNumber + 1),
                Refused(ENOMEM), [])
      else
        var stored := job.(cmdline := cmdline, pids := pids.value[..nprocs] + prev.pids[nprocs..]);
        assert stored.pids[..nprocs] == pids.value[..nprocs];
        AddStep(TableState(s.slots[s.nextIndex := stored], s.nextIndex + 1, s.nextNumber + 1, s.activeCount + 1),
                Added(s.nextNumber), [Started(s.nextNumber, leader)])
  }

  /** Counting does not look at slots at or beyond n. */
  lemma {:induction false} CountActiveSame(js: seq<Job>, ks: seq<Job>, n: int)
    requires 0 <= n <= |js| && n <= |ks|
    requires forall i | 0 <= i < n :: js[i].active == ks[i].active
    ensures CountActive(js, n) == CountActive(ks, n)
    decreases n
  {
    if n > 0 {
      CountActiveSame(js, ks, n - 1);
    }
  }

  /** Replacing slot i below n changes the count by the change in that slot alone. */
  lemma {:induction false} CountActiveUpdate(js: seq<Job>, n: int, i: int, j: Job)
    requires 0 <= i < n <= |js|
    ensures CountActive(js[i := j], n) ==
            CountActive(js, n) - (if js[i].active then 1 else 0) + (if j.active then 1 else 0)
    decreases n
  {
    if i == n - 1 {
      CountActiveSame(js, js[i := j], n - 1);
    } else {
      CountActiveUpdate(js, n - 1, i, j);
    }
  }

  /** Registering keeps the table invariant, whatever the outcome. */
  lemma AddPreservesValid(s: TableState, cmdline: Option<string>, pids: Option<seq<int>>, nprocs: int,
                          leader: int, copied: bool)
    requires Valid(s)
    requires PidsReadable(pids, nprocs)
    ensures Valid(Add(s, cmdline, pids, nprocs, leader, copied).state)
  {
    var r := Add(s, cmdline, pids, nprocs, leader, copied);
    if r.outcome.Added? {
      CountActiveSame(s.slots, r.state.slots, s.nextIndex);
    } else if r.outcome == Refused(ENOMEM) && s.nextIndex < MaxJobHistory {
      CountActiveSame(s.slots, r.state.slots, s.nextIndex);
    }
  }

  // ---------------------------------------------------------------- reaping

  datatype Reap = Reap(state: TableState, lines: seq<Line>)

  /**
   * One pass of the reaping loop for a reaped pid: the job holding it loses
   * one running process; when none is left the job prints its completion
   * line, gives up its command line and becomes inactive.
   */
  function ReapPid(s: TableState, pid: int): (r: Reap)
    requires Shaped(s)
    ensures Shaped(r.state)
    ensures FindJob(s, pid) == -1 ==> r == Reap(s, [])
    ensures FindJob(s, pid) != -1 ==>
              var i := FindJob(s, pid);
              var j := s.slots[i];
              && r.state.nextIndex == s.nextIndex && r.state.nextNumber == s.nextNumber
              && |r.state.slots| == |s.slots|
              && (forall k | 0 <= k < |s.slots| && k != i :: r.state.slots[k] == s.slots[k])
              && if j.remaining <= 1 then
                   && r.lines == [Done(j.jobno, CmdText(j))]
                   && r.state.slots[i] == j.(active := false, nprocs := 0, remaining := 0, cmdline := None)
                   && r.state.activeCount == s.activeCount - 1
                 else
                   && r.lines == []
                   && r.state.slots[i] == j.(remaining := j.remaining - 1)
                   && r.state.activeCount == s.activeCount
  {
    var i := FindJob(s, pid);
    if i == -1 then Reap(s, [])
    else
      var j := s.slots[i];
      var rem := j.remaining - 1;
      if rem <= 0 then
        Reap(s.(slots := s.slots[i := j.(cmdline := None, active := false, nprocs := 0, remaining := 0)],
                activeCount := s.activeCount - 1),
             [Done(j.jobno, CmdText(j))])
      else
        Reap(s.(slots := s.slots[i := j.(remaining := rem)]), [])
  }

  /** Reaping keeps the table invariant. */
  lemma ReapPreservesValid(s: TableState, pid: int)
    requires Valid(s)
    ensures Valid(ReapPid(s, pid).state)
  {
    var i := FindJob(s, pid);
    if i != -1 {
      var r := ReapPid(s, pid);
      assert r.state.slots == s.slots[i := r.state.slots[i]];
      CountActiveUpdate(s.slots, s.nextIndex, i, r.state.slots[i]);
    }
  }

  /**
   * A reap either changes no active job, or retires exactly one active job
   * and prints exactly its completion line.
   */
  lemma ReapRetiresOnce(s: TableState, pid: int)
    requires Valid(s)
    ensures var r := ReapPid(s, pid);
            || (r.lines == [] && ActiveNos(r.state) == ActiveNos(s) && r.state.activeCount == s.activeCount)
            || (&& |r.lines| == 1 && r.lines[0].Done?
                && r.lines[0].jobno in ActiveNos(s)
                && ActiveNos(r.state) == ActiveNos(s) - {r.lines[0].jobno}
                && r.state.activeCount == s.activeCount - 1)
  {
    var r := ReapPid(s, pid);
    var i := FindJob(s, pid);
    if i != -1 {
      var n := s.slots[i].jobno;
      if r.lines != [] {
        assert n in ActiveNos(s);
        forall x | x in ActiveNos(r.state) ensures x in ActiveNos(s) - {n} {
          var k :| 0 <= k < r.state.nextIndex && r.state.slots[k].active && r.state.slots[k].jobno == x;
          assert k != i && r.state.slots[k] == s.slots[k];
          assert s.slots[k].jobno != s.slots[i].jobno by {
            if k < i {} else {}
          }
        }
        forall x | x in ActiveNos(s) - {n} ensures x in ActiveNos(r.state) {
          var k :| 0 <= k < s.nextIndex && s.slots[k].active && s.slots[k].jobno == x;
          assert k != i;
          assert r.state.slots[k] == s.slots[k];
        }
      } else {
        forall x | x in ActiveNos(r.state) ensures x in ActiveNos(s) {
          var k :| 0 <= k < r.state.nextIndex && r.state.slots[k].active && r.state.slots[k].jobno == x;
          assert s.slots[k].active && s.slots[k].jobno == x;
        }
        forall x | x in ActiveNos(s) ensures x in ActiveNos(r.state) {
          var k :| 0 <= k < s.nextIndex && s.slots[k].active && s.slots[k].jobno == x;
          assert r.state.slots[k].active && r.state.slots[k].jobno == x;
        }
      }
    }
  }

  /** What one waitpid(-1, &status, WNOHANG) call reports: a pid, or 0, or -1 with errno. */
  datatype WaitResult = WaitResult(pid: int, errno: Errno)

  /** The reaping loop goes on after this result: a reaped child, or an interrupted call. */
  predicate Continues(w: WaitResult) {
    w.pid > 0 || (w.pid < 0 && w.errno == EINTR)
  }

  datatype Reaping = Reaping(state: TableState, lines: seq<Line>, consumed: nat)

  /**
   * part_eight_check_jobs fed with the waitpid results in order: it reaps
   * each pid, retries on EINTR, and stops at 0, ECHILD or any other error
   * (or when the results run out). `consumed` counts the calls made.
   */
  function CheckJobs(s: TableState, ws: seq<WaitResult>): (r: Reaping)
    requires Shaped(s)
    ensures Shaped(r.state)
    ensures r.state.nextIndex == s.nextIndex && r.state.nextNumber == s.nextNumber
    decreases |ws|
  {
    if ws == [] then Reaping(s, [], 0)
    else if !Continues(ws[0]) then Reaping(s, [], 1)
    else
      var step := Poll(s, ws[0]);
      var rest := CheckJobs(step.state, ws[1..]);
      Reaping(rest.state, step.lines + rest.lines, rest.consumed + 1)
  }

  /**
   * The loop makes exactly the calls up to and including the first one
   * that reports nothing to reap or an error other than EINTR, or all of
   * them when there is no such call.
   */
  lemma {:induction false} CheckJobsStopsAtFirstStop(s: TableState, ws: seq<WaitResult>)
    requires Shaped(s)
    ensures CheckJobs(s, ws).consumed <= |ws|
    ensures forall k | 0 <= k < CheckJobs(s, ws).consumed - 1 :: Continues(ws[k])
    ensures CheckJobs(s, ws).consumed == |ws| || !Continues(ws[CheckJobs(s, ws).consumed - 1])
    decreases |ws|
  {
    if ws != [] && Continues(ws[0]) {
      var p := Poll(s, ws[0]);
      CheckJobsStopsAtFirstStop(p.state, ws[1..]);
      var n := CheckJobs(p.state, ws[1..]).consumed;
      forall k | 0 <= k < n ensures Continues(ws[k]) {
        if k > 0 { assert ws[k] == ws[1..][k - 1]; }
      }
    }
  }

  /** The reaping loop after its first waitpid call. */
  lemma CheckJobsStep(s: TableState, w: WaitResult, rest: seq<WaitResult>)
    requires Shaped(s)
    ensures CheckJobs(s, [w] + rest) ==
            if !Continues(w) then Reaping(s, [], 1)
            else
              var step := Poll(s, w);
              var more := CheckJobs(step.state, rest);
              Reaping(more.state, step.lines + more.lines, more.consumed + 1)
  {
    assert ([w] + rest)[1..] == rest;
  }

  /**
   * The reaping loop, stopped after k calls that printed `emitted` and left
   * table s, still has ws to go and will end with `target`.
   */
  predicate Resumes(target: Reaping, s: TableState, ws: seq<WaitResult>, emitted: seq<Line>, k: nat) {
    && Shaped(s)
    && var r := CheckJobs(s, ws);
       target == Reaping(r.state, emitted + r.lines, k + r.consumed)
  }

  lemma ResumeStart(s: TableState, ws: seq<WaitResult>)
    requires Shaped(s)
    ensures Resumes(CheckJobs(s, ws), s, ws, [], 0)
  {
    assert [] + CheckJobs(s, ws).lines == CheckJobs(s, ws).lines;
  }

  lemma ResumeStep(target: Reaping, s: TableState, w: WaitResult, rest: seq<WaitResult>, emitted: seq<Line>, k: nat)
    requires Resumes(target, s, [w] + rest, emitted, k)
    ensures Continues(w) ==> Resumes(target, Poll(s, w).state, rest, emitted + Poll(s, w).lines, k + 1)
    ensures !Continues(w) ==> target == Reaping(s, emitted, k + 1)
  {
    CheckJobsStep(s, w, rest);
    if Continues(w) {
      var p := Poll(s, w);
      var more := CheckJobs(p.state, rest);
      assert emitted + (p.lines + more.lines) == emitted + p.lines + more.lines;
    } else {
      assert emitted + [] == emitted;
    }
  }

  lemma ResumeEnd(target: Reaping, s: TableState, emitted: seq<Line>, k: nat)
    requires Resumes(target, s, [], emitted, k)
    ensures target == Reaping(s, emitted, k)
  {
    assert emitted + [] == emitted;
  }

  /** One pass of the loop that goes on: reap the pid, or nothing after an interrupted call. */
  function Poll(s: TableState, w: WaitResult): (r: Reap)
    requires Shaped(s)
    ensures Shaped(r.state)
    ensures r.state.nextIndex == s.nextIndex && r.state.nextNumber == s.nextNumber
    ensures w.pid <= 0 ==> r == Reap(s, [])
  {
    if w.pid > 0 then ReapPid(s, w.pid) else Reap(s, [])
  }

  /** A whole reaping pass keeps the table invariant. */
  lemma {:induction false} CheckJobsPreservesValid(s: TableState, ws: seq<WaitResult>)
    requires Valid(s)
    ensures Valid(CheckJobs(s, ws).state)
    decreases |ws|
  {
    if ws != [] && Continues(ws[0]) {
      if ws[0].pid > 0 {
        ReapPreservesValid(s, ws[0].pid);
      }
      CheckJobsPreservesValid(Poll(s, ws[0]).state, ws[1..]);
    }
  }

  /** The job numbers on a run of lines. */
  function NosOf(lines: seq<Line>): set<int> {
    set k | 0 <= k < |lines| :: lines[k].jobno
  }

  /** Every line is the completion of a job numbered in `nos`, and no job completes twice. */
  predicate Completions(lines: seq<Line>, nos: set<int>) {
    && (forall k | 0 <= k < |lines| :: lines[k].Done? && lines[k].jobno in nos)
    && (forall a, b | 0 <= a < b < |lines| :: lines[a].jobno != lines[b].jobno)
  }

  /** Putting the completion of one job in front of the completions of the rest. */
  lemma PrependCompletion(before: set<int>, after: set<int>, first: seq<Line>, rest: seq<Line>)
    requires |first| == 1 && first[0].Done? && first[0].jobno in before
    requires after == before - {first[0].jobno}
    requires Completions(rest, after)
    ensures Completions(first + rest, before)
    ensures before - NosOf(first + rest) == after - NosOf(rest)
  {
    var lines := first + rest;
    forall k | 0 <= k < |lines| ensures lines[k].Done? && lines[k].jobno in before {
      if k > 0 { assert lines[k] == rest[k - 1]; }
    }
    forall a, b | 0 <= a < b < |lines| ensures lines[a].jobno != lines[b].jobno {
      assert lines[b] == rest[b - 1];
      if a > 0 { assert lines[a] == rest[a - 1]; }
    }
    assert NosOf(lines) == {first[0].jobno} + NosOf(rest) by {
      forall x | x in NosOf(lines) ensures x in {first[0].jobno} + NosOf(rest) {
        var k :| 0 <= k < |lines| && lines[k].jobno == x;
        if k > 0 { assert lines[k] == rest[k - 1]; }
      }
      forall x | x in NosOf(rest) ensures x in NosOf(lines) {
        var k :| 0 <= k < |rest| && rest[k].jobno == x;
        assert lines[k + 1] == rest[k];
      }
      assert lines[0] == first[0];
    }
  }

  /**
   * Across one reaping pass every printed line is the completion of a job
   * that was active, no job completes twice, exactly the printed jobs leave
   * the active set, and the active count falls by the number of lines.
   */
  lemma {:induction false} CheckJobsCompletesOnce(s: TableState, ws: seq<WaitResult>)
    requires Valid(s)
    ensures var r := CheckJobs(s, ws);
            && Completions(r.lines, ActiveNos(s))
            && ActiveNos(r.state) == ActiveNos(s) - NosOf(r.lines)
            && |r.lines| == s.activeCount - r.state.activeCount
    decreases |ws|
  {
    if ws != [] && Continues(ws[0]) {
      var step := Poll(s, ws[0]);
      if ws[0].pid > 0 {
        ReapRetiresOnce(s, ws[0].pid);
        ReapPreservesValid(s, ws[0].pid);
      }
      CheckJobsCompletesOnce(step.state, ws[1..]);
      var rest := CheckJobs(step.state, ws[1..]);
      if step.lines != [] {
        PrependCompletion(ActiveNos(s), ActiveNos(step.state), step.lines, rest.lines);
      } else {
        assert step.lines + rest.lines == rest.lines;
      }
    }
  }

  // ---------------------------------------------------------------- listing

  /** The `jobs` rows of the active slots in [0, n), in slot order, with `+` on slot mr. */
  function Rows(slots: seq<Job>, n: int, mr: int): seq<Line>
    requires 0 <= n <= |slots|
    decreases n
  {
    if n == 0 then []
    else
      var j := slots[n - 1];
      Rows(slots, n - 1, mr) + (if j.active then [Row(j.jobno, n - 1 == mr, j.leaderPid, CmdText(j))] else [])
  }

  /** part_eight_jobs_builtin: one row per active used slot, `+` on the most recent one. */
  function Listing(s: TableState): seq<Line>
    requires Shaped(s)
  {
    Rows(s.slots, s.nextIndex, MostRecentIn(s.slots, s.nextIndex))
  }

  /** The number of rows that carry the `+` marker. */
  function MarkedCount(rows: seq<Line>): nat
    decreases |rows|
  {
    if rows == [] then 0
    else MarkedCount(rows[..|rows| - 1]) + (if rows[|rows| - 1].Row? && rows[|rows| - 1].mostRecent then 1 else 0)
  }

  lemma {:induction false} MarkedCountAppend(rows: seq<Line>, more: seq<Line>)
    ensures MarkedCount(rows + more) == MarkedCount(rows) + MarkedCount(more)
    decreases |more|
  {
    if more == [] {
      assert rows + more == rows;
    } else {
      var last := |more| - 1;
      assert (rows + more)[..|rows + more| - 1] == rows + more[..last];
      MarkedCountAppend(rows, more[..last]);
    }
  }

  /** There is one row per active slot, and exactly one is marked when the marked slot is active. */
  lemma {:induction false} RowsCount(slots: seq<Job>, n: int, mr: int)
    requires 0 <= n <= |slots|
    ensures |Rows(slots, n, mr)| == CountActive(slots, n)
    ensures MarkedCount(Rows(slots, n, mr)) == (if 0 <= mr < n && slots[mr].active then 1 else 0)
    decreases n
  {
    if n > 0 {
      RowsCount(slots, n - 1, mr);
      var j := slots[n - 1];
      var more: seq<Line> := if j.active then [Row(j.jobno, n - 1 == mr, j.leaderPid, CmdText(j))] else [];
      MarkedCountAppend(Rows(slots, n - 1, mr), more);
      assert MarkedCount(more) == (if j.active && n - 1 == mr then 1 else 0) by {
        if more != [] { assert more[..0] == []; }
      }
    }
  }

  /**
   * The row is that of an active slot below n, with its job number, leader
   * pid and command line, and a marked row is that of slot mr.
   */
  predicate RowFrom(slots: seq<Job>, n: int, mr: int, l: Line)
    requires 0 <= n <= |slots|
  {
    && l.Row?
    && (exists k :: 0 <= k < n && slots[k].active && slots[k].jobno == l.jobno &&
                    slots[k].leaderPid == l.leader && l.cmdline == CmdText(slots[k]))
    && (l.mostRecent ==> 0 <= mr < n && l.jobno == slots[mr].jobno)
  }

  /** Every row comes from an active slot below n, the marked one from slot mr. */
  lemma {:induction false} RowsFromActive(slots: seq<Job>, n: int, mr: int)
    requires 0 <= n <= |slots|
    ensures forall a | 0 <= a < |Rows(slots, n, mr)| :: RowFrom(slots, n, mr, Rows(slots, n, mr)[a])
    decreases n
  {
    if n > 0 {
      RowsFromActive(slots, n - 1, mr);
      var prev := Rows(slots, n - 1, mr);
      var rows := Rows(slots, n, mr);
      var j := slots[n - 1];
      assert rows == prev + (if j.active then [Row(j.jobno, n - 1 == mr, j.leaderPid, CmdText(j))] else []);
      forall a | 0 <= a < |rows| ensures RowFrom(slots, n, mr, rows[a]) {
        if a < |prev| {
          assert rows[a] == prev[a] && RowFrom(slots, n - 1, mr, prev[a]);
          var k :| 0 <= k < n - 1 && slots[k].active && slots[k].jobno == prev[a].jobno;
        } else {
          assert j.active && rows[a] == Row(j.jobno, n - 1 == mr, j.leaderPid, CmdText(j));
        }
      }
    }
  }

  /** Rows appear in slot order, so with increasing job numbers. */
  lemma {:induction false} RowsOrdered(slots: seq<Job>, n: int, mr: int)
    requires 0 <= n <= |slots|
    requires forall i, k | 0 <= i < k < n :: slots[i].jobno < slots[k].jobno
    ensures forall a, b | 0 <= a < b < |Rows(slots, n, mr)| :: Rows(slots, n, mr)[a].jobno < Rows(slots, n, mr)[b].jobno
    decreases n
  {
    if n > 0 {
      RowsOrdered(slots, n - 1, mr);
      RowsFromActive(slots, n - 1, mr);
      var prev := Rows(slots, n - 1, mr);
      var rows := Rows(slots, n, mr);
      var j := slots[n - 1];
      assert rows == prev + (if j.active then [Row(j.jobno, n - 1 == mr, j.leaderPid, CmdText(j))] else []);
      forall a, b | 0 <= a < b < |rows| ensures rows[a].jobno < rows[b].jobno {
        assert rows[a] == prev[a];
        if b >= |prev| {
          assert RowFrom(slots, n - 1, mr, prev[a]);
          var k :| 0 <= k < n - 1 && slots[k].active && slots[k].jobno == prev[a].jobno;
        } else {
          assert rows[b] == prev[b];
        }
      }
    }
  }

  /** The line is the `jobs` row of the active job j: its number, its leader pid and its command line. */
  predicate Shows(l: Line, j: Job) {
    j.active && l.Row? && l.jobno == j.jobno && l.leader == j.leaderPid && l.cmdline == CmdText(j)
  }

  /**
   * The listing holds exactly the active jobs, one row each, in slot order
   * and so in increasing job number; each row shows its job's number,
   * leader pid and command line.
   */
  lemma ListingIsActiveJobs(s: TableState)
    requires Shaped(s) && Ordered(s) && s.activeCount == CountActive(s.slots, s.nextIndex)
    ensures |Listing(s)| == s.activeCount
    ensures forall a | 0 <= a < |Listing(s)| :: Listing(s)[a].Row? && Listing(s)[a].jobno in ActiveNos(s)
    ensures forall x | x in ActiveNos(s) :: Listed(Listing(s), x)
    ensures forall a, b | 0 <= a < b < |Listing(s)| :: Listing(s)[a].jobno < Listing(s)[b].jobno
    ensures forall a | 0 <= a < |Listing(s)| ::
              exists k | 0 <= k < s.nextIndex :: Shows(Listing(s)[a], s.slots[k])
  {
    var mr := MostRecentIn(s.slots, s.nextIndex);
    var rows := Listing(s);
    assert |rows| == s.activeCount by {
      RowsCount(s.slots, s.nextIndex, mr);
    }
    forall a | 0 <= a < |rows| ensures rows[a].Row? && rows[a].jobno in ActiveNos(s) {
      RowsFromActive(s.slots, s.nextIndex, mr);
      assert RowFrom(s.slots, s.nextIndex, mr, rows[a]);
      var k :| 0 <= k < s.nextIndex && s.slots[k].active && s.slots[k].jobno == rows[a].jobno;
    }
    forall x | x in ActiveNos(s) ensures Listed(rows, x) {
      RowsCoverActive(s.slots, s.nextIndex, mr);
      var k :| 0 <= k < s.nextIndex && s.slots[k].active && s.slots[k].jobno == x;
    }
    RowsOrdered(s.slots, s.nextIndex, mr);
    forall a | 0 <= a < |Listing(s)|
      ensures exists k | 0 <= k < s.nextIndex :: Shows(Listing(s)[a], s.slots[k])
    {
      RowsFromActive(s.slots, s.nextIndex, mr);
      assert RowFrom(s.slots, s.nextIndex, mr, Listing(s)[a]);
      var k :| 0 <= k < s.nextIndex && s.slots[k].active && s.slots[k].jobno == Listing(s)[a].jobno &&
               s.slots[k].leaderPid == Listing(s)[a].leader && Listing(s)[a].cmdline == CmdText(s.slots[k]);
      assert Shows(Listing(s)[a], s.slots[k]);
    }
  }

  /**
   * Exactly one row carries the `+` marker when any job is active (none
   * otherwise), and it is the row with the highest job number.
   */
  lemma ListingMarksMostRecent(s: TableState)
    requires Shaped(s) && s.activeCount == CountActive(s.slots, s.nextIndex)
    requires forall i | 0 <= i < s.nextIndex :: s.slots[i].jobno >= 0
    ensures MarkedCount(Listing(s)) == (if s.activeCount == 0 then 0 else 1)
    ensures forall a, b | 0 <= a < |Listing(s)| && 0 <= b < |Listing(s)| && Listing(s)[a].Row? && Listing(s)[a].mostRecent ::
              Listing(s)[b].jobno <= Listing(s)[a].jobno
  {
    var mr := MostRecentIn(s.slots, s.nextIndex);
    var rows := Listing(s);
    assert MarkedCount(rows) == (if s.activeCount == 0 then 0 else 1) by {
      RowsCount(s.slots, s.nextIndex, mr);
      CountActiveZero(s.slots, s.nextIndex);
    }
    forall a, b | 0 <= a < |rows| && 0 <= b < |rows| && rows[a].Row? && rows[a].mostRecent
      ensures rows[b].jobno <= rows[a].jobno
    {
      RowsFromActive(s.slots, s.nextIndex, mr);
      assert RowFrom(s.slots, s.nextIndex, mr, rows[a]);
      assert RowFrom(s.slots, s.nextIndex, mr, rows[b]);
    }
  }

  /** No job is counted exactly when no slot is active. */
  lemma {:induction false} CountActiveZero(js: seq<Job>, n: int)
    requires 0 <= n <= |js|
    ensures CountActive(js, n) == 0 <==> forall i | 0 <= i < n :: !js[i].active
    decreases n
  {
    if n > 0 {
      CountActiveZero(js, n - 1);
    }
  }

  /** Some row carries job number x. */
  predicate Listed(rows: seq<Line>, x: int) {
    exists a :: 0 <= a < |rows| && rows[a].jobno == x
  }

  /** Every active slot below n has its row. */
  lemma {:induction false} RowsCoverActive(slots: seq<Job>, n: int, mr: int)
    requires 0 <= n <= |slots|
    ensures forall k | 0 <= k < n && slots[k].active :: Listed(Rows(slots, n, mr), slots[k].jobno)
    decreases n
  {
    if n > 0 {
      RowsCoverActive(slots, n - 1, mr);
      var prev := Rows(slots, n - 1, mr);
      var rows := Rows(slots, n, mr);
      var j := slots[n - 1];
      assert rows == prev + (if j.active then [Row(j.jobno, n - 1 == mr, j.leaderPid, CmdText(j))] else []);
      forall k | 0 <= k < n && slots[k].active ensures Listed(rows, slots[k].jobno) {
        if k < n - 1 {
          assert Listed(prev, slots[k].jobno);
          var a :| 0 <= a < |prev| && prev[a].jobno == slots[k].jobno;
          assert rows[a] == prev[a];
        } else {
          assert rows[|prev|].jobno == slots[k].jobno;
        }
      }
    }
  }

  // --------------------------------------------------------------- shutdown

  /**
   * part_eight_shutdown: every used slot gives up its command line and the
   * counters go back to their initial values.
   */
  function Shutdown(s: TableState): (r: TableState)
    requires Shaped(s)
    ensures Valid(r) && ActiveNos(r) == {}
    ensures r.nextIndex == 0 && r.activeCount == 0 && r.nextNumber == 1
    ensures |r.slots| == |s.slots|
    ensures forall i | 0 <= i < s.nextIndex :: r.slots[i].cmdline.None?
    ensures forall i | 0 <= i < |s.slots| :: r.slots[i] == s.slots[i].(cmdline := r.slots[i].cmdline)
    ensures forall i | s.nextIndex <= i < |s.slots| :: r.slots[i] == s.slots[i]
  {
    var slots := seq(|s.slots|, i requires 0 <= i < |s.slots| =>
                       if i < s.nextIndex then s.slots[i].(cmdline := None) else s.slots[i]);
    TableState(slots, 0, 1, 0)
  }

  /** Shutting down twice leaves the same table as shutting down once. */
  lemma ShutdownIdempotent(s: TableState)
    requires Shaped(s)
    ensures Shutdown(Shutdown(s)) == Shutdown(s)
  {
    var once := Shutdown(s);
    assert Shutdown(once).slots == once.slots;
  }

  // ------------------------------------------------------------ a session

  /** A call the shell makes on the table between init and shutdown. */
  datatype Op =
    | AddOp(cmdline: Option<string>, pids: Option<seq<int>>, nprocs: int, leader: int, copied: bool)
    | ReapOp(ws: seq<WaitResult>)
    | ListOp

  predicate OpOk(op: Op) {
    op.AddOp? ==> PidsReadable(op.pids, op.nprocs)
  }

  datatype Session = Session(state: TableState, issued: seq<int>)

  /** The table after a run of calls, and the job numbers that the successful registrations returned. */
  function Run(s: TableState, ops: seq<Op>): (r: Session)
    requires Valid(s)
    requires forall i | 0 <= i < |ops| :: OpOk(ops[i])
    ensures Valid(r.state)
    ensures r.state.nextNumber >= s.nextNumber
    // job numbers handed out strictly increase, so none is ever reused,
    // and all lie in [old next number, new next number)
    ensures Increasing(r.issued) && Within(r.issued, s.nextNumber, r.state.nextNumber)
    decreases |ops|
  {
    if ops == [] then Session(s, [])
    else
      assert OpOk(ops[0]);
      match ops[0]
      case AddOp(c, p, n, l, ok) =>
        var step := Add(s, c, p, n, l, ok);
        AddPreservesValid(s, c, p, n, l, ok);
        var rest := Run(step.state, ops[1..]);
        if step.outcome.Added? then
          PrependIssued(step.outcome.jobno, rest.issued, s.nextNumber, rest.state.nextNumber);
          Session(rest.state, [step.outcome.jobno] + rest.issued)
        else
          Session(rest.state, rest.issued)
      case ReapOp(ws) =>
        CheckJobsPreservesValid(s, ws);
        Run(CheckJobs(s, ws).state, ops[1..])
      case ListOp =>
        Run(s, ops[1..])
  }

  predicate Increasing(xs: seq<int>) {
    forall a, b | 0 <= a < b < |xs| :: xs[a] < xs[b]
  }

  predicate Within(xs: seq<int>, lo: int, hi: int) {
    forall a | 0 <= a < |xs| :: lo <= xs[a] < hi
  }

  /** A number below an increasing run stays increasing in front of it. */
  lemma PrependIssued(x: int, rest: seq<int>, lo: int, hi: int)
    requires Increasing(rest) && Within(rest, x + 1, hi) && lo <= x < hi
    ensures Increasing([x] + rest) && Within([x] + rest, lo, hi)
  {
    var xs := [x] + rest;
    forall a, b | 0 <= a < b < |xs| ensures xs[a] < xs[b] {
      assert xs[b] == rest[b - 1];
      if a > 0 { assert xs[a] == rest[a - 1]; }
    }
    forall a | 0 <= a < |xs| ensures lo <= xs[a] < hi {
      if a > 0 { assert xs[a] == rest[a - 1]; }
    }
  }
}
