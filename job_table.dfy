/**
 * The job table as the shell keeps it: a fixed array of 1024 job slots
 * updated in place, three counters and the standard output the table
 * prints on. Every method is proved to do what the matching function of
 * module JobSpec says, so the lemmas there carry over to this class.
 */
module JobTable {
  import opened Common
  import opened JobSpec

  class Table {
    /** job_table: the slots, in order of registration. */
    const slots: array<Job>
    /** next_job_index: the next unused slot. */
    var nextJobIndex: int
    /** next_job_number: the number the next job gets. */
    var nextJobNumber: int
    /** active_job_count: jobs with a process still running. */
    var activeJobCount: int
    /** Everything printed on standard output so far. */
    var output: seq<Line>

    /** The table as a value. */
    function State(): TableState
      reads this, slots
    {
      TableState(slots[..], nextJobIndex, nextJobNumber, activeJobCount)
    }

    /** The table invariant of JobSpec holds. */
    ghost predicate Valid()
      reads this, slots
    {
      JobSpec.Valid(State())
    }

    /** The table as the program loads it: zeroed slots, counters 0, 1 and 0. */
    constructor ()
      ensures State() == Initial() && Valid()
      ensures output == []
    {
      slots := new Job[MaxJobHistory](_ => Zeroed);
      nextJobIndex := 0;
      nextJobNumber := 1;
      activeJobCount := 0;
      output := [];
      new;
      assert slots[..] == Initial().slots;
    }

    /** part_eight_init: zero every slot and reset the counters. */
    method Init()
      requires slots.Length == MaxJobHistory
      modifies this, slots
      ensures State() == Initial() && Valid()
      ensures output == old(output)
    {
      for i := 0 to slots.Length
        invariant forall k | 0 <= k < i :: slots[k] == Zeroed
        invariant output == old(output)
      {
        slots[i] := Zeroed;
      }
      nextJobIndex := 0;
      nextJobNumber := 1;
      activeJobCount := 0;
      assert |slots[..]| == |Initial().slots|;
      assert forall k | 0 <= k < slots.Length :: slots[..][k] == Initial().slots[k];
    }

    /** find_job_by_pid: the first used slot whose active job holds pid, or -1. */
    method FindJobByPid(pid: int) returns (idx: int)
      requires Shaped(State())
      ensures idx == FindJob(State(), pid)
    {
      var i := 0;
      while i < nextJobIndex
        invariant 0 <= i <= nextJobIndex
        invariant FindJob(State(), pid) == FindFrom(slots[..], i, nextJobIndex, pid)
      {
        if slots[i].active {
          assert |slots[..][i].pids| == MaxProcsPerJob;
          var j := 0;
          while j < slots[i].nprocs
            invariant 0 <= j <= slots[i].nprocs
            invariant pid !in slots[i].pids[..j]
          {
            if slots[i].pids[j] == pid {
              assert Holds(slots[..][i], pid);
              return i;
            }
            assert slots[i].pids[..j + 1] == slots[i].pids[..j] + [slots[i].pids[j]];
            j := j + 1;
          }
          assert !Holds(slots[..][i], pid);
        }
        i := i + 1;
      }
      return -1;
    }

    /** find_most_recent_active_job_index: the active used slot with the highest job number, or -1. */
    method FindMostRecentActiveJobIndex() returns (best: int)
      requires Shaped(State())
      ensures best == MostRecentIn(slots[..], nextJobIndex)
    {
      best := -1;
      var bestJobno := -1;
      var i := 0;
      while i < nextJobIndex
        invariant 0 <= i <= nextJobIndex
        invariant best == MostRecentIn(slots[..], i)
        invariant bestJobno == if best == -1 then -1 else slots[best].jobno
      {
        if slots[i].active && slots[i].jobno > bestJobno {
          bestJobno := slots[i].jobno;
          best := i;
        }
        i := i + 1;
      }
    }

    /**
     * part_eight_add_job: register a background job of nprocs processes.
     * `copied` is whether strdup of the command line succeeds.
     */
    method AddJob(cmdline: Option<string>, pids: Option<seq<int>>, nprocs: int, leader: int, copied: bool)
      returns (outcome: AddOutcome)
      requires Shaped(State())
      requires PidsReadable(pids, nprocs)
      modifies this, slots
      ensures var step := Add(old(State()), cmdline, pids, nprocs, leader, copied);
              State() == step.state && outcome == step.outcome && output == old(output) + step.lines
    {
      ghost var s := State();
      if cmdline.None? || pids.None? || nprocs <= 0 || nprocs > MaxProcsPerJob {
        return Refused(EINVAL);
      }
      if activeJobCount >= MaxActiveJobs {
        return Refused(EBUSY);
      }
      if nextJobIndex >= MaxJobHistory {
        return Refused(ENOMEM);
      }
      var idx := nextJobIndex;
      var prev := slots[idx];
      ghost var job := prev.(active := true, jobno := s.nextNumber, nprocs := nprocs,
                             remaining := nprocs, leaderPid := leader);
      slots[idx] := prev.(active := true, jobno := nextJobNumber, nprocs := nprocs,
                          remaining := nprocs, leaderPid := leader);
      nextJobNumber := nextJobNumber + 1;
      if !copied {
        slots[idx] := slots[idx].(cmdline := None);
        assert slots[..] == s.slots[idx := job.(cmdline := None)];
        return Refused(ENOMEM);
      }
      slots[idx] := slots[idx].(cmdline := cmdline);
      CopyPids(idx, pids.value, nprocs);
      assert slots[..] == s.slots[idx := slots[idx]];
      output := output + [Started(slots[idx].jobno, slots[idx].leaderPid)];
      nextJobIndex := nextJobIndex + 1;
      activeJobCount := activeJobCount + 1;
      outcome := Added(slots[idx].jobno);
    }

    /** The pid copy loop of part_eight_add_job: the first n pids of slot idx become pids[..n]. */
    method CopyPids(idx: int, pids: seq<int>, n: int)
      requires 0 <= idx < slots.Length
      requires 0 <= n <= |pids| && n <= |slots[idx].pids|
      modifies slots
      ensures slots[idx] == old(slots[idx]).(pids := pids[..n] + old(slots[idx]).pids[n..])
      ensures forall k | 0 <= k < slots.Length && k != idx :: slots[k] == old(slots[k])
    {
      ghost var prev := slots[idx];
      assert pids[..0] + prev.pids[0..] == prev.pids;
      for i := 0 to n
        invariant slots[idx] == prev.(pids := pids[..i] + prev.pids[i..])
        invariant forall k | 0 <= k < slots.Length && k != idx :: slots[k] == old(slots[k])
      {
        assert pids[..i + 1] + prev.pids[i + 1..] == (pids[..i] + prev.pids[i..])[i := pids[i]];
        slots[idx] := slots[idx].(pids := slots[idx].pids[i := pids[i]]);
      }
    }

    /**
     * part_eight_check_jobs: call waitpid until it reports nothing more to
     * reap. ws are the results of the successive calls; `consumed` is how
     * many calls were made.
     */
    method CheckJobs(ws: seq<WaitResult>) returns (consumed: nat)
      requires Shaped(State())
      modifies this, slots
      ensures old(Valid()) ==> Valid()
      ensures var r := JobSpec.CheckJobs(old(State()), ws);
              State() == r.state && output == old(output) + r.lines && consumed == r.consumed
    {
      ghost var target := JobSpec.CheckJobs(State(), ws);
      ghost var emitted: seq<Line> := [];
      ResumeStart(State(), ws);
      consumed := 0;
      assert ws[0..] == ws;
      while consumed < |ws|
        invariant consumed <= |ws|
        invariant output == old(output) + emitted
        invariant Resumes(target, State(), ws[consumed..], emitted, consumed)
        decreases |ws| - consumed
      {
        var w := ws[consumed];
        ghost var rest := ws[consumed + 1..];
        assert ws[consumed..] == [w] + rest;
        ResumeStep(target, State(), w, rest, emitted, consumed);
        var stop, lines := Poll(w);
        consumed := consumed + 1;
        if stop {
          break;
        }
        emitted := emitted + lines;
      }
      if consumed == |ws| {
        assert ws[consumed..] == [];
        ResumeEnd(target, State(), emitted, consumed);
      }
      if old(Valid()) {
        CheckJobsPreservesValid(old(State()), ws);
      }
    }

    /**
     * One pass of the reaping loop for the result w of waitpid: reap a
     * returned pid and go on, retry after EINTR, and stop at 0, at ECHILD
     * and at any other error.
     */
    method Poll(w: WaitResult) returns (stop: bool, lines: seq<Line>)
      requires Shaped(State())
      modifies this, slots
      ensures stop == !Continues(w)
      ensures State() == JobSpec.Poll(old(State()), w).state && lines == JobSpec.Poll(old(State()), w).lines
      ensures output == old(output) + lines
    {
      lines := [];
      if w.pid > 0 {
        lines := Reap(w.pid);
        return false, lines;
      } else if w.pid == 0 {
        return true, lines;
      } else {
        if w.errno == ECHILD {
          return true, lines;
        } else if w.errno == EINTR {
          return false, lines;
        } else {
          return true, lines;
        }
      }
    }

    /** The body of the reaping loop for a reaped pid: one process of its job is done. */
    method Reap(pid: int) returns (lines: seq<Line>)
      requires Shaped(State())
      modifies this, slots
      ensures State() == ReapPid(old(State()), pid).state && lines == ReapPid(old(State()), pid).lines
      ensures output == old(output) + lines
    {
      ghost var before := State();
      var idx := FindJobByPid(pid);
      if idx == -1 {
        return [];
      }
      var job := slots[idx];
      slots[idx] := job.(remaining := job.remaining - 1);
      lines := [];
      if slots[idx].remaining <= 0 {
        lines := [Done(job.jobno, CmdText(job))];
        output := output + lines;
        slots[idx] := slots[idx].(cmdline := None, active := false, nprocs := 0, remaining := 0);
        activeJobCount := activeJobCount - 1;
      }
      assert slots[..] == before.slots[idx := slots[idx]];
    }

    /** part_eight_jobs_builtin: print one row per active job, `+` on the most recent. */
    method JobsBuiltin()
      requires Shaped(State())
      modifies this
      ensures State() == old(State())
      ensures output == old(output) + Listing(State())
    {
      var mostRecentIdx := FindMostRecentActiveJobIndex();
      for i := 0 to nextJobIndex
        invariant State() == old(State())
        invariant output == old(output) + Rows(slots[..], i, mostRecentIdx)
      {
        var job := slots[i];
        if !job.active {
          continue;
        }
        if i == mostRecentIdx {
          output := output + [Row(job.jobno, true, job.leaderPid, CmdText(job))];
        } else {
          output := output + [Row(job.jobno, false, job.leaderPid, CmdText(job))];
        }
      }
    }

    /** part_eight_shutdown: release every command line and reset the counters. */
    method Shutdown()
      requires Shaped(State())
      modifies this, slots
      ensures State() == JobSpec.Shutdown(old(State())) && Valid()
      ensures output == old(output)
    {
      for i := 0 to nextJobIndex
        invariant forall k | 0 <= k < i :: slots[k] == old(slots[k]).(cmdline := None)
        invariant forall k | i <= k < slots.Length :: slots[k] == old(slots[k])
        invariant nextJobIndex == old(nextJobIndex) && output == old(output)
      {
        if slots[i].cmdline.Some? {
          slots[i] := slots[i].(cmdline := None);
        }
      }
      ghost var n := nextJobIndex;
      nextJobIndex := 0;
      activeJobCount := 0;
      nextJobNumber := 1;
      assert slots[..] == JobSpec.Shutdown(old(State())).slots by {
        forall k | 0 <= k < slots.Length
          ensures slots[k] == JobSpec.Shutdown(old(State())).slots[k]
        {
          if k < n {} else {}
        }
      }
    }
  }
}
