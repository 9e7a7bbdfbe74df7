/**
 * The shell's global job list as it is updated in place: the array
 * jobs[MAXJOBS] and the counter nextjid.  Every helper that scans or changes
 * the list is a method with the loop the shell runs, proved against the
 * functions of module Jobs on the abstract value Abs().
 */
module JobList {
  import opened Basics
  import opened Jobs

  class JobTable {
    /** jobs[]: the slots, allocated once for the life of the shell. */
    const jobs: array<Job>
    /** nextjid: the next job id to allocate. */
    var nextjid: int

    /** The array has MAXJOBS slots, each well-formed, and the allocator is positive. */
    ghost predicate Valid()
      reads this, jobs
    {
      jobs.Length == MaxJobs && TableOk(Table(jobs[..], nextjid))
    }

    /** The job list as a value. */
    ghost function Abs(): Table
      reads this, jobs
    {
      Table(jobs[..], nextjid)
    }

    /** The zero-initialised global storage, with nextjid = 1, followed by initjobs. */
    constructor ()
      ensures Valid() && fresh(jobs)
      ensures Abs() == InitTable()
    {
      jobs := new Job[MaxJobs](_ => Empty);
      nextjid := 1;
      new;
      InitJobs();
    }

    /** clearjob(&jobs[i]): slot i becomes free; no other slot changes. */
    method ClearJob(i: nat)
      requires i < jobs.Length
      modifies jobs
      ensures jobs[..] == old(jobs[..])[i := Empty]
    {
      jobs[i] := jobs[i].(pid := 0, jid := 0, state := Undef, cmdline := "");
    }

    /** initjobs: every slot is cleared; nextjid is left as it is. */
    method InitJobs()
      requires jobs.Length == MaxJobs
      modifies jobs
      ensures jobs[..] == InitTable().slots
      ensures old(Valid()) ==> Valid()
    {
      for i := 0 to MaxJobs
        invariant forall k :: 0 <= k < i ==> jobs[k] == Empty
      {
        ClearJob(i);
      }
      assert forall k :: 0 <= k < MaxJobs ==> jobs[..][k] == InitTable().slots[k];
    }

    /** maxjid: the largest job id in the list. */
    method MaxJid() returns (max: int)
      requires Valid()
      ensures max == Jobs.MaxJid(jobs[..])
    {
      max := 0;
      for i := 0 to MaxJobs
        invariant max == Jobs.MaxJid(jobs[..i])
      {
        assert jobs[..i + 1][..i] == jobs[..i];
        if jobs[i].jid > max {
          max := jobs[i].jid;
        }
      }
      assert jobs[..MaxJobs] == jobs[..];
    }

    /** addjob: insert into the lowest free slot, as AddOutcome describes. */
    method AddJob(pid: int, state: JobState, cmdline: string) returns (rc: int)
      requires Valid() && state != Undef
      modifies this, jobs
      ensures Valid()
      ensures (Abs(), rc) == AddOutcome(old(Abs()), pid, state, cmdline)
    {
      if pid < 1 {
        return 0;
      }
      for i := 0 to MaxJobs
        invariant forall k :: 0 <= k < i ==> jobs[k].pid != 0
        invariant jobs[..] == old(jobs[..]) && nextjid == old(nextjid)
      {
        if jobs[i].pid == 0 {
          AddAt(old(Abs()), i, pid, state, cmdline);
          jobs[i] := jobs[i].(pid := pid, state := state, jid := nextjid, cmdline := cmdline);
          nextjid := nextjid + 1;
          if nextjid > MaxJobs {
            nextjid := 1;
          }
          return 1;
        }
      }
      assert forall k :: 0 <= k < MaxJobs ==> jobs[..][k].pid != 0;
      return 0;
    }

    /** deletejob: clear the first slot holding pid and reset the allocator, as DeleteOutcome describes. */
    method DeleteJob(pid: int) returns (rc: int)
      requires Valid()
      modifies this, jobs
      ensures Valid()
      ensures (Abs(), rc) == DeleteOutcome(old(Abs()), pid)
    {
      if pid < 1 {
        return 0;
      }
      for i := 0 to MaxJobs
        invariant forall k :: 0 <= k < i ==> jobs[k].pid != pid
        invariant jobs[..] == old(jobs[..]) && nextjid == old(nextjid)
      {
        if jobs[i].pid == pid {
          DeleteAt(old(Abs()), i, pid);
          ClearJob(i);
          var max := MaxJid();
          nextjid := max + 1;
          return 1;
        }
      }
      assert forall k :: 0 <= k < MaxJobs ==> jobs[..][k].pid != pid;
      return 0;
    }

    /** fgpid: the pid of the first foreground job, 0 if there is none. */
    method FgPid() returns (pid: int)
      requires Valid()
      ensures pid == Jobs.FgPid(jobs[..])
    {
      for i := 0 to MaxJobs
        invariant forall k :: 0 <= k < i ==> jobs[k].state != FG
      {
        if jobs[i].state == FG {
          assert jobs[..][i] == jobs[i];
          return jobs[i].pid;
        }
      }
      assert forall k :: 0 <= k < MaxJobs ==> jobs[..][k].state != FG;
      return 0;
    }

    /** getjobpid: the index of the first slot holding pid, none for pid < 1 or an absent pid. */
    method GetJobPid(pid: int) returns (r: Option<nat>)
      requires Valid()
      ensures r == JobByPid(jobs[..], pid)
    {
      if pid < 1 {
        return None;
      }
      for i := 0 to MaxJobs
        invariant forall k :: 0 <= k < i ==> jobs[k].pid != pid
      {
        if jobs[i].pid == pid {
          assert jobs[..][i] == jobs[i];
          return Some(i);
        }
      }
      assert forall k :: 0 <= k < MaxJobs ==> jobs[..][k].pid != pid;
      return None;
    }

    /** getjobjid: the index of the first slot holding job id jid, none for jid < 1 or an absent jid. */
    method GetJobJid(jid: int) returns (r: Option<nat>)
      requires Valid()
      ensures r == JobByJid(jobs[..], jid)
    {
      if jid < 1 {
        return None;
      }
      for i := 0 to MaxJobs
        invariant forall k :: 0 <= k < i ==> jobs[k].jid != jid
      {
        if jobs[i].jid == jid {
          assert jobs[..][i] == jobs[i];
          return Some(i);
        }
      }
      assert forall k :: 0 <= k < MaxJobs ==> jobs[..][k].jid != jid;
      return None;
    }

    /** pid2jid: the job id of the first slot holding pid, 0 if there is none. */
    method Pid2Jid(pid: int) returns (jid: int)
      requires Valid()
      ensures jid == Jobs.Pid2Jid(jobs[..], pid)
    {
      if pid < 1 {
        return 0;
      }
      for i := 0 to MaxJobs
        invariant forall k :: 0 <= k < i ==> jobs[k].pid != pid
      {
        if jobs[i].pid == pid {
          assert jobs[..][i] == jobs[i];
          return jobs[i].jid;
        }
      }
      assert forall k :: 0 <= k < MaxJobs ==> jobs[..][k].pid != pid;
      return 0;
    }

    /** listjobs: the occupied slots in table order (the printing itself is not modelled). */
    method ListJobs() returns (listing: seq<Job>)
      requires Valid()
      ensures listing == Listed(jobs[..])
    {
      listing := [];
      for i := 0 to MaxJobs
        invariant listing == Listed(jobs[..i])
      {
        assert jobs[..i + 1][..i] == jobs[..i];
        if jobs[i].pid != 0 {
          listing := listing + [jobs[i]];
        }
      }
      assert jobs[..MaxJobs] == jobs[..];
    }
  }
}
