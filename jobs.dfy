/**
 * The job list of the tiny shell as a value: the sixteen slots of jobs[] and
 * the job-id allocator nextjid, the read-only scans over the slots, and the
 * effect of addjob and deletejob.  The class in job_table.dfy performs these
 * operations in place on an array and is proved against the functions here.
 */
module Jobs {
  import opened Basics

  /** MAXJOBS: the number of slots in the job list. */
  const MaxJobs: nat := 16

  /** UNDEF marks a free slot; FG, BG and ST are the states of a live job. */
  datatype JobState = Undef | FG | BG | ST

  /** One slot of the job list (struct job_t); pid 0 means the slot is free. */
  datatype Job = Job(pid: int, jid: int, state: JobState, cmdline: string)

  /** What clearjob leaves in a slot. */
  const Empty: Job := Job(0, 0, Undef, "")

  /** The whole job list: the slots in index order and the next job id to hand out. */
  datatype Table = Table(slots: seq<Job>, nextjid: int)

  /** A slot is either cleared or holds a live job with positive ids and a real state. */
  predicate WellFormed(j: Job)
  {
    j == Empty || (j.pid >= 1 && j.jid >= 1 && j.state != Undef)
  }

  /** What every operation of the job list keeps: sixteen well-formed slots and a positive allocator. */
  predicate TableOk(t: Table)
  {
    |t.slots| == MaxJobs && t.nextjid >= 1 &&
    forall i :: 0 <= i < |t.slots| ==> WellFormed(t.slots[i])
  }

  /** The job list after initjobs, with nextjid at its initial value 1. */
  function InitTable(): (t: Table)
    ensures TableOk(t)
    ensures forall i :: 0 <= i < |t.slots| ==> t.slots[i].pid == 0
  {
    Table(seq(MaxJobs, _ => Empty), 1)
  }

  // ---------------------------------------------------------------------
  // Read-only scans
  // ---------------------------------------------------------------------

  /** What a scan of the slots looks for. */
  datatype Key = PidIs(pid: int) | JidIs(jid: int) | StateIs(state: JobState)

  predicate Matches(j: Job, k: Key)
  {
    match k
    case PidIs(p) => j.pid == p
    case JidIs(n) => j.jid == n
    case StateIs(st) => j.state == st
  }

  /** The index of the first slot that matches k, as every forward scan of the job list finds it. */
  function FirstMatch(s: seq<Job>, k: Key): (r: Option<nat>)
    ensures r.Some? ==> r.value < |s| && Matches(s[r.value], k)
    ensures r.Some? ==> forall i :: 0 <= i < r.value ==> !Matches(s[i], k)
    ensures r.None? ==> forall i :: 0 <= i < |s| ==> !Matches(s[i], k)
  {
    if s == [] then None
    else if Matches(s[0], k) then Some(0)
    else
      match FirstMatch(s[1..], k)
      case None => None
      case Some(i) =>
        assert forall n :: 1 <= n <= i ==> s[n] == s[1..][n - 1];
        Some(i + 1)
  }

  /** getjobpid: the first slot holding pid; none for a pid below 1 or a pid not in the list. */
  function JobByPid(s: seq<Job>, pid: int): (r: Option<nat>)
    ensures r.Some? <==> pid >= 1 && exists i :: 0 <= i < |s| && s[i].pid == pid
    ensures r.Some? ==> r.value < |s| && s[r.value].pid == pid
    ensures r.Some? ==> forall i :: 0 <= i < r.value ==> s[i].pid != pid
  {
    if pid < 1 then None
    else
      var r := FirstMatch(s, PidIs(pid));
      assert r.None? ==> forall i :: 0 <= i < |s| ==> !Matches(s[i], PidIs(pid));
      r
  }

  /** getjobjid: the first slot holding job id jid; none for a jid below 1 or a jid not in the list. */
  function JobByJid(s: seq<Job>, jid: int): (r: Option<nat>)
    ensures r.Some? <==> jid >= 1 && exists i :: 0 <= i < |s| && s[i].jid == jid
    ensures r.Some? ==> r.value < |s| && s[r.value].jid == jid
    ensures r.Some? ==> forall i :: 0 <= i < r.value ==> s[i].jid != jid
  {
    if jid < 1 then None
    else
      var r := FirstMatch(s, JidIs(jid));
      assert r.None? ==> forall i :: 0 <= i < |s| ==> !Matches(s[i], JidIs(jid));
      r
  }

  /** fgpid: the pid of the first slot in state FG, or 0 when no slot is in FG. */
  function FgPid(s: seq<Job>): (p: int)
    ensures (forall i :: 0 <= i < |s| ==> s[i].state != FG) ==> p == 0
    ensures forall i :: 0 <= i < |s| && s[i].state == FG && (forall k :: 0 <= k < i ==> s[k].state != FG) ==> p == s[i].pid
  {
    match FirstMatch(s, StateIs(FG))
    case None => 0
    case Some(i) => s[i].pid
  }

  /** pid2jid: the job id of the first slot holding pid, or 0 when there is none. */
  function Pid2Jid(s: seq<Job>, pid: int): (j: int)
    ensures (pid < 1 || forall i :: 0 <= i < |s| ==> s[i].pid != pid) ==> j == 0
    ensures pid >= 1 ==> forall i :: 0 <= i < |s| && s[i].pid == pid && (forall k :: 0 <= k < i ==> s[k].pid != pid) ==> j == s[i].jid
  {
    match JobByPid(s, pid)
    case None => 0
    case Some(i) => s[i].jid
  }

  /** maxjid: the largest job id in the list, 0 when no slot has a positive one. */
  function MaxJid(s: seq<Job>): (m: int)
    ensures m >= 0
    ensures forall i :: 0 <= i < |s| ==> s[i].jid <= m
    ensures m == 0 || exists i :: 0 <= i < |s| && s[i].jid == m
  {
    if s == [] then 0
    else
      var m := MaxJid(s[..|s| - 1]);
      assert forall i :: 0 <= i < |s| - 1 ==> s[i] == s[..|s| - 1][i];
      if s[|s| - 1].jid > m then s[|s| - 1].jid else m
  }

  /** listjobs: the occupied slots, in table order. */
  function Listed(s: seq<Job>): (r: seq<Job>)
    ensures |r| <= |s|
  {
    if s == [] then []
    else
      var r := Listed(s[..|s| - 1]);
      if s[|s| - 1].pid != 0 then r + [s[|s| - 1]] else r
  }

  /** listjobs shows every occupied slot and nothing else. */
  lemma {:induction false} ListedSpec(s: seq<Job>)
    ensures forall j :: j in Listed(s) ==> j in s && j.pid != 0
    ensures forall i :: 0 <= i < |s| && s[i].pid != 0 ==> s[i] in Listed(s)
  {
    if s != [] {
      var p := s[..|s| - 1];
      ListedSpec(p);
      assert forall i :: 0 <= i < |p| ==> s[i] == p[i];
    }
  }

  /** The indices of the occupied slots, in increasing order: the slots listjobs visits and prints. */
  function Occupied(s: seq<Job>): (idx: seq<nat>)
    ensures forall k :: 0 <= k < |idx| ==> idx[k] < |s| && s[idx[k]].pid != 0
    ensures forall a, b :: 0 <= a < b < |idx| ==> idx[a] < idx[b]
    ensures forall i :: 0 <= i < |s| && s[i].pid != 0 ==> i in idx
  {
    if s == [] then []
    else
      var p := Occupied(s[..|s| - 1]);
      if s[|s| - 1].pid != 0 then p + [|s| - 1] else p
  }

  /** listjobs prints the occupied slots once each, in slot order: entry k of the listing is slot Occupied(s)[k]. */
  lemma {:induction false} ListedInOrder(s: seq<Job>)
    ensures |Listed(s)| == |Occupied(s)|
    ensures forall k :: 0 <= k < |Occupied(s)| ==> Listed(s)[k] == s[Occupied(s)[k]]
  {
    if s != [] {
      var p := s[..|s| - 1];
      ListedInOrder(p);
      assert forall j :: 0 <= j < |p| ==> p[j] == s[j];
    }
  }

  // ---------------------------------------------------------------------
  // addjob and deletejob
  // ---------------------------------------------------------------------

  /** The allocator after handing out n: one more, wrapping to 1 beyond MAXJOBS. */
  function NextJid(n: int): (r: int)
    ensures r == n + 1 || r == 1
    ensures 0 <= n < MaxJobs ==> r == n + 1
    ensures n >= 0 ==> 1 <= r <= MaxJobs
  {
    if n + 1 > MaxJobs then 1 else n + 1
  }

  /** Some slot is free. */
  predicate HasFree(s: seq<Job>)
  {
    exists i :: 0 <= i < |s| && s[i].pid == 0
  }

  /**
   * addjob(pid, state, cmdline): the new table and the return code.  A pid
   * below 1 or a full table give 0 and change nothing; otherwise the lowest
   * free slot receives the job with jid = nextjid, nextjid advances (with
   * wrap-around) and the result is 1.
   */
  function AddOutcome(t: Table, pid: int, state: JobState, cmdline: string): (r: (Table, int))
    ensures r.1 == (if pid >= 1 && HasFree(t.slots) then 1 else 0)
    ensures r.1 == 0 ==> r.0 == t
    ensures r.1 == 1 ==> r.0.nextjid == NextJid(t.nextjid)
    ensures r.1 == 1 ==>
      exists i :: 0 <= i < |t.slots| && t.slots[i].pid == 0 &&
        (forall k :: 0 <= k < i ==> t.slots[k].pid != 0) &&
        r.0.slots == t.slots[i := Job(pid, t.nextjid, state, cmdline)]
    ensures TableOk(t) && state != Undef ==> TableOk(r.0)
  {
    if pid < 1 then (t, 0)
    else
      match FirstMatch(t.slots, PidIs(0))
      case None =>
        assert forall i :: 0 <= i < |t.slots| ==> !Matches(t.slots[i], PidIs(0));
        (t, 0)
      case Some(i) =>
        (Table(t.slots[i := Job(pid, t.nextjid, state, cmdline)], NextJid(t.nextjid)), 1)
  }

  /**
   * deletejob(pid): the new table and the return code.  A pid below 1 or a
   * pid not in the list give 0 and change nothing; otherwise the first slot
   * holding pid is cleared, nextjid becomes maxjid + 1 of the new list and
   * the result is 1.
   */
  function DeleteOutcome(t: Table, pid: int): (r: (Table, int))
    ensures r.1 == (if pid >= 1 && exists i :: 0 <= i < |t.slots| && t.slots[i].pid == pid then 1 else 0)
    ensures r.1 == 0 ==> r.0 == t
    ensures r.1 == 1 ==>
      exists i :: 0 <= i < |t.slots| && t.slots[i].pid == pid &&
        (forall k :: 0 <= k < i ==> t.slots[k].pid != pid) &&
        r.0.slots == t.slots[i := Empty]
    ensures r.1 == 1 ==> r.0.nextjid == MaxJid(r.0.slots) + 1
    ensures TableOk(t) ==> TableOk(r.0)
  {
    match JobByPid(t.slots, pid)
    case None => (t, 0)
    case Some(i) =>
      var s := t.slots[i := Empty];
      (Table(s, MaxJid(s) + 1), 1)
  }

  /** addjob when slot i is the lowest free slot: the job lands in slot i. */
  lemma AddAt(t: Table, i: nat, pid: int, state: JobState, cmdline: string)
    requires pid >= 1 && i < |t.slots| && t.slots[i].pid == 0
    requires forall n :: 0 <= n < i ==> t.slots[n].pid != 0
    ensures AddOutcome(t, pid, state, cmdline) ==
      (Table(t.slots[i := Job(pid, t.nextjid, state, cmdline)], NextJid(t.nextjid)), 1)
  {
    assert Matches(t.slots[i], PidIs(0));
  }

  /** deletejob when slot i is the first slot holding pid: slot i is cleared. */
  lemma DeleteAt(t: Table, i: nat, pid: int)
    requires pid >= 1 && i < |t.slots| && t.slots[i].pid == pid
    requires forall n :: 0 <= n < i ==> t.slots[n].pid != pid
    ensures DeleteOutcome(t, pid) ==
      (Table(t.slots[i := Empty], MaxJid(t.slots[i := Empty]) + 1), 1)
  {
    var f := JobByPid(t.slots, pid);
    assert f.Some? && f.value == i;
  }

  // ---------------------------------------------------------------------
  // Invariants the shell relies on but the helpers do not check
  // ---------------------------------------------------------------------

  /** No pid occupies two slots (addjob does not check this). */
  ghost predicate PidsUnique(s: seq<Job>)
  {
    forall i, j :: 0 <= i < j < |s| && s[i].pid != 0 ==> s[i].pid != s[j].pid
  }

  /** No two live jobs share a job id. */
  ghost predicate JidsUnique(s: seq<Job>)
  {
    forall i, j :: 0 <= i < j < |s| && s[i].pid != 0 && s[j].pid != 0 ==> s[i].jid != s[j].jid
  }

  /** At most one job is in the foreground (the comment at the head of the shell). */
  ghost predicate AtMostOneFg(s: seq<Job>)
  {
    forall i, j :: 0 <= i < j < |s| && s[i].state == FG ==> s[j].state != FG
  }

  /** Every live job id is below nextjid, so the next allocation is fresh. */
  ghost predicate AllocatorFresh(t: Table)
  {
    forall i :: 0 <= i < |t.slots| && t.slots[i].pid != 0 ==> t.slots[i].jid < t.nextjid
  }

  /** A successful addjob of a pid not yet in the list keeps pids unique. */
  lemma AddKeepsPidsUnique(t: Table, pid: int, state: JobState, cmdline: string)
    requires PidsUnique(t.slots)
    requires JobByPid(t.slots, pid).None?
    ensures PidsUnique(AddOutcome(t, pid, state, cmdline).0.slots)
  {
    var r := AddOutcome(t, pid, state, cmdline);
    if r.1 == 1 {
      var i :| 0 <= i < |t.slots| && t.slots[i].pid == 0 &&
        r.0.slots == t.slots[i := Job(pid, t.nextjid, state, cmdline)];
      assert forall k :: 0 <= k < |t.slots| ==> t.slots[k].pid != pid;
    }
  }

  /** addjob keeps "at most one FG" when it adds a BG job, or an FG job while none is in the foreground. */
  lemma AddKeepsAtMostOneFg(t: Table, pid: int, state: JobState, cmdline: string)
    requires AtMostOneFg(t.slots)
    requires state == FG ==> FgPid(t.slots) == 0 && forall i :: 0 <= i < |t.slots| ==> t.slots[i].state != FG
    ensures AtMostOneFg(AddOutcome(t, pid, state, cmdline).0.slots)
  {
    var r := AddOutcome(t, pid, state, cmdline);
    if r.1 == 1 {
      var i :| 0 <= i < |t.slots| && t.slots[i].pid == 0 &&
        r.0.slots == t.slots[i := Job(pid, t.nextjid, state, cmdline)];
      forall a, b | 0 <= a < b < |r.0.slots| && r.0.slots[a].state == FG
        ensures r.0.slots[b].state != FG
      {
        if a != i && b != i {
          assert t.slots[a] == r.0.slots[a] && t.slots[b] == r.0.slots[b];
        }
      }
    }
  }

  /**
   * When nextjid is not a live job id, addjob keeps job ids unique; and while
   * the allocator does not wrap, it stays above every live id.
   */
  lemma AddKeepsJidsUnique(t: Table, pid: int, state: JobState, cmdline: string)
    requires JidsUnique(t.slots) && AllocatorFresh(t)
    ensures JidsUnique(AddOutcome(t, pid, state, cmdline).0.slots)
    ensures t.nextjid < MaxJobs ==> AllocatorFresh(AddOutcome(t, pid, state, cmdline).0)
  {
    var r := AddOutcome(t, pid, state, cmdline);
    if r.1 == 1 {
      var i :| 0 <= i < |t.slots| && t.slots[i].pid == 0 &&
        r.0.slots == t.slots[i := Job(pid, t.nextjid, state, cmdline)];
      forall a, b | 0 <= a < b < |r.0.slots| && r.0.slots[a].pid != 0 && r.0.slots[b].pid != 0
        ensures r.0.slots[a].jid != r.0.slots[b].jid
      {
        if a != i && b != i {
          assert t.slots[a] == r.0.slots[a] && t.slots[b] == r.0.slots[b];
        }
      }
    }
  }

  /**
   * A successful deletejob removes the pid from a list with unique pids,
   * keeps pids, job ids and "at most one FG" unique, and leaves the
   * allocator above every remaining job id.
   */
  lemma DeleteKeepsInvariants(t: Table, pid: int)
    requires PidsUnique(t.slots) && JidsUnique(t.slots) && AtMostOneFg(t.slots)
    ensures var r := DeleteOutcome(t, pid);
      PidsUnique(r.0.slots) && JidsUnique(r.0.slots) && AtMostOneFg(r.0.slots) &&
      (pid >= 1 ==> forall i :: 0 <= i < |r.0.slots| ==> r.0.slots[i].pid != pid)
    ensures var r := DeleteOutcome(t, pid); r.1 == 1 ==> AllocatorFresh(r.0)
  {
    var r := DeleteOutcome(t, pid);
    if r.1 == 1 {
      var i :| 0 <= i < |t.slots| && t.slots[i].pid == pid && r.0.slots == t.slots[i := Empty];
      forall a, b | 0 <= a < b < |r.0.slots|
        ensures r.0.slots[a].pid != 0 ==> r.0.slots[a].pid != r.0.slots[b].pid
        ensures r.0.slots[a].pid != 0 && r.0.slots[b].pid != 0 ==> r.0.slots[a].jid != r.0.slots[b].jid
        ensures r.0.slots[a].state == FG ==> r.0.slots[b].state != FG
      {
        if a != i && b != i {
          assert t.slots[a] == r.0.slots[a] && t.slots[b] == r.0.slots[b];
        }
      }
      forall k | 0 <= k < |r.0.slots| ensures r.0.slots[k].pid != pid {
        if k != i {
          assert k < i || t.slots[i].pid != 0;
        }
      }
    }
  }

  // ---------------------------------------------------------------------
  // Concrete runs of the job list
  // ---------------------------------------------------------------------

  /** addjob of the given pids, in order, each as a background job. */
  function AddAll(t: Table, pids: seq<int>): Table
  {
    if pids == [] then t
    else AddOutcome(AddAll(t, pids[..|pids| - 1]), pids[|pids| - 1], BG, "job").0
  }

  /** The list after k background jobs with pids 100, 101, ... were added to an empty list. */
  function Filled(k: nat): Table
    requires k <= MaxJobs
  {
    Table(seq(MaxJobs, i => if i < k then Job(100 + i, i + 1, BG, "job") else Empty),
          if k < MaxJobs then k + 1 else 1)
  }

  /** Adding pid 100 + k - 1 to the list of k - 1 jobs gives the list of k jobs. */
  lemma FilledStep(k: nat)
    requires 0 < k <= MaxJobs
    ensures AddOutcome(Filled(k - 1), 100 + k - 1, BG, "job").0 == Filled(k)
  {
    var t := Filled(k - 1);
    assert t.slots[k - 1].pid == 0;
    AddAt(t, k - 1, 100 + k - 1, BG, "job");
    var s := t.slots[k - 1 := Job(100 + k - 1, t.nextjid, BG, "job")];
    assert forall n :: 0 <= n < MaxJobs ==> s[n] == Filled(k).slots[n];
  }

  /** Adding k jobs to the initial list fills slots 0..k-1 with job ids 1..k. */
  lemma {:induction false} FillFromInit(k: nat)
    requires k <= MaxJobs
    ensures AddAll(InitTable(), seq(k, i => 100 + i)) == Filled(k)
  {
    if k == 0 {
      assert InitTable() == Filled(0);
    } else {
      var ps := seq(k, i => 100 + i);
      assert ps[..k - 1] == seq(k - 1, i => 100 + i);
      FillFromInit(k - 1);
      FilledStep(k);
    }
  }

  /** Listing a list whose first k slots are occupied and the rest free gives exactly those k jobs. */
  lemma {:induction false} ListedPrefix(s: seq<Job>, k: nat)
    requires k <= |s|
    requires forall i :: 0 <= i < k ==> s[i].pid != 0
    requires forall i :: k <= i < |s| ==> s[i].pid == 0
    ensures Listed(s) == s[..k]
  {
    if s != [] {
      var p := s[..|s| - 1];
      if k == |s| {
        ListedPrefix(p, k - 1);
        assert p[..k - 1] + [s[|s| - 1]] == s[..k];
      } else {
        ListedPrefix(p, k);
        assert p[..k] == s[..k];
      }
    }
  }

  /** Three background jobs with pids 100, 101, 102 are listed with job ids 1, 2, 3, in that order. */
  lemma ThreeJobsListed()
    ensures var l := Listed(AddAll(InitTable(), [100, 101, 102]).slots);
      |l| == 3 && l[0].jid == 1 && l[1].jid == 2 && l[2].jid == 3 &&
      l[0].pid == 100 && l[1].pid == 101 && l[2].pid == 102
  {
    assert [100, 101, 102] == seq(3, i => 100 + i);
    FillFromInit(3);
    ListedPrefix(Filled(3).slots, 3);
  }

  /**
   * Removing job 2 (pid 101) of jobs 1, 2, 3 resets the allocator to 4, the
   * largest live id plus one; the next job goes into the freed slot 1 with id 4.
   */
  lemma RemoveThenAddReusesSlot()
    ensures var t := DeleteOutcome(Filled(3), 101);
      t.1 == 1 && t.0.nextjid == 4 &&
      var u := AddOutcome(t.0, 103, BG, "job");
      u.1 == 1 && u.0.slots[1] == Job(103, 4, BG, "job")
  {
    var f := Filled(3);
    DeleteAt(f, 1, 101);
    var s := f.slots[1 := Empty];
    assert s[2].jid == 3;
    assert MaxJid(s) == 3;
    AddAt(Table(s, 4), 1, 103, BG, "job");
  }

  /** A 17th job does not fit: addjob returns 0 and the list is unchanged. */
  lemma FullTableRejects(pid: int, state: JobState, cmdline: string)
    ensures AddOutcome(Filled(MaxJobs), pid, state, cmdline) == (Filled(MaxJobs), 0)
  {
    var s := Filled(MaxJobs).slots;
    assert forall i :: 0 <= i < |s| ==> s[i].pid == 100 + i;
  }

  /**
   * The slots on the way to the collision, starting from jobs 1..15 (pids
   * 100..114): after job 2 (pid 101) is removed (stage 1), after pid 200 is
   * added (stage 2), after pid 201 is added (stage 3).
   */
  function WrapSlots(stage: nat): seq<Job>
    requires 1 <= stage <= 3
  {
    var s1 := Filled(15).slots[1 := Empty];
    var s2 := s1[1 := Job(200, 16, BG, "job")];
    if stage == 1 then s1 else if stage == 2 then s2 else s2[15 := Job(201, 1, BG, "job")]
  }

  /** Stage 1: deletejob(101) on jobs 1..15 clears slot 1 and resets the allocator to 16. */
  lemma WrapStage1()
    ensures DeleteOutcome(Filled(15), 101).0 == Table(WrapSlots(1), 16)
  {
    var t0 := Filled(15);
    DeleteAt(t0, 1, 101);
    var s1 := WrapSlots(1);
    assert MaxJid(s1) == 15 by {
      assert s1[14].jid == 15;
      assert forall n :: 0 <= n < |s1| ==> s1[n].jid <= 15;
    }
  }

  /** Stage 2: addjob(200) fills slot 1 with job id 16 and wraps the allocator to 1. */
  lemma WrapStage2()
    ensures AddOutcome(Table(WrapSlots(1), 16), 200, BG, "job").0 == Table(WrapSlots(2), 1)
  {
    var s1 := WrapSlots(1);
    assert s1[0].pid == 100 && s1[1].pid == 0;
    AddAt(Table(s1, 16), 1, 200, BG, "job");
  }

  /** Stage 3: addjob(201) fills slot 15, the first free one, with job id 1. */
  lemma WrapStage3()
    ensures AddOutcome(Table(WrapSlots(2), 1), 201, BG, "job").0 == Table(WrapSlots(3), 2)
  {
    var s2 := WrapSlots(2);
    assert forall n :: 0 <= n < 15 ==> s2[n].pid != 0;
    assert s2[15].pid == 0;
    AddAt(Table(s2, 1), 15, 201, BG, "job");
  }

  /** The job ids of jobs 1..15 are unique, and so are those after stage 2; stage 3 repeats id 1. */
  lemma WrapStagesUniqueness()
    ensures JidsUnique(Filled(15).slots)
    ensures AllocatorFresh(Table(WrapSlots(1), 16))
    ensures JidsUnique(WrapSlots(2))
    ensures !JidsUnique(WrapSlots(3))
  {
    var s2, s3 := WrapSlots(2), WrapSlots(3);
    forall a, b | 0 <= a < b < MaxJobs && s2[a].pid != 0 && s2[b].pid != 0
      ensures s2[a].jid != s2[b].jid
    {
      assert b < 15;
    }
    assert s3[0].jid == 1 && s3[15].jid == 1 && s3[0].pid != 0 && s3[15].pid != 0;
  }

  /**
   * The allocator's wrap-around can hand out a live job id.  Fifteen jobs are
   * added (ids 1..15), job 2 is removed (the allocator becomes 16), and two
   * more jobs are added: the first gets id 16 and wraps the allocator to 1, the
   * second gets id 1 while job 1 is still live.
   */
  lemma JidWrapCollision()
    ensures Filled(15) == AddAll(InitTable(), seq(15, i => 100 + i))
    ensures var t0 := Filled(15);
      var t1 := DeleteOutcome(t0, 101).0;
      var t2 := AddOutcome(t1, 200, BG, "job").0;
      var t3 := AddOutcome(t2, 201, BG, "job").0;
      JidsUnique(t0.slots) && AllocatorFresh(t1) && JidsUnique(t2.slots) && t2.nextjid == 1 &&
      !JidsUnique(t3.slots)
  {
    FillFromInit(15);
    WrapStage1();
    WrapStage2();
    WrapStage3();
    WrapStagesUniqueness();
  }
}
