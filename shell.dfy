/**
 * The parts of the tiny shell that change job states through the job list:
 * the SIGCHLD reaper, the relay of ctrl-c and ctrl-z to the foreground job,
 * the fg and bg built-ins, the exit condition of waitfg, and the parent side
 * of launching a job.  What the operating system reports (waitpid's results,
 * the child's pid) comes in as parameters; what the shell sends or prints
 * (kill, printf) comes out as values.
 */
module Shell {
  import opened Basics
  import opened Jobs
  import opened JobList
  import opened Text

  // ---------------------------------------------------------------------
  // sigchld_handler: the reaper
  // ---------------------------------------------------------------------

  /** How waitpid(-1, &status, WNOHANG | WUNTRACED) describes a child that changed state. */
  datatype ChildStatus = Exited(code: int) | Signaled(sig: int) | Stopped(sig: int)

  /** A line the reaper prints: "JOB [jid] (pid) terminated by SIGNAL sig" or "... stopped by SIGNAL sig". */
  datatype Report = Terminated(jid: int, pid: int, sig: int) | StoppedBy(jid: int, pid: int, sig: int)

  /**
   * A reaped child the handler copes with: waitpid returned a positive pid,
   * and a stopped child is in the list (the handler writes its state through
   * the slot getjobpid found, without a null check).
   */
  predicate Reapable(t: Table, pid: int, status: ChildStatus)
  {
    pid >= 1 && (status.Stopped? ==> JobByPid(t.slots, pid).Some?)
  }

  /**
   * One round of the reaper's loop: an exited or killed child's job is
   * deleted (a killed one is reported first, with its job id); a stopped
   * child's job is set to ST and reported.
   */
  function ReapOne(t: Table, pid: int, status: ChildStatus): (r: (Table, seq<Report>))
    requires Reapable(t, pid, status)
    ensures |r.0.slots| == |t.slots|
    ensures status.Stopped? ==> |r.1| == 1 && r.1[0] == StoppedBy(Pid2Jid(t.slots, pid), pid, status.sig)
    ensures status.Signaled? ==> r.1 == [Terminated(Pid2Jid(t.slots, pid), pid, status.sig)]
    ensures status.Exited? ==> r.1 == []
  {
    match status
    case Exited(_) => (DeleteOutcome(t, pid).0, [])
    case Signaled(sig) => (DeleteOutcome(t, pid).0, [Terminated(Pid2Jid(t.slots, pid), pid, sig)])
    case Stopped(sig) =>
      var i := JobByPid(t.slots, pid).value;
      (Table(t.slots[i := t.slots[i].(state := ST)], t.nextjid), [StoppedBy(t.slots[i].jid, pid, sig)])
  }

  /** Every child in the batch can be handled, each in the list the previous ones left. */
  predicate ReapableAll(t: Table, events: seq<(int, ChildStatus)>)
    decreases |events|
  {
    events == [] ||
    (Reapable(t, events[0].0, events[0].1) &&
     ReapableAll(ReapOne(t, events[0].0, events[0].1).0, events[1..]))
  }

  /** The reaper's whole loop over the children waitpid returns, in order: the final list and all reports. */
  function ReapAll(t: Table, events: seq<(int, ChildStatus)>): (r: (Table, seq<Report>))
    requires ReapableAll(t, events)
    ensures |r.0.slots| == |t.slots| && |r.1| <= |events|
    decreases |events|
  {
    if events == [] then (t, [])
    else
      var (t1, r1) := ReapOne(t, events[0].0, events[0].1);
      var (t2, r2) := ReapAll(t1, events[1..]);
      (t2, r1 + r2)
  }

  /**
   * sigchld_handler: for each child waitpid reports (the loop ends when
   * waitpid returns no more pids), delete or stop its job and collect what
   * the handler prints.
   */
  method Reap(t: JobTable, events: seq<(int, ChildStatus)>) returns (reports: seq<Report>)
    requires t.Valid() && ReapableAll(t.Abs(), events)
    modifies t, t.jobs
    ensures t.Valid()
    ensures (t.Abs(), reports) == ReapAll(old(t.Abs()), events)
  {
    ghost var final := ReapAll(t.Abs(), events);
    reports := [];
    assert events[0..] == events;
    for k := 0 to |events|
      invariant t.Valid() && Progress(final, t.Abs(), reports, events[k..])
    {
      assert events[k..][0] == events[k] && events[k..][1..] == events[k + 1..];
      ProgressStep(final, t.Abs(), reports, events[k..]);
      var said := ReapChild(t, events[k].0, events[k].1);
      reports := reports + said;
    }
    assert events[|events|..] == [];
    assert reports + [] == reports;
  }

  /**
   * Where the reaper's loop stands: handling the children still to come,
   * starting from the list cur, ends in the final list and reports, after
   * the reports already printed.
   */
  ghost predicate Progress(final: (Table, seq<Report>), cur: Table, printed: seq<Report>,
                           rest: seq<(int, ChildStatus)>)
  {
    ReapableAll(cur, rest) &&
    final.0 == ReapAll(cur, rest).0 && final.1 == printed + ReapAll(cur, rest).1
  }

  /** Handling the next child moves the reaper's loop one child on. */
  lemma ProgressStep(final: (Table, seq<Report>), cur: Table, printed: seq<Report>,
                     rest: seq<(int, ChildStatus)>)
    requires rest != [] && Progress(final, cur, printed, rest)
    ensures Reapable(cur, rest[0].0, rest[0].1)
    ensures var (next, said) := ReapOne(cur, rest[0].0, rest[0].1);
      Progress(final, next, printed + said, rest[1..])
  {
    var (next, said) := ReapOne(cur, rest[0].0, rest[0].1);
    var later := ReapAll(next, rest[1..]);
    assert ReapAll(cur, rest) == (later.0, said + later.1);
    assert printed + (said + later.1) == (printed + said) + later.1;
  }

  /** One round of the handler's loop body, for the child pid that waitpid returned with status. */
  method ReapChild(t: JobTable, pid: int, status: ChildStatus) returns (said: seq<Report>)
    requires t.Valid() && Reapable(t.Abs(), pid, status)
    modifies t, t.jobs
    ensures t.Valid()
    ensures t.Abs() == ReapOne(old(t.Abs()), pid, status).0
    ensures said == ReapOne(old(t.Abs()), pid, status).1
  {
    var job := t.GetJobPid(pid);
    match status {
      case Exited(_) =>
        var _ := t.DeleteJob(pid);
        said := [];
      case Signaled(sig) =>
        var jid := t.Pid2Jid(pid);
        var _ := t.DeleteJob(pid);
        said := [Terminated(jid, pid, sig)];
      case Stopped(sig) =>
        StopAt(t.Abs(), job.value, pid);
        t.jobs[job.value] := t.jobs[job.value].(state := ST);
        var jid := t.Pid2Jid(pid);
        said := [StoppedBy(jid, pid, sig)];
    }
  }

  /** Setting the first slot holding pid to ST keeps the list well formed and pid2jid's answer. */
  lemma StopAt(t: Table, i: nat, pid: int)
    requires TableOk(t) && pid >= 1 && JobByPid(t.slots, pid) == Some(i)
    ensures TableOk(Table(t.slots[i := t.slots[i].(state := ST)], t.nextjid))
    ensures Pid2Jid(t.slots[i := t.slots[i].(state := ST)], pid) == t.slots[i].jid
    ensures Pid2Jid(t.slots, pid) == t.slots[i].jid
  {
    var s := t.slots[i := t.slots[i].(state := ST)];
    assert WellFormed(t.slots[i]) && t.slots[i] != Empty;
    assert forall k :: 0 <= k < |s| && k != i ==> s[k] == t.slots[k];
    assert s[i].pid == pid && s[i].jid == t.slots[i].jid;
    assert forall k :: 0 <= k < i ==> s[k].pid != pid;
  }

  /**
   * With unique pids, an exited or killed child's job is removed and nothing
   * else: each slot holding the pid becomes free, every other slot is as it
   * was.
   */
  lemma ReapRemovesExactly(t: Table, pid: int, status: ChildStatus)
    requires Reapable(t, pid, status) && !status.Stopped?
    requires PidsUnique(t.slots)
    ensures var s := ReapOne(t, pid, status).0.slots;
      |s| == |t.slots| &&
      forall k :: 0 <= k < |s| ==> s[k] == if t.slots[k].pid == pid then Empty else t.slots[k]
    ensures var r := ReapOne(t, pid, status).0;
      r.nextjid == if JobByPid(t.slots, pid).Some? then MaxJid(r.slots) + 1 else t.nextjid
  {
    assert ReapOne(t, pid, status).0 == DeleteOutcome(t, pid).0;
    match JobByPid(t.slots, pid)
    case None =>
      assert forall k :: 0 <= k < |t.slots| ==> t.slots[k].pid != pid;
    case Some(i) =>
      assert DeleteOutcome(t, pid).0 == Table(t.slots[i := Empty], MaxJid(t.slots[i := Empty]) + 1);
      assert forall k :: 0 <= k < |t.slots| && k != i ==> t.slots[k].pid != pid;
  }

  /**
   * With unique pids, a stopped child's job changes state to ST and nothing
   * else: its pid, job id and command line stay, every other slot and nextjid
   * are as they were.
   */
  lemma ReapStopsOnlyThatJob(t: Table, pid: int, status: ChildStatus)
    requires Reapable(t, pid, status) && status.Stopped?
    requires PidsUnique(t.slots)
    ensures var r := ReapOne(t, pid, status).0;
      r.nextjid == t.nextjid && |r.slots| == |t.slots| &&
      forall k :: 0 <= k < |t.slots| ==>
        r.slots[k] == if t.slots[k].pid == pid then t.slots[k].(state := ST) else t.slots[k]
  {
    var i := JobByPid(t.slots, pid).value;
    assert forall k :: 0 <= k < |t.slots| && k != i ==> t.slots[k].pid != pid;
  }

  /** A round of the reaper keeps the list well formed, pids and job ids unique and at most one job in FG. */
  lemma ReapKeepsInvariants(t: Table, pid: int, status: ChildStatus)
    requires Reapable(t, pid, status)
    requires TableOk(t) && PidsUnique(t.slots) && JidsUnique(t.slots) && AtMostOneFg(t.slots)
    ensures var s := ReapOne(t, pid, status).0;
      TableOk(s) && PidsUnique(s.slots) && JidsUnique(s.slots) && AtMostOneFg(s.slots)
  {
    if status.Stopped? {
      var i := JobByPid(t.slots, pid).value;
      StopAt(t, i, pid);
      var s := ReapOne(t, pid, status).0.slots;
      forall a, b | 0 <= a < b < |s|
        ensures s[a].pid != 0 ==> s[a].pid != s[b].pid
        ensures s[a].pid != 0 && s[b].pid != 0 ==> s[a].jid != s[b].jid
        ensures s[a].state == FG ==> s[b].state != FG
      {
        assert s[a].pid == t.slots[a].pid && s[b].pid == t.slots[b].pid;
        assert s[a].jid == t.slots[a].jid && s[b].jid == t.slots[b].jid;
      }
    } else {
      DeleteKeepsInvariants(t, pid);
    }
  }

  // ---------------------------------------------------------------------
  // sigint_handler and sigtstp_handler: the relay
  // ---------------------------------------------------------------------

  /** The two keyboard signals the shell passes on: ctrl-c and ctrl-z. */
  datatype KeySignal = SigInt | SigTstp

  /** kill(group, sig): a negative group names a process group. */
  datatype Delivery = Delivery(group: int, sig: KeySignal)

  /** The handler's choice: the foreground job's process group if there is a foreground job, else nothing. */
  function RelayTarget(s: seq<Job>, sig: KeySignal): (r: Option<Delivery>)
    ensures (forall i :: 0 <= i < |s| ==> s[i].state != FG) ==> r.None?
    ensures r.Some? ==>
      r.value.sig == sig && exists i :: 0 <= i < |s| && s[i].state == FG && s[i].pid == -r.value.group
  {
    var pid := FgPid(s);
    if pid != 0 then Some(Delivery(-pid, sig)) else None
  }

  /** sigint_handler / sigtstp_handler: fgpid, then kill(-pid, sig) when it is not 0. */
  method Relay(t: JobTable, sig: KeySignal) returns (sent: Option<Delivery>)
    requires t.Valid()
    ensures sent == RelayTarget(t.jobs[..], sig)
  {
    var pid := t.FgPid();
    if pid != 0 {
      sent := Some(Delivery(-pid, sig));
    } else {
      sent := None;
    }
  }

  /**
   * The relay reaches a foreground job and only one: a signal goes out
   * exactly when some job is in FG, to the process group of the first such
   * job, which is the only one when at most one job is in FG.
   */
  lemma RelayReachesForeground(t: Table, sig: KeySignal)
    requires TableOk(t)
    ensures var d := RelayTarget(t.slots, sig);
      d.Some? <==> exists i :: 0 <= i < |t.slots| && t.slots[i].state == FG
    ensures var d := RelayTarget(t.slots, sig);
      d.Some? ==>
        d.value.sig == sig && d.value.group < 0 &&
        exists i :: 0 <= i < |t.slots| && t.slots[i].state == FG && t.slots[i].pid == -d.value.group
    ensures AtMostOneFg(t.slots) ==>
      forall i :: 0 <= i < |t.slots| && t.slots[i].state == FG ==>
        RelayTarget(t.slots, sig) == Some(Delivery(-t.slots[i].pid, sig))
  {
    var s := t.slots;
    match FirstMatch(s, StateIs(FG))
    case None =>
      assert forall i :: 0 <= i < |s| ==> s[i].state != FG;
    case Some(i) =>
      assert WellFormed(s[i]) && s[i].pid >= 1;
      assert FgPid(s) == s[i].pid;
  }

  // ---------------------------------------------------------------------
  // do_bgfg: the fg and bg built-ins
  // ---------------------------------------------------------------------

  /** The four messages do_bgfg can refuse with. */
  datatype BgFgError =
    | MissingArgument(cmd: string)  // "<cmd> command requires PID or %jobid argument"
    | NoSuchJob(ref: string)        // "<ref>: No such job"
    | NoSuchProcess(pid: int)       // "(<pid>): No such process"
    | BadArgument(cmd: string)      // "<cmd>: argument must be PID of %jobid"

  /** What bg prints, and what eval prints for a background launch: "[jid] (pid) cmdline". */
  datatype Notice = Notice(jid: int, pid: int, cmdline: string)

  /**
   * What a call of do_bgfg does besides the list: refuse, or continue the
   * job's process group (kill(-pid, SIGCONT)) and then wait for it in the
   * foreground or announce it in the background.
   */
  datatype BgFgOutcome =
    | Rejected(error: BgFgError)
    | Foreground(continued: int, waitFor: int)
    | Background(continued: int, notice: Notice)

  /**
   * The slot a job reference of the fg or bg command names: "%N" is job id
   * atoi(N), a reference starting with a digit is pid atoi(reference), and
   * anything else is refused.
   */
  function Resolve(s: seq<Job>, cmd: string, id: string): (r: Result<nat, BgFgError>)
    ensures r.Ok? ==> r.value < |s|
  {
    if id != [] && id[0] == '%' then
      var jid := Atoi(id[1..]);
      match JobByJid(s, jid)
      case None => Err(NoSuchJob(id))
      case Some(i) => if jid == 0 then Err(NoSuchJob(id)) else Ok(i)
    else if id != [] && IsDigit(id[0]) then
      var pid := Atoi(id);
      match JobByPid(s, pid)
      case None => Err(NoSuchProcess(pid))
      case Some(i) => if pid == 0 then Err(NoSuchProcess(pid)) else Ok(i)
    else Err(BadArgument(cmd))
  }

  /**
   * do_bgfg(argv) on the list t: the new list and the outcome.  argv[0] is
   * the command ("fg" or "bg") and argv[1], if present, the job reference.
   */
  function BgFg(t: Table, argv: seq<string>): (r: (Table, BgFgOutcome))
    requires |argv| >= 1
    ensures r.1.Rejected? <==> |argv| == 1 || Resolve(t.slots, argv[0], argv[1]).Err?
    ensures |argv| == 1 ==> r.1 == Rejected(MissingArgument(argv[0]))
    ensures r.1.Rejected? ==> r.0 == t
    ensures r.1.Rejected? && |argv| > 1 ==> r.1.error == Resolve(t.slots, argv[0], argv[1]).error
    ensures r.1.Foreground? <==> !r.1.Rejected? && argv[0] == "fg"
    ensures |r.0.slots| == |t.slots|
    ensures !r.1.Rejected? ==>
      var i := Resolve(t.slots, argv[0], argv[1]).value;
      r.0.slots[i].state == (if argv[0] == "fg" then FG else BG) && r.1.continued == -t.slots[i].pid
  {
    if |argv| == 1 then (t, Rejected(MissingArgument(argv[0])))
    else
      match Resolve(t.slots, argv[0], argv[1])
      case Err(e) => (t, Rejected(e))
      case Ok(i) =>
        var job := t.slots[i];
        if argv[0] == "fg" then
          (Table(t.slots[i := job.(state := FG)], t.nextjid), Foreground(-job.pid, job.pid))
        else
          (Table(t.slots[i := job.(state := BG)], t.nextjid),
           Background(-job.pid, Notice(job.jid, job.pid, job.cmdline)))
  }

  /** do_bgfg: resolve the reference, then set the job's state in place. */
  method DoBgFg(t: JobTable, argv: seq<string>) returns (outcome: BgFgOutcome)
    requires t.Valid() && |argv| >= 1
    modifies t.jobs
    ensures t.Valid()
    ensures (t.Abs(), outcome) == BgFg(old(t.Abs()), argv)
  {
    if |argv| == 1 {
      return Rejected(MissingArgument(argv[0]));
    }
    var job := FindJob(t, argv[0], argv[1]);
    if job.Err? {
      return Rejected(job.error);
    }
    var i := job.value;
    var pid := t.jobs[i].pid;
    assert t.jobs[..][i] == t.jobs[i] && WellFormed(t.jobs[i]) && t.jobs[i] != Empty;
    if argv[0] == "fg" {
      t.jobs[i] := t.jobs[i].(state := FG);
      outcome := Foreground(-pid, t.jobs[i].pid);
    } else {
      t.jobs[i] := t.jobs[i].(state := BG);
      outcome := Background(-pid, Notice(t.jobs[i].jid, t.jobs[i].pid, t.jobs[i].cmdline));
    }
  }

  /** The reference-resolution part of do_bgfg, with getjobjid and getjobpid. */
  method FindJob(t: JobTable, cmd: string, id: string) returns (r: Result<nat, BgFgError>)
    requires t.Valid()
    ensures r == Resolve(t.jobs[..], cmd, id)
  {
    if id != [] && id[0] == '%' {
      var jid := Atoi(id[1..]);
      var job := t.GetJobJid(jid);
      if job.None? || jid == 0 {
        return Err(NoSuchJob(id));
      }
      return Ok(job.value);
    } else if id != [] && IsDigit(id[0]) {
      var pid := Atoi(id);
      var job := t.GetJobPid(pid);
      if job.None? || pid == 0 {
        return Err(NoSuchProcess(pid));
      }
      return Ok(job.value);
    } else {
      return Err(BadArgument(cmd));
    }
  }

  /** "%N" names job N: it resolves to the first slot with job id N, and is "No such job" when there is none. */
  lemma JobReference(s: seq<Job>, cmd: string, n: nat)
    ensures var id := "%" + Decimal(n);
      Resolve(s, cmd, id) ==
        if JobByJid(s, n).Some? then Ok(JobByJid(s, n).value) else Err(NoSuchJob(id))
  {
    var d := Decimal(n);
    var id := "%" + d;
    assert id != [] && id[0] == '%' && id[1..] == d;
    assert Atoi(id[1..]) == n by {
      ValueOfDecimal(n);
    }
  }

  /** "%0" is always "No such job": no job has id 0. */
  lemma ZeroJobReference(s: seq<Job>, cmd: string)
    ensures Resolve(s, cmd, "%0") == Err(NoSuchJob("%0"))
  {
    var z := "%0";
    assert z != [] && z[0] == '%' && z[1..] == "0";
    assert Atoi("0") == 0 by {
      assert AllDigits("0") && "0"[..0] == "";
    }
  }

  /** A reference in digits names a pid: the first slot with that pid, and "No such process" when there is none (always for 0). */
  lemma ProcessReference(s: seq<Job>, cmd: string, n: nat)
    ensures var id := Decimal(n);
      Resolve(s, cmd, id) ==
        if JobByPid(s, n).Some? then Ok(JobByPid(s, n).value) else Err(NoSuchProcess(n))
    ensures Resolve(s, cmd, "0") == Err(NoSuchProcess(0))
  {
    assert Decimal(n) == Decimal(n) + "";
    AtoiDecimal(n, "");
    assert "0" == Decimal(0) + "";
    AtoiDecimal(0, "");
  }

  /** A reference that is empty or starts with neither '%' nor a digit is refused as a bad argument. */
  lemma OtherReference(s: seq<Job>, cmd: string, id: string)
    requires id == [] || (id[0] != '%' && !IsDigit(id[0]))
    ensures Resolve(s, cmd, id) == Err(BadArgument(cmd))
  {
  }

  /**
   * fg and bg either refuse and leave the list as it was, or change the
   * state of the job the reference names, to FG for fg and BG otherwise,
   * keeping its pid, job id and command line, every other slot and nextjid;
   * that job's process group is continued and, in the foreground, waited
   * for, or, in the background, announced.
   */
  lemma BgFgChangesOneState(t: Table, argv: seq<string>)
    requires TableOk(t) && |argv| >= 1
    ensures var r := BgFg(t, argv);
      r.1.Rejected? ==> r.0 == t
    ensures var r := BgFg(t, argv);
      !r.1.Rejected? ==>
        r.0.nextjid == t.nextjid && TableOk(r.0) &&
        var i := Resolve(t.slots, argv[0], argv[1]).value;
          t.slots[i].pid >= 1 &&
          r.0.slots == t.slots[i := t.slots[i].(state := if argv[0] == "fg" then FG else BG)] &&
          r.1.continued == -t.slots[i].pid &&
          (r.1.Foreground? ==> argv[0] == "fg" && r.1.waitFor == t.slots[i].pid) &&
          (r.1.Background? ==>
            argv[0] != "fg" && r.1.notice == Notice(t.slots[i].jid, t.slots[i].pid, t.slots[i].cmdline))
  {
    var r := BgFg(t, argv);
    if !r.1.Rejected? {
      var i := Resolve(t.slots, argv[0], argv[1]).value;
      assert WellFormed(t.slots[i]) && t.slots[i] != Empty;
      var s := r.0.slots;
      assert forall k :: 0 <= k < |s| && k != i ==> s[k] == t.slots[k];
    }
  }

  /** "fg %N" with job N in the list moves job N, and no other, to the foreground and waits for its pid. */
  lemma FgMovesNamedJob(t: Table, n: nat)
    requires TableOk(t) && JobByJid(t.slots, n).Some?
    ensures var i := JobByJid(t.slots, n).value;
      var r := BgFg(t, ["fg", "%" + Decimal(n)]);
      r.0.slots == t.slots[i := t.slots[i].(state := FG)] && r.1 == Foreground(-t.slots[i].pid, t.slots[i].pid)
  {
    var argv := ["fg", "%" + Decimal(n)];
    JobReference(t.slots, "fg", n);
    assert argv[0] == "fg" && argv[1] == "%" + Decimal(n);
    BgFgChangesOneState(t, argv);
  }

  // ---------------------------------------------------------------------
  // waitfg: when the shell stops waiting
  // ---------------------------------------------------------------------

  /**
   * waitfg(pid) has returned, given the list when it was called and the list
   * now: pid is 0, or pid had no job at the call, or pid is no longer what
   * fgpid reports.  (The sleep-and-poll loop itself is not modelled.)
   */
  predicate WaitFgDone(atCall: seq<Job>, now: seq<Job>, pid: int)
    ensures !WaitFgDone(atCall, now, pid) ==>
      pid >= 1 && exists i :: 0 <= i < |now| && now[i].state == FG && now[i].pid == pid
  {
    pid == 0 || JobByPid(atCall, pid).None? || FgPid(now) != pid
  }

  /** Once fg has moved a job into the foreground of a list with no other FG job, waitfg blocks on it. */
  lemma ForegroundWaits(t: Table, argv: seq<string>)
    requires TableOk(t) && |argv| >= 1
    requires forall i :: 0 <= i < |t.slots| ==> t.slots[i].state != FG
    requires BgFg(t, argv).1.Foreground?
    ensures var r := BgFg(t, argv);
      AtMostOneFg(r.0.slots) && FgPid(r.0.slots) == r.1.waitFor &&
      !WaitFgDone(r.0.slots, r.0.slots, r.1.waitFor)
  {
    var i := Resolve(t.slots, argv[0], argv[1]).value;
    var s := BgFg(t, argv).0.slots;
    assert WellFormed(t.slots[i]) && t.slots[i].pid >= 1;
    assert forall k :: 0 <= k < |s| && k != i ==> s[k].state != FG;
    assert s[i].state == FG && s[i].pid == t.slots[i].pid;
    assert JobByPid(s, s[i].pid).Some?;
  }

  /** Reaping the waited-for pid ends the wait, whether the child exited, was killed or stopped. */
  lemma ReapEndsWait(t: Table, pid: int, status: ChildStatus)
    requires Reapable(t, pid, status) && PidsUnique(t.slots)
    ensures WaitFgDone(t.slots, ReapOne(t, pid, status).0.slots, pid)
  {
    var s := ReapOne(t, pid, status).0.slots;
    if status.Stopped? {
      ReapStopsOnlyThatJob(t, pid, status);
    } else {
      ReapRemovesExactly(t, pid, status);
    }
    assert forall k :: 0 <= k < |s| && s[k].pid == pid ==> s[k].state != FG;
    var first := FirstMatch(s, StateIs(FG));
    if first.Some? {
      assert s[first.value].state == FG && FgPid(s) == s[first.value].pid;
    } else {
      assert FgPid(s) == 0;
    }
  }

  // ---------------------------------------------------------------------
  // eval: the parent's side of starting a job
  // ---------------------------------------------------------------------

  /** What the parent does after addjob: wait for a foreground job, or print a background job's notice. */
  datatype LaunchOutcome = WaitFor(pid: int) | Announce(notice: Notice)

  /** The parent path of eval for a child pid: addjob as FG or BG, then waitfg or the "[jid] (pid) cmdline" line. */
  method Launch(t: JobTable, pid: int, bg: bool, cmdline: string) returns (outcome: LaunchOutcome)
    requires t.Valid()
    modifies t, t.jobs
    ensures t.Valid()
    ensures t.Abs() == AddOutcome(old(t.Abs()), pid, if bg then BG else FG, cmdline).0
    ensures outcome == if bg then Announce(Notice(Jobs.Pid2Jid(t.jobs[..], pid), pid, cmdline)) else WaitFor(pid)
  {
    var _ := t.AddJob(pid, if bg then BG else FG, cmdline);
    if !bg {
      outcome := WaitFor(pid);
    } else {
      var jid := t.Pid2Jid(pid);
      outcome := Announce(Notice(jid, pid, cmdline));
    }
  }

  /**
   * A new child's pid, added to a list with room, is announced with the job
   * id the allocator held; added in the foreground of a list without an FG
   * job, it is the job waitfg blocks on.
   */
  lemma LaunchedJob(t: Table, pid: int, state: JobState, cmdline: string)
    requires TableOk(t) && pid >= 1 && HasFree(t.slots) && JobByPid(t.slots, pid).None?
    requires state != Undef
    ensures var s := AddOutcome(t, pid, state, cmdline).0.slots;
      Pid2Jid(s, pid) == t.nextjid
    ensures var s := AddOutcome(t, pid, state, cmdline).0.slots;
      state == FG && (forall i :: 0 <= i < |t.slots| ==> t.slots[i].state != FG) ==>
        FgPid(s) == pid && !WaitFgDone(s, s, pid)
  {
    var r := AddOutcome(t, pid, state, cmdline);
    var i :| 0 <= i < |t.slots| && t.slots[i].pid == 0 &&
      r.0.slots == t.slots[i := Job(pid, t.nextjid, state, cmdline)];
    var s := r.0.slots;
    assert forall k :: 0 <= k < |s| && k != i ==> s[k].pid != pid;
    assert s[i].pid == pid;
    assert JobByPid(s, pid) == Some(i);
    if state == FG && (forall k :: 0 <= k < |t.slots| ==> t.slots[k].state != FG) {
      assert forall k :: 0 <= k < |s| && k != i ==> s[k].state != FG;
    }
  }
}
