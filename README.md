# tsh job control, modelled in Dafny

`tsh.c` is a tiny Unix shell with job control. It reads a command line, splits it into an argument vector and decides whether the job runs in the foreground or the background. It keeps every child in a fixed table of `MAXJOBS` (16) job slots with a job-id allocator `nextjid`. Its signal handlers keep that table in step with what the kernel reports:
- SIGCHLD reaps children and deletes or stops their jobs;
- ctrl-c and ctrl-z are relayed to the foreground job.

The `fg` and `bg` built-ins continue a job and move it to the foreground or the background.

This project models that core in Dafny:

- `basics.dfy` (module `Basics`): `Option` and `Result`.
- `text.dfy` (module `Text`):
  - `isdigit`, `isspace` and `atoi`, which the `fg`/`bg` references rely on;
  - the decimal rendering (`%d`) that `atoi` reads back.
- `jobs.dfy` (module `Jobs`): the job list as a value (`Job`, `Table`).
  - The read-only scans (`getjobpid`, `getjobjid`, `fgpid`, `pid2jid`, `maxjid`) are functions with declarative contracts. `listjobs` is the recursive function `Listed`, described in slot order by the lemma `ListedInOrder` through the indices of the occupied slots (`Occupied`).
  - The effects of `addjob` and `deletejob` are `AddOutcome` and `DeleteOutcome`.
  - The invariants the shell relies on are stated here but not enforced by the code: unique pids, unique job ids, at most one FG job.
  - Concrete runs: filling the table, removing a job and the allocator's wrap-around.
- `job_table.dfy` (module `JobList`): class `JobTable`, the global array `jobs[MAXJOBS]` and `nextjid` updated in place. Each helper is a method with the scanning loop the shell runs, proved equal to the `Jobs` function on the abstract value `Abs()`.
- `parse.dfy` (module `Parse`): `parseline`.
  - The pointer walk over its buffer becomes a loop over positions (`SplitArguments`, `Advance`, `StrChr`).
  - It is proved equal to a recursive tokenizer (`Tokens`).
  - Lemmas about the tokenizer: blank lines, quoted arguments, and the round trip from typed words back to `argv` and the `&` flag.
- `shell.dfy` (module `Shell`):
  - the table effects of `sigchld_handler` (`Reap`, one child at a time in `ReapChild`);
  - the target choice of `sigint_handler`/`sigtstp_handler` (`Relay`);
  - reference resolution and the state change of `do_bgfg` (`DoBgFg`);
  - the exit condition of `waitfg`;
  - the parent path of `eval` (`Launch`).
  - What the operating system reports (waitpid's pid and status, the forked pid) comes in as parameters. What the shell sends or prints (kill, the printf lines) comes out as values.

Three behaviours of `tsh.c` that the model makes explicit:

- **Allocator after a removal.** `deletejob` sets `nextjid` to the largest live job id plus one (tsh.c:649). After removing job 2 of jobs 1, 2, 3, the next job gets id 4 and takes the freed slot 1 (`Jobs.RemoveThenAddReusesSlot`).
- **Live job ids can repeat.** `addjob` wraps `nextjid` to 1 once it passes `MAXJOBS` (tsh.c:621-623) and does not check whether that id is live. With jobs 1..15, removing job 2 sets the allocator to 16. The next job gets 16 and wraps the allocator to 1. The job after that gets id 1 while job 1 is still live (`Jobs.JidWrapCollision`).
- **Unguarded invariants.** "At most one job in FG" (the comment at tsh.c:29-36) and unique pids are not enforced by `addjob`. They are stated as predicates and proved preserved under explicit preconditions, never claimed as code guarantees.

## Model

| member | source | states |
|---|---|---|
| Jobs.InitTable | tsh.c:588-594 | the initial list is well formed and every slot is free |
| Jobs.JobByPid | tsh.c:668-678 | getjobpid finds a slot iff pid >= 1 and some slot holds pid; the slot found holds pid and no earlier slot does |
| Jobs.JobByJid | tsh.c:681-691 | getjobjid finds a slot iff jid >= 1 and some slot holds jid; the slot found holds jid and no earlier slot does |
| Jobs.FgPid | tsh.c:657-665 | fgpid is 0 when no slot is in FG, otherwise the pid of the first FG slot |
| Jobs.Pid2Jid | tsh.c:694-706 | pid2jid is 0 for pid < 1 or an absent pid, otherwise the jid of the first slot holding pid |
| Jobs.MaxJid | tsh.c:597-605 | maxjid is at least 0, at least every slot's jid, and either 0 or the jid of some slot |
| Jobs.Listed | tsh.c:709-736 | the listing has at most one entry per slot |
| Jobs.Occupied | tsh.c:713-715 | the indices listjobs visits: strictly increasing, each an occupied slot, and every occupied slot among them |
| Jobs.ListedInOrder | tsh.c:709-736 | listjobs prints each occupied slot once, in slot order: entry k of the listing is slot Occupied(s)[k] |
| Jobs.ListedSpec | tsh.c:709-736 | listjobs shows exactly the occupied slots: every listed job is an occupied slot and every occupied slot is listed |
| Jobs.ListedPrefix | tsh.c:709-736 | with the first k slots occupied and the rest free, the listing is those k jobs in slot order |
| Jobs.NextJid | tsh.c:621-623 | the allocator advances by one while the result is at most MAXJOBS, and otherwise wraps to 1; from a non-negative value it stays within 1..MAXJOBS |
| Jobs.AddOutcome | tsh.c:608-634 | addjob returns 1 iff pid >= 1 and a slot is free; on 0 nothing changes; on 1 the lowest free slot gets (pid, old nextjid, state, cmdline), no other slot changes, nextjid advances with wrap to 1 past MAXJOBS, and well-formedness is kept |
| Jobs.DeleteOutcome | tsh.c:637-654 | deletejob returns 1 iff pid >= 1 and some slot holds pid; on 0 nothing changes; on 1 only the first slot holding pid is cleared and nextjid becomes maxjid of the new list + 1 |
| Jobs.AddKeepsPidsUnique | tsh.c:608-634 | adding a pid not yet in the list keeps pids unique |
| Jobs.AddKeepsAtMostOneFg | tsh.c:29-36 | adding a BG job, or an FG job while none is in FG, keeps at most one FG job |
| Jobs.AddKeepsJidsUnique | tsh.c:617-623 | when nextjid is above every live jid, addjob keeps jids unique, and keeps nextjid fresh while it does not wrap |
| Jobs.DeleteKeepsInvariants | tsh.c:637-654 | deletejob keeps pids, jids and at most one FG unique, removes the pid from a list with unique pids, and leaves nextjid above every live jid |
| Jobs.FillFromInit | tsh.c:608-634 | adding k background jobs to the initial list fills slots 0..k-1 with job ids 1..k |
| Jobs.ThreeJobsListed | tsh.c:709-736 | three added jobs are listed in slot order with job ids 1, 2, 3 |
| Jobs.RemoveThenAddReusesSlot | tsh.c:646-649 | removing job 2 of jobs 1, 2, 3 sets nextjid to 4, and the next job takes the freed slot with id 4 |
| Jobs.FullTableRejects | tsh.c:615-633 | a 17th job is refused with 0 and the list is unchanged |
| Jobs.WrapStagesUniqueness | tsh.c:617-623 | jids are unique before the wrap and after the first post-removal add, and repeat after the second |
| Jobs.JidWrapCollision | tsh.c:617-623 | the allocator's wrap-around hands out job id 1 while job 1 is still live |
| JobList.JobTable.constructor | tsh.c:588-594 | the fresh job list equals the initial table and is well formed |
| JobList.JobTable.ClearJob | tsh.c:579-585 | clearjob empties slot i and changes no other slot |
| JobList.JobTable.InitJobs | tsh.c:588-594 | initjobs clears every slot, keeping the list well formed |
| JobList.JobTable.MaxJid | tsh.c:597-605 | the scan returns the largest jid in the list |
| JobList.JobTable.AddJob | tsh.c:608-634 | the new list and return code are those of addjob's specification, and well-formedness is kept |
| JobList.JobTable.DeleteJob | tsh.c:637-654 | the new list and return code are those of deletejob's specification, and well-formedness is kept |
| JobList.JobTable.FgPid | tsh.c:657-665 | the scan returns fgpid of the list |
| JobList.JobTable.GetJobPid | tsh.c:668-678 | the scan returns the first slot holding pid, or none |
| JobList.JobTable.GetJobJid | tsh.c:681-691 | the scan returns the first slot holding jid, or none |
| JobList.JobTable.Pid2Jid | tsh.c:694-706 | the scan returns pid2jid of the list |
| JobList.JobTable.ListJobs | tsh.c:709-736 | the scan returns the occupied slots in order |
| Text.SpaceRun | tsh.c:374 | the leading run atoi skips is all white space and is followed by a non-space |
| Text.DigitRun | tsh.c:374 | the run atoi reads is all digits and is followed by a non-digit |
| Text.Decimal | tsh.c:424 | the rendering of n is non-empty digits, with a leading zero only for 0 |
| Text.Atoi | tsh.c:374 | atoi of a string of digits is its decimal value, and a string starting with a digit reads as non-negative |
| Text.ValueOfDecimal | tsh.c:374 | the digits of Decimal(n) denote n |
| Text.AtoiDecimal | tsh.c:374 | atoi reads back Decimal(n), also when a non-digit follows |
| Text.AtoiOfDigits | tsh.c:387-389 | a string starting with a digit reads as the non-negative value of its leading digits |
| Parse.Find | tsh.c:270 | strchr's position is at or after the start and inside the buffer |
| Parse.FindSpec | tsh.c:270 | strchr's position holds c and no earlier position from the start does; none means no c at all |
| Parse.LeadSpec | tsh.c:262-263 | the skip loop stops at the first non-space from i |
| Parse.Lead | tsh.c:262-263 | the skip loop stops at or after its start, inside the buffer |
| Parse.NextToken | tsh.c:277-294 | each round consumes at least one character |
| Parse.Buffer | tsh.c:260-261 | the scanned buffer is the line with its last character replaced by a space, same length, the rest kept |
| Parse.Tokens | tsh.c:266-294 | the arguments of successive tokenizer rounds until no delimiter follows (see TokensBound, SplitArguments) |
| Parse.TokensBound | tsh.c:277-294 | each round consumes a character, so there are at most as many arguments as characters left |
| Parse.Parsed | tsh.c:295-305 | the flag is set iff there are no arguments or the last argument starts with '&'; the vector is all the arguments minus that last one when it is set, and empty for a blank line |
| Parse.StrChr | tsh.c:270 | the loop computes strchr's answer |
| Parse.Advance | tsh.c:282-293 | skip spaces, open a quote if any, find the delimiter: exactly one round of the tokenizer |
| Parse.SplitArguments | tsh.c:266-295 | the argv-building loop yields the tokenizer's full argument list |
| Parse.ParseLine | tsh.c:252-306 | parseline's argv and result are those of the specification |
| Parse.BlankLine | tsh.c:297-298 | a line of only spaces and a newline gives no arguments and the result 1 |
| Parse.QuotedArgument | tsh.c:267-270 | an argument opened by a quote runs to the next quote, spaces included |
| Parse.UnclosedQuote | tsh.c:267-277 | a quote that is never closed yields no argument: the line reads as blank |
| Parse.TokensOfSpaced | tsh.c:274-294 | plain words each followed by a single space come back as the same words |
| Parse.ParseCommandLine | tsh.c:260-305 | a typed command line gives back its words as argv; a trailing "&" word sets the flag and is dropped |
| Shell.ReapOne | tsh.c:486-510 | an exited child prints nothing; a killed child prints one "terminated" line with its pid2jid; a stopped child prints one "stopped" line with its pid2jid |
| Shell.ReapAll | tsh.c:483-511 | handling each reaped child in turn keeps sixteen slots and prints at most one line per child |
| Shell.Reap | tsh.c:483-511 | the handler's loop leaves the list and the printed lines of handling each reaped child in order, and keeps the list well formed |
| Shell.ReapChild | tsh.c:486-510 | one loop round changes the list and prints as ReapOne says |
| Shell.ReapRemovesExactly | tsh.c:487-501 | with unique pids, an exited or killed child's job is cleared and every other slot is unchanged; nextjid becomes maxjid + 1 of the new list when the pid was in the list (deletejob, tsh.c:649) and is kept otherwise |
| Shell.ReapStopsOnlyThatJob | tsh.c:503-506 | with unique pids, a stopped child's job becomes ST with pid, jid and cmdline kept; other slots and nextjid are unchanged |
| Shell.ReapKeepsInvariants | tsh.c:483-510 | a reaped child keeps the list well formed, pids and jids unique and at most one FG job |
| Shell.RelayTarget | tsh.c:532-541 | no FG job means no signal; a signal sent is the one typed, to the process group of a job in FG |
| Shell.Relay | tsh.c:527-568 | the handlers send to the process group of fgpid when it is not 0, and otherwise send nothing |
| Shell.RelayReachesForeground | tsh.c:527-568 | a signal goes out iff some job is in FG, to the negated pid of an FG job, and with at most one FG job it is that job's group |
| Shell.Resolve | tsh.c:360-406 | a resolved reference names a slot of the list |
| Shell.JobReference | tsh.c:371-383 | "%N" resolves to the first slot with job id N, and "No such job" when there is none |
| Shell.ZeroJobReference | tsh.c:374-383 | "%0" is always "No such job" |
| Shell.ProcessReference | tsh.c:386-397 | a decimal reference resolves to the first slot with that pid, "No such process" when there is none, and always for "0" |
| Shell.OtherReference | tsh.c:401-405 | a reference starting with neither '%' nor a digit is refused as a bad argument |
| Shell.BgFg | tsh.c:360-425 | fg/bg refuses iff the reference is missing or does not resolve, with the usage error for a missing reference, resolution's error otherwise, and the list unchanged; on success the job the reference resolves to is set to FG (fg) or BG (bg) and its process group is the one continued, fg waits and bg announces |
| Shell.BgFgChangesOneState | tsh.c:360-425 | every refusal leaves the list unchanged; otherwise the referenced job (the slot `Resolve` names) is live and is set to FG (fg) or BG (bg) with pid, jid, cmdline, other slots and nextjid kept, its group is continued, and fg waits for it while bg announces it |
| Shell.FgMovesNamedJob | tsh.c:371-424 | "fg %N" with job N in the list sets job N's slot, and only it, to FG, continues its group and waits for its pid |
| Shell.DoBgFg | tsh.c:353-428 | the in-place state change and the outcome are those of the specification |
| Shell.FindJob | tsh.c:371-406 | the lookups through getjobjid/getjobpid give the reference's resolution |
| Shell.ForegroundWaits | tsh.c:413-417 | after fg moves a job into a list with no FG job, it is the only FG job, fgpid reports it and waitfg keeps waiting |
| Shell.WaitFgDone | tsh.c:441-452 | while waitfg keeps waiting, pid is positive and its job is in FG in the current list |
| Shell.ReapEndsWait | tsh.c:433-455 | with unique pids, reaping the waited-for pid (exit, kill or stop) ends waitfg's loop |
| Shell.Launch | tsh.c:226-239 | the parent adds the job as FG or BG, then waits for an FG job or announces a BG job with its pid2jid |
| Shell.LaunchedJob | tsh.c:228-237 | a new pid added to a list with room gets the old nextjid as its job id; added as FG to a list without an FG job, fgpid reports it and waitfg blocks |

## Left out

- `main`, the `getopt` flags, the prompt and the `fgets` read loop (tsh.c:99-166): input and output plumbing.
- `fork`, `execve`, `setpgid`, the signal masks and the `_fork`/`_setpgid`/`_sig*` wrappers (tsh.c:179-243, 801-841): operating-system calls. Only the parent path of `eval` after the fork is modelled (`Shell.Launch`).
- The asynchronous interleaving of handlers with the main program: each handler invocation is one atomic method.
- `waitfg`'s `sleep(1)` polling loop: it blocks on outside events. Only its exit condition is modelled (`Shell.WaitFgDone`).
- `kill`, `waitpid`, `Signal`/`sigaction`, `sigquit_handler`, `usage`, `unix_error`, `app_error`: foreign calls and exit paths.
  - waitpid's results come in as a sequence of (pid, status) pairs.
  - kill becomes a `Delivery` value or the `continued` field of an outcome.
- `printf` formatting and `verbose` diagnostics. Printed lines are values (`Report`, `Notice`, `BgFgError`). The "Tried to create too many jobs" line is return code 0 with pid >= 1, which by `Jobs.AddOutcome` means no slot is free; a pid below 1 also gives 0, silently.
- `builtin_cmd` (tsh.c:312-348): the dispatch by command name (quit, jobs, bg/fg) is not modelled. Its `jobs` branch is `ListJobs` and its `bg`/`fg` branch is `DoBgFg`.
- listjobs' state labels and its "Internal error" line for an undefined state: the listing is the sequence of occupied slots.
- `strcpy` into the fixed buffers (`MAXLINE`, the job's `cmdline`) and the `MAXARGS` bound on `argv`: lengths are unbounded, and the command line is an opaque string.
- `Text.Atoi`: C `atoi`'s behaviour on overflow is undefined and is not modelled. The value is the exact number of the digit run.
- `Parse.ParseLine`: requires a line of at least one character (parseline overwrites `buf[strlen(buf) - 1]`) and without NUL characters (which end the C string). Its `argv` is a sequence of strings rather than pointers into a static buffer.
- `JobList.JobTable.AddJob`: requires a state other than UNDEF. The shell only ever passes FG or BG.
- `Shell.Reap`: requires each stopped child to be in the list (the handler writes through getjobpid's result without a null check) and every reaped pid to be positive (the loop stops at 0 or -1).
