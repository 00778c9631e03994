/** The SIGCHLD protocol of tsh.c as interleaved steps of the kernel, the handler and the main flow.
    The handler runs on top of the main flow, with SIGCHLD blocked.  SIGCHLD has one pending bit: as
    section 2.4.1 of the System Interfaces volume of IEEE Std 1003.1-2017 allows, a second signal that
    is generated while one is pending is not queued. */
module Sigchld {
  import opened Jobs

  /** An unreaped child; reported tells whether waitpid has already reported that it stopped. */
  datatype Child = Running | Halted(reported: bool) | Zombie

  /** Where the main flow is: in eval between blocking and unblocking SIGCHLD, in waitfg, or elsewhere. */
  datatype Main =
    | Elsewhere
    | BeforeFork(saved: bool)
    | BeforeAdd(saved: bool, pid: int)
    | AfterAdd(saved: bool)
    | WaitCheck(saved: bool)
    | WaitSuspended(saved: bool)

  /** Where the handler is: not running, about to call waitpid, about to update the table about a
      report, or past the waitpid that had nothing more to report. */
  datatype Handler = Idle | Calling | Updating(pid: int, report: Report) | Finished

  datatype State = State(
    children: map<int, Child>,
    pending: bool,
    blocked: bool,
    main: Main,
    handler: Handler,
    jobs: Jobs,
    refused: set<int>)

  /** waitpid with WNOHANG and WUNTRACED has something to report about this child. */
  ghost predicate Waitable(s: State, pid: int) {
    pid in s.children && (s.children[pid].Zombie? || s.children[pid] == Halted(false))
  }

  ghost predicate Init(s: State) {
    s == State(map[], false, false, Elsewhere, Idle, Jobs(seq(MAXJOBS, _ => CLEAR_JOB), 1), {})
  }

  datatype Action =
    // the kernel
    | Exits(pid: int)
    | Stops(pid: int)
    | Continues(pid: int, signalled: bool)
    | Deliver
    // the handler
    | WaitReports(pid: int)
    | WaitNothing
    | Update
    | HandlerReturns
    // eval
    | Block
    | ForkFails
    | Fork(child: int)
    | AddJob(state: JobState, cmdline: string)
    | Unblock
    // waitfg, and the unprotected write of do_bgfg
    | StartWait
    | Suspend
    | WakeUp
    | EndWait
    | SetState(slot: nat, newState: JobState)

  ghost predicate Next(s: State, a: Action, s': State) {
    match a
    case Exits(pid) =>
      && pid in s.children && !s.children[pid].Zombie?
      && s' == s.(children := s.children[pid := Zombie], pending := true)
    case Stops(pid) =>
      && pid in s.children && s.children[pid].Running?
      && s' == s.(children := s.children[pid := Halted(false)], pending := true)
    case Continues(pid, signalled) =>
      && pid in s.children && s.children[pid].Halted?
      && s' == s.(children := s.children[pid := Running], pending := s.pending || signalled)
    case Deliver =>
      && s.pending && !s.blocked && s.handler.Idle?
      && s' == s.(pending := false, handler := Calling)
    case WaitReports(pid) =>
      && s.handler.Calling? && Waitable(s, pid)
      && s' == if s.children[pid].Zombie?
               then s.(children := s.children - {pid}, handler := Updating(pid, Exited), refused := s.refused - {pid})
               else s.(children := s.children[pid := Halted(true)], handler := Updating(pid, Stopped))
    case WaitNothing =>
      && s.handler.Calling? && (forall pid :: !Waitable(s, pid))
      && s' == s.(handler := Finished)
    case Update =>
      && s.handler.Updating?
      && s' == s.(jobs := Handled(s.jobs, s.handler.pid, s.handler.report), handler := Calling)
    case HandlerReturns =>
      && s.handler.Finished?
      && s' == s.(handler := Idle)
    case Block =>
      && MainRuns(s) && s.main.Elsewhere?
      && s' == s.(main := BeforeFork(s.blocked), blocked := true)
    case ForkFails =>
      && MainRuns(s) && s.main.BeforeFork?
      && s' == s.(main := Elsewhere)
    case Fork(child) =>
      && MainRuns(s) && s.main.BeforeFork? && child >= 1 && child !in s.children
      && s' == s.(main := BeforeAdd(s.main.saved, child), children := s.children[child := Running])
    case AddJob(state, cmdline) =>
      && MainRuns(s) && s.main.BeforeAdd?
      && var js := Added(s.jobs, s.main.pid, state, cmdline);
         s' == s.(main := AfterAdd(s.main.saved), jobs := js,
                  refused := if js == s.jobs then s.refused + {s.main.pid} else s.refused)
    case Unblock =>
      && MainRuns(s) && s.main.AfterAdd?
      && s' == s.(main := Elsewhere, blocked := s.main.saved)
    case StartWait =>
      && MainRuns(s) && s.main.Elsewhere?
      && s' == s.(main := WaitCheck(s.blocked), blocked := true)
    case Suspend =>
      && MainRuns(s) && s.main.WaitCheck? && FgPidOf(s.jobs.table) > 0
      && s' == s.(main := WaitSuspended(s.main.saved), blocked := s.main.saved)
    case WakeUp =>
      && MainRuns(s) && s.main.WaitSuspended?
      && s' == s.(main := WaitCheck(s.main.saved), blocked := true)
    case EndWait =>
      && MainRuns(s) && s.main.WaitCheck? && FgPidOf(s.jobs.table) == 0
      && s' == s.(main := Elsewhere, blocked := s.main.saved)
    case SetState(slot, newState) =>
      && MainRuns(s) && s.main.Elsewhere?
      && s' == s.(jobs := Restated(s.jobs, slot, newState))
  }

  /** The main flow takes a step only when no handler runs on top of it. */
  ghost predicate MainRuns(s: State) {
    s.handler.Idle?
  }

  // ---------- Invariants ----------

  /** No child event is lost: while some child is waitable, a signal is pending or the handler has yet
      to make its last call of waitpid. */
  ghost predicate NoEventLost(s: State) {
    (exists pid :: Waitable(s, pid)) ==> s.pending || s.handler.Calling? || s.handler.Updating?
  }

  /** The child that the handler has reaped and is about to delete, if any. */
  ghost function Reaped(s: State): set<int> {
    if s.handler.Updating? && s.handler.report == Exited then {s.handler.pid} else {}
  }

  /** The child between fork and addjob, if any. */
  ghost function Window(s: State): set<int> {
    if s.main.BeforeAdd? then {s.main.pid} else {}
  }

  /** Every pid in the table belongs to an unreaped child, or to the one that the handler is about to
      delete, and is there once. */
  ghost predicate NoGhostJob(s: State) {
    Once(s.jobs.table) && Pids(s.jobs.table) <= s.children.Keys + Reaped(s)
  }

  /** Every unreaped child is in the table, unless it is inside the window or addjob refused it. */
  ghost predicate NoChildForgotten(s: State) {
    s.children.Keys <= Pids(s.jobs.table) + Window(s) + s.refused
  }

  /** What the invariants above rest on: the window is protected, and pids are told apart. */
  ghost predicate Protected(s: State) {
    && |s.jobs.table| == MAXJOBS
    && (s.main.BeforeFork? || s.main.BeforeAdd? || s.main.AfterAdd? || s.main.WaitCheck? ==>
          s.blocked && s.handler.Idle?)
    && (forall pid :: pid in s.children ==> pid >= 1)
    && s.refused <= s.children.Keys && s.refused !! Pids(s.jobs.table)
    && (s.main.BeforeAdd? ==> s.main.pid in s.children && s.main.pid !in Pids(s.jobs.table) && s.main.pid !in s.refused)
    && (s.handler.Updating? && s.handler.report == Exited ==> s.handler.pid !in s.children)
  }

  ghost predicate Inv(s: State) {
    NoEventLost(s) && NoGhostJob(s) && NoChildForgotten(s) && Protected(s)
  }

  lemma InitInv(s: State)
    requires Init(s)
    ensures Inv(s)
  {
    assert Pids(s.jobs.table) == {};
  }

  lemma NextEvents(s: State, a: Action, s': State)
    requires Inv(s) && Next(s, a, s')
    ensures NoEventLost(s')
  {
    if pid :| Waitable(s', pid) {
      assert Waitable(s, pid) || s'.pending;
    }
  }

  /** A step of the kernel or of the signal, or a call of waitpid, leaves the table alone. */
  lemma NextOthers(s: State, a: Action, s': State)
    requires Inv(s) && Next(s, a, s') && s'.jobs == s.jobs
    requires !a.AddJob? && !a.Update?
    ensures NoGhostJob(s') && NoChildForgotten(s') && Protected(s')
  {
  }

  lemma NextUpdate(s: State, s': State)
    requires Inv(s) && Next(s, Update, s')
    ensures NoGhostJob(s') && NoChildForgotten(s') && Protected(s')
  {
    var js, pid := s.jobs, s.handler.pid;
    match s.handler.report
    case Exited => DeletedPids(js, pid);
    case Stopped => RestatedPids(js, Slot(js.table, pid), ST);
  }

  lemma NextAdd(s: State, a: Action, s': State)
    requires Inv(s) && a.AddJob? && Next(s, a, s')
    ensures NoGhostJob(s') && NoChildForgotten(s') && Protected(s')
  {
    AddedPids(s.jobs, s.main.pid, a.state, a.cmdline);
  }

  lemma NextInv(s: State, a: Action, s': State)
    requires Inv(s) && Next(s, a, s')
    ensures Inv(s')
  {
    NextEvents(s, a, s');
    match a
    case Update => NextUpdate(s, s');
    case AddJob(_, _) => NextAdd(s, a, s');
    case SetState(slot, newState) => RestatedPids(s.jobs, slot, newState);
    case _ => NextOthers(s, a, s');
  }

  // ---------- Runs ----------

  ghost predicate Run(states: seq<State>, actions: seq<Action>) {
    && |states| == |actions| + 1 && Init(states[0])
    && forall i :: 0 <= i < |actions| ==> Next(states[i], actions[i], states[i + 1])
  }

  lemma {:induction false} RunInv(states: seq<State>, actions: seq<Action>, n: nat)
    requires Run(states, actions) && n < |states|
    ensures Inv(states[n])
  {
    if n == 0 {
      InitInv(states[0]);
    } else {
      RunInv(states, actions, n - 1);
      assert Next(states[n - 1], actions[n - 1], states[n]);
      NextInv(states[n - 1], actions[n - 1], states[n]);
    }
  }

  /** No child event is ever lost, in any interleaving. */
  lemma NoEventEverLost(states: seq<State>, actions: seq<Action>, n: nat, pid: int)
    requires Run(states, actions) && n < |states| && Waitable(states[n], pid)
    ensures states[n].pending || states[n].handler.Calling? || states[n].handler.Updating?
  {
    RunInv(states, actions, n);
  }

  /** When nothing is pending and no handler runs, every exited child has been reaped and is out of the table. */
  lemma QuietMeansReaped(states: seq<State>, actions: seq<Action>, n: nat)
    requires Run(states, actions) && n < |states|
    requires !states[n].pending && states[n].handler.Idle?
    ensures forall pid :: pid in states[n].children ==> !states[n].children[pid].Zombie?
    ensures Pids(states[n].jobs.table) <= states[n].children.Keys
  {
    RunInv(states, actions, n);
    forall pid | pid in states[n].children
      ensures !states[n].children[pid].Zombie?
    {
      var waitable := Waitable(states[n], pid);
    }
  }

  /** No ghost jobs: outside the handler's update, the table holds unreaped children only, each once; and
      each unreaped child is in it unless it is inside the window or was refused. */
  lemma TableMatchesChildren(states: seq<State>, actions: seq<Action>, n: nat)
    requires Run(states, actions) && n < |states|
    ensures Once(states[n].jobs.table)
    ensures Pids(states[n].jobs.table) <= states[n].children.Keys + Reaped(states[n])
    ensures states[n].children.Keys - Window(states[n]) - states[n].refused <= Pids(states[n].jobs.table)
  {
    RunInv(states, actions, n);
  }

  /** A child is refused only by a table without a free slot. */
  lemma RefusedWhenFull(s: State, a: Action, s': State, pid: int)
    requires Inv(s) && Next(s, a, s') && pid in s'.refused && pid !in s.refused
    ensures forall j :: j in s.jobs.table ==> j.pid != 0
  {
    AddedPids(s.jobs, s.main.pid, a.state, a.cmdline);
  }

  // ---------- waitfg ----------

  /** waitfg suspends itself only while a job is in the foreground. */
  lemma SuspendsForForeground(s: State, s': State)
    requires Next(s, Suspend, s')
    ensures exists j :: j in s'.jobs.table && j.state == FG && j.pid != 0
  {
    FgPidMeans(s.jobs.table);
    var t := s.jobs.table;
    var i :| 0 <= i < |t| && t[i].state == FG && t[i].pid == FgPidOf(t);
    assert t[i] in t;
  }

  /** Every slot that is marked as in the foreground holds a job. */
  ghost predicate ForegroundHeld(s: State) {
    forall k :: 0 <= k < |s.jobs.table| && s.jobs.table[k].state == FG ==> s.jobs.table[k].pid != 0
  }

  /** The write of do_bgfg hits no slot that has been cleared in the meantime. */
  ghost predicate WritesJob(s: State, a: Action) {
    a.SetState? && a.newState == FG && a.slot < |s.jobs.table| ==> s.jobs.table[a.slot].pid != 0
  }

  lemma ForegroundStep(s: State, a: Action, s': State)
    requires Inv(s) && Next(s, a, s') && ForegroundHeld(s) && WritesJob(s, a)
    ensures ForegroundHeld(s')
  {
    if a.Update? {
      HandledSlots(s.jobs, s.handler.pid, s.handler.report);
    }
  }

  lemma {:induction false} ForegroundAlwaysHeld(states: seq<State>, actions: seq<Action>, n: nat)
    requires Run(states, actions) && n < |states|
    requires forall i :: 0 <= i < n ==> WritesJob(states[i], actions[i])
    ensures ForegroundHeld(states[n])
  {
    hide Inv, Next, WritesJob, ForegroundHeld;
    if n == 0 {
      NoneHeldFirst(states[0]);
    } else {
      ForegroundAlwaysHeld(states, actions, n - 1);
      RunInv(states, actions, n - 1);
      assert Next(states[n - 1], actions[n - 1], states[n]);
      ForegroundStep(states[n - 1], actions[n - 1], states[n]);
    }
  }

  lemma NoneHeldFirst(s: State)
    requires Init(s)
    ensures ForegroundHeld(s)
  {
  }

  /** As long as the unprotected write of do_bgfg has hit no cleared slot, waitfg returns only when no job is
      in the foreground. */
  lemma WaitEndsWithoutForeground(states: seq<State>, actions: seq<Action>, n: nat)
    requires Run(states, actions) && n < |actions| && actions[n].EndWait?
    requires forall i :: 0 <= i < n ==> WritesJob(states[i], actions[i])
    ensures forall j :: j in states[n + 1].jobs.table ==> j.state != FG
  {
    ForegroundAlwaysHeld(states, actions, n);
    assert Next(states[n], actions[n], states[n + 1]);
    FgPidMeans(states[n].jobs.table);
  }

  /** The tables of the run below: two background jobs, of which the first is deleted. */
  lemma MissingTables(t: seq<Job>)
    requires t == seq(MAXJOBS, _ => CLEAR_JOB)
    ensures var t1 := t[0 := Job(1, 1, BG, "")]; var t2 := t1[1 := Job(2, 2, BG, "")]; var t3 := t2[0 := CLEAR_JOB];
            var t4 := t3[0 := Job(0, 0, FG, "")];
            && Added(Jobs(t, 1), 1, BG, "") == Jobs(t1, 2) && Added(Jobs(t1, 2), 2, BG, "") == Jobs(t2, 3)
            && Handled(Jobs(t2, 3), 1, Exited) == Jobs(t3, MaxJidOf(t3) + 1)
            && t1 != t && t2 != t1 && FgPidOf(t4) == 0 && FgPidOf(t4[1 := Job(2, 2, FG, "")]) == 0
  {
    var t1 := t[0 := Job(1, 1, BG, "")];
    var t2 := t1[1 := Job(2, 2, BG, "")];
    var t3 := t2[0 := CLEAR_JOB];
    var t4 := t3[0 := Job(0, 0, FG, "")];
    SlotIs(t, 0, 0);
    SlotIs(t1, 0, 1);
    SlotIs(t2, 1, 0);
    assert t1[0] != t[0] && t2[1] != t1[1];
    FgIs(t4, 0);
    FgIs(t4[1 := Job(2, 2, FG, "")], 0);
  }

  ghost predicate Steps(states: seq<State>, actions: seq<Action>) {
    |states| == |actions| + 1 && forall i :: 0 <= i < |actions| ==> Next(states[i], actions[i], states[i + 1])
  }

  lemma JoinSteps(S: seq<State>, A: seq<Action>, S': seq<State>, A': seq<Action>)
    requires Steps(S, A) && Steps(S', A') && S[|A|] == S'[0]
    ensures Steps(S + S'[1..], A + A')
  {
    hide Next;
    var states, actions := S + S'[1..], A + A';
    forall i | 0 <= i < |actions|
      ensures Next(states[i], actions[i], states[i + 1])
    {
      if i < |A| {
        assert Next(S[i], A[i], S[i + 1]);
      } else {
        assert Next(S'[i - |A|], A'[i - |A|], S'[i - |A| + 1]);
      }
    }
  }

  /** Background jobs in the first two slots. */
  lemma TwoJobs(t: seq<Job>) returns (states: seq<State>)
    requires t == seq(MAXJOBS, _ => CLEAR_JOB)
    ensures Steps(states, [Block, Fork(1), AddJob(BG, ""), Unblock, Block, Fork(2), AddJob(BG, ""), Unblock])
    ensures Init(states[0])
    ensures var t2 := t[0 := Job(1, 1, BG, "")][1 := Job(2, 2, BG, "")];
            states[8] == State(map[1 := Running, 2 := Running], false, false, Elsewhere, Idle, Jobs(t2, 3), {})
  {
    hide Added, Handled, FgPidOf, MaxJidOf;
    var t1 := t[0 := Job(1, 1, BG, "")];
    var t2 := t1[1 := Job(2, 2, BG, "")];
    MissingTables(t);
    var s0 := State(map[], false, false, Elsewhere, Idle, Jobs(t, 1), {});
    var s1 := s0.(main := BeforeFork(false), blocked := true);
    var s2 := s1.(main := BeforeAdd(false, 1), children := map[1 := Running]);
    var s3 := s2.(main := AfterAdd(false), jobs := Jobs(t1, 2));
    var s4 := s3.(main := Elsewhere, blocked := false);
    var s5 := s4.(main := BeforeFork(false), blocked := true);
    var s6 := s5.(main := BeforeAdd(false, 2), children := map[1 := Running, 2 := Running]);
    var s7 := s6.(main := AfterAdd(false), jobs := Jobs(t2, 3));
    var s8 := s7.(main := Elsewhere, blocked := false);
    states := [s0, s1, s2, s3, s4, s5, s6, s7, s8];
  }

  /** The first job exits and is deleted. */
  lemma FirstExits(t: seq<Job>) returns (states: seq<State>)
    requires t == seq(MAXJOBS, _ => CLEAR_JOB)
    ensures Steps(states, [Exits(1), Deliver, WaitReports(1), Update, WaitNothing, HandlerReturns])
    ensures var t2 := t[0 := Job(1, 1, BG, "")][1 := Job(2, 2, BG, "")];
            var t3 := t2[0 := CLEAR_JOB];
            && states[0] == State(map[1 := Running, 2 := Running], false, false, Elsewhere, Idle, Jobs(t2, 3), {})
            && states[6] == State(map[2 := Running], false, false, Elsewhere, Idle, Jobs(t3, MaxJidOf(t3) + 1), {})
  {
    hide Added, Handled, FgPidOf, MaxJidOf;
    var t2 := t[0 := Job(1, 1, BG, "")][1 := Job(2, 2, BG, "")];
    var t3 := t2[0 := CLEAR_JOB];
    MissingTables(t);
    var s8 := State(map[1 := Running, 2 := Running], false, false, Elsewhere, Idle, Jobs(t2, 3), {});
    var s9 := s8.(children := map[1 := Zombie, 2 := Running], pending := true);
    var s10 := s9.(pending := false, handler := Calling);
    var s11 := s10.(children := map[2 := Running], handler := Updating(1, Exited));
    var s12 := s11.(jobs := Jobs(t3, MaxJidOf(t3) + 1), handler := Calling);
    var s13 := s12.(handler := Finished);
    var s14 := s13.(handler := Idle);
    states := [s8, s9, s10, s11, s12, s13, s14];
  }

  /** Without that, waitfg can return although a job is in the foreground: fg is asked for the job in the
      first slot, which exits and is deleted just before the write; the write marks the cleared slot, and when
      fg is then asked for the job in the second slot, fgpid looks no further than the first. */
  lemma WaitMissesForeground() returns (states: seq<State>, actions: seq<Action>)
    ensures Run(states, actions) && actions != [] && actions[|actions| - 1] == EndWait
    ensures Job(2, 2, FG, "") in states[|actions|].jobs.table
  {
    hide Added, Handled, FgPidOf, MaxJidOf;
    var t: seq<Job> := seq(MAXJOBS, _ => CLEAR_JOB);
    var S := TwoJobs(t);
    var S' := FirstExits(t);
    var A := [Block, Fork(1), AddJob(BG, ""), Unblock, Block, Fork(2), AddJob(BG, ""), Unblock];
    var A' := [Exits(1), Deliver, WaitReports(1), Update, WaitNothing, HandlerReturns];
    JoinSteps(S, A, S', A');
    var S'' := TwoWaits(t, S'[6]);
    var A'' := [SetState(0, FG), StartWait, EndWait, SetState(1, FG), StartWait, EndWait];
    hide Next;
    JoinSteps(S + S'[1..], A + A', S'', A'');
    states, actions := S + S'[1..] + S''[1..], A + A' + A'';
    assert states[|actions|] == S''[6];
  }

  lemma TwoWaits(t: seq<Job>, s: State) returns (states: seq<State>)
    requires t == seq(MAXJOBS, _ => CLEAR_JOB)
    requires var t3 := t[0 := Job(1, 1, BG, "")][1 := Job(2, 2, BG, "")][0 := CLEAR_JOB];
             s == State(map[2 := Running], false, false, Elsewhere, Idle, Jobs(t3, MaxJidOf(t3) + 1), {})
    ensures Steps(states, [SetState(0, FG), StartWait, EndWait, SetState(1, FG), StartWait, EndWait])
    ensures states[0] == s && Job(2, 2, FG, "") in states[6].jobs.table
  {
    hide Added, Handled, FgPidOf, MaxJidOf;
    MissingTables(t);
    var t4 := s.jobs.table[0 := Job(0, 0, FG, "")];
    var t5 := t4[1 := Job(2, 2, FG, "")];
    var s1 := s.(jobs := Jobs(t4, s.jobs.nextjid));
    var s2 := s1.(main := WaitCheck(false), blocked := true);
    var s3 := s1.(jobs := Jobs(t5, s.jobs.nextjid));
    var s4 := s3.(main := WaitCheck(false), blocked := true);
    states := [s, s1, s2, s1, s3, s4, s3];
    assert t5[1] == Job(2, 2, FG, "");
  }

  // ---------- A failed fork ----------

  /** Is SIGCHLD blocked outside the critical sections of the main flow? */
  ghost predicate BaseBlocked(s: State) {
    if s.main.Elsewhere? then s.blocked else s.main.saved
  }

  lemma BaseStep(s: State, a: Action, s': State)
    requires Inv(s) && Next(s, a, s')
    ensures BaseBlocked(s') <==> BaseBlocked(s) || a.ForkFails?
  {
  }

  /** eval returns from a failed fork with SIGCHLD still blocked, and nothing ever unblocks it: outside
      the critical sections SIGCHLD is blocked exactly when some fork has failed before. */
  lemma {:induction false} BlockedOnceForkFailed(states: seq<State>, actions: seq<Action>, n: nat)
    requires Run(states, actions) && n < |states|
    ensures BaseBlocked(states[n]) <==> exists i :: 0 <= i < n && actions[i].ForkFails?
  {
    if n > 0 {
      BlockedOnceForkFailed(states, actions, n - 1);
      RunInv(states, actions, n - 1);
      assert Next(states[n - 1], actions[n - 1], states[n]);
      BaseStep(states[n - 1], actions[n - 1], states[n]);
      if actions[n - 1].ForkFails? {
        assert 0 <= n - 1 < n;
      }
    }
  }

  /** SIGCHLD is blocked for good, and no handler runs. */
  ghost predicate Deaf(s: State) {
    s.blocked && BaseBlocked(s) && s.handler.Idle?
  }

  /** Every child and every job of s is still there in s'. */
  ghost predicate NoneLeft(s: State, s': State) {
    s.children.Keys <= s'.children.Keys && Pids(s.jobs.table) <= Pids(s'.jobs.table)
  }

  lemma DeafStep(s: State, a: Action, s': State)
    requires Inv(s) && Next(s, a, s') && (Deaf(s) || a.ForkFails?)
    ensures Deaf(s') && (Deaf(s) ==> NoneLeft(s, s'))
  {
    match a
    case AddJob(state, cmdline) => AddedPids(s.jobs, s.main.pid, state, cmdline);
    case SetState(slot, newState) => RestatedPids(s.jobs, slot, newState);
    case _ =>
  }

  /** From a failed fork on no handler ever runs, no child is reaped and no job is deleted. */
  lemma {:induction false} NothingReapedAfterForkFails(states: seq<State>, actions: seq<Action>, i: nat, n: nat)
    requires Run(states, actions) && i < n < |states| && actions[i].ForkFails?
    ensures Deaf(states[n]) && NoneLeft(states[i + 1], states[n])
  {
    hide Next, Inv, Init, Pids;
    RunInv(states, actions, n - 1);
    assert Next(states[n - 1], actions[n - 1], states[n]);
    if i < n - 1 {
      NothingReapedAfterForkFails(states, actions, i, n - 1);
    }
    DeafStep(states[n - 1], actions[n - 1], states[n]);
  }

  /** A run in which that happens: a second fork fails, and the first child exits and is left waitable. */
  lemma ForkFailureRun() returns (states: seq<State>, actions: seq<Action>)
    ensures actions == [Block, Fork(1), AddJob(BG, ""), Unblock, Block, ForkFails, Exits(1)]
    ensures Run(states, actions) && Deaf(states[7])
    ensures Waitable(states[7], 1) && 1 in Pids(states[7].jobs.table)
  {
    hide Added, Once;
    actions := [Block, Fork(1), AddJob(BG, ""), Unblock, Block, ForkFails, Exits(1)];
    var none := Jobs(seq(MAXJOBS, _ => CLEAR_JOB), 1);
    var js := Added(none, 1, BG, "");
    var s0 := State(map[], false, false, Elsewhere, Idle, none, {});
    var s1 := s0.(main := BeforeFork(false), blocked := true);
    var s2 := s1.(main := BeforeAdd(false, 1), children := map[1 := Running]);
    var s3 := s2.(main := AfterAdd(false), jobs := js);
    var s4 := s3.(main := Elsewhere, blocked := false);
    var s5 := s4.(main := BeforeFork(false), blocked := true);
    var s6 := s5.(main := Elsewhere);
    var s7 := s6.(children := map[1 := Zombie], pending := true);
    states := [s0, s1, s2, s3, s4, s5, s6, s7];
    assert Pids(none.table) == {};
    assert none.table[0] in none.table;
    AddedPids(none, 1, BG, "");
  }

  /** While no fork has failed, a signal that is pending outside the critical sections can be delivered. */
  lemma PendingIsDeliverable(states: seq<State>, actions: seq<Action>, n: nat)
    requires Run(states, actions) && n < |states|
    requires forall i :: 0 <= i < n ==> !actions[i].ForkFails?
    requires states[n].pending && states[n].handler.Idle?
    requires states[n].main.Elsewhere? || states[n].main.WaitSuspended?
    ensures Next(states[n], Deliver, states[n].(pending := false, handler := Calling))
  {
    BlockedOnceForkFailed(states, actions, n);
    SuspendedMask(states, actions, n);
  }

  lemma {:induction false} SuspendedMask(states: seq<State>, actions: seq<Action>, n: nat)
    requires Run(states, actions) && n < |states|
    ensures states[n].main.WaitSuspended? ==> states[n].blocked == states[n].main.saved
  {
    if n > 0 {
      SuspendedMask(states, actions, n - 1);
      assert Next(states[n - 1], actions[n - 1], states[n]);
    }
  }
}
