/** The job table of tsh.c. */
module Jobs {

  const MAXJOBS := 16

  datatype JobState = UNDEF | FG | BG | ST

  datatype Job = Job(pid: nat, jid: nat, state: JobState, cmdline: string)

  const CLEAR_JOB := Job(0, 0, UNDEF, "")

  type Table = seq<Job>

  // ---------- The table as a value ----------

  /** The first slot with this pid; the length of the table when there is none. */
  ghost function Slot(t: Table, pid: int): (i: nat)
    ensures i <= |t|
    ensures i < |t| ==> t[i].pid == pid
    ensures forall j :: 0 <= j < i ==> t[j].pid != pid
  {
    if t == [] then 0 else if t[0].pid == pid then 0 else 1 + Slot(t[1..], pid)
  }

  ghost function MaxJidOf(t: Table): (m: nat)
    ensures forall j :: j in t ==> j.jid <= m
    ensures m == 0 || exists j :: j in t && j.jid == m
  {
    if t == [] then 0 else
    var m := MaxJidOf(t[..|t| - 1]);
    if t[|t| - 1].jid > m then t[|t| - 1].jid else m
  }

  /** The pids in use. */
  ghost function Pids(t: Table): set<int> {
    set j | j in t && j.pid != 0 :: j.pid as int
  }

  /** No pid is in two slots. */
  ghost predicate Once(t: Table) {
    forall i, j :: 0 <= i < j < |t| && t[i].pid == t[j].pid ==> t[i].pid == 0
  }

  datatype Jobs = Jobs(table: Table, nextjid: nat)

  /** addjob, when a slot is free; otherwise nothing changes. */
  ghost function Added(js: Jobs, pid: int, state: JobState, cmdline: string): Jobs {
    var i := Slot(js.table, 0);
    if pid >= 1 && i < |js.table| then
      Jobs(js.table[i := Job(pid, js.nextjid, state, cmdline)], if js.nextjid + 1 > MAXJOBS then 1 else js.nextjid + 1)
    else js
  }

  /** deletejob. */
  ghost function Deleted(js: Jobs, pid: int): Jobs {
    var i := Slot(js.table, pid);
    if pid >= 1 && i < |js.table| then
      var t := js.table[i := CLEAR_JOB];
      Jobs(t, MaxJidOf(t) + 1)
    else js
  }

  /** What waitpid reports about a child. */
  datatype Report = Exited | Stopped

  /** What sigchld_handler does to the table about one report. */
  ghost function Handled(js: Jobs, pid: int, report: Report): Jobs {
    match report
    case Exited => Deleted(js, pid)
    case Stopped => if pid in Pids(js.table) then Restated(js, Slot(js.table, pid), ST) else js
  }

  ghost function HandledAll(js: Jobs, reports: seq<(int, Report)>): Jobs
    decreases |reports|
  {
    if reports == [] then js else HandledAll(Handled(js, reports[0].0, reports[0].1), reports[1..])
  }

  /** The state of one slot overwritten. */
  ghost function Restated(js: Jobs, i: nat, state: JobState): Jobs {
    if i < |js.table| then js.(table := js.table[i := js.table[i].(state := state)]) else js
  }

  /** addjob takes a free slot, whatever is in the others, or the table is full of other jobs. */
  lemma AddedPids(js: Jobs, pid: nat, state: JobState, cmdline: string)
    requires Once(js.table) && pid >= 1 && pid !in Pids(js.table)
    ensures var js' := Added(js, pid, state, cmdline);
            && Once(js'.table) && |js'.table| == |js.table|
            && (js' == js || Pids(js'.table) == Pids(js.table) + {pid})
            && (js' == js <==> forall j :: j in js.table ==> j.pid != 0)
  {
    var i, t := Slot(js.table, 0), js.table;
    if i < |t| {
      var t' := Added(js, pid, state, cmdline).table;
      assert t[i] in t && t'[i].pid == pid;
      forall p
        ensures p in Pids(t') <==> p in Pids(t) || p == pid
      {
        if p in Pids(t) {
          var k :| 0 <= k < |t| && t[k].pid == p;
          assert t'[k] == t[k];
        }
        if p in Pids(t') {
          var k :| 0 <= k < |t'| && t'[k].pid == p;
          assert k != i ==> t'[k] == t[k];
        }
        assert t'[i] in t';
      }
      forall k | 0 <= k < |t| && k != i
        ensures t[k].pid != pid
      {
        assert t[k] in t;
      }
    }
  }

  lemma ClearedPids(t: Table, i: nat)
    requires Once(t) && i < |t|
    ensures Once(t[i := CLEAR_JOB]) && Pids(t[i := CLEAR_JOB]) == Pids(t) - {t[i].pid as int}
  {
    var t' := t[i := CLEAR_JOB];
    forall p
      ensures p in Pids(t') <==> p in Pids(t) && p != t[i].pid
    {
      if p in Pids(t) && p != t[i].pid {
        var k :| 0 <= k < |t| && t[k].pid == p;
        assert t'[k] in t';
      }
      if p in Pids(t') {
        var k :| 0 <= k < |t'| && t'[k].pid == p;
        assert t'[k] == t[k] && t[k] in t;
      }
    }
  }

  lemma NotInSlots(t: Table, pid: int)
    requires Slot(t, pid) == |t|
    ensures pid !in Pids(t)
  {
  }

  /** deletejob removes exactly its pid. */
  lemma DeletedPids(js: Jobs, pid: int)
    requires Once(js.table)
    ensures Once(Deleted(js, pid).table) && |Deleted(js, pid).table| == |js.table|
    ensures Pids(Deleted(js, pid).table) == Pids(js.table) - {pid}
  {
    var i := Slot(js.table, pid);
    if pid >= 1 && i < |js.table| {
      ClearedPids(js.table, i);
    } else if pid >= 1 {
      NotInSlots(js.table, pid);
    }
  }

  lemma RestatedPids(js: Jobs, i: nat, state: JobState)
    requires Once(js.table)
    ensures Once(Restated(js, i, state).table) && |Restated(js, i, state).table| == |js.table|
    ensures Pids(Restated(js, i, state).table) == Pids(js.table)
  {
    var t, t' := js.table, Restated(js, i, state).table;
    assert forall k :: 0 <= k < |t| ==> t'[k].pid == t[k].pid;
    forall p
      ensures p in Pids(t') <==> p in Pids(t)
    {
      if p in Pids(t) {
        var k :| 0 <= k < |t| && t[k].pid == p;
        assert t'[k] in t';
      }
      if p in Pids(t') {
        var k :| 0 <= k < |t'| && t'[k].pid == p;
        assert t[k] in t;
      }
    }
  }

  /** The children that a sequence of reports says have exited. */
  ghost function ExitedPids(reports: seq<(int, Report)>): set<int> {
    set r | r in reports && r.1 == Exited :: r.0
  }

  /** A run of the handler removes exactly the children that have exited. */
  lemma {:induction false} HandledAllPids(js: Jobs, reports: seq<(int, Report)>)
    requires Once(js.table)
    ensures Once(HandledAll(js, reports).table) && |HandledAll(js, reports).table| == |js.table|
    ensures Pids(HandledAll(js, reports).table) == Pids(js.table) - ExitedPids(reports)
    decreases |reports|
  {
    if reports != [] {
      var pid, report := reports[0].0, reports[0].1;
      HandledPids(js, pid, report);
      HandledAllPids(Handled(js, pid, report), reports[1..]);
      ExitedPidsNext(reports);
    }
  }

  lemma HandledPids(js: Jobs, pid: int, report: Report)
    requires Once(js.table)
    ensures var t' := Handled(js, pid, report).table;
            && Once(t') && |t'| == |js.table|
            && Pids(t') == Pids(js.table) - if report == Exited then {pid} else {}
  {
    DeletedPids(js, pid);
    RestatedPids(js, Slot(js.table, pid), ST);
  }

  lemma ExitedPidsNext(reports: seq<(int, Report)>)
    requires reports != []
    ensures ExitedPids(reports) == ExitedPids(reports[1..]) + if reports[0].1 == Exited then {reports[0].0} else {}
  {
    assert reports == [reports[0]] + reports[1..];
  }

  /** One report empties the slot of its pid, or marks its job as stopped, and leaves all other slots alone. */
  lemma HandledSlots(js: Jobs, pid: int, report: Report)
    requires Once(js.table)
    ensures var t, t' := js.table, Handled(js, pid, report).table;
            && |t'| == |t|
            && forall i :: 0 <= i < |t| ==>
                             t'[i] == if t[i].pid == 0 || t[i].pid != pid then t[i]
                                      else if report == Exited then Job(0, 0, UNDEF, "")
                                      else Job(t[i].pid, t[i].jid, ST, t[i].cmdline)
  {
    var i := Slot(js.table, pid);
    if i == |js.table| {
      NotInSlots(js.table, pid);
    } else {
      assert js.table[i] in js.table;
    }
  }

  /** A run of the handler: exited jobs are gone, stopped ones are marked, and the rest is as it was. */
  lemma {:induction false} HandledAllSlots(js: Jobs, reports: seq<(int, Report)>)
    requires Once(js.table)
    ensures var t, t' := js.table, HandledAll(js, reports).table;
            && |t'| == |t|
            && forall i :: 0 <= i < |t| ==>
                             t'[i] == if t[i].pid == 0 then t[i]
                                      else if (t[i].pid as int, Exited) in reports then Job(0, 0, UNDEF, "")
                                      else if (t[i].pid as int, Stopped) in reports then
                                        Job(t[i].pid, t[i].jid, ST, t[i].cmdline)
                                      else t[i]
    decreases |reports|
  {
    if reports != [] {
      hide Handled, Once;
      var pid, report := reports[0].0, reports[0].1;
      HandledSlots(js, pid, report);
      HandledPids(js, pid, report);
      HandledAllSlots(Handled(js, pid, report), reports[1..]);
      assert reports == [(pid, report)] + reports[1..];
    }
  }

  /** The next job number is one more than the largest of the table, or 1. */
  ghost predicate FollowsMax(js: Jobs) {
    && (forall i :: 0 <= i < |js.table| ==> js.table[i].jid < js.nextjid)
    && (js.nextjid == 1 || exists i :: 0 <= i < |js.table| && js.table[i].jid == js.nextjid - 1)
  }

  lemma MaxFollowed(t: Table)
    ensures FollowsMax(Jobs(t, MaxJidOf(t) + 1))
  {
    forall i | 0 <= i < |t|
      ensures t[i].jid <= MaxJidOf(t)
    {
      assert t[i] in t;
    }
    if MaxJidOf(t) != 0 {
      var j :| j in t && j.jid == MaxJidOf(t);
      var i :| 0 <= i < |t| && t[i] == j;
    }
  }

  /** Deleting a job renews the next job number; marking one as stopped leaves it alone. */
  lemma HandledNextJid(js: Jobs, pid: int, report: Report)
    requires Once(js.table)
    ensures var js' := Handled(js, pid, report);
            && (FollowsMax(js) ==> FollowsMax(js'))
            && if report == Exited && pid in Pids(js.table) then FollowsMax(js') else js'.nextjid == js.nextjid
  {
    var i := Slot(js.table, pid);
    if i == |js.table| {
      NotInSlots(js.table, pid);
    } else {
      assert js.table[i] in js.table;
    }
    match report
    case Exited =>
      if pid in Pids(js.table) {
        MaxFollowed(js.table[i := CLEAR_JOB]);
      }
    case Stopped =>
      var js' := Handled(js, pid, report);
      assert forall k :: 0 <= k < |js.table| ==> js'.table[k].jid == js.table[k].jid;
  }

  lemma {:induction false} HandledAllNextJid(js: Jobs, reports: seq<(int, Report)>)
    requires Once(js.table)
    ensures var js' := HandledAll(js, reports);
            && (FollowsMax(js) ==> FollowsMax(js'))
            && if Pids(js.table) !! ExitedPids(reports) then js'.nextjid == js.nextjid else FollowsMax(js')
    decreases |reports|
  {
    if reports != [] {
      hide FollowsMax, Once, Pids, Handled, ExitedPids, Slot;
      var pid, report := reports[0].0, reports[0].1;
      var js1 := Handled(js, pid, report);
      HandledNextJid(js, pid, report);
      HandledPids(js, pid, report);
      HandledAllNextJid(js1, reports[1..]);
      ExitedPidsNext(reports);
    }
  }

  // ---------- The table in memory ----------

  class JobTable {
    const jobs: array<Job>
    var nextjid: nat

    ghost predicate Valid()
      reads this, jobs
    {
      jobs.Length == MAXJOBS
    }

    ghost function State(): Jobs
      reads this, jobs
    {
      Jobs(jobs[..], nextjid)
    }

    /** initjobs. */
    constructor ()
      ensures Valid() && fresh(jobs) && State() == Jobs(seq(MAXJOBS, _ => CLEAR_JOB), 1)
    {
      jobs := new Job[MAXJOBS](_ => CLEAR_JOB);
      nextjid := 1;
      new;
      assert jobs[..] == seq(MAXJOBS, _ => CLEAR_JOB);
    }

    /** maxjid. */
    method MaxJid() returns (max: nat)
      requires Valid()
      ensures max == MaxJidOf(jobs[..])
      ensures forall i :: 0 <= i < MAXJOBS ==> jobs[i].jid <= max
      ensures max == 0 || exists i :: 0 <= i < MAXJOBS && jobs[i].jid == max
    {
      max := 0;
      for i := 0 to MAXJOBS
        invariant max == MaxJidOf(jobs[..i])
      {
        assert jobs[..i + 1][..i] == jobs[..i];
        if jobs[i].jid > max {
          max := jobs[i].jid;
        }
      }
      assert jobs[..MAXJOBS] == jobs[..];
      MaxFollowed(jobs[..]);
    }

    /** addjob. */
    method AddJob(pid: int, state: JobState, cmdline: string) returns (ok: bool)
      requires Valid()
      modifies this`nextjid, jobs
      ensures Valid() && State() == Added(old(State()), pid, state, cmdline)
      ensures ok <==> pid >= 1 && exists j :: j in old(jobs[..]) && j.pid == 0
      ensures !ok ==> jobs[..] == old(jobs[..]) && nextjid == old(nextjid)
      ensures ok ==> nextjid == if old(nextjid) >= MAXJOBS then 1 else old(nextjid) + 1
      ensures ok ==>
                && pid >= 1
                && exists i :: 0 <= i < MAXJOBS && old(jobs[i].pid) == 0
                               && (forall k :: 0 <= k < i ==> old(jobs[k].pid) != 0)
                               && jobs[i] == Job(pid, old(nextjid), state, cmdline)
                               && forall k :: 0 <= k < MAXJOBS && k != i ==> jobs[k] == old(jobs[k])
    {
      if pid < 1 {
        return false;
      }
      ghost var t := jobs[..];
      for i := 0 to MAXJOBS
        invariant unchanged(this) && unchanged(jobs)
        invariant forall k :: 0 <= k < i ==> jobs[k].pid != 0
      {
        if jobs[i].pid == 0 {
          SlotIs(t, 0, i);
          jobs[i] := Job(pid, nextjid, state, cmdline);
          nextjid := nextjid + 1;
          if nextjid > MAXJOBS {
            nextjid := 1;
          }
          assert t[i] in t;
          return true;
        }
      }
      return false;
    }

    /** deletejob. */
    method DeleteJob(pid: int) returns (ok: bool)
      requires Valid()
      modifies this`nextjid, jobs
      ensures Valid() && State() == Deleted(old(State()), pid)
      ensures ok <==> pid in Pids(old(jobs[..]))
      ensures !ok ==> jobs[..] == old(jobs[..]) && nextjid == old(nextjid)
      ensures ok ==>
                exists i :: 0 <= i < MAXJOBS && old(jobs[i].pid) == pid
                            && (forall k :: 0 <= k < i ==> old(jobs[k].pid) != pid)
                            && jobs[i] == Job(0, 0, UNDEF, "")
                            && forall k :: 0 <= k < MAXJOBS && k != i ==> jobs[k] == old(jobs[k])
      ensures ok ==>
                && (forall k :: 0 <= k < MAXJOBS ==> jobs[k].jid < nextjid)
                && (nextjid == 1 || exists k :: 0 <= k < MAXJOBS && jobs[k].jid == nextjid - 1)
    {
      hide MaxJidOf, Slot;
      if pid < 1 {
        return false;
      }
      ghost var t := jobs[..];
      for i := 0 to MAXJOBS
        invariant unchanged(this) && unchanged(jobs)
        invariant forall k :: 0 <= k < i ==> jobs[k].pid != pid
      {
        if jobs[i].pid == pid {
          SlotIs(t, pid, i);
          jobs[i] := CLEAR_JOB;
          assert jobs[..] == t[i := CLEAR_JOB];
          var max := MaxJid();
          nextjid := max + 1;
          assert t[i] in t;
          return true;
        }
      }
      return false;
    }

    /** getjobpid: the slot of a pid, or -1 for NULL. */
    method GetJobPid(pid: int) returns (slot: int)
      requires Valid()
      ensures slot == if pid in Pids(jobs[..]) then Slot(jobs[..], pid) else -1
      ensures slot == -1 <==> pid < 1 || forall k :: 0 <= k < MAXJOBS ==> jobs[k].pid != pid
      ensures slot != -1 ==>
                0 <= slot < MAXJOBS && jobs[slot].pid == pid && forall k :: 0 <= k < slot ==> jobs[k].pid != pid
    {
      if pid < 1 {
        return -1;
      }
      for i := 0 to MAXJOBS
        invariant forall k :: 0 <= k < i ==> jobs[k].pid != pid
      {
        if jobs[i].pid == pid {
          SlotIs(jobs[..], pid, i);
          assert jobs[..][i] in jobs[..];
          return i;
        }
      }
      return -1;
    }

    /** The body of sigchld_handler's loop, on what waitpid has returned. */
    method HandleReport(pid: int, report: Report)
      requires Valid()
      modifies this`nextjid, jobs
      ensures Valid() && State() == Handled(old(State()), pid, report)
    {
      match report {
        case Exited =>
          var ok := DeleteJob(pid);
        case Stopped =>
          var slot := GetJobPid(pid);
          if slot != -1 {
            assert jobs[slot].pid == pid;
            jobs[slot] := jobs[slot].(state := ST);
          }
      }
    }

    /** sigchld_handler: it handles every report that waitpid has for it, in order. */
    method SigchldHandler(reports: seq<(int, Report)>)
      requires Valid()
      modifies this`nextjid, jobs
      ensures Valid() && State() == HandledAll(old(State()), reports)
      ensures Once(old(jobs[..])) ==> Once(jobs[..]) && Pids(jobs[..]) == Pids(old(jobs[..])) - ExitedPids(reports)
      ensures Once(old(jobs[..])) ==>
                forall i :: 0 <= i < MAXJOBS ==>
                              var j := old(jobs[i]);
                              jobs[i] == if j.pid == 0 then j
                                         else if (j.pid as int, Exited) in reports then Job(0, 0, UNDEF, "")
                                         else if (j.pid as int, Stopped) in reports then
                                           Job(j.pid, j.jid, ST, j.cmdline)
                                         else j
      ensures Once(old(jobs[..])) ==>
                if Pids(old(jobs[..])) !! ExitedPids(reports) then nextjid == old(nextjid)
                else && (forall k :: 0 <= k < MAXJOBS ==> jobs[k].jid < nextjid)
                     && (nextjid == 1 || exists k :: 0 <= k < MAXJOBS && jobs[k].jid == nextjid - 1)
    {
      hide Handled, Once, Pids, ExitedPids;
      if Once(jobs[..]) {
        HandledAllPids(State(), reports);
        HandledAllSlots(State(), reports);
        HandledAllNextJid(State(), reports);
      }
      var k := 0;
      while k < |reports|
        invariant 0 <= k <= |reports| && Valid()
        invariant HandledAll(State(), reports[k..]) == HandledAll(old(State()), reports)
      {
        assert reports[k..][0] == reports[k] && reports[k..][1..] == reports[k + 1..];
        HandleReport(reports[k].0, reports[k].1);
        k := k + 1;
      }
    }

    /** fgpid: the pid of the first job in the foreground, or 0. */
    method FgPid() returns (pid: nat)
      requires Valid()
      ensures pid == FgPidOf(jobs[..])
      ensures pid != 0 ==>
                exists i :: 0 <= i < MAXJOBS && jobs[i].state == FG && jobs[i].pid == pid
                            && forall k :: 0 <= k < i ==> jobs[k].state != FG
      ensures (forall i :: 0 <= i < MAXJOBS && jobs[i].state == FG ==> jobs[i].pid != 0) ==>
                (pid == 0 <==> forall i :: 0 <= i < MAXJOBS ==> jobs[i].state != FG)
    {
      for i := 0 to MAXJOBS
        invariant forall k :: 0 <= k < i ==> jobs[k].state != FG
      {
        if jobs[i].state == FG {
          FgIs(jobs[..], i);
          return jobs[i].pid;
        }
      }
      FgIs(jobs[..], MAXJOBS);
      return 0;
    }
  }

  ghost function FgPidOf(t: Table): nat {
    if t == [] then 0 else if t[0].state == FG then t[0].pid else FgPidOf(t[1..])
  }

  lemma {:induction false} FgIs(t: Table, i: nat)
    requires i <= |t| && (forall k :: 0 <= k < i ==> t[k].state != FG) && (i < |t| ==> t[i].state == FG)
    ensures FgPidOf(t) == if i < |t| then t[i].pid else 0
  {
    if i > 0 {
      FgIs(t[1..], i - 1);
    }
  }

  /** fgpid finds no job exactly when no slot is marked as in the foreground, or the first such slot is empty. */
  lemma {:induction false} FgPidMeans(t: Table)
    ensures FgPidOf(t) == 0 <==>
              || (forall k :: 0 <= k < |t| ==> t[k].state != FG)
              || exists i :: 0 <= i < |t| && t[i].state == FG && t[i].pid == 0
                             && forall k :: 0 <= k < i ==> t[k].state != FG
    ensures FgPidOf(t) != 0 ==>
              exists i :: 0 <= i < |t| && t[i].state == FG && t[i].pid == FgPidOf(t)
                          && forall k :: 0 <= k < i ==> t[k].state != FG
  {
    var i := FirstFg(t);
    FgIs(t, i);
  }

  ghost function FirstFg(t: Table): (i: nat)
    ensures i <= |t| && (i < |t| ==> t[i].state == FG)
    ensures forall k :: 0 <= k < i ==> t[k].state != FG
  {
    if t == [] || t[0].state == FG then 0 else 1 + FirstFg(t[1..])
  }

  lemma SlotIs(t: Table, pid: int, i: nat)
    requires i < |t| && t[i].pid == pid && forall k :: 0 <= k < i ==> t[k].pid != pid
    ensures Slot(t, pid) == i
  {
  }
}
