/** Delivery within one pass, bounded waiting, and Ctrl-C. */
module KernelTheorems {
  import opened Base
  import opened KernelModel
  import opened KernelProofs

  // ----- delivery

  /** Slot `s` waits to receive the message in the mailbox. */
  ghost predicate Awaits(k: Kernel, s: nat, msg: Message) {
    && WellFormed(k) && s < MAX_NPROCESS && k.mailbox == Some(msg)
    && k.procs[s].pid == msg.receiver && k.procs[s].status == Requesting && k.procs[s].sc.ty == Recv
  }

  /** The receiver with the message in its record, able to run. */
  function Delivered(p: Process, msg: Message): (p': Process) {
    p.(status := Runnable, sc := Syscall(NoCall, msg.sender, p.sc.receiver, msg.content, 0))
  }

  /** Nobody but its receiver can take or replace the message. */
  lemma {:induction false} OthersLeaveMessage(k: Kernel, i: nat, tty: int, s: nat, msg: Message, r: nat)
    requires TableOk(k) && NoRunnerBut(k, r) && LogOk(k) && Awaits(k, s, msg)
    requires i < MAX_NPROCESS && i != s && k.procs[i].status == Requesting
    ensures var k1 := SyscallHandle(k.(curr := i), tty);
      Awaits(k1, s, msg) && k1.procs[s] == k.procs[s] && k1.received == k.received
  {
    SyscallIsAttempt(k.(curr := i), tty);
    var o := Attempt(k.procs[i], k.mailbox, tty);
    assert k.procs[i].pid != msg.receiver;
    assert o.mailbox == k.mailbox && o.got == [];
  }

  /** The receiver takes it. */
  lemma {:induction false} ReceiverTakes(k: Kernel, tty: int, s: nat, msg: Message)
    requires TableOk(k) && Awaits(k, s, msg)
    ensures var k1 := SyscallHandle(k.(curr := s), tty);
      k1.procs[s] == Delivered(k.procs[s], msg) && k1.received == k.received + [msg]
  {
  }

  lemma {:induction false} PassDelivers(k: Kernel, i: nat, tty: seq<int>, s: nat, msg: Message, r: nat)
    requires TableOk(k) && NoRunnerBut(k, r) && LogOk(k) && Awaits(k, s, msg) && i <= s && |tty| == MAX_NPROCESS
    ensures Pass(k, i, tty).procs[s] == Delivered(k.procs[s], msg)
    ensures k.received + [msg] <= Pass(k, i, tty).received
    decreases s - i
  {
    if k.procs[i].status == Requesting {
      var k1 := SyscallHandle(k.(curr := i), tty[i]);
      SyscallKeeps(k.(curr := i), tty[i], r);
      if i == s {
        ReceiverTakes(k, tty[s], s, msg);
        PassKeeps(k1, i + 1, tty, r);
        PassBehind(k1, i + 1, tty, r, s);
      } else {
        OthersLeaveMessage(k, i, tty[i], s, msg, r);
        PassDelivers(k1, i + 1, tty, s, msg, r);
      }
    } else {
      PassDelivers(k, i + 1, tty, s, msg, r);
    }
  }

  /** An interrupt without Ctrl-C delivers the message in the mailbox if its receiver is
      waiting for it, and comes back to the current process. */
  lemma {:induction false} InterruptDelivers(k: Kernel, e: Ext, s: nat, msg: Message)
    requires Inv(k) && Awaits(k, s, msg) && ExtOk(e) && !e.ctrlC
    ensures ExternalHandle(k, e).procs[s] == Delivered(k.procs[s], msg)
    ensures k.received + [msg] <= ExternalHandle(k, e).received
    ensures ExternalHandle(k, e).curr == k.curr
  {
    PassDelivers(k, 0, e.tty, s, msg, k.curr);
  }

  // ----- bounded waiting

  /** The search stops no further away than any process that can run. */
  lemma {:induction false} NextIsNearest(k: Kernel, i: nat, p: nat)
    requires WellFormed(k) && p < MAX_NPROCESS && Candidate(k.procs[p].status) && 1 <= i <= Distance(k.curr, p)
    ensures NextFrom(k, i).Some? && i <= Distance(k.curr, NextFrom(k, i).value) <= Distance(k.curr, p)
    decreases MAX_NPROCESS + 1 - i
  {
    if !Candidate(k.procs[(k.curr + i) % MAX_NPROCESS].status) {
      NextIsNearest(k, i + 1, p);
    }
  }

  /** The state in which a yield finds a process to run. */
  ghost function DispatchPoint(k: Kernel, exts: seq<Ext>): (d: Option<Kernel>)
    requires WellFormed(k) && forall e :: e in exts ==> ExtOk(e)
    ensures d.Some? ==> WellFormed(d.value) && NextFrom(d.value, 1).Some? && d.value.curr == k.curr
    ensures d.Some? ==> YieldLoop(k, exts) == Dispatch(d.value, NextFrom(d.value, 1).value)
    ensures d.None? ==> YieldLoop(k, exts).curr == k.curr
    decreases |exts|
  {
    if NextFrom(k, 1).Some? then Some(k)
    else if exts == [] then None
    else
      assert exts[0] in exts;
      DispatchPoint(ExternalHandle(k, exts[0]), exts[1..])
  }

  /** All the states of a run in which a process is chosen to run next. */
  ghost function DispatchPoints(k: Kernel, evs: seq<Event>): (ds: seq<Kernel>)
    requires WellFormed(k) && RunOk(k, evs)
    decreases |evs|
  {
    if evs == [] then []
    else
      var rest := DispatchPoints(Step(k, evs[0]), evs[1..]);
      if Yields(evs[0]) then
        match DispatchPoint(BeforeYield(k, evs[0]), evs[0].exts)
        case Some(d) => [d] + rest
        case None => rest
      else rest
  }

  ghost function Chosen(d: Kernel): (next: nat)
    requires WellFormed(d) && NextFrom(d, 1).Some?
    ensures next < MAX_NPROCESS
  {
    NextFrom(d, 1).value
  }

  /** Each dispatch starts from the process the one before it chose. */
  ghost predicate Linked(ds: seq<Kernel>, from: nat) {
    && (forall j :: 0 <= j < |ds| ==> WellFormed(ds[j]) && NextFrom(ds[j], 1).Some?)
    && (ds != [] ==> ds[0].curr == from)
    && (forall j :: 0 <= j < |ds| - 1 ==> ds[j + 1].curr == Chosen(ds[j]))
  }

  ghost predicate Yields(ev: Event) {
    ev.Trap? || ev.Timer? || ev.External? || ev.Wake?
  }

  lemma {:induction false} BeforeYieldCurr(k: Kernel, ev: Event)
    requires WellFormed(k) && EventOk(k, ev)
    ensures BeforeYield(k, ev).curr == k.curr
  {
  }

  /** The current slot changes only at a dispatch, to the slot chosen. */
  lemma {:induction false} StepCurr(k: Kernel, ev: Event)
    requires WellFormed(k) && EventOk(k, ev)
    ensures !Yields(ev) ==> Step(k, ev).curr == k.curr
    ensures Yields(ev) ==>
      match DispatchPoint(BeforeYield(k, ev), ev.exts)
      case Some(d) => d.curr == k.curr && Step(k, ev).curr == Chosen(d)
      case None => Step(k, ev).curr == k.curr
  {
    BeforeYieldCurr(k, ev);
  }

  lemma {:induction false} PointsLinked(k: Kernel, evs: seq<Event>)
    requires WellFormed(k) && RunOk(k, evs)
    ensures Linked(DispatchPoints(k, evs), k.curr)
    decreases |evs|
  {
    if evs != [] {
      var k1 := Step(k, evs[0]);
      PointsLinked(k1, evs[1..]);
      StepCurr(k, evs[0]);
    }
  }

  lemma {:induction false} ChosenWithin(ds: seq<Kernel>, from: nat, p: nat)
    requires from < MAX_NPROCESS && p < MAX_NPROCESS && Linked(ds, from) && Distance(from, p) <= |ds|
    requires forall j :: 0 <= j < Distance(from, p) ==> Candidate(ds[j].procs[p].status)
    ensures exists j :: 0 <= j < Distance(from, p) && Chosen(ds[j]) == p
    decreases Distance(from, p)
  {
    var next := Chosen(ds[0]);
    NextIsNearest(ds[0], 1, p);
    if next != p {
      assert Distance(next, p) == Distance(from, p) - Distance(from, next);
      ChosenWithin(ds[1..], next, p);
      var j :| 0 <= j < Distance(next, p) && Chosen(ds[1..][j]) == p;
      assert Chosen(ds[j + 1]) == p;
    }
  }

  /** The process in slot `p` could be run. */
  ghost predicate CanRun(d: Kernel, p: nat) {
    WellFormed(d) && p < MAX_NPROCESS && (d.procs[p].status == Ready || d.procs[p].status == Runnable)
  }

  ghost predicate Chooses(d: Kernel, p: nat) {
    WellFormed(d) && NextFrom(d, 1) == Some(p)
  }

  /** A process that can run at every dispatch is chosen within sixteen dispatches, so
      after at most fifteen of others. */
  lemma {:induction false} BoundedWaiting(k: Kernel, evs: seq<Event>, ds: seq<Kernel>, p: nat)
    requires WellFormed(k) && RunOk(k, evs) && ds == DispatchPoints(k, evs) && |ds| >= MAX_NPROCESS
    requires forall j :: 0 <= j < MAX_NPROCESS ==> CanRun(ds[j], p)
    ensures exists j :: 0 <= j < MAX_NPROCESS && Chooses(ds[j], p)
  {
    PointsLinked(k, evs);
    assert CanRun(ds[0], p);
    forall j | 0 <= j < Distance(k.curr, p)
      ensures Candidate(ds[j].procs[p].status)
    {
      assert CanRun(ds[j], p);
    }
    ChosenWithin(ds, k.curr, p);
    var j :| 0 <= j < Distance(k.curr, p) && Chosen(ds[j]) == p;
    assert Chooses(ds[j], p);
  }

  // ----- Ctrl-C

  /** The servers have the first slots, in the order of their numbers, and are live. */
  ghost predicate ServersFirst(k: Kernel) {
    && WellFormed(k)
    && (forall i :: 0 <= i < GPID_SHELL && i < k.nprocs ==> k.procs[i].pid == i + 1 && k.procs[i].status != Unused)
    && (forall i :: 0 <= i < MAX_NPROCESS && i >= k.nprocs && i < GPID_SHELL ==> k.procs[i].pid == 0)
    && (forall i :: GPID_SHELL <= i < MAX_NPROCESS ==> k.procs[i].pid == 0 || k.procs[i].pid >= GPID_USER_START)
  }

  /** No server is ever freed. */
  ghost predicate ServersStay(evs: seq<Event>) {
    forall ev :: ev in evs && ev.FreeProcess? ==> ev.pid == -1 || ev.pid >= GPID_USER_START
  }

  lemma {:induction false} StepServers(k: Kernel, ev: Event)
    requires Inv(k) && ServersFirst(k) && EventOk(k, ev)
    requires ev.FreeProcess? ==> ev.pid == -1 || ev.pid >= GPID_USER_START
    ensures ServersFirst(Step(k, ev))
  {
    match ev
    case NewProcess(sc) => AllocServers(k, sc);
    case FreeProcess(_) =>
    case MakeReady(_) =>
    case Store(_) =>
    case _ =>
      StepKeeps(k, ev);
      LiveServers(k, Step(k, ev));
  }

  lemma {:induction false} LiveServers(k: Kernel, k': Kernel)
    requires ServersFirst(k) && WellFormed(k') && SameLive(k, k') && k'.nprocs == k.nprocs
    ensures ServersFirst(k')
  {
  }

  /** A server gets the slot of its number; a user gets a slot after the servers. */
  lemma {:induction false} AllocServers(k: Kernel, sc: Syscall)
    requires TableOk(k) && ServersFirst(k) && FirstUnused(k.procs, 0) < MAX_NPROCESS
    ensures k.nprocs < GPID_SHELL ==> FirstUnused(k.procs, 0) == k.nprocs
    ensures k.nprocs >= GPID_SHELL ==> FirstUnused(k.procs, 0) >= GPID_SHELL
    ensures ServersFirst(Alloc(k, sc).value)
  {
    var i := FirstUnused(k.procs, 0);
    if k.nprocs < GPID_SHELL {
      assert k.procs[k.nprocs].status == Unused;
    }
    assert i < GPID_SHELL ==> k.nprocs <= i;
  }

  /** Over every run in which no server is freed, servers stay in front of users. */
  lemma {:induction false} RunServers(k: Kernel, evs: seq<Event>)
    requires Inv(k) && ServersFirst(k) && RunOk(k, evs) && ServersStay(evs)
    ensures Inv(Run(k, evs)) && ServersFirst(Run(k, evs))
    decreases |evs|
  {
    if evs != [] {
      assert evs[0] in evs;
      StepKeeps(k, evs[0]);
      StepServers(k, evs[0]);
      RunServers(Step(k, evs[0]), evs[1..]);
    }
  }

  predicate LiveUser(p: Process) {
    p.killable && p.status != Unused
  }

  /** The first live user process from slot `i` on, or the number of slots. */
  function FirstUser(procs: seq<Process>, i: nat): (j: nat)
    requires i <= |procs|
    ensures i <= j <= |procs|
    ensures j < |procs| ==> LiveUser(procs[j])
    ensures forall k :: i <= k < j ==> !LiveUser(procs[k])
    decreases |procs| - i
  {
    if i == |procs| || LiveUser(procs[i]) then i else FirstUser(procs, i + 1)
  }

  /** A process after Ctrl-C has killed the user processes, `u` being the first. */
  function AfterKill(p: Process, first: bool, killall: Content): (p': Process) {
    if !LiveUser(p) then p else if first then Forced(p, killall) else p.(status := Zombie)
  }

  ghost predicate ServerBusy(k: Kernel, i: nat)
    requires WellFormed(k)
  {
    exists j :: i <= j < GPID_SHELL && k.procs[j].status != Unused && k.procs[j].status != Requesting
  }

  lemma {:induction false} SpecialUsers(k: Kernel, i: nat, killSent: bool, killall: Content)
    requires TableOk(k) && GPID_SHELL <= i <= MAX_NPROCESS
    requires forall j :: i <= j < MAX_NPROCESS ==> k.procs[j].pid == 0 || k.procs[j].pid >= GPID_USER_START
    ensures var k' := Special(k, i, killSent, killall);
      && k' == k.(procs := k'.procs)
      && (forall j :: 0 <= j < i ==> k'.procs[j] == k.procs[j])
      && (forall j :: i <= j < MAX_NPROCESS ==>
            k'.procs[j] == AfterKill(k.procs[j], !killSent && j == FirstUser(k.procs, i), killall))
    decreases MAX_NPROCESS - i
  {
    if i < MAX_NPROCESS {
      if !LiveUser(k.procs[i]) {
        SpecialUsers(k, i + 1, killSent, killall);
      } else {
        SpecialAt(k, i, killSent, killall);
        var p' := if killSent then k.procs[i].(status := Zombie) else Forced(k.procs[i], killall);
        SlotKeeps(k, i, p');
        SpecialUsers(k.(procs := k.procs[i := p']), i + 1, true, killall);
      }
    }
  }

  lemma {:induction false} BusyFrom(k: Kernel, i: nat)
    requires WellFormed(k) && i < GPID_SHELL
    ensures ServerBusy(k, i) <==>
      (k.procs[i].status != Unused && k.procs[i].status != Requesting) || ServerBusy(k, i + 1)
  {
  }

  lemma {:induction false} SpecialServers(k: Kernel, i: nat, killall: Content)
    requires TableOk(k) && ServersFirst(k) && i <= GPID_SHELL
    ensures Special(k, i, false, killall) == if ServerBusy(k, i) then k else Special(k, GPID_SHELL, false, killall)
    decreases GPID_SHELL - i
  {
    if i < GPID_SHELL {
      SpecialServers(k, i + 1, killall);
      assert k.procs[i].pid <= GPID_SHELL && !k.procs[i].killable;
      BusyFrom(k, i);
    }
  }

  /** Ctrl-C changes nothing if some server is not waiting in a system call; otherwise it
      leaves the servers alone, makes the first user process send the kill message and
      every other one a zombie. */
  lemma {:induction false} CtrlCAllOrNothing(k: Kernel, killall: Content)
    requires TableOk(k) && ServersFirst(k)
    ensures ServerBusy(k, 0) ==> Special(k, 0, false, killall) == k
    ensures !ServerBusy(k, 0) ==>
      var k' := Special(k, 0, false, killall);
      && k' == k.(procs := k'.procs)
      && (forall j :: 0 <= j < MAX_NPROCESS ==>
            k'.procs[j] == AfterKill(k.procs[j], j == FirstUser(k.procs, GPID_SHELL), killall))
  {
    SpecialServers(k, 0, killall);
    SpecialUsers(k, GPID_SHELL, false, killall);
    forall j | 0 <= j < GPID_SHELL
      ensures !LiveUser(k.procs[j])
    {
    }
  }

  /** At any time after boot, if no server was freed: the servers have the first slots, and
      Ctrl-C kills all users or nobody. */
  lemma {:induction false} CtrlCAfterBoot(k: Kernel, evs: seq<Event>, killall: Content)
    requires Boot(k) && RunOk(k, evs) && ServersStay(evs)
    ensures ServersFirst(Run(k, evs))
    ensures var k1, k2 := Run(k, evs), Special(Run(k, evs), 0, false, killall);
      if ServerBusy(k1, 0) then k2 == k1
      else
        && k2 == k1.(procs := k2.procs)
        && (forall j :: 0 <= j < GPID_SHELL ==> k2.procs[j] == k1.procs[j])
        && (forall j :: 0 <= j < MAX_NPROCESS ==>
              k2.procs[j] == AfterKill(k1.procs[j], j == FirstUser(k1.procs, GPID_SHELL), killall))
  {
    BootIsInv(k);
    assert ServersFirst(k);
    RunServers(k, evs);
    CtrlCAllOrNothing(Run(k, evs), killall);
  }
}
