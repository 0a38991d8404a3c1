/** What the kernel keeps over every run: one runner, and exactly-once messages. */
module KernelProofs {
  import opened Base
  import opened KernelModel

  // ----- the process table

  /** Process numbers are different, were all handed out, and decide who can be killed. */
  ghost predicate TableOk(k: Kernel) {
    && WellFormed(k)
    && (forall i :: 0 <= i < MAX_NPROCESS ==> 0 <= k.procs[i].pid <= k.nprocs)
    && (forall i :: 0 <= i < MAX_NPROCESS && k.procs[i].pid == 0 ==> k.procs[i].status == Unused)
    && (forall i, j :: 0 <= i < j < MAX_NPROCESS && k.procs[i].pid == k.procs[j].pid ==> k.procs[i].pid == 0)
    && (forall i :: 0 <= i < MAX_NPROCESS ==> k.procs[i].killable == (k.procs[i].pid >= GPID_USER_START))
  }

  /** No slot but `r` is running. */
  ghost predicate NoRunnerBut(k: Kernel, r: nat)
    requires WellFormed(k)
  {
    forall i :: 0 <= i < MAX_NPROCESS && i != r ==> k.procs[i].status != Running
  }

  /** Sent messages are the received ones and the one in the mailbox, in order. */
  ghost predicate LogOk(k: Kernel) {
    k.sent == k.received + (if k.mailbox.Some? then [k.mailbox.value] else [])
  }

  ghost predicate Inv(k: Kernel) {
    TableOk(k) && NoRunnerBut(k, k.curr) && CurrPid(k) != 0 && LogOk(k)
  }

  /** Setting the status of an existing process touches its slot only. */
  lemma {:induction false} SetStatusOne(k: Kernel, i: nat, status: Status)
    requires TableOk(k) && i < MAX_NPROCESS && k.procs[i].pid != 0
    ensures SetStatus(k.procs, k.procs[i].pid, status) == k.procs[i := k.procs[i].(status := status)]
  {
  }

  /** Changing one slot, but not whose it is, keeps the table in order. */
  lemma {:induction false} SlotKeeps(k: Kernel, i: nat, p: Process)
    requires TableOk(k) && i < MAX_NPROCESS && p.pid == k.procs[i].pid != 0 && p.killable == k.procs[i].killable
    ensures TableOk(k.(procs := k.procs[i := p]))
    ensures forall r :: NoRunnerBut(k, r) && p.status != Running ==> NoRunnerBut(k.(procs := k.procs[i := p]), r)
  {
  }

  // ----- one attempt at a system call

  /** What an attempt does to the process that makes it and to the mailbox, and the
      message it posts or gets. */
  datatype Outcome = Outcome(p: Process, mailbox: Option<Message>, posted: seq<Message>, got: seq<Message>)

  function Attempt(p: Process, mailbox: Option<Message>, tty: int): (o: Outcome)
    ensures o.p.pid == p.pid && o.p.killable == p.killable
    ensures o.p.status == Requesting || o.p.status == Runnable
    ensures o.p.status == Requesting ==>
      o == Outcome(p.(status := Requesting, sc := p.sc.(retval := 0)), mailbox, [], [])
  {
    var again := Outcome(p.(status := Requesting, sc := p.sc.(retval := 0)), mailbox, [], []);
    var done := p.(status := Runnable, sc := p.sc.(retval := 0, ty := NoCall));
    match p.sc.ty
    case Send =>
      if mailbox.Some? then again
      else
        var msg := Message(p.pid, p.sc.receiver, p.sc.content);
        Outcome(done, Some(msg), [msg], [])
    case Recv =>
      if mailbox.None? || mailbox.value.receiver != p.pid then again
      else
        var msg := mailbox.value;
        Outcome(done.(sc := done.sc.(content := msg.content, sender := msg.sender)), None, [], [msg])
    case NoCall => again
    case Other(_) => again
    case _ =>
      if tty == -1 then again
      else Outcome(done.(sc := done.sc.(retval := if tty == 0 then 0 else -1)), mailbox, [], [])
  }

  /** The kernel after an attempt by the process in slot `i`. */
  function Applied(k: Kernel, i: nat, o: Outcome): (k': Kernel)
    requires WellFormed(k) && i < MAX_NPROCESS
    ensures WellFormed(k')
  {
    k.(procs := k.procs[i := o.p], mailbox := o.mailbox, sent := k.sent + o.posted, received := k.received + o.got)
  }

  /** The handler changes the slot of the process that calls, the mailbox and the logs,
      as the outcome of its attempt says, and nothing else. */
  lemma {:induction false} SyscallIsAttempt(k: Kernel, tty: int)
    requires TableOk(k) && CurrPid(k) != 0
    ensures SyscallHandle(k, tty) == Applied(k, k.curr, Attempt(k.procs[k.curr], k.mailbox, tty))
  {
    var p := k.procs[k.curr];
    var k0 := SetCall(k, p.sc.(retval := 0, ty := NoCall));
    SetStatusOne(k0, k.curr, Requesting);
    var p1 := Trying(p);
    assert k0.procs[k.curr := p1] == k.procs[k.curr := p1];
    PerformIsAttempt(k, p1, tty);
  }

  /** The current process sends and the mailbox is empty. */
  predicate CanSend(k: Kernel)
    requires WellFormed(k)
  {
    k.procs[k.curr].sc.ty == Send && k.mailbox.None?
  }

  /** The current process receives and the mailbox holds a message for it. */
  predicate CanReceive(k: Kernel)
    requires WellFormed(k)
  {
    k.procs[k.curr].sc.ty == Recv && k.mailbox.Some? && k.mailbox.value.receiver == CurrPid(k)
  }

  predicate IsTty(ty: CallType) {
    ty == TtyRead || ty == TtyWrite
  }

  /** A message is posted exactly by a process that can send, under its own number and with
      the receiver and contents it names; it is delivered exactly to a process that can
      receive; a call of the terminal ends as the terminal answers; and a call that does not
      succeed leaves its arguments for the next try. */
  lemma {:induction false} SyscallMeans(k: Kernel, tty: int)
    requires TableOk(k) && CurrPid(k) != 0
    ensures var p, k' := k.procs[k.curr], SyscallHandle(k, tty);
      var msg := Message(p.pid, p.sc.receiver, p.sc.content);
      && k'.sent == k.sent + (if CanSend(k) then [msg] else [])
      && k'.received == k.received + (if CanReceive(k) then [k.mailbox.value] else [])
      && k'.mailbox == (if CanSend(k) then Some(msg) else if CanReceive(k) then None else k.mailbox)
    ensures var p, p' := k.procs[k.curr], SyscallHandle(k, tty).procs[k.curr];
      && (CanReceive(k) ==> p'.sc.sender == k.mailbox.value.sender && p'.sc.content == k.mailbox.value.content)
      && (!CanReceive(k) ==> p'.sc.sender == p.sc.sender && p'.sc.content == p.sc.content)
      && (p'.status == Runnable <==> CanSend(k) || CanReceive(k) || (IsTty(p.sc.ty) && tty != -1))
      && (p'.status == Runnable ==> p'.sc.ty == NoCall)
      && p'.sc.retval == (if IsTty(p.sc.ty) && tty != 0 && tty != -1 then -1 else 0)
      && (p'.status != Runnable ==> p' == p.(status := Requesting, sc := p.sc.(retval := 0)))
    ensures forall i :: 0 <= i < MAX_NPROCESS && i != k.curr ==> SyscallHandle(k, tty).procs[i] == k.procs[i]
  {
    SyscallIsAttempt(k, tty);
  }

  /** The process during an attempt: its call is taken out of the record. */
  function Trying(p: Process): (p': Process) {
    p.(status := Requesting, sc := p.sc.(retval := 0, ty := NoCall))
  }

  lemma {:induction false} AttemptRecv(k: Kernel, p1: Process, tty: int)
    requires TableOk(k) && CurrPid(k) != 0 && p1 == Trying(k.procs[k.curr]) && k.procs[k.curr].sc.ty == Recv
    ensures var (k2, rc) := Perform(k.(procs := k.procs[k.curr := p1]), k.procs[k.curr].sc.ty, tty);
      Finish(k2, rc, k.procs[k.curr].sc.ty) == Applied(k, k.curr, Attempt(k.procs[k.curr], k.mailbox, tty))
  {
  }

  lemma {:induction false} AttemptSend(k: Kernel, p1: Process, tty: int)
    requires TableOk(k) && CurrPid(k) != 0 && p1 == Trying(k.procs[k.curr]) && k.procs[k.curr].sc.ty == Send
    ensures var (k2, rc) := Perform(k.(procs := k.procs[k.curr := p1]), k.procs[k.curr].sc.ty, tty);
      Finish(k2, rc, k.procs[k.curr].sc.ty) == Applied(k, k.curr, Attempt(k.procs[k.curr], k.mailbox, tty))
  {
  }

  lemma {:induction false} AttemptTty(k: Kernel, p1: Process, tty: int)
    requires TableOk(k) && CurrPid(k) != 0 && p1 == Trying(k.procs[k.curr])
    requires k.procs[k.curr].sc.ty == TtyRead || k.procs[k.curr].sc.ty == TtyWrite
    ensures var (k2, rc) := Perform(k.(procs := k.procs[k.curr := p1]), k.procs[k.curr].sc.ty, tty);
      Finish(k2, rc, k.procs[k.curr].sc.ty) == Applied(k, k.curr, Attempt(k.procs[k.curr], k.mailbox, tty))
  {
  }

  lemma {:induction false} AttemptOther(k: Kernel, p1: Process, tty: int)
    requires TableOk(k) && CurrPid(k) != 0 && p1 == Trying(k.procs[k.curr])
    requires k.procs[k.curr].sc.ty == NoCall || k.procs[k.curr].sc.ty.Other?
    ensures var (k2, rc) := Perform(k.(procs := k.procs[k.curr := p1]), k.procs[k.curr].sc.ty, tty);
      Finish(k2, rc, k.procs[k.curr].sc.ty) == Applied(k, k.curr, Attempt(k.procs[k.curr], k.mailbox, tty))
  {
  }

  lemma {:induction false} PerformIsAttempt(k: Kernel, p1: Process, tty: int)
    requires TableOk(k) && CurrPid(k) != 0 && p1 == Trying(k.procs[k.curr])
    ensures var (k2, rc) := Perform(k.(procs := k.procs[k.curr := p1]), k.procs[k.curr].sc.ty, tty);
      Finish(k2, rc, k.procs[k.curr].sc.ty) == Applied(k, k.curr, Attempt(k.procs[k.curr], k.mailbox, tty))
  {
    match k.procs[k.curr].sc.ty
    case Recv => AttemptRecv(k, p1, tty);
    case Send => AttemptSend(k, p1, tty);
    case TtyRead => AttemptTty(k, p1, tty);
    case TtyWrite => AttemptTty(k, p1, tty);
    case _ => AttemptOther(k, p1, tty);
  }

  /** Slots keep their process, and live processes stay live. */
  ghost predicate SameLive(k: Kernel, k': Kernel) {
    && |k.procs| == |k'.procs| == MAX_NPROCESS
    && (forall i :: 0 <= i < MAX_NPROCESS ==> k'.procs[i].pid == k.procs[i].pid)
    && (forall i :: 0 <= i < MAX_NPROCESS && k.procs[i].status != Unused ==> k'.procs[i].status != Unused)
  }

  /** What every step of the kernel keeps, with `r` the slot that may be running. */
  ghost predicate Keeps(k: Kernel, k': Kernel, r: nat) {
    && TableOk(k') && NoRunnerBut(k', r) && LogOk(k')
    && k'.nprocs == k.nprocs && k'.waiting == k.waiting
    && SameLive(k, k')
    && k.received <= k'.received && k.sent <= k'.sent
  }

  lemma {:induction false} KeepsTrans(k: Kernel, k1: Kernel, k2: Kernel, r: nat)
    requires Keeps(k, k1, r) && Keeps(k1, k2, r)
    ensures Keeps(k, k2, r)
  {
  }

  lemma {:induction false} OneSlotKeeps(k: Kernel, i: nat, p: Process, r: nat)
    requires TableOk(k) && NoRunnerBut(k, r) && LogOk(k) && i < MAX_NPROCESS
    requires p.pid == k.procs[i].pid != 0 && p.killable == k.procs[i].killable
    requires p.status != Running && p.status != Unused
    ensures Keeps(k, k.(procs := k.procs[i := p]), r)
  {
  }

  lemma {:induction false} SyscallKeeps(k: Kernel, tty: int, r: nat)
    requires TableOk(k) && NoRunnerBut(k, r) && LogOk(k) && CurrPid(k) != 0
    ensures Keeps(k, SyscallHandle(k, tty), r) && SyscallHandle(k, tty).curr == k.curr
    ensures forall i :: 0 <= i < MAX_NPROCESS && i != k.curr ==> SyscallHandle(k, tty).procs[i] == k.procs[i]
  {
    SyscallIsAttempt(k, tty);
    var o := Attempt(k.procs[k.curr], k.mailbox, tty);
    SlotKeeps(k, k.curr, o.p);
    assert k.(procs := k.procs[k.curr := o.p]).procs == SyscallHandle(k, tty).procs;
  }

  lemma {:induction false} TurnKeeps(k: Kernel, i: nat, tty: int, r: nat)
    requires TableOk(k) && NoRunnerBut(k, r) && LogOk(k) && i < MAX_NPROCESS && k.procs[i].pid != 0
    ensures Keeps(k, SyscallHandle(k.(curr := i), tty), r)
  {
    SyscallKeeps(k.(curr := i), tty, r);
  }

  lemma {:induction false} PassKeeps(k: Kernel, i: nat, tty: seq<int>, r: nat)
    requires TableOk(k) && NoRunnerBut(k, r) && LogOk(k) && i <= MAX_NPROCESS && |tty| == MAX_NPROCESS
    ensures Keeps(k, Pass(k, i, tty), r)
    decreases MAX_NPROCESS - i
  {
    if i < MAX_NPROCESS {
      if k.procs[i].status == Requesting {
        var k1 := SyscallHandle(k.(curr := i), tty[i]);
        TurnKeeps(k, i, tty[i], r);
        PassKeeps(k1, i + 1, tty, r);
        KeepsTrans(k, k1, Pass(k1, i + 1, tty), r);
      } else {
        PassKeeps(k, i + 1, tty, r);
      }
    }
  }

  /** A pass does not come back to the slots it has left behind. */
  lemma {:induction false} PassBehind(k: Kernel, i: nat, tty: seq<int>, r: nat, j: nat)
    requires TableOk(k) && NoRunnerBut(k, r) && LogOk(k) && j < i <= MAX_NPROCESS && |tty| == MAX_NPROCESS
    ensures Pass(k, i, tty).procs[j] == k.procs[j]
    decreases MAX_NPROCESS - i
  {
    if i < MAX_NPROCESS {
      if k.procs[i].status == Requesting {
        SyscallKeeps(k.(curr := i), tty[i], r);
        PassBehind(SyscallHandle(k.(curr := i), tty[i]), i + 1, tty, r, j);
      } else {
        PassBehind(k, i + 1, tty, r, j);
      }
    }
  }

  /** A process forced to send the kill message. */
  function Forced(p: Process, killall: Content): (p': Process) {
    p.(status := Requesting, sc := p.sc.(content := killall, ty := Send))
  }

  /** What Ctrl-C does to a live process that can be killed. */
  lemma {:induction false} SpecialAt(k: Kernel, i: nat, killSent: bool, killall: Content)
    requires TableOk(k) && i < MAX_NPROCESS && k.procs[i].killable && k.procs[i].status != Unused
    ensures var p' := if killSent then k.procs[i].(status := Zombie) else Forced(k.procs[i], killall);
      Special(k, i, killSent, killall) == Special(k.(procs := k.procs[i := p']), i + 1, true, killall)
  {
    var p := k.procs[i];
    if killSent {
      SetStatusOne(k, i, Zombie);
    } else {
      var q := p.(sc := p.sc.(content := killall, ty := Send));
      SlotKeeps(k, i, q);
      SetStatusOne(k.(procs := k.procs[i := q]), i, Requesting);
      assert k.procs[i := q][i := Forced(p, killall)] == k.procs[i := Forced(p, killall)];
    }
  }

  lemma {:induction false} SpecialKeeps(k: Kernel, i: nat, killSent: bool, killall: Content, r: nat)
    requires TableOk(k) && NoRunnerBut(k, r) && LogOk(k) && i <= MAX_NPROCESS
    ensures Keeps(k, Special(k, i, killSent, killall), r)
    decreases MAX_NPROCESS - i
  {
    if i < MAX_NPROCESS {
      var p := k.procs[i];
      if p.pid <= GPID_SHELL && p.status != Unused && p.status != Requesting {
      } else if !p.killable || p.status == Unused {
        SpecialKeeps(k, i + 1, killSent, killall, r);
      } else {
        var p' := if killSent then p.(status := Zombie) else Forced(p, killall);
        SpecialAt(k, i, killSent, killall);
        var k1 := k.(procs := k.procs[i := p']);
        OneSlotKeeps(k, i, p', r);
        SpecialKeeps(k1, i + 1, true, killall, r);
        KeepsTrans(k, k1, Special(k1, i + 1, true, killall), r);
      }
    }
  }

  /** Handling an interrupt starts no process and comes back to the current one. */
  lemma {:induction false} ExternalKeeps(k: Kernel, e: Ext)
    requires Inv(k) && ExtOk(e)
    ensures Inv(ExternalHandle(k, e)) && ExternalHandle(k, e).curr == k.curr
    ensures Keeps(k, ExternalHandle(k, e), k.curr)
  {
    var k1 := if e.ctrlC then Special(k, 0, false, e.killall) else k;
    SpecialKeeps(k, 0, false, e.killall, k.curr);
    PassKeeps(k1, 0, e.tty, k.curr);
  }

  function Stopped(k: Kernel): (k': Kernel)
    requires WellFormed(k)
    ensures WellFormed(k')
  {
    if k.procs[k.curr].status == Running then SetCurrStatus(k, Runnable) else k
  }

  ghost predicate NoRunner(k: Kernel)
    requires WellFormed(k)
  {
    forall i :: 0 <= i < MAX_NPROCESS ==> k.procs[i].status != Running
  }

  lemma {:induction false} StopCurrent(k: Kernel)
    requires Inv(k)
    ensures TableOk(Stopped(k)) && NoRunner(Stopped(k))
    ensures Stopped(k) == k.(procs := Stopped(k).procs)
    ensures SameLive(k, Stopped(k))
  {
    SetStatusOne(k, k.curr, Runnable);
    SlotKeeps(k, k.curr, k.procs[k.curr].(status := Runnable));
  }

  lemma {:induction false} StartNext(k: Kernel, next: nat)
    requires TableOk(k) && NoRunner(k) && LogOk(k) && next < MAX_NPROCESS && k.procs[next].pid != 0 && k.curr == next
    ensures Inv(SetCurrStatus(k, Running))
    ensures SetCurrStatus(k, Running) == k.(procs := k.procs[next := k.procs[next].(status := Running)])
  {
    SetStatusOne(k, next, Running);
    SlotKeeps(k, next, k.procs[next].(status := Running));
  }

  /** After a dispatch exactly the current slot is running. */
  lemma {:induction false} DispatchRuns(k: Kernel, next: nat)
    requires Inv(k) && next < MAX_NPROCESS && Candidate(k.procs[next].status)
    ensures Inv(Dispatch(k, next)) && Dispatch(k, next).curr == next
    ensures Dispatch(k, next).procs[next].status == Running
    ensures Dispatch(k, next).nprocs == k.nprocs && !Dispatch(k, next).waiting
    ensures SameLive(k, Dispatch(k, next))
    ensures Dispatch(k, next).sent == k.sent && Dispatch(k, next).received == k.received
  {
    StopCurrent(k);
    StartNext(Stopped(k).(curr := next, waiting := false), next);
  }

  /** How many slots after `from` slot `p` is looked at. */
  function Distance(from: nat, p: nat): (d: nat)
    requires from < MAX_NPROCESS && p < MAX_NPROCESS
    ensures 1 <= d <= MAX_NPROCESS && (from + d) % MAX_NPROCESS == p
  {
    if p > from then p - from else p - from + MAX_NPROCESS
  }

  /** The search looks at every slot, the current one last. */
  lemma {:induction false} NobodyNext(k: Kernel, i: nat, p: nat)
    requires WellFormed(k) && p < MAX_NPROCESS && 1 <= i <= Distance(k.curr, p) && NextFrom(k, i).None?
    ensures !Candidate(k.procs[p].status)
    decreases MAX_NPROCESS - i
  {
    if i < Distance(k.curr, p) {
      NobodyNext(k, i + 1, p);
    }
  }

  /** Whatever interrupts arrive, yielding ends with exactly the current slot running, or
      waiting with nobody able to run. */
  lemma {:induction false} YieldRuns(k: Kernel, exts: seq<Ext>)
    requires Inv(k) && forall e :: e in exts ==> ExtOk(e)
    ensures Inv(YieldLoop(k, exts))
    ensures !YieldLoop(k, exts).waiting ==> YieldLoop(k, exts).procs[YieldLoop(k, exts).curr].status == Running
    ensures YieldLoop(k, exts).waiting ==>
      forall i :: 0 <= i < MAX_NPROCESS ==> !Candidate(YieldLoop(k, exts).procs[i].status)
    ensures YieldLoop(k, exts).nprocs == k.nprocs
    ensures SameLive(k, YieldLoop(k, exts))
    ensures k.sent <= YieldLoop(k, exts).sent && k.received <= YieldLoop(k, exts).received
    decreases |exts|
  {
    match NextFrom(k, 1)
    case Some(next) => DispatchRuns(k, next);
    case None =>
      if exts != [] {
        assert exts[0] in exts;
        ExternalKeeps(k, exts[0]);
        YieldRuns(ExternalHandle(k, exts[0]), exts[1..]);
      } else {
        forall i | 0 <= i < MAX_NPROCESS
          ensures !Candidate(k.procs[i].status)
        {
          NobodyNext(k, 1, i);
        }
      }
  }

  lemma {:induction false} StepKeeps(k: Kernel, ev: Event)
    requires Inv(k) && EventOk(k, ev)
    ensures Inv(Step(k, ev))
    ensures ev.Trap? || ev.Timer? || ev.External? || ev.Wake? ==>
      SameLive(k, Step(k, ev)) && Step(k, ev).nprocs == k.nprocs
  {
    match ev {
      case Trap(tty, e, exts) =>
        SyscallKeeps(k, tty, k.curr);
        ExternalKeeps(SyscallHandle(k, tty), e);
        YieldRuns(BeforeYield(k, ev), exts);
      case Timer(e, exts) =>
        ExternalKeeps(k, e);
        YieldRuns(BeforeYield(k, ev), exts);
      case External(e0, e, exts) =>
        ExternalKeeps(k, e0);
        ExternalKeeps(ExternalHandle(k, e0), e);
        YieldRuns(BeforeYield(k, ev), exts);
      case Wake(e, exts) =>
        ExternalKeeps(k, e);
        YieldRuns(BeforeYield(k, ev), exts);
      case _ => ManageKeeps(k, ev);
    }
  }

  lemma {:induction false} ManageKeeps(k: Kernel, ev: Event)
    requires Inv(k) && EventOk(k, ev) && (ev.Store? || ev.NewProcess? || ev.FreeProcess? || ev.MakeReady?)
    ensures Inv(Step(k, ev)) && Step(k, ev).curr == k.curr
  {
    match ev
    case Store(sc) => SlotKeeps(k, k.curr, k.procs[k.curr].(sc := sc));
    case NewProcess(sc) => NewProcessKeeps(k, sc);
    case FreeProcess(pid) => StatusesKeep(k, Free(k, pid));
    case MakeReady(pid) => StatusesKeep(k, SetReady(k, pid));
  }

  /** New statuses for existing processes, none of them running, keep the invariant. */
  lemma {:induction false} StatusesKeep(k: Kernel, k': Kernel)
    requires Inv(k) && WellFormed(k') && k' == k.(procs := k'.procs)
    requires forall i :: 0 <= i < MAX_NPROCESS ==> k'.procs[i] == k.procs[i].(status := k'.procs[i].status)
    requires forall i :: 0 <= i < MAX_NPROCESS && k'.procs[i].status != k.procs[i].status ==>
      k.procs[i].pid != 0 && k'.procs[i].status != Running
    ensures Inv(k')
  {
  }

  lemma {:induction false} NewProcessKeeps(k: Kernel, sc: Syscall)
    requires Inv(k) && FirstUnused(k.procs, 0) < MAX_NPROCESS
    ensures Inv(Alloc(k, sc).value) && Alloc(k, sc).value.curr == k.curr
  {
    var i, pid := FirstUnused(k.procs, 0), k.nprocs + 1;
    var k' := Alloc(k, sc).value;
    assert k'.procs == k.procs[i := Process(pid, Loading, pid >= GPID_USER_START, sc)];
  }

  /** Over every run from boot: process numbers are unique, at most the current slot is
      running, and the messages sent are those received and the one in the mailbox. */
  lemma {:induction false} RunKeeps(k: Kernel, evs: seq<Event>)
    requires Inv(k) && RunOk(k, evs)
    ensures Inv(Run(k, evs))
    decreases |evs|
  {
    if evs != [] {
      StepKeeps(k, evs[0]);
      RunKeeps(Step(k, evs[0]), evs[1..]);
    }
  }

  lemma {:induction false} BootIsInv(k: Kernel)
    requires Boot(k)
    ensures Inv(k)
  {
  }

  /** Exactly-once, in-order messaging: at any time after boot, the messages sent so far
      are those received so far followed by the one in the mailbox, if any. */
  lemma {:induction false} ExactlyOnce(k: Kernel, evs: seq<Event>)
    requires Boot(k) && RunOk(k, evs)
    ensures Run(k, evs).sent == Run(k, evs).received +
      (if Run(k, evs).mailbox.Some? then [Run(k, evs).mailbox.value] else [])
  {
    BootIsInv(k);
    RunKeeps(k, evs);
  }

  /** At any time after boot, processes have different numbers and no slot but the current
      one is running. */
  lemma {:induction false} SingleRunner(k: Kernel, evs: seq<Event>)
    requires Boot(k) && RunOk(k, evs)
    ensures forall i, j :: 0 <= i < j < MAX_NPROCESS && Run(k, evs).procs[i].pid == Run(k, evs).procs[j].pid ==>
      Run(k, evs).procs[i].pid == 0
    ensures forall i :: 0 <= i < MAX_NPROCESS && Run(k, evs).procs[i].status == Running ==> i == Run(k, evs).curr
  {
    BootIsInv(k);
    RunKeeps(k, evs);
  }
}
