/** What single events do: an interrupt gives every pending call one turn, a dispatch
    stops one process and starts another, a trap attempts the call it was made for. */
module KernelEvents {
  import opened Base
  import opened KernelModel
  import opened KernelProofs
  import opened KernelTheorems

  // ----- interrupts

  /** The mailbox that slot `i` finds when its turn comes in a pass. */
  ghost function MailAt(k: Kernel, tty: seq<int>, i: nat): (m: Option<Message>)
    requires WellFormed(k) && |tty| == MAX_NPROCESS && i <= MAX_NPROCESS
  {
    if i == 0 then k.mailbox
    else if k.procs[i - 1].status == Requesting then Attempt(k.procs[i - 1], MailAt(k, tty, i - 1), tty[i - 1]).mailbox
    else MailAt(k, tty, i - 1)
  }

  /** What its turn does: one attempt if its call is pending, and nothing otherwise. */
  ghost function Turn(k: Kernel, tty: seq<int>, i: nat): (o: Outcome)
    requires WellFormed(k) && |tty| == MAX_NPROCESS && i < MAX_NPROCESS
    ensures o.mailbox == MailAt(k, tty, i + 1)
    ensures k.procs[i].status != Requesting ==> o.p == k.procs[i]
  {
    if k.procs[i].status == Requesting then Attempt(k.procs[i], MailAt(k, tty, i), tty[i])
    else Outcome(k.procs[i], MailAt(k, tty, i), [], [])
  }

  /** The messages posted, and those got, from slot `i` on. */
  ghost function PostedFrom(k: Kernel, tty: seq<int>, i: nat): (ms: seq<Message>)
    requires WellFormed(k) && |tty| == MAX_NPROCESS && i <= MAX_NPROCESS
    decreases MAX_NPROCESS - i
  {
    if i == MAX_NPROCESS then [] else Turn(k, tty, i).posted + PostedFrom(k, tty, i + 1)
  }

  ghost function GotFrom(k: Kernel, tty: seq<int>, i: nat): (ms: seq<Message>)
    requires WellFormed(k) && |tty| == MAX_NPROCESS && i <= MAX_NPROCESS
    decreases MAX_NPROCESS - i
  {
    if i == MAX_NPROCESS then [] else Turn(k, tty, i).got + GotFrom(k, tty, i + 1)
  }

  /** A pass over the processes of `k0` has come to slot `i`. */
  ghost predicate PassAt(k0: Kernel, k: Kernel, tty: seq<int>, i: nat, r: nat) {
    && WellFormed(k0) && |tty| == MAX_NPROCESS && i <= MAX_NPROCESS
    && TableOk(k) && NoRunnerBut(k, r) && LogOk(k)
    && k.mailbox == MailAt(k0, tty, i)
    && (forall j :: i <= j < MAX_NPROCESS ==> k.procs[j] == k0.procs[j])
  }

  /** The pass after the turn of slot `i`. */
  ghost function AfterTurn(k: Kernel, tty: seq<int>, i: nat): (k1: Kernel)
    requires WellFormed(k) && |tty| == MAX_NPROCESS && i < MAX_NPROCESS
    ensures WellFormed(k1) && Pass(k, i, tty) == Pass(k1, i + 1, tty)
  {
    if k.procs[i].status == Requesting then SyscallHandle(k.(curr := i), tty[i]) else k
  }

  lemma {:induction false} PassTurn(k0: Kernel, k: Kernel, tty: seq<int>, i: nat, r: nat)
    requires PassAt(k0, k, tty, i, r) && i < MAX_NPROCESS
    ensures var k1 := AfterTurn(k, tty, i);
      && PassAt(k0, k1, tty, i + 1, r) && k1.procs[i] == Turn(k0, tty, i).p
      && k1.sent == k.sent + Turn(k0, tty, i).posted && k1.received == k.received + Turn(k0, tty, i).got
  {
    if k.procs[i].status == Requesting {
      SyscallIsAttempt(k.(curr := i), tty[i]);
      SyscallKeeps(k.(curr := i), tty[i], r);
    }
  }

  lemma {:induction false} PassSlot(k0: Kernel, k: Kernel, tty: seq<int>, i: nat, r: nat, j: nat)
    requires PassAt(k0, k, tty, i, r) && i <= j < MAX_NPROCESS
    ensures Pass(k, i, tty).procs[j] == Turn(k0, tty, j).p
    decreases MAX_NPROCESS - i
  {
    PassTurn(k0, k, tty, i, r);
    var k1 := AfterTurn(k, tty, i);
    if i == j {
      PassBehind(k1, i + 1, tty, r, j);
    } else {
      PassSlot(k0, k1, tty, i + 1, r, j);
    }
  }

  lemma {:induction false} Assoc(a: seq<Message>, b: seq<Message>, c: seq<Message>)
    ensures a + b + c == a + (b + c)
  {
  }

  lemma {:induction false} PassLogs(k0: Kernel, k: Kernel, tty: seq<int>, i: nat, r: nat)
    requires PassAt(k0, k, tty, i, r)
    ensures var k' := Pass(k, i, tty);
      && k'.mailbox == MailAt(k0, tty, MAX_NPROCESS)
      && k'.sent == k.sent + PostedFrom(k0, tty, i) && k'.received == k.received + GotFrom(k0, tty, i)
    decreases MAX_NPROCESS - i
  {
    if i < MAX_NPROCESS {
      PassTurn(k0, k, tty, i, r);
      PassLogs(k0, AfterTurn(k, tty, i), tty, i + 1, r);
      Assoc(k.sent, Turn(k0, tty, i).posted, PostedFrom(k0, tty, i + 1));
      Assoc(k.received, Turn(k0, tty, i).got, GotFrom(k0, tty, i + 1));
    }
  }

  lemma {:induction false} SpecialProcs(k: Kernel, i: nat, killSent: bool, killall: Content)
    requires WellFormed(k) && i <= MAX_NPROCESS
    ensures var k' := Special(k, i, killSent, killall); k' == k.(procs := k'.procs)
    decreases MAX_NPROCESS - i
  {
    if i < MAX_NPROCESS {
      var p := k.procs[i];
      SpecialProcs(k, i + 1, killSent, killall);
      SpecialProcs(k.(procs := SetStatus(k.procs, p.pid, Zombie)), i + 1, true, killall);
      var forced := p.(sc := p.sc.(content := killall, ty := Send));
      SpecialProcs(k.(procs := SetStatus(k.procs[i := forced], p.pid, Requesting)), i + 1, true, killall);
    }
  }

  /** The kernel after Ctrl-C, if the interrupt brought one. */
  function Struck(k: Kernel, e: Ext): (k': Kernel)
    requires WellFormed(k)
    ensures WellFormed(k')
  {
    if e.ctrlC then Special(k, 0, false, e.killall) else k
  }

  /** Every process of `k` with a pending call has had one attempt, in the order of the
      slots, and nothing else has happened. */
  ghost predicate Served(k: Kernel, tty: seq<int>, k': Kernel) {
    && WellFormed(k) && |tty| == MAX_NPROCESS && WellFormed(k')
    && (forall j :: 0 <= j < MAX_NPROCESS ==> k'.procs[j] == Turn(k, tty, j).p)
    && k'.mailbox == MailAt(k, tty, MAX_NPROCESS)
    && k'.sent == k.sent + PostedFrom(k, tty, 0) && k'.received == k.received + GotFrom(k, tty, 0)
  }

  lemma {:induction false} PassServes(k: Kernel, tty: seq<int>, r: nat)
    requires TableOk(k) && NoRunnerBut(k, r) && LogOk(k) && |tty| == MAX_NPROCESS
    ensures Served(k, tty, Pass(k, 0, tty))
  {
    forall j | 0 <= j < MAX_NPROCESS
      ensures Pass(k, 0, tty).procs[j] == Turn(k, tty, j).p
    {
      PassSlot(k, k, tty, 0, r, j);
    }
    PassLogs(k, k, tty, 0, r);
  }

  /** An interrupt first deals with Ctrl-C, then every process with a pending call gets
      exactly one attempt, in the order of the slots, and nothing else happens. */
  lemma {:induction false} InterruptServes(k: Kernel, e: Ext)
    requires Inv(k) && ExtOk(e)
    ensures Served(Struck(k, e), e.tty, ExternalHandle(k, e))
    ensures Struck(k, e) == k.(procs := Struck(k, e).procs)
  {
    SpecialKeeps(k, 0, false, e.killall, k.curr);
    SpecialProcs(k, 0, false, e.killall);
    PassServes(Struck(k, e), e.tty, k.curr);
  }

  predicate Sending(p: Process) {
    p.status == Requesting && p.sc.ty == Send
  }

  lemma {:induction false} NoMailYet(k: Kernel, tty: seq<int>, i: nat)
    requires WellFormed(k) && |tty| == MAX_NPROCESS && i <= MAX_NPROCESS && k.mailbox.None?
    requires forall j :: 0 <= j < i ==> !Sending(k.procs[j])
    ensures MailAt(k, tty, i).None?
    ensures forall j :: 0 <= j < i ==> Turn(k, tty, j).posted == []
  {
    if i > 0 {
      NoMailYet(k, tty, i - 1);
    }
  }

  lemma {:induction false} PostedSkips(k: Kernel, tty: seq<int>, i: nat, s: nat)
    requires WellFormed(k) && |tty| == MAX_NPROCESS && i <= s <= MAX_NPROCESS
    requires forall j :: i <= j < s ==> Turn(k, tty, j).posted == []
    ensures PostedFrom(k, tty, i) == PostedFrom(k, tty, s)
    decreases s - i
  {
    if i < s {
      PostedSkips(k, tty, i + 1, s);
    }
  }

  function MessageOf(p: Process): (m: Message) {
    Message(p.pid, p.sc.receiver, p.sc.content)
  }

  lemma {:induction false} SenderTurn(k: Kernel, tty: seq<int>, s: nat)
    requires WellFormed(k) && |tty| == MAX_NPROCESS && s < MAX_NPROCESS
    requires Sending(k.procs[s]) && MailAt(k, tty, s).None?
    ensures Turn(k, tty, s).posted == [MessageOf(k.procs[s])]
    ensures PostedFrom(k, tty, s) == [MessageOf(k.procs[s])] + PostedFrom(k, tty, s + 1)
  {
  }

  lemma {:induction false} FirstPosted(k: Kernel, tty: seq<int>, s: nat)
    requires WellFormed(k) && |tty| == MAX_NPROCESS && k.mailbox.None? && s < MAX_NPROCESS
    requires Sending(k.procs[s]) && forall j :: 0 <= j < s ==> !Sending(k.procs[j])
    ensures PostedFrom(k, tty, 0) == [MessageOf(k.procs[s])] + PostedFrom(k, tty, s + 1)
  {
    NoMailYet(k, tty, s);
    PostedSkips(k, tty, 0, s);
    SenderTurn(k, tty, s);
  }

  /** With the mailbox empty, an interrupt posts the message of the first process that is
      waiting to send. */
  lemma {:induction false} FirstSenderPosts(k: Kernel, e: Ext, s: nat)
    requires Inv(k) && ExtOk(e) && k.mailbox.None? && s < MAX_NPROCESS
    requires Sending(Struck(k, e).procs[s]) && forall j :: 0 <= j < s ==> !Sending(Struck(k, e).procs[j])
    ensures k.sent + [MessageOf(Struck(k, e).procs[s])] <= ExternalHandle(k, e).sent
  {
    InterruptServes(k, e);
    FirstPosted(Struck(k, e), e.tty, s);
    Assoc(k.sent, [MessageOf(Struck(k, e).procs[s])], PostedFrom(Struck(k, e), e.tty, s + 1));
  }

  /** Without Ctrl-C, an interrupt leaves a process without a pending call alone. */
  lemma {:induction false} InterruptSpares(k: Kernel, e: Ext, j: nat)
    requires Inv(k) && ExtOk(e) && !e.ctrlC && j < MAX_NPROCESS && k.procs[j].status != Requesting
    ensures ExternalHandle(k, e).procs[j] == k.procs[j]
  {
    InterruptServes(k, e);
  }

  lemma {:induction false} PostedIn(k: Kernel, tty: seq<int>, i: nat, j: nat, m: Message)
    requires WellFormed(k) && |tty| == MAX_NPROCESS && i <= j < MAX_NPROCESS && m in Turn(k, tty, j).posted
    ensures m in PostedFrom(k, tty, i)
    decreases j - i
  {
    if i < j {
      PostedIn(k, tty, i + 1, j, m);
    }
  }

  /** What Ctrl-C does to the first live user process, `p`: its kill message is posted, or
      waits for the mailbox. */
  ghost predicate KillSent(k: Kernel, k': Kernel, p: Process, p': Process, killall: Content) {
    && p'.pid == p.pid && p'.sc.content == killall && p'.sc.receiver == p.sc.receiver
    && (|| (p'.status == Requesting && p'.sc.ty == Send)
        || (p'.status == Runnable && k.sent <= k'.sent
            && MessageOf(Forced(p, killall)) in k'.sent[|k.sent|..]))
  }

  lemma {:induction false} Added(a: seq<Message>, b: seq<Message>, c: seq<Message>)
    requires c == a + b
    ensures a <= c && c[|a|..] == b
  {
  }

  lemma {:induction false} ServedForced(k: Kernel, tty: seq<int>, k': Kernel, u: nat, p: Process, killall: Content)
    requires Served(k, tty, k') && u < MAX_NPROCESS && k.procs[u] == Forced(p, killall)
    ensures KillSent(k, k', p, k'.procs[u], killall)
  {
    var m := MessageOf(Forced(p, killall));
    assert k'.procs[u] == Attempt(Forced(p, killall), MailAt(k, tty, u), tty[u]).p;
    if MailAt(k, tty, u).None? {
      assert Turn(k, tty, u).posted == [m];
      PostedIn(k, tty, 0, u, m);
      Added(k.sent, PostedFrom(k, tty, 0), k'.sent);
    }
  }

  /** All live users but the first are zombies. */
  ghost predicate Zombies(k: Kernel, k': Kernel) {
    && WellFormed(k) && WellFormed(k')
    && forall j :: 0 <= j < MAX_NPROCESS && j != FirstUser(k.procs, GPID_SHELL) && LiveUser(k.procs[j]) ==>
         k'.procs[j] == k.procs[j].(status := Zombie)
  }

  /** Ctrl-C at an interrupt: with a busy server the interrupt is handled as if there were
      none; otherwise the first live user sends the kill message and every other live user
      becomes a zombie. */
  lemma {:induction false} CtrlCInterrupt(k: Kernel, e: Ext)
    requires Inv(k) && ServersFirst(k) && ExtOk(e) && e.ctrlC
    ensures ServerBusy(k, 0) ==> ExternalHandle(k, e) == ExternalHandle(k, e.(ctrlC := false))
    ensures !ServerBusy(k, 0) ==>
      var k', u := ExternalHandle(k, e), FirstUser(k.procs, GPID_SHELL);
      Zombies(k, k') && (u < MAX_NPROCESS ==> KillSent(k, k', k.procs[u], k'.procs[u], e.killall))
  {
    CtrlCAllOrNothing(k, e.killall);
    if !ServerBusy(k, 0) {
      var u := FirstUser(k.procs, GPID_SHELL);
      InterruptServes(k, e);
      if u < MAX_NPROCESS {
        ServedForced(Struck(k, e), e.tty, ExternalHandle(k, e), u, k.procs[u], e.killall);
      }
    }
  }

  // ----- dispatching

  /** Ready, running or runnable. */
  predicate Live(p: Process) {
    p.status == Ready || p.status == Running || p.status == Runnable
  }

  ghost predicate Idle(k: Kernel)
    requires WellFormed(k)
  {
    forall i :: 0 <= i < MAX_NPROCESS ==> !Live(k.procs[i])
  }

  /** From `d` to `k'` the nearest live process was started, whichever was running was made
      runnable, and nothing else was changed. */
  ghost predicate Dispatched(d: Kernel, k': Kernel) {
    && WellFormed(d) && WellFormed(k') && k' == d.(procs := k'.procs, curr := k'.curr, waiting := false)
    && Live(d.procs[k'.curr])
    && (forall j :: 0 <= j < MAX_NPROCESS && Live(d.procs[j]) ==> Distance(d.curr, k'.curr) <= Distance(d.curr, j))
    && k'.procs[k'.curr] == d.procs[k'.curr].(status := Running)
    && (forall i :: 0 <= i < MAX_NPROCESS && i != k'.curr ==>
          k'.procs[i] == d.procs[i].(status := if d.procs[i].status == Running then Runnable else d.procs[i].status))
  }

  lemma {:induction false} DispatchIs(d: Kernel, next: nat)
    requires Inv(d) && next < MAX_NPROCESS && Live(d.procs[next])
    ensures Dispatch(d, next) == d.(procs := Dispatch(d, next).procs, curr := next, waiting := false)
    ensures Dispatch(d, next).procs[next] == d.procs[next].(status := Running)
    ensures forall i :: 0 <= i < MAX_NPROCESS && i != next ==>
      Dispatch(d, next).procs[i]
      == d.procs[i].(status := if d.procs[i].status == Running then Runnable else d.procs[i].status)
  {
    StopCurrent(d);
    SetStatusOne(d, d.curr, Runnable);
    StartNext(Stopped(d).(curr := next, waiting := false), next);
  }

  lemma {:induction false} NextDispatched(d: Kernel)
    requires Inv(d)
    ensures Idle(d) <==> NextFrom(d, 1).None?
    ensures !Idle(d) ==> Dispatched(d, Dispatch(d, NextFrom(d, 1).value))
  {
    forall j | 0 <= j < MAX_NPROCESS && Live(d.procs[j])
      ensures NextFrom(d, 1).Some? && Distance(d.curr, NextFrom(d, 1).value) <= Distance(d.curr, j)
    {
      NextIsNearest(d, 1, j);
    }
    if NextFrom(d, 1).Some? {
      DispatchIs(d, NextFrom(d, 1).value);
    }
  }

  /** With nobody to run, a yield handles the next interrupt and looks again; without a
      further interrupt it waits. */
  lemma {:induction false} IdleYield(k: Kernel, exts: seq<Ext>)
    requires Inv(k) && Idle(k) && forall e :: e in exts ==> ExtOk(e)
    ensures exts == [] ==> YieldLoop(k, exts) == k.(waiting := true)
    ensures exts != [] ==> ExtOk(exts[0]) && YieldLoop(k, exts) == YieldLoop(ExternalHandle(k, exts[0]), exts[1..])
  {
    NextDispatched(k);
    assert exts != [] ==> exts[0] in exts;
  }

  /** With somebody to run, it dispatches at once. */
  lemma {:induction false} YieldNow(k: Kernel, exts: seq<Ext>)
    requires Inv(k) && !Idle(k) && forall e :: e in exts ==> ExtOk(e)
    ensures Dispatched(k, YieldLoop(k, exts))
  {
    NextDispatched(k);
  }

  /** Whatever interrupts arrive, a yield ends with a dispatch from the state in which it
      found a process to run. */
  lemma {:induction false} YieldDispatches(k: Kernel, exts: seq<Ext>)
    requires Inv(k) && forall e :: e in exts ==> ExtOk(e)
    ensures DispatchPoint(k, exts).Some? <==> !YieldLoop(k, exts).waiting
    ensures DispatchPoint(k, exts).Some? ==>
      Inv(DispatchPoint(k, exts).value) && Dispatched(DispatchPoint(k, exts).value, YieldLoop(k, exts))
    decreases |exts|
  {
    if !Idle(k) {
      YieldNow(k, exts);
      NextDispatched(k);
    } else {
      IdleYield(k, exts);
      NextDispatched(k);
      if exts != [] {
        ExternalKeeps(k, exts[0]);
        YieldDispatches(ExternalHandle(k, exts[0]), exts[1..]);
      }
    }
  }

  /** A process that is running when the timer interrupts, without Ctrl-C, goes on running
      or can run again, and is otherwise as it was. */
  lemma {:induction false} TimerKeepsRunner(k: Kernel, e: Ext, exts: seq<Ext>)
    requires Inv(k) && EventOk(k, Timer(e, exts)) && !e.ctrlC && k.procs[k.curr].status == Running
    ensures var k' := Step(k, Timer(e, exts));
      && !k'.waiting
      && k'.procs[k.curr] == k.procs[k.curr].(status := if k'.curr == k.curr then Running else Runnable)
  {
    var d := ExternalHandle(k, e);
    ExternalKeeps(k, e);
    InterruptSpares(k, e, k.curr);
    assert Live(d.procs[k.curr]);
    YieldNow(d, exts);
  }

  // ----- Ctrl-C in an event

  /** Without further Ctrl-C, a zombie stays one. */
  lemma {:induction false} ZombieStays(k: Kernel, exts: seq<Ext>, j: nat)
    requires Inv(k) && (forall e :: e in exts ==> ExtOk(e) && !e.ctrlC)
    requires j < MAX_NPROCESS && k.procs[j].status == Zombie
    ensures YieldLoop(k, exts).procs[j] == k.procs[j]
    decreases |exts|
  {
    if !Idle(k) {
      YieldNow(k, exts);
    } else {
      IdleYield(k, exts);
      if exts != [] {
        assert exts[0] in exts;
        ExternalKeeps(k, exts[0]);
        InterruptSpares(k, exts[0], j);
        ZombieStays(ExternalHandle(k, exts[0]), exts[1..], j);
      }
    }
  }

  lemma {:induction false} ZombiesStay(k: Kernel, d: Kernel, exts: seq<Ext>)
    requires Inv(d) && Zombies(k, d) && (forall e :: e in exts ==> ExtOk(e) && !e.ctrlC)
    ensures Zombies(k, YieldLoop(d, exts))
  {
    forall j | 0 <= j < MAX_NPROCESS && j != FirstUser(k.procs, GPID_SHELL) && LiveUser(k.procs[j])
      ensures YieldLoop(d, exts).procs[j] == k.procs[j].(status := Zombie)
    {
      ZombieStays(d, exts, j);
    }
  }

  /** The interrupt that an event handles first, and the state in which it does. */
  ghost function FirstExt(ev: Event): (e: Ext)
    requires Yields(ev)
  {
    if ev.External? then ev.e0 else ev.e
  }

  ghost function AtFirstExt(k: Kernel, ev: Event): (k': Kernel)
    requires WellFormed(k)
    ensures WellFormed(k')
  {
    if ev.Trap? then SyscallHandle(k, ev.tty) else k
  }

  lemma {:induction false} AtFirstExtOk(k: Kernel, ev: Event)
    requires Inv(k) && ServersFirst(k) && EventOk(k, ev)
    ensures Inv(AtFirstExt(k, ev)) && ServersFirst(AtFirstExt(k, ev))
  {
    if ev.Trap? {
      SyscallKeeps(k, ev.tty, k.curr);
      LiveServers(k, AtFirstExt(k, ev));
    }
  }

  /** Ctrl-C that comes with an event, at any time after boot if no server was freed and no
      other Ctrl-C follows: when the event is over, all live users but the first are
      zombies, unless a server was busy. */
  lemma {:induction false} CtrlCEvent(k: Kernel, evs: seq<Event>, ev: Event)
    requires Boot(k) && RunOk(k, evs) && ServersStay(evs) && EventOk(Run(k, evs), ev) && Yields(ev)
    requires FirstExt(ev).ctrlC && (ev.External? ==> !ev.e.ctrlC) && forall e :: e in ev.exts ==> !e.ctrlC
    ensures var k0 := AtFirstExt(Run(k, evs), ev);
      ServersFirst(k0) && (!ServerBusy(k0, 0) ==> Zombies(k0, Step(Run(k, evs), ev)))
  {
    CtrlCAfterBoot(k, evs, []);
    BootIsInv(k);
    RunKeeps(k, evs);
    AtFirstExtOk(Run(k, evs), ev);
    var k0 := AtFirstExt(Run(k, evs), ev);
    if !ServerBusy(k0, 0) {
      var k1 := ExternalHandle(k0, FirstExt(ev));
      CtrlCInterrupt(k0, FirstExt(ev));
      ExternalKeeps(k0, FirstExt(ev));
      if ev.External? {
        ZombiesSpared(k0, k1, ev.e);
        ExternalKeeps(k1, ev.e);
        ZombiesStay(k0, ExternalHandle(k1, ev.e), ev.exts);
      } else {
        ZombiesStay(k0, k1, ev.exts);
      }
    }
  }

  lemma {:induction false} ZombiesSpared(k: Kernel, d: Kernel, e: Ext)
    requires Inv(d) && Zombies(k, d) && ExtOk(e) && !e.ctrlC
    ensures Zombies(k, ExternalHandle(d, e))
  {
    forall j | 0 <= j < MAX_NPROCESS && j != FirstUser(k.procs, GPID_SHELL) && LiveUser(k.procs[j])
      ensures ExternalHandle(d, e).procs[j] == k.procs[j].(status := Zombie)
    {
      InterruptSpares(d, e, j);
    }
  }

  // ----- traps and deliveries

  /** A trap attempts the call it was made for: a message is posted if the mailbox was
      empty, and received if it held one for the caller. */
  lemma {:induction false} TrapAttempts(k: Kernel, tty: int, e: Ext, exts: seq<Ext>)
    requires Inv(k) && EventOk(k, Trap(tty, e, exts))
    ensures var k' := Step(k, Trap(tty, e, exts));
      && (CanSend(k) ==> k.sent + [MessageOf(k.procs[k.curr])] <= k'.sent)
      && (CanReceive(k) ==> k.received + [k.mailbox.value] <= k'.received)
  {
    SyscallMeans(k, tty);
    SyscallKeeps(k, tty, k.curr);
    ExternalKeeps(SyscallHandle(k, tty), e);
    YieldRuns(BeforeYield(k, Trap(tty, e, exts)), exts);
  }

  /** A trap leaves the message for its receiver, or is made by the receiver itself. */
  lemma {:induction false} TrapLeaves(k: Kernel, tty: int, s: nat, msg: Message)
    requires Inv(k) && Awaits(k, s, msg)
    ensures var k1 := SyscallHandle(k, tty);
      && Inv(k1) && k.received <= k1.received
      && (k1.received == k.received + [msg] || (Awaits(k1, s, msg) && k1.received == k.received))
  {
    SyscallKeeps(k, tty, k.curr);
    SyscallMeans(k, tty);
  }

  lemma {:induction false} InterruptsDeliver(k: Kernel, e: Ext, k': Kernel, s: nat, msg: Message)
    requires Inv(k) && ExtOk(e) && !e.ctrlC && Awaits(k, s, msg)
    requires ExternalHandle(k, e).received <= k'.received
    ensures k.received + [msg] <= k'.received
  {
    InterruptDelivers(k, e, s, msg);
  }

  /** The messages received so far are not lost by the rest of an event. */
  lemma {:induction false} RestKeeps(k: Kernel, e: Ext, exts: seq<Ext>)
    requires Inv(k) && ExtOk(e) && forall x :: x in exts ==> ExtOk(x)
    ensures Inv(ExternalHandle(k, e)) && k.received <= ExternalHandle(k, e).received
    ensures ExternalHandle(k, e).received <= YieldLoop(ExternalHandle(k, e), exts).received
  {
    ExternalKeeps(k, e);
    YieldRuns(ExternalHandle(k, e), exts);
  }

  /** Every event that enters the kernel, unless by Ctrl-C, delivers the message in the
      mailbox if its receiver is waiting for it. */
  lemma {:induction false} EventDelivers(k: Kernel, ev: Event, s: nat, msg: Message)
    requires Inv(k) && EventOk(k, ev) && Yields(ev) && Awaits(k, s, msg)
    requires !FirstExt(ev).ctrlC
    ensures k.received + [msg] <= Step(k, ev).received
  {
    if ev.Trap? {
      TrapLeaves(k, ev.tty, s, msg);
      var k1 := SyscallHandle(k, ev.tty);
      RestKeeps(k1, ev.e, ev.exts);
      if Awaits(k1, s, msg) && k1.received == k.received {
        InterruptsDeliver(k1, ev.e, Step(k, ev), s, msg);
      }
    } else if ev.External? {
      RestKeeps(k, ev.e0, []);
      RestKeeps(ExternalHandle(k, ev.e0), ev.e, ev.exts);
      InterruptsDeliver(k, ev.e0, Step(k, ev), s, msg);
    } else {
      RestKeeps(k, ev.e, ev.exts);
      InterruptsDeliver(k, ev.e, Step(k, ev), s, msg);
    }
  }

  // ----- the life of a process

  /** A new process takes an unused slot under a number of its own; it cannot run before
      it is made ready, and then it can. */
  lemma {:induction false} NewProcessRuns(k: Kernel, sc: Syscall)
    requires Inv(k)
    ensures Alloc(k, sc).Some? <==> exists i :: 0 <= i < MAX_NPROCESS && k.procs[i].status == Unused
    ensures Alloc(k, sc).Some? ==>
      var k1, i := Alloc(k, sc).value, FirstUnused(k.procs, 0);
      && k.procs[i].status == Unused && !Live(k1.procs[i]) && k1.procs[i].status != Unused
      && (forall j :: 0 <= j < MAX_NPROCESS ==> k.procs[j].pid != k1.procs[i].pid)
      && (forall j :: 0 <= j < MAX_NPROCESS && j != i ==> k1.procs[j] == k.procs[j])
      && SetReady(k1, k1.procs[i].pid) == k1.(procs := k1.procs[i := k1.procs[i].(status := Ready)])
  {
    if Alloc(k, sc).Some? {
      NewProcessKeeps(k, sc);
      SetStatusOne(Alloc(k, sc).value, FirstUnused(k.procs, 0), Ready);
    }
  }

  /** A process that is freed no longer uses its slot, so that another can be made; freeing
      all users leaves the servers alone. */
  lemma {:induction false} FreedIsUnused(k: Kernel, pid: int, sc: Syscall)
    requires Inv(k) && (pid == -1 || pid > 0)
    ensures var k' := Free(k, pid);
      forall i :: 0 <= i < MAX_NPROCESS ==>
        var gone := if pid == -1 then k.procs[i].pid >= GPID_USER_START else k.procs[i].pid == pid;
        k'.procs[i] == if gone then k.procs[i].(status := Unused) else k.procs[i]
    ensures forall i :: 0 <= i < MAX_NPROCESS && k.procs[i].pid == pid ==> Alloc(Free(k, pid), sc).Some?
    ensures forall i :: 0 <= i < MAX_NPROCESS && k.procs[i].pid >= GPID_USER_START ==> Alloc(Free(k, -1), sc).Some?
  {
    assert forall i :: 0 <= i < MAX_NPROCESS && k.procs[i].status == Unused ==>
      k.procs[i].(status := Unused) == k.procs[i];
  }
}
