/** The kernel as a state machine: process table, one-message mailbox, system calls
    that are retried until they succeed, round-robin dispatch, and Ctrl-C. */
module KernelModel {
  import opened Base

  const MAX_NPROCESS := 16
  const GPID_SHELL := 4
  const GPID_USER_START := 5

  datatype Status = Unused | Loading | Ready | Running | Runnable | Requesting | Zombie

  datatype CallType = NoCall | Recv | Send | TtyRead | TtyWrite | Other(code: int)

  type Content = seq<int>

  /** The system-call record in a process's own memory. */
  datatype Syscall = Syscall(ty: CallType, sender: int, receiver: int, content: Content, retval: int)

  datatype Process = Process(pid: int, status: Status, killable: bool, sc: Syscall)

  datatype Message = Message(sender: int, receiver: int, content: Content)

  /** The kernel's state, with the logs of all messages sent and received so far.
      `waiting` means that it found nobody to run and waits for an interrupt. */
  datatype Kernel = Kernel(procs: seq<Process>, curr: nat, nprocs: nat, mailbox: Option<Message>,
                           sent: seq<Message>, received: seq<Message>, waiting: bool)

  predicate WellFormed(k: Kernel) {
    |k.procs| == MAX_NPROCESS && k.curr < MAX_NPROCESS
  }

  // ----- the process table

  function SetStatus(procs: seq<Process>, pid: int, status: Status): (ps: seq<Process>)
    ensures |ps| == |procs|
    ensures forall i :: 0 <= i < |ps| ==> ps[i] == if procs[i].pid == pid then procs[i].(status := status) else procs[i]
  {
    seq(|procs|, i requires 0 <= i < |procs| =>
      if procs[i].pid == pid then procs[i].(status := status) else procs[i])
  }

  /** The first unused slot from `i` on, or the number of slots. */
  function FirstUnused(procs: seq<Process>, i: nat): (j: nat)
    requires i <= |procs|
    ensures i <= j <= |procs|
    ensures j < |procs| ==> procs[j].status == Unused
    ensures forall k :: i <= k < j ==> procs[k].status != Unused
    decreases |procs| - i
  {
    if i == |procs| || procs[i].status == Unused then i else FirstUnused(procs, i + 1)
  }

  /** A new process, if there is a free slot; its memory is whatever the loader leaves. */
  function Alloc(k: Kernel, sc: Syscall): (r: Option<Kernel>)
    requires WellFormed(k)
    ensures r.Some? ==> WellFormed(r.value)
  {
    var i := FirstUnused(k.procs, 0);
    if i == |k.procs| then None
    else
      var pid := k.nprocs + 1;
      Some(k.(procs := k.procs[i := Process(pid, Loading, pid >= GPID_USER_START, sc)], nprocs := pid))
  }

  function FreeUsers(procs: seq<Process>): (ps: seq<Process>)
    ensures |ps| == |procs|
    ensures forall i :: 0 <= i < |ps| ==>
      ps[i] == if procs[i].pid >= GPID_USER_START && procs[i].status != Unused then procs[i].(status := Unused)
               else procs[i]
  {
    seq(|procs|, i requires 0 <= i < |procs| =>
      if procs[i].pid >= GPID_USER_START && procs[i].status != Unused then procs[i].(status := Unused) else procs[i])
  }

  function Free(k: Kernel, pid: int): (k': Kernel)
    requires WellFormed(k)
    ensures WellFormed(k')
  {
    k.(procs := if pid != -1 then SetStatus(k.procs, pid, Unused) else FreeUsers(k.procs))
  }

  function SetReady(k: Kernel, pid: int): (k': Kernel)
    requires WellFormed(k)
    ensures WellFormed(k')
  {
    k.(procs := SetStatus(k.procs, pid, Ready))
  }

  // ----- system calls

  function CurrPid(k: Kernel): (pid: int)
    requires WellFormed(k)
  {
    k.procs[k.curr].pid
  }

  function SetCall(k: Kernel, sc: Syscall): (k': Kernel)
    requires WellFormed(k)
    ensures WellFormed(k')
  {
    k.(procs := k.procs[k.curr := k.procs[k.curr].(sc := sc)])
  }

  function SetCurrStatus(k: Kernel, status: Status): (k': Kernel)
    requires WellFormed(k)
    ensures WellFormed(k')
  {
    k.(procs := SetStatus(k.procs, CurrPid(k), status))
  }

  /** Sending fails while the mailbox holds a message. */
  function TrySend(k: Kernel): (r: (Kernel, int))
    requires WellFormed(k)
    ensures WellFormed(r.0)
  {
    if k.mailbox.Some? then (k, -1)
    else
      var sc := k.procs[k.curr].sc;
      var msg := Message(CurrPid(k), sc.receiver, sc.content);
      (k.(mailbox := Some(msg), sent := k.sent + [msg]), 0)
  }

  /** Receiving fails unless the mailbox holds a message for the current process. */
  function TryRecv(k: Kernel): (r: (Kernel, int))
    requires WellFormed(k)
    ensures WellFormed(r.0)
  {
    if k.mailbox.None? || k.mailbox.value.receiver != CurrPid(k) then (k, -1)
    else
      var msg := k.mailbox.value;
      var sc := k.procs[k.curr].sc.(content := msg.content, sender := msg.sender);
      (SetCall(k, sc).(mailbox := None, received := k.received + [Message(sc.sender, CurrPid(k), sc.content)]), 0)
  }

  /** What a call of a given type does; the terminal's answer is a parameter. */
  function Perform(k: Kernel, ty: CallType, tty: int): (r: (Kernel, int))
    requires WellFormed(k)
    ensures WellFormed(r.0)
  {
    match ty
    case Recv => TryRecv(k)
    case Send => TrySend(k)
    case TtyRead => (k, tty)
    case TtyWrite => (k, tty)
    case _ => (k, -1)
  }

  /** One attempt at the current process's system call. */
  function SyscallHandle(k: Kernel, tty: int): (k': Kernel)
    requires WellFormed(k)
    ensures WellFormed(k')
  {
    var sc := k.procs[k.curr].sc;
    var k1 := SetCurrStatus(SetCall(k, sc.(retval := 0, ty := NoCall)), Requesting);
    var (k2, rc) := Perform(k1, sc.ty, tty);
    Finish(k2, rc, sc.ty)
  }

  /** After success or a final error the process can run again; otherwise the call stays
      pending. */
  function Finish(k: Kernel, rc: int, ty: CallType): (k': Kernel)
    requires WellFormed(k)
    ensures WellFormed(k')
  {
    if rc == 0 then SetCurrStatus(k, Runnable)
    else if rc == -1 then SetCall(k, k.procs[k.curr].sc.(ty := ty))
    else
      var k3 := SetCurrStatus(k, Runnable);
      SetCall(k3, k3.procs[k3.curr].sc.(retval := -1))
  }

  // ----- interrupts

  /** What an interrupt brings: Ctrl-C or not, the terminal's answers to the calls of
      the 16 slots, and the contents of a forced kill message. */
  datatype Ext = Ext(ctrlC: bool, tty: seq<int>, killall: Content)

  predicate ExtOk(e: Ext) {
    |e.tty| == MAX_NPROCESS
  }

  /** Ctrl-C, from slot `i` on; `killSent` once a process was made to send the message. */
  function Special(k: Kernel, i: nat, killSent: bool, killall: Content): (k': Kernel)
    requires WellFormed(k) && i <= MAX_NPROCESS
    ensures WellFormed(k') && k'.curr == k.curr
    decreases MAX_NPROCESS - i
  {
    if i == MAX_NPROCESS then k
    else
      var p := k.procs[i];
      if p.pid <= GPID_SHELL && p.status != Unused && p.status != Requesting then k
      else if !p.killable || p.status == Unused then Special(k, i + 1, killSent, killall)
      else if killSent then
        Special(k.(procs := SetStatus(k.procs, p.pid, Zombie)), i + 1, true, killall)
      else
        var forced := p.(sc := p.sc.(content := killall, ty := Send));
        Special(k.(procs := SetStatus(k.procs[i := forced], p.pid, Requesting)), i + 1, true, killall)
  }

  /** One attempt for every process with a pending call, from slot `i` on. */
  function Pass(k: Kernel, i: nat, tty: seq<int>): (k': Kernel)
    requires WellFormed(k) && i <= MAX_NPROCESS && |tty| == MAX_NPROCESS
    ensures WellFormed(k')
    decreases MAX_NPROCESS - i
  {
    if i == MAX_NPROCESS then k
    else if k.procs[i].status == Requesting then Pass(SyscallHandle(k.(curr := i), tty[i]), i + 1, tty)
    else Pass(k, i + 1, tty)
  }

  function ExternalHandle(k: Kernel, e: Ext): (k': Kernel)
    requires WellFormed(k) && ExtOk(e)
    ensures WellFormed(k')
  {
    Pass(if e.ctrlC then Special(k, 0, false, e.killall) else k, 0, e.tty).(curr := k.curr)
  }

  // ----- scheduling

  predicate Candidate(s: Status) {
    s == Ready || s == Running || s == Runnable
  }

  /** The first process that can run, `i` slots or more after the current one. */
  function NextFrom(k: Kernel, i: nat): (r: Option<nat>)
    requires WellFormed(k) && 1 <= i <= MAX_NPROCESS + 1
    ensures r.Some? ==> r.value < MAX_NPROCESS && Candidate(k.procs[r.value].status)
    decreases MAX_NPROCESS + 1 - i
  {
    if i > MAX_NPROCESS then None
    else if Candidate(k.procs[(k.curr + i) % MAX_NPROCESS].status) then Some((k.curr + i) % MAX_NPROCESS)
    else NextFrom(k, i + 1)
  }

  function Dispatch(k: Kernel, next: nat): (k': Kernel)
    requires WellFormed(k) && next < MAX_NPROCESS
    ensures WellFormed(k')
  {
    var k1 := if k.procs[k.curr].status == Running then SetCurrStatus(k, Runnable) else k;
    SetCurrStatus(k1.(curr := next, waiting := false), Running)
  }

  /** Looks for a process to run, waiting for interrupts as long as there is none. */
  function YieldLoop(k: Kernel, exts: seq<Ext>): (k': Kernel)
    requires WellFormed(k) && forall e :: e in exts ==> ExtOk(e)
    ensures WellFormed(k')
    decreases |exts|
  {
    match NextFrom(k, 1)
    case Some(next) => Dispatch(k, next)
    case None =>
      if exts == [] then k.(waiting := true)
      else
        assert exts[0] in exts;
        YieldLoop(ExternalHandle(k, exts[0]), exts[1..])
  }

  // ----- events

  /** Everything that happens between two moments of user execution: the running
      process traps or stores into its record, the timer or a device interrupts, a server
      manages processes, or, with nobody to run, an interrupt arrives. */
  datatype Event =
    | Trap(tty: int, e: Ext, exts: seq<Ext>)
    | Timer(e: Ext, exts: seq<Ext>)
    | External(e0: Ext, e: Ext, exts: seq<Ext>)
    | Store(sc: Syscall)
    | NewProcess(sc: Syscall)
    | FreeProcess(pid: int)
    | MakeReady(pid: int)
    | Wake(e: Ext, exts: seq<Ext>)

  ghost predicate EventOk(k: Kernel, ev: Event)
    requires WellFormed(k)
  {
    match ev
    case Trap(_, e, exts) => !k.waiting && ExtOk(e) && (forall x :: x in exts ==> ExtOk(x))
    case Timer(e, exts) => !k.waiting && CurrPid(k) >= GPID_SHELL && ExtOk(e) && (forall x :: x in exts ==> ExtOk(x))
    case External(e0, e, exts) => !k.waiting && ExtOk(e0) && ExtOk(e) && (forall x :: x in exts ==> ExtOk(x))
    case Store(_) => !k.waiting
    case NewProcess(_) => !k.waiting && FirstUnused(k.procs, 0) < |k.procs|
    case FreeProcess(pid) => !k.waiting && (pid == -1 || pid > 0)
    case MakeReady(pid) => !k.waiting && pid > 0
    case Wake(e, exts) => k.waiting && ExtOk(e) && (forall x :: x in exts ==> ExtOk(x))
  }

  /** The state in which the event's search for a process to run starts. */
  ghost function BeforeYield(k: Kernel, ev: Event): (k': Kernel)
    requires WellFormed(k) && EventOk(k, ev)
    ensures WellFormed(k')
  {
    match ev
    case Trap(tty, e, _) => ExternalHandle(SyscallHandle(k, tty), e)
    case Timer(e, _) => ExternalHandle(k, e)
    case External(e0, e, _) => ExternalHandle(ExternalHandle(k, e0), e)
    case Wake(e, _) => ExternalHandle(k, e)
    case _ => k
  }

  ghost function Step(k: Kernel, ev: Event): (k': Kernel)
    requires WellFormed(k) && EventOk(k, ev)
    ensures WellFormed(k')
  {
    match ev
    case Store(sc) => SetCall(k, sc)
    case NewProcess(sc) => Alloc(k, sc).value
    case FreeProcess(pid) => Free(k, pid)
    case MakeReady(pid) => SetReady(k, pid)
    case _ => YieldLoop(BeforeYield(k, ev), ev.exts)
  }

  ghost predicate RunOk(k: Kernel, evs: seq<Event>)
    requires WellFormed(k)
    decreases |evs|
  {
    evs == [] || (EventOk(k, evs[0]) && RunOk(Step(k, evs[0]), evs[1..]))
  }

  ghost function Run(k: Kernel, evs: seq<Event>): (k': Kernel)
    requires WellFormed(k) && RunOk(k, evs)
    ensures WellFormed(k')
    decreases |evs|
  {
    if evs == [] then k else Run(Step(k, evs[0]), evs[1..])
  }

  /** The state in which the first process starts to run. */
  ghost predicate Boot(k: Kernel) {
    && WellFormed(k) && k.curr == 0 && k.nprocs == 1 && k.mailbox == None && !k.waiting
    && k.sent == [] && k.received == []
    && k.procs[0].pid == 1 && k.procs[0].status == Running && !k.procs[0].killable
    && forall i :: 0 < i < MAX_NPROCESS ==> k.procs[i].pid == 0 && k.procs[i].status == Unused && !k.procs[i].killable
  }
}
