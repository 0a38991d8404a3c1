/** The kernel's handlers as they run, each proved to compute the model's function. */
module KernelCode {
  import opened Base
  import opened KernelModel

  class Machine {
    const procs: array<Process>
    var curr: nat
    var nprocs: nat
    var mailbox: Option<Message>
    ghost var sent: seq<Message>
    ghost var received: seq<Message>
    ghost var waiting: bool

    ghost predicate Valid()
      reads this
    {
      procs.Length == MAX_NPROCESS && curr < MAX_NPROCESS
    }

    ghost function View(): (k: Kernel)
      requires Valid()
      reads this, procs
      ensures WellFormed(k)
    {
      Kernel(procs[..], curr, nprocs, mailbox, sent, received, waiting)
    }

    /** The machine at boot, with the first process running. */
    constructor (sc: Syscall)
      ensures Valid() && fresh(procs) && Boot(View())
    {
      procs := new Process[MAX_NPROCESS](i =>
        if i == 0 then Process(1, Running, false, sc) else Process(0, Unused, false, sc));
      curr, nprocs, mailbox, sent, received, waiting := 0, 1, None, [], [], false;
    }

    method SetStatus(pid: int, status: Status)
      requires Valid()
      modifies procs
      ensures View() == old(View()).(procs := KernelModel.SetStatus(old(View()).procs, pid, status))
    {
      var i := 0;
      while i < MAX_NPROCESS
        invariant 0 <= i <= MAX_NPROCESS
        invariant forall j :: i <= j < MAX_NPROCESS ==> procs[j] == old(procs[j])
        invariant forall j :: 0 <= j < i ==>
          procs[j] == if old(procs[j]).pid == pid then old(procs[j]).(status := status) else old(procs[j])
      {
        if procs[i].pid == pid {
          procs[i] := procs[i].(status := status);
        }
        i := i + 1;
      }
      assert procs[..] == KernelModel.SetStatus(old(procs[..]), pid, status);
    }

    method ProcAlloc(sc: Syscall) returns (r: Option<int>)
      requires Valid()
      modifies this`nprocs, procs
      ensures r.None? ==> Alloc(old(View()), sc).None? && View() == old(View())
      ensures r.Some? ==> Alloc(old(View()), sc) == Some(View()) && r.value == nprocs
    {
      var i := 0;
      while i < MAX_NPROCESS
        invariant 0 <= i <= MAX_NPROCESS
        invariant FirstUnused(procs[..], 0) == FirstUnused(procs[..], i)
      {
        if procs[i].status == Unused {
          nprocs := nprocs + 1;
          procs[i] := Process(nprocs, Loading, nprocs >= GPID_USER_START, sc);
          assert procs[..] == old(procs[..])[i := procs[i]];
          return Some(nprocs);
        }
        i := i + 1;
      }
      return None;
    }

    method ProcFree(pid: int)
      requires Valid()
      modifies procs
      ensures View() == Free(old(View()), pid)
    {
      if pid != -1 {
        SetStatus(pid, Unused);
        return;
      }
      var i := 0;
      while i < MAX_NPROCESS
        invariant 0 <= i <= MAX_NPROCESS
        invariant forall j :: i <= j < MAX_NPROCESS ==> procs[j] == old(procs[j])
        invariant forall j :: 0 <= j < i ==> procs[j] == FreeUsers(old(procs[..]))[j]
      {
        if procs[i].pid >= GPID_USER_START && procs[i].status != Unused {
          procs[i] := procs[i].(status := Unused);
        }
        i := i + 1;
      }
      assert procs[..] == FreeUsers(old(procs[..]));
    }

    /** The current process's record. */
    method PutCall(sc: Syscall)
      requires Valid()
      modifies procs
      ensures View() == SetCall(old(View()), sc)
    {
      procs[curr] := procs[curr].(sc := sc);
      assert procs[..] == old(procs[..])[curr := procs[curr]];
    }

    method YSend() returns (rc: int)
      requires Valid()
      modifies this`mailbox, this`sent
      ensures (View(), rc) == TrySend(old(View()))
    {
      if mailbox.Some? {
        return -1;
      }
      var sc := procs[curr].sc;
      mailbox := Some(Message(procs[curr].pid, sc.receiver, sc.content));
      sent := sent + [mailbox.value];
      return 0;
    }

    method YRecv() returns (rc: int)
      requires Valid()
      modifies this`mailbox, this`received, procs
      ensures (View(), rc) == TryRecv(old(View()))
    {
      if mailbox.None? || mailbox.value.receiver != procs[curr].pid {
        return -1;
      }
      var msg := mailbox.value;
      mailbox := None;
      PutCall(procs[curr].sc.(content := msg.content, sender := msg.sender));
      received := received + [Message(procs[curr].sc.sender, procs[curr].pid, procs[curr].sc.content)];
      return 0;
    }

    method SyscallHandle(tty: int)
      requires Valid()
      modifies this`mailbox, this`sent, this`received, procs
      ensures View() == KernelModel.SyscallHandle(old(View()), tty)
    {
      var rc := -1;
      var ty := procs[curr].sc.ty;
      PutCall(procs[curr].sc.(retval := 0, ty := NoCall));
      SetStatus(procs[curr].pid, Requesting);
      match ty {
        case Recv => rc := YRecv();
        case Send => rc := YSend();
        case TtyRead => rc := tty;
        case TtyWrite => rc := tty;
        case _ =>
      }
      if rc == 0 {
        SetStatus(procs[curr].pid, Runnable);
      } else if rc == -1 {
        PutCall(procs[curr].sc.(ty := ty));
      } else {
        SetStatus(procs[curr].pid, Runnable);
        PutCall(procs[curr].sc.(retval := -1));
      }
    }

    /** Makes the process in slot `i` send the kill message. */
    method ForceSend(i: nat, killall: Content)
      requires Valid() && i < MAX_NPROCESS
      modifies procs
      ensures var p := old(procs[i]);
        View() == old(View()).(procs := KernelModel.SetStatus(
          old(View()).procs[i := p.(sc := p.sc.(content := killall, ty := Send))], p.pid, Requesting))
    {
      var p := procs[i];
      procs[i] := p.(sc := p.sc.(content := killall, ty := Send));
      assert procs[..] == old(procs[..])[i := procs[i]];
      SetStatus(p.pid, Requesting);
    }

    method SpecialHandle(killall: Content)
      requires Valid()
      modifies procs
      ensures View() == Special(old(View()), 0, false, killall)
    {
      ghost var end := Special(View(), 0, false, killall);
      var killSent := false;
      var i := 0;
      while i < MAX_NPROCESS
        invariant 0 <= i <= MAX_NPROCESS
        invariant end == Special(View(), i, killSent, killall)
      {
        var p := procs[i];
        if p.pid <= GPID_SHELL && p.status != Unused && p.status != Requesting {
          return;
        }
        if p.killable && p.status != Unused {
          if killSent {
            SetStatus(p.pid, Zombie);
          } else {
            ForceSend(i, killall);
            killSent := true;
          }
        }
        i := i + 1;
      }
    }

    method ExternalHandle(e: Ext)
      requires Valid() && ExtOk(e)
      modifies this`mailbox, this`sent, this`received, this`curr, procs
      ensures Valid() && View() == KernelModel.ExternalHandle(old(View()), e)
    {
      var orig := curr;
      if e.ctrlC {
        SpecialHandle(e.killall);
      }
      ghost var k := View();
      var i := 0;
      while i < MAX_NPROCESS
        invariant 0 <= i <= MAX_NPROCESS && Valid()
        invariant Pass(k, 0, e.tty).(curr := orig) == Pass(View(), i, e.tty).(curr := orig)
      {
        if procs[i].status == Requesting {
          curr := i;
          SyscallHandle(e.tty[i]);
        }
        i := i + 1;
      }
      curr := orig;
    }

    /** Switches to the next process that can run, waiting for interrupts as they come
        while there is none. */
    method ProcYield(e: Ext, exts: seq<Ext>)
      requires Valid() && ExtOk(e) && forall x :: x in exts ==> ExtOk(x)
      modifies this, procs
      ensures Valid() && View() == YieldLoop(KernelModel.ExternalHandle(old(View()), e), exts)
    {
      ExternalHandle(e);
      ghost var k := View();
      var next := FindNext();
      var i := 0;
      while next.None? && i < |exts|
        invariant 0 <= i <= |exts| && Valid()
        invariant next == NextFrom(View(), 1)
        invariant YieldLoop(k, exts) == YieldLoop(View(), exts[i..])
        decreases |exts| - i
      {
        assert exts[i] in exts && exts[i..][1..] == exts[i + 1..];
        ExternalHandle(exts[i]);
        next := FindNext();
        i := i + 1;
      }
      if next.None? {
        waiting := true;
        return;
      }
      if procs[curr].status == Running {
        SetStatus(procs[curr].pid, Runnable);
      }
      curr, waiting := next.value, false;
      SetStatus(procs[curr].pid, Running);
    }

    method FindNext() returns (next: Option<nat>)
      requires Valid()
      ensures next == NextFrom(View(), 1)
    {
      var i := 1;
      while i <= MAX_NPROCESS
        invariant 1 <= i <= MAX_NPROCESS + 1
        invariant NextFrom(View(), 1) == NextFrom(View(), i)
      {
        var idx := (curr + i) % MAX_NPROCESS;
        var status := procs[idx].status;
        if status == Ready || status == Running || status == Runnable {
          return Some(idx);
        }
        i := i + 1;
      }
      return None;
    }

    method ProcSyscall(tty: int, e: Ext, exts: seq<Ext>)
      requires Valid() && !waiting && ExtOk(e) && forall x :: x in exts ==> ExtOk(x)
      modifies this, procs
      ensures Valid() && View() == Step(old(View()), Trap(tty, e, exts))
    {
      SyscallHandle(tty);
      ProcYield(e, exts);
    }

    method ProcExternal(e0: Ext, e: Ext, exts: seq<Ext>)
      requires Valid() && !waiting && ExtOk(e0) && ExtOk(e) && forall x :: x in exts ==> ExtOk(x)
      modifies this, procs
      ensures Valid() && View() == Step(old(View()), External(e0, e, exts))
    {
      ExternalHandle(e0);
      ProcYield(e, exts);
    }
  }
}
