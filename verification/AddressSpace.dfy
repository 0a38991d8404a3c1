/** Private memories by swapping: one user address space, whose pages are copied to
    and from frames when the running process changes. */
module AddressSpace {
  import opened Paging

  type PageNo = x: int | 0 <= x < 0x10_0000

  datatype Mapping = Mapping(use: bool, pid: int, page: PageNo)

  /** Frames, frame table, the pages of the user address space, and the process whose
      pages are in it. */
  datatype Vm = Vm(frames: seq<Page>, table: seq<Mapping>, memory: map<PageNo, Page>, curr: int)

  function ZeroPage(): (p: Page)
    ensures forall i :: 0 <= i < 4096 ==> p[i] == 0
  {
    seq(4096, _ => 0)
  }

  function PageAt(memory: map<PageNo, Page>, page: PageNo): (p: Page) {
    if page in memory then memory[page] else ZeroPage()
  }

  predicate WellFormed(vm: Vm) {
    |vm.frames| == NFRAMES && |vm.table| == NFRAMES
  }

  /** The frames after the pages of `curr` in the first `k` frames were copied out. */
  function SavedTo(vm: Vm, k: nat): (frames: seq<Page>)
    requires WellFormed(vm) && k <= NFRAMES
    ensures |frames| == NFRAMES
    ensures forall i :: 0 <= i < NFRAMES ==>
      frames[i] == if i < k && vm.table[i].use && vm.table[i].pid == vm.curr
                   then PageAt(vm.memory, vm.table[i].page) else vm.frames[i]
  {
    if k == 0 then vm.frames
    else if vm.table[k - 1].use && vm.table[k - 1].pid == vm.curr
    then SavedTo(vm, k - 1)[k - 1 := PageAt(vm.memory, vm.table[k - 1].page)]
    else SavedTo(vm, k - 1)
  }

  function Saved(vm: Vm): (frames: seq<Page>)
    requires WellFormed(vm)
  {
    SavedTo(vm, NFRAMES)
  }

  /** The address space after the pages of `pid` in the first `k` frames were copied in. */
  function Loaded(vm: Vm, pid: int, k: nat): (memory: map<PageNo, Page>)
    requires WellFormed(vm) && k <= NFRAMES
  {
    if k == 0 then vm.memory
    else if vm.table[k - 1].use && vm.table[k - 1].pid == pid
    then Loaded(vm, pid, k - 1)[vm.table[k - 1].page := vm.frames[k - 1]]
    else Loaded(vm, pid, k - 1)
  }

  /** What can happen: a free frame becomes a page of a process, with given contents;
      the running process stores into a page; the address space is switched to another
      process; the frames of a process are freed, which leaves junk in them. */
  datatype Op =
    | Map(pid: int, page: PageNo, frame: nat, contents: Page)
    | Store(page: PageNo, contents: Page)
    | Switch(pid: int)
    | Free(pid: int, junk: seq<Page>)

  function Cleared(table: seq<Mapping>, pid: int): (t: seq<Mapping>)
    ensures |t| == |table|
    ensures forall i :: 0 <= i < |t| ==>
      t[i] == if table[i].use && table[i].pid == pid then Mapping(false, 0, 0) else table[i]
  {
    seq(|table|, i requires 0 <= i < |table| =>
      if table[i].use && table[i].pid == pid then Mapping(false, 0, 0) else table[i])
  }

  /** The frame is free, and the process has no such page yet. */
  predicate Mappable(vm: Vm, pid: int, page: PageNo, frame: nat)
    requires WellFormed(vm)
  {
    && frame < NFRAMES && !vm.table[frame].use
    && (forall i :: 0 <= i < NFRAMES && vm.table[i].use ==> (vm.table[i].pid, vm.table[i].page) != (pid, page))
  }

  function MapFrame(vm: Vm, pid: int, page: PageNo, frame: nat, contents: Page): (vm': Vm)
    requires WellFormed(vm) && frame < NFRAMES
    ensures WellFormed(vm')
  {
    vm.(frames := vm.frames[frame := contents], table := vm.table[frame := Mapping(true, pid, page)])
  }

  /** Frames are allocated only if unused; a process's frames are for different pages;
      and no frame is added to the process in the address space. */
  predicate Allowed(vm: Vm, op: Op)
    requires WellFormed(vm)
  {
    match op
    case Map(pid, page, frame, _) => Mappable(vm, pid, page, frame) && pid != vm.curr
    case Free(pid, junk) =>
      && |junk| == NFRAMES
      && (forall i :: 0 <= i < NFRAMES && !(vm.table[i].use && vm.table[i].pid == pid) ==> junk[i] == vm.frames[i])
    case _ => true
  }

  function Step(vm: Vm, op: Op): (vm': Vm)
    requires WellFormed(vm) && Allowed(vm, op)
    ensures WellFormed(vm')
  {
    match op
    case Map(pid, page, frame, contents) => MapFrame(vm, pid, page, frame, contents)
    case Store(page, contents) => vm.(memory := vm.memory[page := contents])
    case Switch(pid) =>
      if pid == vm.curr then vm
      else
        var saved := vm.(frames := Saved(vm));
        saved.(memory := Loaded(saved, pid, NFRAMES), curr := pid)
    case Free(pid, junk) => vm.(frames := junk, table := Cleared(vm.table, pid))
  }

  predicate RunAllowed(vm: Vm, ops: seq<Op>)
    requires WellFormed(vm)
    decreases |ops|
  {
    ops == [] || (Allowed(vm, ops[0]) && RunAllowed(Step(vm, ops[0]), ops[1..]))
  }

  function Run(vm: Vm, ops: seq<Op>): (vm': Vm)
    requires WellFormed(vm) && RunAllowed(vm, ops)
    ensures WellFormed(vm')
    decreases |ops|
  {
    if ops == [] then vm else Run(Step(vm, ops[0]), ops[1..])
  }

  // ----- the reference: every process has a memory of its own

  datatype Private = Private(pages: map<(int, PageNo), Page>, curr: int)

  function PrivateStep(m: Private, op: Op): (m': Private) {
    match op
    case Map(pid, page, _, contents) => m.(pages := m.pages[(pid, page) := contents])
    case Store(page, contents) =>
      if (m.curr, page) in m.pages then m.(pages := m.pages[(m.curr, page) := contents]) else m
    case Switch(pid) => m.(curr := pid)
    case Free(pid, _) => m.(pages := map k | k in m.pages && k.0 != pid :: m.pages[k])
  }

  function PrivateRun(m: Private, ops: seq<Op>): (m': Private)
    decreases |ops|
  {
    if ops == [] then m else PrivateRun(PrivateStep(m, ops[0]), ops[1..])
  }

  ghost predicate Mapped(table: seq<Mapping>, k: (int, PageNo)) {
    exists i :: 0 <= i < |table| && table[i].use && (table[i].pid, table[i].page) == k
  }

  /** No two frames in use are for the same page of the same process. */
  ghost predicate Distinct(table: seq<Mapping>) {
    forall i, j :: 0 <= i < j < |table| && table[i].use && table[j].use ==>
      (table[i].pid, table[i].page) != (table[j].pid, table[j].page)
  }

  /** Every private page is where it should be: in the address space if its process is
      switched in, in its frame otherwise. */
  ghost predicate Represents(vm: Vm, m: Private) {
    && WellFormed(vm) && Distinct(vm.table) && vm.curr == m.curr
    && (forall k :: k in m.pages ==> Mapped(vm.table, k))
    && (forall i :: 0 <= i < NFRAMES && vm.table[i].use ==> HoldsPage(vm, m, i))
  }

  ghost predicate HoldsPage(vm: Vm, m: Private, i: nat)
    requires WellFormed(vm) && i < NFRAMES
  {
    var k := (vm.table[i].pid, vm.table[i].page);
    k in m.pages && m.pages[k] == if k.0 == vm.curr then PageAt(vm.memory, k.1) else vm.frames[i]
  }

  /** Copying in gives the process its frames' contents. */
  lemma {:induction false} LoadedPages(vm: Vm, pid: int, k: nat, i: nat)
    requires WellFormed(vm) && Distinct(vm.table) && i < k <= NFRAMES
    requires vm.table[i].use && vm.table[i].pid == pid
    ensures PageAt(Loaded(vm, pid, k), vm.table[i].page) == vm.frames[i]
  {
    if i < k - 1 {
      LoadedPages(vm, pid, k - 1, i);
      var _ := (vm.table[i], vm.table[k - 1]);
    }
  }

  lemma {:induction false} SwitchRefines(vm: Vm, m: Private, pid: int)
    requires Represents(vm, m)
    ensures Represents(Step(vm, Switch(pid)), PrivateStep(m, Switch(pid)))
  {
    if pid != vm.curr {
      var saved := vm.(frames := Saved(vm));
      var vm', m' := Step(vm, Switch(pid)), PrivateStep(m, Switch(pid));
      forall i | 0 <= i < NFRAMES && vm.table[i].use
        ensures HoldsPage(vm', m', i)
      {
        assert HoldsPage(vm, m, i);
        if vm.table[i].pid == pid {
          LoadedPages(saved, pid, NFRAMES, i);
        }
      }
    }
  }

  /** Mapping a page gives the process that page, exactly if the process is not switched
      in or its address space happens to hold the contents already. */
  lemma {:induction false} MapRefines(vm: Vm, m: Private, op: Op)
    requires Represents(vm, m) && op.Map? && Mappable(vm, op.pid, op.page, op.frame)
    ensures Represents(MapFrame(vm, op.pid, op.page, op.frame, op.contents), PrivateStep(m, op)) <==>
      op.pid != vm.curr || PageAt(vm.memory, op.page) == op.contents
  {
    var vm', m' := MapFrame(vm, op.pid, op.page, op.frame, op.contents), PrivateStep(m, op);
    assert HoldsPage(vm', m', op.frame) <==> op.pid != vm.curr || PageAt(vm.memory, op.page) == op.contents;
    assert vm'.table[op.frame].use;
    forall i | 0 <= i < NFRAMES && vm'.table[i].use && i != op.frame
      ensures HoldsPage(vm', m', i)
    {
      assert HoldsPage(vm, m, i);
    }
    forall k | k in m'.pages
      ensures Mapped(vm'.table, k)
    {
      if k != (op.pid, op.page) {
        var i :| 0 <= i < |vm.table| && vm.table[i].use && (vm.table[i].pid, vm.table[i].page) == k;
        assert vm'.table[i].use && i != op.frame;
      }
    }
  }

  lemma {:induction false} FreeRefines(vm: Vm, m: Private, op: Op)
    requires Represents(vm, m) && op.Free? && Allowed(vm, op)
    ensures Represents(Step(vm, op), PrivateStep(m, op))
  {
  }

  lemma {:induction false} StoreRefines(vm: Vm, m: Private, op: Op)
    requires Represents(vm, m) && op.Store?
    ensures Represents(Step(vm, op), PrivateStep(m, op))
  {
    var vm', m' := Step(vm, op), PrivateStep(m, op);
    forall i | 0 <= i < NFRAMES && vm'.table[i].use
      ensures HoldsPage(vm', m', i)
    {
      assert HoldsPage(vm, m, i);
    }
  }

  /** Over every run, swapping through one address space gives private memories. */
  lemma {:induction false} RunRefines(vm: Vm, m: Private, ops: seq<Op>)
    requires Represents(vm, m) && RunAllowed(vm, ops)
    ensures Represents(Run(vm, ops), PrivateRun(m, ops))
    decreases |ops|
  {
    if ops != [] {
      match ops[0] {
        case Map(_, _, _, _) => MapRefines(vm, m, ops[0]);
        case Free(_, _) => FreeRefines(vm, m, ops[0]);
        case Store(_, _) => StoreRefines(vm, m, ops[0]);
        case Switch(pid) => SwitchRefines(vm, m, pid);
      }
      RunRefines(Step(vm, ops[0]), PrivateStep(m, ops[0]), ops[1..]);
    }
  }

  /** Switching back to a process finds each of its pages as it left it, whatever
      happened in between. */
  lemma {:induction false} SwitchedInSeesItsPages(vm: Vm, m: Private, ops: seq<Op>, pid: int, page: PageNo)
    requires Represents(vm, m) && RunAllowed(vm, ops)
    requires (pid, page) in PrivateRun(m, ops).pages
    ensures PageAt(Step(Run(vm, ops), Switch(pid)).memory, page) == PrivateRun(m, ops).pages[(pid, page)]
  {
    RunRefines(vm, m, ops);
    var vm1, m1 := Run(vm, ops), PrivateRun(m, ops);
    SwitchRefines(vm1, m1, pid);
    var vm2 := Step(vm1, Switch(pid));
    assert Mapped(vm2.table, (pid, page));
    var i :| 0 <= i < |vm2.table| && vm2.table[i].use && (vm2.table[i].pid, vm2.table[i].page) == (pid, page);
    assert HoldsPage(vm2, PrivateStep(m1, Switch(pid)), i);
  }

  /** What other processes do cannot touch a process's private pages. */
  lemma {:induction false} OthersLeaveItAlone(m: Private, ops: seq<Op>, pid: int, page: PageNo)
    requires (pid, page) in m.pages && m.curr != pid
    requires forall op :: op in ops ==> (op.Map? || op.Switch? || op.Free? ==> op.pid != pid)
    ensures PrivateRun(m, ops).curr != pid
    ensures (pid, page) in PrivateRun(m, ops).pages
    ensures PrivateRun(m, ops).pages[(pid, page)] == m.pages[(pid, page)]
    decreases |ops|
  {
    if ops != [] {
      assert ops[0] in ops;
      OthersLeaveItAlone(PrivateStep(m, ops[0]), ops[1..], pid, page);
    }
  }
}
