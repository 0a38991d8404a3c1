/** Loading an application: its segment, zeros up to its full size, and the page with
    the arguments of its main function. */
module Loader {
  import opened Base
  import opened Paging
  import opened AddressSpace
  import M = Mmu

  const BLOCK_SIZE := 512
  const APPS_ENTRY := 0x0800_5000
  const APPS_SIZE := 0x3000
  const APPS_ARG := 0x8000_0000
  const CMD_NARGS := 16
  const CMD_ARG_LEN := 32
  const CODE_PAGE: PageNo := APPS_ENTRY / 4096
  const ARG_PAGE: PageNo := APPS_ARG / 4096

  type FileBlock = b: seq<Byte> | |b| == 512 witness seq(512, _ => 0)

  /** Where the executable is read from: block number to block. */
  type Reader = int -> FileBlock

  /** Byte `a` of the segment that starts in block `offset / 512` of the file. */
  function SegmentByte(reader: Reader, offset: nat, a: nat): (x: Byte) {
    reader(offset / 512 + a / 512)[a % 512]
  }

  /** Byte `a` of the image of an application: its segment, then zeros. */
  function ImageByte(reader: Reader, offset: nat, filesz: nat, a: nat): (x: Byte) {
    if a < filesz then SegmentByte(reader, offset, a) else 0
  }

  /** The number of pages of the image. */
  function ImagePages(filesz: nat): (n: nat) {
    if filesz <= APPS_SIZE then 3 else (filesz + 4095) / 4096
  }

  ghost predicate IsImagePage(p: Page, reader: Reader, offset: nat, filesz: nat, k: nat) {
    forall i :: 0 <= i < 4096 ==> p[i] == ImageByte(reader, offset, filesz, 4096 * k + i)
  }

  /** The word that four bytes stand for, as a little-endian machine reads them. */
  function WordOf(b0: Byte, b1: Byte, b2: Byte, b3: Byte): (w: nat) {
    b0 + 0x100 * b1 + 0x1_0000 * b2 + 0x100_0000 * b3
  }

  /** The four bytes of a 32-bit word, lowest first. */
  function WordBytes(w: nat): (bs: seq<Byte>)
    ensures |bs| == 4
  {
    [w % 256, w / 0x100 % 256, w / 0x1_0000 % 256, w / 0x100_0000 % 256]
  }

  lemma {:induction false} WordReadBack(w: Word)
    ensures var bs := WordBytes(w); WordOf(bs[0], bs[1], bs[2], bs[3]) == w
  {
    var a := w / 0x100;
    var b := a / 0x100;
    assert w == 0x100 * a + w % 0x100 && a == 0x100 * b + a % 0x100 && b == 0x100 * (b / 0x100) + b % 0x100;
    assert w / 0x1_0000 == b && w / 0x100_0000 == b / 0x100 < 0x100;
  }

  function Splice(p: Page, off: nat, bs: seq<Byte>): (q: Page)
    requires off + |bs| <= 4096
    ensures forall i :: 0 <= i < 4096 ==> q[i] == if off <= i < off + |bs| then bs[i - off] else p[i]
  {
    p[..off] + bs + p[off + |bs|..]
  }

  /** Pointer `i` of the page of arguments is the address of argument `i` in that page. */
  ghost predicate PointerAt(p: Page, i: nat)
    requires i < CMD_NARGS
  {
    p[4 + 4 * i..8 + 4 * i] == WordBytes(APPS_ARG + 68 + 32 * i)
  }

  /** The page of arguments: the count, a pointer to every argument, the arguments. */
  ghost predicate IsArgPage(p: Page, argc: nat, argv: Option<seq<Byte>>)
    requires argc <= CMD_NARGS && (argv.Some? ==> |argv.value| >= argc * CMD_ARG_LEN)
  {
    && p[..4] == WordBytes(argc)
    && (forall i :: 0 <= i < argc ==> PointerAt(p, i))
    && (argv.Some? ==> forall i :: 0 <= i < argc * 32 ==> p[68 + i] == argv.value[i])
  }

  // ----- runs that only map pages

  /** The state was reached by mapping pages for one process. */
  ghost predicate MapsOnly(vm0: Vm, vm: Vm, ops: seq<Op>, pid: int) {
    && WellFormed(vm0) && pid != vm0.curr && RunAllowed(vm0, ops) && vm == Run(vm0, ops)
    && (forall i :: 0 <= i < NFRAMES && vm0.table[i].use ==> vm0.table[i].pid != pid)
    && (forall op :: op in ops ==> op.Map? && op.pid == pid)
  }

  lemma {:induction false} RunSnoc(vm: Vm, ops: seq<Op>, op: Op)
    requires WellFormed(vm) && RunAllowed(vm, ops) && Allowed(Run(vm, ops), op)
    ensures RunAllowed(vm, ops + [op]) && Run(vm, ops + [op]) == Step(Run(vm, ops), op)
    decreases |ops|
  {
    if ops == [] {
      assert ops + [op] == [op];
    } else {
      assert (ops + [op])[1..] == ops[1..] + [op];
      RunSnoc(Step(vm, ops[0]), ops[1..], op);
    }
  }

  lemma {:induction false} RunInit(vm: Vm, ops: seq<Op>)
    requires WellFormed(vm) && RunAllowed(vm, ops) && ops != []
    ensures var n := |ops| - 1;
      && RunAllowed(vm, ops[..n]) && Allowed(Run(vm, ops[..n]), ops[n])
      && Run(vm, ops) == Step(Run(vm, ops[..n]), ops[n])
    decreases |ops|
  {
    var n := |ops| - 1;
    if n > 0 {
      assert ops[1..][..n - 1] == ops[..n][1..];
      RunInit(Step(vm, ops[0]), ops[1..]);
    }
  }

  function Refilled(op: Op, p: Page): (op': Op)
    requires op.Map?
  {
    Op.Map(op.pid, op.page, op.frame, p)
  }

  /** Changing the page just mapped is the same as having mapped it with the change. */
  lemma {:induction false} PokeLast(vm0: Vm, vm: Vm, ops: seq<Op>, pid: int, p: Page) returns (ops': seq<Op>)
    requires MapsOnly(vm0, vm, ops, pid) && ops != []
    ensures ops[|ops| - 1].Map? && ops[|ops| - 1].frame < NFRAMES
    ensures ops' == ops[..|ops| - 1] + [Refilled(ops[|ops| - 1], p)]
    ensures MapsOnly(vm0, vm.(frames := vm.frames[ops[|ops| - 1].frame := p]), ops', pid)
  {
    var n := |ops| - 1;
    assert ops[n] in ops;
    RunInit(vm0, ops);
    ops' := ops[..n] + [Refilled(ops[n], p)];
    RunSnoc(vm0, ops[..n], Refilled(ops[n], p));
    forall op | op in ops'
      ensures op.Map? && op.pid == pid
    {
      assert op == ops'[n] || op in ops;
    }
  }

  /** The frames that are not in use. */
  ghost function FreeFrames(table: seq<Mapping>): (s: set<nat>) {
    set i | 0 <= i < |table| && !table[i].use
  }

  lemma {:induction false} FreeAtMost(table: seq<Mapping>)
    ensures |FreeFrames(table)| <= |table|
  {
    if table != [] {
      var n := |table| - 1;
      FreeAtMost(table[..n]);
      assert FreeFrames(table) <= FreeFrames(table[..n]) + {n};
      SubsetSize(FreeFrames(table), FreeFrames(table[..n]) + {n});
    }
  }

  /** Every page mapped takes one free frame. */
  lemma {:induction false} MappedAtMost(vm0: Vm, vm: Vm, ops: seq<Op>, pid: int)
    requires MapsOnly(vm0, vm, ops, pid)
    ensures |ops| == |FreeFrames(vm0.table)| - |FreeFrames(vm.table)| <= NFRAMES
    ensures vm.curr == vm0.curr
    ensures forall i :: 0 <= i < NFRAMES && vm.table[i].use && vm.table[i].pid == pid ==>
      exists k :: 0 <= k < |ops| && ops[k].page == vm.table[i].page
    decreases |ops|
  {
    FreeAtMost(vm0.table);
    if ops != [] {
      var n := |ops| - 1;
      RunInit(vm0, ops);
      var v := Run(vm0, ops[..n]);
      MappedAtMost(vm0, v, ops[..n], pid);
      assert ops[n] in ops;
      assert FreeFrames(vm.table) == FreeFrames(v.table) - {ops[n].frame};
      forall i | 0 <= i < NFRAMES && vm.table[i].use && vm.table[i].pid == pid
        ensures exists k :: 0 <= k < |ops| && ops[k].page == vm.table[i].page
      {
        if i != ops[n].frame {
          var k :| 0 <= k < n && ops[..n][k].page == v.table[i].page;
          assert ops[k].page == vm.table[i].page;
        }
      }
    }
  }

  // ----- mapping and filling pages

  /** Allocates a frame and maps it to a page that the process does not have yet. */
  method MapPage(mmu: M.Mmu, pid: int, page: PageNo, ghost vm0: Vm, ghost ops: seq<Op>)
    returns (ok: bool, frame: nat, idx: nat, ghost ops': seq<Op>)
    requires mmu.Valid() && MapsOnly(vm0, mmu.View(), ops, pid)
    requires forall op :: op in ops ==> op.page != page
    modifies mmu.table, mmu.dev`stray, mmu.dev.slots, mmu.dev.pages, mmu.dev.disk
    ensures mmu.Valid()
    ensures !ok ==> |FreeFrames(vm0.table)| == |ops|
    ensures ok ==> frame < NFRAMES && mmu.dev.Holds(idx, frame) && idx < mmu.dev.pages.Length
    ensures ok ==> ops' == ops + [Op.Map(pid, page, frame, mmu.dev.pages[idx])]
    ensures ok ==> MapsOnly(vm0, mmu.View(), ops', pid)
  {
    ghost var vm := mmu.View();
    MappedAtMost(vm0, vm, ops, pid);
    ops' := ops;
    ok, frame, idx := mmu.Alloc();
    if ok {
      mmu.Map(pid, page, frame);
      ghost var op := Op.Map(pid, page, frame, mmu.dev.pages[idx]);
      forall i | 0 <= i < NFRAMES && vm.table[i].use
        ensures (vm.table[i].pid, vm.table[i].page) != (pid, page)
      {
        assert vm.table[i].pid == pid ==> exists k :: 0 <= k < |ops| && ops[k].page == vm.table[i].page;
      }
      RunSnoc(vm0, ops, op);
      ops' := ops + [op];
    }
  }

  /** Overwrites the page mapped last. */
  method Fill(mmu: M.Mmu, pid: int, frame: nat, idx: nat, p: Page, ghost vm0: Vm, ghost ops: seq<Op>)
    returns (ghost ops': seq<Op>)
    requires mmu.Valid() && MapsOnly(vm0, mmu.View(), ops, pid) && ops != []
    requires ops[|ops| - 1].Map? && ops[|ops| - 1].frame == frame < NFRAMES && mmu.dev.Holds(idx, frame)
    modifies mmu.dev.pages
    ensures mmu.Valid() && mmu.dev.Holds(idx, frame) && idx < mmu.dev.pages.Length && mmu.dev.pages[idx] == p
    ensures ops' == ops[..|ops| - 1] + [Refilled(ops[|ops| - 1], p)]
    ensures MapsOnly(vm0, mmu.View(), ops', pid)
  {
    ops' := PokeLast(vm0, mmu.View(), ops, pid, p);
    mmu.dev.Poke(idx, frame, p);
  }

  // ----- loading an application

  /** The operations map the image from its first page on, the first `done` of them with
      their final contents. */
  ghost predicate CodeOps(ops: seq<Op>, pid: int, reader: Reader, offset: nat, filesz: nat, done: int) {
    forall k :: 0 <= k < |ops| ==>
      && ops[k].Map? && ops[k].pid == pid && ops[k].page == CODE_PAGE + k
      && (k < done ==> IsImagePage(ops[k].contents, reader, offset, filesz, k))
  }

  /** The first `n` bytes of page `k` have been read from the file. */
  ghost predicate PartlyRead(p: Page, reader: Reader, offset: nat, k: nat, n: int) {
    forall i :: 0 <= i < n && i < 4096 ==> p[i] == SegmentByte(reader, offset, 4096 * k + i)
  }

  /** The image is loaded up to the first `n` bytes of the page mapped last. */
  ghost predicate Loading(mmu: M.Mmu, vm0: Vm, pid: int, ops: seq<Op>, frame: nat, idx: nat,
                          reader: Reader, offset: nat, filesz: nat, n: int)
    reads mmu, mmu.table, mmu.dev, mmu.dev.slots, mmu.dev.pages, mmu.dev.disk
  {
    && mmu.Valid() && MapsOnly(vm0, mmu.View(), ops, pid)
    && CodeOps(ops, pid, reader, offset, filesz, |ops| - 1)
    && (ops != [] ==>
          var last := |ops| - 1;
          && ops[last].frame == frame < NFRAMES && mmu.dev.Holds(idx, frame) && idx < mmu.dev.pages.Length
          && ops[last].contents == mmu.dev.pages[idx]
          && PartlyRead(mmu.dev.pages[idx], reader, offset, last, n))
  }

  /** A page read to its end is final if the segment goes on past it. */
  lemma {:induction false} PageDone(p: Page, reader: Reader, offset: nat, filesz: nat, k: nat)
    requires PartlyRead(p, reader, offset, k, 4096) && 4096 * (k + 1) <= filesz
    ensures IsImagePage(p, reader, offset, filesz, k)
  {
  }

  /** The last page of a segment, with the bytes past its end cleared, is final. */
  lemma {:induction false} LastPageDone(p: Page, reader: Reader, offset: nat, filesz: nat, k: nat, filled: nat, q: Page)
    requires filesz == 4096 * k + filled && filled <= 4096 && PartlyRead(p, reader, offset, k, filled)
    requires q == Splice(p, filled, seq(4096 - filled, _ => 0))
    ensures IsImagePage(q, reader, offset, filesz, k)
  {
  }

  /** The last of the pages of a segment holds the rest of it. */
  lemma {:induction false} PageCount(filesz: nat, n: nat)
    requires n == (filesz + 4095) / 4096
    ensures filesz % 4096 != 0 ==> n > 0 && filesz == 4096 * (n - 1) + filesz % 4096
    ensures filesz % 4096 == 0 ==> filesz == 4096 * n
  {
  }

  /** Reading one more block into a page. */
  lemma {:induction false} BlockRead(p: Page, reader: Reader, offset: nat, k: nat, n: nat, q: Page)
    requires n % 512 == 0 && n < 4096 && PartlyRead(p, reader, offset, k, n)
    requires q == Splice(p, n, reader(offset / 512 + 8 * k + n / 512))
    ensures PartlyRead(q, reader, offset, k, n + 512)
  {
  }

  /** Starts the next page of the image, once the one before it is full. */
  method NextPage(mmu: M.Mmu, pid: int, codeStart: nat, frame: nat, idx: nat,
                  ghost vm0: Vm, ghost ops: seq<Op>, ghost reader: Reader, ghost offset: nat, ghost filesz: nat)
    returns (ok: bool, frame': nat, idx': nat, ghost ops': seq<Op>)
    requires Loading(mmu, vm0, pid, ops, frame, idx, reader, offset, filesz, 4096) && 4096 * |ops| <= filesz
    requires codeStart == CODE_PAGE + |ops|
    modifies mmu.table, mmu.dev`stray, mmu.dev.slots, mmu.dev.pages, mmu.dev.disk
    ensures mmu.Valid()
    ensures !ok ==> |FreeFrames(vm0.table)| == |ops|
    ensures ok ==> |ops'| == |ops| + 1
    ensures ok ==> Loading(mmu, vm0, pid, ops', frame', idx', reader, offset, filesz, 0)
  {
    MappedAtMost(vm0, mmu.View(), ops, pid);
    if ops != [] {
      PageDone(mmu.dev.pages[idx], reader, offset, filesz, |ops| - 1);
    }
    ok, frame', idx', ops' := MapPage(mmu, pid, codeStart, vm0, ops);
  }

  /** Reads one block into the page mapped last. */
  method ReadInto(mmu: M.Mmu, pid: int, frame: nat, idx: nat, n: nat, block: FileBlock,
                  ghost vm0: Vm, ghost ops: seq<Op>, ghost reader: Reader, ghost offset: nat, ghost filesz: nat)
    returns (ghost ops': seq<Op>)
    requires ops != [] && Loading(mmu, vm0, pid, ops, frame, idx, reader, offset, filesz, n)
    requires n % 512 == 0 && n < 4096 && block == reader(offset / 512 + 8 * (|ops| - 1) + n / 512)
    modifies mmu.dev.pages
    ensures |ops'| == |ops| && Loading(mmu, vm0, pid, ops', frame, idx, reader, offset, filesz, n + 512)
  {
    var q := Splice(mmu.dev.pages[idx], n, block);
    BlockRead(mmu.dev.pages[idx], reader, offset, |ops| - 1, n, q);
    ops' := Fill(mmu, pid, frame, idx, q, vm0, ops);
  }

  /** Offset `off` is the end of what `n` pages hold. */
  ghost predicate InPage(off: nat, n: nat) {
    if off == 0 then n == 0 else 4096 * (n - 1) < off <= 4096 * n
  }

  lemma {:induction false} OffsetInPage(off: nat, n: nat)
    requires off % 512 == 0 && InPage(off, n)
    ensures off % 4096 == 0 ==> off == 4096 * n
    ensures off % 4096 != 0 ==> n > 0 && off % 4096 == off - 4096 * (n - 1)
    ensures var m := if off % 4096 == 0 then n + 1 else n;
      InPage(off + 512, m) && off / 512 == 8 * (m - 1) + off % 4096 / 512 && off % 4096 % 512 == 0
  {
  }

  /** The loop that reads the segment, a block at a time. */
  method LoadSegment(mmu: M.Mmu, pid: int, reader: Reader, filesz: nat, offset: nat, ghost vm0: Vm)
    returns (ok: bool, ghost ops: seq<Op>, frame: nat, idx: nat, codeStart: nat)
    requires mmu.Valid() && MapsOnly(vm0, mmu.View(), [], pid)
    modifies mmu.table, mmu.dev`stray, mmu.dev.slots, mmu.dev.pages, mmu.dev.disk
    ensures mmu.Valid()
    ensures !ok ==> |FreeFrames(vm0.table)| < (filesz + 4095) / 4096
    ensures ok ==> codeStart == CODE_PAGE + |ops| && |ops| == (filesz + 4095) / 4096
    ensures ok ==> Loading(mmu, vm0, pid, ops, frame, idx, reader, offset, filesz, filesz - 4096 * (|ops| - 1))
  {
    var blockOffset := offset / BLOCK_SIZE;
    ok, ops, frame, idx, codeStart := true, [], 0, 0, CODE_PAGE;
    var off := 0;
    while off < filesz
      invariant off % 512 == 0 && off < filesz + 512 && blockOffset == offset / 512 + off / 512
      invariant codeStart == CODE_PAGE + |ops| && InPage(off, |ops|)
      invariant mmu.Valid()
      invariant Loading(mmu, vm0, pid, ops, frame, idx, reader, offset, filesz, off - 4096 * (|ops| - 1))
      decreases filesz - off
    {
      OffsetInPage(off, |ops|);
      if off % PAGE_SIZE == 0 {
        ok, frame, idx, ops := NextPage(mmu, pid, codeStart, frame, idx, vm0, ops, reader, offset, filesz);
        if !ok {
          return;
        }
        codeStart := codeStart + 1;
      }
      ops := ReadInto(mmu, pid, frame, idx, off % PAGE_SIZE, reader(blockOffset), vm0, ops, reader, offset, filesz);
      blockOffset := blockOffset + 1;
      off := off + BLOCK_SIZE;
    }
    PagesRead(filesz, off, |ops|);
  }

  lemma {:induction false} PagesRead(filesz: nat, off: nat, n: nat)
    requires InPage(off, n) && off % 512 == 0 && filesz <= off < filesz + 512
    ensures n == (filesz + 4095) / 4096
  {
    if off > 0 {
      assert 8 * (n - 1) < off / 512 <= 8 * n;
    }
  }

  /** All pages of the image that were mapped have their final contents. */
  ghost predicate Imaged(mmu: M.Mmu, vm0: Vm, pid: int, ops: seq<Op>, reader: Reader, offset: nat, filesz: nat)
    reads mmu, mmu.table, mmu.dev, mmu.dev.slots, mmu.dev.pages, mmu.dev.disk
  {
    && mmu.Valid() && MapsOnly(vm0, mmu.View(), ops, pid)
    && CodeOps(ops, pid, reader, offset, filesz, |ops|)
  }

  /** Clears the rest of the last page of the segment. */
  method ClearTail(mmu: M.Mmu, pid: int, filesz: nat, frame: nat, idx: nat,
                   ghost vm0: Vm, ghost ops: seq<Op>, ghost reader: Reader, ghost offset: nat)
    returns (ghost ops': seq<Op>)
    requires |ops| == (filesz + 4095) / 4096
    requires Loading(mmu, vm0, pid, ops, frame, idx, reader, offset, filesz, filesz - 4096 * (|ops| - 1))
    modifies mmu.dev.pages
    ensures |ops'| == |ops| && Imaged(mmu, vm0, pid, ops', reader, offset, filesz)
  {
    ops' := ops;
    var filled := filesz % PAGE_SIZE;
    PageCount(filesz, |ops|);
    if filled != 0 {
      var q := Splice(mmu.dev.pages[idx], filled, seq(PAGE_SIZE - filled, _ => 0));
      LastPageDone(mmu.dev.pages[idx], reader, offset, filesz, |ops| - 1, filled, q);
      ops' := Fill(mmu, pid, frame, idx, q, vm0, ops);
    } else if filesz > 0 {
      PageDone(mmu.dev.pages[idx], reader, offset, filesz, |ops| - 1);
    }
  }

  /** Adds a page of zeros to the image. */
  method ZeroNext(mmu: M.Mmu, pid: int, codeStart: nat,
                  ghost vm0: Vm, ghost ops: seq<Op>, ghost reader: Reader, ghost offset: nat, ghost filesz: nat)
    returns (ok: bool, ghost ops': seq<Op>)
    requires Imaged(mmu, vm0, pid, ops, reader, offset, filesz) && filesz <= 4096 * |ops|
    requires codeStart == CODE_PAGE + |ops|
    modifies mmu.table, mmu.dev`stray, mmu.dev.slots, mmu.dev.pages, mmu.dev.disk
    ensures mmu.Valid()
    ensures !ok ==> |FreeFrames(vm0.table)| == |ops|
    ensures ok ==> |ops'| == |ops| + 1 && Imaged(mmu, vm0, pid, ops', reader, offset, filesz)
  {
    MappedAtMost(vm0, mmu.View(), ops, pid);
    var frame, idx;
    ok, frame, idx, ops' := MapPage(mmu, pid, codeStart, vm0, ops);
    if ok {
      ops' := Fill(mmu, pid, frame, idx, ZeroPage(), vm0, ops');
    }
  }

  lemma {:induction false} PointerStored(p: Page, i: nat, q: Page)
    requires i < CMD_NARGS && q == Splice(p, 4 + 4 * i, WordBytes(APPS_ARG + 68 + 32 * i))
    ensures PointerAt(q, i) && q[..4] == p[..4]
    ensures forall k :: 68 <= k < 4096 ==> q[k] == p[k]
  {
  }

  lemma {:induction false} PointerKept(p: Page, i: nat, q: Page, k: nat)
    requires k < i < CMD_NARGS && q == Splice(p, 4 + 4 * i, WordBytes(APPS_ARG + 68 + 32 * i)) && PointerAt(p, k)
    ensures PointerAt(q, k)
  {
  }

  /** The page of arguments, written over what the frame held before. */
  method WriteArgs(page: Page, argc: nat, argv: Option<seq<Byte>>) returns (p: Page)
    requires argc <= CMD_NARGS && (argv.Some? ==> |argv.value| >= argc * CMD_ARG_LEN)
    ensures IsArgPage(p, argc, argv)
  {
    p := Splice(page, 0, WordBytes(argc));
    if argv.Some? {
      p := Splice(p, 68, argv.value[..argc * CMD_ARG_LEN]);
    }
    var i := 0;
    while i < argc
      invariant 0 <= i <= argc
      invariant p[..4] == WordBytes(argc)
      invariant forall k :: 0 <= k < i ==> PointerAt(p, k)
      invariant argv.Some? ==> forall k :: 0 <= k < argc * 32 ==> p[68 + k] == argv.value[k]
    {
      ghost var before := p;
      p := Splice(p, 4 + 4 * i, WordBytes(APPS_ARG + 4 + 4 * CMD_NARGS + i * CMD_ARG_LEN));
      PointerStored(before, i, p);
      forall k | 0 <= k < i
        ensures PointerAt(p, k)
      {
        assert PointerAt(before, k);
        PointerKept(before, i, p, k);
      }
      i := i + 1;
    }
  }

  /** The pages of an application: the image, the arguments and a page of stack. */
  ghost predicate AppOps(ops: seq<Op>, pid: int, reader: Reader, offset: nat, filesz: nat, argc: nat,
                         argv: Option<seq<Byte>>)
    requires argc <= CMD_NARGS && (argv.Some? ==> |argv.value| >= argc * CMD_ARG_LEN)
  {
    var n := ImagePages(filesz);
    && |ops| == n + 2 && n <= NFRAMES
    && CodeOps(ops[..n], pid, reader, offset, filesz, n)
    && ops[n].Map? && ops[n].pid == pid && ops[n].page == ARG_PAGE && IsArgPage(ops[n].contents, argc, argv)
    && ops[n + 1].Map? && ops[n + 1].pid == pid && ops[n + 1].page == ARG_PAGE + 1
  }

  /** Loads the image of an application: its segment and zeros up to its full size. */
  method LoadImage(mmu: M.Mmu, pid: int, reader: Reader, filesz: nat, offset: nat, ghost vm0: Vm)
    returns (ok: bool, ghost ops: seq<Op>)
    requires mmu.Valid() && MapsOnly(vm0, mmu.View(), [], pid)
    modifies mmu.table, mmu.dev`stray, mmu.dev.slots, mmu.dev.pages, mmu.dev.disk
    ensures mmu.Valid()
    ensures !ok ==> |FreeFrames(vm0.table)| < ImagePages(filesz)
    ensures ok ==> |ops| == ImagePages(filesz) && Imaged(mmu, vm0, pid, ops, reader, offset, filesz)
  {
    var frame, idx, codeStart;
    ok, ops, frame, idx, codeStart := LoadSegment(mmu, pid, reader, filesz, offset, vm0);
    if !ok {
      return;
    }
    PageCount(filesz, |ops|);
    ops := ClearTail(mmu, pid, filesz, frame, idx, vm0, ops, reader, offset);
    while codeStart < (APPS_ENTRY + APPS_SIZE) / PAGE_SIZE
      invariant codeStart == CODE_PAGE + |ops|
      invariant filesz <= 4096 * |ops| && (|ops| <= 3 || |ops| == ImagePages(filesz))
      invariant mmu.Valid() && Imaged(mmu, vm0, pid, ops, reader, offset, filesz)
    {
      ok, ops := ZeroNext(mmu, pid, codeStart, vm0, ops, reader, offset, filesz);
      if !ok {
        return;
      }
      codeStart := codeStart + 1;
    }
  }

  /** Loads an application for a process that has no pages yet. It succeeds exactly when
      there are frames for its image and two more. */
  method LoadApp(mmu: M.Mmu, pid: int, reader: Reader, argc: nat, argv: Option<seq<Byte>>, filesz: nat, offset: nat)
    returns (ok: bool, ghost ops: seq<Op>)
    requires mmu.Valid() && pid != mmu.curr
    requires forall i :: 0 <= i < NFRAMES && mmu.table[i].use ==> mmu.table[i].pid != pid
    requires argc <= CMD_NARGS && (argv.Some? ==> |argv.value| >= argc * CMD_ARG_LEN)
    modifies mmu.table, mmu.dev`stray, mmu.dev.slots, mmu.dev.pages, mmu.dev.disk
    ensures mmu.Valid()
    ensures ok <==> |FreeFrames(old(mmu.table[..]))| >= ImagePages(filesz) + 2
    ensures ok ==> MapsOnly(old(mmu.View()), mmu.View(), ops, pid)
    ensures ok ==> AppOps(ops, pid, reader, offset, filesz, argc, argv)
  {
    ghost var vm0 := mmu.View();
    ok, ops := LoadImage(mmu, pid, reader, filesz, offset, vm0);
    if !ok {
      return;
    }
    MappedAtMost(vm0, mmu.View(), ops, pid);
    ghost var code := ops;
    var frame, idx;
    ok, frame, idx, ops := MapPage(mmu, pid, ARG_PAGE, vm0, ops);
    if !ok {
      return;
    }
    var page := WriteArgs(mmu.dev.pages[idx], argc, argv);
    ops := Fill(mmu, pid, frame, idx, page, vm0, ops);
    ok, frame, idx, ops := MapPage(mmu, pid, ARG_PAGE + 1, vm0, ops);
    if ok {
      assert ops[..|code|] == code;
      MappedAtMost(vm0, mmu.View(), ops, pid);
    }
  }

  // ----- what the application sees

  /** A byte of user memory. */
  function UserByte(memory: map<PageNo, Page>, addr: nat): (x: Byte)
    requires addr < 0x1_0000_0000
  {
    PageAt(memory, addr / 4096)[addr % 4096]
  }

  lemma {:induction false} NotMappedAgain(m: Private, ops: seq<Op>, key: (int, PageNo))
    requires key in m.pages && forall op :: op in ops ==> op.Map? && (op.pid, op.page) != key
    ensures key in PrivateRun(m, ops).pages && PrivateRun(m, ops).pages[key] == m.pages[key]
    decreases |ops|
  {
    if ops != [] {
      assert ops[0] in ops;
      NotMappedAgain(PrivateStep(m, ops[0]), ops[1..], key);
    }
  }

  lemma {:induction false} MappedOnce(m: Private, ops: seq<Op>, pid: int, k: nat)
    requires k < |ops| && forall i :: 0 <= i < |ops| ==> ops[i].Map? && ops[i].pid == pid
    requires forall i, j :: 0 <= i < j < |ops| ==> ops[i].page != ops[j].page
    ensures (pid, ops[k].page) in PrivateRun(m, ops).pages
    ensures PrivateRun(m, ops).pages[(pid, ops[k].page)] == ops[k].contents
    decreases |ops|
  {
    var m' := PrivateStep(m, ops[0]);
    if k == 0 {
      NotMappedAgain(m', ops[1..], (pid, ops[0].page));
    } else {
      MappedOnce(m', ops[1..], pid, k - 1);
    }
  }

  lemma {:induction false} AppPages(ops: seq<Op>, pid: int, reader: Reader, offset: nat, filesz: nat, argc: nat,
                                    argv: Option<seq<Byte>>)
    requires argc <= CMD_NARGS && (argv.Some? ==> |argv.value| >= argc * CMD_ARG_LEN)
    requires AppOps(ops, pid, reader, offset, filesz, argc, argv)
    ensures forall i :: 0 <= i < |ops| ==> ops[i].Map? && ops[i].pid == pid
    ensures forall i, j :: 0 <= i < j < |ops| ==> ops[i].page != ops[j].page
    ensures forall k :: 0 <= k < |ops| - 2 ==>
      ops[k].page == CODE_PAGE + k && IsImagePage(ops[k].contents, reader, offset, filesz, k)
  {
  }

  lemma {:induction false} AddressOf(a: nat)
    ensures (APPS_ENTRY + a) / 4096 == CODE_PAGE + a / 4096 && (APPS_ENTRY + a) % 4096 == a % 4096
  {
  }

  lemma {:induction false} ImageByteInPage(p: Page, reader: Reader, offset: nat, filesz: nat, a: nat)
    requires IsImagePage(p, reader, offset, filesz, a / 4096)
    ensures p[a % 4096] == ImageByte(reader, offset, filesz, a)
  {
  }

  /** A word of user memory. */
  function UserWord(memory: map<PageNo, Page>, addr: nat): (w: nat)
    requires addr + 3 < 0x1_0000_0000
  {
    WordOf(UserByte(memory, addr), UserByte(memory, addr + 1), UserByte(memory, addr + 2), UserByte(memory, addr + 3))
  }

  /** Byte `j` of the argument that a pointer leads to. */
  function ArgByteAt(memory: map<PageNo, Page>, pointer: nat, j: nat): (x: Byte) {
    if pointer + j < 0x1_0000_0000 then UserByte(memory, pointer + j) else 0
  }

  /** Following the pointer to argument `i` leads to the argument. */
  ghost predicate ArgSeen(memory: map<PageNo, Page>, argv: Option<seq<Byte>>, i: nat)
    requires i < CMD_NARGS
  {
    var pointer := UserWord(memory, 0x8000_0004 + 4 * i);
    && pointer + 32 <= 0x1_0000_0000
    && (argv.Some? ==>
          && |argv.value| >= 32 * (i + 1)
          && forall j :: 0 <= j < 32 ==> ArgByteAt(memory, pointer, j) == argv.value[32 * i + j])
  }

  /** A byte of the page of arguments. */
  lemma {:induction false} ArgByte(memory: map<PageNo, Page>, off: nat)
    requires off < 4096
    ensures UserByte(memory, 0x8000_0000 + off) == PageAt(memory, 0x8_0000)[off]
  {
    assert (0x8000_0000 + off) / 4096 == 0x8_0000;
  }

  lemma {:induction false} ArgWord(memory: map<PageNo, Page>, off: nat, w: Word)
    requires off + 4 <= 4096 && PageAt(memory, 0x8_0000)[off..off + 4] == WordBytes(w)
    ensures UserWord(memory, 0x8000_0000 + off) == w
  {
    var p := PageAt(memory, 0x8_0000);
    var bs := p[off..off + 4];
    assert bs[0] == p[off] && bs[1] == p[off + 1] && bs[2] == p[off + 2] && bs[3] == p[off + 3];
    ArgByte(memory, off);
    ArgByte(memory, off + 1);
    ArgByte(memory, off + 2);
    ArgByte(memory, off + 3);
    WordReadBack(w);
  }

  lemma {:induction false} ArgumentSeen(memory: map<PageNo, Page>, argc: nat, argv: Option<seq<Byte>>, i: nat)
    requires argc <= CMD_NARGS && (argv.Some? ==> |argv.value| >= argc * CMD_ARG_LEN) && i < argc
    requires IsArgPage(PageAt(memory, 0x8_0000), argc, argv)
    ensures ArgSeen(memory, argv, i)
  {
    assert PointerAt(PageAt(memory, 0x8_0000), i);
    ArgWord(memory, 4 + 4 * i, 0x8000_0044 + 32 * i);
    var pointer := UserWord(memory, 0x8000_0004 + 4 * i);
    if argv.Some? {
      forall j | 0 <= j < 32
        ensures ArgByteAt(memory, pointer, j) == argv.value[32 * i + j]
      {
        ArgByte(memory, 68 + (32 * i + j));
      }
    }
  }

  /** After an application has been loaded and its process switched in, memory holds the
      segment from the entry point, zeros after it, the number of arguments at the place
      that its main function is given, and after it pointers that lead to the arguments. */
  lemma {:induction false} AppSeesItsImage(vm0: Vm, m: Private, vm: Vm, ops: seq<Op>, pid: int,
                                           reader: Reader, offset: nat, filesz: nat, argc: nat, argv: Option<seq<Byte>>)
    requires Represents(vm0, m) && MapsOnly(vm0, vm, ops, pid)
    requires argc <= CMD_NARGS && (argv.Some? ==> |argv.value| >= argc * CMD_ARG_LEN)
    requires AppOps(ops, pid, reader, offset, filesz, argc, argv)
    ensures forall a :: 0 <= a < 4096 * ImagePages(filesz) ==>
      UserByte(Step(vm, Switch(pid)).memory, 0x0800_5000 + a) == ImageByte(reader, offset, filesz, a)
    ensures UserWord(Step(vm, Switch(pid)).memory, 0x8000_0000) == argc
    ensures forall i :: 0 <= i < argc ==> ArgSeen(Step(vm, Switch(pid)).memory, argv, i)
  {
    var memory := Step(vm, Switch(pid)).memory;
    AppPages(ops, pid, reader, offset, filesz, argc, argv);
    forall k | 0 <= k < |ops|
      ensures PageAt(memory, ops[k].page) == ops[k].contents
    {
      MappedOnce(m, ops, pid, k);
      SwitchedInSeesItsPages(vm0, m, ops, pid, ops[k].page);
    }
    forall a | 0 <= a < 4096 * ImagePages(filesz)
      ensures UserByte(memory, 0x0800_5000 + a) == ImageByte(reader, offset, filesz, a)
    {
      AddressOf(a);
      ImageByteInPage(ops[a / 4096].contents, reader, offset, filesz, a);
      assert ops[a / 4096].page == CODE_PAGE + a / 4096;
    }
    assert ops[|ops| - 2].page == 0x8_0000;
    ArgWord(memory, 0, argc);
    forall i | 0 <= i < argc
      ensures ArgSeen(memory, argv, i)
    {
      ArgumentSeen(memory, argc, argv, i);
    }
  }

  /** A byte of the executable file. */
  function FileByte(reader: Reader, x: nat): (b: Byte) {
    reader(x / 512)[x % 512]
  }

  /** The segment is loaded from its place in the file, whatever the file, exactly when
      that place is the start of a block. */
  lemma {:induction false} SegmentIsFile(offset: nat)
    ensures (forall reader: Reader, a: nat :: SegmentByte(reader, offset, a) == FileByte(reader, offset + a))
            <==> offset % 512 == 0
  {
    if offset % 512 != 0 {
      var block: FileBlock := seq(512, i => if i == 0 then 0 else 1);
      var reader: Reader := _ => block;
      assert SegmentByte(reader, offset, 0) == 0 && FileByte(reader, offset + 0) == 1;
    }
  }
}
