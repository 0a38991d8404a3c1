/** Page tables for Sv32 translation, and the address map they give. */
module Sv32 {
  import opened Base
  import opened Paging

  /** A page of page-table entries. */
  type Table = t: seq<Word> | |t| == 1024 witness seq(1024, _ => 0)

  const FRAME_CACHE_START := 0x8000_4000
  const OS_RWX := 0xF

  function FrameAddr(f: nat): (a: Word)
    requires f < NFRAMES
    ensures a % 4096 == 0
  {
    FRAME_CACHE_START + 4096 * f
  }

  /** The bitwise or of two numbers. */
  function BitOr(x: nat, y: nat): (z: nat)
    decreases x + y
  {
    if x == 0 && y == 0 then 0
    else (if x % 2 == 1 || y % 2 == 1 then 1 else 0) + 2 * BitOr(x / 2, y / 2)
  }

  function Pow2(n: nat): (p: nat)
    ensures p > 0
  {
    if n == 0 then 1 else 2 * Pow2(n - 1)
  }

  /** Or-ing in low bits where they are clear adds them. */
  lemma {:induction false} OrIsPlus(k: nat, n: nat, y: nat)
    requires y < Pow2(n)
    ensures BitOr(k * Pow2(n), y) == k * Pow2(n) + y
    decreases n
  {
    if n == 0 {
      OrZero(k);
    } else {
      var h := k * Pow2(n - 1);
      assert k * Pow2(n) == 2 * h;
      OrIsPlus(k, n - 1, y / 2);
    }
  }

  lemma {:induction false} OrZero(x: nat)
    ensures BitOr(x, 0) == x
  {
    if x != 0 {
      OrZero(x / 2);
    }
  }

  /** An entry: an address with its low twelve bits clear, shifted, and ten flag bits. */
  function Entry(addr: nat, flags: nat): (e: nat) {
    BitOr(addr / 4, flags)
  }

  lemma {:induction false} Pow2Ten()
    ensures Pow2(10) == 1024
  {
  }

  lemma {:induction false} EntryFields(addr: Word, flags: nat)
    requires addr % 4096 == 0 && flags < 1024
    ensures Entry(addr, flags) == addr / 4 + flags < 0x1_0000_0000
    ensures Entry(addr, flags) / 1024 * 4096 == addr && Entry(addr, flags) % 1024 == flags
  {
    var k := addr / 4096;
    Pow2Ten();
    OrIsPlus(k, 10, flags);
    assert addr == 4096 * k && addr / 4 == 1024 * k;
    Fields(k, flags);
  }

  lemma {:induction false} Fields(k: nat, flags: nat)
    requires flags < 1024
    ensures (1024 * k + flags) / 1024 == k && (1024 * k + flags) % 1024 == flags
  {
  }

  // ----- translation

  datatype Translation = Fault | Mapped(addr: nat, flags: nat)

  /** Bit `i` of a number: of an entry, 0 is valid, 1 readable, 2 writable, 3 executable. */
  predicate Bit(e: nat, i: nat) {
    if i == 0 then e % 2 == 1 else Bit(e / 2, i - 1)
  }

  /** Entry not valid, or writable without being readable. */
  predicate Invalid(e: nat) {
    !Bit(e, 0) || (!Bit(e, 1) && Bit(e, 2))
  }

  /** Readable or executable: the entry maps a page, not a further table. */
  predicate IsLeaf(e: nat) {
    Bit(e, 1) || Bit(e, 3)
  }

  /** The flags of an ordinary page: valid and a leaf. */
  predicate LeafFlags(flags: nat) {
    flags < 1024 && !Invalid(flags) && IsLeaf(flags)
  }

  /** The table at a physical address, if that is where tables are kept. */
  function TableAt(mem: seq<Table>, a: nat): (t: Option<Table>) {
    if a >= FRAME_CACHE_START && a % 4096 == 0 && (a - FRAME_CACHE_START) / 4096 < |mem|
    then Some(mem[(a - FRAME_CACHE_START) / 4096])
    else None
  }

  /** The second half of the walk: the entry found in a leaf table. */
  function WalkLeaf(e: Word, va: Word): (t: Translation) {
    if Invalid(e) || !IsLeaf(e) then Fault
    else Mapped(e / 1024 * 4096 + va % 4096, e % 1024)
  }

  /** The address translation process of section 4.3.2 of the RISC-V Privileged
      Architecture, version 1.10, without the accessed and dirty bits. */
  function Walk(mem: seq<Table>, root: nat, va: Word): (t: Translation) {
    match TableAt(mem, root)
    case None => Fault
    case Some(table) =>
      var e := table[va / 0x40_0000];
      if Invalid(e) then Fault
      else if IsLeaf(e) then
        if e / 1024 % 1024 != 0 then Fault else Mapped(e / 0x10_0000 * 0x40_0000 + va % 0x40_0000, e % 1024)
      else
        match TableAt(mem, e / 1024 * 4096)
        case None => Fault
        case Some(leaf) => WalkLeaf(leaf[va / 4096 % 1024], va)
  }

  /** A range of pages to be mapped to themselves. */
  datatype Region = Region(addr: Word, npages: nat, flags: nat)

  predicate Contains(r: Region, va: Word) {
    r.addr <= va < r.addr + 4096 * r.npages
  }

  /** A region starts on a page, stays within one leaf table and has the flags of a page. */
  predicate Fits(r: Region) {
    r.addr % 4096 == 0 && r.addr / 4096 % 1024 + r.npages <= 1024 && LeafFlags(r.flags)
  }

  /** The reference: the identity on the regions, later ones overriding earlier ones. */
  function Identity(rs: seq<Region>, va: Word): (t: Translation) {
    if rs == [] then Fault
    else if Contains(rs[|rs| - 1], va) then Mapped(va, rs[|rs| - 1].flags)
    else Identity(rs[..|rs| - 1], va)
  }

  // ----- building the tables

  /** The root table is in frame `rf`; `leaves[v]` is the frame of the leaf table for
      root entry `v`, or -1. All these frames are in use and different. */
  ghost predicate Tree(mem: seq<Table>, use: seq<bool>, rf: nat, leaves: seq<int>) {
    && |mem| == |use| == NFRAMES && |leaves| == 1024 && rf < NFRAMES && use[rf]
    && (forall v :: 0 <= v < 1024 ==> -1 <= leaves[v] < NFRAMES && leaves[v] != rf)
    && (forall v :: 0 <= v < 1024 && leaves[v] >= 0 ==> use[leaves[v]])
    && (forall v, w :: 0 <= v < w < 1024 && leaves[v] >= 0 ==> leaves[v] != leaves[w])
    && (forall v :: 0 <= v < 1024 ==> mem[rf][v] == if leaves[v] < 0 then 0 else Entry(FrameAddr(leaves[v]), 1))
  }

  /** Translation goes through the leaf table of the address, if it has one. */
  lemma {:induction false} WalkTree(mem: seq<Table>, use: seq<bool>, rf: nat, leaves: seq<int>, va: Word)
    requires Tree(mem, use, rf, leaves)
    ensures Walk(mem, FrameAddr(rf), va) ==
      var f := leaves[va / 0x40_0000];
      if f < 0 then Fault else WalkLeaf(mem[f][va / 4096 % 1024], va)
  {
    TableAtFrame(mem, rf);
    var v := va / 0x40_0000;
    if leaves[v] >= 0 {
      EntryFields(FrameAddr(leaves[v]), 1);
      PointerEntry(FrameAddr(leaves[v]));
      TableAtFrame(mem, leaves[v]);
    }
  }

  lemma {:induction false} TableAtFrame(mem: seq<Table>, f: nat)
    requires |mem| == NFRAMES && f < NFRAMES
    ensures TableAt(mem, FrameAddr(f)) == Some(mem[f])
  {
  }

  /** The address of the table that an entry points to, in 32-bit arithmetic. */
  function TableAddr(e: int): (a: int) {
    e * 4 % 0x1_0000_0000 / 4096 * 4096
  }

  lemma {:induction false} PointerEntry(addr: Word)
    requires addr % 4096 == 0
    ensures !Invalid(addr / 4 + 1) && !IsLeaf(addr / 4 + 1)
    ensures TableAddr(addr / 4 + 1) == addr
  {
    assert addr / 4 + 1 == 1024 * (addr / 4096) + 1;
    FlagBits(addr / 4096, 1);
    assert Bit(1, 0) && !Bit(1, 1) && !Bit(1, 2) && Bit(1, 3) == Bit(0, 2) == Bit(0, 1) == false;
  }

  lemma {:induction false} HalfSum(x: nat, f: nat)
    ensures (2 * x + f) / 2 == x + f / 2 && (2 * x + f) % 2 == f % 2
  {
  }

  /** Multiples of 2^n do not show in the low n bits. */
  lemma {:induction false} LowBits(k: nat, n: nat, f: nat, i: nat)
    requires i < n
    ensures Bit(k * Pow2(n) + f, i) == Bit(f, i)
    decreases i
  {
    var h := k * Pow2(n - 1);
    assert k * Pow2(n) == 2 * h;
    HalfSum(h, f);
    if i > 0 {
      LowBits(k, n - 1, f / 2, i - 1);
    }
  }

  lemma {:induction false} FlagBits(k: nat, flags: nat)
    ensures Invalid(1024 * k + flags) == Invalid(flags) && IsLeaf(1024 * k + flags) == IsLeaf(flags)
  {
    Pow2Ten();
    LowBits(k, 10, flags, 0);
    LowBits(k, 10, flags, 1);
    LowBits(k, 10, flags, 2);
    LowBits(k, 10, flags, 3);
  }

  /** An identity entry translates the addresses of its page to themselves. */
  lemma {:induction false} IdentityEntry(addr: Word, flags: nat, va: Word)
    requires addr % 4096 == 0 && LeafFlags(flags) && addr <= va < addr + 4096
    ensures Entry(addr, flags) < 0x1_0000_0000
    ensures WalkLeaf(Entry(addr, flags), va) == Mapped(va, flags)
  {
    EntryFields(addr, flags);
    FlagBits(addr / 4096, flags);
    assert va % 4096 == va - addr;
  }

  class PageTables {
    var mem: seq<Table>
    var use: seq<bool>
    var root: Word
    var leaf: Word
    ghost var rf: nat
    ghost var leaves: seq<int>
    ghost var mapped: seq<Region>

    /** The tables translate exactly as the regions mapped so far say. */
    ghost predicate Valid()
      reads this
    {
      && Tree(mem, use, rf, leaves) && root == FrameAddr(rf)
      && forall va: Word :: Walk(mem, root, va) == Identity(mapped, va)
    }

    /** There are leaf tables for the regions mapped so far and no others. */
    ghost predicate Minimal()
      reads this
    {
      LeavesFor(leaves, mapped)
    }

    /** How many leaf tables there are frames for, with those that exist already. */
    ghost function Budget(): (n: nat)
      reads this
    {
      |FreeIn(use)| + |LeafTables(mapped)|
    }

    method Alloc() returns (ok: bool, f: nat)
      requires |use| == NFRAMES
      modifies this`use
      ensures ok <==> FreeIn(old(use)) != {}
      ensures ok ==> f < NFRAMES && !old(use)[f] && use == old(use)[f := true]
      ensures ok ==> |FreeIn(use)| == |FreeIn(old(use))| - 1
      ensures !ok ==> use == old(use)
    {
      f := 0;
      while f < NFRAMES
        invariant 0 <= f <= NFRAMES
        invariant forall i :: 0 <= i < f ==> use[i]
      {
        if !use[f] {
          assert f in FreeIn(use);
          use := use[f := true];
          assert FreeIn(use) == FreeIn(old(use)) - {f};
          return true, f;
        }
        f := f + 1;
      }
      return false, 0;
    }

    /** Finds the leaf table of an address, or makes an empty one. */
    method FindLeaf(addr: Word) returns (ok: bool, f: nat)
      requires Valid() && addr % 4096 == 0
      modifies this
      ensures ok <==> old(leaves)[addr / 0x40_0000] >= 0 || FreeIn(old(use)) != {}
      ensures ok ==> Valid() && f < NFRAMES && leaf == FrameAddr(f) && leaves == old(leaves)[addr / 0x40_0000 := f]
      ensures ok ==> |FreeIn(use)| == |FreeIn(old(use))| - if old(leaves)[addr / 0x40_0000] < 0 then 1 else 0
      ensures mapped == old(mapped)
    {
      var vpn1 := addr / 0x40_0000;
      assert (root - FRAME_CACHE_START) / 4096 == rf;
      var e: int := mem[(root - FRAME_CACHE_START) / 4096][vpn1];
      LeafFound(mem, use, rf, leaves, vpn1);
      if e % 2 == 1 {
        assert leaves == leaves[vpn1 := leaves[vpn1]];
        leaf := TableAddr(e);
        return true, (leaf - FRAME_CACHE_START) / 4096;
      }
      ok, f := Alloc();
      if !ok {
        return;
      }
      leaf := FrameAddr(f);
      EntryFields(leaf, 1);
      var r := (root - FRAME_CACHE_START) / 4096;
      mem := mem[f := EmptyTable()];
      mem := mem[r := mem[r][vpn1 := Entry(leaf, 1)]];
      leaves := leaves[vpn1 := f];
      LeafAdded(old(mem), old(use), rf, old(leaves), vpn1, f, mem, use, leaves);
    }

    /** Writes the entries of a region into a leaf table. */
    method WriteEntries(f: nat, addr: Word, npages: nat, flags: nat)
      requires |mem| == NFRAMES && f < NFRAMES && Fits(Region(addr, npages, flags))
      modifies this`mem
      ensures |mem| == NFRAMES && mem == old(mem)[f := mem[f]]
      ensures forall k :: 0 <= k < 1024 ==> mem[f][k] == RegionSlot(Region(addr, npages, flags), old(mem)[f], k, npages)
    {
      var vpn0 := addr / 4096 % 1024;
      var i := 0;
      while i < npages
        invariant 0 <= i <= npages && |mem| == NFRAMES && mem == old(mem)[f := mem[f]]
        invariant forall k :: 0 <= k < 1024 ==> mem[f][k] == RegionSlot(Region(addr, npages, flags), old(mem)[f], k, i)
      {
        PageInRange(addr, npages, i);
        EntryFields(addr + i * 4096, flags);
        mem := mem[f := mem[f][vpn0 + i := Entry(addr + i * 4096, flags)]];
        i := i + 1;
      }
    }

    /** Maps a region to itself. Every address of the region then translates to itself
        with the region's flags, and every other address as before. */
    method SetupIdentityRegion(addr: Word, npages: nat, flags: nat) returns (ok: bool)
      requires Valid() && Minimal() && Fits(Region(addr, npages, flags))
      modifies this
      ensures ok ==> Valid() && Minimal() && mapped == old(mapped) + [Region(addr, npages, flags)]
      ensures ok <==> old(Budget()) >= |LeafTables(old(mapped) + [Region(addr, npages, flags)])|
      ensures ok ==> Budget() == old(Budget())
    {
      ghost var r := Region(addr, npages, flags);
      var f;
      ok, f := FindLeaf(addr);
      LeafCounted(old(leaves), mapped, r, f);
      if !ok {
        return;
      }
      ghost var before := mem;
      WriteEntries(f, addr, npages, flags);
      mapped := mapped + [r];
      RegionStored(before, use, rf, leaves, r, f, mem);
      forall va: Word
        ensures Walk(mem, root, va) == Identity(mapped, va)
      {
        assert mapped[..|mapped| - 1] == old(mapped);
      }
    }

    /** Allocates an empty root table. */
    method NewRoot() returns (ok: bool)
      requires |mem| == |use| == NFRAMES
      modifies this
      ensures ok <==> FreeIn(old(use)) != {}
      ensures ok ==> Valid() && Minimal() && mapped == [] && Budget() == |FreeIn(old(use))| - 1
    {
      var f;
      ok, f := Alloc();
      if !ok {
        return;
      }
      root := FrameAddr(f);
      mem := mem[f := EmptyTable()];
      rf, leaves, mapped := f, seq(1024, _ => -1), [];
      forall va: Word
        ensures Walk(mem, root, va) == Fault
      {
        WalkTree(mem, use, rf, leaves, va);
      }
    }

    /** The first `n` of the regions are mapped, with a given number of tables possible. */
    ghost predicate MappedTo(rs: seq<Region>, n: nat, budget: nat)
      reads this
    {
      Valid() && Minimal() && n <= |rs| && mapped == rs[..n] && Budget() == budget
    }

    /** Maps the next region of a list. */
    method MapNext(addr: Word, npages: nat, flags: nat, ghost rs: seq<Region>, ghost n: nat, ghost budget: nat)
      returns (ok: bool)
      requires MappedTo(rs, n, budget) && n < |rs| && rs[n] == Region(addr, npages, flags) && Fits(rs[n])
      modifies this
      ensures if ok then MappedTo(rs, n + 1, budget) else budget < |LeafTables(rs)|
    {
      NextMapped(rs, n);
      ok := SetupIdentityRegion(addr, npages, flags);
    }

    method MapAll(rs: seq<Region>, ghost budget: nat) returns (ok: bool)
      requires MappedTo(rs, 0, budget) && forall i :: 0 <= i < |rs| ==> Fits(rs[i])
      modifies this
      ensures if ok then MappedTo(rs, |rs|, budget) else budget < |LeafTables(rs)|
    {
      var i := 0;
      while i < |rs|
        invariant 0 <= i <= |rs| && MappedTo(rs, i, budget)
      {
        ok := MapNext(rs[i].addr, rs[i].npages, rs[i].flags, rs, i, budget);
        if !ok {
          return;
        }
        i := i + 1;
      }
      return true;
    }

    method MapItim(ghost rs: seq<Region>, ghost n: nat, ghost budget: nat) returns (ok: bool)
      requires MappedTo(rs, n, budget) && rs[n..] == ItimRegions(8)
      modifies this
      ensures if ok then MappedTo(rs, |rs|, budget) else budget < |LeafTables(rs)|
    {
      assert |rs[n..]| == 8;
      var i := 0;
      while i < 8
        invariant 0 <= i <= 8 && MappedTo(rs, n + i, budget)
      {
        ItimNext(rs, n, i);
        ok := MapNext(0x0800_0000 + i * 0x40_0000, 1024, OS_RWX, rs, n + i, budget);
        if !ok {
          return;
        }
        i := i + 1;
      }
      return true;
    }

    method MapMachine(ghost budget: nat) returns (ok: bool)
      requires MappedTo(AllRegions(), 0, budget)
      modifies this
      ensures if ok then MappedTo(AllRegions(), 15, budget) else budget < 14
    {
      FramesNeeded();
      MachineFits();
      ok := MapAll(MachineRegions(), budget);
      if ok {
        ok := MapItim(AllRegions(), 7, budget);
      }
    }

    /** Builds the tables of the identity map of the machine. Each address of its regions
        translates to itself, readable, writable and executable; every other faults. It
        succeeds exactly with fifteen free frames: a root and fourteen leaf tables. */
    method IdentityMapping() returns (ok: bool)
      requires |mem| == |use| == NFRAMES
      modifies this
      ensures ok ==> Valid() && mapped == AllRegions()
      ensures ok ==> forall va: Word ::
        Walk(mem, root, va) == if MachineAddress(va) then Mapped(va, OS_RWX) else Fault
      ensures Bit(OS_RWX, 0) && Bit(OS_RWX, 1) && Bit(OS_RWX, 2) && Bit(OS_RWX, 3) && OS_RWX < 16
      ensures ok <==> |FreeIn(old(use))| >= 15
    {
      MachineIdentity();
      FramesNeeded();
      ok := NewRoot();
      if ok {
        ok := MapMachine(|FreeIn(old(use))| - 1);
      }
    }
  }

  /** The regions of the machine: timers, interrupt controller, UART, SPI, boot ROM, disk
      image and main memory, then 32 MB of instruction memory, 4 MB at a time. */
  function MachineRegions(): (rs: seq<Region>) {
    [Region(0x0200_0000, 16, OS_RWX), Region(0x0C00_0000, 1024, OS_RWX), Region(0x1001_3000, 1, OS_RWX),
     Region(0x1002_4000, 1, OS_RWX), Region(0x2040_0000, 1024, OS_RWX), Region(0x2080_0000, 1024, OS_RWX),
     Region(0x8000_0000, 1024, OS_RWX)]
  }

  function ItimRegion(i: nat): (r: Region)
    requires i < 8
  {
    Region(0x0800_0000 + i * 0x40_0000, 1024, OS_RWX)
  }

  function ItimRegions(n: nat): (rs: seq<Region>)
    requires n <= 8
    ensures |rs| == n && forall i :: 0 <= i < n ==> rs[i] == ItimRegion(i)
  {
    if n == 0 then [] else ItimRegions(n - 1) + [ItimRegion(n - 1)]
  }

  function AllRegions(): (rs: seq<Region>)
    ensures |rs| == 15 && rs[..7] == MachineRegions()
    ensures rs[7..] == ItimRegions(8)
    ensures forall i :: 0 <= i < 15 ==> rs[i].flags == OS_RWX
  {
    MachineRegions() + ItimRegions(8)
  }

  /** The address map of the machine: timers, instruction memory, interrupt controller,
      UART, SPI, boot ROM and disk image side by side, and main memory. */
  predicate MachineAddress(va: Word) {
    || 0x0200_0000 <= va < 0x0201_0000
    || 0x0800_0000 <= va < 0x0A00_0000
    || 0x0C00_0000 <= va < 0x0C40_0000
    || 0x1001_3000 <= va < 0x1001_4000
    || 0x1002_4000 <= va < 0x1002_5000
    || 0x2040_0000 <= va < 0x20C0_0000
    || 0x8000_0000 <= va < 0x8040_0000
  }

  /** The number of the region that an address of the machine lies in. */
  function RegionOf(va: Word): (i: nat)
    requires MachineAddress(va)
    ensures i < 15 && if i < 7 then Contains(MachineRegions()[i], va) else Contains(ItimRegion(i - 7), va)
  {
    if va < 0x0201_0000 then 0
    else if va < 0x0A00_0000 then 7 + (va - 0x0800_0000) / 0x40_0000
    else if va < 0x0C40_0000 then 1
    else if va < 0x1001_4000 then 2
    else if va < 0x1002_5000 then 3
    else if va < 0x2080_0000 then 4
    else if va < 0x20C0_0000 then 5
    else 6
  }

  ghost predicate InAny(rs: seq<Region>, va: Word) {
    exists i :: 0 <= i < |rs| && Contains(rs[i], va)
  }

  /** With one set of flags for all regions, their order does not matter. */
  lemma {:induction false} IdentityOnRegions(rs: seq<Region>, flags: nat, va: Word)
    requires forall i :: 0 <= i < |rs| ==> rs[i].flags == flags
    ensures Identity(rs, va) == if InAny(rs, va) then Mapped(va, flags) else Fault
  {
    if rs != [] {
      var n := |rs| - 1;
      IdentityOnRegions(rs[..n], flags, va);
      if Contains(rs[n], va) {
        assert InAny(rs, va);
      } else if InAny(rs, va) {
        var i :| 0 <= i < |rs| && Contains(rs[i], va);
        assert Contains(rs[..n][i], va);
      } else {
        assert forall i :: 0 <= i < n ==> rs[..n][i] == rs[i];
      }
    }
  }

  /** Slot `k` of a leaf table after the first `n` entries of a region were written. */
  function RegionSlot(r: Region, table: Table, k: nat, n: nat): (e: int)
    requires k < 1024
  {
    var vpn0 := r.addr / 4096 % 1024;
    if vpn0 <= k < vpn0 + n then Entry(r.addr + (k - vpn0) * 4096, r.flags) else table[k]
  }

  /** The frames that are not in use. */
  ghost function FreeIn(use: seq<bool>): (s: set<nat>) {
    set i | 0 <= i < |use| && !use[i]
  }

  /** The root entries under which regions lie. */
  ghost function LeafTables(rs: seq<Region>): (s: set<nat>) {
    if rs == [] then {} else LeafTables(rs[..|rs| - 1]) + {rs[|rs| - 1].addr / 0x40_0000}
  }

  ghost predicate LeavesFor(leaves: seq<int>, rs: seq<Region>) {
    |leaves| == 1024 && forall v :: 0 <= v < 1024 ==> (leaves[v] >= 0 <==> v in LeafTables(rs))
  }

  lemma {:induction false} LeafCounted(leaves: seq<int>, rs: seq<Region>, r: Region, f: nat)
    requires LeavesFor(leaves, rs)
    ensures LeavesFor(leaves[r.addr / 0x40_0000 := f], rs + [r])
    ensures |LeafTables(rs + [r])| == |LeafTables(rs)| + if leaves[r.addr / 0x40_0000] < 0 then 1 else 0
  {
    LeafTablesAdd(rs, r);
  }

  lemma {:induction false} LeafTablesAdd(rs: seq<Region>, r: Region)
    ensures LeafTables(rs + [r]) == LeafTables(rs) + {r.addr / 0x40_0000}
  {
    assert (rs + [r])[..|rs|] == rs;
  }

  lemma {:induction false} LeafTablesGrow(rs: seq<Region>, n: nat)
    requires n <= |rs|
    ensures LeafTables(rs[..n]) <= LeafTables(rs) && |LeafTables(rs[..n])| <= |LeafTables(rs)|
  {
    var m := |rs| - 1;
    if n == |rs| {
      assert rs[..n] == rs;
    } else {
      assert rs[..m][..n] == rs[..n];
      LeafTablesGrow(rs[..m], n);
      SubsetSize(LeafTables(rs[..n]), LeafTables(rs));
    }
  }

  lemma {:induction false} NextMapped(rs: seq<Region>, n: nat)
    requires n < |rs|
    ensures rs[..n] + [Region(rs[n].addr, rs[n].npages, rs[n].flags)] == rs[..n + 1]
    ensures |LeafTables(rs[..n + 1])| <= |LeafTables(rs)|
  {
    LeafTablesGrow(rs, n + 1);
  }

  lemma {:induction false} MachineLeafTables()
    ensures LeafTables(MachineRegions()) == {8, 48, 64, 129, 130, 512}
  {
    var rs := MachineRegions();
    assert LeafTables(rs[..0]) == {};
    assert rs[..1] == rs[..0] + [rs[0]] && rs[..2] == rs[..1] + [rs[1]] && rs[..3] == rs[..2] + [rs[2]];
    LeafTablesAdd(rs[..0], rs[0]);
    LeafTablesAdd(rs[..1], rs[1]);
    LeafTablesAdd(rs[..2], rs[2]);
    assert rs[..4] == rs[..3] + [rs[3]] && rs[..5] == rs[..4] + [rs[4]] && rs[..6] == rs[..5] + [rs[5]];
    LeafTablesAdd(rs[..3], rs[3]);
    LeafTablesAdd(rs[..4], rs[4]);
    LeafTablesAdd(rs[..5], rs[5]);
    assert rs == rs[..6] + [rs[6]];
    LeafTablesAdd(rs[..6], rs[6]);
  }

  lemma {:induction false} ItimFits(i: nat)
    requires i < 8
    ensures Fits(ItimRegion(i)) && ItimRegion(i).addr / 0x40_0000 == 32 + i
  {
    assert ItimRegion(i).addr / 4096 == 1024 * (32 + i);
  }

  lemma {:induction false} ItimNext(rs: seq<Region>, n: nat, i: nat)
    requires n <= |rs| && rs[n..] == ItimRegions(8) && i < 8
    ensures |rs| == n + 8 && rs[n + i] == ItimRegion(i) && Fits(rs[n + i])
  {
    assert rs[n + i] == rs[n..][i];
    ItimFits(i);
  }

  lemma {:induction false} ItimLeafTables(rs: seq<Region>, n: nat)
    requires n <= 8 && forall v :: v in LeafTables(rs) ==> v < 32 || v >= 40
    ensures |LeafTables(rs + ItimRegions(n))| == |LeafTables(rs)| + n
    ensures forall v :: v in LeafTables(rs + ItimRegions(n)) ==> v < 32 + n || v >= 40
  {
    if n == 0 {
      assert rs + ItimRegions(0) == rs;
    } else {
      var r := ItimRegion(n - 1);
      ItimFits(n - 1);
      ItimLeafTables(rs, n - 1);
      assert rs + ItimRegions(n) == rs + ItimRegions(n - 1) + [r];
      LeafTablesAdd(rs + ItimRegions(n - 1), r);
    }
  }

  /** Two devices share a leaf table; otherwise every region has its own. */
  lemma {:induction false} FramesNeeded()
    ensures |LeafTables(MachineRegions())| == 6 && |LeafTables(AllRegions())| == 14
  {
    MachineLeafTables();
    ItimLeafTables(MachineRegions(), 8);
  }

  lemma {:induction false} MachineFits()
    ensures forall i :: 0 <= i < 7 ==> Fits(MachineRegions()[i])
  {
  }

  lemma {:induction false} MachineIdentity()
    ensures forall va: Word ::
      Identity(AllRegions(), va) == if MachineAddress(va) then Mapped(va, OS_RWX) else Fault
    ensures Bit(OS_RWX, 0) && Bit(OS_RWX, 1) && Bit(OS_RWX, 2) && Bit(OS_RWX, 3)
  {
    forall va: Word
      ensures Identity(AllRegions(), va) == if MachineAddress(va) then Mapped(va, OS_RWX) else Fault
    {
      IdentityOnRegions(AllRegions(), OS_RWX, va);
      RegionsAreMachine(va);
    }
    assert Bit(OS_RWX / 2, 0) && Bit(OS_RWX / 2 / 2, 0) && Bit(OS_RWX / 2 / 2 / 2, 0);
    assert Bit(OS_RWX / 2, 2) == Bit(OS_RWX / 2 / 2, 1);
  }

  /** The regions cover the machine's addresses and no others. */
  lemma {:induction false} RegionsAreMachine(va: Word)
    ensures InAny(AllRegions(), va) <==> MachineAddress(va)
  {
    var rs := AllRegions();
    if InAny(rs, va) {
      var i :| 0 <= i < |rs| && Contains(rs[i], va);
      if i < 7 {
        assert rs[i] == rs[..7][i] == MachineRegions()[i];
      } else {
        assert rs[i] == rs[7..][i - 7] == ItimRegion(i - 7);
      }
    }
    if MachineAddress(va) {
      var i := RegionOf(va);
      if i < 7 {
        assert rs[i] == rs[..7][i] == MachineRegions()[i];
      } else {
        assert rs[i] == rs[7..][i - 7] == ItimRegion(i - 7);
      }
      assert Contains(rs[i], va);
    }
  }

  function EmptyTable(): (t: Table)
    ensures forall k :: 0 <= k < 1024 ==> t[k] == 0
  {
    seq(1024, _ => 0)
  }

  lemma {:induction false} PageInRange(addr: Word, npages: nat, i: nat)
    requires addr % 4096 == 0 && addr / 4096 % 1024 + npages <= 1024 && i < npages
    ensures (addr + i * 4096) % 4096 == 0 && addr + i * 4096 < 0x1_0000_0000
  {
  }

  /** A new, empty leaf table changes no translation. */
  lemma {:induction false} LeafAdded(mem: seq<Table>, use: seq<bool>, rf: nat, leaves: seq<int>, v: nat, f: nat,
                                     mem': seq<Table>, use': seq<bool>, leaves': seq<int>)
    requires Tree(mem, use, rf, leaves) && v < 1024 && mem[rf][v] % 2 == 0 && f < NFRAMES && !use[f]
    requires Entry(FrameAddr(f), 1) < 0x1_0000_0000
    requires use' == use[f := true] && leaves' == leaves[v := f]
    requires mem' == mem[f := EmptyTable()][rf := mem[rf][v := Entry(FrameAddr(f), 1)]]
    ensures Tree(mem', use', rf, leaves')
    ensures forall va: Word :: Walk(mem', FrameAddr(rf), va) == Walk(mem, FrameAddr(rf), va)
  {
    if leaves[v] >= 0 {
      EntryFields(FrameAddr(leaves[v]), 1);
      PointerEntry(FrameAddr(leaves[v]));
    }
    forall va: Word
      ensures Walk(mem', FrameAddr(rf), va) == Walk(mem, FrameAddr(rf), va)
    {
      WalkTree(mem, use, rf, leaves, va);
      WalkTree(mem', use', rf, leaves', va);
    }
  }

  /** What the entries of a region, written into its leaf table, do to one address of
      that table. */
  lemma {:induction false} StoredAt(r: Region, table: Table, table': Table, va: Word)
    requires Fits(r) && va / 0x40_0000 == r.addr / 0x40_0000
    requires forall k :: 0 <= k < 1024 ==> table'[k] == RegionSlot(r, table, k, r.npages)
    ensures WalkLeaf(table'[va / 4096 % 1024], va) ==
      if Contains(r, va) then Mapped(va, r.flags) else WalkLeaf(table[va / 4096 % 1024], va)
  {
    RegionIndex(r, va);
    assert table'[va / 4096 % 1024] == RegionSlot(r, table, va / 4096 % 1024, r.npages);
    if Contains(r, va) {
      PageOf(va);
      IdentityEntry(va / 4096 * 4096, r.flags, va);
    }
  }

  lemma {:induction false} PageOf(va: Word)
    ensures va / 4096 * 4096 <= va < va / 4096 * 4096 + 4096 && va / 4096 * 4096 % 4096 == 0
  {
  }

  /** The entries of a region, written into its leaf table, map it to itself. */
  lemma {:induction false} RegionStored(mem: seq<Table>, use: seq<bool>, rf: nat, leaves: seq<int>, r: Region, f: nat,
                                        mem': seq<Table>)
    requires Tree(mem, use, rf, leaves) && Fits(r) && f < NFRAMES && leaves[r.addr / 0x40_0000] == f
    requires |mem'| == NFRAMES && mem' == mem[f := mem'[f]]
    requires forall k :: 0 <= k < 1024 ==> mem'[f][k] == RegionSlot(r, mem[f], k, r.npages)
    ensures Tree(mem', use, rf, leaves)
    ensures forall va: Word ::
      Walk(mem', FrameAddr(rf), va) == if Contains(r, va) then Mapped(va, r.flags) else Walk(mem, FrameAddr(rf), va)
  {
    forall va: Word
      ensures Walk(mem', FrameAddr(rf), va) ==
        if Contains(r, va) then Mapped(va, r.flags) else Walk(mem, FrameAddr(rf), va)
    {
      WalkTree(mem, use, rf, leaves, va);
      WalkTree(mem', use, rf, leaves, va);
      if va / 0x40_0000 == r.addr / 0x40_0000 {
        StoredAt(r, mem[f], mem'[f], va);
      } else {
        RegionIndex(r, va);
      }
    }
  }

  /** An address is in a region exactly when its leaf table and its slot there are. */
  lemma {:induction false} RegionIndex(r: Region, va: Word)
    requires Fits(r)
    ensures var vpn0, k := r.addr / 4096 % 1024, va / 4096 % 1024;
      && (Contains(r, va) <==> va / 0x40_0000 == r.addr / 0x40_0000 && vpn0 <= k < vpn0 + r.npages)
      && (Contains(r, va) ==> r.addr + (k - vpn0) * 4096 == va / 4096 * 4096)
  {
    var p, q := r.addr / 4096, va / 4096;
    assert r.addr == 4096 * p;
    assert p == 1024 * (p / 1024) + p % 1024 && q == 1024 * (q / 1024) + q % 1024;
    assert r.addr / 0x40_0000 == p / 1024 && va / 0x40_0000 == q / 1024;
    assert Contains(r, va) <==> p <= q < p + r.npages;
  }

  lemma {:induction false} LeafFound(mem: seq<Table>, use: seq<bool>, rf: nat, leaves: seq<int>, v: nat)
    requires Tree(mem, use, rf, leaves) && v < 1024
    ensures mem[rf][v] % 2 == 1 <==> leaves[v] >= 0
    ensures leaves[v] >= 0 ==> TableAddr(mem[rf][v]) == FrameAddr(leaves[v])
  {
    if leaves[v] >= 0 {
      EntryFields(FrameAddr(leaves[v]), 1);
      PointerEntry(FrameAddr(leaves[v]));
    }
  }
}
