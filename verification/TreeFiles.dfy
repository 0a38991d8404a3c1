/** What a treedisk stores, read off the disk alone, and the specification
    functions of its operations. */
module TreeFiles {
  import opened Base
  import opened Radix
  import opened TreeLayout

  /** The walk from block `b`, `level` levels above the data, to offset `off`. */
  function Lookup(d: Disk, b: nat, level: nat, off: nat): (blk: Block)
    decreases level
  {
    if b == 0 || b >= |d| then ZeroBlock()
    else if level == 0 then d[b]
    else Lookup(d, d[b][Prefix(off, level - 1) % 128], level - 1, off)
  }

  /** The contents of a file: one block for every offset below its size. */
  function File(d: Disk, ino: nat): (f: seq<Block>)
    requires 1 + ino / 64 < |d|
    ensures |f| == SizeOf(d, ino)
  {
    seq(SizeOf(d, ino), off requires 0 <= off => Lookup(d, RootOf(d, ino), Height(SizeOf(d, ino)), off))
  }

  /** Writing a block of a file; a write beyond the end leaves zeros in between. */
  function WriteAt(f: seq<Block>, off: nat, blk: Block): (f': seq<Block>) {
    if off < |f| then f[off := blk] else f + seq(off - |f|, _ => ZeroBlock()) + [blk]
  }

  /** A file made longer, with zeros. */
  function Extended(f: seq<Block>, size: nat): (f': seq<Block>) {
    if size <= |f| then f else f + seq(size - |f|, _ => ZeroBlock())
  }

  ghost predicate NoLoose(g: Layout) {
    forall r :: r in g.at ==> !r.Loose?
  }

  ghost predicate HeightsOk(d: Disk, g: Layout)
    requires Shape(d, g)
  {
    forall ino :: 0 <= ino < |g.heights| ==> g.heights[ino] == Height(SizeOf(d, ino))
  }

  /** The invariant between operations. */
  ghost predicate Consistent(d: Disk, g: Layout) {
    Inv(d, g) && NoLoose(g) && HeightsOk(d, g)
  }

  /** The walk finds the data of an offset, from any node on the path to it. */
  lemma {:induction false} LookupIsData(d: Disk, g: Layout, ino: nat, level: nat, off: nat)
    requires Inv(d, g) && ino < |g.heights| && level <= g.heights[ino]
    ensures Lookup(d, Ref(g, Node(ino, level, Prefix(off, level))), level, off) == Data(d, g, ino, off)
  {
    var node := Node(ino, level, Prefix(off, level));
    if node !in g.at {
      if Node(ino, 0, off) in g.at {
        Ancestor(d, g, ino, off, level);
      }
    } else {
      assert g.at[node] != 0 by { assert g.owner[0] == Super; }
      if level > 0 {
        var j := Prefix(off, level - 1) % 128;
        assert SlotsOk(d, g, node);
        assert d[g.at[node]][j] == Ref(g, Child(g, node, j));
        assert Child(g, node, j) == Node(ino, level - 1, Prefix(off, level - 1));
        LookupIsData(d, g, ino, level - 1, off);
      }
    }
  }

  lemma {:induction false} RootIsTop(d: Disk, g: Layout, ino: nat)
    requires Inv(d, g) && ino < |g.heights|
    ensures RootOf(d, ino) == Ref(g, Node(ino, g.heights[ino], 0))
  {
    InodeBlockRole(d, g, ino);
    assert SlotsOk(d, g, Inodes(ino / 64));
    assert Child(g, Inodes(ino / 64), 2 * (ino % 64)) == Node(ino, g.heights[ino], 0);
  }

  /** Below its size, a file reads as its data blocks, with zeros in the holes. */
  lemma {:induction false} FileIsData(d: Disk, g: Layout, ino: nat, off: nat)
    requires Consistent(d, g) && ino < |g.heights| && off < SizeOf(d, ino)
    ensures File(d, ino)[off] == Data(d, g, ino, off)
  {
    HigherDigitsZero(off, SizeOf(d, ino), g.heights[ino]);
    RootIsTop(d, g, ino);
    LookupIsData(d, g, ino, g.heights[ino], off);
  }

  lemma {:induction false} BeyondIsZero(d: Disk, g: Layout, ino: nat, off: nat)
    requires Inv(d, g) && ino < |g.heights| && off >= SizeOf(d, ino)
    ensures Data(d, g, ino, off) == ZeroBlock()
  {
  }

  /** Reading looks at the blocks of the trees only. */
  lemma {:induction false} LookupFrame(d: Disk, d': Disk, g: Layout, ino: nat, level: nat, off: nat)
    requires Inv(d, g) && |d'| == |d| && ino < |g.heights| && level <= g.heights[ino]
    requires forall x :: 0 <= x < |d| && g.owner[x].Node? ==> d'[x] == d[x]
    ensures var b := Ref(g, Node(ino, level, Prefix(off, level)));
      Lookup(d', b, level, off) == Lookup(d, b, level, off)
  {
    var node := Node(ino, level, Prefix(off, level));
    if node in g.at && level > 0 {
      var j := Prefix(off, level - 1) % 128;
      assert SlotsOk(d, g, node);
      assert Child(g, node, j) == Node(ino, level - 1, Prefix(off, level - 1));
      LookupFrame(d, d', g, ino, level - 1, off);
    }
  }

  lemma {:induction false} FileFrame(d: Disk, g: Layout, d': Disk, ino: nat)
    requires Consistent(d, g) && |d'| == |d| && ino < |g.heights|
    requires forall x :: 0 <= x < |d| && g.owner[x].Node? ==> d'[x] == d[x]
    requires SizeOf(d', ino) == SizeOf(d, ino) && RootOf(d', ino) == RootOf(d, ino)
    ensures File(d', ino) == File(d, ino)
  {
    RootIsTop(d, g, ino);
    forall off | 0 <= off < SizeOf(d, ino)
      ensures File(d', ino)[off] == File(d, ino)[off]
    {
      HigherDigitsZero(off, SizeOf(d, ino), g.heights[ino]);
      LookupFrame(d, d', g, ino, g.heights[ino], off);
    }
  }

  /** Every block outside `free`, except the superblock, is as before. */
  ghost predicate Spared(d: Disk, free: set<nat>, d': Disk) {
    |d'| == |d| && forall x :: 0 < x < |d| && x !in free ==> d'[x] == d[x]
  }

  /** Then all files read as before, also if the free list is no longer right. */
  lemma {:induction false} SparedFiles(d: Disk, g: Layout, d': Disk)
    requires Consistent(d, g) && Spared(d, FreeBlocks(g), d')
    ensures forall ino :: 0 <= ino < 64 * g.n ==> File(d', ino) == File(d, ino)
  {
    assert g.owner[0] == Super;
    forall ino | 0 <= ino < 64 * g.n
      ensures File(d', ino) == File(d, ino)
    {
      assert g.owner[1 + ino / 64] == Inodes(ino / 64);
      FileFrame(d, g, d', ino);
    }
  }

  // ----- allocation

  /** The last used slot of a free-list block, or 0 if only the block itself is left. */
  function LastEntry(blk: Block, i: nat): (j: nat)
    requires i < 128
    ensures j <= i
    ensures j > 0 ==> blk[j] != 0
    ensures forall k :: j < k <= i ==> blk[k] == 0
  {
    if i == 0 || blk[i] != 0 then i else LastEntry(blk, i - 1)
  }

  /** Taking one block from the free list: the new disk and the block. */
  function AllocStep(d: Disk): (r: Option<(Disk, Word)>)
    requires |d| > 0
  {
    var b := d[0][1];
    if b == 0 || b >= |d| then None
    else
      var i := LastEntry(d[b], 127);
      if i == 0 then Some((d[0 := d[0][1 := d[b][0]]], b))
      else Some((d[b := d[b][i := 0]], d[b][i]))
  }

  /** What allocation keeps: everything but the free list. */
  ghost predicate Allocated(d: Disk, g: Layout, d': Disk, g': Layout, b: nat) {
    && Inv(d', g')
    && b in FreeBlocks(g) && FreeBlocks(g') == FreeBlocks(g) - {b}
    && 0 < b < |d| && |d'| == |d| == |g.owner|
    && Loose(b) in g'.at && g'.at[Loose(b)] == b
    && g'.n == g.n && g'.heights == g.heights
    && (forall r: Role :: !r.IsFree() && r != Loose(b) ==> (r in g'.at <==> r in g.at) && Ref(g', r) == Ref(g, r))
    && SameData(d, g, d', g')
    && (forall x :: 0 < x < |d| && !g.owner[x].IsFree() ==> d'[x] == d[x] && g'.owner[x] == g.owner[x])
  }

  lemma {:induction false} TopOfFreeList(d: Disk, g: Layout)
    requires Inv(d, g)
    ensures d[0][1] == Ref(g, Chain(g.chain - 1)) < |d|
    ensures d[0][1] == 0 <==> g.chain == 0
    ensures d[0][1] == 0 <==> FreeBlocks(g) == {}
  {
    assert g.owner[0] == Super;
    assert SlotsOk(d, g, Super);
    assert Child(g, Super, 1) == Chain(g.chain - 1);
    var top := Chain(g.chain - 1);
    assert top in g.at ==> RoleOk(g, top);
    if g.chain > 0 {
      assert g.at[top] in FreeBlocks(g);
    } else {
      forall b | 0 <= b < |g.owner|
        ensures !g.owner[b].IsFree()
      {
        assert RoleOk(g, g.owner[b]);
      }
    }
  }

  lemma {:induction false} AllocKeeps(d: Disk, g: Layout) returns (g': Layout)
    requires Inv(d, g)
    ensures AllocStep(d).None? <==> FreeBlocks(g) == {}
    ensures AllocStep(d).Some? ==> Allocated(d, g, AllocStep(d).value.0, g', AllocStep(d).value.1)
  {
    TopOfFreeList(d, g);
    g' := g;
    if g.chain > 0 {
      var top := Chain(g.chain - 1);
      var t := g.at[top];
      var i := LastEntry(d[t], 127);
      var (d', b) := AllocStep(d).value;
      if i == 0 {
        NoLooseFor(d, g, t, top);
        g' := Relabel(g, top, Loose(t)).(chain := g.chain - 1);
        PopChain(d, g, t, d', g');
      } else {
        assert SlotsOk(d, g, top);
        assert d[t][i] == Ref(g, Child(g, top, i));
        NoLooseFor(d, g, b, Entry(g.chain - 1, i));
        g' := Relabel(g, Entry(g.chain - 1, i), Loose(b));
        TakeEntry(d, g, i, b, d', g');
      }
    }
  }

  lemma {:induction false} NoLooseFor(d: Disk, g: Layout, b: nat, r: Role)
    requires Inv(d, g) && r in g.at && g.at[r] == b && !r.Loose?
    ensures Loose(b) !in g.at
  {
    assert Loose(b) in g.at ==> RoleOk(g, Loose(b));
  }

  /** Allocation commutes with a block that is still waiting to be written back,
      as long as that block is no part of the free list. */
  lemma {:induction false} AllocPending(d: Disk, p: nat, blk: Block, g: Layout)
    requires 0 < p < |d| && Inv(d[p := blk], g) && !g.owner[p].IsFree()
    ensures AllocStep(d[p := blk]).None? == AllocStep(d).None?
    ensures AllocStep(d).Some? ==>
      && |AllocStep(d).value.0| == |d|
      && AllocStep(d[p := blk]).value == (AllocStep(d).value.0[p := blk], AllocStep(d).value.1)
  {
    TopOfFreeList(d[p := blk], g);
    var t := d[0][1];
    if t != 0 {
      assert g.owner[t].IsFree();
      var i := LastEntry(d[t], 127);
      if i == 0 {
        assert d[p := blk][0 := d[0][1 := d[t][0]]] == d[0 := d[0][1 := d[t][0]]][p := blk];
      } else {
        assert d[p := blk][t := d[t][i := 0]] == d[t := d[t][i := 0]][p := blk];
      }
    }
  }

  /** Allocation changes blocks of the free list only. */
  lemma {:induction false} AllocSpares(d: Disk, p: nat, blk: Block, g: Layout)
    requires 0 < p < |d| && Inv(d[p := blk], g) && !g.owner[p].IsFree() && AllocStep(d).Some?
    ensures AllocStep(d).value.1 in FreeBlocks(g)
    ensures Spared(d, FreeBlocks(g), AllocStep(d).value.0)
  {
    AllocPending(d, p, blk, g);
    TopOfFreeList(d[p := blk], g);
    var _ := AllocKeeps(d[p := blk], g);
  }

  /** The last free block is a list block that lists nothing, so it holds zeros. */
  lemma {:induction false} LastIsZero(d: Disk, g: Layout, b: nat)
    requires Inv(d, g) && AllocStep(d).Some? && b == AllocStep(d).value.1 && FreeBlocks(g) == {b}
    ensures b < |d| && d[b] == ZeroBlock()
  {
    TopOfFreeList(d, g);
    var top := Chain(g.chain - 1);
    assert g.at[top] in FreeBlocks(g);
    assert SlotsOk(d, g, top);
    forall j | 0 <= j < 128
      ensures d[b][j] == 0
    {
      var c := Child(g, top, j);
      assert Ref(g, c) != 0 ==> Ref(g, c) in FreeBlocks(g);
    }
  }

  // ----- the steps of a write

  ghost predicate SameSizes(d: Disk, d': Disk, n: nat)
    requires n < |d| && n < |d'|
  {
    forall ino :: 0 <= ino < 64 * n ==> SizeOf(d', ino) == SizeOf(d, ino)
  }

  lemma {:induction false} SameSizesTrans(d: Disk, d1: Disk, d2: Disk, n: nat)
    requires n < |d| && n < |d1| && n < |d2| && SameSizes(d, d1, n) && SameSizes(d1, d2, n)
    ensures SameSizes(d, d2, n)
  {
  }

  /** How many blocks a walk to `off` from block `b` has to allocate. */
  function Missing(d: Disk, b: nat, level: nat, off: nat): (n: nat)
    ensures n <= level + 1
    decreases level
  {
    if b == 0 || b >= |d| then level + 1
    else if level == 0 then 0
    else Missing(d, d[b][Prefix(off, level - 1) % 128], level - 1, off)
  }

  /** Where blocks are missing, zeros are read. */
  lemma {:induction false} MissingReadsZero(d: Disk, b: nat, level: nat, off: nat)
    requires Missing(d, b, level, off) > 0
    ensures Lookup(d, b, level, off) == ZeroBlock()
    decreases level
  {
    if !(b == 0 || b >= |d|) {
      MissingReadsZero(d, d[b][Prefix(off, level - 1) % 128], level - 1, off);
    }
  }

  /** How many blocks a write at `off` takes from the free list: with a taller tree
      needed, one for each new root and one for each level below the new top. */
  function Needed(d: Disk, ino: nat, off: nat): (n: nat)
    requires 1 + ino / 64 < |d|
  {
    var size := SizeOf(d, ino);
    var before := Height(size);
    var after := if off >= size then LevelsFor(off) else before;
    if after > before then after - before + after
    else Missing(d, RootOf(d, ino), before, off)
  }

  /** Allocating a block and writing `x` into it, with block `p` still to be written back. */
  lemma {:induction false} AllocFill(d: Disk, p: nat, blk: Block, g: Layout, x: Block, b: Word, d': Disk)
    returns (g': Layout)
    requires 0 < p < |d| && Inv(d[p := blk], g) && !g.owner[p].IsFree()
    requires AllocStep(d).Some? && b == AllocStep(d).value.1 < |AllocStep(d).value.0|
    requires d' == AllocStep(d).value.0[b := x]
    ensures |d'| == |d| && p != b
    ensures Allocated(d[p := blk], g, d'[p := blk], g', b)
    ensures d'[p := blk][b] == x
  {
    var L := d[p := blk];
    AllocPending(d, p, blk, g);
    g' := AllocKeeps(L, g);
    var L1 := AllocStep(L).value.0;
    assert g.owner[b].IsFree();
    FillLoose(L1, g', b, x, L1[b := x]);
    SameDataTrans(L, g, L1, g', L1[b := x], g');
    assert d'[p := blk] == L1[b := x];
  }

  lemma {:induction false} AllocatedSizes(d: Disk, g: Layout, d': Disk, g': Layout, b: nat)
    requires Inv(d, g) && Allocated(d, g, d', g', b)
    ensures SameSizes(d, d', g.n)
    ensures |FreeBlocks(g')| == |FreeBlocks(g)| - 1
    ensures forall x :: 1 <= x <= g.n ==> d'[x] == d[x]
  {
    assert forall x :: 1 <= x <= g.n ==> g.owner[x] == Inodes(x - 1);
  }

  lemma {:induction false} RootSlotSizes(d: Disk, ino: nat, b: Word, n: nat, d': Disk)
    requires n < |d| && 1 + ino / 64 < |d|
    requires d' == d[1 + ino / 64 := d[1 + ino / 64][2 * (ino % 64) := b]]
    ensures SameSizes(d, d', n) && RootOf(d', ino) == b
  {
  }

  /** The tree of `ino` is one level taller, with block `b` as its root. */
  ghost predicate Grown(d: Disk, g: Layout, d': Disk, g': Layout, ino: nat, b: nat)
    requires Inv(d, g) && ino < |g.heights|
  {
    && Inv(d', g') && NoLoose(g') && |d'| == |d|
    && g'.n == g.n && g'.heights == g.heights[ino := g.heights[ino] + 1]
    && SameData(d, g, d', g')
    && SameSizes(d, d', g.n)
    && FreeBlocks(g') <= FreeBlocks(g) && |FreeBlocks(g')| == |FreeBlocks(g)| - 1
    && RootOf(d', ino) == b && 0 < b < |d| && d'[b] == ZeroBlock()[0 := RootOf(d, ino)]
  }

  lemma {:induction false} GrowReady(d: Disk, g: Layout, d1: Disk, g1: Layout, ino: nat, b: Word, d2: Disk)
    returns (g2: Layout)
    requires Inv(d, g) && NoLoose(g) && ino < |g.heights|
    requires Allocated(d, g, d1, g1, b) && d1[b] == ZeroBlock()[0 := RootOf(d, ino)]
    requires d2 == d1[1 + ino / 64 := d1[1 + ino / 64][2 * (ino % 64) := b]]
    ensures Grows(d1, g1, ino, b, d2, g2)
    ensures NoLoose(g2)
  {
    AllocatedSizes(d, g, d1, g1, b);
    var h := g.heights[ino] + 1;
    g2 := Relabel(g1, Loose(b), Node(ino, h, 0)).(heights := g1.heights[ino := h]);
  }

  lemma {:induction false} GrowAllocated(d: Disk, g: Layout, d1: Disk, g1: Layout, ino: nat, b: Word, d2: Disk)
    returns (g2: Layout)
    requires Inv(d, g) && NoLoose(g) && ino < |g.heights|
    requires Allocated(d, g, d1, g1, b) && d1[b] == ZeroBlock()[0 := RootOf(d, ino)]
    requires d2 == d1[1 + ino / 64 := d1[1 + ino / 64][2 * (ino % 64) := b]]
    ensures Grown(d, g, d2, g2, ino, b)
  {
    g2 := GrowReady(d, g, d1, g1, ino, b, d2);
    Grow(d1, g1, ino, b, d2, g2);
    AllocatedSizes(d, g, d1, g1, b);
    RootSlotSizes(d1, ino, b, g.n, d2);
    SameDataTrans(d, g, d1, g1, d2, g2);
    SameSizesTrans(d, d1, d2, g.n);
    assert d2[b] == d1[b] by { InodeBlockRole(d1, g1, ino); }
  }

  /** One turn of the growing loop: allocate a block, make it the parent of the old
      root, and make it the root. The inode block stays in memory. */
  lemma {:induction false} GrowStep(d: Disk, g: Layout, ino: nat, blk: Block, d': Disk, blk': Block, b: Word)
    returns (g': Layout)
    requires 1 + ino / 64 < |d| && ino < |g.heights|
    requires Inv(d[1 + ino / 64 := blk], g) && NoLoose(g)
    requires AllocStep(d).Some? && b == AllocStep(d).value.1 < |AllocStep(d).value.0|
    requires d' == AllocStep(d).value.0[b := ZeroBlock()[0 := blk[2 * (ino % 64)]]]
    requires blk' == blk[2 * (ino % 64) := b]
    ensures |d'| == |d|
    ensures Grown(d[1 + ino / 64 := blk], g, d'[1 + ino / 64 := blk'], g', ino, b)
  {
    var p := 1 + ino / 64;
    InodeBlockRole(d[p := blk], g, ino);
    var g1 := AllocFill(d, p, blk, g, ZeroBlock()[0 := blk[2 * (ino % 64)]], b, d');
    assert d'[p := blk][p := blk'] == d'[p := blk'];
    g' := GrowAllocated(d[p := blk], g, d'[p := blk], g1, ino, b, d'[p := blk']);
  }

  /** The tree of `ino` has a new node at `level` on the path to `off`, in block `b`. */
  ghost predicate Linked(d: Disk, g: Layout, d': Disk, g': Layout, ino: nat, level: nat, off: nat, b: nat)
    requires Inv(d, g)
  {
    && Inv(d', g') && NoLoose(g') && |d'| == |d|
    && g'.n == g.n && g'.heights == g.heights
    && SameDataBut(d, g, d', g', ino, off)
    && SameSizes(d, d', g.n)
    && |FreeBlocks(g')| == |FreeBlocks(g)| - 1
    && 0 < b < |d| && Node(ino, level, Prefix(off, level)) in g'.at
    && g'.at[Node(ino, level, Prefix(off, level))] == b
  }

  /** The node at `level` on the path to `off` is missing, and its parent is there. */
  ghost predicate Hole(d: Disk, g: Layout, ino: nat, level: nat, off: nat) {
    && Inv(d, g) && NoLoose(g) && ino < |g.heights| && level <= g.heights[ino]
    && Node(ino, level, Prefix(off, level)) !in g.at
    && (level == g.heights[ino] ==> Prefix(off, level) == 0)
    && off < SizeOf(d, ino)
    && ParentRole(g, ino, level, Prefix(off, level)) in g.at
  }

  /** The block and slot that should refer to a node. */
  ghost function Parent(g: Layout, ino: nat, level: nat, off: nat): (p: (nat, int))
    requires ino < |g.heights|
    ensures 0 <= p.1 < 128
  {
    (Ref(g, ParentRole(g, ino, level, Prefix(off, level))), ParentSlot(g, ino, level, Prefix(off, level)))
  }

  lemma {:induction false} LinkSizes(d: Disk, g: Layout, ino: nat, level: nat, index: nat, b: nat, d': Disk, g': Layout)
    requires Links(d, g, ino, level, index, b, d', g')
    ensures |d'| == |d| && SameSizes(d, d', g.n)
  {
  }

  lemma {:induction false} LinkReady(d: Disk, g: Layout, d1: Disk, g1: Layout, ino: nat, level: nat, off: nat,
                                     b: Word, d2: Disk)
    returns (g2: Layout)
    requires Hole(d, g, ino, level, off)
    requires Allocated(d, g, d1, g1, b) && (level > 0 ==> d1[b] == ZeroBlock())
    requires var (p, j) := Parent(g, ino, level, off); p < |d1| && d2 == d1[p := d1[p][j := b]]
    ensures Links(d1, g1, ino, level, Prefix(off, level), b, d2, g2)
    ensures NoLoose(g2)
  {
    AllocatedSizes(d, g, d1, g1, b);
    g2 := Relabel(g1, Loose(b), Node(ino, level, Prefix(off, level)));
    assert SizeOf(d1, ino) == SizeOf(d, ino);
  }

  lemma {:induction false} LinkAllocated(d: Disk, g: Layout, d1: Disk, g1: Layout, ino: nat, level: nat, off: nat,
                                         b: Word, d2: Disk)
    returns (g2: Layout)
    requires Hole(d, g, ino, level, off)
    requires Allocated(d, g, d1, g1, b) && (level > 0 ==> d1[b] == ZeroBlock())
    requires var (p, j) := Parent(g, ino, level, off); p < |d1| && d2 == d1[p := d1[p][j := b]]
    ensures Linked(d, g, d2, g2, ino, level, off, b)
  {
    g2 := LinkReady(d, g, d1, g1, ino, level, off, b, d2);
    Link(d1, g1, ino, level, Prefix(off, level), b, d2, g2);
    LinkFree(d1, g1, ino, level, Prefix(off, level), b, d2, g2);
    LinkData(d1, g1, ino, level, Prefix(off, level), b, d2, g2);
    LinkSizes(d1, g1, ino, level, Prefix(off, level), b, d2, g2);
    AllocatedSizes(d, g, d1, g1, b);
    SameDataButTrans(d, g, d1, g1, d2, g2, ino, off);
    SameSizesTrans(d, d1, d2, g.n);
  }

  lemma {:induction false} UpdatesCommute<T>(s: seq<T>, b: nat, x: T, p: nat, z: T, y: T)
    requires b < |s| && p < |s| && b != p
    ensures s[b := x][p := z][p := y] == s[p := y][b := x]
    ensures x == s[b] ==> s[p := y][b := x] == s[p := y]
  {
  }

  /** One turn of the walk that meets a hole: allocate a block, enter it in the parent
      block held in memory and write the parent. A new indirect block is all holes. */
  lemma {:induction false} LinkStep(d: Disk, p: nat, j: int, blk: Block, g: Layout, ino: nat, level: nat, off: nat,
                                    b: Word, d': Disk)
    returns (g': Layout)
    requires 0 < p < |d| && Hole(d[p := blk], g, ino, level, off) && Parent(g, ino, level, off) == (p, j)
    requires AllocStep(d).Some? && b == AllocStep(d).value.1 < |d| == |AllocStep(d).value.0|
    requires d' == AllocStep(d).value.0[p := blk[j := b]]
    ensures 0 < b && b != p
    ensures Linked(d[p := blk], g, if level > 0 then d'[b := ZeroBlock()] else d', g', ino, level, off, b)
  {
    var a: Disk := AllocStep(d).value.0;
    var x: Block := if level > 0 then ZeroBlock() else a[b];
    var a1: Disk := a[b := x];
    var g1 := AllocFill(d, p, blk, g, x, b, a1);
    var d1: Disk := a1[p := blk];
    var y: Block := blk[j := b];
    var d2: Disk := d1[p := y];
    g' := LinkAllocated(d[p := blk], g, d1, g1, ino, level, off, b, d2);
    UpdatesCommute(a, b, x, p, blk, y);
  }

  // ----- the effect of a whole write

  /** The walk of a write looks at the blocks of one tree only. */
  lemma {:induction false} MissingFrame(d: Disk, d': Disk, g: Layout, ino: nat, level: nat, off: nat)
    requires Inv(d, g) && Inv(d', g) && ino < |g.heights| && level <= g.heights[ino]
    requires forall x :: 0 <= x < |d| && g.owner[x].Node? ==> d'[x] == d[x]
    ensures var b := Ref(g, Node(ino, level, Prefix(off, level)));
      Missing(d', b, level, off) == Missing(d, b, level, off)
  {
    var node := Node(ino, level, Prefix(off, level));
    if node in g.at && level > 0 {
      var j := Prefix(off, level - 1) % 128;
      assert SlotsOk(d, g, node);
      assert Child(g, node, j) == Node(ino, level - 1, Prefix(off, level - 1));
      MissingFrame(d, d', g, ino, level - 1, off);
    }
  }

  /** A tree just made taller has nothing below its root on the path to the offset that
      made it grow. */
  lemma {:induction false} MissingBelowNewTop(d: Disk, ino: nat, off: nat)
    requires 1 + ino / 64 < |d| && off > 0
    requires 0 < RootOf(d, ino) < |d| && forall j :: 1 <= j < 128 ==> d[RootOf(d, ino)][j] == 0
    ensures Missing(d, RootOf(d, ino), LevelsFor(off), off) == LevelsFor(off)
  {
    LevelsDropAll(off);
    var l := LevelsFor(off) - 1;
    assert Prefix(off, l) != 0 && Prefix(off, l + 1) == 0;
  }

  lemma {:induction false} FileWritten(d: Disk, g: Layout, d': Disk, g': Layout, ino: nat, off: nat, blk: Block)
    requires Consistent(d, g) && Consistent(d', g') && g'.n == g.n && ino < 64 * g.n
    requires SameDataBut(d, g, d', g', ino, off) && Data(d', g', ino, off) == blk
    requires SizeOf(d', ino) == if off < SizeOf(d, ino) then SizeOf(d, ino) else off + 1
    ensures File(d', ino) == WriteAt(File(d, ino), off, blk)
  {
    forall o | 0 <= o < SizeOf(d', ino)
      ensures File(d', ino)[o] == WriteAt(File(d, ino), off, blk)[o]
    {
      FileIsData(d', g', ino, o);
      if o < SizeOf(d, ino) {
        FileIsData(d, g, ino, o);
      } else {
        BeyondIsZero(d, g, ino, o);
      }
    }
  }

  /** Nothing written: the file is as before, or longer by zeros. */
  lemma {:induction false} FileExtended(d: Disk, g: Layout, d': Disk, g': Layout, ino: nat)
    requires Consistent(d, g) && Consistent(d', g') && g'.n == g.n && ino < 64 * g.n
    requires SameData(d, g, d', g') && SizeOf(d', ino) >= SizeOf(d, ino)
    ensures File(d', ino) == Extended(File(d, ino), SizeOf(d', ino))
  {
    forall o | 0 <= o < SizeOf(d', ino)
      ensures File(d', ino)[o] == Extended(File(d, ino), SizeOf(d', ino))[o]
    {
      FileIsData(d', g', ino, o);
      if o < SizeOf(d, ino) {
        FileIsData(d, g, ino, o);
      } else {
        BeyondIsZero(d, g, ino, o);
      }
    }
  }

  lemma {:induction false} FileUntouched(d: Disk, g: Layout, d': Disk, g': Layout, ino: nat, off: nat, i: nat)
    requires Consistent(d, g) && Consistent(d', g') && g'.n == g.n && i < 64 * g.n && i != ino
    requires SameDataBut(d, g, d', g', ino, off) && SizeOf(d', i) == SizeOf(d, i)
    ensures File(d', i) == File(d, i)
  {
    forall o | 0 <= o < SizeOf(d, i)
      ensures File(d', i)[o] == File(d, i)[o]
    {
      FileIsData(d', g', i, o);
      FileIsData(d, g, i, o);
    }
  }
}
