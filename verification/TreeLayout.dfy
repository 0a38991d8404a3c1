/** The on-disk layout of a treedisk file system: what every block is used for,
    and the invariant that ties those uses to the references stored in the blocks. */
module TreeLayout {
  import opened Base
  import opened Radix

  const INODES_PER_BLOCK := 64

  /** A 512-byte block, seen as the 128 words all its uses are made of. */
  type Block = b: seq<Word> | |b| == 128 witness seq(128, _ => 0)

  type Disk = seq<Block>

  function ZeroBlock(): (z: Block)
    ensures forall j :: 0 <= j < 128 ==> z[j] == 0
  {
    seq(128, _ => 0)
  }

  /** What a block is used for. `Chain(k)` is the k-th block of the free list, from
      its end; `Entry(k, j)` the free block listed in slot j of `Chain(k)`;
      `Node(ino, level, index)` a block of a file's tree, data blocks being level 0;
      `Loose(b)` a block taken from the free list and not yet linked anywhere. */
  datatype Role =
    | Super
    | Inodes(k: int)
    | Chain(k: int)
    | Entry(k: int, j: int)
    | Node(ino: int, level: int, index: int)
    | Loose(b: int)
  {
    predicate IsFree() {
      Chain? || Entry?
    }
  }

  /** A use for every block (`owner`) with its inverse (`at`), the number of inode
      blocks, the length of the free list and the height of every inode's tree. */
  datatype Layout = Layout(n: nat, chain: nat, heights: seq<nat>, at: map<Role, nat>, owner: seq<Role>)

  function RootOf(d: Disk, ino: nat): (r: Word)
    requires 1 + ino / 64 < |d|
  {
    d[1 + ino / 64][2 * (ino % 64)]
  }

  function SizeOf(d: Disk, ino: nat): (r: Word)
    requires 1 + ino / 64 < |d|
  {
    d[1 + ino / 64][2 * (ino % 64) + 1]
  }

  /** The block in a given role, or 0 (a hole, or the end of a list). */
  ghost function Ref(g: Layout, r: Role): (b: nat) {
    if r in g.at then g.at[r] else 0
  }

  /** Does slot `j` of a block in role `r` hold a reference? */
  ghost predicate IsSlot(r: Role, j: int) {
    match r
    case Super => j == 1
    case Inodes(_) => j % 2 == 0
    case Chain(_) => true
    case Entry(_, _) => false
    case Node(_, level, _) => level > 0
    case Loose(_) => false
  }

  /** The role of the block that slot `j` of a block in role `r` refers to. */
  ghost function Child(g: Layout, r: Role, j: int): (c: Role)
    requires IsSlot(r, j)
  {
    match r
    case Super => Chain(g.chain - 1)
    case Inodes(k) =>
      var ino := 64 * k + j / 2;
      Node(ino, if 0 <= ino < |g.heights| then g.heights[ino] else 0, 0)
    case Chain(k) => if j == 0 then Chain(k - 1) else Entry(k, j)
    case Node(ino, level, index) => Node(ino, level - 1, 128 * index + j)
  }

  ghost predicate Bijection(g: Layout) {
    && (forall b :: 0 <= b < |g.owner| ==> g.owner[b] in g.at && g.at[g.owner[b]] == b)
    && (forall r :: r in g.at ==> g.at[r] < |g.owner| && g.owner[g.at[r]] == r)
  }

  /** A role is within range, and the block referring to it exists. */
  ghost predicate RoleOk(g: Layout, r: Role) {
    match r
    case Super => true
    case Inodes(k) => 0 <= k < g.n
    case Chain(k) => 0 <= k < g.chain
    case Entry(k, j) => 0 <= k < g.chain && 1 <= j < 128
    case Node(ino, level, index) =>
      && 0 <= ino < |g.heights|
      && 0 <= level <= g.heights[ino]
      && 0 <= index
      && (level == g.heights[ino] ==> index == 0)
      && (level < g.heights[ino] ==> Node(ino, level + 1, index / 128) in g.at)
    case Loose(b) => Ref(g, r) == b
  }

  ghost predicate Fixed(g: Layout) {
    && Super in g.at && g.at[Super] == 0
    && g.n < |g.owner|
    && (forall b :: 1 <= b <= g.n ==> g.owner[b] == Inodes(b - 1))
    && (forall k :: 0 <= k < g.chain ==> Chain(k) in g.at)
  }

  ghost predicate Shape(d: Disk, g: Layout) {
    && |g.owner| == |d| < WORD_LIMIT
    && 1 + g.n <= |d|
    && |g.heights| == 64 * g.n < WORD_LIMIT
    && Bijection(g)
    && Fixed(g)
    && (forall r {:trigger RoleOk(g, r)} :: r in g.at ==> RoleOk(g, r))
  }

  /** The reference slots of the block in role `r` hold the blocks of its child roles. */
  ghost predicate SlotsOk(d: Disk, g: Layout, r: Role) {
    && r in g.at && g.at[r] < |d|
    && forall j :: 0 <= j < 128 && IsSlot(r, j) ==> d[g.at[r]][j] == Ref(g, Child(g, r, j))
  }

  ghost predicate Pointers(d: Disk, g: Layout) {
    forall r {:trigger SlotsOk(d, g, r)} :: r in g.at ==> SlotsOk(d, g, r)
  }

  /** No data block lies at or beyond the size of its file. */
  ghost predicate Sizes(d: Disk, g: Layout)
    requires Shape(d, g)
  {
    && d[0][0] == g.n
    && (forall ino, off :: 0 <= ino < 64 * g.n && Node(ino, 0, off) in g.at ==> off < SizeOf(d, ino))
  }

  ghost predicate Inv(d: Disk, g: Layout) {
    Shape(d, g) && Pointers(d, g) && Sizes(d, g)
  }

  /** The data stored for an offset of a file; a hole stands for zeros. */
  ghost function Data(d: Disk, g: Layout, ino: int, off: int): (blk: Block) {
    if Node(ino, 0, off) in g.at && g.at[Node(ino, 0, off)] < |d|
    then d[g.at[Node(ino, 0, off)]]
    else ZeroBlock()
  }

  ghost predicate SameData(d: Disk, g: Layout, d': Disk, g': Layout) {
    forall i, o :: Data(d', g', i, o) == Data(d, g, i, o)
  }

  /** All data is the same except possibly at offset `off` of file `ino`. */
  ghost predicate SameDataBut(d: Disk, g: Layout, d': Disk, g': Layout, ino: int, off: int) {
    forall i, o :: (i, o) != (ino, off) ==> Data(d', g', i, o) == Data(d, g, i, o)
  }

  lemma {:induction false} SameDataTrans(d: Disk, g: Layout, d1: Disk, g1: Layout, d2: Disk, g2: Layout)
    requires SameData(d, g, d1, g1) && SameData(d1, g1, d2, g2)
    ensures SameData(d, g, d2, g2)
  {
  }

  lemma {:induction false} SameDataButTrans(d: Disk, g: Layout, d1: Disk, g1: Layout, d2: Disk, g2: Layout, ino: int,
                                            off: int)
    requires SameDataBut(d, g, d1, g1, ino, off) || SameData(d, g, d1, g1)
    requires SameDataBut(d1, g1, d2, g2, ino, off) || SameData(d1, g1, d2, g2)
    ensures SameDataBut(d, g, d2, g2, ino, off)
  {
  }

  ghost function FreeBlocks(g: Layout): (s: set<nat>) {
    set b | 0 <= b < |g.owner| && g.owner[b].IsFree()
  }

  // ----- moving a block from one role to another

  ghost function Relabel(g: Layout, from: Role, to: Role): (g': Layout)
    requires from in g.at && g.at[from] < |g.owner|
  {
    Layout(g.n, g.chain, g.heights, (g.at - {from})[to := g.at[from]], g.owner[g.at[from] := to])
  }

  lemma {:induction false} RelabelBijection(g: Layout, from: Role, to: Role)
    requires Bijection(g) && from in g.at && to !in g.at
    ensures Bijection(Relabel(g, from, to))
    ensures from !in Relabel(g, from, to).at
    ensures forall r :: r != from && r != to ==> Ref(Relabel(g, from, to), r) == Ref(g, r)
  {
  }

  // ----- frame lemmas: what a step that leaves a block alone cannot break

  lemma {:induction false} SlotsFrame(d: Disk, g: Layout, d': Disk, g': Layout, r: Role)
    requires SlotsOk(d, g, r) && r in g'.at && g'.at[r] < |d'|
    requires d'[g'.at[r]] == d[g.at[r]]
    requires forall j :: 0 <= j < 128 && IsSlot(r, j) ==>
      Child(g', r, j) == Child(g, r, j) && Ref(g', Child(g, r, j)) == Ref(g, Child(g, r, j))
    ensures SlotsOk(d', g', r)
  {
  }

  lemma {:induction false} SizesFrame(d: Disk, g: Layout, d': Disk, g': Layout)
    requires Shape(d, g) && Sizes(d, g) && Shape(d', g') && g'.n == g.n
    requires d'[0][0] == d[0][0]
    requires forall b :: 1 <= b <= g.n ==> d'[b] == d[b]
    requires forall ino, off :: Node(ino, 0, off) in g'.at ==> Node(ino, 0, off) in g.at
    ensures Sizes(d', g')
  {
  }

  // ----- the two ways of taking a block from the free list

  /** All entries of the first free-list block are used up: take that block itself. */
  ghost predicate Pops(d: Disk, g: Layout, b: nat, d': Disk, g': Layout) {
    && Inv(d, g) && g.chain > 0
    && b == g.at[Chain(g.chain - 1)]
    && (forall j :: 1 <= j < 128 ==> d[b][j] == 0)
    && Loose(b) !in g.at
    && d' == d[0 := d[0][1 := d[b][0]]]
    && g' == Relabel(g, Chain(g.chain - 1), Loose(b)).(chain := g.chain - 1)
  }

  lemma {:induction false} PopShape(d: Disk, g: Layout, b: nat, d': Disk, g': Layout)
    requires Pops(d, g, b, d', g')
    ensures Shape(d', g')
  {
    var top := Chain(g.chain - 1);
    RelabelBijection(g, top, Loose(b));
    assert SlotsOk(d, g, top);
    forall j | 1 <= j < 128
      ensures Ref(g, Entry(top.k, j)) == 0
    {
      assert Child(g, top, j) == Entry(top.k, j);
    }
    forall r | r in g'.at
      ensures RoleOk(g', r)
    {
      assert r == Loose(b) || (r in g.at && RoleOk(g, r));
    }
  }

  lemma {:induction false} PopPointers(d: Disk, g: Layout, b: nat, d': Disk, g': Layout)
    requires Pops(d, g, b, d', g')
    ensures Pointers(d', g')
  {
    var top := Chain(g.chain - 1);
    RelabelBijection(g, top, Loose(b));
    assert SlotsOk(d, g, top);
    forall r | r in g'.at
      ensures SlotsOk(d', g', r)
    {
      if r == Super {
        assert d[b][0] == Ref(g, Child(g, top, 0));
      } else if r != Loose(b) {
        assert RoleOk(g, r) && SlotsOk(d, g, r);
        SlotsFrame(d, g, d', g', r);
      }
    }
  }

  lemma {:induction false} PopChain(d: Disk, g: Layout, b: nat, d': Disk, g': Layout)
    requires Pops(d, g, b, d', g')
    ensures Inv(d', g')
    ensures FreeBlocks(g') == FreeBlocks(g) - {b}
    ensures SameData(d, g, d', g')
  {
    PopShape(d, g, b, d', g');
    PopPointers(d, g, b, d', g');
    SizesFrame(d, g, d', g');
  }

  /** The first free-list block still lists a free block in slot `j`: take that one. */
  ghost predicate Takes(d: Disk, g: Layout, j: nat, b: nat, d': Disk, g': Layout) {
    && Inv(d, g) && g.chain > 0 && 1 <= j < 128
    && var top := g.at[Chain(g.chain - 1)];
    && b == d[top][j] != 0
    && Entry(g.chain - 1, j) in g.at
    && Loose(b) !in g.at
    && d' == d[top := d[top][j := 0]]
    && g' == Relabel(g, Entry(g.chain - 1, j), Loose(b))
  }

  lemma {:induction false} TakeShape(d: Disk, g: Layout, j: nat, b: nat, d': Disk, g': Layout)
    requires Takes(d, g, j, b, d', g')
    ensures g.at[Entry(g.chain - 1, j)] == b
    ensures Shape(d', g')
  {
    var top := Chain(g.chain - 1);
    assert SlotsOk(d, g, top);
    assert d[g.at[top]][j] == Ref(g, Child(g, top, j));
    RelabelBijection(g, Entry(top.k, j), Loose(b));
    forall r | r in g'.at
      ensures RoleOk(g', r)
    {
      assert r == Loose(b) || (r in g.at && RoleOk(g, r));
    }
  }

  lemma {:induction false} TakePointers(d: Disk, g: Layout, j: nat, b: nat, d': Disk, g': Layout)
    requires Takes(d, g, j, b, d', g')
    ensures Pointers(d', g')
  {
    var top := Chain(g.chain - 1);
    RelabelBijection(g, Entry(top.k, j), Loose(b));
    forall r | r in g'.at
      ensures SlotsOk(d', g', r)
    {
      if r == top {
        assert SlotsOk(d, g, top);
      } else if r != Loose(b) {
        assert RoleOk(g, r) && SlotsOk(d, g, r);
        SlotsFrame(d, g, d', g', r);
      }
    }
  }

  lemma {:induction false} TakeEntry(d: Disk, g: Layout, j: nat, b: nat, d': Disk, g': Layout)
    requires Takes(d, g, j, b, d', g')
    ensures Inv(d', g')
    ensures FreeBlocks(g') == FreeBlocks(g) - {b}
    ensures SameData(d, g, d', g')
  {
    TakeShape(d, g, j, b, d', g');
    TakePointers(d, g, j, b, d', g');
    SizesFrame(d, g, d', g');
  }

  // ----- putting a loose block to use

  /** The contents of a loose block are unconstrained. */
  lemma {:induction false} FillLoose(d: Disk, g: Layout, b: nat, blk: Block, d': Disk)
    requires Inv(d, g) && Loose(b) in g.at && b < |d| && d' == d[b := blk]
    ensures Inv(d', g)
    ensures SameData(d, g, d', g)
  {
    assert RoleOk(g, Loose(b));
    forall r | r in g.at
      ensures RoleOk(g, r) && SlotsOk(d', g, r)
    {
      assert RoleOk(g, r) && SlotsOk(d, g, r);
      if r != Loose(b) {
        SlotsFrame(d, g, d', g, r);
      }
    }
    SizesFrame(d, g, d', g);
  }

  ghost function ParentRole(g: Layout, ino: int, level: int, index: int): (p: Role)
    requires 0 <= ino < |g.heights|
  {
    if level == g.heights[ino] then Inodes(ino / 64) else Node(ino, level + 1, index / 128)
  }

  ghost function ParentSlot(g: Layout, ino: int, level: int, index: int): (j: int)
    requires 0 <= ino < |g.heights|
  {
    if level == g.heights[ino] then 2 * (ino % 64) else index % 128
  }

  /** A loose block becomes a node of a tree: its parent's slot is set to it. */
  ghost predicate Links(d: Disk, g: Layout, ino: nat, level: nat, index: nat, b: nat, d': Disk, g': Layout) {
    && Inv(d, g) && ino < |g.heights| && Loose(b) in g.at && b < |d|
    && Node(ino, level, index) !in g.at
    && level <= g.heights[ino]
    && (level == g.heights[ino] ==> index == 0)
    && ParentRole(g, ino, level, index) in g.at
    && (level > 0 ==> d[b] == ZeroBlock())
    && (level == 0 ==> index < SizeOf(d, ino))
    && var p := g.at[ParentRole(g, ino, level, index)];
    && d' == d[p := d[p][ParentSlot(g, ino, level, index) := b]]
    && g' == Relabel(g, Loose(b), Node(ino, level, index))
  }

  lemma {:induction false} LinkShape(d: Disk, g: Layout, ino: nat, level: nat, index: nat, b: nat, d': Disk, g': Layout)
    requires Links(d, g, ino, level, index, b, d', g')
    ensures g.at[Loose(b)] == b
    ensures Shape(d', g')
  {
    assert RoleOk(g, Loose(b));
    RelabelBijection(g, Loose(b), Node(ino, level, index));
    forall r | r in g'.at
      ensures RoleOk(g', r)
    {
      assert r == Node(ino, level, index) || (r in g.at && RoleOk(g, r));
    }
  }

  /** Only its parent slot refers to a node. */
  lemma {:induction false} OneParent(g: Layout, ino: nat, level: nat, index: nat, r: Role, j: int)
    requires ino < |g.heights| && level <= g.heights[ino]
    requires RoleOk(g, r) && r in g.at && 0 <= j < 128 && IsSlot(r, j)
    ensures Child(g, r, j) == Node(ino, level, index) ==>
      r == ParentRole(g, ino, level, index) && j == ParentSlot(g, ino, level, index)
  {
  }

  lemma {:induction false} LinkOwnSlots(d: Disk, g: Layout, ino: nat, level: nat, index: nat, b: nat, d': Disk,
                                        g': Layout)
    requires Links(d, g, ino, level, index, b, d', g')
    ensures SlotsOk(d', g', Node(ino, level, index))
  {
    var node := Node(ino, level, index);
    var parent := ParentRole(g, ino, level, index);
    assert RoleOk(g, Loose(b)) && g.at[parent] != b;
    forall j | 0 <= j < 128 && IsSlot(node, j)
      ensures d'[g'.at[node]][j] == Ref(g', Child(g', node, j))
    {
      var c := Child(g, node, j);
      assert c in g.at ==> RoleOk(g, c);
    }
  }

  lemma {:induction false} LinkParentSlots(d: Disk, g: Layout, ino: nat, level: nat, index: nat, b: nat, d': Disk,
                                           g': Layout)
    requires Links(d, g, ino, level, index, b, d', g')
    ensures SlotsOk(d', g', ParentRole(g, ino, level, index))
  {
    var node := Node(ino, level, index);
    var parent := ParentRole(g, ino, level, index);
    assert RoleOk(g, Loose(b)) && RoleOk(g, parent) && SlotsOk(d, g, parent);
    RelabelBijection(g, Loose(b), node);
    forall j | 0 <= j < 128 && IsSlot(parent, j)
      ensures d'[g'.at[parent]][j] == Ref(g', Child(g', parent, j))
    {
      OneParent(g, ino, level, index, parent, j);
      if j == ParentSlot(g, ino, level, index) {
        assert Child(g, parent, j) == node;
      }
    }
  }

  lemma {:induction false} LinkPointers(d: Disk, g: Layout, ino: nat, level: nat, index: nat, b: nat, d': Disk,
                                        g': Layout)
    requires Links(d, g, ino, level, index, b, d', g')
    ensures Pointers(d', g')
  {
    var node := Node(ino, level, index);
    var parent := ParentRole(g, ino, level, index);
    LinkOwnSlots(d, g, ino, level, index, b, d', g');
    LinkParentSlots(d, g, ino, level, index, b, d', g');
    RelabelBijection(g, Loose(b), node);
    forall r | r in g'.at
      ensures SlotsOk(d', g', r)
    {
      if r != node && r != parent {
        assert RoleOk(g, r) && SlotsOk(d, g, r);
        forall j | 0 <= j < 128 && IsSlot(r, j)
          ensures Child(g, r, j) != node
        {
          OneParent(g, ino, level, index, r, j);
        }
        SlotsFrame(d, g, d', g', r);
      }
    }
  }

  lemma {:induction false} Link(d: Disk, g: Layout, ino: nat, level: nat, index: nat, b: nat, d': Disk, g': Layout)
    requires Links(d, g, ino, level, index, b, d', g')
    ensures Inv(d', g')
  {
    LinkShape(d, g, ino, level, index, b, d', g');
    LinkPointers(d, g, ino, level, index, b, d', g');
  }

  lemma {:induction false} LinkFree(d: Disk, g: Layout, ino: nat, level: nat, index: nat, b: nat, d': Disk, g': Layout)
    requires Links(d, g, ino, level, index, b, d', g')
    ensures FreeBlocks(g') == FreeBlocks(g)
  {
    assert RoleOk(g, Loose(b));
  }

  lemma {:induction false} LinkDatum(d: Disk, g: Layout, ino: nat, level: nat, index: nat, b: nat, d': Disk, g': Layout,
                                     i: int, o: int)
    requires Links(d, g, ino, level, index, b, d', g') && Node(i, 0, o) != Node(ino, level, index)
    ensures Data(d', g', i, o) == Data(d, g, i, o)
  {
  }

  lemma {:induction false} LinkData(d: Disk, g: Layout, ino: nat, level: nat, index: nat, b: nat, d': Disk, g': Layout)
    requires Links(d, g, ino, level, index, b, d', g')
    ensures if level == 0 then SameDataBut(d, g, d', g', ino, index) else SameData(d, g, d', g')
  {
    forall i, o | Node(i, 0, o) != Node(ino, level, index)
      ensures Data(d', g', i, o) == Data(d, g, i, o)
    {
      LinkDatum(d, g, ino, level, index, b, d', g', i, o);
    }
  }

  /** A loose block becomes the new root of a tree, one level above the old root. */
  ghost predicate Grows(d: Disk, g: Layout, ino: nat, b: nat, d': Disk, g': Layout) {
    && Inv(d, g) && ino < |g.heights| && Loose(b) in g.at && b < |d|
    && d[b] == ZeroBlock()[0 := RootOf(d, ino)]
    && d' == d[1 + ino / 64 := d[1 + ino / 64][2 * (ino % 64) := b]]
    && g' == Relabel(g, Loose(b), Node(ino, g.heights[ino] + 1, 0))
               .(heights := g.heights[ino := g.heights[ino] + 1])
  }

  lemma {:induction false} InodeBlockRole(d: Disk, g: Layout, ino: nat)
    requires Shape(d, g) && ino < |g.heights|
    ensures Inodes(ino / 64) in g.at && g.at[Inodes(ino / 64)] == 1 + ino / 64
  {
    assert g.owner[1 + ino / 64] == Inodes(ino / 64);
  }

  lemma {:induction false} GrowShape(d: Disk, g: Layout, ino: nat, b: nat, d': Disk, g': Layout)
    requires Grows(d, g, ino, b, d', g')
    ensures g.at[Loose(b)] == b && Node(ino, g.heights[ino] + 1, 0) !in g.at
    ensures Shape(d', g')
  {
    var root := Node(ino, g.heights[ino] + 1, 0);
    assert RoleOk(g, Loose(b));
    assert root in g.at ==> RoleOk(g, root);
    RelabelBijection(g, Loose(b), root);
    forall r | r in g'.at
      ensures RoleOk(g', r)
    {
      assert r == root || (r in g.at && RoleOk(g, r));
    }
  }

  lemma {:induction false} GrowRootSlots(d: Disk, g: Layout, ino: nat, b: nat, d': Disk, g': Layout)
    requires Grows(d, g, ino, b, d', g')
    ensures SlotsOk(d', g', Node(ino, g.heights[ino] + 1, 0))
  {
    var root := Node(ino, g.heights[ino] + 1, 0);
    GrowShape(d, g, ino, b, d', g');
    InodeBlockRole(d, g, ino);
    assert SlotsOk(d, g, Inodes(ino / 64));
    assert Child(g, Inodes(ino / 64), 2 * (ino % 64)) == Node(ino, g.heights[ino], 0);
    forall j | 0 <= j < 128
      ensures d'[b][j] == Ref(g', Child(g', root, j))
    {
      var c := Node(ino, g.heights[ino], j);
      assert c in g.at ==> RoleOk(g, c);
    }
  }

  lemma {:induction false} ChildAfterGrow(g: Layout, g': Layout, ino: nat, r: Role, j: int)
    requires ino < |g.heights| && g'.heights == g.heights[ino := g.heights[ino] + 1] && g'.chain == g.chain
    requires RoleOk(g, r) && 0 <= j < 128 && IsSlot(r, j)
    ensures Child(g', r, j) ==
      if r == Inodes(ino / 64) && j == 2 * (ino % 64) then Node(ino, g.heights[ino] + 1, 0) else Child(g, r, j)
    ensures Child(g, r, j) != Node(ino, g.heights[ino] + 1, 0) || r.Node?
  {
  }

  lemma {:induction false} GrowOtherSlots(d: Disk, g: Layout, ino: nat, b: nat, d': Disk, g': Layout, r: Role)
    requires Grows(d, g, ino, b, d', g')
    requires r in g.at && r != Loose(b)
    ensures SlotsOk(d', g', r)
  {
    var root := Node(ino, g.heights[ino] + 1, 0);
    GrowShape(d, g, ino, b, d', g');
    RelabelBijection(g, Loose(b), root);
    assert RoleOk(g, r) && SlotsOk(d, g, r);
    forall j | 0 <= j < 128 && IsSlot(r, j)
      ensures Child(g', r, j) == if r == Inodes(ino / 64) && j == 2 * (ino % 64) then root else Child(g, r, j)
      ensures Child(g, r, j) != root
    {
      ChildAfterGrow(g, g', ino, r, j);
    }
    InodeBlockRole(d, g, ino);
    if r != Inodes(ino / 64) {
      SlotsFrame(d, g, d', g', r);
    }
  }

  lemma {:induction false} GrowPointers(d: Disk, g: Layout, ino: nat, b: nat, d': Disk, g': Layout)
    requires Grows(d, g, ino, b, d', g')
    ensures Pointers(d', g')
  {
    forall r | r in g'.at
      ensures SlotsOk(d', g', r)
    {
      if r == Node(ino, g.heights[ino] + 1, 0) {
        GrowRootSlots(d, g, ino, b, d', g');
      } else {
        GrowOtherSlots(d, g, ino, b, d', g', r);
      }
    }
  }

  lemma {:induction false} Grow(d: Disk, g: Layout, ino: nat, b: nat, d': Disk, g': Layout)
    requires Grows(d, g, ino, b, d', g')
    ensures Inv(d', g')
    ensures FreeBlocks(g') == FreeBlocks(g)
    ensures SameData(d, g, d', g')
  {
    GrowShape(d, g, ino, b, d', g');
    GrowPointers(d, g, ino, b, d', g');
    InodeBlockRole(d, g, ino);
  }

  /** Raising the size of a file in its inode. */
  lemma {:induction false} Resize(d: Disk, g: Layout, ino: nat, size: Word, d': Disk)
    requires Inv(d, g) && ino < |g.heights| && SizeOf(d, ino) <= size
    requires d' == d[1 + ino / 64 := d[1 + ino / 64][2 * (ino % 64) + 1 := size]]
    ensures Inv(d', g)
    ensures SameData(d, g, d', g)
  {
    InodeBlockRole(d, g, ino);
    assert Shape(d', g);
    forall r | r in g.at
      ensures SlotsOk(d', g, r)
    {
      assert SlotsOk(d, g, r);
      if r == Inodes(ino / 64) {
        assert forall j :: 0 <= j < 128 && IsSlot(r, j) ==> d'[g.at[r]][j] == d[g.at[r]][j];
      } else {
        SlotsFrame(d, g, d', g, r);
      }
    }
  }

  /** Overwriting the data block of an offset. */
  lemma {:induction false} WriteData(d: Disk, g: Layout, ino: nat, off: nat, blk: Block, d': Disk)
    requires Inv(d, g) && Node(ino, 0, off) in g.at
    requires d' == d[g.at[Node(ino, 0, off)] := blk]
    ensures Inv(d', g)
    ensures Data(d', g, ino, off) == blk
    ensures SameDataBut(d, g, d', g, ino, off)
  {
    var node := Node(ino, 0, off);
    assert Shape(d', g);
    forall r | r in g.at
      ensures SlotsOk(d', g, r)
    {
      assert SlotsOk(d, g, r);
      if r != node {
        SlotsFrame(d, g, d', g, r);
      }
    }
    SizesFrame(d, g, d', g);
  }

  // ----- reading through the tree

  /** A node's ancestors, up to the root of its tree, all exist. */
  lemma {:induction false} Ancestor(d: Disk, g: Layout, ino: nat, off: nat, level: nat)
    requires Shape(d, g) && Node(ino, 0, off) in g.at
    requires ino < |g.heights| && level <= g.heights[ino]
    ensures Node(ino, level, Prefix(off, level)) in g.at
  {
    if level > 0 {
      Ancestor(d, g, ino, off, level - 1);
      assert RoleOk(g, Node(ino, level - 1, Prefix(off, level - 1)));
    }
  }
}
