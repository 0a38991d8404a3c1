/** Every block has exactly one use: a statement about the disk alone. */
module TreePartition {
  import opened Base
  import opened Radix
  import opened TreeLayout
  import opened TreeFiles
  import opened TreeFresh

  /** A place where the disk may name a block: the k-th block of the free list, slot j
      of that block, or a position in the tree of a file. */
  datatype Site = ListBlock(k: nat) | ListEntry(k: nat, j: nat) | TreeNode(ino: nat, level: nat, index: nat)

  /** Following the free list from the superblock. */
  function ListAt(d: Disk, k: nat): (b: nat)
    requires |d| > 0
  {
    if k == 0 then d[0][1]
    else
      var p := ListAt(d, k - 1);
      if p == 0 || p >= |d| then 0 else d[p][0]
  }

  function HeightOf(d: Disk, ino: nat): (h: nat)
    requires |d| > 0
  {
    if 1 + ino / 64 < |d| then Height(SizeOf(d, ino)) else 0
  }

  /** Following a tree from its inode down to a position. */
  function NodeAt(d: Disk, ino: nat, level: nat, index: nat): (b: nat)
    requires |d| > 0
    decreases HeightOf(d, ino) - level
  {
    if ino / 64 >= d[0][0] || 1 + ino / 64 >= |d| || level > HeightOf(d, ino) then 0
    else if level == HeightOf(d, ino) then (if index == 0 then RootOf(d, ino) else 0)
    else
      var p := NodeAt(d, ino, level + 1, index / 128);
      if p == 0 || p >= |d| then 0 else d[p][index % 128]
  }

  /** The block named at a site, or 0. */
  function Resolve(d: Disk, s: Site): (b: nat)
    requires |d| > 0
  {
    match s
    case ListBlock(k) => ListAt(d, k)
    case ListEntry(k, j) =>
      if ListAt(d, k) == 0 || ListAt(d, k) >= |d| || j == 0 || j >= 128 then 0 else d[ListAt(d, k)][j]
    case TreeNode(ino, level, index) => NodeAt(d, ino, level, index)
  }

  /** The blocks after the inodes are in bijection with the sites that name a block. */
  ghost predicate Partitioned(d: Disk)
    requires |d| > 0
  {
    && (forall s :: Resolve(d, s) != 0 ==> d[0][0] < Resolve(d, s) < |d|)
    && (forall s, t :: Resolve(d, s) == Resolve(d, t) != 0 ==> s == t)
    && (forall b :: d[0][0] < b < |d| ==> Named(d, b))
  }

  ghost predicate Named(d: Disk, b: nat)
    requires |d| > 0
  {
    exists s :: Resolve(d, s) == b
  }

  ghost function RoleOf(g: Layout, s: Site): (r: Role) {
    match s
    case ListBlock(k) => Chain(g.chain - 1 - k)
    case ListEntry(k, j) => Entry(g.chain - 1 - k, j)
    case TreeNode(ino, level, index) => Node(ino, level, index)
  }

  lemma {:induction false} ListAtIsRef(d: Disk, g: Layout, k: nat)
    requires Consistent(d, g)
    ensures ListAt(d, k) == Ref(g, Chain(g.chain - 1 - k))
  {
    TopOfFreeList(d, g);
    if k > 0 {
      ListAtIsRef(d, g, k - 1);
      var p, c := Chain(g.chain - k), Chain(g.chain - 1 - k);
      assert c in g.at ==> RoleOk(g, c);
      assert g.owner[0] == Super;
      if p in g.at {
        assert SlotsOk(d, g, p);
        assert Child(g, p, 0) == c;
      }
    }
  }

  lemma {:induction false} NodeAtIsRef(d: Disk, g: Layout, ino: nat, level: nat, index: nat)
    requires Consistent(d, g)
    ensures NodeAt(d, ino, level, index) == Ref(g, Node(ino, level, index))
    decreases HeightOf(d, ino) - level
  {
    var r := Node(ino, level, index);
    assert r in g.at ==> RoleOk(g, r);
    assert g.owner[0] == Super;
    if ino < 64 * g.n && level <= g.heights[ino] {
      RootIsTop(d, g, ino);
      if level < g.heights[ino] {
        NodeAtIsRef(d, g, ino, level + 1, index / 128);
        var p := Node(ino, level + 1, index / 128);
        if p in g.at {
          assert SlotsOk(d, g, p);
          assert Child(g, p, index % 128) == r;
        }
      }
    }
  }

  lemma {:induction false} ResolveIsRef(d: Disk, g: Layout, s: Site)
    requires Consistent(d, g)
    ensures Resolve(d, s) == Ref(g, RoleOf(g, s))
  {
    match s
    case ListBlock(k) =>
      ListAtIsRef(d, g, k);
    case TreeNode(ino, level, index) =>
      NodeAtIsRef(d, g, ino, level, index);
    case ListEntry(k, j) =>
      ListAtIsRef(d, g, k);
      var p, c := Chain(g.chain - 1 - k), Entry(g.chain - 1 - k, j);
      assert c in g.at ==> RoleOk(g, c);
      assert g.owner[0] == Super;
      if p in g.at && 0 < j < 128 {
        assert SlotsOk(d, g, p);
        assert Child(g, p, j) == c;
      }
  }

  lemma {:induction false} NamesABlock(d: Disk, g: Layout, s: Site)
    requires Consistent(d, g) && Resolve(d, s) != 0
    ensures d[0][0] < Resolve(d, s) < |d|
    ensures g.owner[Resolve(d, s)] == RoleOf(g, s)
  {
    ResolveIsRef(d, g, s);
  }

  lemma {:induction false} InodesAt(d: Disk, g: Layout, k: int)
    requires Shape(d, g)
    ensures 0 <= k < g.n ==> Ref(g, Inodes(k)) == 1 + k
  {
    assert 0 <= k < g.n ==> g.owner[1 + k] == Inodes(k);
  }

  lemma {:induction false} BlockIsNamed(d: Disk, g: Layout, b: nat)
    requires Consistent(d, g) && d[0][0] < b < |d|
    ensures Named(d, b)
  {
    var r := g.owner[b];
    assert r in g.at && RoleOk(g, r);
    InodesAt(d, g, if r.Inodes? then r.k else 0);
    match r
    case Chain(k) => ResolveIsRef(d, g, ListBlock(g.chain - 1 - k));
    case Entry(k, j) => ResolveIsRef(d, g, ListEntry(g.chain - 1 - k, j));
    case Node(ino, level, index) => ResolveIsRef(d, g, TreeNode(ino, level, index));
    case _ =>
  }

  /** Superblock, inode blocks, free list and trees cover the disk without overlap. */
  lemma {:induction false} ExactPartition(d: Disk, g: Layout)
    requires Consistent(d, g)
    ensures Partitioned(d)
  {
    forall s | Resolve(d, s) != 0
      ensures d[0][0] < Resolve(d, s) < |d|
    {
      NamesABlock(d, g, s);
    }
    forall s, t | Resolve(d, s) == Resolve(d, t) != 0
      ensures s == t
    {
      NamesABlock(d, g, s);
      NamesABlock(d, g, t);
    }
    forall b | d[0][0] < b < |d|
      ensures Named(d, b)
    {
      BlockIsNamed(d, g, b);
    }
  }

  // ----- runs of allocations

  /** The blocks got by allocating until the free list is used up, at most `fuel`. */
  function Drain(d: Disk, fuel: nat): (bs: seq<Word>)
    requires |d| > 0
    decreases fuel
  {
    if fuel == 0 || AllocStep(d).None? then []
    else [AllocStep(d).value.1] + Drain(AllocStep(d).value.0, fuel - 1)
  }

  /** Exactly as many allocations succeed as there are free blocks, and they give every
      free block once. */
  lemma {:induction false} DrainGivesEachOnce(d: Disk, g: Layout, fuel: nat)
    requires Inv(d, g) && |FreeBlocks(g)| <= fuel
    ensures |Drain(d, fuel)| == |FreeBlocks(g)|
    ensures forall b :: b in Drain(d, fuel) <==> b in FreeBlocks(g)
    ensures forall i, j :: 0 <= i < j < |Drain(d, fuel)| ==> Drain(d, fuel)[i] != Drain(d, fuel)[j]
    decreases fuel
  {
    var g' := AllocKeeps(d, g);
    if AllocStep(d).Some? {
      var (d', b) := AllocStep(d).value;
      assert b in FreeBlocks(g);
      DrainGivesEachOnce(d', g', fuel - 1);
      assert Drain(d, fuel) == [b] + Drain(d', fuel - 1);
      assert b !in Drain(d', fuel - 1);
    }
  }

  /** A new file system has every block after its inodes to give, once each. */
  lemma {:induction false} FreshDrain(d: Disk, n: nat)
    requires FreshDisk(d, n)
    ensures |Drain(d, |d|)| == |d| - n - 1
    ensures forall b :: n < b < |d| ==> b in Drain(d, |d|)
  {
    FreshConsistent(d, n);
    FreshIsEmpty(d, n);
    DrainGivesEachOnce(d, FreshLayout(n, |d|), |d|);
  }
}
