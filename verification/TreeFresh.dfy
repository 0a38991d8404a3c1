/** A newly created file system: its free list and its layout in closed form. */
module TreeFresh {
  import opened Base
  import opened TreeLayout
  import opened TreeFiles

  /** How many free-list blocks it takes to list the blocks from `s` up to `size`. */
  function ChainLength(s: nat, size: nat): (m: nat)
  {
    if size <= s then 0 else (size - s + 127) / 128
  }

  /** The k-th free-list block, block s + 128k, listing the 127 blocks that follow it. */
  function FreelistBlock(s: nat, size: nat, k: nat): (blk: Block)
    requires s + 128 * k < size < WORD_LIMIT
  {
    seq(128, j requires 0 <= j < 128 => FreelistSlot(s, size, k, j))
  }

  function FreelistSlot(s: nat, size: nat, k: nat, j: nat): (w: Word)
    requires s + 128 * k < size < WORD_LIMIT && j < 128
  {
    if j == 0 then (if k == 0 then 0 else s + 128 * (k - 1))
    else if s + 128 * k + j < size then s + 128 * k + j
    else 0
  }

  ghost function FreshRole(n: nat, b: nat): (r: Role) {
    if b == 0 then Super
    else if b <= n then Inodes(b - 1)
    else if (b - n - 1) % 128 == 0 then Chain((b - n - 1) / 128)
    else Entry((b - n - 1) / 128, (b - n - 1) % 128)
  }

  ghost function FreshLayout(n: nat, size: nat): (g: Layout)
    ensures |g.owner| == size && |g.heights| == 64 * n && g.n == n && g.chain == ChainLength(n + 1, size)
    ensures forall b :: 0 <= b < size ==> g.owner[b] == FreshRole(n, b)
    ensures forall ino :: 0 <= ino < 64 * n ==> g.heights[ino] == 0
    ensures Bijection(g)
  {
    Injectivity(n);
    Layout(n, ChainLength(n + 1, size), seq(64 * n, _ => 0),
           map b: nat | 0 <= b < size :: FreshRole(n, b) := b,
           seq(size, b requires 0 <= b => FreshRole(n, b)))
  }

  lemma {:induction false} Injectivity(n: nat)
    ensures forall b: nat, c: nat :: FreshRole(n, b) == FreshRole(n, c) ==> b == c
  {
  }

  /** The disk as `Create` leaves it: superblock, empty inodes, free list. */
  ghost predicate FreshDisk(d: Disk, n: nat) {
    && n + 2 <= |d| < WORD_LIMIT && 64 * n < WORD_LIMIT
    && d[0][0] == n
    && d[0][1] == n + 1 + 128 * (ChainLength(n + 1, |d|) - 1)
    && (forall b :: 1 <= b <= n ==> d[b] == ZeroBlock())
    && Listed(d, n + 1, ChainLength(n + 1, |d|))
  }

  /** The first `m` blocks of a free list of the blocks from `s` on are in place. */
  ghost predicate Listed(d: Disk, s: nat, m: nat) {
    forall k :: 0 <= k < m ==> ListsAt(d, s, k)
  }

  ghost predicate ListsAt(d: Disk, s: nat, k: nat) {
    s + 128 * k < |d| < WORD_LIMIT && d[s + 128 * k] == FreelistBlock(s, |d|, k)
  }

  lemma {:induction false} ListedFrame(d: Disk, d': Disk, s: nat, m: nat)
    requires Listed(d, s, m) && |d'| == |d|
    requires forall b :: s <= b < |d| && b < s + 128 * m ==> d'[b] == d[b]
    ensures Listed(d', s, m)
  {
    forall k | 0 <= k < m
      ensures ListsAt(d', s, k)
    {
      assert ListsAt(d, s, k);
    }
  }

  lemma {:induction false} FreshRef(n: nat, size: nat, b: nat)
    requires b < size
    ensures Ref(FreshLayout(n, size), FreshRole(n, b)) == b
  {
  }

  /** A role that stands for no block below `size` is in no use. */
  lemma {:induction false} FreshAbsent(n: nat, size: nat, r: Role)
    requires forall b :: 0 <= b < size ==> FreshRole(n, b) != r
    ensures Ref(FreshLayout(n, size), r) == 0
  {
  }

  lemma {:induction false} FreshRoleAt(n: nat, k: nat, j: nat)
    requires j < 128
    ensures FreshRole(n, n + 1 + 128 * k + j) == if j == 0 then Chain(k) else Entry(k, j)
  {
  }

  lemma {:induction false} FreshRoleOk(n: nat, size: nat, b: nat)
    requires b < size
    ensures RoleOk(FreshLayout(n, size), FreshRole(n, b))
  {
  }

  lemma {:induction false} FreshShape(d: Disk, n: nat)
    requires FreshDisk(d, n)
    ensures Shape(d, FreshLayout(n, |d|))
  {
    var g := FreshLayout(n, |d|);
    assert g.owner[0] == Super;
    forall k | 0 <= k < g.chain
      ensures Chain(k) in g.at
    {
      FreshRoleAt(n, k, 0);
      assert g.owner[n + 1 + 128 * k] == Chain(k);
    }
    forall r | r in g.at
      ensures RoleOk(g, r)
    {
      assert r == FreshRole(n, g.at[r]);
      FreshRoleOk(n, |d|, g.at[r]);
    }
  }

  lemma {:induction false} FreshChainSlot(d: Disk, n: nat, k: nat, j: nat)
    requires FreshDisk(d, n) && k < ChainLength(n + 1, |d|) && j < 128
    ensures n + 1 + 128 * k < |d|
    ensures d[n + 1 + 128 * k][j] == Ref(FreshLayout(n, |d|), Child(FreshLayout(n, |d|), Chain(k), j))
  {
    var b := n + 1 + 128 * k;
    assert ListsAt(d, n + 1, k);
    assert d[b][j] == FreelistSlot(n + 1, |d|, k, j);
    if j == 0 && k > 0 {
      FreshRoleAt(n, k - 1, 0);
      FreshRef(n, |d|, b - 128);
    } else if j > 0 && b + j < |d| {
      FreshRoleAt(n, k, j);
      FreshRef(n, |d|, b + j);
    } else {
      var c := if j == 0 then Chain(-1) else Entry(k, j);
      if j > 0 {
        FreshRoleAt(n, k, j);
        Injectivity(n);
      }
      FreshAbsent(n, |d|, c);
    }
  }

  lemma {:induction false} FreshChainSlots(d: Disk, n: nat, r: Role)
    requires FreshDisk(d, n) && r in FreshLayout(n, |d|).at && r.Chain?
    ensures SlotsOk(d, FreshLayout(n, |d|), r)
  {
    var g := FreshLayout(n, |d|);
    var b := g.at[r];
    assert r == FreshRole(n, b);
    FreshRoleAt(n, r.k, 0);
    assert b == n + 1 + 128 * r.k;
    FreshRoleOk(n, |d|, b);
    forall j | 0 <= j < 128
      ensures d[b][j] == Ref(g, Child(g, r, j))
    {
      FreshChainSlot(d, n, r.k, j);
    }
  }

  lemma {:induction false} FreshSlots(d: Disk, n: nat, r: Role)
    requires FreshDisk(d, n) && r in FreshLayout(n, |d|).at
    ensures SlotsOk(d, FreshLayout(n, |d|), r) && !r.Node? && !r.Loose?
  {
    var g := FreshLayout(n, |d|);
    var b := g.at[r];
    assert r == FreshRole(n, b);
    if r.Chain? {
      FreshChainSlots(d, n, r);
    } else if r.Super? {
      FreshRoleAt(n, g.chain - 1, 0);
      FreshRef(n, |d|, n + 1 + 128 * (g.chain - 1));
    } else if r.Inodes? {
      FreshInodeSlots(d, n, r);
    }
  }

  lemma {:induction false} FreshInodeSlots(d: Disk, n: nat, r: Role)
    requires FreshDisk(d, n) && r in FreshLayout(n, |d|).at && r.Inodes?
    ensures SlotsOk(d, FreshLayout(n, |d|), r)
  {
  }

  ghost function Range(lo: nat, hi: nat): (s: set<nat>)
    ensures forall b :: b in s <==> lo <= b < hi
    ensures |s| == if lo <= hi then hi - lo else 0
    decreases hi
  {
    if lo >= hi then {} else Range(lo, hi - 1) + {hi - 1}
  }

  /** A freshly created file system satisfies the invariant. */
  lemma {:induction false} FreshConsistent(d: Disk, n: nat)
    requires FreshDisk(d, n)
    ensures Consistent(d, FreshLayout(n, |d|))
  {
    var g := FreshLayout(n, |d|);
    FreshShape(d, n);
    forall r | r in g.at
      ensures SlotsOk(d, g, r) && !r.Node? && !r.Loose?
    {
      FreshSlots(d, n, r);
    }
  }

  /** Every block after the inodes is free, and every file is empty. */
  lemma {:induction false} FreshIsEmpty(d: Disk, n: nat)
    requires FreshDisk(d, n)
    ensures FreeBlocks(FreshLayout(n, |d|)) == Range(n + 1, |d|)
    ensures |FreeBlocks(FreshLayout(n, |d|))| == |d| - n - 1
    ensures forall ino :: 0 <= ino < 64 * n ==> File(d, ino) == []
  {
  }
}
