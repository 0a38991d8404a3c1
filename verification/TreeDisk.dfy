/** The treedisk file system: many virtual files on one store of blocks. */
module TreeDisk {
  import opened Base
  import opened Radix
  import opened TreeLayout
  import opened TreeFiles
  import opened TreeFresh
  import opened TreePartition

  /** log2 of the number of references per block; see `InitLogRpb`. */
  const LOG_RPB := 7

  /** How a write ends: done, refused, or halted with the free list used up. */
  datatype Status = Done | Refused | Full

  /** A copy of the superblock and of the block holding an inode. */
  datatype Snapshot = Snapshot(superblock: Block, inodeblock: Block, inodeBlockno: Word, slot: nat)

  /** The logarithm is found by shifting until nothing is left. */
  method InitLogRpb() returns (log: nat)
    ensures log == LOG_RPB
  {
    log := 1;
    while ShiftR(REFS_PER_BLOCK - 1, log) != 0
      invariant 1 <= log <= 7
      invariant ShiftR(127, log) == if log == 1 then 63 else if log == 2 then 31 else if log == 3 then 15
                                    else if log == 4 then 7 else if log == 5 then 3 else if log == 6 then 1 else 0
      decreases 7 - log
    {
      log := log + 1;
    }
  }

  /** The level loop ends for every 32-bit offset, with the least number of levels
      whose tree reaches it. */
  method CountLevels(x: Word) returns (nlevels: nat)
    ensures nlevels == LevelsFor(x) <= 5
    ensures x < Pow128(nlevels)
    ensures forall l: nat :: x < Pow128(l) ==> nlevels <= l
  {
    nlevels := 0;
    LevelsDropAll(x);
    LevelsLeast(x);
    LevelsAtMostFive(x);
    while LogShiftR(x, nlevels * LOG_RPB) != 0
      invariant nlevels <= LevelsFor(x)
      decreases LevelsFor(x) - nlevels
    {
      ShiftIsPrefix(x, nlevels);
      nlevels := nlevels + 1;
    }
    ShiftIsPrefix(x, nlevels);
  }

  /** What a new file system is. */
  lemma {:induction false} NewFileSystem(d: Disk, n: nat)
    requires FreshDisk(d, n)
    ensures Consistent(d, FreshLayout(n, |d|)) && Partitioned(d)
    ensures |FreeBlocks(FreshLayout(n, |d|))| == |d| - n - 1
    ensures forall ino :: 0 <= ino < 64 * n ==> File(d, ino) == []
  {
    FreshConsistent(d, n);
    FreshIsEmpty(d, n);
    ExactPartition(d, FreshLayout(n, |d|));
  }

  class TreeDisk {
    var disk: Disk
    ghost var layout: Layout

    ghost predicate Valid()
      reads this
    {
      Consistent(disk, layout)
    }

    /** The free list of a new file system: every block from `nextFree` on is listed. */
    method SetupFreelist(nextFree: Word, nblocks: Word) returns (head: Word)
      requires |disk| == nblocks && 1 <= nextFree
      modifies this`disk
      ensures |disk| == nblocks
      ensures forall b :: 0 <= b < nextFree && b < nblocks ==> disk[b] == old(disk)[b]
      ensures Listed(disk, nextFree, ChainLength(nextFree, nblocks))
      ensures head == if nextFree < nblocks then nextFree + 128 * (ChainLength(nextFree, nblocks) - 1) else 0
    {
      var next: nat := nextFree;
      var data: Block := ZeroBlock();
      head := 0;
      ghost var m := 0;
      while next < nblocks
        invariant |disk| == nblocks
        invariant next < nblocks ==> next == nextFree + 128 * m
        invariant next >= nblocks ==> m == ChainLength(nextFree, nblocks)
        invariant head == if m == 0 then 0 else nextFree + 128 * (m - 1)
        invariant head < nblocks || m == 0
        invariant forall b :: 0 <= b < nextFree && b < nblocks ==> disk[b] == old(disk)[b]
        invariant Listed(disk, nextFree, m)
        decreases nblocks - next
      {
        ghost var before := disk;
        data := data[0 := head];
        head := next;
        next := next + 1;
        var i := 1;
        while i < REFS_PER_BLOCK && next < nblocks
          invariant 1 <= i <= 128 && next == head + i <= nblocks
          invariant forall j :: 0 <= j < i ==> data[j] == FreelistSlot(nextFree, nblocks, m, j)
        {
          data := data[i := next];
          next := next + 1;
          i := i + 1;
        }
        while i < REFS_PER_BLOCK
          invariant 1 <= i <= 128
          invariant i < 128 ==> next == nblocks
          invariant next == nblocks || next == head + 128
          invariant forall j :: 0 <= j < i ==> data[j] == FreelistSlot(nextFree, nblocks, m, j)
        {
          data := data[i := 0];
          i := i + 1;
        }
        disk := disk[head := data];
        assert data == FreelistBlock(nextFree, nblocks, m);
        ListedFrame(before, disk, nextFree, m);
        m := m + 1;
      }
    }

    /** Creating a file system. On a store that is too small it fails; on one that holds
        a file system already it does nothing; on a blank one it makes a file system of
        empty files in which every remaining block is free. */
    method Create(ninodes: Word) returns (ok: bool)
      requires |disk| < WORD_LIMIT
      modifies this
      ensures |disk| == |old(disk)|
      ensures ok <==> |old(disk)| >= InodeBlocks(ninodes) + 2
      ensures !ok || old(disk)[0][0] != 0 ==> disk == old(disk) && layout == old(layout)
      ensures ok && old(disk)[0][0] == 0 ==>
        && Valid() && layout.n == InodeBlocks(ninodes) && Partitioned(disk) && FreshDisk(disk, layout.n)
        && |FreeBlocks(layout)| == |disk| - InodeBlocks(ninodes) - 1
        && forall ino :: 0 <= ino < 64 * layout.n ==> File(disk, ino) == []
    {
      var n := InodeBlocks(ninodes);
      var nblocks := |disk|;
      if nblocks < n + 2 {
        return false;
      }
      var superblock := disk[0];
      if superblock[0] == 0 {
        superblock := ZeroBlock()[0 := n];
        var head := SetupFreelist(n + 1, nblocks);
        ghost var listed := disk;
        superblock := superblock[1 := head];
        disk := disk[0 := superblock];
        var i := 1;
        while i <= n
          invariant 1 <= i <= n + 1 && |disk| == nblocks
          invariant disk[0] == superblock
          invariant forall b :: 1 <= b < i ==> disk[b] == ZeroBlock()
          invariant forall b :: n < b < nblocks ==> disk[b] == listed[b]
        {
          disk := disk[i := ZeroBlock()];
          i := i + 1;
        }
        ListedFrame(listed, disk, n + 1, ChainLength(n + 1, nblocks));
        layout := FreshLayout(n, nblocks);
        NewFileSystem(disk, n);
      }
      return true;
    }

    ghost predicate Pending(ino: nat, s: Snapshot)
      reads this
    {
      Current(disk, layout, ino, s)
    }

    method GetSnapshot(ino: Word) returns (r: Option<Snapshot>)
      requires Valid()
      ensures r.None? <==> ino >= 64 * layout.n
      ensures r.Some? ==> ino < |layout.heights| && 1 + ino / 64 < |disk|
      ensures r.Some? ==> r.value == Snapshot(disk[0], disk[1 + ino / 64], 1 + ino / 64, ino % 64)
    {
      var superblock := disk[0];
      if ino >= superblock[0] * INODES_PER_BLOCK % WORD_LIMIT {
        return None;
      }
      var inodeBlockno := 1 + ino / INODES_PER_BLOCK;
      return Some(Snapshot(superblock, disk[inodeBlockno], inodeBlockno, ino % INODES_PER_BLOCK));
    }

    /** Takes a block from the free list, if there is one. */
    method AllocBlock(superblock: Block) returns (superblock': Block, r: Option<Word>)
      requires |disk| > 0 && superblock == disk[0] && disk[0][1] < |disk|
      modifies this`disk
      ensures |disk| == |old(disk)| && superblock' == disk[0]
      ensures r.None? ==> AllocStep(old(disk)).None? && disk == old(disk)
      ensures r.Some? ==> AllocStep(old(disk)) == Some((disk, r.value))
    {
      superblock' := superblock;
      var b := superblock[1];
      if b == 0 {
        return superblock', None;
      }
      var freelistblock := disk[b];
      var i := REFS_PER_BLOCK - 1;
      while i > 0 && freelistblock[i] == 0
        invariant 0 <= i < 128
        invariant LastEntry(freelistblock, 127) == LastEntry(freelistblock, i)
      {
        i := i - 1;
      }
      if i == 0 {
        superblock' := superblock[1 := freelistblock[0]];
        disk := disk[0 := superblock'];
        return superblock', Some(b);
      } else {
        var free := freelistblock[i];
        freelistblock := freelistblock[i := 0];
        disk := disk[b := freelistblock];
        return disk[0], Some(free);
      }
    }

    /** The size of a file as a signed number, which is right below 2^31 blocks. */
    method GetSize(ino: Word) returns (r: Option<int>)
      requires Valid()
      ensures r.None? <==> ino >= 64 * layout.n
      ensures r.Some? ==> 1 + ino / 64 < |disk| && (r.value == |File(disk, ino)| <==> |File(disk, ino)| < 0x8000_0000)
      ensures r.Some? ==> -0x8000_0000 <= r.value < 0x8000_0000 && (r.value - |File(disk, ino)|) % WORD_LIMIT == 0
    {
      var s := GetSnapshot(ino);
      if s.None? {
        return None;
      }
      var size: int := s.value.inodeblock[2 * s.value.slot + 1];
      return Some(if size < 0x8000_0000 then size else size - WORD_LIMIT);
    }

    /** Reading gives the file's block at the offset, and fails exactly when the inode
        or the offset does not exist. */
    method Read(ino: Word, offset: Word) returns (r: Option<Block>)
      requires Valid()
      ensures r.None? <==> ino >= 64 * layout.n || offset >= |File(disk, ino)|
      ensures r.Some? ==> r.value == File(disk, ino)[offset]
    {
      var s := GetSnapshot(ino);
      if s.None? {
        return None;
      }
      var size := s.value.inodeblock[2 * s.value.slot + 1];
      if offset >= size {
        return None;
      }
      var nlevels: nat := CountLevels(size - 1);
      var b := s.value.inodeblock[2 * s.value.slot];
      FileIsData(disk, layout, ino, offset);
      RootIsTop(disk, layout, ino);
      HigherDigitsZero(offset, size, nlevels);
      while true
        invariant nlevels <= layout.heights[ino]
        invariant b == Ref(layout, Node(ino, nlevels, Prefix(offset, nlevels)))
        decreases nlevels
      {
        LookupIsData(disk, layout, ino, nlevels, offset);
        if b == 0 {
          return Some(ZeroBlock());
        }
        var block := disk[b];
        if nlevels == 0 {
          return Some(block);
        }
        nlevels := nlevels - 1;
        var index := LogShiftR(offset, nlevels * LOG_RPB) % REFS_PER_BLOCK;
        ShiftIsPrefix(offset, nlevels);
        ChildSlot(disk, layout, ino, nlevels, offset, b);
        b := block[index];
      }
    }

    /** One turn of the growing loop of a write. */
    method GrowOnce(ino: Word, snapshot: Snapshot) returns (ok: bool, snapshot': Snapshot, ghost root: nat)
      requires Pending(ino, snapshot)
      modifies this
      ensures |disk| == |old(disk)|
      ensures ok <==> FreeBlocks(old(layout)) != {}
      ensures ok ==> snapshot'.superblock == disk[0]
      ensures ok ==> snapshot'.inodeBlockno == snapshot.inodeBlockno && snapshot'.slot == snapshot.slot
      ensures ok ==> Grown(InMemory(old(disk), snapshot), old(layout), InMemory(disk, snapshot'), layout, ino, root)
      ensures if ok then Spared(old(disk), FreeBlocks(old(layout)), disk) else disk == old(disk)
    {
      AllocReady(disk, layout, ino, snapshot);
      var superblock, indir := AllocBlock(snapshot.superblock);
      if indir.None? {
        return false, snapshot, 0;
      }
      var b := indir.value;
      var slot := 2 * snapshot.slot;
      var tib: Block := ZeroBlock()[0 := snapshot.inodeblock[slot]];
      snapshot' := snapshot.(superblock := superblock, inodeblock := snapshot.inodeblock[slot := b]);
      disk := disk[b := tib];
      layout := GrowStep(old(disk), layout, ino, snapshot.inodeblock, disk, snapshot'.inodeblock, b);
      return true, snapshot', b;
    }

    /** The growing loop of a write: new roots above the old one, until the tree has
        `after` levels. The inode block stays in memory. */
    method GrowTree(ino: Word, snapshot: Snapshot, nlevels: nat, after: nat) returns (ok: bool, snapshot': Snapshot)
      requires ino < |layout.heights| && layout.heights[ino] == nlevels <= after
      requires Pending(ino, snapshot)
      modifies this
      ensures |disk| == |old(disk)|
      ensures ok <==> |FreeBlocks(old(layout))| >= after - nlevels
      ensures Spared(old(disk), FreeBlocks(old(layout)), disk)
      ensures ok ==> Growing(old(disk), old(layout), snapshot, disk, layout, snapshot', ino, after)
    {
      snapshot' := snapshot;
      var l := nlevels;
      while l < after
        invariant nlevels <= l <= after && |disk| == |old(disk)|
        invariant Growing(old(disk), old(layout), snapshot, disk, layout, snapshot', ino, l)
      {
        ghost var d, g, snap := disk, layout, snapshot';
        ghost var b;
        ok, snapshot', b := GrowOnce(ino, snapshot');
        if !ok {
          return false, snapshot';
        }
        RaiseOne(old(disk), old(layout), snapshot, d, g, snap, disk, layout, snapshot', ino, l, b);
        l := l + 1;
      }
      return true, snapshot';
    }

    /** The walk of a write meets a hole: a new block is entered in the parent block,
        which is written back. */
    method FillHole(ino: Word, offset: Word, level: nat, superblock: Block, p: Word, blk: Block, j: nat)
      returns (r: Option<Word>, superblock': Block)
      requires AtParent(disk, layout, ino, level, offset, p, blk, j) && blk[j] == 0
      requires superblock == disk[0]
      modifies this
      ensures |disk| == |old(disk)|
      ensures r.None? <==> FreeBlocks(old(layout)) == {}
      ensures r.None? ==> disk == old(disk) && layout == old(layout)
      ensures r.Some? && FreeBlocks(layout) == {} ==> r.value < |disk| && disk[r.value] == ZeroBlock()
      ensures r.Some? ==> superblock' == disk[0] && 0 < r.value < |disk|
      ensures r.Some? ==> |FreeBlocks(layout)| == |FreeBlocks(old(layout))| - 1
      ensures r.Some? ==> Filled(old(disk)[p := blk], old(layout), disk, layout, ino, level, offset, r.value)
    {
      HoleReady(disk, layout, ino, level, offset, p, blk, j);
      superblock', r := AllocBlock(superblock);
      if r.None? {
        return;
      }
      LastFilled(old(disk), layout, p, blk, disk, r.value);
      disk := disk[p := blk[j := r.value]];
      layout := LinkStep(old(disk), p, j, blk, layout, ino, level, offset, r.value, disk);
      if level > 0 {
        StepIntoNew(disk, layout, ino, level, offset, r.value);
      }
    }

    /** The walk of a write from the root to the data block of `offset`, filling the
        holes it meets. */
    method Walk(ino: Word, offset: Word, snapshot: Snapshot, nlevels: nat) returns (r: Option<Word>)
      requires Current(disk, layout, ino, snapshot) && disk[snapshot.inodeBlockno] == snapshot.inodeblock
      requires layout.heights[ino] == nlevels && Prefix(offset, nlevels) == 0 && offset < SizeOf(disk, ino)
      modifies this
      ensures |disk| == |old(disk)|
      ensures r.None? <==> |FreeBlocks(old(layout))| < Missing(old(disk), RootOf(old(disk), ino), nlevels, offset)
      ensures Walked(old(disk), old(layout), disk, layout, ino, offset)
      ensures r.None? ==> FreeBlocks(layout) == {} && Unfound(disk, layout, ino, offset)
      ensures r.Some? ==> Found(disk, layout, ino, offset, r.value)
      ensures r.Some? ==> |FreeBlocks(layout)| ==
                          |FreeBlocks(old(layout))| - Missing(old(disk), RootOf(old(disk), ino), nlevels, offset)
    {
      var superblock, p, blk := snapshot.superblock, snapshot.inodeBlockno, snapshot.inodeblock;
      var j: nat, level: nat, b: Word := 2 * snapshot.slot, nlevels, 0;
      ghost var k := |FreeBlocks(layout)| - Missing(disk, RootOf(disk, ino), nlevels, offset);
      WalkStart(disk, layout, ino, offset, snapshot);
      while true
        invariant |disk| == |old(disk)|
        invariant Walking(old(disk), old(layout), disk, layout, ino, level, offset, p, blk, j, k)
        invariant superblock == disk[0]
        invariant FreeBlocks(layout) == {} ==> disk[p] == blk
        decreases level
      {
        ghost var d, g := disk, layout;
        var tib: Block := ZeroBlock();
        b := blk[j];
        if b == 0 {
          r, superblock := FillHole(ino, offset, level, superblock, p, blk, j);
          if r.None? {
            WalkFails(old(disk), old(layout), disk, layout, ino, level, offset, p, blk, j, k);
            return;
          }
          b := r.value;
          WalkNew(old(disk), old(layout), d, g, disk, layout, ino, level, offset, p, blk, j, k, b);
          if level == 0 {
            break;
          }
        } else {
          WalkOld(old(disk), old(layout), disk, layout, ino, level, offset, p, blk, j, k);
          if level == 0 {
            break;
          }
          tib := disk[b];
        }
        level := level - 1;
        var index := LogShiftR(offset, level * LOG_RPB) % REFS_PER_BLOCK;
        ShiftIsPrefix(offset, level);
        assert index == Prefix(offset, level) % 128;
        j, blk, p := index, tib, b;
      }
      return Some(b);
    }

    /** The start of a write: the inode with its new size, in memory, and the number of
        levels before and after. */
    method Measure(ino: Word, offset: Word)
      returns (r: Status, snapshot: Snapshot, nlevels: nat, after: nat, dirty: bool)
      requires Valid()
      ensures r == Refused || r == Done
      ensures r == Refused <==> ino >= 64 * layout.n
      ensures r == Done ==>
        && WithSize(disk, layout, ino, offset, snapshot)
        && nlevels == layout.heights[ino]
        && after == Height(NewSize(SizeOf(disk, ino), offset)) >= nlevels && Prefix(offset, after) == 0
        && dirty == (offset >= SizeOf(disk, ino))
    {
      var s := GetSnapshot(ino);
      nlevels, after, dirty := 0, 0, false;
      if s.None? {
        return Refused, Snapshot(disk[0], disk[0], 0, 0), 0, 0, false;
      }
      snapshot := s.value;
      var size := snapshot.inodeblock[2 * snapshot.slot + 1];
      if size > 0 {
        nlevels := CountLevels(size - 1);
      }
      assert size == SizeOf(disk, ino) && nlevels == layout.heights[ino];
      NewHeight(size, offset);
      if offset >= size {
        snapshot := snapshot.(inodeblock := snapshot.inodeblock[2 * snapshot.slot + 1 := RaisedSize(offset)]);
        dirty := true;
        after := CountLevels(offset);
      } else {
        after := nlevels;
        assert snapshot.inodeblock[2 * snapshot.slot + 1 := size] == snapshot.inodeblock;
      }
      return Done, snapshot, nlevels, after, dirty;
    }

    /** The first half of a write: the new size, a tall enough tree, and the inode
        written back. At the last offset the new size is 0. */
    method Prepare(ino: Word, offset: Word) returns (r: Status, snapshot: Snapshot, nlevels: nat)
      requires Valid()
      modifies this
      ensures |disk| == |old(disk)|
      ensures r == Refused <==> ino >= 64 * old(layout.n)
      ensures r == Refused ==> disk == old(disk) && layout == old(layout)
      ensures ino < 64 * old(layout.n) ==> (r == Full <==>
        offset + 1 < WORD_LIMIT && |FreeBlocks(old(layout))| < NewRoots(old(disk), ino, offset))
      ensures r == Full ==> forall i :: 0 <= i < 64 * old(layout.n) ==> File(disk, i) == File(old(disk), i)
      ensures r == Done && offset + 1 < WORD_LIMIT ==>
        Prepared(old(disk), old(layout), disk, layout, snapshot, ino, offset, nlevels)
      ensures r == Done && offset + 1 == WORD_LIMIT ==>
        && Wrapped(old(disk), old(layout), disk, ino) && layout == old(layout)
        && nlevels == LevelsFor(offset) == 5
    {
      var after: nat, dirty;
      r, snapshot, nlevels, after, dirty := Measure(ino, offset);
      if r != Done {
        return;
      }
      ghost var s1 := snapshot;
      if offset + 1 < WORD_LIMIT {
        SizeRaised(disk, layout, ino, offset, s1);
      } else {
        SizeWrapped(disk, layout, ino, offset, s1);
      }
      if snapshot.inodeblock[2 * snapshot.slot + 1] == 0 {
        nlevels := after;
      } else if after > nlevels {
        var ok;
        ok, snapshot := GrowTree(ino, snapshot, nlevels, after);
        if !ok {
          SparedFiles(old(disk), old(layout), disk);
          return Full, snapshot, nlevels;
        }
        nlevels := after;
        TreeRaised(old(disk), old(layout), s1, disk, layout, snapshot, ino, offset, after);
      } else {
        TreeKept(disk, layout, ino, offset, s1);
      }
      if dirty {
        disk := disk[snapshot.inodeBlockno := snapshot.inodeblock];
      }
      return Done, snapshot, nlevels;
    }

    /** Writing a block of a file. It completes exactly when the free list holds as
        many blocks as the write needs, takes that many, and then the file has the block
        at the offset and zeros in any gap, and every other file is untouched. If it halts
        instead, no file has changed but for zeros at the end of this one, and that only on
        a disk that is still consistent. */
    method Write(ino: Word, offset: Word, block: Block) returns (r: Status)
      requires Valid() && offset + 1 < WORD_LIMIT
      modifies this
      ensures |disk| == |old(disk)|
      ensures r == Refused <==> ino >= 64 * old(layout.n)
      ensures r == Refused ==> disk == old(disk) && layout == old(layout)
      ensures ino < 64 * old(layout.n) ==>
        (r == Full <==> |FreeBlocks(old(layout))| < Needed(old(disk), ino, offset))
      ensures r == Done ==> Valid() && layout.n == old(layout.n) && Partitioned(disk)
      ensures r == Done ==> forall i :: 0 <= i < 64 * layout.n ==>
        File(disk, i) == if i == ino then WriteAt(File(old(disk), ino), offset, block) else File(old(disk), i)
      ensures r == Done ==> |FreeBlocks(layout)| == |FreeBlocks(old(layout))| - Needed(old(disk), ino, offset)
      ensures r == Full && |FreeBlocks(old(layout))| < NewRoots(old(disk), ino, offset) ==>
        forall i :: 0 <= i < 64 * old(layout.n) ==> File(disk, i) == File(old(disk), i)
      ensures r == Full && |FreeBlocks(old(layout))| >= NewRoots(old(disk), ino, offset) ==>
        && Valid() && layout.n == old(layout.n) && Partitioned(disk) && FreeBlocks(layout) == {}
        && forall i :: 0 <= i < 64 * layout.n ==>
             File(disk, i) == if i == ino then Extended(File(old(disk), ino), offset + 1) else File(old(disk), i)
    {
      var status, snapshot, nlevels := Prepare(ino, offset);
      if status != Done {
        return status;
      }
      ghost var d2, g2 := disk, layout;
      var b := Walk(ino, offset, snapshot, nlevels);
      if b.None? {
        NothingWritten(old(disk), old(layout), d2, g2, disk, layout, snapshot, ino, offset, nlevels);
        ExactPartition(disk, layout);
        return Full;
      }
      ghost var d3 := disk;
      disk := disk[b.value := block];
      WriteData(d3, layout, ino, offset, block, disk);
      AllWritten(old(disk), old(layout), d2, g2, d3, disk, layout, snapshot, ino, offset, nlevels, block);
      ExactPartition(disk, layout);
      return Done;
    }
  }

  /** The slot of a node on the path to `off` that refers to the next node. */
  lemma {:induction false} ChildSlot(d: Disk, g: Layout, ino: nat, level: nat, off: nat, b: nat)
    requires Inv(d, g) && b == Ref(g, Node(ino, level + 1, Prefix(off, level + 1))) && b != 0
    ensures b < |d|
    ensures d[b][Prefix(off, level) % 128] == Ref(g, Node(ino, level, Prefix(off, level)))
  {
    var node := Node(ino, level + 1, Prefix(off, level + 1));
    assert SlotsOk(d, g, node);
    assert Child(g, node, Prefix(off, level) % 128) == Node(ino, level, Prefix(off, level));
  }

  /** The disk as it will be once the inode block in memory is written back. */
  ghost function InMemory(d: Disk, s: Snapshot): (d': Disk)
    requires s.inodeBlockno < |d|
  {
    d[s.inodeBlockno := s.inodeblock]
  }

  /** A snapshot is current for `ino`: the superblock is the one on disk, the inode
      block may be ahead of the disk. */
  ghost predicate Current(d: Disk, g: Layout, ino: nat, s: Snapshot) {
    && ino < |g.heights| && s.inodeBlockno == 1 + ino / 64 < |d| && s.slot == ino % 64
    && s.superblock == d[0]
    && Inv(InMemory(d, s), g) && NoLoose(g)
  }

  lemma {:induction false} AllocReady(d: Disk, g: Layout, ino: nat, s: Snapshot)
    requires Current(d, g, ino, s)
    ensures d[0][1] < |d|
    ensures AllocStep(d).None? <==> FreeBlocks(g) == {}
    ensures AllocStep(d).Some? ==> 0 < AllocStep(d).value.1 < |d| == |AllocStep(d).value.0|
    ensures AllocStep(d).Some? ==> AllocStep(d).value.1 != s.inodeBlockno
    ensures AllocStep(d).Some? ==>
      AllocStep(d).value.1 in FreeBlocks(g) && Spared(d, FreeBlocks(g), AllocStep(d).value.0)
  {
    TopOfFreeList(InMemory(d, s), g);
    InodeBlockRole(InMemory(d, s), g, ino);
    AllocPending(d, s.inodeBlockno, s.inodeblock, g);
    var _ := AllocKeeps(InMemory(d, s), g);
    if AllocStep(d).Some? {
      AllocSpares(d, s.inodeBlockno, s.inodeblock, g);
    }
  }

  /** The tree of `ino` was raised to `level` levels and nothing else has changed. */
  ghost predicate Raised(d: Disk, g: Layout, s: Snapshot, d': Disk, g': Layout, s': Snapshot, ino: nat, level: nat)
    requires Current(d, g, ino, s) && Current(d', g', ino, s')
  {
    && |d'| == |d| && g'.n == g.n && g.heights[ino] <= level && g'.heights == g.heights[ino := level]
    && SameData(InMemory(d, s), g, InMemory(d', s'), g')
    && SameSizes(InMemory(d, s), InMemory(d', s'), g.n)
    && |FreeBlocks(g')| == |FreeBlocks(g)| - (level - g.heights[ino])
  }

  /** The root block refers to nothing except perhaps in slot 0. */
  ghost predicate TopIsBare(d: Disk, ino: nat)
    requires 1 + ino / 64 < |d|
  {
    0 < RootOf(d, ino) < |d| && forall j :: 1 <= j < 128 ==> d[RootOf(d, ino)][j] == 0
  }

  /** The invariant of the growing loop. */
  ghost predicate Growing(d: Disk, g: Layout, s: Snapshot, d': Disk, g': Layout, s': Snapshot, ino: nat, level: nat) {
    && Current(d, g, ino, s) && Current(d', g', ino, s')
    && Raised(d, g, s, d', g', s', ino, level)
    && (level > g.heights[ino] ==> TopIsBare(InMemory(d', s'), ino))
    && Spared(d, FreeBlocks(g), d') && FreeBlocks(g') <= FreeBlocks(g)
  }

  lemma {:induction false} RaiseOne(d0: Disk, g0: Layout, s0: Snapshot, d: Disk, g: Layout, s: Snapshot,
                                    d': Disk, g': Layout, s': Snapshot, ino: nat, level: nat, b: nat)
    requires Growing(d0, g0, s0, d, g, s, ino, level)
    requires s'.inodeBlockno == s.inodeBlockno < |d'| && s'.slot == s.slot && s'.superblock == d'[0]
    requires Grown(InMemory(d, s), g, InMemory(d', s'), g', ino, b) && Spared(d, FreeBlocks(g), d')
    ensures Growing(d0, g0, s0, d', g', s', ino, level + 1)
  {
    SameDataTrans(InMemory(d0, s0), g0, InMemory(d, s), g, InMemory(d', s'), g');
    SameSizesTrans(InMemory(d0, s0), InMemory(d, s), InMemory(d', s'), g.n);
  }

  /** The walk to `off` is about to look at the node at `level`: slot `j` of block `p`,
      whose contents are in memory as `blk`, refers to it. Only if that slot is a hole
      can the block in memory be ahead of the disk. */
  ghost predicate AtParent(d: Disk, g: Layout, ino: nat, level: nat, off: nat, p: nat, blk: Block, j: nat) {
    && 0 < p < |d| && j < 128
    && Inv(d[p := blk], g) && NoLoose(g) && ino < |g.heights| && level <= g.heights[ino]
    && (level == g.heights[ino] ==> Prefix(off, level) == 0)
    && off < SizeOf(d[p := blk], ino)
    && ParentRole(g, ino, level, Prefix(off, level)) in g.at
    && Parent(g, ino, level, off) == (p, j)
    && (blk[j] != 0 ==> d[p] == blk)
  }

  /** What the walk keeps. */
  ghost predicate Walked(d: Disk, g: Layout, d': Disk, g': Layout, ino: nat, off: nat) {
    && Inv(d, g) && |d'| == |d| && g'.n == g.n && g'.heights == g.heights
    && SameDataBut(d, g, d', g', ino, off)
    && SameSizes(d, d', g.n)
  }

  /** The node at `level` was missing and is now block `b`; an indirect block still has
      to be written, as zeros. */
  ghost predicate Filled(d: Disk, g: Layout, d': Disk, g': Layout, ino: nat, level: nat, off: nat, b: nat)
    requires b < |d'|
  {
    if level > 0 then
      && Walked(d, g, d'[b := ZeroBlock()], g', ino, off)
      && AtParent(d', g', ino, level - 1, off, b, ZeroBlock(), Prefix(off, level - 1) % 128)
    else
      && Walked(d, g, d', g', ino, off)
      && Found(d', g', ino, off, b)
  }

  /** The invariant of the walk; `k` blocks will be left in the free list. */
  ghost predicate Walking(d0: Disk, g0: Layout, d: Disk, g: Layout, ino: nat, level: nat, off: nat,
                          p: nat, blk: Block, j: nat, k: int)
  {
    && AtParent(d, g, ino, level, off, p, blk, j)
    && Walked(d0, g0, d[p := blk], g, ino, off)
    && k == |FreeBlocks(g)| - Missing(d[p := blk], blk[j], level, off)
  }

  lemma {:induction false} WalkNew(d0: Disk, g0: Layout, d: Disk, g: Layout, d': Disk, g': Layout,
                                   ino: nat, level: nat, off: nat, p: nat, blk: Block, j: nat, k: int, b: nat)
    requires Walking(d0, g0, d, g, ino, level, off, p, blk, j, k) && blk[j] == 0
    requires b < |d'| == |d| && Filled(d[p := blk], g, d', g', ino, level, off, b)
    requires |FreeBlocks(g')| == |FreeBlocks(g)| - 1
    ensures level > 0 ==>
      Walking(d0, g0, d', g', ino, level - 1, off, b, ZeroBlock(), Prefix(off, level - 1) % 128, k)
    ensures level == 0 ==>
      Walked(d0, g0, d', g', ino, off) && Found(d', g', ino, off, b) && k == |FreeBlocks(g')|
  {
  }

  lemma {:induction false} WalkOld(d0: Disk, g0: Layout, d: Disk, g: Layout, ino: nat, level: nat, off: nat,
                                   p: nat, blk: Block, j: nat, k: int)
    requires Walking(d0, g0, d, g, ino, level, off, p, blk, j, k) && blk[j] != 0
    ensures blk[j] < |d|
    ensures level > 0 ==>
      Walking(d0, g0, d, g, ino, level - 1, off, blk[j], d[blk[j]], Prefix(off, level - 1) % 128, k)
    ensures level == 0 ==>
      Walked(d0, g0, d, g, ino, off) && Found(d, g, ino, off, blk[j]) && k == |FreeBlocks(g)|
  {
    StepIntoOld(d, g, ino, level, off, p, blk, j);
  }

  /** The walk stops at a hole with no block left to fill it. */
  lemma {:induction false} WalkFails(d0: Disk, g0: Layout, d: Disk, g: Layout, ino: nat, level: nat, off: nat,
                                     p: nat, blk: Block, j: nat, k: int)
    requires Walking(d0, g0, d, g, ino, level, off, p, blk, j, k) && blk[j] == 0 && d[p] == blk
    ensures Walked(d0, g0, d, g, ino, off) && Unfound(d, g, ino, off)
  {
    assert d[p := blk] == d;
    SlotIsNode(d, g, ino, level, off, p, blk, j);
    if Node(ino, 0, off) in g.at {
      Ancestor(d, g, ino, off, level);
    }
  }

  /** A block just taken holds zeros already if it was the last free one. */
  lemma {:induction false} LastFilled(d: Disk, g: Layout, p: nat, blk: Block, d': Disk, b: nat)
    requires 0 < p < |d| && Inv(d[p := blk], g) && !g.owner[p].IsFree()
    requires AllocStep(d) == Some((d', b))
    ensures |FreeBlocks(g)| == 1 ==> b < |d'| && d'[b] == ZeroBlock()
  {
    if |FreeBlocks(g)| == 1 {
      AllocPending(d, p, blk, g);
      AllocSpares(d, p, blk, g);
      assert |FreeBlocks(g) - {b}| == 0;
      assert FreeBlocks(g) == {b};
      LastIsZero(d[p := blk], g, b);
    }
  }

  lemma {:induction false} SlotIsNode(d: Disk, g: Layout, ino: nat, level: nat, off: nat, p: nat, blk: Block, j: nat)
    requires AtParent(d, g, ino, level, off, p, blk, j)
    ensures blk[j] == Ref(g, Node(ino, level, Prefix(off, level)))
    ensures blk[j] == 0 <==> Node(ino, level, Prefix(off, level)) !in g.at
    ensures blk[j] < |d|
  {
    var parent := ParentRole(g, ino, level, Prefix(off, level));
    assert SlotsOk(d[p := blk], g, parent);
    assert Child(g, parent, j) == Node(ino, level, Prefix(off, level));
    assert g.owner[0] == Super;
  }

  lemma {:induction false} HoleReady(d: Disk, g: Layout, ino: nat, level: nat, off: nat, p: nat, blk: Block, j: nat)
    requires AtParent(d, g, ino, level, off, p, blk, j) && blk[j] == 0
    ensures Hole(d[p := blk], g, ino, level, off)
    ensures d[0][1] < |d|
    ensures AllocStep(d).None? <==> FreeBlocks(g) == {}
    ensures AllocStep(d).Some? ==> AllocStep(d).value.1 < |d| == |AllocStep(d).value.0|
  {
    SlotIsNode(d, g, ino, level, off, p, blk, j);
    TopOfFreeList(d[p := blk], g);
    AllocPending(d, p, blk, g);
    var _ := AllocKeeps(d[p := blk], g);
  }

  lemma {:induction false} WalkStart(d: Disk, g: Layout, ino: nat, off: nat, s: Snapshot)
    requires Current(d, g, ino, s) && d[s.inodeBlockno] == s.inodeblock
    requires Prefix(off, g.heights[ino]) == 0 && off < SizeOf(d, ino)
    ensures d[s.inodeBlockno := s.inodeblock] == d
    ensures AtParent(d, g, ino, g.heights[ino], off, s.inodeBlockno, s.inodeblock, 2 * s.slot)
    ensures Walked(d, g, d, g, ino, off)
  {
    assert d[s.inodeBlockno := s.inodeblock] == d;
    InodeBlockRole(d, g, ino);
  }

  /** Block `b` is the data block of `off`. */
  ghost predicate Found(d: Disk, g: Layout, ino: nat, off: nat, b: nat) {
    Inv(d, g) && NoLoose(g) && 0 < b < |d| && Ref(g, Node(ino, 0, off)) == b
  }

  /** There is no data block for `off`. */
  ghost predicate Unfound(d: Disk, g: Layout, ino: nat, off: nat) {
    Inv(d, g) && NoLoose(g) && Node(ino, 0, off) !in g.at
  }

  lemma {:induction false} StepIntoNew(d: Disk, g: Layout, ino: nat, level: nat, off: nat, b: nat)
    requires level > 0 && 0 < b < |d| && Inv(d[b := ZeroBlock()], g) && NoLoose(g)
    requires ino < |g.heights| && level <= g.heights[ino] && off < SizeOf(d[b := ZeroBlock()], ino)
    requires Ref(g, Node(ino, level, Prefix(off, level))) == b
    ensures AtParent(d, g, ino, level - 1, off, b, ZeroBlock(), Prefix(off, level - 1) % 128)
  {
  }

  lemma {:induction false} StepIntoOld(d: Disk, g: Layout, ino: nat, level: nat, off: nat, p: nat, blk: Block, j: nat)
    requires AtParent(d, g, ino, level, off, p, blk, j) && blk[j] != 0
    ensures d[p := blk] == d && blk[j] < |d| && d[blk[j] := d[blk[j]]] == d
    ensures level == 0 ==> Found(d, g, ino, off, blk[j])
    ensures level > 0 ==>
      && AtParent(d, g, ino, level - 1, off, blk[j], d[blk[j]], Prefix(off, level - 1) % 128)
      && Missing(d[p := blk], blk[j], level, off)
         == Missing(d[blk[j] := d[blk[j]]], d[blk[j]][Prefix(off, level - 1) % 128], level - 1, off)
  {
    SlotIsNode(d, g, ino, level, off, p, blk, j);
    assert d[p := blk] == d && d[blk[j] := d[blk[j]]] == d;
  }

  /** The size entered in the inode by a write at or beyond the end of a file. */
  function RaisedSize(offset: Word): (size: Word) {
    (offset + 1) % WORD_LIMIT
  }

  function NewSize(size: nat, off: nat): (size': nat) {
    if off < size then size else off + 1
  }

  /** No disk can hold what a write at the last offset should give. Hence a write gives it,
      with enough free blocks, exactly at the other offsets. */
  lemma {:induction false} NoSuchFile(d: Disk, d': Disk, ino: nat, off: Word, blk: Block)
    requires 1 + ino / 64 < |d| == |d'| && off + 1 == WORD_LIMIT
    ensures File(d', ino) != WriteAt(File(d, ino), off, blk)
  {
    assert |WriteAt(File(d, ino), off, blk)| == WORD_LIMIT;
  }

  /** The size that a write enters in the inode. */
  function EnteredSize(size: Word, off: Word): (size': Word) {
    if off < size then size else RaisedSize(off)
  }

  /** How many roots a write at `off` puts above the tree. */
  function NewRoots(d: Disk, ino: nat, off: nat): (n: int)
    requires 1 + ino / 64 < |d|
  {
    Height(NewSize(SizeOf(d, ino), off)) - Height(SizeOf(d, ino))
  }

  /** What the first half of a write at the last offset does: the file is empty now
      although its tree is still there, and all other files are as before. */
  ghost predicate Wrapped(d: Disk, g: Layout, d': Disk, ino: nat)
    requires g.n < |d| == |d'| && ino < 64 * g.n
  {
    && File(d', ino) == [] && RootOf(d', ino) == RootOf(d, ino)
    && (forall x :: 0 <= x < |d| && x != 1 + ino / 64 ==> d'[x] == d[x])
    && (forall i :: 0 <= i < 64 * g.n && i != ino ==> File(d', i) == File(d, i))
  }

  lemma {:induction false} SizeWrapped(d: Disk, g: Layout, ino: nat, off: Word, s: Snapshot)
    requires WithSize(d, g, ino, off, s) && off + 1 == WORD_LIMIT
    ensures s.inodeblock[2 * s.slot + 1] == 0 && LevelsFor(off) == 5
    ensures Wrapped(d, g, InMemory(d, s), ino)
  {
    var d' := InMemory(d, s);
    assert LevelsFor(off) == 1 + LevelsFor(0x1FF_FFFF) == 3 + LevelsFor(0x7FF) == 5;
    InodeBlockRole(d, g, ino);
    forall i | 0 <= i < 64 * g.n && i != ino
      ensures File(d', i) == File(d, i)
    {
      FileFrame(d, g, d', i);
    }
  }

  /** The file is `off + 1` long if it was shorter; other files keep their size. */
  ghost predicate Sized(d: Disk, d': Disk, n: nat, ino: nat, off: nat)
    requires ino < 64 * n && n < |d| == |d'|
  {
    && SizeOf(d', ino) == NewSize(SizeOf(d, ino), off)
    && (forall i :: 0 <= i < 64 * n && i != ino ==> SizeOf(d', i) == SizeOf(d, i))
  }

  /** What the first half of a write establishes. */
  ghost predicate Prepared(d: Disk, g: Layout, d': Disk, g': Layout, s: Snapshot, ino: nat, off: nat, nlevels: nat) {
    && Consistent(d, g) && ino < 64 * g.n && |d'| == |d| && g'.n == g.n
    && Current(d', g', ino, s) && d'[s.inodeBlockno] == s.inodeblock
    && g'.heights == g.heights[ino := nlevels]
    && nlevels == Height(NewSize(SizeOf(d, ino), off)) && Prefix(off, nlevels) == 0
    && SameData(d, g, d', g') && Sized(d, d', g.n, ino, off)
    && |FreeBlocks(g')| - Missing(d', RootOf(d', ino), nlevels, off) == |FreeBlocks(g)| - Needed(d, ino, off)
  }

  /** The snapshot's inode block with the size raised if need be. */
  ghost predicate WithSize(d: Disk, g: Layout, ino: nat, off: Word, s: Snapshot) {
    && Consistent(d, g) && ino < 64 * g.n
    && s == Snapshot(d[0], d[1 + ino / 64][2 * (ino % 64) + 1 := EnteredSize(SizeOf(d, ino), off)],
                     1 + ino / 64, ino % 64)
  }

  lemma {:induction false} SizeRaised(d: Disk, g: Layout, ino: nat, off: Word, s: Snapshot)
    requires WithSize(d, g, ino, off, s) && off + 1 < WORD_LIMIT
    ensures Current(d, g, ino, s)
    ensures SameData(d, g, InMemory(d, s), g)
    ensures Sized(d, InMemory(d, s), g.n, ino, off)
    ensures RootOf(InMemory(d, s), ino) == RootOf(d, ino)
    ensures off < SizeOf(d, ino) ==> InMemory(d, s) == d
  {
    Resize(d, g, ino, NewSize(SizeOf(d, ino), off), InMemory(d, s));
    assert off < SizeOf(d, ino) ==> s.inodeblock == d[1 + ino / 64];
    assert off < SizeOf(d, ino) ==> InMemory(d, s) == d;
  }

  lemma {:induction false} NewHeight(size: nat, off: nat)
    ensures off < size ==> Height(NewSize(size, off)) == Height(size)
    ensures off >= size ==> Height(NewSize(size, off)) == LevelsFor(off) >= Height(size)
    ensures Prefix(off, Height(NewSize(size, off))) == 0
  {
    HigherDigitsZero(off, NewSize(size, off), Height(NewSize(size, off)));
    if 0 < size <= off {
      LevelsMonotone(size - 1, off);
    }
  }

  lemma {:induction false} TreeKept(d: Disk, g: Layout, ino: nat, off: Word, s: Snapshot)
    requires WithSize(d, g, ino, off, s) && off + 1 < WORD_LIMIT
    requires Height(NewSize(SizeOf(d, ino), off)) == g.heights[ino]
    ensures Prepared(d, g, InMemory(d, s), g, s, ino, off, g.heights[ino])
  {
    SizeRaised(d, g, ino, off, s);
    NewHeight(SizeOf(d, ino), off);
    InodeBlockRole(d, g, ino);
    RootIsTop(d, g, ino);
    MissingFrame(d, InMemory(d, s), g, ino, g.heights[ino], off);
    assert InMemory(InMemory(d, s), s) == InMemory(d, s);
  }

  lemma {:induction false} TreeRaised(d: Disk, g: Layout, s: Snapshot, d': Disk, g': Layout, s': Snapshot,
                                      ino: nat, off: Word, after: nat)
    requires WithSize(d, g, ino, off, s) && off + 1 < WORD_LIMIT && Current(d, g, ino, s) && Current(d', g', ino, s')
    requires off >= SizeOf(d, ino) && after == LevelsFor(off) > g.heights[ino]
    requires Raised(d, g, s, d', g', s', ino, after) && TopIsBare(InMemory(d', s'), ino)
    ensures Prepared(d, g, InMemory(d', s'), g', s', ino, off, after)
  {
    SizeRaised(d, g, ino, off, s);
    NewHeight(SizeOf(d, ino), off);
    SameDataTrans(d, g, InMemory(d, s), g, InMemory(d', s'), g');
    MissingBelowNewTop(InMemory(d', s'), ino, off);
    assert InMemory(InMemory(d', s'), s') == InMemory(d', s');
  }

  /** A write that could not complete: the files afterwards. */
  lemma {:induction false} NothingWritten(d: Disk, g: Layout, d2: Disk, g2: Layout, d3: Disk, g3: Layout,
                                          s: Snapshot, ino: nat, off: nat, nlevels: nat)
    requires Prepared(d, g, d2, g2, s, ino, off, nlevels) && Walked(d2, g2, d3, g3, ino, off)
    requires Unfound(d3, g3, ino, off) && Missing(d2, RootOf(d2, ino), nlevels, off) > 0
    ensures Consistent(d3, g3)
    ensures forall i :: 0 <= i < 64 * g.n ==>
      File(d3, i) == if i == ino then Extended(File(d, ino), off + 1) else File(d, i)
  {
    MissingReadsZero(d2, RootOf(d2, ino), nlevels, off);
    RootIsTop(d2, g2, ino);
    LookupIsData(d2, g2, ino, nlevels, off);
    assert Data(d2, g2, ino, off) == Data(d3, g3, ino, off);
    assert SameData(d, g, d3, g3);
    assert HeightsOk(d3, g3);
    forall i | 0 <= i < 64 * g.n
      ensures File(d3, i) == if i == ino then Extended(File(d, ino), off + 1) else File(d, i)
    {
      FileExtended(d, g, d3, g3, i);
    }
  }

  /** A completed write: the files afterwards. */
  lemma {:induction false} AllWritten(d: Disk, g: Layout, d2: Disk, g2: Layout, d3: Disk, d4: Disk, g4: Layout,
                   s: Snapshot, ino: nat, off: nat, nlevels: nat, blk: Block)
    requires Prepared(d, g, d2, g2, s, ino, off, nlevels)
    requires Walked(d2, g2, d3, g4, ino, off) && Inv(d4, g4) && NoLoose(g4) && Inv(d3, g4)
    requires Node(ino, 0, off) in g4.at && d4 == d3[g4.at[Node(ino, 0, off)] := blk]
    requires SameDataBut(d3, g4, d4, g4, ino, off) && Data(d4, g4, ino, off) == blk
    ensures Consistent(d4, g4)
    ensures forall i :: 0 <= i < 64 * g.n ==>
      File(d4, i) == if i == ino then WriteAt(File(d, ino), off, blk) else File(d, i)
  {
    SameDataButTrans(d, g, d2, g2, d3, g4, ino, off);
    SameDataButTrans(d, g, d3, g4, d4, g4, ino, off);
    AllSized(d, g, d2, d3, d4, g4, ino, off, blk);
    assert HeightsOk(d4, g4);
    FileWritten(d, g, d4, g4, ino, off, blk);
    forall i | 0 <= i < 64 * g.n && i != ino
      ensures File(d4, i) == File(d, i)
    {
      FileUntouched(d, g, d4, g4, ino, off, i);
    }
  }

  lemma {:induction false} AllSized(d: Disk, g: Layout, d2: Disk, d3: Disk, d4: Disk, g4: Layout, ino: nat, off: nat,
                                    blk: Block)
    requires ino < 64 * g.n && g.n < |d| == |d2| == |d3| && g4.n == g.n && Inv(d3, g4)
    requires Sized(d, d2, g.n, ino, off) && SameSizes(d2, d3, g.n)
    requires Node(ino, 0, off) in g4.at && d4 == d3[g4.at[Node(ino, 0, off)] := blk]
    ensures Sized(d, d4, g.n, ino, off)
  {
  }

  /** The number of blocks for `ninodes` inodes, computed in 32-bit arithmetic. */
  function InodeBlocks(ninodes: Word): (n: Word)
    ensures 64 * n < WORD_LIMIT
  {
    (ninodes + INODES_PER_BLOCK - 1) % WORD_LIMIT / INODES_PER_BLOCK
  }

  /** There are inodes enough, and no more than a block's worth too many, exactly when
      rounding up does not overflow. */
  lemma {:induction false} InodeBlocksSuffice(ninodes: Word)
    ensures ninodes <= 64 * InodeBlocks(ninodes) < ninodes + 64 <==> ninodes <= 0xFFFF_FFC0
  {
  }

  /** A write that takes the tree from `before` to `after` levels never needs more than
      the new roots and one block on every level. */
  lemma {:induction false} NeededAtMost(d: Disk, ino: nat, off: nat)
    requires 1 + ino / 64 < |d|
    ensures var before, after := Height(SizeOf(d, ino)), Height(NewSize(SizeOf(d, ino), off));
      before <= after && Needed(d, ino, off) <= after - before + after + 1
  {
    NewHeight(SizeOf(d, ino), off);
  }
}
