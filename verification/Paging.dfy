/** The paging device: 256 frames behind a write-back cache of 28 pages, or, on the
    emulator, 256 frames in memory. */
module Paging {
  import opened Base

  const CACHED := 28
  const NFRAMES := 256
  const PAGE_SIZE := 4096

  type Page = p: seq<Byte> | |p| == 4096 witness seq(4096, _ => 0)

  /** The slot that holds frame `f`, or the number of slots if none does. */
  function SlotOf(slots: seq<int>, f: int): (i: nat)
    ensures i <= |slots|
    ensures i < |slots| ==> slots[i] == f
    ensures forall j :: 0 <= j < i ==> slots[j] != f
  {
    if slots == [] then 0
    else if slots[0] == f then 0
    else
      var i := SlotOf(slots[1..], f);
      assert forall j :: 1 <= j < i + 1 ==> slots[j] == slots[1..][j - 1];
      1 + i
  }

  /** The contents of a frame: its cached page if there is one, else its page on disk. */
  function FrameOf(slots: seq<int>, pages: seq<Page>, disk: seq<Page>, f: nat): (p: Page)
    requires |slots| == |pages| && f < |disk|
  {
    var i := SlotOf(slots, f);
    if i < |slots| then pages[i] else disk[f]
  }

  /** Slots hold frame numbers or -1, and no frame is held twice. */
  ghost predicate SlotsOk(slots: seq<int>) {
    && (forall i :: 0 <= i < |slots| ==> -1 <= slots[i] < NFRAMES)
    && (forall i, j :: 0 <= i < j < |slots| && slots[i] == slots[j] ==> slots[i] == -1)
  }

  class PagingDevice {
    const qemu: bool
    const slots: array<int>
    const pages: array<Page>
    const disk: array<Page>
    var stray: nat  // disk writes that went outside the paging area

    ghost predicate Valid()
      reads this, slots, pages, disk
    {
      && slots.Length == CACHED && pages.Length == (if qemu then NFRAMES else CACHED) && disk.Length == NFRAMES
      && pages != disk
      && SlotsOk(slots[..])
      && (qemu ==> forall i :: 0 <= i < CACHED ==> slots[i] == -1)
    }

    ghost function Frame(f: nat): (p: Page)
      requires Valid() && f < NFRAMES
      reads this, slots, pages, disk
    {
      if qemu then pages[f] else FrameOf(slots[..], pages[..], disk[..], f)
    }

    /** All frames, as one flat array: on the emulator this is the memory itself. */
    ghost function Frames(): (s: seq<Page>)
      requires Valid()
      reads this, slots, pages, disk
      ensures |s| == NFRAMES
    {
      seq(NFRAMES, f requires 0 <= f < NFRAMES && Valid() reads this, slots, pages, disk => Frame(f))
    }

    /** Page `idx` of the cache is where frame `f` lives. */
    ghost predicate Holds(idx: nat, f: nat)
      reads this, slots
    {
      if qemu then idx == f else idx < slots.Length && slots[idx] == f
    }

    constructor (onQemu: bool)
      ensures Valid() && fresh(slots) && fresh(pages) && fresh(disk) && stray == 0
      ensures qemu == onQemu && forall i :: 0 <= i < CACHED ==> slots[i] == -1
    {
      qemu := onQemu;
      slots := new int[CACHED](_ => -1);
      pages := new Page[if onQemu then NFRAMES else CACHED](_ => seq(4096, _ => 0));
      disk := new Page[NFRAMES](_ => seq(4096, _ => 0));
      stray := 0;
    }

    /** Writes a randomly chosen slot back to disk. The slot keeps its label; writing
        back a slot that holds no frame goes astray. */
    method CacheEviction() returns (idx: nat)
      requires Valid() && !qemu
      modifies this`stray, disk
      ensures Valid() && idx < CACHED
      ensures slots[idx] != -1 ==> disk[..] == old(disk[..])[slots[idx] := pages[idx]] && stray == old(stray)
      ensures slots[idx] == -1 ==> disk[..] == old(disk[..]) && stray == old(stray) + 1
    {
      idx :| 0 <= idx < CACHED;
      var frameId := slots[idx];
      if frameId == -1 {
        stray := stray + 1;
      } else {
        disk[frameId] := pages[idx];
      }
    }

    method InvalidateCache(frameId: nat)
      requires Valid() && frameId < NFRAMES
      modifies slots
      ensures Valid()
      ensures forall f :: 0 <= f < NFRAMES && f != frameId ==> Frame(f) == old(Frame(f))
      ensures frameId !in slots[..]
    {
      var j := 0;
      while j < CACHED
        invariant 0 <= j <= CACHED
        invariant Valid()
        invariant forall i :: 0 <= i < CACHED ==>
          slots[i] == if i < j && old(slots[i]) == frameId then -1 else old(slots[i])
      {
        if slots[j] == frameId {
          slots[j] := -1;
        }
        j := j + 1;
      }
      forall f | 0 <= f < NFRAMES && f != frameId
        ensures Frame(f) == old(Frame(f))
      {
        SameSlot(old(slots[..]), slots[..], f);
      }
    }

    /** Stores a page into a frame. No other frame changes, whichever slot is evicted;
        a stray write happens exactly when the frame is not cached and the slot chosen
        for eviction is empty. */
    method Write(frameId: nat, src: Page) returns (ghost victim: nat)
      requires Valid() && frameId < NFRAMES
      modifies this`stray, slots, pages, disk
      ensures Valid() && victim < CACHED
      ensures Frames() == old(Frames())[frameId := src]
      ensures stray == old(stray) + if !qemu && frameId !in old(slots[..]) && old(slots[victim]) == -1 then 1 else 0
    {
      victim := 0;
      if qemu {
        pages[frameId] := src;
        return;
      }
      var i := 0;
      while i < CACHED
        invariant 0 <= i <= CACHED
        invariant forall j :: 0 <= j < i ==> slots[j] != frameId
      {
        if slots[i] == frameId {
          pages[i] := src;
          assert slots[i] in slots[..];
          StoreCached(slots[..], old(pages[..]), disk[..], i, src);
          return;
        }
        i := i + 1;
      }
      var freeIdx := CacheEviction();
      victim := freeIdx;
      slots[freeIdx] := frameId;
      pages[freeIdx] := src;
      Reload(old(slots[..]), old(pages[..]), old(disk[..]), disk[..], freeIdx, frameId, src);
      assert slots[..] == old(slots[..])[freeIdx := frameId];
      assert pages[..] == old(pages[..])[freeIdx := src];
    }

    /** Brings a frame into the cache and says where. Unless the caller means to
        overwrite it (`allocOnly`) the frame keeps its contents; other frames always do,
        and no write goes astray. */
    method Read(frameId: nat, allocOnly: bool) returns (idx: nat)
      requires Valid() && frameId < NFRAMES
      modifies this`stray, slots, pages, disk
      ensures Valid() && Holds(idx, frameId) && pages[idx] == Frame(frameId)
      ensures !allocOnly ==> Frames() == old(Frames())
      ensures Frames() == old(Frames())[frameId := pages[idx]]
      ensures stray == old(stray)
    {
      if qemu {
        assert Frames() == old(Frames())[frameId := Frame(frameId)];
        return frameId;
      }
      var freeIdx := -1;
      var i := 0;
      while i < CACHED
        invariant 0 <= i <= CACHED
        invariant -1 <= freeIdx < i && (freeIdx != -1 ==> slots[freeIdx] == -1)
        invariant freeIdx == -1 ==> forall j :: 0 <= j < i ==> slots[j] != -1
        invariant forall j :: 0 <= j < i ==> slots[j] != frameId
      {
        if slots[i] == -1 && freeIdx == -1 {
          freeIdx := i;
        }
        if slots[i] == frameId {
          assert Frames() == old(Frames())[frameId := Frame(frameId)];
          return i;
        }
        i := i + 1;
      }
      if freeIdx == -1 {
        freeIdx := CacheEviction();
      }
      slots[freeIdx] := frameId;
      if !allocOnly {
        pages[freeIdx] := disk[frameId];
      }
      idx := freeIdx;
      Reload(old(slots[..]), old(pages[..]), old(disk[..]), disk[..], freeIdx, frameId, pages[idx]);
      assert slots[..] == old(slots[..])[freeIdx := frameId];
      assert pages[..] == old(pages[..])[freeIdx := pages[idx]];
      assert Frames() == old(Frames())[frameId := pages[idx]];
    }

    /** Changes a frame through the address that `Read` gave. */
    method Poke(idx: nat, frameId: nat, p: Page)
      requires Valid() && frameId < NFRAMES && Holds(idx, frameId)
      modifies pages
      ensures Valid() && Holds(idx, frameId) && pages[idx] == p
      ensures Frames() == old(Frames())[frameId := p]
    {
      pages[idx] := p;
      if !qemu {
        StoreCached(slots[..], old(pages[..]), disk[..], idx, p);
        assert pages[..] == old(pages[..])[idx := p];
      }
    }
  }

  lemma {:induction false} SlotUnique(slots: seq<int>, i: nat)
    requires SlotsOk(slots) && i < |slots| && slots[i] != -1
    ensures SlotOf(slots, slots[i]) == i
  {
  }

  /** A frame whose slots are the same before and after stays in the same slot. */
  lemma {:induction false} SameSlot(slots: seq<int>, slots': seq<int>, f: int)
    requires |slots| == |slots'| && forall i :: 0 <= i < |slots| ==> (slots[i] == f <==> slots'[i] == f)
    ensures SlotOf(slots', f) == SlotOf(slots, f)
  {
  }

  lemma {:induction false} StoreCached(slots: seq<int>, pages: seq<Page>, disk: seq<Page>, i: nat, p: Page)
    requires SlotsOk(slots) && |slots| == |pages| && |disk| == NFRAMES
    requires i < |slots| && slots[i] != -1
    ensures forall f :: 0 <= f < NFRAMES ==>
      FrameOf(slots, pages[i := p], disk, f) == if f == slots[i] then p else FrameOf(slots, pages, disk, f)
  {
    forall f | 0 <= f < NFRAMES
      ensures FrameOf(slots, pages[i := p], disk, f) == if f == slots[i] then p else FrameOf(slots, pages, disk, f)
    {
      SlotUnique(slots, i);
      assert SlotOf(slots, f) < |slots| ==> slots[SlotOf(slots, f)] == f;
    }
  }

  /** A slot whose page has been written back is given to another frame. */
  lemma {:induction false} Reload(slots: seq<int>, pages: seq<Page>, disk: seq<Page>, disk': seq<Page>, i: nat,
                                  frameId: nat, p: Page)
    requires SlotsOk(slots) && |slots| == |pages| && |disk| == NFRAMES && frameId < NFRAMES
    requires i < |slots| && frameId !in slots
    requires disk' == if slots[i] == -1 then disk else disk[slots[i] := pages[i]]
    ensures SlotsOk(slots[i := frameId])
    ensures forall f :: 0 <= f < NFRAMES ==>
      FrameOf(slots[i := frameId], pages[i := p], disk', f)
      == if f == frameId then p else FrameOf(slots, pages, disk, f)
  {
    var slots' := slots[i := frameId];
    forall f | 0 <= f < NFRAMES
      ensures FrameOf(slots', pages[i := p], disk', f) == if f == frameId then p else FrameOf(slots, pages, disk, f)
    {
      if f == frameId {
        SlotUnique(slots', i);
      } else if f == slots[i] {
        SlotUnique(slots, i);
        assert SlotOf(slots', f) == |slots|;
      } else {
        SameSlot(slots, slots', f);
      }
    }
  }
}
