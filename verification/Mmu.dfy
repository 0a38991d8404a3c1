/** The memory management unit with software address translation. */
module Mmu {
  import opened Paging
  import opened AddressSpace

  class Mmu {
    const dev: PagingDevice
    const table: array<Mapping>
    var memory: map<PageNo, Page>
    var curr: int

    ghost predicate Valid()
      reads this, table, dev, dev.slots, dev.pages, dev.disk
    {
      && dev.Valid() && table.Length == NFRAMES
      && (table as object) != dev.slots && (table as object) != dev.pages && (table as object) != dev.disk
    }

    ghost function View(): (vm: Vm)
      requires Valid()
      reads this, table, dev, dev.slots, dev.pages, dev.disk
      ensures WellFormed(vm)
    {
      Vm(dev.Frames(), table[..], memory, curr)
    }

    constructor (onQemu: bool)
      ensures Valid() && fresh(table) && fresh(dev) && fresh(dev.slots) && fresh(dev.pages) && fresh(dev.disk)
      ensures Represents(View(), Private(map[], -1))
    {
      dev := new PagingDevice(onQemu);
      table := new Mapping[NFRAMES](_ => Mapping(false, 0, 0));
      memory := map[];
      curr := -1;
    }

    /** Takes the first unused frame and brings it into the cache. */
    method Alloc() returns (ok: bool, frame: nat, idx: nat)
      requires Valid()
      modifies table, dev`stray, dev.slots, dev.pages, dev.disk
      ensures Valid()
      ensures ok <==> exists i :: 0 <= i < NFRAMES && !old(table[i].use)
      ensures !ok ==> View() == old(View())
      ensures ok ==> frame < NFRAMES && !old(table[frame].use) && dev.Holds(idx, frame) && idx < dev.pages.Length
      ensures ok ==> forall i :: 0 <= i < frame ==> old(table[i].use)
      ensures ok ==> View() == old(View()).(frames := old(View()).frames[frame := dev.pages[idx]],
                                            table := old(View()).table[frame := old(table[frame]).(use := true)])
    {
      frame, idx := 0, 0;
      while frame < NFRAMES
        invariant 0 <= frame <= NFRAMES
        invariant forall i :: 0 <= i < frame ==> table[i].use
      {
        if !table[frame].use {
          idx := dev.Read(frame, true);
          table[frame] := table[frame].(use := true);
          assert table[..] == old(table[..])[frame := old(table[frame]).(use := true)];
          return true, frame, idx;
        }
        frame := frame + 1;
      }
      return false, 0, 0;
    }

    /** Makes a frame a page of a process. */
    method Map(pid: int, page: PageNo, frame: nat)
      requires Valid() && frame < NFRAMES
      modifies table
      ensures Valid()
      ensures View() == old(View()).(table := old(View()).table[frame := Mapping(old(table[frame].use), pid, page)])
    {
      table[frame] := table[frame].(pid := pid, page := page);
      assert table[..] == old(table[..])[frame := Mapping(old(table[frame].use), pid, page)];
    }

    /** Frees the frames of a process. */
    method Free(pid: int)
      requires Valid()
      modifies table, dev.slots
      ensures Valid()
      ensures Allowed(old(View()), Op.Free(pid, dev.Frames()))
      ensures View() == Step(old(View()), Op.Free(pid, dev.Frames()))
    {
      var i := 0;
      ghost var t := table[..];
      while i < NFRAMES
        invariant 0 <= i <= NFRAMES && Valid()
        invariant forall j :: i <= j < NFRAMES ==> table[j] == t[j]
        invariant forall j :: 0 <= j < i ==> table[j] == Cleared(t, pid)[j]
        invariant forall j :: 0 <= j < NFRAMES && !(t[j].use && t[j].pid == pid) ==> dev.Frame(j) == old(dev.Frame(j))
      {
        if table[i].use && table[i].pid == pid {
          dev.InvalidateCache(i);
          table[i] := Mapping(false, 0, 0);
        }
        i := i + 1;
      }
      assert table[..] == Cleared(t, pid);
    }

    /** Copies the pages of the current process out to their frames. */
    method CopyOut()
      requires Valid()
      modifies dev`stray, dev.slots, dev.pages, dev.disk
      ensures Valid()
      ensures View() == old(View()).(frames := Saved(old(View())))
    {
      ghost var vm := View();
      var i := 0;
      while i < NFRAMES
        invariant 0 <= i <= NFRAMES && Valid()
        invariant View() == vm.(frames := SavedTo(vm, i))
      {
        if table[i].use && table[i].pid == curr {
          var _ := dev.Write(i, PageAt(memory, table[i].page));
        }
        i := i + 1;
      }
    }

    /** Copies the pages of a process in from their frames. */
    method CopyIn(pid: int)
      requires Valid()
      modifies this`memory, dev`stray, dev.slots, dev.pages, dev.disk
      ensures Valid()
      ensures View() == old(View()).(memory := Loaded(old(View()), pid, NFRAMES))
    {
      ghost var vm := View();
      var i := 0;
      while i < NFRAMES
        invariant 0 <= i <= NFRAMES && Valid()
        invariant dev.Frames() == vm.frames && table[..] == vm.table && curr == vm.curr
        invariant memory == Loaded(vm, pid, i)
      {
        if table[i].use && table[i].pid == pid {
          var idx := dev.Read(i, false);
          memory := memory[table[i].page := dev.pages[idx]];
        }
        i := i + 1;
      }
    }

    /** Switches the address space to a process. */
    method Switch(pid: int)
      requires Valid()
      modifies this`memory, this`curr, dev`stray, dev.slots, dev.pages, dev.disk
      ensures Valid()
      ensures View() == Step(old(View()), Op.Switch(pid))
    {
      if pid == curr {
        return;
      }
      CopyOut();
      CopyIn(pid);
      curr := pid;
    }
  }
}
