/** The library's calls on the allocation map, as they change it in place. */
module AllocationTables {
  import opened Common
  import opened OrderedKeys
  import opened AllocationMap
  import opened PointerLookup

  lemma EntryNamesObject(st: State, k: nat)
    requires Coherent(st) && k in st.allocs
    ensures st.allocs[k].handle in st.objs
  {
  }

  lemma HomeIsKey(st: State, h: nat)
    requires Coherent(st) && h in st.objs
    ensures Home(st.objs[h]) > 0 && Home(st.objs[h]) in st.allocs && st.allocs[Home(st.objs[h])].handle == h
  {
    assert ObjectOk(st, h);
  }

  class AllocationTable {
    var allocs: map<nat, Entry>
    var objs: map<nat, Gpu>
    var queues: map<nat, nat>
    ghost var made: set<nat>

    ghost function View(): State
      reads this
    {
      State(allocs, objs, queues, made)
    }

    constructor ()
      ensures View() == EMPTY && Coherent(View())
    {
      allocs, objs, queues, made := map[], map[], map[], {};
    }

    /** A new allocation enters the map: under its handle-aperture address if it is physical only, under
        its GPU address otherwise. */
    method AllocateObject(handle: nat, gpuAddr: nat, apeAddr: nat, size: nat, requested: nat, physicalOnly: bool)
      returns (addr: nat)
      requires handle !in objs && (if physicalOnly then gpuAddr == 0 else apeAddr == 0)
      modifies this`allocs, this`objs, this`made
      ensures addr == if physicalOnly then apeAddr else gpuAddr
      ensures View() == Alloc(old(View()), handle, addr, size, requested, physicalOnly)
    {
      addr := EnterObject(handle, gpuAddr, apeAddr, size, requested, !physicalOnly, false);
      if !physicalOnly { made := made + {addr}; }
    }

    /** A buffer of another process enters it; VRAM that gets an address of its own is flagged. */
    method ImportObject(handle: nat, gpuAddr: nat, apeAddr: nat, size: nat, requested: nat, allocVa: bool, sysMemFd: bool)
      returns (addr: nat)
      requires handle !in objs && (if allocVa then apeAddr == 0 else gpuAddr == 0)
      modifies this`allocs, this`objs
      ensures addr == if allocVa then gpuAddr else apeAddr
      ensures View() == Import(old(View()), handle, addr, size, requested, allocVa, sysMemFd)
    {
      addr := EnterObject(handle, gpuAddr, apeAddr, size, requested, allocVa, allocVa && !sysMemFd);
    }

    method EnterObject(handle: nat, gpuAddr: nat, apeAddr: nat, size: nat, requested: nat, hasVa: bool, ipc: bool)
      returns (addr: nat)
      requires handle !in objs && (if hasVa then apeAddr == 0 else gpuAddr == 0)
      modifies this`allocs, this`objs
      ensures addr == if hasVa then gpuAddr else apeAddr
      ensures allocs == old(allocs)[addr := Entry(handle, addr, addr, size, false, requested, -1)]
      ensures objs == old(objs)[handle := PlainObject(addr, hasVa, ipc)]
    {
      addr := if hasVa then gpuAddr else apeAddr;
      objs := objs[handle := Gpu(gpuAddr, apeAddr, hasVa, ipc, false, 0, false, 0, {})];
      allocs := allocs[addr := Entry(handle, addr, addr, size, false, requested, -1)];
    }

    method FreeMemory(addr: nat) returns (status: Status)
      requires Coherent(View())
      modifies this`allocs, this`objs
      ensures (View(), status) == Free(old(View()), addr)
    {
      hide Coherent;
      if addr == 0 { return InvalidParameter; }
      if addr !in allocs { return Error; }
      EntryNamesObject(View(), addr);
      var h := allocs[addr].handle;
      if objs[h].queueReferenced { return Error; }
      if objs[h].importedIpc {
        var left := DecSharedReference(h);
        if left != 0 { return Success; }
      }
      allocs := allocs - {addr};
      objs := objs - {h};
      assert objs == old(objs) - {h};
      return Success;
    }

    method DecSharedReference(h: nat) returns (left: nat)
      requires h in objs
      modifies this`objs
      ensures left == DecShared(old(objs)[h].sharedRef)
      ensures objs == old(objs)[h := old(objs)[h].(sharedRef := left)]
    {
      left := if objs[h].sharedRef == 0 then 0 else objs[h].sharedRef - 1;
      objs := objs[h := objs[h].(sharedRef := left)];
    }

    method DeregisterMemory(addr: nat) returns (status: Status)
      requires Coherent(View())
      modifies this`allocs, this`objs
      ensures (View(), status) == Deregister(old(View()), addr)
    {
      hide Coherent;
      if addr == 0 { return InvalidParameter; }
      if addr !in allocs { return Success; }
      EntryNamesObject(View(), addr);
      var e := allocs[addr];
      if objs[e.handle].importedIpc {
        var left := DecSharedReference(e.handle);
        if left == 0 {
          allocs := allocs - {addr};
          objs := objs - {e.handle};
          assert objs == old(objs) - {e.handle};
          return Success;
        }
      }
      if e.userptr {
        allocs := allocs - {addr};
        allocs := allocs - {e.gpuAddr};
        objs := objs - {e.handle};
        assert allocs == old(allocs) - {addr, e.gpuAddr} && objs == old(objs) - {e.handle};
      }
      return Success;
    }

    /** The import of a descriptor of this very process: one more reference to what lives at its address. */
    method ImportSameProcess(gpuVa: nat) returns (status: Status)
      requires Coherent(View())
      modifies this`objs
      ensures (View(), status) == Reimport(old(View()), gpuVa)
    {
      hide Coherent;
      if gpuVa !in allocs { return Error; }
      EntryNamesObject(View(), gpuVa);
      var h := allocs[gpuVa].handle;
      objs := objs[h := objs[h].(sharedRef := (objs[h].sharedRef + 1) % SHARED_REF_RANGE)];
      return Success;
    }

    method MapMemoryToGpuNodes(addr: nat, size: nat, grant: Option<Grant>) returns (answer: MapAnswer)
      requires Coherent(View())
      modifies this`allocs, this`objs
      ensures (View(), answer) == MapMemory(old(View()), addr, size, grant)
    {
      hide Coherent, AlignDown, AlignUp;
      if addr == 0 { return MapAnswer(Error, None); }
      var start := AlignDown(addr, PAGE);
      var end := AlignUp(addr + size, PAGE);
      AlignBounds(addr, PAGE);
      AlignBounds(addr + size, PAGE);
      if start in allocs {
        EntryNamesObject(View(), start);
        if objs[allocs[start].handle].importedIpc { return MapAnswer(Success, None); }
        if !allocs[start].userptr {
          if allocs[start].size >= size { return MapAnswer(Success, Some(addr)); }
          return MapAnswer(Error, None);
        }
      }
      if addr in allocs && allocs[addr].userptr && allocs[addr].size >= size {
        return MapAnswer(Success, Some(AddressIn(allocs[addr], addr)));
      }
      if grant.None? { return MapAnswer(Error, None); }
      var g := grant.value;
      var e := Entry(g.handle, start, g.gpuAddr, end - start, true, size, -1);
      objs := objs[g.handle := Gpu(g.gpuAddr, 0, false, false, true, addr, false, 0, {})];
      allocs := allocs[addr := e];
      allocs := allocs[g.gpuAddr := e];
      return MapAnswer(Success, Some(g.gpuAddr + (addr - start)));
    }

    /** Map an object at a reserved address; the kernel is taken to grant what it is asked for. */
    method BoVaMap(h: nat, addr: nat) returns (status: Status)
      requires h in objs
      modifies this`objs
      ensures (View(), status) == VaMap(old(View()), h, addr)
    {
      if objs[h].gpuAddr == addr { return Success; }
      if objs[h].gpuAddr != 0 { return Error; }
      objs := objs[h := objs[h].(mappings := objs[h].mappings + {addr})];
      return Success;
    }

    method BoVaUnmap(h: nat, addr: nat) returns (status: Status)
      requires h in objs
      modifies this`objs
      ensures (View(), status) == VaUnmap(old(View()), h, addr)
    {
      objs := objs[h := objs[h].(mappings := objs[h].mappings - {addr})];
      return Success;
    }

    /** Free by handle: the object's own key is computed from the object, and freed. */
    method BoFree(h: nat) returns (ok: bool)
      requires Coherent(View()) && h in objs && !objs[h].userMemory
      modifies this`allocs, this`objs
      ensures ok <==> !old(objs)[h].queueReferenced
      ensures ok && !(old(objs)[h].importedIpc && old(objs)[h].sharedRef > 1) ==> h !in objs
      ensures View() == Free(old(View()), Home(old(objs)[h])).0
    {
      HomeIsKey(View(), h);
      var addr := if objs[h].vaAllocated then objs[h].gpuAddr else objs[h].apeAddr;
      var status := FreeMemory(addr);
      ok := status == Success;
    }

    method CreateQueueOn(q: nat, ring: nat) returns (status: Status)
      requires Coherent(View()) && q !in queues
      modifies this`objs, this`queues
      ensures (View(), status) == CreateQueue(old(View()), q, ring)
    {
      var acquired := AcquireBuffer(ring);
      if !acquired { return InvalidParameter; }
      queues := queues[q := ring];
      return Success;
    }

    /** True for every address but 0, also for one that is no key of the map. */
    method AcquireBuffer(ring: nat) returns (ok: bool)
      requires Coherent(View())
      modifies this`objs
      ensures ok <==> ring != 0
      ensures View() == if ring == 0 then old(View()) else SetQueueFlag(old(View()), ring, true)
    {
      hide Coherent;
      if ring == 0 { return false; }
      if ring !in allocs { return true; }
      EntryNamesObject(View(), ring);
      var h := allocs[ring].handle;
      objs := objs[h := objs[h].(queueReferenced := true)];
      return true;
    }

    method DestroyQueueAt(q: nat) returns (status: Status)
      requires Coherent(View()) && q in queues
      modifies this`objs, this`queues
      ensures (View(), status) == DestroyQueue(old(View()), q)
    {
      hide Coherent;
      var ring := queues[q];
      queues := queues - {q};
      if ring in allocs {
        EntryNamesObject(old(View()), ring);
        var h := allocs[ring].handle;
        objs := objs[h := objs[h].(queueReferenced := false)];
      }
      return Success;
    }

    /** Export.  The descriptor is created once per entry and cached there; `shared` is what the kernel
        answers when it has to be created: None for an object that cannot be shared. */
    method ExportDmabufHandle(p: nat, shared: Option<nat>) returns (status: Status, fd: int, offset: int)
      modifies this`allocs
      ensures status == Success <==>
              ExportEntry(old(allocs), p).Some?
              && (old(allocs)[ExportEntry(old(allocs), p).value].dmabufFd != -1 || shared.Some?)
      ensures status == Success ==>
                var k := ExportEntry(old(allocs), p).value;
                var e := old(allocs)[k];
                && fd == (if e.dmabufFd == -1 then shared.value else e.dmabufFd) && offset == ExportOffset(e, p)
                && allocs == old(allocs)[k := e.(dmabufFd := fd)]
      ensures status != Success ==> allocs == old(allocs)
    {
      var it := StepBack(allocs.Keys, p);
      if it.None? { return Error, -1, 0; }
      var e := allocs[it.value];
      if e.dmabufFd == -1 {
        if shared.None? { return Error, -1, 0; }
        e := e.(dmabufFd := shared.value);
      }
      allocs := allocs[it.value := e];
      return Success, e.dmabufFd, p - e.gpuAddr;
    }

    /** The allocation a pointer belongs to; where no range hides another, found exactly when some
        requested range contains the pointer. */
    method QueryPointerInfo(p: nat) returns (found: Option<nat>)
      ensures found.Some? ==> Contains(allocs, found.value, p) && IsGreatest(allocs.Keys, p, found.value)
      ensures found.None? ==> forall k | k in allocs && IsGreatest(allocs.Keys, p, k) :: !Contains(allocs, k, p)
      ensures NothingHidden(allocs) ==> (found.Some? <==> exists k: nat :: Contains(allocs, k, p))
    {
      if NothingHidden(allocs) { FoundIfContained(allocs, p); }
      var it := StepBack(allocs.Keys, p);
      if it.Some? && p >= it.value && p < it.value + allocs[it.value].sizeRequested { return it; }
      return None;
    }
  }
}
