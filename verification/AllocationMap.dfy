/** The allocation map and the memory objects behind it, as values, with one step per API call.
    What the kernel answers is part of the step. */
module AllocationMap {
  import opened Common

  const SHARED_REF_RANGE: nat := 8   // the shared count is a three-bit field

  /** A memory object.  `mappedAs` is the address a user-memory object was registered under. */
  datatype Gpu = Gpu(gpuAddr: nat, apeAddr: nat, vaAllocated: bool, importedIpc: bool, userMemory: bool,
                     mappedAs: nat, queueReferenced: bool, sharedRef: nat, mappings: set<nat>)

  /** An entry of the allocation map. */
  datatype Entry = Entry(handle: nat, cpuAddr: nat, gpuAddr: nat, size: nat, userptr: bool, sizeRequested: nat, dmabufFd: int)

  /** `queues` gives each live queue its ring address.  `made` holds the addresses at which this process
      ever created a buffer: what a descriptor exported by this process remembers of it. */
  datatype State = State(allocs: map<nat, Entry>, objs: map<nat, Gpu>, queues: map<nat, nat>, made: set<nat>)

  /** What the kernel grants to a new user-memory object. */
  datatype Grant = Grant(handle: nat, gpuAddr: nat)

  datatype Op =
    | AllocOp(handle: nat, addr: nat, size: nat, requested: nat, physicalOnly: bool)
    | ImportOp(handle: nat, addr: nat, size: nat, requested: nat, allocVa: bool, sysMemFd: bool)
    | ReimportOp(gpuVa: nat)
    | FreeOp(addr: nat)
    | DeregisterOp(addr: nat)
    | MapOp(addr: nat, size: nat, grant: Option<Grant>)
    | VaMapOp(handle: nat, addr: nat)
    | VaUnmapOp(handle: nat, addr: nat)
    | CreateQueueOp(queue: nat, ring: nat)
    | DestroyQueueOp(queue: nat)

  // --------------------------------------------------------------------------
  // The steps
  // --------------------------------------------------------------------------

  function PlainObject(addr: nat, hasVa: bool, ipc: bool): Gpu {
    Gpu(if hasVa then addr else 0, if hasVa then 0 else addr, hasVa, ipc, false, 0, false, 0, {})
  }

  function Alloc(st: State, h: nat, addr: nat, size: nat, requested: nat, physicalOnly: bool): State {
    st.(allocs := st.allocs[addr := Entry(h, addr, addr, size, false, requested, -1)],
        objs := st.objs[h := PlainObject(addr, !physicalOnly, false)],
        made := if physicalOnly then st.made else st.made + {addr})
  }

  /** Imported VRAM with an address of its own is flagged; its shared count starts at 0. */
  function Import(st: State, h: nat, addr: nat, size: nat, requested: nat, allocVa: bool, sysMemFd: bool): State {
    st.(allocs := st.allocs[addr := Entry(h, addr, addr, size, false, requested, -1)],
        objs := st.objs[h := PlainObject(addr, allocVa, allocVa && !sysMemFd)])
  }

  /** The descriptor names a buffer this process created at gpuVa: whatever lives there now gets one more
      reference.  A buffer of another process is never imported this way, but as a new object each time. */
  function Reimport(st: State, gpuVa: nat): (State, Status) {
    if gpuVa !in st.allocs || st.allocs[gpuVa].handle !in st.objs then (st, Error)
    else
      var h := st.allocs[gpuVa].handle;
      (st.(objs := st.objs[h := st.objs[h].(sharedRef := (st.objs[h].sharedRef + 1) % SHARED_REF_RANGE)]), Success)
  }

  function DecShared(c: nat): nat {
    if c == 0 then 0 else c - 1
  }

  function Drop(st: State, keys: set<nat>, h: nat): State {
    st.(allocs := st.allocs - keys, objs := st.objs - {h})
  }

  function Free(st: State, addr: nat): (State, Status) {
    if addr == 0 then (st, InvalidParameter)
    else if addr !in st.allocs || st.allocs[addr].handle !in st.objs then (st, Error)
    else
      var h := st.allocs[addr].handle;
      var o := st.objs[h];
      if o.queueReferenced then (st, Error)
      else if o.importedIpc && DecShared(o.sharedRef) != 0 then
        (st.(objs := st.objs[h := o.(sharedRef := DecShared(o.sharedRef))]), Success)
      else (Drop(st, {addr}, h), Success)
  }

  function Deregister(st: State, addr: nat): (State, Status) {
    if addr == 0 then (st, InvalidParameter)
    else if addr !in st.allocs || st.allocs[addr].handle !in st.objs then (st, Success)
    else
      var h := st.allocs[addr].handle;
      var o := st.objs[h];
      if o.importedIpc && DecShared(o.sharedRef) == 0 then (Drop(st, {addr}, h), Success)
      else if st.allocs[addr].userptr then (Drop(st, {addr, st.allocs[addr].gpuAddr}, h), Success)
      else if o.importedIpc then (st.(objs := st.objs[h := o.(sharedRef := DecShared(o.sharedRef))]), Success)
      else (st, Success)
  }

  function AlignedStart(addr: nat): nat { AlignDown(addr, PAGE) }

  function AlignedSize(addr: nat, size: nat): nat
    ensures AlignedStart(addr) + AlignedSize(addr, size) == AlignUp(addr + size, PAGE)
  {
    AlignBounds(addr, PAGE);
    AlignBounds(addr + size, PAGE);
    AlignUp(addr + size, PAGE) - AlignedStart(addr)
  }

  /** The two entries a user pointer gets: under the pointer itself and under its GPU address. */
  function Register(st: State, addr: nat, size: nat, g: Grant): State {
    var e := Entry(g.handle, AlignedStart(addr), g.gpuAddr, AlignedSize(addr, size), true, size, -1);
    st.(allocs := st.allocs[addr := e][g.gpuAddr := e],
        objs := st.objs[g.handle := Gpu(g.gpuAddr, 0, false, false, true, addr, false, 0, {})])
  }

  datatype MapAnswer = MapAnswer(status: Status, gpu: Option<int>)

  /** Mapping for the GPU.  `gpu` is the address returned, if one is. */
  function MapMemory(st: State, addr: nat, size: nat, grant: Option<Grant>): (State, MapAnswer) {
    var start := AlignedStart(addr);
    if addr == 0 then (st, MapAnswer(Error, None))
    else if start in st.allocs && st.allocs[start].handle in st.objs && st.objs[st.allocs[start].handle].importedIpc then
      (st, MapAnswer(Success, None))
    else if start in st.allocs && !st.allocs[start].userptr then
      if st.allocs[start].size >= size then (st, MapAnswer(Success, Some(addr))) else (st, MapAnswer(Error, None))
    else if addr in st.allocs && st.allocs[addr].userptr && st.allocs[addr].size >= size then
      (st, MapAnswer(Success, Some(AddressIn(st.allocs[addr], addr))))
    else if grant.None? then (st, MapAnswer(Error, None))
    else (Register(st, addr, size, grant.value), MapAnswer(Success, Some(grant.value.gpuAddr + (addr - start))))
  }

  function AddressIn(e: Entry, addr: nat): int {
    e.gpuAddr + addr - e.cpuAddr
  }

  /** Mapping an object into a reserved range: the object itself keeps no address from it. */
  function VaMap(st: State, h: nat, addr: nat): (State, Status) {
    if h !in st.objs then (st, Error)
    else if st.objs[h].gpuAddr == addr then (st, Success)
    else if st.objs[h].gpuAddr != 0 then (st, Error)
    else (st.(objs := st.objs[h := st.objs[h].(mappings := st.objs[h].mappings + {addr})]), Success)
  }

  function VaUnmap(st: State, h: nat, addr: nat): (State, Status) {
    if h !in st.objs then (st, Error)
    else (st.(objs := st.objs[h := st.objs[h].(mappings := st.objs[h].mappings - {addr})]), Success)
  }

  function SetQueueFlag(st: State, ring: nat, flag: bool): State {
    if ring in st.allocs && st.allocs[ring].handle in st.objs then
      var h := st.allocs[ring].handle;
      st.(objs := st.objs[h := st.objs[h].(queueReferenced := flag)])
    else st
  }

  /** A ring address that is no key of the map is accepted all the same, without a reference. */
  function CreateQueue(st: State, q: nat, ring: nat): (State, Status) {
    if ring == 0 then (st, InvalidParameter)
    else (SetQueueFlag(st, ring, true).(queues := st.queues[q := ring]), Success)
  }

  function DestroyQueue(st: State, q: nat): (State, Status) {
    if q !in st.queues then (st, InvalidParameter)
    else (SetQueueFlag(st, st.queues[q], false).(queues := st.queues - {q}), Success)
  }

  function Step(st: State, op: Op): State {
    match op
    case AllocOp(h, addr, size, requested, physicalOnly) => Alloc(st, h, addr, size, requested, physicalOnly)
    case ImportOp(h, addr, size, requested, allocVa, sysMemFd) => Import(st, h, addr, size, requested, allocVa, sysMemFd)
    case ReimportOp(gpuVa) => Reimport(st, gpuVa).0
    case FreeOp(addr) => Free(st, addr).0
    case DeregisterOp(addr) => Deregister(st, addr).0
    case MapOp(addr, size, grant) => MapMemory(st, addr, size, grant).0
    case VaMapOp(h, addr) => VaMap(st, h, addr).0
    case VaUnmapOp(h, addr) => VaUnmap(st, h, addr).0
    case CreateQueueOp(q, ring) => CreateQueue(st, q, ring).0
    case DestroyQueueOp(q) => DestroyQueue(st, q).0
  }

  function Run(st: State, ops: seq<Op>): State
    decreases |ops|
  {
    if ops == [] then st else Run(Step(st, ops[0]), ops[1..])
  }

  const EMPTY := State(map[], map[], map[], {})

  // --------------------------------------------------------------------------
  // Entries and live objects match
  // --------------------------------------------------------------------------

  /** The key an object is found under for as long as it lives. */
  function Home(o: Gpu): nat {
    if o.userMemory || o.vaAllocated then o.gpuAddr else o.apeAddr
  }

  ghost predicate ObjectOk(st: State, h: nat)
    requires h in st.objs
  {
    var o := st.objs[h];
    && Home(o) > 0 && Home(o) % PAGE == 0
    && Home(o) in st.allocs && st.allocs[Home(o)].handle == h
    && !(o.userMemory && (o.importedIpc || o.vaAllocated))
  }

  ghost predicate EntryOk(st: State, k: nat)
    requires k in st.allocs
  {
    var e := st.allocs[k];
    && e.handle in st.objs
    && var o := st.objs[e.handle];
    && e.userptr == o.userMemory && e.gpuAddr == Home(o)
    && (k == Home(o) || (o.userMemory && k == o.mappedAs))
  }

  /** Every entry names a live object, and every live object has its entry. */
  ghost predicate Coherent(st: State) {
    && (forall h | h in st.objs :: ObjectOk(st, h))
    && (forall k | k in st.allocs :: EntryOk(st, k))
  }

  /** A new address is no live object's home. */
  ghost predicate FreshHome(st: State, addr: nat) {
    addr > 0 && addr % PAGE == 0 && forall h | h in st.objs :: Home(st.objs[h]) != addr
  }

  /** What the kernel guarantees about a step (fresh handles and addresses; a pointer it registers is
      host memory, not a GPU range it granted before; a descriptor of this process names an address it
      created a buffer at), and what the caller must do: free no user pointer, and deregister it by the
      address it was mapped with. */
  ghost predicate Allowed(st: State, op: Op) {
    match op
    case AllocOp(h, addr, _, _, _) => h !in st.objs && FreshHome(st, addr)
    case ImportOp(h, addr, _, _, _, _) => h !in st.objs && FreshHome(st, addr)
    case MapOp(addr, _, Some(g)) =>
      && g.handle !in st.objs && FreshHome(st, g.gpuAddr)
      && forall h | h in st.objs && st.objs[h].userMemory :: Home(st.objs[h]) != addr
    case FreeOp(addr) => addr in st.allocs ==> !st.allocs[addr].userptr
    case DeregisterOp(addr) =>
      addr in st.allocs && st.allocs[addr].userptr ==>
        st.allocs[addr].handle in st.objs && st.objs[st.allocs[addr].handle].mappedAs == addr
    case ReimportOp(gpuVa) => gpuVa in st.made
    case _ => true
  }

  ghost predicate AllowedRun(st: State, ops: seq<Op>)
    decreases |ops|
  {
    ops == [] || (Allowed(st, ops[0]) && AllowedRun(Step(st, ops[0]), ops[1..]))
  }

  /** Entering an object under its home keeps the match, whatever alias the entry replaces. */
  lemma EnterKeepsCoherent(st: State, h: nat, o: Gpu, e: Entry)
    requires Coherent(st) && h !in st.objs && FreshHome(st, Home(o))
    requires e.handle == h && e.gpuAddr == Home(o) && e.userptr == o.userMemory
    requires !(o.userMemory && (o.importedIpc || o.vaAllocated))
    ensures Coherent(st.(allocs := st.allocs[Home(o) := e], objs := st.objs[h := o]))
  {
  }

  /** The entry under the pointer itself never replaces a home. */
  lemma AliasKeepsCoherent(st: State, addr: nat, h: nat, e: Entry)
    requires Coherent(st) && h in st.objs && st.objs[h].userMemory && st.objs[h].mappedAs == addr
    requires e.handle == h && e.userptr && e.gpuAddr == Home(st.objs[h])
    requires forall x | x in st.objs && x != h :: Home(st.objs[x]) != addr
    ensures Coherent(st.(allocs := st.allocs[addr := e]))
  {
  }

  /** Changing counters and flags of an object concerns no key. */
  lemma UpdateKeepsCoherent(st: State, h: nat, o: Gpu)
    requires Coherent(st) && h in st.objs
    requires Home(o) == Home(st.objs[h]) && o.userMemory == st.objs[h].userMemory && o.mappedAs == st.objs[h].mappedAs
    requires o.importedIpc == st.objs[h].importedIpc && o.vaAllocated == st.objs[h].vaAllocated
    ensures Coherent(st.(objs := st.objs[h := o]))
  {
  }

  /** Deleting an object is sound exactly when all entries that name it go with it. */
  lemma DropCoherentIff(st: State, keys: set<nat>, h: nat)
    requires Coherent(st) && h in st.objs
    requires forall k | k in keys && k in st.allocs :: st.allocs[k].handle == h
    ensures Coherent(Drop(st, keys, h)) <==> forall k | k in st.allocs && st.allocs[k].handle == h :: k in keys
  {
    var st' := Drop(st, keys, h);
    if forall k | k in st.allocs && st.allocs[k].handle == h :: k in keys {
      forall k | k in st'.allocs ensures EntryOk(st', k) { assert EntryOk(st, k); }
      forall x | x in st'.objs ensures ObjectOk(st', x) { assert ObjectOk(st, x); }
    } else {
      var k :| k in st.allocs && st.allocs[k].handle == h && k !in keys;
      assert k in st'.allocs && !EntryOk(st', k);
    }
  }

  /** The entries that name an object: its home, and for a user pointer the address it was mapped with. */
  lemma KeysOf(st: State, h: nat, k: nat)
    requires Coherent(st) && h in st.objs && k in st.allocs && st.allocs[k].handle == h
    ensures k == Home(st.objs[h]) || (st.objs[h].userMemory && k == st.objs[h].mappedAs)
    ensures Home(st.objs[h]) in st.allocs && st.allocs[Home(st.objs[h])].handle == h
    ensures st.allocs[k].gpuAddr == Home(st.objs[h]) && st.allocs[k].userptr == st.objs[h].userMemory
  {
  }

  lemma FreeKeepsCoherent(st: State, addr: nat)
    requires Coherent(st) && Allowed(st, FreeOp(addr))
    ensures Coherent(Free(st, addr).0)
  {
    hide Coherent;
    if addr in st.allocs && st.allocs[addr].handle in st.objs {
      var h := st.allocs[addr].handle;
      KeysOf(st, h, addr);
      UpdateKeepsCoherent(st, h, st.objs[h].(sharedRef := DecShared(st.objs[h].sharedRef)));
      forall k | k in st.allocs && st.allocs[k].handle == h ensures k in {addr} { KeysOf(st, h, k); }
      DropCoherentIff(st, {addr}, h);
    }
  }

  lemma DeregisterKeepsCoherent(st: State, addr: nat)
    requires Coherent(st) && Allowed(st, DeregisterOp(addr))
    ensures Coherent(Deregister(st, addr).0)
  {
    hide Coherent;
    if addr in st.allocs && st.allocs[addr].handle in st.objs {
      var h := st.allocs[addr].handle;
      KeysOf(st, h, addr);
      UpdateKeepsCoherent(st, h, st.objs[h].(sharedRef := DecShared(st.objs[h].sharedRef)));
      var keys := if st.allocs[addr].userptr then {addr, st.allocs[addr].gpuAddr} else {addr};
      forall k | k in st.allocs && st.allocs[k].handle == h ensures k in keys { KeysOf(st, h, k); }
      DropCoherentIff(st, keys, h);
      UserObjectsAreNotImported(st, h);
    }
  }

  lemma UserObjectsAreNotImported(st: State, h: nat)
    requires Coherent(st) && h in st.objs
    ensures st.objs[h].userMemory ==> !st.objs[h].importedIpc
  {
  }

  /** A user-pointer registration replaces at most an earlier user-pointer entry. */
  lemma RegisterReplacesOnlyUserPointers(st: State, addr: nat, size: nat, grant: Option<Grant>)
    requires Coherent(st) && Allowed(st, MapOp(addr, size, grant))
    requires MapMemory(st, addr, size, grant).0 != st
    ensures grant.Some? && MapMemory(st, addr, size, grant).0 == Register(st, addr, size, grant.value)
    ensures forall k | k in {addr, grant.value.gpuAddr} && k in st.allocs :: st.allocs[k].userptr
    ensures forall h | h in st.objs :: Home(st.objs[h]) != addr && Home(st.objs[h]) != grant.value.gpuAddr
  {
    var g := grant.value;
    forall k | k in {addr, g.gpuAddr} && k in st.allocs ensures st.allocs[k].userptr {
      assert EntryOk(st, k);
      assert ObjectOk(st, st.allocs[k].handle);
      assert k % PAGE == 0 ==> AlignedStart(k) == k;
    }
    forall h | h in st.objs ensures Home(st.objs[h]) != addr {
      assert ObjectOk(st, h);
      assert EntryOk(st, Home(st.objs[h]));
    }
  }

  lemma MapKeepsCoherent(st: State, addr: nat, size: nat, grant: Option<Grant>)
    requires Coherent(st) && Allowed(st, MapOp(addr, size, grant))
    ensures Coherent(MapMemory(st, addr, size, grant).0)
  {
    hide Coherent, MapMemory;
    if MapMemory(st, addr, size, grant).0 != st {
      RegisterReplacesOnlyUserPointers(st, addr, size, grant);
      var g := grant.value;
      var o := Gpu(g.gpuAddr, 0, false, false, true, addr, false, 0, {});
      var e := Entry(g.handle, AlignedStart(addr), g.gpuAddr, AlignedSize(addr, size), true, size, -1);
      EnterKeepsCoherent(st, g.handle, o, e);
      var mid := st.(allocs := st.allocs[g.gpuAddr := e], objs := st.objs[g.handle := o]);
      AliasKeepsCoherent(mid, addr, g.handle, e);
      assert mid.allocs[addr := e] == st.allocs[addr := e][g.gpuAddr := e];
    }
  }

  lemma StepKeepsCoherent(st: State, op: Op)
    requires Coherent(st) && Allowed(st, op)
    ensures Coherent(Step(st, op))
  {
    hide Coherent, MapMemory, Free, Deregister;
    match op {
      case AllocOp(h, addr, size, requested, physicalOnly) =>
        var o, e := PlainObject(addr, !physicalOnly, false), Entry(h, addr, addr, size, false, requested, -1);
        EnterKeepsCoherent(st, h, o, e);
        OnlyKeysMatter(st.(allocs := st.allocs[addr := e], objs := st.objs[h := o]), st.queues, Step(st, op).made);
      case ImportOp(h, addr, size, requested, allocVa, sysMemFd) =>
        EnterKeepsCoherent(st, h, PlainObject(addr, allocVa, allocVa && !sysMemFd), Entry(h, addr, addr, size, false, requested, -1));
      case ReimportOp(gpuVa) =>
        if gpuVa in st.allocs && st.allocs[gpuVa].handle in st.objs {
          var h := st.allocs[gpuVa].handle;
          UpdateKeepsCoherent(st, h, st.objs[h].(sharedRef := (st.objs[h].sharedRef + 1) % SHARED_REF_RANGE));
        }
      case FreeOp(addr) => FreeKeepsCoherent(st, addr);
      case DeregisterOp(addr) => DeregisterKeepsCoherent(st, addr);
      case MapOp(addr, size, grant) => MapKeepsCoherent(st, addr, size, grant);
      case VaMapOp(h, addr) =>
        if h in st.objs { UpdateKeepsCoherent(st, h, st.objs[h].(mappings := st.objs[h].mappings + {addr})); }
      case VaUnmapOp(h, addr) =>
        if h in st.objs { UpdateKeepsCoherent(st, h, st.objs[h].(mappings := st.objs[h].mappings - {addr})); }
      case CreateQueueOp(q, ring) => FlagKeepsCoherent(st, ring, true, st.queues[q := ring]);
      case DestroyQueueOp(q) =>
        if q in st.queues { FlagKeepsCoherent(st, st.queues[q], false, st.queues - {q}); }
    }
  }

  lemma FlagKeepsCoherent(st: State, ring: nat, flag: bool, queues: map<nat, nat>)
    requires Coherent(st)
    ensures Coherent(SetQueueFlag(st, ring, flag).(queues := queues))
  {
    hide Coherent;
    if ring in st.allocs && st.allocs[ring].handle in st.objs {
      var h := st.allocs[ring].handle;
      UpdateKeepsCoherent(st, h, st.objs[h].(queueReferenced := flag));
    }
    OnlyKeysMatter(SetQueueFlag(st, ring, flag), queues, st.made);
  }

  lemma OnlyKeysMatter(st: State, queues: map<nat, nat>, made: set<nat>)
    requires Coherent(st)
    ensures Coherent(st.(queues := queues, made := made))
  {
  }

  /** Over every allowed run, entries and live objects match. */
  lemma {:induction false} RunKeepsCoherent(st: State, ops: seq<Op>)
    requires Coherent(st) && AllowedRun(st, ops)
    ensures Coherent(Run(st, ops))
    decreases |ops|
  {
    hide Coherent, Allowed, Step;
    if ops != [] {
      StepKeepsCoherent(st, ops[0]);
      RunKeepsCoherent(Step(st, ops[0]), ops[1..]);
    }
  }

  // --------------------------------------------------------------------------
  // Releasing a user pointer any other way
  // --------------------------------------------------------------------------

  /** The pointer a registration was made with no longer leads to it: it is the GPU address itself, or
      its entry has been replaced or released since. */
  predicate AliasGone(st: State, h: nat)
    requires h in st.objs
  {
    var o := st.objs[h];
    o.mappedAs == Home(o) || o.mappedAs !in st.allocs || st.allocs[o.mappedAs].handle != h
  }

  /** Freeing a user pointer leaves an entry for a deleted object, unless it is freed by its GPU address
      after its other entry has gone. */
  lemma FreeOfUserPointer(st: State, addr: nat)
    requires Coherent(st) && addr > 0 && addr in st.allocs && st.allocs[addr].userptr
    requires !st.objs[st.allocs[addr].handle].queueReferenced
    ensures var h := st.allocs[addr].handle;
            Coherent(Free(st, addr).0) <==> addr == Home(st.objs[h]) && AliasGone(st, h)
  {
    var h := st.allocs[addr].handle;
    KeysOf(st, h, addr);
    UserObjectsAreNotImported(st, h);
    OtherKeys(st, h);
    DropCoherentIff(st, {addr}, h);
  }

  /** Deregistering it by its GPU address does so unless that other entry has gone. */
  lemma DeregisterByGpuAddress(st: State, addr: nat)
    requires Coherent(st) && addr > 0 && addr in st.allocs && st.allocs[addr].userptr
    requires addr == Home(st.objs[st.allocs[addr].handle])
    ensures Coherent(Deregister(st, addr).0) <==> AliasGone(st, st.allocs[addr].handle)
  {
    var h := st.allocs[addr].handle;
    KeysOf(st, h, addr);
    UserObjectsAreNotImported(st, h);
    OtherKeys(st, h);
    DropCoherentIff(st, {addr, addr}, h);
  }

  lemma OtherKeys(st: State, h: nat)
    requires Coherent(st) && h in st.objs && st.objs[h].userMemory
    ensures Home(st.objs[h]) in st.allocs && st.allocs[Home(st.objs[h])].handle == h
    ensures AliasGone(st, h) <==> forall k | k in st.allocs && st.allocs[k].handle == h :: k == Home(st.objs[h])
  {
    assert ObjectOk(st, h);
    forall k | k in st.allocs && st.allocs[k].handle == h ensures k == Home(st.objs[h]) || k == st.objs[h].mappedAs {
      KeysOf(st, h, k);
    }
  }

  /** A registration, then its release under the wrong address: a concrete dangling entry. */
  lemma DanglingEntry()
    ensures var st := Run(EMPTY, [MapOp(0x5010, 16, Some(Grant(1, 0x9000))), DeregisterOp(0x9000)]);
            0x5010 in st.allocs && st.allocs[0x5010].handle !in st.objs
  {
    var op1, op2 := MapOp(0x5010, 16, Some(Grant(1, 0x9000))), DeregisterOp(0x9000);
    assert [op1, op2][1..] == [op2] && [op2][1..] == [];
    var st1 := Step(EMPTY, op1);
    assert st1.allocs[0x9000].gpuAddr == 0x9000 && st1.allocs[0x5010].handle == 1;
    var st2 := Step(st1, op2);
    assert Run(st1, [op2]) == Run(st2, []) == st2;
  }

  // --------------------------------------------------------------------------
  // From a handle back to its key
  // --------------------------------------------------------------------------

  /** The address the drm-style free computes from the object alone. */
  function BoFreeAddress(o: Gpu): nat {
    if o.vaAllocated then o.gpuAddr else o.apeAddr
  }

  /** In every reachable state it is the key of that very object, whatever was mapped and unmapped. */
  lemma HandleRoundTrip(ops: seq<Op>, h: nat)
    requires AllowedRun(EMPTY, ops)
    requires h in Run(EMPTY, ops).objs && !Run(EMPTY, ops).objs[h].userMemory
    ensures var st := Run(EMPTY, ops);
            var addr := BoFreeAddress(st.objs[h]);
            && addr > 0 && addr in st.allocs && st.allocs[addr].handle == h
            && forall k | k in st.allocs && st.allocs[k].handle == h :: k == addr
  {
    RunKeepsCoherent(EMPTY, ops);
    var st := Run(EMPTY, ops);
    assert ObjectOk(st, h);
    forall k | k in st.allocs && st.allocs[k].handle == h ensures k == Home(st.objs[h]) { KeysOf(st, h, k); }
  }
}
