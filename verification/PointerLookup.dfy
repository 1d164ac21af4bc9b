/** From a pointer to its allocation, and from a user pointer to its GPU address. */
module PointerLookup {
  import opened Common
  import opened OrderedKeys
  import opened AllocationMap

  predicate Contains(allocs: map<nat, Entry>, k: nat, p: nat) {
    k in allocs && k <= p < k + allocs[k].sizeRequested
  }

  /** Step back from the upper bound, then check the range of the one entry found. */
  function Find(allocs: map<nat, Entry>, p: nat): Option<nat> {
    match StepBack(allocs.Keys, p)
    case None => None
    case Some(k) => if p < k + allocs[k].sizeRequested then Some(k) else None
  }

  ghost predicate Disjoint(allocs: map<nat, Entry>) {
    forall j, k {:trigger allocs[j], allocs[k]} | j in allocs && k in allocs && j < k :: j + allocs[j].sizeRequested <= k
  }

  /** On disjoint ranges it answers as a search of all entries would. */
  lemma FindIsExact(allocs: map<nat, Entry>, p: nat)
    requires Disjoint(allocs)
    ensures Find(allocs, p).Some? <==> exists k: nat :: Contains(allocs, k, p)
    ensures forall k: nat | Contains(allocs, k, p) :: Find(allocs, p) == Some(k)
  {
    forall k: nat | Contains(allocs, k, p) ensures Find(allocs, p) == Some(k) {
      var best := StepBack(allocs.Keys, p);
      assert best.Some? && k <= best.value;
      assert allocs[k].sizeRequested >= 0 && allocs[best.value].sizeRequested >= 0;
    }
    if Find(allocs, p).Some? { assert Contains(allocs, Find(allocs, p).value, p); }
  }

  /** The entry at j reaches no further than the one at k above it, or not before the next key. */
  predicate NotPast(allocs: map<nat, Entry>, j: nat, k: nat)
    requires j in allocs && k in allocs
  {
    || j + allocs[j].sizeRequested <= k + allocs[k].sizeRequested
    || exists n :: n in allocs && k < n <= k + allocs[k].sizeRequested
  }

  /** Between a key and the next one, no earlier range reaches past the end of that key's own range. */
  predicate NothingHidden(allocs: map<nat, Entry>) {
    forall j, k | j in allocs && k in allocs && j < k :: NotPast(allocs, j, k)
  }

  /** Exactly when the lookup answers every pointer as a search of all entries would. */
  lemma LookupExactIff(allocs: map<nat, Entry>)
    ensures NothingHidden(allocs) <==>
            forall p: nat :: Find(allocs, p).Some? <==> exists k: nat :: Contains(allocs, k, p)
  {
    if NothingHidden(allocs) {
      forall p: nat ensures Find(allocs, p).Some? <==> exists k: nat :: Contains(allocs, k, p) {
        FoundIfContained(allocs, p);
      }
    } else {
      var j, k :| j in allocs && k in allocs && j < k && !NotPast(allocs, j, k);
      HiddenPointer(allocs, j, k);
    }
  }

  lemma FoundIfContained(allocs: map<nat, Entry>, p: nat)
    requires NothingHidden(allocs)
    ensures Find(allocs, p).Some? <==> exists k: nat :: Contains(allocs, k, p)
  {
    if Find(allocs, p).Some? { assert Contains(allocs, Find(allocs, p).value, p); }
    if j: nat :| Contains(allocs, j, p) {
      var k := StepBack(allocs.Keys, p).value;
      assert j <= k && (j < k ==> NotPast(allocs, j, k));
    }
  }

  /** The first address past the range at k is the earlier range's, and is not found. */
  lemma HiddenPointer(allocs: map<nat, Entry>, j: nat, k: nat)
    requires j in allocs && k in allocs && j < k && !NotPast(allocs, j, k)
    ensures var p := k + allocs[k].sizeRequested; Contains(allocs, j, p) && Find(allocs, p) == None
  {
    var p := k + allocs[k].sizeRequested;
    assert IsGreatest(allocs.Keys, p, k);
    assert StepBack(allocs.Keys, p) == Some(k);
  }

  /** A range registered inside another one hides the rest of the outer one. */
  lemma NestedRangeHides()
    ensures var ops := [MapOp(0x10000, 0x3000, Some(Grant(1, 0x100000))), MapOp(0x11000, 16, Some(Grant(2, 0x200000)))];
            var allocs := Run(EMPTY, ops).allocs;
            AllowedRun(EMPTY, ops) && Contains(allocs, 0x10000, 0x11010) && Find(allocs, 0x11010) == None
  {
    hide Run, AllowedRun, NotPast;
    NestedRun();
    var ops := [MapOp(0x10000, 0x3000, Some(Grant(1, 0x100000))), MapOp(0x11000, 16, Some(Grant(2, 0x200000)))];
    NestedEnds(Run(EMPTY, ops).allocs);
    HiddenPointer(Run(EMPTY, ops).allocs, 0x10000, 0x11000);
  }

  lemma NestedRun()
    ensures var ops := [MapOp(0x10000, 0x3000, Some(Grant(1, 0x100000))), MapOp(0x11000, 16, Some(Grant(2, 0x200000)))];
            var allocs := Run(EMPTY, ops).allocs;
            && AllowedRun(EMPTY, ops) && allocs.Keys == {0x10000, 0x11000, 0x100000, 0x200000}
            && allocs[0x10000].sizeRequested == 0x3000 && allocs[0x11000].sizeRequested == 16
  {
    hide Find, StepBack;
    var a, b := MapOp(0x10000, 0x3000, Some(Grant(1, 0x100000))), MapOp(0x11000, 16, Some(Grant(2, 0x200000)));
    assert [a, b][1..] == [b] && [b][1..] == [];
    var st1 := Step(EMPTY, a);
    assert st1 == Register(EMPTY, 0x10000, 0x3000, Grant(1, 0x100000));
    var st2 := Step(st1, b);
    assert st2 == Register(st1, 0x11000, 16, Grant(2, 0x200000));
    assert Run(st1, [b]) == Run(st2, []) == st2;
  }

  lemma NestedEnds(allocs: map<nat, Entry>)
    requires allocs.Keys == {0x10000, 0x11000, 0x100000, 0x200000}
    requires allocs[0x10000].sizeRequested == 0x3000 && allocs[0x11000].sizeRequested == 16
    ensures !NotPast(allocs, 0x10000, 0x11000)
  {
  }

  /** The range an entry at k asks for overlaps no other entry. */
  ghost predicate RangeFree(allocs: map<nat, Entry>, k: nat, size: nat) {
    forall j | j in allocs && j != k :: j + allocs[j].sizeRequested <= k || k + size <= j
  }

  ghost predicate NonEmptyDisjoint(allocs: map<nat, Entry>) {
    Disjoint(allocs) && forall j | j in allocs :: allocs[j].sizeRequested > 0
  }

  lemma InsertKeepsDisjoint(allocs: map<nat, Entry>, k: nat, e: Entry)
    requires NonEmptyDisjoint(allocs) && RangeFree(allocs, k, e.sizeRequested) && e.sizeRequested > 0
    ensures NonEmptyDisjoint(allocs[k := e])
  {
  }

  /** The ranges a step enters are non-empty and overlap nothing. */
  ghost predicate EntersFreeRanges(st: State, op: Op) {
    match op
    case AllocOp(_, addr, _, requested, _) => requested > 0 && RangeFree(st.allocs, addr, requested)
    case ImportOp(_, addr, _, requested, _, _) => requested > 0 && RangeFree(st.allocs, addr, requested)
    case MapOp(addr, size, Some(g)) =>
      && size > 0 && RangeFree(st.allocs, addr, size) && RangeFree(st.allocs, g.gpuAddr, size)
      && (addr + size <= g.gpuAddr || g.gpuAddr + size <= addr)
    case _ => true
  }

  lemma StepKeepsDisjoint(st: State, op: Op)
    requires NonEmptyDisjoint(st.allocs) && EntersFreeRanges(st, op)
    ensures NonEmptyDisjoint(Step(st, op).allocs)
  {
    hide NonEmptyDisjoint, RangeFree;
    match op {
      case AllocOp(h, addr, size, requested, _) =>
        InsertKeepsDisjoint(st.allocs, addr, Entry(h, addr, addr, size, false, requested, -1));
      case ImportOp(h, addr, size, requested, _, _) =>
        InsertKeepsDisjoint(st.allocs, addr, Entry(h, addr, addr, size, false, requested, -1));
      case MapOp(addr, size, Some(g)) =>
        var e := Entry(g.handle, AlignedStart(addr), g.gpuAddr, AlignedSize(addr, size), true, size, -1);
        InsertKeepsDisjoint(st.allocs, addr, e);
        StillFree(st.allocs, addr, e, g.gpuAddr, size);
        InsertKeepsDisjoint(st.allocs[addr := e], g.gpuAddr, e);
      case _ => FewerEntriesStayDisjoint(st.allocs, Step(st, op).allocs);
    }
  }

  lemma StillFree(allocs: map<nat, Entry>, k: nat, e: Entry, at: nat, size: nat)
    requires RangeFree(allocs, at, size) && (k + e.sizeRequested <= at || at + size <= k)
    ensures RangeFree(allocs[k := e], at, size)
  {
  }

  lemma FewerEntriesStayDisjoint(allocs: map<nat, Entry>, after: map<nat, Entry>)
    requires NonEmptyDisjoint(allocs) && forall k | k in after :: k in allocs && after[k] == allocs[k]
    ensures NonEmptyDisjoint(after)
  {
  }

  ghost predicate EntersFreeRangesRun(st: State, ops: seq<Op>)
    decreases |ops|
  {
    ops == [] || (EntersFreeRanges(st, ops[0]) && EntersFreeRangesRun(Step(st, ops[0]), ops[1..]))
  }

  /** So in every reachable state a pointer is found exactly when some allocation contains it. */
  lemma {:induction false} FindExactInEveryRun(st: State, ops: seq<Op>, p: nat)
    requires NonEmptyDisjoint(st.allocs) && EntersFreeRangesRun(st, ops)
    ensures var allocs := Run(st, ops).allocs;
            && (Find(allocs, p).Some? <==> exists k: nat :: Contains(allocs, k, p))
            && forall k: nat | Contains(allocs, k, p) :: Find(allocs, p) == Some(k)
    decreases |ops|
  {
    hide Step, NonEmptyDisjoint, EntersFreeRanges, Find;
    if ops == [] {
      NonEmptyIsDisjoint(st.allocs);
      FindIsExact(st.allocs, p);
    } else {
      StepKeepsDisjoint(st, ops[0]);
      FindExactInEveryRun(Step(st, ops[0]), ops[1..], p);
    }
  }

  lemma NonEmptyIsDisjoint(allocs: map<nat, Entry>)
    requires NonEmptyDisjoint(allocs)
    ensures Disjoint(allocs)
  {
  }

  // --------------------------------------------------------------------------
  // Exported offsets
  // --------------------------------------------------------------------------

  /** The entry an export works on, and the offset it reports; no range is checked. */
  function ExportEntry(allocs: map<nat, Entry>, p: nat): Option<nat> {
    StepBack(allocs.Keys, p)
  }

  function ExportOffset(e: Entry, p: nat): int {
    p - e.gpuAddr
  }

  /** For anything but a user pointer the offset is counted from the key, so adding it back gives p;
      for a user pointer it is so exactly at its GPU address. */
  lemma ExportOffsetRecovers(st: State, p: nat)
    requires Coherent(st) && ExportEntry(st.allocs, p).Some?
    ensures var k := ExportEntry(st.allocs, p).value;
            var e := st.allocs[k];
            && k <= p && (!e.userptr ==> ExportOffset(e, p) == p - k && k + ExportOffset(e, p) == p)
            && (k + ExportOffset(e, p) == p <==> k == Home(st.objs[e.handle]))
            && (Contains(st.allocs, k, p) && !e.userptr ==> 0 <= ExportOffset(e, p) < e.sizeRequested)
  {
  }

  // --------------------------------------------------------------------------
  // User pointers
  // --------------------------------------------------------------------------

  /** A first registration: the aligned range covers the request, the GPU address keeps the offset in
      the page, and the whole request maps inside the granted range. */
  lemma RegistrationCovers(st: State, addr: nat, size: nat, g: Grant)
    requires g.gpuAddr % PAGE == 0
    requires MapMemory(st, addr, size, Some(g)).0 == Register(st, addr, size, g) != st
    ensures AlignedStart(addr) <= addr && addr + size <= AlignedStart(addr) + AlignedSize(addr, size)
    ensures var answer := MapMemory(st, addr, size, Some(g)).1;
            && answer.status == Success && answer.gpu.Some?
            && answer.gpu.value % PAGE == addr % PAGE
            && g.gpuAddr <= answer.gpu.value && answer.gpu.value + size <= g.gpuAddr + AlignedSize(addr, size)
  {
  }

  /** The entry of a registration, under the pointer it was made with. */
  function Registration(addr: nat, size: nat, g: Grant): Entry {
    Entry(g.handle, AlignedStart(addr), g.gpuAddr, AlignedSize(addr, size), true, size, -1)
  }

  /** The registration still stands, and its page has not become an ordinary allocation. */
  ghost predicate Stands(st: State, addr: nat, e: Entry) {
    && Coherent(st) && addr > 0 && addr in st.allocs && st.allocs[addr] == e && e.userptr
    && e.handle in st.objs && st.objs[e.handle].mappedAs == addr
    && (AlignedStart(addr) in st.allocs ==> st.allocs[AlignedStart(addr)].userptr)
  }

  /** A step that neither releases the registration nor puts something else in its place. */
  predicate LeavesAlone(addr: nat, e: Entry, op: Op) {
    match op
    case AllocOp(_, a, _, _, _) => a != addr && a != AlignedStart(addr)
    case ImportOp(_, a, _, _, _, _) => a != addr && a != AlignedStart(addr)
    case MapOp(a, size, Some(g)) => (a == addr ==> size <= e.size) && g.gpuAddr != addr
    case DeregisterOp(a) => a != addr
    case _ => true
  }

  lemma StepStands(st: State, addr: nat, e: Entry, op: Op)
    requires Stands(st, addr, e) && Allowed(st, op) && LeavesAlone(addr, e, op)
    ensures Stands(Step(st, op), addr, e)
  {
    hide Coherent, MapMemory;
    StepKeepsCoherent(st, op);
    KeysHere(st, addr);
    match op {
      case MapOp(a, size, grant) => MapStands(st, addr, e, a, size, grant);
      case DeregisterOp(a) => if a in st.allocs { KeysHere(st, a); }
      case FreeOp(a) => if a in st.allocs { KeysHere(st, a); }
      case _ =>
    }
  }

  lemma KeysHere(st: State, k: nat)
    requires Coherent(st) && k in st.allocs
    ensures st.allocs[k].handle in st.objs && EntryOk(st, k) && ObjectOk(st, st.allocs[k].handle)
  {
  }

  lemma MapStands(st: State, addr: nat, e: Entry, a: nat, size: nat, grant: Option<Grant>)
    requires Stands(st, addr, e) && Allowed(st, MapOp(a, size, grant)) && LeavesAlone(addr, e, MapOp(a, size, grant))
    ensures var st' := MapMemory(st, a, size, grant).0;
            && addr in st'.allocs && st'.allocs[addr] == e
            && e.handle in st'.objs && st'.objs[e.handle].mappedAs == addr
            && (AlignedStart(addr) in st'.allocs ==> st'.allocs[AlignedStart(addr)].userptr)
  {
    hide Coherent;
    MapAnswers(st, addr, e, size, grant);
  }

  /** Mapped again with any size the entry admits, the pointer gets its GPU address and nothing changes. */
  lemma MapAnswers(st: State, addr: nat, e: Entry, again: nat, grant: Option<Grant>)
    requires Stands(st, addr, e)
    ensures again <= e.size ==>
              MapMemory(st, addr, again, grant) == (st, MapAnswer(Success, Some(e.gpuAddr + addr - e.cpuAddr)))
  {
    hide Coherent;
    var start := AlignedStart(addr);
    if start in st.allocs {
      KeysHere(st, start);
      UserObjectsAreNotImported(st, st.allocs[start].handle);
    }
  }

  ghost predicate LeavesAloneRun(addr: nat, e: Entry, ops: seq<Op>) {
    forall i | 0 <= i < |ops| :: LeavesAlone(addr, e, ops[i])
  }

  lemma {:induction false} RunStands(st: State, addr: nat, e: Entry, ops: seq<Op>)
    requires Stands(st, addr, e) && AllowedRun(st, ops) && LeavesAloneRun(addr, e, ops)
    ensures Stands(Run(st, ops), addr, e)
    decreases |ops|
  {
    hide Stands, Allowed, LeavesAlone, Step;
    if ops != [] {
      StepStands(st, addr, e, ops[0]);
      RunStands(Step(st, ops[0]), addr, e, ops[1..]);
    }
  }

  /** However long after its registration, and whatever else was mapped, allocated and released since: a
      pointer still registered gets the same GPU address again, and nothing changes. */
  lemma RemapIsStable(st: State, addr: nat, size: nat, g: Grant, ops: seq<Op>, again: nat, grant: Option<Grant>)
    requires Coherent(st) && Allowed(st, MapOp(addr, size, Some(g)))
    requires MapMemory(st, addr, size, Some(g)).0 == Register(st, addr, size, g) != st
    requires var e := Registration(addr, size, g);
             AllowedRun(Register(st, addr, size, g), ops) && LeavesAloneRun(addr, e, ops) && again <= e.size
    ensures var now := Run(Register(st, addr, size, g), ops);
            MapMemory(now, addr, again, grant) == (now, MapMemory(st, addr, size, Some(g)).1)
  {
    var e := Registration(addr, size, g);
    RegisteredStands(st, addr, size, g);
    RunStands(Register(st, addr, size, g), addr, e, ops);
    MapAnswers(Run(Register(st, addr, size, g), ops), addr, e, again, grant);
  }

  lemma RegisteredStands(st: State, addr: nat, size: nat, g: Grant)
    requires Coherent(st) && Allowed(st, MapOp(addr, size, Some(g)))
    requires MapMemory(st, addr, size, Some(g)).0 == Register(st, addr, size, g) != st
    ensures Stands(Register(st, addr, size, g), addr, Registration(addr, size, g))
    ensures MapMemory(st, addr, size, Some(g)).1 == MapAnswer(Success, Some(g.gpuAddr + (addr - AlignedStart(addr))))
  {
    hide Coherent;
    MapKeepsCoherent(st, addr, size, Some(g));
  }

  /** ... but the repeated request stays inside the granted range exactly when its offset in the page and
      its size fit the aligned size together; a size the entry admits ensures it only for aligned pointers. */
  lemma RemapCoversIff(st: State, addr: nat, size: nat, g: Grant, ops: seq<Op>, again: nat, grant: Option<Grant>)
    requires Coherent(st) && Allowed(st, MapOp(addr, size, Some(g)))
    requires MapMemory(st, addr, size, Some(g)).0 == Register(st, addr, size, g) != st
    requires var e := Registration(addr, size, g);
             AllowedRun(Register(st, addr, size, g), ops) && LeavesAloneRun(addr, e, ops) && again <= e.size
    ensures var answer := MapMemory(Run(Register(st, addr, size, g), ops), addr, again, grant).1;
            && answer.status == Success && answer.gpu.Some?
            && (answer.gpu.value + again <= g.gpuAddr + AlignedSize(addr, size) <==>
                addr % PAGE + again <= AlignedSize(addr, size))
            && (addr % PAGE == 0 ==> answer.gpu.value + again <= g.gpuAddr + AlignedSize(addr, size))
  {
    RemapIsStable(st, addr, size, g, ops, again, grant);
    RegisteredStands(st, addr, size, g);
  }

  /** An unaligned pointer whose repeated mapping is accepted although it runs past the granted page. */
  lemma RemapRunsPast()
    ensures var st := Run(EMPTY, [MapOp(0x5010, 16, Some(Grant(1, 0x9000)))]);
            && st.allocs[0x9000].size == 0x1000
            && MapMemory(st, 0x5010, 0x1000, None) == (st, MapAnswer(Success, Some(0x9010)))
  {
    var op := MapOp(0x5010, 16, Some(Grant(1, 0x9000)));
    assert [op][1..] == [];
    assert Run(EMPTY, [op]) == Step(EMPTY, op);
  }

  // --------------------------------------------------------------------------
  // Ordinary and imported allocations
  // --------------------------------------------------------------------------

  /** A pointer into the first page of an ordinary allocation: nothing changes, the request is granted exactly
      if the allocation has its size, and the GPU address is as far from the object's own as the pointer from
      the key. */
  lemma MapOrdinary(st: State, addr: nat, size: nat, grant: Option<Grant>)
    requires Coherent(st) && addr > 0 && AlignedStart(addr) in st.allocs
    requires var e := st.allocs[AlignedStart(addr)]; !e.userptr && !st.objs[e.handle].importedIpc
    ensures var key := AlignedStart(addr);
            var e := st.allocs[key];
            var (st', answer) := MapMemory(st, addr, size, grant);
            && st' == st
            && (answer.status == Success <==> size <= e.size)
            && (answer.status == Success <==> answer.gpu.Some?)
            && (answer.gpu.Some? ==> answer.gpu.value - Home(st.objs[e.handle]) == addr - key)
            && (answer.status != Success ==> answer.status == Error)
  {
    hide Coherent;
    KeysHere(st, AlignedStart(addr));
  }

  /** An imported buffer is mapped where it is: success, whatever the size, and no address is answered. */
  lemma MapImported(st: State, addr: nat, size: nat, grant: Option<Grant>)
    requires Coherent(st) && addr > 0 && AlignedStart(addr) in st.allocs
    requires st.objs[st.allocs[AlignedStart(addr)].handle].importedIpc
    ensures MapMemory(st, addr, size, grant) == (st, MapAnswer(Success, None))
  {
    hide Coherent;
    KeysHere(st, AlignedStart(addr));
  }

  /** The entry of an object that is nobody's user pointer and not imported. */
  ghost predicate Ordinary(st: State, addr: nat, e: Entry) {
    && Coherent(st) && addr in st.allocs && st.allocs[addr] == e && !e.userptr
    && e.handle in st.objs && !st.objs[e.handle].importedIpc
  }

  lemma StepOrdinary(st: State, addr: nat, e: Entry, op: Op)
    requires Ordinary(st, addr, e) && Allowed(st, op) && op != FreeOp(addr)
    ensures Ordinary(Step(st, op), addr, e)
  {
    hide Coherent, MapMemory;
    StepKeepsCoherent(st, op);
    KeysHere(st, addr);
    match op {
      case MapOp(a, size, grant) =>
        if MapMemory(st, a, size, grant).0 != st { RegisterReplacesOnlyUserPointers(st, a, size, grant); }
      case DeregisterOp(a) => if a in st.allocs { KeysHere(st, a); }
      case FreeOp(a) => if a in st.allocs { KeysHere(st, a); }
      case _ =>
    }
  }

  lemma {:induction false} RunOrdinary(st: State, addr: nat, e: Entry, ops: seq<Op>)
    requires Ordinary(st, addr, e) && AllowedRun(st, ops) && FreeOp(addr) !in ops
    ensures Ordinary(Run(st, ops), addr, e)
    decreases |ops|
  {
    hide Ordinary, Allowed, Step;
    if ops != [] {
      StepOrdinary(st, addr, e, ops[0]);
      RunOrdinary(Step(st, ops[0]), addr, e, ops[1..]);
    }
  }

  /** From its allocation until it is freed, whatever else happens: every pointer into the first page maps to
      itself, for exactly the sizes that were allocated. */
  lemma MapOfAllocation(st: State, h: nat, addr: nat, size: nat, requested: nat, physicalOnly: bool, ops: seq<Op>,
                        p: nat, request: nat, grant: Option<Grant>)
    requires var op := AllocOp(h, addr, size, requested, physicalOnly);
             Coherent(st) && Allowed(st, op) && AllowedRun(Step(st, op), ops) && FreeOp(addr) !in ops
    requires addr <= p < addr + PAGE
    ensures var now := Run(Alloc(st, h, addr, size, requested, physicalOnly), ops);
            MapMemory(now, p, request, grant)
              == (now, if request <= size then MapAnswer(Success, Some(p)) else MapAnswer(Error, None))
  {
    var op, e := AllocOp(h, addr, size, requested, physicalOnly), Entry(h, addr, addr, size, false, requested, -1);
    StepKeepsCoherent(st, op);
    RunOrdinary(Step(st, op), addr, e, ops);
    PageStart(addr, p);
    hide *;
    OrdinaryAnswer(Run(Step(st, op), ops), addr, e, p, request, grant);
    StepIsAlloc(st, h, addr, size, requested, physicalOnly);
  }

  lemma StepIsAlloc(st: State, h: nat, addr: nat, size: nat, requested: nat, physicalOnly: bool)
    ensures Step(st, AllocOp(h, addr, size, requested, physicalOnly)) == Alloc(st, h, addr, size, requested, physicalOnly)
  {
  }

  lemma OrdinaryAnswer(st: State, addr: nat, e: Entry, p: nat, request: nat, grant: Option<Grant>)
    requires Ordinary(st, addr, e) && AlignedStart(p) == addr && p > 0
    ensures MapMemory(st, p, request, grant)
              == (st, if request <= e.size then MapAnswer(Success, Some(p)) else MapAnswer(Error, None))
  {
    hide Coherent;
  }

  lemma PageStart(addr: nat, p: nat)
    requires addr % PAGE == 0 && addr <= p < addr + PAGE
    ensures AlignedStart(p) == addr
  {
  }

  /** A pointer past the first page is not recognised: the middle of an ordinary allocation is registered as
      user memory, as a second object. */
  lemma InnerPageIsRegistered(st: State, addr: nat, p: nat, size: nat, g: Grant)
    requires Coherent(st) && addr in st.allocs && !st.allocs[addr].userptr && Contains(st.allocs, addr, p)
    requires p > 0 && AlignedStart(p) !in st.allocs && p !in st.allocs
    ensures MapMemory(st, p, size, Some(g)).0 == Register(st, p, size, g)
    ensures MapMemory(st, p, size, None) == (st, MapAnswer(Error, None))
  {
  }

  // --------------------------------------------------------------------------
  // Mapping an object into reserved ranges
  // --------------------------------------------------------------------------

  /** The addresses the calls on object h leave mapped, beginning with those in acc. */
  function MappedBy(acc: set<nat>, ops: seq<Op>, h: nat): set<nat>
    decreases |ops|
  {
    if ops == [] then acc
    else
      var next :=
        if ops[0].VaMapOp? && ops[0].handle == h && ops[0].addr != 0 then acc + {ops[0].addr}
        else if ops[0].VaUnmapOp? && ops[0].handle == h then acc - {ops[0].addr}
        else acc;
      MappedBy(next, ops[1..], h)
  }

  lemma StepMappings(st: State, addr: nat, e: Entry, op: Op)
    requires Ordinary(st, addr, e) && Allowed(st, op) && op != FreeOp(addr)
    ensures e.handle in Step(st, op).objs && Step(st, op).objs[e.handle].gpuAddr == st.objs[e.handle].gpuAddr
    ensures st.objs[e.handle].gpuAddr == 0 ==>
              Step(st, op).objs[e.handle].mappings == MappedBy(st.objs[e.handle].mappings, [op], e.handle)
    ensures st.objs[e.handle].gpuAddr != 0 && st.objs[e.handle].mappings == {} ==> Step(st, op).objs[e.handle].mappings == {}
  {
    hide Coherent, MapMemory;
    StepOrdinary(st, addr, e, op);
    KeysHere(st, addr);
    assert [op][1..] == [];
    match op {
      case MapOp(a, size, grant) =>
        if MapMemory(st, a, size, grant).0 != st { RegisterReplacesOnlyUserPointers(st, a, size, grant); }
      case DeregisterOp(a) => if a in st.allocs { KeysHere(st, a); }
      case FreeOp(a) => if a in st.allocs { KeysHere(st, a); }
      case _ =>
    }
  }

  /** Over every run until its free: an object without an address of its own is mapped exactly where calls on it
      have mapped and not unmapped it since, at any number of places; one with an address never anywhere else. */
  lemma {:induction false} RunMappings(st: State, addr: nat, e: Entry, ops: seq<Op>)
    requires Ordinary(st, addr, e) && AllowedRun(st, ops) && FreeOp(addr) !in ops
    ensures e.handle in Run(st, ops).objs && Run(st, ops).objs[e.handle].gpuAddr == st.objs[e.handle].gpuAddr
    ensures st.objs[e.handle].gpuAddr == 0 ==>
              Run(st, ops).objs[e.handle].mappings == MappedBy(st.objs[e.handle].mappings, ops, e.handle)
    ensures st.objs[e.handle].gpuAddr != 0 && st.objs[e.handle].mappings == {} ==> Run(st, ops).objs[e.handle].mappings == {}
    decreases |ops|
  {
    hide Allowed, Step, Coherent;
    if ops != [] {
      StepOrdinary(st, addr, e, ops[0]);
      StepMappings(st, addr, e, ops[0]);
      RunMappings(Step(st, ops[0]), addr, e, ops[1..]);
      assert [ops[0]][1..] == [];
    }
  }

  /** What the call reports: an object with an address is there already or refused, any other is mapped. */
  lemma VaMapReports(st: State, h: nat, addr: nat)
    requires h in st.objs && addr > 0
    ensures VaMap(st, h, addr).1 == Success <==> st.objs[h].gpuAddr in {0, addr}
    ensures st.objs[h].gpuAddr == 0 ==> addr in VaMap(st, h, addr).0.objs[h].mappings
    ensures st.objs[h].gpuAddr != 0 ==> VaMap(st, h, addr).0 == st
    ensures VaUnmap(VaMap(st, h, addr).0, h, addr).1 == Success
    ensures addr !in st.objs[h].mappings ==> VaUnmap(VaMap(st, h, addr).0, h, addr).0 == st
  {
    var o := st.objs[h];
    if addr !in o.mappings {
      assert o.mappings + {addr} - {addr} == o.mappings && o.mappings - {addr} == o.mappings;
      assert st.objs[h := o] == st.objs;
    }
  }
}
