/** Buffers and the queues that run on them.  A buffer remembers its queues in one flag, not a count, and
    only a free looks at it, so what the flag promises depends on how buffers are shared and released. */
module QueueReferences {
  import opened Common
  import opened AllocationMap

  /** Queue q runs on the object that its ring address leads to. */
  ghost predicate OnObject(st: State, q: nat, h: nat) {
    q in st.queues && st.queues[q] in st.allocs && st.allocs[st.queues[q]].handle == h
  }

  ghost predicate InUse(st: State, h: nat) {
    exists q :: OnObject(st, q, h)
  }

  ghost predicate IsRing(st: State, addr: nat) {
    exists q :: q in st.queues && st.queues[q] == addr
  }

  /** Every live queue's ring address is a key of the map. */
  ghost predicate RingsMapped(st: State) {
    forall q | q in st.queues :: st.queues[q] in st.allocs
  }

  ghost predicate FlagTrue(st: State, h: nat)
    requires h in st.objs
  {
    st.objs[h].queueReferenced <==> InUse(st, h)
  }

  /** The flag of every object, of whatever kind, says whether a queue runs on it. */
  ghost predicate FlagsAgree(st: State) {
    forall h | h in st.objs :: FlagTrue(st, h)
  }

  ghost predicate SameBuffer(st: State, st': State, q: nat)
    requires q in st.queues && q in st'.queues
  {
    var ring := st.queues[q];
    && st'.queues[q] == ring && ring in st.allocs && ring in st'.allocs
    && st'.allocs[ring].handle == st.allocs[ring].handle
  }

  /** A queue that survives the step still runs on the very object it ran on before. */
  ghost predicate KeepsBuffers(st: State, st': State) {
    forall q | q in st.queues && q in st'.queues :: SameBuffer(st, st', q)
  }

  /** The one demand on queues: a new name, and a ring address that is a key of the map. */
  ghost predicate QueueAllowed(st: State, op: Op) {
    && Allowed(st, op)
    && (op.CreateQueueOp? ==> op.queue !in st.queues && op.ring > 0 && op.ring in st.allocs)
  }

  /** The step deletes the object its address leads to without a look at the flag. */
  predicate DeregisterDeletes(st: State, addr: nat) {
    && addr > 0 && addr in st.allocs && st.allocs[addr].handle in st.objs
    && var o := st.objs[st.allocs[addr].handle];
    st.allocs[addr].userptr || (o.importedIpc && DecShared(o.sharedRef) == 0)
  }

  /** What a caller has to see to: destroy no queue while another runs on the same object, deregister no
      object a queue runs on, and let no new entry take the place of a ring's. */
  ghost predicate Harmless(st: State, op: Op) {
    match op
    case DestroyQueueOp(q) =>
      q in st.queues && st.queues[q] in st.allocs ==>
        forall p | p != q :: !OnObject(st, p, st.allocs[st.queues[q]].handle)
    case DeregisterOp(addr) => DeregisterDeletes(st, addr) ==> !InUse(st, st.allocs[addr].handle)
    case AllocOp(_, addr, _, _, _) => !IsRing(st, addr)
    case ImportOp(_, addr, _, _, _, _) => !IsRing(st, addr)
    case MapOp(addr, size, Some(g)) =>
      MapMemory(st, addr, size, Some(g)).0 != st ==> !IsRing(st, addr) && !IsRing(st, g.gpuAddr)
    case _ => true
  }

  // --------------------------------------------------------------------------
  // One step
  // --------------------------------------------------------------------------

  /** Queues, the entries of their rings and the flags of old objects are as before; new objects are
      unflagged, and nothing that is gone had a queue. */
  ghost predicate Spares(st: State, st': State) {
    && st'.queues == st.queues
    && (forall q | q in st.queues :: SameBuffer(st, st', q))
    && (forall h | h in st'.objs :: if h in st.objs then st'.objs[h].queueReferenced == st.objs[h].queueReferenced
                                    else !st'.objs[h].queueReferenced && !InUse(st, h))
  }

  lemma SparedStaysTrue(st: State, st': State)
    requires RingsMapped(st) && FlagsAgree(st) && Spares(st, st')
    ensures RingsMapped(st') && FlagsAgree(st') && KeepsBuffers(st, st')
  {
    assert forall q | q in st.queues :: SameBuffer(st, st', q);
    forall h | h in st'.objs ensures FlagTrue(st', h) {
      assert forall q :: OnObject(st, q, h) <==> OnObject(st', q, h);
      if h in st.objs { assert FlagTrue(st, h); }
    }
  }

  /** A new entry where there is a ring takes the queue's object away from it. */
  lemma ReplacedRing(st: State, st': State, addr: nat)
    requires Coherent(st) && st'.queues == st.queues && IsRing(st, addr)
    requires addr in st'.allocs && st'.allocs[addr].handle !in st.objs
    ensures !KeepsBuffers(st, st')
  {
    var q :| q in st.queues && st.queues[q] == addr;
    assert addr in st.allocs ==> EntryOk(st, addr);
    assert !SameBuffer(st, st', q);
  }

  lemma UnusedHandle(st: State, h: nat)
    requires Coherent(st) && h !in st.objs
    ensures !InUse(st, h)
  {
  }

  lemma EnterIff(st: State, addr: nat, e: Entry, h: nat, o: Gpu, made: set<nat>)
    requires Coherent(st) && RingsMapped(st) && FlagsAgree(st) && h !in st.objs && e.handle == h && !o.queueReferenced
    ensures var st' := st.(allocs := st.allocs[addr := e], objs := st.objs[h := o], made := made);
            if IsRing(st, addr) then !KeepsBuffers(st, st') else Spares(st, st')
  {
    var st' := st.(allocs := st.allocs[addr := e], objs := st.objs[h := o], made := made);
    if IsRing(st, addr) {
      ReplacedRing(st, st', addr);
    } else {
      UnusedHandle(st, h);
    }
  }

  lemma MapIff(st: State, addr: nat, size: nat, grant: Option<Grant>)
    requires Coherent(st) && RingsMapped(st) && FlagsAgree(st) && Allowed(st, MapOp(addr, size, grant))
    ensures var st' := MapMemory(st, addr, size, grant).0;
            if Harmless(st, MapOp(addr, size, grant)) then Spares(st, st') else !KeepsBuffers(st, st')
  {
    hide MapMemory, Coherent, FlagsAgree;
    var st' := MapMemory(st, addr, size, grant).0;
    if st' != st {
      RegisterReplacesOnlyUserPointers(st, addr, size, grant);
      RegisterIff(st, addr, size, grant.value);
    } else {
      forall h | h in st.objs ensures st'.objs[h].queueReferenced == st.objs[h].queueReferenced {}
    }
  }

  lemma RegisterIff(st: State, addr: nat, size: nat, g: Grant)
    requires Coherent(st) && RingsMapped(st) && g.handle !in st.objs
    ensures var st' := Register(st, addr, size, g);
            if IsRing(st, addr) || IsRing(st, g.gpuAddr) then !KeepsBuffers(st, st') else Spares(st, st')
  {
    var st' := Register(st, addr, size, g);
    if IsRing(st, addr) {
      ReplacedRing(st, st', addr);
    } else if IsRing(st, g.gpuAddr) {
      ReplacedRing(st, st', g.gpuAddr);
    } else {
      UnusedHandle(st, g.handle);
    }
  }

  /** Deleting an object keeps the queues' buffers exactly when no queue runs on it. */
  lemma DropIff(st: State, keys: set<nat>, h: nat)
    requires Coherent(st) && RingsMapped(st) && h in st.objs
    requires forall k | k in st.allocs && st.allocs[k].handle == h :: k in keys
    requires forall k | k in keys && k in st.allocs :: st.allocs[k].handle == h
    ensures if InUse(st, h) then !KeepsBuffers(st, Drop(st, keys, h)) else Spares(st, Drop(st, keys, h))
  {
    var st' := Drop(st, keys, h);
    if InUse(st, h) {
      var q :| OnObject(st, q, h);
      assert !SameBuffer(st, st', q);
    } else {
      forall q | q in st.queues ensures SameBuffer(st, st', q) {
        assert !OnObject(st, q, h);
      }
    }
  }

  /** A free is refused by the flag wherever a queue runs, so it never takes a buffer away. */
  lemma FreeSpares(st: State, addr: nat)
    requires Coherent(st) && RingsMapped(st) && FlagsAgree(st) && Allowed(st, FreeOp(addr))
    ensures Spares(st, Free(st, addr).0)
    ensures addr > 0 && addr in st.allocs && InUse(st, st.allocs[addr].handle) ==> Free(st, addr) == (st, Error)
  {
    if addr in st.allocs {
      var h := st.allocs[addr].handle;
      assert EntryOk(st, addr) && FlagTrue(st, h);
      forall k | k in st.allocs && st.allocs[k].handle == h ensures k in {addr} { KeysOf(st, h, k); }
      DropIff(st, {addr}, h);
    }
  }

  /** While the flags are true, a free succeeds exactly on an address of the map whose object no queue runs on;
      the object is then gone, unless it is imported and counts further references. */
  lemma FreeOutcome(st: State, addr: nat)
    requires Coherent(st) && RingsMapped(st) && FlagsAgree(st)
    ensures var (st', status) := Free(st, addr);
            && (status == Success <==> addr > 0 && addr in st.allocs && !InUse(st, st.allocs[addr].handle))
            && (status == InvalidParameter <==> addr == 0)
            && (status != Success ==> st' == st)
            && (status == Success ==>
                  var h := st.allocs[addr].handle;
                  (h !in st'.objs && addr !in st'.allocs) <==> !(st.objs[h].importedIpc && st.objs[h].sharedRef > 1))
  {
    if addr in st.allocs { assert EntryOk(st, addr) && FlagTrue(st, st.allocs[addr].handle); }
  }

  /** A deregister reports success for every address but 0, and deletes exactly user pointers and imported
      buffers that count no further reference. */
  lemma DeregisterOutcome(st: State, addr: nat)
    requires Coherent(st)
    ensures var (st', status) := Deregister(st, addr);
            && status == (if addr == 0 then InvalidParameter else Success)
            && (addr > 0 && addr in st.allocs ==>
                  var h := st.allocs[addr].handle;
                  h !in st'.objs <==> st.allocs[addr].userptr || (st.objs[h].importedIpc && st.objs[h].sharedRef <= 1))
            && (addr !in st.allocs ==> st' == st)
  {
    if addr in st.allocs { assert EntryOk(st, addr); }
  }

  lemma DeregisterIff(st: State, addr: nat)
    requires Coherent(st) && RingsMapped(st) && FlagsAgree(st) && Allowed(st, DeregisterOp(addr))
    ensures var st' := Deregister(st, addr).0;
            if Harmless(st, DeregisterOp(addr)) then Spares(st, st') else !KeepsBuffers(st, st')
  {
    hide FlagsAgree, Coherent, InUse;
    if DeregisterDeletes(st, addr) {
      var h := st.allocs[addr].handle;
      var keys := if st.allocs[addr].userptr then {addr, st.allocs[addr].gpuAddr} else {addr};
      KeysOf(st, h, addr);
      UserObjectsAreNotImported(st, h);
      forall k | k in st.allocs && st.allocs[k].handle == h ensures k in keys { KeysOf(st, h, k); }
      DropIff(st, keys, h);
    }
  }

  lemma CreateKeepsFlags(st: State, q: nat, ring: nat)
    requires Coherent(st) && RingsMapped(st) && FlagsAgree(st) && QueueAllowed(st, CreateQueueOp(q, ring))
    ensures var st' := CreateQueue(st, q, ring).0; RingsMapped(st') && FlagsAgree(st') && KeepsBuffers(st, st')
  {
    var st' := CreateQueue(st, q, ring).0;
    var h := st.allocs[ring].handle;
    assert EntryOk(st, ring);
    forall x | x in st'.objs ensures FlagTrue(st', x) {
      assert FlagTrue(st, x);
      assert forall p :: OnObject(st', p, x) <==> OnObject(st, p, x) || (p == q && x == h);
      if x == h { assert OnObject(st', q, h); }
    }
  }

  /** Destroying a queue keeps the flags true exactly when no other one runs on the same object. */
  lemma DestroyFlagsIff(st: State, q: nat)
    requires Coherent(st) && RingsMapped(st) && FlagsAgree(st)
    ensures var st' := DestroyQueue(st, q).0;
            RingsMapped(st') && KeepsBuffers(st, st') && (FlagsAgree(st') <==> Harmless(st, DestroyQueueOp(q)))
  {
    if q in st.queues {
      var st', h := DestroyQueue(st, q).0, st.allocs[st.queues[q]].handle;
      assert EntryOk(st, st.queues[q]);
      assert forall p, x :: OnObject(st', p, x) <==> OnObject(st, p, x) && p != q;
      if Harmless(st, DestroyQueueOp(q)) {
        forall x | x in st'.objs ensures FlagTrue(st', x) {
          assert FlagTrue(st, x);
          if x != h && InUse(st, x) {
            var p :| OnObject(st, p, x);
            assert OnObject(st', p, x);
          }
        }
      } else {
        var p :| p != q && OnObject(st, p, h);
        assert OnObject(st', p, h) && !FlagTrue(st', h);
      }
    }
  }

  lemma OtherStepSpares(st: State, op: Op)
    requires op.ReimportOp? || op.VaMapOp? || op.VaUnmapOp?
    requires RingsMapped(st)
    ensures Spares(st, Step(st, op))
  {
    hide InUse, Alloc, Import, Free, Deregister, MapMemory, CreateQueue, DestroyQueue;
  }

  /** Each step keeps the flags true and every queue on its buffer exactly when it is harmless. */
  lemma StepFlagsIff(st: State, op: Op)
    requires Coherent(st) && RingsMapped(st) && FlagsAgree(st) && QueueAllowed(st, op)
    ensures Coherent(Step(st, op))
    ensures FlagsAgree(Step(st, op)) && KeepsBuffers(st, Step(st, op)) <==> Harmless(st, op)
    ensures Harmless(st, op) ==> RingsMapped(Step(st, op))
  {
    hide Coherent, FlagsAgree, RingsMapped, KeepsBuffers, Spares, CreateQueue, DestroyQueue, MapMemory, Free, Deregister,
         InUse, IsRing, OnObject, DeregisterDeletes;
    StepKeepsCoherent(st, op);
    match op {
      case AllocOp(h, addr, size, requested, physicalOnly) =>
        EnterIff(st, addr, Entry(h, addr, addr, size, false, requested, -1), h, PlainObject(addr, !physicalOnly, false),
                 Step(st, op).made);
      case ImportOp(h, addr, size, requested, allocVa, sysMemFd) =>
        EnterIff(st, addr, Entry(h, addr, addr, size, false, requested, -1), h,
                 PlainObject(addr, allocVa, allocVa && !sysMemFd), st.made);
      case FreeOp(addr) => FreeSpares(st, addr);
      case DeregisterOp(addr) => DeregisterIff(st, addr);
      case MapOp(addr, size, grant) => MapIff(st, addr, size, grant);
      case CreateQueueOp(q, ring) => CreateKeepsFlags(st, q, ring);
      case DestroyQueueOp(q) => DestroyFlagsIff(st, q);
      case _ => OtherStepSpares(st, op);
    }
    SparedIfSpares(st, Step(st, op));
  }

  lemma SparedIfSpares(st: State, st': State)
    requires RingsMapped(st) && FlagsAgree(st)
    ensures Spares(st, st') ==> RingsMapped(st') && FlagsAgree(st') && KeepsBuffers(st, st')
  {
    hide *;
    if Spares(st, st') { SparedStaysTrue(st, st'); }
  }

  // --------------------------------------------------------------------------
  // Whole runs
  // --------------------------------------------------------------------------

  ghost predicate QueueAllowedRun(st: State, ops: seq<Op>)
    decreases |ops|
  {
    ops == [] || (QueueAllowed(st, ops[0]) && QueueAllowedRun(Step(st, ops[0]), ops[1..]))
  }

  /** After every step the flags are true and each queue still runs on its buffer. */
  ghost predicate TrustedThroughout(st: State, ops: seq<Op>)
    decreases |ops|
  {
    ops == [] ||
    (FlagsAgree(Step(st, ops[0])) && KeepsBuffers(st, Step(st, ops[0])) && TrustedThroughout(Step(st, ops[0]), ops[1..]))
  }

  ghost predicate HarmlessRun(st: State, ops: seq<Op>)
    decreases |ops|
  {
    ops == [] || (Harmless(st, ops[0]) && HarmlessRun(Step(st, ops[0]), ops[1..]))
  }

  /** Exactly when the flags can be trusted and the buffers stay, over a whole run. */
  lemma {:induction false} FlagsTrustedIff(st: State, ops: seq<Op>)
    requires Coherent(st) && RingsMapped(st) && FlagsAgree(st) && QueueAllowedRun(st, ops)
    ensures TrustedThroughout(st, ops) <==> HarmlessRun(st, ops)
    decreases |ops|
  {
    hide Coherent, FlagsAgree, RingsMapped, KeepsBuffers, QueueAllowed, Harmless, Step;
    if ops != [] {
      StepFlagsIff(st, ops[0]);
      if Harmless(st, ops[0]) { FlagsTrustedIff(Step(st, ops[0]), ops[1..]); }
    }
  }

  /** In such a run no free ever removes a buffer a queue runs on. */
  lemma {:induction false} QueuedBuffersSurvive(st: State, ops: seq<Op>)
    requires Coherent(st) && RingsMapped(st) && FlagsAgree(st) && QueueAllowedRun(st, ops) && HarmlessRun(st, ops)
    ensures RingsMapped(Run(st, ops)) && FlagsAgree(Run(st, ops)) && Coherent(Run(st, ops))
    ensures forall q | q in Run(st, ops).queues && Run(st, ops).queues[q] > 0 ::
              Free(Run(st, ops), Run(st, ops).queues[q]) == (Run(st, ops), Error)
    decreases |ops|
  {
    hide Coherent, FlagsAgree, RingsMapped, QueueAllowed, Harmless, Step, Free;
    if ops == [] {
      forall q | q in st.queues && st.queues[q] > 0 ensures Free(st, st.queues[q]) == (st, Error) { RingIsNotFreed(st, q); }
    } else {
      StepFlagsIff(st, ops[0]);
      QueuedBuffersSurvive(Step(st, ops[0]), ops[1..]);
    }
  }

  lemma RingIsNotFreed(st: State, q: nat)
    requires Coherent(st) && RingsMapped(st) && FlagsAgree(st) && q in st.queues && st.queues[q] > 0
    ensures Free(st, st.queues[q]) == (st, Error)
  {
    var h := st.allocs[st.queues[q]].handle;
    assert EntryOk(st, st.queues[q]) && FlagTrue(st, h) && OnObject(st, q, h);
  }

  /** A queue nobody destroys runs, at the end of the run, on the object it started on. */
  lemma {:induction false} QueueKeepsItsBuffer(st: State, ops: seq<Op>, q: nat)
    requires Coherent(st) && RingsMapped(st) && FlagsAgree(st) && QueueAllowedRun(st, ops) && HarmlessRun(st, ops)
    requires q in st.queues && DestroyQueueOp(q) !in ops
    ensures q in Run(st, ops).queues && SameBuffer(st, Run(st, ops), q)
    decreases |ops|
  {
    hide Coherent, FlagsAgree, RingsMapped, QueueAllowed, Harmless, Step;
    if ops == [] {
      RingOf(st, q);
    } else {
      var st' := Step(st, ops[0]);
      StepFlagsIff(st, ops[0]);
      QueueStays(st, ops[0], q);
      QueueKeepsItsBuffer(st', ops[1..], q);
      assert SameBuffer(st, st', q);
    }
  }

  lemma RingOf(st: State, q: nat)
    requires RingsMapped(st) && q in st.queues
    ensures st.queues[q] in st.allocs
  {
  }

  lemma QueueStays(st: State, op: Op, q: nat)
    requires q in st.queues && op != DestroyQueueOp(q)
    ensures q in Step(st, op).queues
  {
  }

  // --------------------------------------------------------------------------
  // Runs in which the flag lies
  // --------------------------------------------------------------------------

  /** Two queues on one buffer, one destroyed, buffer freed: the other queue is left without it. */
  lemma FlagIsNotACount()
    ensures var st := Run(EMPTY, [AllocOp(1, 0x10000, 4096, 4096, false), CreateQueueOp(1, 0x10000),
                                  CreateQueueOp(2, 0x10000), DestroyQueueOp(1), FreeOp(0x10000)]);
            2 in st.queues && st.queues[2] == 0x10000 && 0x10000 !in st.allocs
  {
  }

  /** A queue on a user pointer, the pointer deregistered, its GPU address given to a new buffer: the new
      buffer has a queue on it and its flag does not say so. */
  lemma DeregisterIgnoresQueues()
    ensures var ops := [MapOp(0x5000, 4096, Some(Grant(1, 0x9000))), CreateQueueOp(1, 0x9000), DeregisterOp(0x5000)];
            var st := Run(EMPTY, ops);
            && QueueAllowedRun(EMPTY, ops) && 1 in st.queues && st.queues[1] == 0x9000 && 0x9000 !in st.allocs
            && var later := Step(st, AllocOp(2, 0x9000, 4096, 4096, false));
               Allowed(st, AllocOp(2, 0x9000, 4096, 4096, false)) && OnObject(later, 1, 2) && !later.objs[2].queueReferenced
  {
    var a, b, c := MapOp(0x5000, 4096, Some(Grant(1, 0x9000))), CreateQueueOp(1, 0x9000), DeregisterOp(0x5000);
    assert [a, b, c][1..] == [b, c] && [b, c][1..] == [c] && [c][1..] == [];
    var st1 := Step(EMPTY, a);
    var st2 := Step(st1, b);
    var st3 := Step(st2, c);
    assert st1 == Register(EMPTY, 0x5000, 4096, Grant(1, 0x9000));
    assert Run(EMPTY, [a, b, c]) == Run(st1, [b, c]) == Run(st2, [c]) == Run(st3, []) == st3;
  }

  /** An address the map does not know is accepted as a ring, and remembered nowhere. */
  lemma UnknownRingAccepted(st: State, q: nat, ring: nat)
    requires ring > 0 && ring !in st.allocs
    ensures CreateQueue(st, q, ring) == (st.(queues := st.queues[q := ring]), Success)
    ensures !RingsMapped(CreateQueue(st, q, ring).0)
  {
    assert q in CreateQueue(st, q, ring).0.queues;
  }
}
