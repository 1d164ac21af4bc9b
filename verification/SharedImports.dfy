/** How often a shared buffer may be released before it goes.  A buffer of another process becomes a new,
    flagged object at each import; a descriptor of this process adds a reference to what lives at the address
    the buffer was created at.  Only flagged objects look at the count when they are released. */
module SharedImports {
  import opened Common
  import opened AllocationMap

  /** What can happen to the object at a key: a call on that key that succeeded. */
  datatype Event = ImportAgain | ReleaseByFree | ReleaseByDeregister

  function EventOf(st: State, op: Op, key: nat): Option<Event> {
    match op
    case ReimportOp(k) => if k == key && Reimport(st, k).1 == Success then Some(ImportAgain) else None
    case FreeOp(k) => if k == key && Free(st, k).1 == Success then Some(ReleaseByFree) else None
    case DeregisterOp(k) => if k == key && Deregister(st, k).1 == Success then Some(ReleaseByDeregister) else None
    case _ => None
  }

  /** The events at one key in a run, whatever else the run does. */
  function Trace(st: State, ops: seq<Op>, key: nat): seq<Event>
    decreases |ops|
  {
    if ops == [] then []
    else
      var rest := Trace(Step(st, ops[0]), ops[1..], key);
      match EventOf(st, ops[0], key)
      case None => rest
      case Some(e) => [e] + rest
  }

  /** References out after an event, the one the buffer began with included. */
  function Outstanding(n: int, e: Event): int {
    if e == ImportAgain then n + 1 else n - 1
  }

  // --------------------------------------------------------------------------
  // The allocation map follows the count
  // --------------------------------------------------------------------------

  /** The stored count after one event, or None if it deletes the object. */
  function CountStep(flagged: bool, c: nat, e: Event): Option<nat> {
    match e
    case ImportAgain => Some((c + 1) % SHARED_REF_RANGE)
    case ReleaseByFree => if flagged && DecShared(c) != 0 then Some(DecShared(c)) else None
    case ReleaseByDeregister =>
      if !flagged then Some(c) else if DecShared(c) != 0 then Some(DecShared(c)) else None
  }

  function CountRun(flagged: bool, c: nat, events: seq<Event>): Option<nat>
    decreases |events|
  {
    if events == [] then Some(c)
    else match CountStep(flagged, c, events[0])
      case None => None
      case Some(c') => CountRun(flagged, c', events[1..])
  }

  ghost predicate Alive(st: State, h: nat, key: nat) {
    h in st.objs && !st.objs[h].userMemory && Home(st.objs[h]) == key
  }

  ghost predicate Follows(st: State, h: nat, key: nat, flagged: bool, c: nat) {
    Alive(st, h, key) && st.objs[h].importedIpc == flagged && st.objs[h].sharedRef == c
  }

  ghost predicate AliveThroughout(st: State, h: nat, key: nat, ops: seq<Op>)
    decreases |ops|
  {
    Alive(st, h, key) && (ops == [] || AliveThroughout(Step(st, ops[0]), h, key, ops[1..]))
  }

  lemma KeyLeadsHome(st: State, h: nat, key: nat)
    requires Coherent(st) && Alive(st, h, key)
    ensures key > 0 && key in st.allocs && st.allocs[key].handle == h && !st.allocs[key].userptr
    ensures forall k | k in st.allocs && st.allocs[k].handle == h :: k == key
  {
    assert ObjectOk(st, h) && EntryOk(st, key);
    forall k | k in st.allocs && st.allocs[k].handle == h ensures k == key { KeysOf(st, h, k); }
  }

  lemma StepFollows(st: State, h: nat, key: nat, flagged: bool, c: nat, op: Op)
    requires Coherent(st) && Allowed(st, op) && Follows(st, h, key, flagged, c)
    ensures match EventOf(st, op, key)
            case None => Follows(Step(st, op), h, key, flagged, c)
            case Some(e) =>
              if CountStep(flagged, c, e).None? then !Alive(Step(st, op), h, key)
              else Follows(Step(st, op), h, key, flagged, CountStep(flagged, c, e).value)
  {
    hide Coherent;
    KeyLeadsHome(st, h, key);
  }

  /** How objects begin: a buffer this process creates is not flagged, one it imports is flagged exactly if it is
      VRAM that gets an address; nothing is counted yet. */
  lemma BeginsUncounted(st: State, op: Op)
    requires Coherent(st) && Allowed(st, op) && (op.AllocOp? || op.ImportOp?)
    ensures Follows(Step(st, op), op.handle, op.addr, op.ImportOp? && op.allocVa && !op.sysMemFd, 0)
    ensures op.AllocOp? && !op.physicalOnly ==> Allowed(Step(st, op), ReimportOp(op.addr))
  {
  }

  /** For every kind of object, every starting count and every run: the object lives exactly as long as the
      count says so, and holds that count. */
  lemma {:induction false} RunFollows(st: State, h: nat, key: nat, flagged: bool, c: nat, ops: seq<Op>)
    requires Coherent(st) && AllowedRun(st, ops) && Follows(st, h, key, flagged, c)
    ensures var count := CountRun(flagged, c, Trace(st, ops, key));
            && (AliveThroughout(st, h, key, ops) <==> count.Some?)
            && (count.Some? ==> Follows(Run(st, ops), h, key, flagged, count.value))
    decreases |ops|
  {
    hide Coherent, Allowed, Step, EventOf, CountStep;
    if ops != [] {
      var st', rest := Step(st, ops[0]), Trace(Step(st, ops[0]), ops[1..], key);
      StepKeepsCoherent(st, ops[0]);
      StepFollows(st, h, key, flagged, c, ops[0]);
      match EventOf(st, ops[0], key) {
        case None => RunFollows(st', h, key, flagged, c, ops[1..]);
        case Some(e) =>
          assert ([e] + rest)[1..] == rest;
          if CountStep(flagged, c, e).Some? { RunFollows(st', h, key, flagged, CountStep(flagged, c, e).value, ops[1..]); }
      }
    }
  }

  // --------------------------------------------------------------------------
  // Does the object stay until the last release, and go with it?
  // --------------------------------------------------------------------------

  /** After every step up to the one that deletes it, the object is there exactly while a reference is out. */
  ghost predicate PresenceTracks(st: State, h: nat, key: nat, n: int, ops: seq<Op>)
    decreases |ops|
  {
    ops == [] ||
    var st' := Step(st, ops[0]);
    var n' := if EventOf(st, ops[0], key).None? then n else Outstanding(n, EventOf(st, ops[0], key).value);
    (Alive(st', h, key) <==> n' >= 1) && (Alive(st', h, key) ==> PresenceTracks(st', h, key, n', ops[1..]))
  }

  /** The same of the bare count. */
  predicate CountTracks(flagged: bool, c: nat, n: int, events: seq<Event>)
    decreases |events|
  {
    events == [] ||
    var c', n' := CountStep(flagged, c, events[0]), Outstanding(n, events[0]);
    (c'.Some? <==> n' >= 1) && (c'.Some? ==> CountTracks(flagged, c'.value, n', events[1..]))
  }

  lemma {:induction false} PresenceIsCount(st: State, h: nat, key: nat, flagged: bool, c: nat, n: int, ops: seq<Op>)
    requires Coherent(st) && AllowedRun(st, ops) && Follows(st, h, key, flagged, c) && n >= 1
    ensures PresenceTracks(st, h, key, n, ops) <==> CountTracks(flagged, c, n, Trace(st, ops, key))
    decreases |ops|
  {
    hide Coherent, Allowed, Step, EventOf, CountStep, Outstanding, Follows, Alive;
    if ops != [] {
      var st', rest := Step(st, ops[0]), Trace(Step(st, ops[0]), ops[1..], key);
      StepKeepsCoherent(st, ops[0]);
      StepFollows(st, h, key, flagged, c, ops[0]);
      match EventOf(st, ops[0], key) {
        case None =>
          FollowsIsAlive(st', h, key, flagged, c);
          PresenceIsCount(st', h, key, flagged, c, n, ops[1..]);
        case Some(e) =>
          assert ([e] + rest)[1..] == rest;
          var c' := CountStep(flagged, c, e);
          if c'.Some? {
            FollowsIsAlive(st', h, key, flagged, c'.value);
            if Outstanding(n, e) >= 1 { PresenceIsCount(st', h, key, flagged, c'.value, Outstanding(n, e), ops[1..]); }
          }
      }
    }
  }

  lemma FollowsIsAlive(st: State, h: nat, key: nat, flagged: bool, c: nat)
    requires Follows(st, h, key, flagged, c)
    ensures Alive(st, h, key)
  {
  }

  // --------------------------------------------------------------------------
  // Imported buffers
  // --------------------------------------------------------------------------

  /** A descriptor of a buffer this process created and has since freed, when the address now belongs to a
      buffer imported from another process. */
  predicate HitsRecycled(st: State, op: Op) {
    && op.ReimportOp? && op.gpuVa in st.allocs && st.allocs[op.gpuVa].handle in st.objs
    && st.objs[st.allocs[op.gpuVa].handle].importedIpc
  }

  ghost predicate NoneRecycled(st: State, ops: seq<Op>)
    decreases |ops|
  {
    ops == [] || (!HitsRecycled(st, ops[0]) && NoneRecycled(Step(st, ops[0]), ops[1..]))
  }

  /** No imported buffer counts anything. */
  predicate Uncounted(st: State) {
    forall h | h in st.objs && st.objs[h].importedIpc :: st.objs[h].sharedRef == 0
  }

  ghost predicate UncountedThroughout(st: State, ops: seq<Op>)
    decreases |ops|
  {
    Uncounted(st) && (ops == [] || UncountedThroughout(Step(st, ops[0]), ops[1..]))
  }

  lemma StepUncountedIff(st: State, op: Op)
    requires Uncounted(st)
    ensures Uncounted(Step(st, op)) <==> !HitsRecycled(st, op)
  {
    if HitsRecycled(st, op) {
      var h := st.allocs[op.gpuVa].handle;
      assert Step(st, op).objs[h].importedIpc && Step(st, op).objs[h].sharedRef == 1;
    }
  }

  /** The count of imported buffers stays 0 throughout a run exactly when no stale descriptor hits one. */
  lemma {:induction false} UncountedIff(st: State, ops: seq<Op>)
    requires Uncounted(st)
    ensures UncountedThroughout(st, ops) <==> NoneRecycled(st, ops)
    decreases |ops|
  {
    hide Step, HitsRecycled, Uncounted;
    if ops != [] {
      StepUncountedIff(st, ops[0]);
      if Uncounted(Step(st, ops[0])) { UncountedIff(Step(st, ops[0]), ops[1..]); }
    }
  }

  ghost predicate OwnAt(st: State, key: nat) {
    exists h :: Alive(st, h, key) && !st.objs[h].importedIpc
  }

  lemma StepOwnAt(st: State, key: nat, op: Op)
    requires Coherent(st) && Allowed(st, op) && op != FreeOp(key) && (key in st.made ==> OwnAt(st, key))
    ensures key in Step(st, op).made ==> OwnAt(Step(st, op), key)
  {
    hide Coherent;
    if key in st.made {
      var h :| Alive(st, h, key) && !st.objs[h].importedIpc;
      StepFollows(st, h, key, false, st.objs[h].sharedRef, op);
      assert Alive(Step(st, op), h, key);
    } else if op.AllocOp? && op.addr == key && !op.physicalOnly {
      assert Alive(Step(st, op), op.handle, key);
    }
  }

  /** Only a descriptor whose buffer this process has freed can hit an imported one. */
  lemma {:induction false} RecycledNeedsFree(st: State, ops: seq<Op>, key: nat)
    requires Coherent(st) && AllowedRun(st, ops) && (key in st.made ==> OwnAt(st, key)) && FreeOp(key) !in ops
    ensures Allowed(Run(st, ops), ReimportOp(key)) ==> !HitsRecycled(Run(st, ops), ReimportOp(key))
    decreases |ops|
  {
    hide Coherent, Step, OwnAt;
    if ops == [] {
      NotRecycled(st, key);
    } else {
      StepKeepsCoherent(st, ops[0]);
      StepOwnAt(st, key, ops[0]);
      RecycledNeedsFree(Step(st, ops[0]), ops[1..], key);
    }
  }

  lemma NotRecycled(st: State, key: nat)
    requires Coherent(st) && (key in st.made ==> OwnAt(st, key))
    ensures key in st.made ==> !HitsRecycled(st, ReimportOp(key))
  {
    hide Coherent;
    if key in st.made {
      var h :| Alive(st, h, key) && !st.objs[h].importedIpc;
      KeyLeadsHome(st, h, key);
    }
  }

  lemma {:induction false} NoneRecycledNoImport(st: State, h: nat, key: nat, c: nat, ops: seq<Op>)
    requires Coherent(st) && AllowedRun(st, ops) && Follows(st, h, key, true, c) && NoneRecycled(st, ops) && c == 0
    ensures var events := Trace(st, ops, key); events == [] || events[0] != ImportAgain
    decreases |ops|
  {
    hide Coherent, Allowed, Step, CountStep;
    if ops != [] {
      StepKeepsCoherent(st, ops[0]);
      StepFollows(st, h, key, true, c, ops[0]);
      KeyLeadsHome(st, h, key);
      if EventOf(st, ops[0], key).None? { NoneRecycledNoImport(Step(st, ops[0]), h, key, c, ops[1..]); }
    }
  }

  /** An imported buffer lives until its first release, by free or by deregister, and that is its last. */
  lemma ImportedUntilFirstRelease(st: State, h: nat, key: nat, ops: seq<Op>)
    requires Coherent(st) && AllowedRun(st, ops) && Follows(st, h, key, true, 0) && NoneRecycled(st, ops)
    ensures AliveThroughout(st, h, key, ops) <==> Trace(st, ops, key) == []
    ensures PresenceTracks(st, h, key, 1, ops)
  {
    hide Coherent, AllowedRun, AliveThroughout, PresenceTracks, NoneRecycled, Trace, Follows;
    NoneRecycledNoImport(st, h, key, 0, ops);
    RunFollows(st, h, key, true, 0, ops);
    PresenceIsCount(st, h, key, true, 0, 1, ops);
  }

  /** A release that comes while more references are out than one and the stored count, three bits and one
      behind, has at most one left. */
  predicate NoneEarly(n: int, events: seq<Event>)
    decreases |events|
  {
    events == [] ||
    if events[0] == ImportAgain then NoneEarly(n + 1, events[1..])
    else n <= 1 || ((n - 1) % 8 >= 2 && NoneEarly(n - 1, events[1..]))
  }

  /** With stale descriptors too: an imported buffer stays until its last release exactly when no release is
      such an early one. */
  lemma ImportedTracksIff(st: State, h: nat, key: nat, ops: seq<Op>)
    requires Coherent(st) && AllowedRun(st, ops) && Follows(st, h, key, true, 0)
    ensures PresenceTracks(st, h, key, 1, ops) <==> NoneEarly(1, Trace(st, ops, key))
  {
    hide Coherent, AllowedRun, Follows, PresenceTracks, Trace, CountTracks, NoneEarly;
    PresenceIsCount(st, h, key, true, 0, 1, ops);
    CountBehind(0, 1, Trace(st, ops, key));
  }

  lemma {:induction false} CountBehind(c: nat, n: int, events: seq<Event>)
    requires n >= 1 && c == (n - 1) % SHARED_REF_RANGE
    ensures CountTracks(true, c, n, events) <==> NoneEarly(n, events)
    decreases |events|
  {
    if events != [] {
      CountWraps(n);
      if events[0] == ImportAgain {
        CountBehind((c + 1) % SHARED_REF_RANGE, n + 1, events[1..]);
      } else if c >= 2 {
        CountBehind(c - 1, n - 1, events[1..]);
      }
    }
  }

  lemma CountWraps(n: int)
    ensures ((n - 1) % SHARED_REF_RANGE + 1) % SHARED_REF_RANGE == n % SHARED_REF_RANGE
    ensures (n - 1) % SHARED_REF_RANGE >= 1 ==> (n - 2) % SHARED_REF_RANGE == (n - 1) % SHARED_REF_RANGE - 1
    ensures n == 1 ==> (n - 1) % SHARED_REF_RANGE == 0
  {
  }

  /** Every number of references out stays below what three bits can hold. */
  predicate FewOutstanding(n: int, events: seq<Event>)
    decreases |events|
  {
    n < 8 && (events == [] || FewOutstanding(Outstanding(n, events[0]), events[1..]))
  }

  lemma {:induction false} CountInStep(n: nat, events: seq<Event>)
    requires n >= 1 && FewOutstanding(n, events)
    ensures CountTracks(true, n, n, events)
    decreases |events|
  {
    if events != [] && Outstanding(n, events[0]) >= 1 {
      CountInStep(Outstanding(n, events[0]), events[1..]);
    }
  }

  /** Were the count to start at 1, the buffer would stay in the map until its last release and go with it,
      in every run with fewer than eight references out. */
  lemma TracksFromOne(st: State, h: nat, key: nat, ops: seq<Op>)
    requires Coherent(st) && AllowedRun(st, ops) && Follows(st, h, key, true, 1)
    requires FewOutstanding(1, Trace(st, ops, key))
    ensures PresenceTracks(st, h, key, 1, ops)
  {
    hide *;
    PresenceIsCount(st, h, key, true, 1, 1, ops);
    CountInStep(1, Trace(st, ops, key));
  }

  /** A stale descriptor imported twice: the buffer that got its address survives its release. */
  lemma RecycledAddressCounts()
    ensures var ops := [AllocOp(1, 0x10000, 4096, 4096, false), FreeOp(0x10000), ImportOp(2, 0x10000, 4096, 4096, true, false),
                        ReimportOp(0x10000), ReimportOp(0x10000)];
            var st := Run(EMPTY, ops);
            && AllowedRun(EMPTY, ops) && Follows(st, 2, 0x10000, true, 2)
            && Follows(Free(st, 0x10000).0, 2, 0x10000, true, 1)
  {
    var a, b, c := AllocOp(1, 0x10000, 4096, 4096, false), FreeOp(0x10000), ImportOp(2, 0x10000, 4096, 4096, true, false);
    var d := ReimportOp(0x10000);
    assert [a, b, c, d, d][1..] == [b, c, d, d] && [b, c, d, d][1..] == [c, d, d];
    assert [c, d, d][1..] == [d, d] && [d, d][1..] == [d] && [d][1..] == [];
  }

  // --------------------------------------------------------------------------
  // Buffers of this process
  // --------------------------------------------------------------------------

  /** A free when one reference is out, and no deregister that should have been the last release. */
  predicate OwnReleasesFit(n: int, events: seq<Event>)
    decreases |events|
  {
    events == [] ||
    match events[0]
    case ImportAgain => OwnReleasesFit(n + 1, events[1..])
    case ReleaseByFree => n == 1
    case ReleaseByDeregister => n >= 2 && OwnReleasesFit(n - 1, events[1..])
  }

  lemma {:induction false} OwnCountIff(c: nat, n: int, events: seq<Event>)
    requires n >= 1
    ensures CountTracks(false, c, n, events) <==> OwnReleasesFit(n, events)
    decreases |events|
  {
    if events != [] {
      var c' := CountStep(false, c, events[0]);
      if c'.Some? && Outstanding(n, events[0]) >= 1 { OwnCountIff(c'.value, Outstanding(n, events[0]), events[1..]); }
    }
  }

  /** Over every run: a buffer of this process goes with its last release exactly when it is freed with as
      many deregisters behind it as re-imports, and never deregistered more often than re-imported. */
  lemma OwnTracksIff(st: State, h: nat, key: nat, ops: seq<Op>)
    requires Coherent(st) && AllowedRun(st, ops) && Alive(st, h, key) && !st.objs[h].importedIpc
    ensures PresenceTracks(st, h, key, 1, ops) <==> OwnReleasesFit(1, Trace(st, ops, key))
  {
    hide Coherent, AllowedRun, PresenceTracks, Trace, CountTracks, OwnReleasesFit;
    PresenceIsCount(st, h, key, false, st.objs[h].sharedRef, 1, ops);
    OwnCountIff(st.objs[h].sharedRef, 1, Trace(st, ops, key));
  }

  /** So released by frees alone, it goes with the last of them exactly when it was never re-imported before. */
  lemma OwnFreedLastIff(st: State, h: nat, key: nat, ops: seq<Op>)
    requires Coherent(st) && AllowedRun(st, ops) && Alive(st, h, key) && !st.objs[h].importedIpc
    requires ReleaseByDeregister !in Trace(st, ops, key) && ReleaseByFree in Trace(st, ops, key)
    ensures PresenceTracks(st, h, key, 1, ops) <==> Trace(st, ops, key)[0] == ReleaseByFree
    ensures !AliveThroughout(st, h, key, ops)
  {
    hide Coherent, AllowedRun, PresenceTracks, Trace, AliveThroughout;
    OwnTracksIff(st, h, key, ops);
    RunFollows(st, h, key, false, st.objs[h].sharedRef, ops);
    ImportsBeforeFree(st.objs[h].sharedRef, 1, Trace(st, ops, key));
  }

  lemma {:induction false} ImportsBeforeFree(c: nat, n: int, events: seq<Event>)
    requires n >= 1 && ReleaseByDeregister !in events && ReleaseByFree in events
    ensures OwnReleasesFit(n, events) <==> n == 1 && events[0] == ReleaseByFree
    ensures CountRun(false, c, events).None?
    decreases |events|
  {
    if events[0] == ImportAgain { ImportsBeforeFree((c + 1) % SHARED_REF_RANGE, n + 1, events[1..]); }
  }

  /** A buffer of this process is not protected by its count at all: re-imported, one free removes it. */
  lemma OwnBufferUnprotected(st: State, h: nat, key: nat)
    requires Coherent(st) && Alive(st, h, key) && !st.objs[h].importedIpc && !st.objs[h].queueReferenced
    ensures Reimport(st, key).1 == Success
    ensures Free(Reimport(st, key).0, key).1 == Success && !Alive(Free(Reimport(st, key).0, key).0, h, key)
  {
    hide Coherent;
    KeyLeadsHome(st, h, key);
  }
}
