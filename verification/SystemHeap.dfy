/** System-memory allocations: addresses from the manager, pages committed in place inside a window
    the CPU keeps reserved throughout. */
module SystemHeaps {
  import opened Common
  import opened Fragments
  import opened VaManager

  const DEFAULT_ALIGNMENT: nat := 65536

  datatype ErrorCode = Granted | OutOfMemory | SyscallFail

  /** All addresses of the ranges handed out. */
  ghost function Cover(live: map<nat, nat>): set<nat> {
    set k, a | k in live && a in Span(k, live[k]) :: a
  }

  lemma LiveSeparate(m: FragMap, list: FreeList, lo: nat, hi: nat)
    requires Healthy(m, list, lo, hi)
    ensures Separate(Live(m))
    ensures Cover(Live(m)) <= Span(lo, hi - lo)
  {
    forall a | a in Cover(Live(m)) ensures a in Span(lo, hi - lo) {
      var k :| k in Live(m) && a in Span(k, Live(m)[k]);
      assert FragOk(m, lo, hi, k);
    }
    forall j, k {:trigger Live(m)[j], Live(m)[k]} | j in Live(m) && k in Live(m) && j < k
      ensures j + Live(m)[j] <= k
    {
      assert m[j].size >= 0 && m[k].size >= 0;
    }
  }

  lemma CoverAdd(live: map<nat, nat>, addr: nat, size: nat)
    requires addr !in live
    ensures Cover(live[addr := size]) == Cover(live) + Span(addr, size)
  {
    var more := live[addr := size];
    forall a | a in Cover(live) + Span(addr, size) ensures a in Cover(more) {
      if a in Cover(live) {
        var k :| k in live && a in Span(k, live[k]);
        assert k in more && more[k] == live[k];
      } else {
        assert addr in more && a in Span(addr, more[addr]);
      }
    }
  }

  lemma CoverDrop(live: map<nat, nat>, addr: nat)
    requires addr in live && Separate(live)
    ensures Cover(live - {addr}) == Cover(live) - Span(addr, live[addr])
  {
    var less := live - {addr};
    forall a | a in Cover(live) - Span(addr, live[addr]) ensures a in Cover(less) {
      var k :| k in live && a in Span(k, live[k]);
      assert k in less && less[k] == live[k];
    }
    forall a | a in Cover(less) ensures a in Cover(live) && a !in Span(addr, live[addr]) {
      var k :| k in less && a in Span(k, less[k]);
      assert k in live && live[k] == less[k] && live[addr] >= 0;
      assert k < addr ==> k + live[k] <= addr;
      assert addr < k ==> addr + live[addr] <= k;
    }
  }

  datatype Request = ReserveRange(hint: nat, size: nat, alignment: nat) | FreeRange(addr: nat)

  class SystemHeap {
    const va: VaMgr
    const start: nat
    var mapped: set<nat>
    var committed: set<nat>
    /** Pages a refused decommit left behind. */
    ghost var stray: set<nat>

    ghost predicate Valid()
      reads this, va
    {
      && va.Valid() && va.lo == start
      && mapped == Span(va.lo, va.hi - va.lo)
      && committed == Cover(Live(va.frags)) + stray && stray !! Cover(Live(va.frags)) && stray <= mapped
    }

    constructor (base: nat, size: nat)
      requires base > 0 && size > 0
      ensures Valid() && fresh(va) && Live(va.frags) == map[] && committed == {} && stray == {}
    {
      va := new VaMgr(base, size, PAGE);
      start := base;
      mapped, committed, stray := Span(base, size), {}, {};
      new;
      assert Cover(map[]) == {};
    }

    /** A fixed mapping over the range: refused at address 0, else granted or refused. */
    method MapFixed(addr: nat, size: nat) returns (ok: bool)
      modifies this`mapped
      ensures ok ==> addr != 0 && mapped == old(mapped) + Span(addr, size)
      ensures !ok ==> mapped == old(mapped)
    {
      ok := *;
      ok := ok && addr != 0;
      if ok { mapped := mapped + Span(addr, size); }
    }

    method Commit(addr: nat, size: nat) returns (ok: bool)
      modifies this`mapped, this`committed
      ensures ok ==> addr != 0 && committed == old(committed) + Span(addr, size) && mapped == old(mapped) + Span(addr, size)
      ensures !ok ==> committed == old(committed) && mapped == old(mapped)
    {
      ok := MapFixed(addr, size);
      if ok { committed := committed + Span(addr, size); }
    }

    method Decommit(addr: nat, size: nat) returns (ok: bool)
      modifies this`mapped, this`committed
      ensures ok ==> committed == old(committed) - Span(addr, size) && mapped == old(mapped) + Span(addr, size)
      ensures !ok ==> committed == old(committed) && mapped == old(mapped)
    {
      ok := MapFixed(addr, size);
      if ok { committed := committed - Span(addr, size); }
    }

    static function Alignment(size: nat, alignment: nat): nat {
      if size >= HUGE_PAGE then HUGE_PAGE else if alignment == 0 then DEFAULT_ALIGNMENT else alignment
    }

    /** Reserve and commit.  The heap stays sound exactly when the hint is not strictly inside a fragment that
        serves it; there the range may be handed out, but no bookkeeping knows of it. */
    method ReserveGpuVirtualAddress(hint: nat, size: nat, alignment: nat) returns (code: ErrorCode, out: nat)
      requires Valid() && size > 0 && (hint == 0 || start <= hint)
      modifies this, va
      ensures mapped == old(mapped)
      ensures out != 0 <==> code == Granted
      ensures Valid() <==> !HintInside(old(va.frags), start, size, Alignment(size, alignment), hint)
      ensures code == Granted && HintServed(old(va.frags), start, size, Alignment(size, alignment), hint) ==> out == hint
      ensures code == Granted && !HintServed(old(va.frags), start, size, Alignment(size, alignment), hint) ==>
                Fitted(old(va.freeList), size, Alignment(size, alignment), Slack(Alignment(size, alignment), va.minAlign), out)
      ensures code == Granted && size >= 0x20_0000 ==> out % 0x20_0000 == 0
      ensures code == Granted && size < 0x20_0000 ==> out % (if alignment == 0 then 0x1_0000 else alignment) == 0
      ensures Valid() && code == Granted ==>
                && out !in old(Live(va.frags)) && Live(va.frags) == old(Live(va.frags))[out := size]
                && Span(out, size) <= mapped
                && Span(out, size) <= committed && committed == old(committed) + Span(out, size)
                && stray == old(stray) - Span(out, size)
      ensures Valid() && code != Granted ==>
                Live(va.frags) == old(Live(va.frags)) && committed == old(committed) && stray == old(stray)
      ensures !Valid() ==>
                && hint !in va.frags && (code == Granted ==> out == hint)
                && committed == if code == Granted then old(committed) + Span(hint, size) else old(committed)
    {
      hide Cover, Live, Healthy, HintInside;
      ghost var was := Live(va.frags);
      ghost var inside := HintInside(va.frags, va.lo, size, Alignment(size, alignment), hint);
      code := Granted;
      var addr := va.Alloc(size, Alignment(size, alignment), hint);
      if addr == 0 { code := OutOfMemory; }
      var ok := Commit(addr, size);
      if !ok {
        if !inside && addr == 0 { NotLive(va.frags, va.freeList, va.lo, va.hi, 0); }
        va.Free(addr);
        code := SyscallFail;
        if !inside { assert addr !in was && was[addr := size] - {addr} == was; }
      } else if !inside {
        CoverAdd(was, addr, size);
        stray := stray - Span(addr, size);
        assert Span(addr, size) <= mapped;
      }
      out := if code == Granted then addr else 0;
    }

    /** Give back a range; its pages stay behind only if the kernel refuses to replace them. */
    method FreeGpuVirtualAddress(addr: nat, size: nat) returns (clean: bool)
      requires Valid() && addr in Live(va.frags) && Live(va.frags)[addr] == size
      modifies this, va
      ensures Valid() && mapped == old(mapped)
      ensures Live(va.frags) == old(Live(va.frags)) - {addr}
      ensures clean ==> committed == old(committed) - Span(addr, size) && stray == old(stray)
      ensures !clean ==> committed == old(committed) && stray == old(stray) + Span(addr, size)
    {
      hide Cover, Live, Healthy;
      ghost var was := Live(va.frags);
      LiveSeparate(va.frags, va.freeList, va.lo, va.hi);
      CoverDrop(was, addr);
      CoverHolds(was, addr);
      clean := Decommit(addr, size);
      va.Free(addr);
      if !clean { stray := stray + Span(addr, size); }
    }

    /** Any run of requests, up to the first whose hint lies inside a serving fragment.  What is committed is
        exactly the live ranges and what refused decommits left behind. */
    method Serve(requests: seq<Request>) returns (served: nat, refusals: nat)
      requires Valid() && stray == {}
      modifies this, va
      ensures Valid() && mapped == old(mapped)
      ensures committed == Cover(Live(va.frags)) + stray && stray !! Cover(Live(va.frags)) && committed <= mapped
      ensures refusals == 0 ==> stray == {}
      ensures served <= |requests|
      ensures served < |requests| ==>
                var r := requests[served];
                r.ReserveRange? && HintInside(va.frags, start, r.size, Alignment(r.size, r.alignment), r.hint)
    {
      refusals, served := 0, 0;
      while served < |requests|
        invariant served <= |requests|
        invariant Valid() && mapped == old(mapped) && (refusals == 0 ==> stray == {})
      {
        match requests[served] {
          case ReserveRange(hint, size, alignment) =>
            if HintInside(va.frags, start, size, Alignment(size, alignment), hint) { break; }
            if size > 0 && (hint == 0 || start <= hint) {
              var code, out := ReserveGpuVirtualAddress(hint, size, alignment);
            }
          case FreeRange(addr) =>
            if addr in va.frags && !va.frags[addr].free {
              var clean := FreeGpuVirtualAddress(addr, va.frags[addr].size);
              if !clean { refusals := refusals + 1; }
            }
        }
        served := served + 1;
      }
      LiveSeparate(va.frags, va.freeList, va.lo, va.hi);
    }
  }

  lemma CoverHolds(live: map<nat, nat>, addr: nat)
    requires addr in live
    ensures Span(addr, live[addr]) <= Cover(live)
  {
  }
}
