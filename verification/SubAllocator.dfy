/** The allocator and its sub-allocator as one layered system: small requests are fragments of
    blocks, blocks are ordinary entries of the allocation map, and releasing cached blocks goes
    back through the ordinary free path. */
module SubAllocator {
  import opened Common
  import opened OrderedKeys
  import opened Fragments
  import opened BlockHeap

  /** A request to the whole.  An allocation skips the sub-allocator if it is switched off, or if the memory
      asked for is not ordinary VRAM. */
  datatype Request =
    | AllocRequest(bytes: nat, skipSubAlloc: bool)
    | FreeRequest(addr: nat)
    | TrimRequest
    | QueueRequest(addr: nat, on: bool)

  predicate FreshRange(allocs: map<nat, nat>, p: nat, size: nat) {
    forall k | k in allocs :: k + allocs[k] <= p || p + size <= k
  }

  ghost predicate EntriesOk(allocs: map<nat, nat>) {
    Separate(allocs) && forall k | k in allocs :: k > 0 && allocs[k] > 0
  }

  ghost predicate Distinct(cache: seq<nat>) {
    forall i, j | 0 <= i < j < |cache| :: cache[i] != cache[j]
  }

  /** Blocks, cached blocks and direct allocations are different entries of the allocation map. */
  ghost predicate TableOk(allocs: map<nat, nat>, blocks: set<nat>, cache: seq<nat>, direct: map<nat, nat>) {
    && EntriesOk(allocs) && Distinct(cache)
    && (forall b | b in blocks :: b in allocs && allocs[b] == BLOCK && b !in direct)
    && (forall b | b in cache :: b in allocs && allocs[b] == BLOCK && b !in direct && b !in blocks)
    && (forall d | d in direct :: d in allocs && allocs[d] == direct[d])
  }

  /** Every entry but one belongs to somebody: to the heap as a block in use or in the cache, to a caller, or
      to nobody any more because a queue stood in the way of its release. */
  ghost predicate Owned(allocs: map<nat, nat>, blocks: set<nat>, cache: seq<nat>, direct: map<nat, nat>,
                        refused: set<nat>, but: nat) {
    forall k | k in allocs && k != but :: k in blocks || k in cache || k in direct || k in refused
  }

  /** Heap, map and totals agree. */
  ghost predicate Books(allocs: map<nat, nat>, blocks: Blocks, list: FreeList, cache: seq<nat>, inUse: int, cached: int,
                        live: map<nat, nat>, direct: map<nat, nat>) {
    && HeapOk(blocks, list, live)
    && TableOk(allocs, blocks.Keys, cache, direct)
    && inUse == BLOCK * |blocks| && cached == BLOCK * |cache|
  }

  /** The size the sub-allocator is asked for. */
  function RealSize(bytes: nat): nat {
    if bytes > HUGE_PAGE then AlignUp(bytes, HUGE_PAGE) else AlignUp(bytes, PAGE)
  }

  function FragmentAlign(bytes: nat): (align: nat)
    ensures align > 0
  {
    if bytes >= HUGE_PAGE then HUGE_PAGE else PAGE
  }

  /** A best fit for the bytes has no room for them at an aligned address. */
  predicate FitTooTight(list: FreeList, bytes: nat, align: nat)
    requires align > 0
  {
    exists e | e in list :: IsBestFit(list, bytes, e) && e.1 % align != 0 && e.0 < bytes + align - e.1 % align
  }

  /** addr is the first aligned address of a best fit, for the bytes or, where that is too tight, for a large
      request with room to align. */
  predicate FragmentFitted(list: FreeList, bytes: nat, align: nat, addr: nat)
    requires align > 0
  {
    addr % align == 0 && exists e | e in list ::
      && e.1 <= addr < e.1 + align && addr + bytes <= e.1 + e.0
      && (IsBestFit(list, bytes, e)
          || (bytes >= HUGE_PAGE && FitTooTight(list, bytes, align) && IsBestFit(list, bytes + align, e)))
  }

  /** No fragment has the bytes, or the best fit is too tight and the request small or no fragment roomier. */
  predicate NoFragmentFits(list: FreeList, bytes: nat, align: nat)
    requires align > 0
  {
    || (forall e | e in list :: e.0 < bytes)
    || (FitTooTight(list, bytes, align) && (bytes < HUGE_PAGE || forall e | e in list :: e.0 < bytes + align))
  }

  /** The blocks among these that no queue keeps in the map. */
  ghost function Gone(blocks: seq<nat>, queued: set<nat>): set<nat> {
    set b | b in blocks && b !in queued
  }

  /** How many of n cached blocks a balance keeps: twice those in use, and one. */
  function Kept(n: nat, inUse: nat): nat {
    if n <= 1 || n <= 2 * inUse then n else if inUse == 0 then 1 else 2 * inUse
  }

  class Allocator {
    var allocs: map<nat, nat>      // the allocation map, address to size
    var blocks: Blocks
    var freeList: FreeList
    var cache: seq<nat>
    var inUseSize: int
    var cacheSize: int
    var queued: set<nat>             // the entries whose object a queue refers to
    ghost var live: map<nat, nat>    // fragments handed out
    ghost var direct: map<nat, nat>  // allocations handed out without the sub-allocator
    ghost var refused: set<nat>      // entries whose release a queue prevented

    ghost predicate Valid()
      reads this
    {
      Books(allocs, blocks, freeList, cache, inUseSize, cacheSize, live, direct)
    }

    /** The allocation-map entry belongs to the sub-allocator. */
    ghost predicate Claimed(a: nat)
      reads this
    {
      a in blocks || a in cache
    }

    ghost predicate OwnedBut(p: nat)
      reads this
    {
      Owned(allocs, blocks.Keys, cache, direct, refused, p)
    }

    constructor ()
      ensures Valid() && OwnedBut(0) && live == map[] && direct == map[] && allocs == map[] && cache == [] && refused == {}
    {
      allocs, blocks, freeList, cache, inUseSize, cacheSize, queued := map[], map[], multiset{}, [], 0, 0, {};
      live, direct, refused := map[], map[], {};
    }

    /** A fresh range, or a refusal. */
    method CreateGpuMemory(size: nat) returns (r: Option<nat>)
      ensures r.Some? ==> r.value > 0 && FreshRange(allocs, r.value, size)
    {
      var p: nat := *;
      if p > 0 && FreshRange(allocs, p, size) { return Some(p); }
      return None;
    }

    /** The internal allocation entry point.  A result that does not come from the sub-allocator is a
        new entry nobody has claimed yet. */
    method AllocMemory(bytes: nat, skipSubAlloc: bool) returns (r: Option<nat>, fromHeap: bool)
      requires Valid() && OwnedBut(0) && bytes > 0
      modifies this
      ensures Valid() && direct == old(direct) && queued == old(queued)
      ensures OwnedBut(if r.Some? && !fromHeap then r.value else 0)
      ensures r.None? ==> !fromHeap && live == old(live)
      ensures fromHeap ==> r.Some? && r.value !in old(live) && live == old(live)[r.value := RealSize(bytes)]
      ensures r.Some? && !fromHeap ==>
                && live == old(live) && r.value in allocs && allocs[r.value] == bytes
                && !Claimed(r.value) && r.value !in direct
      // small requests go to the heap whenever it can serve them without more memory
      ensures fromHeap ==> !skipSubAlloc && RealSize(bytes) < BLOCK
      ensures !skipSubAlloc && RealSize(bytes) < BLOCK && !fromHeap ==>
                old(cache) == [] && NoFragmentFits(old(freeList), RealSize(bytes), FragmentAlign(RealSize(bytes)))
      // a refusal comes only after the cache has been given back
      ensures r.None? && !skipSubAlloc ==> cache == [] && allocs == old(allocs) - Gone(old(cache), queued)
      ensures skipSubAlloc ==>
                && !fromHeap && blocks == old(blocks) && freeList == old(freeList) && cache == old(cache)
                && refused == old(refused)
                && (r.None? ==> allocs == old(allocs))
                && (r.Some? ==> r.value !in old(allocs) && allocs == old(allocs)[r.value := bytes]
                                && FreshRange(old(allocs), r.value, bytes))
      decreases if skipSubAlloc then 0 else 3
    {
      hide HeapOk, TableOk, Owned, RealSize, FragmentAlign, FreshRange, NoFragmentFits, FragmentFitted;
      fromHeap := false;
      var trimSafe := false;
      if !skipSubAlloc {
        var realSize := RealSize(bytes);
        RealSizeCovers(bytes);
        if realSize < BLOCK {
          r := HeapAlloc(realSize);
          if r.Some? { return r, true; }
        }
        trimSafe := true;
      }
      r := CreateGpuMemory(bytes);
      if r.None? && trimSafe {
        Trim();
        r := CreateGpuMemory(bytes);
      }
      if r.Some? {
        AddEntry(allocs, blocks.Keys, cache, direct, r.value, bytes);
        OwnedAdd(allocs, blocks.Keys, cache, direct, refused, r.value, bytes);
        allocs := allocs[r.value := bytes];
      }
    }

    /** The sub-allocator's source of blocks: the same entry point, told to skip the sub-allocator. */
    method BlockAlloc(bytes: nat) returns (r: Option<nat>)
      requires Valid() && OwnedBut(0) && 0 < bytes <= BLOCK
      modifies this
      ensures Valid() && live == old(live) && direct == old(direct) && queued == old(queued) && refused == old(refused)
      ensures blocks == old(blocks) && freeList == old(freeList) && cache == old(cache)
      ensures OwnedBut(if r.Some? then r.value else 0)
      ensures r.None? ==> allocs == old(allocs)
      ensures r.Some? ==> r.value !in old(allocs) && allocs == old(allocs)[r.value := BLOCK] && FreshRange(old(allocs), r.value, BLOCK)
      ensures r.Some? ==> !Claimed(r.value) && r.value !in direct
      decreases 1
    {
      hide HeapOk, TableOk, Owned, FreshRange;
      assert AlignUp(bytes, BLOCK) == BLOCK;
      var fromHeap;
      r, fromHeap := AllocMemory(BLOCK, true);
    }

    /** Best fit among the free fragments, else a cached block, else a new block. */
    method HeapAlloc(bytes: nat) returns (r: Option<nat>)
      requires Valid() && OwnedBut(0) && 0 < bytes < BLOCK
      modifies this
      ensures Valid() && OwnedBut(0) && direct == old(direct) && queued == old(queued)
      ensures r.None? ==> live == old(live) && cache == old(cache) && allocs == old(allocs)
      ensures r.Some? ==> r.value !in old(live) && live == old(live)[r.value := bytes]
      ensures r.None? ==> NoFragmentFits(old(freeList), bytes, FragmentAlign(bytes)) && old(cache) == []
      ensures r.Some? && blocks.Keys == old(blocks).Keys ==>
                && FragmentFitted(old(freeList), bytes, FragmentAlign(bytes), r.value)
                && cache == old(cache) && allocs == old(allocs)
      ensures r.Some? && blocks.Keys != old(blocks).Keys ==>
                && NoFragmentFits(old(freeList), bytes, FragmentAlign(bytes))
                && blocks.Keys == old(blocks).Keys + {r.value}
                && if |old(cache)| > 0
                   then old(cache) == cache + [r.value] && allocs == old(allocs)
                   else cache == [] && r.value !in old(allocs) && allocs == old(allocs)[r.value := BLOCK]
      decreases 2
    {
      hide Books, HeapOk, TableOk, Owned, FragmentAlign, NoFragmentFits, FragmentFitted;
      r := FromFragments(bytes);
      if r.None? { r := FromBlock(bytes); }
    }

    /** The front of a whole block: the one cached last, or a new one. */
    method FromBlock(bytes: nat) returns (r: Option<nat>)
      requires Valid() && OwnedBut(0) && 0 < bytes < BLOCK
      modifies this
      ensures Valid() && OwnedBut(0) && direct == old(direct) && queued == old(queued)
      ensures r.None? ==> live == old(live) && old(cache) == [] == cache && allocs == old(allocs)
      ensures r.Some? ==>
                && r.value !in old(live) && live == old(live)[r.value := bytes]
                && r.value !in old(blocks) && blocks.Keys == old(blocks).Keys + {r.value}
                && if |old(cache)| > 0
                   then old(cache) == cache + [r.value] && allocs == old(allocs)
                   else cache == [] && r.value !in old(allocs) && allocs == old(allocs)[r.value := BLOCK]
      decreases 2, 0
    {
      hide HeapOk, TableOk, Books, Owned, FreshRange;
      var base;
      if |cache| > 0 {
        base := TakeCached();
      } else {
        var block := BlockAlloc(bytes);
        if block.None? { return None; }
        base := block.value;
      }
      EnterBlock(base, bytes);
      r := Some(base);
    }

    /** The block cached last leaves the cache, for the caller to enter. */
    method TakeCached() returns (b: nat)
      requires Valid() && OwnedBut(0) && |cache| > 0
      modifies this`cache, this`cacheSize
      ensures Valid() && OwnedBut(b)
      ensures old(cache) == cache + [b]
      ensures b in allocs && allocs[b] == BLOCK && !Claimed(b) && b !in direct
    {
      hide HeapOk, TableOk, Owned;
      b := cache[|cache| - 1];
      OwnedWithout(allocs, blocks.Keys, cache, direct, refused, cache[..|cache| - 1], b);
      PopCache(allocs, blocks.Keys, cache, direct);
      cache := cache[..|cache| - 1];
      cacheSize := cacheSize - BLOCK;
    }

    /** A whole block nobody claims becomes a block of the heap, with its first fragment cut off. */
    method EnterBlock(base: nat, bytes: nat)
      requires Valid() && OwnedBut(base) && 0 < bytes < BLOCK
      requires base in allocs && allocs[base] == BLOCK && !Claimed(base) && base !in direct
      modifies this`blocks, this`freeList, this`live, this`inUseSize
      ensures Valid() && OwnedBut(0)
      ensures base !in old(live) && live == old(live)[base := bytes]
      ensures blocks.Keys == old(blocks).Keys + {base} && base !in old(blocks)
    {
      hide HeapOk, TableOk, FirstCut;
      BlockApart(allocs, blocks, cache, direct, base, freeList, live);
      NewBlock(blocks, freeList, live, base, bytes);
      ClaimBlock(allocs, blocks, cache, direct, base, FirstCut(base, bytes));
      inUseSize := inUseSize + BLOCK;
      freeList := freeList + multiset{(BLOCK - bytes, base + bytes)};
      blocks := blocks[base := FirstCut(base, bytes)];
      live := live[base := bytes];
    }

    /** Serve the request from a free fragment; large requests are aligned inside one. */
    method FromFragments(bytes: nat) returns (r: Option<nat>)
      requires Valid() && 0 < bytes < BLOCK
      modifies this`blocks, this`freeList, this`live
      ensures Valid() && blocks.Keys == old(blocks).Keys
      ensures r.None? ==> NoFragmentFits(old(freeList), bytes, FragmentAlign(bytes))
      ensures r.None? ==> live == old(live) && blocks == old(blocks) && freeList == old(freeList)
      ensures r.Some? ==> r.value !in old(live) && live == old(live)[r.value := bytes]
      ensures r.Some? ==> FragmentFitted(old(freeList), bytes, FragmentAlign(bytes), r.value)
      ensures r.Some? ==> r.value % (if bytes >= 0x20_0000 then 0x20_0000 else 0x1000) == 0
    {
      hide HeapOk, TableOk, FragmentFitted, NoFragmentFits, FitTooTight, FragmentAlign, IsBestFit;
      var alignBytes := bytes;
      var retry := if bytes >= HUGE_PAGE then 1 else 0;
      var align := FragmentAlign(bytes);
      var i := 0;
      while i <= retry
        invariant 0 <= i <= retry + 1 && i < 2
        invariant alignBytes == if i == 0 then bytes else bytes + align
        invariant i > 0 ==> FitTooTight(freeList, bytes, align)
        invariant Valid() && live == old(live) && blocks == old(blocks) && freeList == old(freeList)
      {
        if !exists e :: e in freeList && alignBytes <= e.0 {
          NothingRoomy(freeList, bytes, align, i);
          return None;
        }
        ghost var some :| some in freeList && alignBytes <= some.0;
        BestFitExists(freeList, alignBytes, some);
        var e: (nat, nat) :| e in freeList && IsBestFit(freeList, alignBytes, e);
        var size, addr := e.0, e.1;
        var b := FindBlock(addr, size);
        var delta := addr % align;
        if i == 0 && delta != 0 && size < bytes + align - delta {
          TooTight(freeList, bytes, align, e);
          alignBytes := alignBytes + align;
          i := i + 1;
        } else {
          var base := if delta == 0 then addr else addr + align - delta;
          FittedAt(freeList, bytes, align, e, i, base);
          AlignIs(bytes);
          CarveFrom(b, addr, base, bytes);
          return Some(base);
        }
      }
      SmallIsRefused(freeList, bytes, align);
      r := None;
    }

    /** The block a listed fragment belongs to. */
    method FindBlock(addr: nat, size: nat) returns (b: nat)
      requires HeapOk(blocks, freeList, live) && (size, addr) in freeList
      ensures b in blocks && addr in blocks[b] && blocks[b][addr] == Frag(size, true)
    {
      hide *;
      ListedHome(blocks, freeList, live, addr, size);
      var it := StepBack(blocks.Keys, addr);
      b := it.value;
    }

    method CarveFrom(b: nat, k: nat, addr: nat, bytes: nat)
      requires Valid() && b in blocks && CanCarve(blocks[b], k, addr, bytes)
      modifies this`blocks, this`freeList, this`live
      ensures Valid() && blocks.Keys == old(blocks).Keys
      ensures addr !in old(live) && live == old(live)[addr := bytes]
    {
      hide HeapOk, TableOk;
      CarveBlock(blocks, freeList, live, b, k, addr, bytes);
      var m, size := blocks[b], blocks[b][k].size;
      freeList := CarveList(m, freeList, k, addr, bytes);
      blocks := blocks[b := Carve(m, k, addr, bytes)];
      live := live[addr := bytes];
      assert blocks.Keys == old(blocks).Keys && |blocks| == |blocks.Keys| == |old(blocks).Keys|;
    }

    /** Release an address, any address.  The books stay right exactly unless the base of a block goes that is
        no live fragment: a fragment freed twice, or a block freed from outside. */
    method FreeMemory(addr: nat, skipSubAlloc: bool) returns (ok: bool)
      requires Valid() && OwnedBut(if skipSubAlloc then addr else 0)
      modifies this
      ensures OwnedBut(0) && queued == old(queued)
      ensures Valid() <==> !(ok && old(Claimed(addr)) && (skipSubAlloc || addr !in old(live)))
      ensures ok <==> (!skipSubAlloc && addr in old(live)) || (addr in old(allocs) && addr !in queued)
      ensures !skipSubAlloc && addr in old(live) ==> live == old(live) - {addr} && direct == old(direct)
      ensures skipSubAlloc || addr !in old(live) ==>
                && blocks == old(blocks) && freeList == old(freeList) && cache == old(cache) && live == old(live)
                && direct == (if ok then old(direct) - {addr} else old(direct))
                && allocs == if ok then old(allocs) - {addr} else old(allocs)
      decreases if skipSubAlloc then 0 else 4
    {
      hide HeapOk, TableOk, Owned;
      ZeroIsNobody(allocs, blocks, cache, direct, freeList, live);
      OwnedButNobody(allocs, blocks.Keys, cache, direct, refused, addr);
      if addr == 0 { return false; }
      if !skipSubAlloc {
        ok := HeapFree(addr);
        if ok { return; }
      }
      ok := ReleaseEntry(addr);
    }

    /** Erase an entry of the allocation map, unless a queue still refers to its object. */
    method ReleaseEntry(addr: nat) returns (ok: bool)
      requires Valid() && OwnedBut(addr)
      modifies this`allocs, this`direct, this`refused
      ensures OwnedBut(0)
      ensures Valid() <==> !(ok && Claimed(addr))
      ensures ok <==> addr in old(allocs) && addr !in queued
      ensures direct == if ok then old(direct) - {addr} else old(direct)
      ensures allocs == if ok then old(allocs) - {addr} else old(allocs)
      ensures refused == if addr in old(allocs) && addr in queued then old(refused) + {addr} else old(refused)
    {
      hide HeapOk, TableOk;
      if addr !in allocs { return false; }
      if addr in queued {
        refused := refused + {addr};
        return false;
      }
      DropEntryIff(allocs, blocks.Keys, cache, direct, addr);
      allocs := allocs - {addr};
      direct := direct - {addr};
      ok := true;
    }

    /** Take a fragment back; false if the address is not one.  A block without fragments goes to the cache,
        which is then balanced. */
    method HeapFree(addr: nat) returns (ok: bool)
      requires Valid() && OwnedBut(0) && addr > 0
      modifies this
      ensures Valid() && OwnedBut(0) && direct == old(direct) && queued == old(queued)
      ensures ok <==> addr in old(live)
      ensures ok ==> live == old(live) - {addr}
      ensures !ok ==> live == old(live) && blocks == old(blocks) && freeList == old(freeList) && cache == old(cache)
                      && allocs == old(allocs) && refused == old(refused)
      ensures ok && blocks.Keys == old(blocks).Keys ==> cache == old(cache) && allocs == old(allocs)
      ensures ok && blocks.Keys != old(blocks).Keys ==>
                exists b | b in old(blocks) ::
                  && blocks.Keys == old(blocks).Keys - {b}
                  && Balanced(old(cache) + [b], old(allocs), cache, allocs, |blocks|, queued)
      decreases 3
    {
      hide HeapOk, TableOk, Owned, Balanced, Release, ReleaseList, ReleaseRest, MergeBase, StepBack, IsGreatest;
      FragmentOf(blocks, freeList, live, addr);
      var it := StepBack(blocks.Keys, addr);
      if it.None? { return false; }
      var b := it.value;
      var m := blocks[b];
      if addr !in m || m[addr].free { return false; }
      ReleaseBlock(blocks, freeList, live, b, addr);
      if |Release(m, addr)| == 1 {
        RetireBlock(b, addr);
        Balance();
      } else {
        KeepBlock(b, addr);
      }
      ok := true;
    }

    /** The fragment is back and others of its block are still out. */
    method KeepBlock(b: nat, addr: nat)
      requires Valid() && OwnedBut(0) && b in blocks && addr in blocks[b]
      requires HeapOk(blocks[b := Release(blocks[b], addr)], ReleaseList(blocks[b], freeList, addr), live - {addr})
      modifies this`blocks, this`freeList, this`live
      ensures Valid() && OwnedBut(0) && live == old(live) - {addr} && blocks.Keys == old(blocks).Keys
    {
      hide HeapOk, TableOk, Release, ReleaseList;
      var m := blocks[b];
      freeList := ReleaseList(m, freeList, addr);
      blocks := blocks[b := Release(m, addr)];
      live := live - {addr};
      assert blocks.Keys == old(blocks).Keys && |blocks| == |blocks.Keys| == |old(blocks).Keys|;
    }

    /** The last fragment of a block is back: the whole block moves to the cache. */
    method RetireBlock(b: nat, addr: nat)
      requires Valid() && OwnedBut(0) && b in blocks && addr in blocks[b]
      requires HeapOk(blocks - {b}, ReleaseRest(blocks[b], freeList, addr), live - {addr})
      modifies this`blocks, this`freeList, this`live, this`cache, this`cacheSize, this`inUseSize
      ensures Valid() && OwnedBut(0) && live == old(live) - {addr}
      ensures blocks.Keys == old(blocks).Keys - {b} && cache == old(cache) + [b]
    {
      hide Books, HeapOk, TableOk, Owned, ReleaseRest;
      ghost var list := ReleaseRest(blocks[b], freeList, addr);
      OwnedRetire(allocs, blocks, cache, direct, refused, b);
      BooksRetire(allocs, blocks, freeList, cache, inUseSize, cacheSize, live, direct, b, list, live - {addr});
      freeList := ReleaseRest(blocks[b], freeList, addr);
      blocks := blocks - {b};
      cache := cache + [b];
      cacheSize := cacheSize + BLOCK;
      inUseSize := inUseSize - BLOCK;
      live := live - {addr};
    }

    /** Give a block back: it leaves the map unless a queue refers to it. */
    method BlockFree(b: nat)
      requires Valid() && OwnedBut(b) && !Claimed(b) && b !in direct
      modifies this
      ensures Valid() && OwnedBut(0) && live == old(live) && direct == old(direct) && queued == old(queued)
      ensures blocks == old(blocks) && freeList == old(freeList) && cache == old(cache)
      ensures allocs == if b in queued then old(allocs) else old(allocs) - {b}
      decreases 1
    {
      hide HeapOk, TableOk, Owned;
      NoSuchKey(direct, b);
      NoSuchKey(allocs, b);
      var ok := FreeMemory(b, true);
    }

    /** The oldest cached block is given back. */
    method DropOldest()
      requires Valid() && OwnedBut(0) && |cache| > 0
      modifies this
      ensures Valid() && OwnedBut(0) && live == old(live) && direct == old(direct) && queued == old(queued)
      ensures blocks == old(blocks) && freeList == old(freeList) && cache == old(cache)[1..]
      ensures allocs == if old(cache)[0] in queued then old(allocs) else old(allocs) - {old(cache)[0]}
      decreases 2, 0
    {
      hide HeapOk, TableOk, Owned;
      var b := cache[0];
      OwnedWithout(allocs, blocks.Keys, cache, direct, refused, cache[1..], b);
      ShiftCache(allocs, blocks.Keys, cache, direct);
      cache := cache[1..];
      cacheSize := cacheSize - BLOCK;
      BlockFree(b);
    }

    /** Shrink the cache while it outweighs what is in use: the oldest blocks go, and leave the map. */
    method Balance()
      requires Valid() && OwnedBut(0)
      modifies this
      ensures Valid() && OwnedBut(0) && live == old(live) && direct == old(direct) && queued == old(queued)
      ensures blocks == old(blocks)
      ensures Balanced(old(cache), old(allocs), cache, allocs, |blocks|, queued)
      decreases 2, 1
    {
      hide HeapOk, TableOk, Owned, Dropped, Balanced;
      ghost var all, was, d := cache, allocs, 0;
      NothingDropped(all, was, queued);
      while |cache| > 1 && cacheSize > inUseSize * 2
        invariant Valid() && OwnedBut(0) && live == old(live) && direct == old(direct) && blocks == old(blocks)
        invariant queued == old(queued) && |cache| + d == |all| && Dropped(all, was, d, cache, allocs, queued)
        invariant d > 0 ==> |cache| + 1 > 1 && |cache| + 1 > 2 * |blocks|
        decreases |cache|
      {
        DroppedNext(all, was, d, cache, allocs, queued);
        DropOldest();
        d := d + 1;
      }
      DroppedIsBalanced(all, was, d, cache, allocs, queued, |blocks|);
    }

    /** Release every cached block: each leaves the map unless a queue refers to it. */
    method Trim()
      requires Valid() && OwnedBut(0)
      modifies this
      ensures Valid() && OwnedBut(0) && live == old(live) && direct == old(direct) && queued == old(queued)
      ensures blocks == old(blocks) && freeList == old(freeList) && cache == []
      ensures allocs == old(allocs) - Gone(old(cache), queued)
    {
      hide HeapOk, TableOk, Owned, Dropped, Gone;
      ghost var all, was, d := cache, allocs, 0;
      NothingDropped(all, was, queued);
      while |cache| > 0
        invariant Valid() && OwnedBut(0) && live == old(live) && direct == old(direct)
        invariant blocks == old(blocks) && freeList == old(freeList)
        invariant queued == old(queued) && |cache| + d == |all| && Dropped(all, was, d, cache, allocs, queued)
        decreases |cache|
      {
        DroppedNext(all, was, d, cache, allocs, queued);
        DropOldest();
        d := d + 1;
      }
      AllDropped(all, was, cache, allocs, queued);
    }

    method ServeAlloc(bytes: nat, skipSubAlloc: bool, held: set<nat>) returns (held': set<nat>)
      requires Valid() && OwnedBut(0) && bytes > 0 && held == live.Keys + direct.Keys
      modifies this
      ensures Valid() && OwnedBut(0) && held' == live.Keys + direct.Keys
    {
      hide HeapOk, TableOk, Owned, FreshRange, RealSize, NoFragmentFits;
      held' := held;
      var r, fromHeap := AllocMemory(bytes, skipSubAlloc);
      if r.Some? {
        if !fromHeap {
          HandOut(r.value);
        }
        held' := held + {r.value};
      }
    }

    /** A new entry nobody has claimed becomes the caller's. */
    ghost method HandOut(p: nat)
      requires Valid() && OwnedBut(p) && p in allocs && !Claimed(p)
      modifies this`direct
      ensures Valid() && OwnedBut(0) && direct == old(direct)[p := allocs[p]]
    {
      hide HeapOk, TableOk;
      ClaimDirect(allocs, blocks.Keys, cache, direct, p);
      direct := direct[p := allocs[p]];
    }

    method ServeFree(addr: nat, held: set<nat>) returns (held': set<nat>)
      requires Valid() && OwnedBut(0) && held == live.Keys + direct.Keys && addr in held
      modifies this
      ensures Valid() && OwnedBut(0) && held' == live.Keys + direct.Keys
    {
      hide HeapOk, TableOk, Owned;
      HeldNotClaimed(allocs, blocks, cache, direct, live, freeList, addr);
      HeldMinus(live, direct, addr);
      var ok := FreeMemory(addr, false);
      held' := if ok then held - {addr} else held;
    }

    /** One request.  `held` is what the caller was given and has not returned; it frees nothing else. */
    method ServeOne(request: Request, held: set<nat>) returns (held': set<nat>)
      requires Valid() && OwnedBut(0) && held == live.Keys + direct.Keys
      modifies this
      ensures Valid() && OwnedBut(0) && held' == live.Keys + direct.Keys
    {
      hide HeapOk, TableOk, Owned, Gone;
      held' := held;
      match request {
        case AllocRequest(bytes, skipSubAlloc) =>
          if bytes > 0 { held' := ServeAlloc(bytes, skipSubAlloc, held); }
        case FreeRequest(addr) =>
          if addr in held { held' := ServeFree(addr, held); }
        case TrimRequest => Trim();
        case QueueRequest(addr, on) => queued := if on then queued + {addr} else queued - {addr};
      }
    }

    /** Any run of requests in which each address is freed at most once.  At its end every entry of the map is a
        block in use, a cached block, a caller's, or one whose release a queue prevented. */
    method Serve(requests: seq<Request>) returns (held: set<nat>)
      requires Valid() && OwnedBut(0) && live == map[] && direct == map[]
      modifies this
      ensures Valid() && held == live.Keys + direct.Keys
      ensures forall k | k in allocs :: k in blocks || k in cache || k in held || k in refused
      ensures forall a | a in live :: exists b :: b in allocs && allocs[b] == 0x800_0000 && b <= a && a + live[a] <= b + 0x800_0000
      ensures forall a, d | a in live && d in direct :: a + live[a] <= d || d + direct[d] <= a
      ensures forall a, c | a in live && c in live && a < c :: a + live[a] <= c
    {
      hide HeapOk, TableOk, Owned;
      held := {};
      for i := 0 to |requests|
        invariant Valid() && OwnedBut(0) && held == live.Keys + direct.Keys
      {
        held := ServeOne(requests[i], held);
      }
      EveryEntryOwned(allocs, blocks.Keys, cache, direct, refused);
      FragmentsInsideBlocks(allocs, blocks, cache, direct, freeList, live);
    }
  }

  /** What a balance does: it keeps the newest cached blocks, as many as there is use for, and the others leave
      the map unless a queue refers to them. */
  ghost predicate Balanced(cache: seq<nat>, allocs: map<nat, nat>, cache': seq<nat>, allocs': map<nat, nat>,
                           inUse: nat, queued: set<nat>) {
    && |cache'| == Kept(|cache|, inUse) && cache' == cache[|cache| - |cache'|..]
    && allocs' == allocs - Gone(cache[..|cache| - |cache'|], queued)
  }

  lemma NoSuchKey(m: map<nat, nat>, k: nat)
    ensures k !in m ==> m - {k} == m
  {
  }

  /** The d oldest of all cached blocks are out of the cache, and out of the map but for queues. */
  ghost predicate Dropped(all: seq<nat>, was: map<nat, nat>, d: nat, cache: seq<nat>, allocs: map<nat, nat>, queued: set<nat>) {
    d <= |all| && cache == all[d..] && allocs == was - Gone(all[..d], queued)
  }

  lemma NothingDropped(all: seq<nat>, was: map<nat, nat>, queued: set<nat>)
    ensures Dropped(all, was, 0, all, was, queued)
  {
    assert Gone(all[..0], queued) == {};
  }

  lemma DroppedNext(all: seq<nat>, was: map<nat, nat>, d: nat, cache: seq<nat>, allocs: map<nat, nat>, queued: set<nat>)
    requires Dropped(all, was, d, cache, allocs, queued) && |cache| > 0
    ensures Dropped(all, was, d + 1, cache[1..], if cache[0] in queued then allocs else allocs - {cache[0]}, queued)
  {
    assert all[..d + 1] == all[..d] + [all[d]];
    assert Gone(all[..d + 1], queued) == Gone(all[..d], queued) + if all[d] in queued then {} else {all[d]};
  }

  lemma AllDropped(all: seq<nat>, was: map<nat, nat>, cache: seq<nat>, allocs: map<nat, nat>, queued: set<nat>)
    requires Dropped(all, was, |all|, cache, allocs, queued)
    ensures cache == [] && allocs == was - Gone(all, queued)
  {
    assert all[..|all|] == all;
  }

  lemma DroppedIsBalanced(all: seq<nat>, was: map<nat, nat>, d: nat, cache: seq<nat>, allocs: map<nat, nat>,
                          queued: set<nat>, inUse: nat)
    requires Dropped(all, was, d, cache, allocs, queued)
    requires |cache| <= 1 || |cache| <= 2 * inUse
    requires d > 0 ==> |cache| + 1 > 1 && |cache| + 1 > 2 * inUse
    ensures Balanced(all, was, cache, allocs, inUse, queued)
  {
  }

  lemma OwnedAdd(allocs: map<nat, nat>, blocks: set<nat>, cache: seq<nat>, direct: map<nat, nat>,
                 refused: set<nat>, p: nat, size: nat)
    requires TableOk(allocs, blocks, cache, direct) && Owned(allocs, blocks, cache, direct, refused, 0)
    ensures Owned(allocs[p := size], blocks, cache, direct, refused, p)
  {
  }

  lemma OwnedWithout(allocs: map<nat, nat>, blocks: set<nat>, cache: seq<nat>, direct: map<nat, nat>,
                     refused: set<nat>, rest: seq<nat>, b: nat)
    requires TableOk(allocs, blocks, cache, direct) && Owned(allocs, blocks, cache, direct, refused, 0)
    requires forall c | c in cache && c != b :: c in rest
    ensures Owned(allocs, blocks, rest, direct, refused, b)
  {
  }

  lemma OwnedButNobody(allocs: map<nat, nat>, blocks: set<nat>, cache: seq<nat>, direct: map<nat, nat>,
                       refused: set<nat>, p: nat)
    requires TableOk(allocs, blocks, cache, direct)
    ensures 0 !in allocs
    ensures Owned(allocs, blocks, cache, direct, refused, 0) ==> Owned(allocs, blocks, cache, direct, refused, p)
  {
  }

  lemma EveryEntryOwned(allocs: map<nat, nat>, blocks: set<nat>, cache: seq<nat>, direct: map<nat, nat>, refused: set<nat>)
    requires TableOk(allocs, blocks, cache, direct) && Owned(allocs, blocks, cache, direct, refused, 0)
    ensures forall k | k in allocs :: k in blocks || k in cache || k in direct || k in refused
  {
  }

  lemma NothingRoomy(list: FreeList, bytes: nat, align: nat, i: nat)
    requires align > 0 && (i > 0 ==> FitTooTight(list, bytes, align))
    requires !exists e :: e in list && (if i == 0 then bytes else bytes + align) <= e.0
    ensures NoFragmentFits(list, bytes, align)
  {
    hide FitTooTight;
    assert forall e | e in list :: e.0 < if i == 0 then bytes else bytes + align;
  }

  lemma AlignIs(bytes: nat)
    ensures FragmentAlign(bytes) == if bytes >= 0x20_0000 then 0x20_0000 else 0x1000
  {
  }

  lemma SmallIsRefused(list: FreeList, bytes: nat, align: nat)
    requires align > 0 && FitTooTight(list, bytes, align) && bytes < HUGE_PAGE
    ensures NoFragmentFits(list, bytes, align)
  {
  }

  lemma TooTight(list: FreeList, bytes: nat, align: nat, e: (nat, nat))
    requires align > 0 && IsBestFit(list, bytes, e) && e.1 % align != 0 && e.0 < bytes + align - e.1 % align
    ensures FitTooTight(list, bytes, align)
  {
    assert e in list;
  }

  lemma FittedAt(list: FreeList, bytes: nat, align: nat, e: (nat, nat), i: nat, addr: nat)
    requires align > 0 && IsBestFit(list, if i == 0 then bytes else bytes + align, e)
    requires addr == if e.1 % align == 0 then e.1 else e.1 + align - e.1 % align
    requires i == 0 ==> e.1 % align == 0 || e.0 >= bytes + align - e.1 % align
    requires i > 0 ==> bytes >= HUGE_PAGE && FitTooTight(list, bytes, align)
    ensures e in list && e.1 <= addr && addr + bytes <= e.1 + e.0 && FragmentFitted(list, bytes, align, addr)
    ensures addr % align == 0
  {
    hide FitTooTight;
    if e.1 % align != 0 { AlignedAbove(e.1, align); }
    assert e in list;
  }

  lemma OwnedRetire(allocs: map<nat, nat>, blocks: Blocks, cache: seq<nat>, direct: map<nat, nat>,
                    refused: set<nat>, b: nat)
    requires Owned(allocs, blocks.Keys, cache, direct, refused, 0)
    ensures Owned(allocs, (blocks - {b}).Keys, cache + [b], direct, refused, 0)
    ensures (blocks - {b}).Keys == blocks.Keys - {b}
  {
  }

  lemma BooksRetire(allocs: map<nat, nat>, blocks: Blocks, list: FreeList, cache: seq<nat>, inUse: int, cached: int,
                    live: map<nat, nat>, direct: map<nat, nat>, b: nat, list': FreeList, live': map<nat, nat>)
    requires Books(allocs, blocks, list, cache, inUse, cached, live, direct) && b in blocks
    requires HeapOk(blocks - {b}, list', live')
    ensures Books(allocs, blocks - {b}, list', cache + [b], inUse - BLOCK, cached + BLOCK, live', direct)
  {
    hide HeapOk, TableOk;
    UnclaimBlock(allocs, blocks, cache, direct, b);
  }

  /** The values: page steps up to 2 MB, 2 MB steps beyond, and never less than asked for. */
  lemma RealSizeCovers(bytes: nat)
    requires bytes > 0
    ensures RealSize(bytes) >= bytes
    ensures bytes <= 0x20_0000 ==> RealSize(bytes) % 0x1000 == 0 && RealSize(bytes) < bytes + 0x1000
    ensures bytes > 0x20_0000 ==> RealSize(bytes) % 0x20_0000 == 0 && RealSize(bytes) < bytes + 0x20_0000
  {
    AlignBounds(bytes, PAGE);
    AlignBounds(bytes, HUGE_PAGE);
  }

  lemma AddEntry(allocs: map<nat, nat>, blocks: set<nat>, cache: seq<nat>, direct: map<nat, nat>, p: nat, size: nat)
    requires TableOk(allocs, blocks, cache, direct) && p > 0 && size > 0 && FreshRange(allocs, p, size)
    ensures p !in allocs && p !in blocks && p !in cache && p !in direct
    ensures TableOk(allocs[p := size], blocks, cache, direct)
  {
  }

  /** An entry may go exactly if it is no block of the heap. */
  lemma DropEntryIff(allocs: map<nat, nat>, blocks: set<nat>, cache: seq<nat>, direct: map<nat, nat>, p: nat)
    requires TableOk(allocs, blocks, cache, direct)
    ensures TableOk(allocs - {p}, blocks, cache, direct - {p}) <==> p !in blocks && p !in cache
  {
  }

  lemma PopCache(allocs: map<nat, nat>, blocks: set<nat>, cache: seq<nat>, direct: map<nat, nat>)
    requires TableOk(allocs, blocks, cache, direct) && |cache| > 0
    ensures var b, rest := cache[|cache| - 1], cache[..|cache| - 1];
            && TableOk(allocs, blocks, rest, direct)
            && b in allocs && allocs[b] == BLOCK && b !in blocks && b !in rest && b !in direct
  {
  }

  lemma ShiftCache(allocs: map<nat, nat>, blocks: set<nat>, cache: seq<nat>, direct: map<nat, nat>)
    requires TableOk(allocs, blocks, cache, direct) && |cache| > 0
    ensures var b, rest := cache[0], cache[1..];
            && TableOk(allocs, blocks, rest, direct)
            && b in cache && b !in blocks && b !in rest && b !in direct
            && forall c | c in rest :: c in cache
  {
  }

  /** An unclaimed entry of block size lies apart from every block. */
  lemma BlockApart(allocs: map<nat, nat>, blocks: Blocks, cache: seq<nat>, direct: map<nat, nat>, b: nat,
                   list: FreeList, live: map<nat, nat>)
    requires TableOk(allocs, blocks.Keys, cache, direct) && HeapOk(blocks, list, live)
    requires b in allocs && allocs[b] == BLOCK && b !in blocks
    ensures b > 0 && forall c | c in blocks :: c + BLOCK <= b || b + BLOCK <= c
  {
  }

  lemma ClaimBlock(allocs: map<nat, nat>, blocks: Blocks, cache: seq<nat>, direct: map<nat, nat>, b: nat, m: FragMap)
    requires TableOk(allocs, blocks.Keys, cache, direct)
    requires b in allocs && allocs[b] == BLOCK && b !in blocks && b !in cache && b !in direct
    ensures TableOk(allocs, blocks[b := m].Keys, cache, direct) && |blocks[b := m]| == |blocks| + 1
  {
  }

  lemma UnclaimBlock(allocs: map<nat, nat>, blocks: Blocks, cache: seq<nat>, direct: map<nat, nat>, b: nat)
    requires TableOk(allocs, blocks.Keys, cache, direct) && b in blocks
    ensures TableOk(allocs, (blocks - {b}).Keys, cache + [b], direct) && |blocks - {b}| == |blocks| - 1
  {
  }

  lemma ClaimDirect(allocs: map<nat, nat>, blocks: set<nat>, cache: seq<nat>, direct: map<nat, nat>, p: nat)
    requires TableOk(allocs, blocks, cache, direct) && p in allocs && p !in blocks && p !in cache
    ensures TableOk(allocs, blocks, cache, direct[p := allocs[p]])
  {
  }

  lemma ListedHome(blocks: Blocks, list: FreeList, live: map<nat, nat>, addr: nat, size: nat)
    requires HeapOk(blocks, list, live) && (size, addr) in list
    ensures var it := StepBack(blocks.Keys, addr);
            it.Some? && it.value in blocks && addr in blocks[it.value] && blocks[it.value][addr] == Frag(size, true)
  {
    hide BlockOk;
    var home: nat :| home in blocks && Within(home, (size, addr).1);
    BlockOfAddress(blocks, home, addr);
    assert Listed(blocks[home], list, home, home + BLOCK);
    assert list[(size, addr)] > 0;
  }

  /** The sub-allocator recognises exactly its own fragments. */
  lemma FragmentOf(blocks: Blocks, list: FreeList, live: map<nat, nat>, addr: nat)
    requires HeapOk(blocks, list, live)
    ensures var it := StepBack(blocks.Keys, addr);
            && (it.Some? ==> it.value in blocks)
            && (addr in live <==> it.Some? && addr in blocks[it.value] && !blocks[it.value][addr].free)
  {
    var it := StepBack(blocks.Keys, addr);
    if addr in live {
      var b :| b in blocks && Within(b, addr);
      BlockOfAddress(blocks, b, addr);
      assert TracksIn(blocks[b], live, b);
    }
    if it.Some? && addr in blocks[it.value] && !blocks[it.value][addr].free {
      var b: nat := it.value;
      assert BlockOk(blocks[b], b);
      assert FragOk(blocks[b], b, b + BLOCK, addr);
      assert TracksIn(blocks[b], live, b) && Within(b, addr);
    }
  }

  lemma ZeroIsNobody(allocs: map<nat, nat>, blocks: Blocks, cache: seq<nat>, direct: map<nat, nat>, list: FreeList, live: map<nat, nat>)
    requires TableOk(allocs, blocks.Keys, cache, direct) && HeapOk(blocks, list, live)
    ensures 0 !in live && 0 !in direct
  {
  }

  /** What a caller holds is a live fragment, or not an entry of the sub-allocator. */
  lemma HeldNotClaimed(allocs: map<nat, nat>, blocks: Blocks, cache: seq<nat>, direct: map<nat, nat>,
                       live: map<nat, nat>, list: FreeList, a: nat)
    requires TableOk(allocs, blocks.Keys, cache, direct) && HeapOk(blocks, list, live)
    requires a in live || a in direct
    ensures a in live || (a !in blocks && a !in cache)
    ensures a in live ==> a !in direct
  {
    hide HeapOk, TableOk;
    if a in live && a in direct {
      var b := HomeOf(allocs, blocks, cache, direct, list, live, a);
      EntriesApart(allocs, blocks, cache, direct, b, a);
    } else if a in direct {
      DirectUnclaimed(allocs, blocks.Keys, cache, direct, a);
    }
  }

  lemma DirectUnclaimed(allocs: map<nat, nat>, blocks: set<nat>, cache: seq<nat>, direct: map<nat, nat>, a: nat)
    requires TableOk(allocs, blocks, cache, direct) && a in direct
    ensures a !in blocks && a !in cache
  {
  }

  lemma HeldMinus(live: map<nat, nat>, direct: map<nat, nat>, a: nat)
    requires a in live ==> a !in direct
    ensures a in live ==> (live - {a}).Keys + direct.Keys == live.Keys + direct.Keys - {a}
    ensures a !in live ==> live.Keys + (direct - {a}).Keys == live.Keys + direct.Keys - {a}
  {
  }

  /** Layering: each live fragment lies in a block still in the allocation map, apart from every
      direct allocation; live fragments do not overlap. */
  lemma FragmentsInsideBlocks(allocs: map<nat, nat>, blocks: Blocks, cache: seq<nat>, direct: map<nat, nat>,
                              list: FreeList, live: map<nat, nat>)
    requires TableOk(allocs, blocks.Keys, cache, direct) && HeapOk(blocks, list, live)
    ensures forall a | a in live :: exists b :: b in allocs && allocs[b] == BLOCK && b <= a && a + live[a] <= b + BLOCK
    ensures forall a, d | a in live && d in direct :: a + live[a] <= d || d + direct[d] <= a
    ensures forall a, c | a in live && c in live && a < c :: a + live[a] <= c
  {
    hide HeapOk, TableOk;
    forall a | a in live ensures exists b :: b in allocs && allocs[b] == BLOCK && b <= a && a + live[a] <= b + BLOCK {
      var b := HomeOf(allocs, blocks, cache, direct, list, live, a);
    }
    forall a, d | a in live && d in direct ensures a + live[a] <= d || d + direct[d] <= a {
      var b := HomeOf(allocs, blocks, cache, direct, list, live, a);
      EntriesApart(allocs, blocks, cache, direct, b, d);
    }
    forall a, c | a in live && c in live && a < c ensures a + live[a] <= c {
      var b := HomeOf(allocs, blocks, cache, direct, list, live, a);
      var d := HomeOf(allocs, blocks, cache, direct, list, live, c);
      if b == d {
        SameBlockApart(blocks, list, live, b, a, c);
      } else {
        EntriesApart(allocs, blocks, cache, direct, b, d);
      }
    }
  }

  lemma HomeOf(allocs: map<nat, nat>, blocks: Blocks, cache: seq<nat>, direct: map<nat, nat>,
               list: FreeList, live: map<nat, nat>, a: nat) returns (b: nat)
    requires TableOk(allocs, blocks.Keys, cache, direct) && HeapOk(blocks, list, live) && a in live
    ensures b in blocks && b in allocs && allocs[b] == BLOCK && b <= a < b + BLOCK && a + live[a] <= b + BLOCK
    ensures a in blocks[b] && blocks[b][a].size == live[a]
  {
    b :| b in blocks && Within(b, a);
    FragmentBounds(blocks, list, live, b, a);
  }

  lemma EntriesApart(allocs: map<nat, nat>, blocks: Blocks, cache: seq<nat>, direct: map<nat, nat>, b: nat, d: nat)
    requires TableOk(allocs, blocks.Keys, cache, direct) && b in blocks && (d in direct || (d in blocks && d != b))
    ensures d in allocs && allocs[d] > 0 && (b + BLOCK <= d || d + allocs[d] <= b) && (d in direct ==> allocs[d] == direct[d])
  {
  }

  lemma SameBlockApart(blocks: Blocks, list: FreeList, live: map<nat, nat>, b: nat, a: nat, c: nat)
    requires HeapOk(blocks, list, live) && b in blocks && a in blocks[b] && c in blocks[b] && a < c
    ensures a + blocks[b][a].size <= c
  {
    assert BlockOk(blocks[b], b);
    assert blocks[b][a].size >= 0 && blocks[b][c].size >= 0;
  }

  lemma FragmentBounds(blocks: Blocks, list: FreeList, live: map<nat, nat>, b: nat, a: nat)
    requires HeapOk(blocks, list, live) && b in blocks && Within(b, a) && a in live
    ensures a in blocks[b] && blocks[b][a].size == live[a] && b <= a && a + live[a] <= b + BLOCK
  {
    assert BlockOk(blocks[b], b) && TracksIn(blocks[b], live, b);
    assert FragOk(blocks[b], b, b + BLOCK, a);
  }

  /** Why an address may be freed only once: if a block's own entry were dropped while the block is
      listed, some live fragment would lie in no entry at all. */
  lemma DroppingListedBlockOrphans(allocs: map<nat, nat>, blocks: Blocks, cache: seq<nat>, direct: map<nat, nat>,
                                   list: FreeList, live: map<nat, nat>, b: nat)
    requires TableOk(allocs, blocks.Keys, cache, direct) && HeapOk(blocks, list, live) && b in blocks
    ensures exists a :: a in live && forall k | k in allocs - {b} :: !(k <= a < k + allocs[k])
  {
    hide HeapOk, TableOk;
    var a := SomeFragment(blocks, list, live, b);
    forall k | k in allocs - {b} ensures !(k <= a < k + allocs[k]) {
      OtherEntry(allocs, blocks, cache, direct, b, k);
    }
  }

  lemma SomeFragment(blocks: Blocks, list: FreeList, live: map<nat, nat>, b: nat) returns (a: nat)
    requires HeapOk(blocks, list, live) && b in blocks
    ensures a in live && b <= a < b + BLOCK
  {
    assert BlockOk(blocks[b], b) && TracksIn(blocks[b], live, b);
    a :| a in Live(blocks[b]);
    assert FragOk(blocks[b], b, b + BLOCK, a);
    assert Within(b, a);
  }

  lemma OtherEntry(allocs: map<nat, nat>, blocks: Blocks, cache: seq<nat>, direct: map<nat, nat>, b: nat, k: nat)
    requires TableOk(allocs, blocks.Keys, cache, direct) && b in blocks && k in allocs && k != b
    ensures k + allocs[k] <= b || b + BLOCK <= k
  {
  }
}
