/** The virtual-address manager behind the local heap, the system heap and the handle aperture:
    best fit by size, fragments merged as soon as they are freed. */
module VaManager {
  import opened Common
  import opened OrderedKeys
  import opened Fragments

  ghost predicate Healthy(m: FragMap, list: FreeList, lo: nat, hi: nat) {
    && 0 < lo < hi && Tiled(m, lo, hi) && Compacted(m)
    && Listed(m, list, lo, hi) && forall e | e in list :: lo <= e.1 < hi
  }

  lemma CarveHealthy(m: FragMap, list: FreeList, lo: nat, hi: nat, k: nat, addr: nat, bytes: nat)
    requires Healthy(m, list, lo, hi) && CanCarve(m, k, addr, bytes)
    ensures Healthy(Carve(m, k, addr, bytes), CarveList(m, list, k, addr, bytes), lo, hi)
    ensures addr !in Live(m) && Live(Carve(m, k, addr, bytes)) == Live(m)[addr := bytes]
    ensures 0 < lo <= addr && addr + bytes <= hi
    ensures forall x | x in Live(m) :: x + Live(m)[x] <= addr || addr + bytes <= x
  {
    hide Carve, CarveList, Compacted, Listed;
    CarveTiled(m, lo, hi, k, addr, bytes);
    CarveCompacted(m, lo, hi, k, addr, bytes);
    CarveListed(m, lo, hi, list, k, addr, bytes);
    CarveLive(m, lo, hi, k, addr, bytes);
    assert FragOk(m, lo, hi, k);
    forall x | x in Live(m) ensures x + Live(m)[x] <= addr || addr + bytes <= x {
      assert m[x].size >= 0 && m[k].size > 0;
    }
  }

  lemma ReleaseHealthy(m: FragMap, list: FreeList, lo: nat, hi: nat, k: nat)
    requires Healthy(m, list, lo, hi) && k in m && !m[k].free
    ensures Healthy(Release(m, k), ReleaseList(m, list, k), lo, hi)
    ensures Live(Release(m, k)) == Live(m) - {k}
    ensures MergeBase(m, k) in Lowered(m, k)
    ensures Release(m, k) == Raised(Lowered(m, k), MergeBase(m, k))
    ensures MergeBase(m, k) in Release(m, k)
    ensures ReleaseList(m, list, k) ==
            RaisedRest(Lowered(m, k), LoweredList(m, list, k), MergeBase(m, k))
            + multiset{(Release(m, k)[MergeBase(m, k)].size, MergeBase(m, k))}
  {
    ReleaseRestListed(m, lo, hi, list, k);
    hide Lowered, Raised, RaisedRest, LoweredList, Tiled, Compacted, Listed;
    ReleaseTiled(m, lo, hi, k);
    ReleaseLive(m, lo, hi, k);
    ReleaseCompacted(m, lo, hi, k);
    ReleaseListed(m, lo, hi, list, k);
  }

  // --------------------------------------------------------------------------
  // A requested address inside a free fragment
  // --------------------------------------------------------------------------

  /** Fragment k can serve the request for the fixed range; the walk never looks at the first fragment. */
  predicate Serves(m: FragMap, lo: nat, k: nat, addr: nat, bytes: nat) {
    k in m && k != lo && CanCarve(m, k, addr, bytes)
  }

  /** The range asked for lies inside a free fragment other than the first. */
  predicate HintServed(m: FragMap, lo: nat, bytes: nat, align: nat, addr: nat) {
    addr > 0 && (align == 0 || addr % align == 0) && exists k | k in m :: Serves(m, lo, k, addr, bytes)
  }

  /** The caller asks for an address strictly inside a free fragment that can serve it. */
  predicate HintInside(m: FragMap, lo: nat, bytes: nat, align: nat, addr: nat) {
    addr > 0 && (align == 0 || addr % align == 0) && exists k | k in m && k < addr :: Serves(m, lo, k, addr, bytes)
  }

  /** What the allocator then does: it cuts the fragment but never enters the range it hands out. */
  function CutWithoutEntry(m: FragMap, k: nat, addr: nat, bytes: nat): FragMap
    requires CanCarve(m, k, addr, bytes) && k < addr
  {
    var end := k + m[k].size;
    var cut := m[k := Frag(addr - k, true)];
    if addr + bytes < end then cut[addr + bytes := Frag(end - addr - bytes, true)] else cut
  }

  lemma CutIsUnhealthy(m: FragMap, list: FreeList, lo: nat, hi: nat, k: nat, addr: nat, bytes: nat, after: FreeList)
    requires Healthy(m, list, lo, hi) && CanCarve(m, k, addr, bytes) && k < addr
    ensures !Healthy(CutWithoutEntry(m, k, addr, bytes), after, lo, hi)
    ensures addr !in CutWithoutEntry(m, k, addr, bytes)
  {
    CarveShape(m, lo, hi, k, addr, bytes);
    assert FragOk(m, lo, hi, k);
    var c := CutWithoutEntry(m, k, addr, bytes);
    assert k in c && k + c[k].size == addr && addr < hi;
    assert !FragOk(c, lo, hi, k);
  }

  /** Once such a range is out, handing out and taking back the space just above it turns the range
      itself into free space although nobody returned it. */
  lemma CutRangeBecomesFree(m: FragMap, lo: nat, hi: nat, k: nat, addr: nat, bytes: nat, next: nat)
    requires Tiled(m, lo, hi) && CanCarve(m, k, addr, bytes) && k < addr
    requires 0 < next && addr + bytes + next <= k + m[k].size
    ensures var cut := CutWithoutEntry(m, k, addr, bytes);
            && CanCarve(cut, addr + bytes, addr + bytes, next)
            && var used := Carve(cut, addr + bytes, addr + bytes, next);
            && addr + bytes in used && !used[addr + bytes].free
            && var back := Release(used, addr + bytes);
               k in back && back[k].free && k <= addr < k + back[k].size
  {
    var cut, up := CutWithoutEntry(m, k, addr, bytes), addr + bytes;
    NothingBetween(m, lo, hi, k);
    var used := Carve(cut, up, up, next);
    assert used[k] == Frag(addr - k, true) && used[up] == Frag(next, false);
    assert IsGreatest(used.Keys, up - 1, k);
    hide *;
    ReleaseMergesDown(used, k, up);
  }

  lemma ReleaseMergesDown(m: FragMap, low: nat, k: nat)
    requires k in m && low < k && IsGreatest(m.Keys, k - 1, low) && m[low].free
    ensures var r := Release(m, k); low in r && r[low].free && r[low].size >= m[low].size + m[k].size
  {
  }

  // --------------------------------------------------------------------------
  // Where a range without a wish goes
  // --------------------------------------------------------------------------

  /** The room looked for beyond the request once the best fit turns out misaligned. */
  function Slack(align: nat, minAlign: nat): nat
    requires minAlign > 0
  {
    if align == 0 then 0 else AlignUp(align, minAlign)
  }

  /** The best fit for the bytes begins at an address that is not aligned. */
  predicate FitMisaligned(list: FreeList, bytes: nat, align: nat) {
    align != 0 && exists e | e in list :: IsBestFit(list, bytes, e) && e.1 % align != 0
  }

  /** addr is the base of a best fit, or, the best fit being misaligned, the first aligned address in a best
      fit for the request and the slack. */
  predicate Fitted(list: FreeList, bytes: nat, align: nat, slack: nat, addr: nat) {
    exists e | e in list ::
      || (IsBestFit(list, bytes, e) && addr == e.1)
      || (FitMisaligned(list, bytes, align) && IsBestFit(list, bytes + slack, e) && e.1 <= addr < e.1 + align)
  }

  /** No fragment has the bytes, or the best fit is misaligned and none has the bytes and the slack. */
  predicate NothingFits(list: FreeList, bytes: nat, align: nat, slack: nat) {
    || (forall e | e in list :: e.0 < bytes)
    || (FitMisaligned(list, bytes, align) && forall e | e in list :: e.0 < bytes + slack)
  }

  lemma Misaligned(list: FreeList, bytes: nat, align: nat, e: (nat, nat))
    requires IsBestFit(list, bytes, e) && align != 0 && e.1 % align != 0
    ensures FitMisaligned(list, bytes, align)
  {
    assert e in list;
  }

  lemma NothingRoomy(list: FreeList, bytes: nat, align: nat, slack: nat, i: nat)
    requires i > 0 ==> FitMisaligned(list, bytes, align)
    requires !exists e :: e in list && (if i == 0 then bytes else bytes + slack) <= e.0
    ensures NothingFits(list, bytes, align, slack) && forall e | e in list :: e.0 < bytes + slack
  {
    hide FitMisaligned;
    assert forall e | e in list :: e.0 < if i == 0 then bytes else bytes + slack;
  }

  lemma FittedAt(list: FreeList, bytes: nat, align: nat, slack: nat, e: (nat, nat), i: nat, addr: nat)
    requires IsBestFit(list, if i == 0 then bytes else bytes + slack, e)
    requires if i == 0 then addr == e.1 else FitMisaligned(list, bytes, align) && e.1 <= addr < e.1 + align
    ensures e in list && bytes <= e.0 && (i > 0 ==> bytes + slack <= e.0) && Fitted(list, bytes, align, slack, addr)
  {
    hide FitMisaligned;
    assert e in list;
  }

  /** Either a fresh aligned range is recorded where the best fit puts it, or nothing fits and nothing changes. */
  ghost predicate Placed(m: FragMap, list: FreeList, m': FragMap, list': FreeList, lo: nat, hi: nat,
                         bytes: nat, align: nat, slack: nat, addr: nat) {
    if addr == 0 then m' == m && list' == list && NothingFits(list, bytes, align, slack)
    else
      && Fitted(list, bytes, align, slack, addr) && (align != 0 ==> addr % align == 0)
      && Recorded(m, m', lo, hi, bytes, addr)
  }

  ghost predicate Recorded(m: FragMap, m': FragMap, lo: nat, hi: nat, bytes: nat, addr: nat) {
    && addr !in Live(m) && Live(m') == Live(m)[addr := bytes] && lo <= addr && addr + bytes <= hi
    && forall x | x in Live(m) :: x + Live(m)[x] <= addr || addr + bytes <= x
  }

  class VaMgr {
    var frags: FragMap
    var freeList: FreeList
    const minAlign: nat
    ghost const lo: nat
    ghost const hi: nat

    ghost predicate Valid()
      reads this
    {
      minAlign > 0 && Healthy(frags, freeList, lo, hi)
    }

    constructor (start: nat, size: nat, align: nat)
      requires start > 0 && size > 0 && align > 0
      ensures Valid() && Live(frags) == map[] && lo == start && hi == start + size && minAlign == align
    {
      minAlign := align;
      lo, hi := start, start + size;
      frags := map[start := Frag(size, true)];
      freeList := multiset{(size, start)};
      new;
      assert FragOk(frags, lo, hi, start);
      assert Live(frags) == map[];
    }

    /** Best fit, with one retry for a fragment large enough to align inside. */
    method AllocImpl(bytes: nat, align: nat) returns (addr: nat)
      requires Valid() && bytes > 0
      modifies this
      ensures Valid()
      ensures addr == 0 ==> forall k | k in frags && frags[k].free :: frags[k].size < bytes + Slack(align, minAlign)
      ensures Placed(old(frags), old(freeList), frags, freeList, lo, hi, bytes, align, Slack(align, minAlign), addr)
    {
      hide Healthy, Carve, CarveList, Live, Fitted, NothingFits, FitMisaligned, IsBestFit;
      ghost var m, list := frags, freeList;
      addr := 0;
      var alignBytes := bytes;
      var retry := if align == 0 then 0 else 1;
      var newAlign := if align == 0 then minAlign else AlignUp(align, minAlign);
      if align != 0 { AlignBounds(align, minAlign); }
      var i := 0;
      while i <= retry
        invariant 0 <= i <= retry + 1 && addr == 0 && frags == m && freeList == list && Valid()
        invariant alignBytes == if i == 0 then bytes else bytes + newAlign
        invariant align == 0 ==> i == 0
        invariant i > 0 ==> FitMisaligned(list, bytes, align)
        invariant i < 2
      {
        HealthyListed(m, list, lo, hi);
        if !exists e :: e in freeList && alignBytes <= e.0 {
          NothingRoomy(list, bytes, align, Slack(align, minAlign), i);
          break;
        }
        ghost var some :| some in freeList && alignBytes <= some.0;
        BestFitExists(freeList, alignBytes, some);
        var e: (nat, nat) :| e in freeList && IsBestFit(freeList, alignBytes, e);
        var size, base := e.0, e.1;
        var delta := if align == 0 then 0 else base % align;
        if delta == 0 {
          addr := base;
          FittedAt(list, bytes, align, Slack(align, minAlign), e, i, addr);
          CarveHealthy(m, list, lo, hi, base, addr, bytes);
          Take(base, addr, bytes);
          return;
        } else if i == 0 {
          Misaligned(list, bytes, align, e);
          alignBytes := alignBytes + newAlign;
          i := i + 1;
        } else {
          addr := base + align - delta;
          AlignedAbove(base, align);
          FittedAt(list, bytes, align, Slack(align, minAlign), e, i, addr);
          CarveHealthy(m, list, lo, hi, base, addr, bytes);
          Take(base, addr, bytes);
          return;
        }
      }
    }

    /** Enter [addr, addr + bytes) as used and the rest of the free fragment at `base` as free. */
    method Take(base: nat, addr: nat, bytes: nat)
      requires CanCarve(frags, base, addr, bytes)
      modifies this
      ensures frags == Carve(old(frags), base, addr, bytes)
      ensures freeList == CarveList(old(frags), old(freeList), base, addr, bytes)
    {
      var f, l, size := frags, freeList, frags[base].size;
      l := l - multiset{(size, base)};
      f := f[addr := Frag(bytes, false)];
      if base < addr {
        l, f := l + multiset{(addr - base, base)}, f[base := Frag(addr - base, true)];
      }
      if addr + bytes < base + size {
        var rest := base + size - addr - bytes;
        l, f := l + multiset{(rest, addr + bytes)}, f[addr + bytes := Frag(rest, true)];
      }
      frags, freeList := f, l;
    }

    /** Allocation at a wished-for address, else anywhere.  The manager stays sound exactly when the
        wish is not strictly inside a free fragment that could serve it: there the range is handed
        out without being entered, and can never be given back. */
    method Alloc(bytes: nat, align: nat, hint: nat) returns (addr: nat)
      requires Valid() && bytes > 0 && (hint == 0 || lo <= hint)
      modifies this
      ensures Valid() <==> !HintInside(old(frags), lo, bytes, align, hint)
      ensures HintInside(old(frags), lo, bytes, align, hint) ==>
                addr == hint && hint !in frags && lo <= hint && hint + bytes <= hi
      ensures HintServed(old(frags), lo, bytes, align, hint) ==> addr == hint
      ensures HintServed(old(frags), lo, bytes, align, hint) && !HintInside(old(frags), lo, bytes, align, hint) ==>
                Recorded(old(frags), frags, lo, hi, bytes, addr)
      ensures !HintServed(old(frags), lo, bytes, align, hint) ==>
                Placed(old(frags), old(freeList), frags, freeList, lo, hi, bytes, align, Slack(align, minAlign), addr)
    {
      if hint > 0 && (align == 0 || hint % align == 0) {
        var k := FindServing(hint, bytes);
        if k.Some? {
          var base := k.value;
          ghost var m, list := frags, freeList;
          OnlyServing(m, list, lo, hi, base, hint, bytes);
          CarveHealthy(m, list, lo, hi, base, hint, bytes);
          if base < hint { CutIsUnhealthy(m, list, lo, hi, base, hint, bytes, CarveList(m, list, base, hint, bytes)); }
          hide *;
          CutAt(base, hint, bytes);
          return hint;
        }
      }
      addr := AllocImpl(bytes, align);
    }

    /** Walk down from the wished-for address, never looking at the first fragment. */
    method FindServing(hint: nat, bytes: nat) returns (r: Option<nat>)
      requires Valid() && bytes > 0 && 0 < lo <= hint
      ensures r.Some? ==> Serves(frags, lo, r.value, hint, bytes)
      ensures r.None? ==> forall k: nat :: !Serves(frags, lo, k, hint, bytes)
    {
      var start := StepBack(frags.Keys, hint);
      assert start.Some?;
      var cur := start.value;
      while true
        invariant cur in frags && cur > 0
        invariant forall k: nat | k > cur :: !Serves(frags, lo, k, hint, bytes)
        decreases cur
      {
        Neighbours(frags, lo, hi, cur);
        assert FragOk(frags, lo, hi, cur);
        var below := StepBack(frags.Keys, cur - 1);
        if below.None? { return None; }
        var size := frags[cur].size;
        if bytes > size || hint < cur || hint + bytes > cur + size || !frags[cur].free {
          cur := below.value;
          FreeAddressIsPositive(frags, lo, hi, cur);
        } else {
          return Some(cur);
        }
      }
    }

    /** The edits made for a wished-for address: the fragment's own entry is the only used one made. */
    method CutAt(base: nat, addr: nat, bytes: nat)
      requires CanCarve(frags, base, addr, bytes)
      modifies this
      ensures freeList == CarveList(old(frags), old(freeList), base, addr, bytes)
      ensures base == addr ==> frags == Carve(old(frags), base, addr, bytes)
      ensures base < addr ==> frags == CutWithoutEntry(old(frags), base, addr, bytes)
    {
      var f, l, size := frags, freeList, frags[base].size;
      l := l - multiset{(size, base)};
      f := f[base := Frag(bytes, false)];
      if addr > base {
        l, f := l + multiset{(addr - base, base)}, f[base := Frag(addr - base, true)];
      }
      if base + size > addr + bytes {
        var rest := base + size - addr - bytes;
        l, f := l + multiset{(rest, addr + bytes)}, f[addr + bytes := Frag(rest, true)];
      }
      frags, freeList := f, l;
    }

    /** Take a range back.  An address that is not handed out is ignored, and so is one without an entry
        even when an earlier wish has left the manager unsound. */
    method Free(addr: nat)
      requires Valid() || addr !in frags
      modifies this
      ensures old(Valid()) ==> Valid() && Live(frags) == old(Live(frags)) - {addr}
      ensures addr !in old(frags) || addr !in old(Live(frags)) ==> frags == old(frags) && freeList == old(freeList)
    {
      ghost var m, list := frags, freeList;
      if addr == 0 || addr !in frags || frags[addr].free {
        if Valid() { NotLive(m, list, lo, hi, addr); }
        return;
      }
      FreeAddressIsPositive(m, lo, hi, addr);
      ReleaseHealthy(m, list, lo, hi, addr);
      hide *;
      var cur, base := MergeDown(addr);
      Publish(cur, base);
    }

    /** Merge the freed fragment into a free lower neighbour; `base` is found by subtracting sizes. */
    method MergeDown(addr: nat) returns (cur: nat, base: nat)
      requires Valid() && addr in frags && !frags[addr].free
      modifies this
      ensures cur == base == MergeBase(old(frags), addr) && cur in frags
      ensures Mark(frags, cur, true) == Lowered(old(frags), addr)
      ensures freeList == LoweredList(old(frags), old(freeList), addr)
    {
      hide Healthy, MergeBase, StepBack, IsGreatest;
      LowerOf(frags, freeList, lo, hi, addr);
      var f, l := frags, freeList;
      cur, base := addr, addr;
      var lower := StepBack(f.Keys, addr - 1);
      if lower.Some? && f[lower.value].free {
        var low := lower.value;
        l := l - multiset{(f[low].size, low)};
        base := base - f[low].size;
        f := (f - {addr})[low := Frag(f[low].size + f[addr].size, true)];
        cur := low;
      }
      frags, freeList := f, l;
    }

    /** Merge a free upper neighbour, then list the result as free. */
    method Publish(cur: nat, base: nat)
      requires cur in frags
      modifies this
      ensures frags == Raised(Mark(old(frags), cur, true), cur) && cur in frags
      ensures freeList == RaisedRest(Mark(old(frags), cur, true), old(freeList), cur) + multiset{(frags[cur].size, base)}
    {
      hide MergeUpper;
      var f, l := frags, freeList;
      UpperOfMarked(f, cur);
      var upper := StepForward(f.Keys, cur);
      if upper.Some? && f[upper.value].free {
        var u := upper.value;
        l := l - multiset{(f[u].size, u)};
        f := (f - {u})[cur := Frag(f[cur].size + f[u].size, f[cur].free)];
      }
      l := l + multiset{(f[cur].size, base)};
      f := f[cur := Frag(f[cur].size, true)];
      frags, freeList := f, l;
    }
  }

  lemma LowerOf(m: FragMap, list: FreeList, lo: nat, hi: nat, k: nat)
    requires Healthy(m, list, lo, hi) && k in m
    ensures k > 0
    ensures var low, b := StepBack(m.Keys, k - 1), MergeBase(m, k);
            && (low.Some? ==> low.value in m && low.value != k)
            && b == (if low.Some? && m[low.value].free then low.value else k)
            && (b != k ==> b + m[b].size == k)
  {
    FreeAddressIsPositive(m, lo, hi, k);
    LowerFacts(m, lo, hi, k);
  }

  lemma UpperOfMarked(m: FragMap, k: nat)
    requires k in m
    ensures var up := StepForward(m.Keys, k);
            && (up.Some? ==> up.value in m && up.value != k)
            && MergeUpper(Mark(m, k, true), k) == if up.Some? && m[up.value].free then up else None
  {
    assert Mark(m, k, true).Keys == m.Keys;
  }

  lemma OnlyServing(m: FragMap, list: FreeList, lo: nat, hi: nat, k: nat, addr: nat, bytes: nat)
    requires Healthy(m, list, lo, hi) && Serves(m, lo, k, addr, bytes)
    ensures k < addr ==> addr !in m
    ensures k == addr ==> forall x: nat :: Serves(m, lo, x, addr, bytes) ==> x == k
  {
  }

  lemma NotLive(m: FragMap, list: FreeList, lo: nat, hi: nat, addr: nat)
    requires Healthy(m, list, lo, hi) && (addr == 0 || addr !in m || m[addr].free)
    ensures addr !in Live(m) && Live(m) - {addr} == Live(m)
  {
    if addr in m { assert FragOk(m, lo, hi, addr); }
  }

  lemma FreeAddressIsPositive(m: FragMap, lo: nat, hi: nat, k: nat)
    requires lo > 0 && Tiled(m, lo, hi) && k in m
    ensures k > 0
  {
    assert FragOk(m, lo, hi, k);
  }

  lemma HealthyListed(m: FragMap, list: FreeList, lo: nat, hi: nat)
    requires Healthy(m, list, lo, hi)
    ensures forall e | e in list :: e.1 in m && m[e.1] == Frag(e.0, true)
    ensures forall k | k in m && m[k].free :: (m[k].size, k) in list
  {
    forall k | k in m && m[k].free ensures (m[k].size, k) in list {
      assert FragOk(m, lo, hi, k);
      assert list[(m[k].size, k)] == 1;
    }
  }
}
