/** The bookkeeping shared by the two address-range allocators: a window cut into fragments, each
    free or in use, indexed by address, beside a free list indexed by size. */
module Fragments {
  import opened Common
  import opened OrderedKeys

  datatype Frag = Frag(size: nat, free: bool)

  type FragMap = map<nat, Frag>

  type FreeList = multiset<(nat, nat)>

  // --------------------------------------------------------------------------
  // What a healthy fragment map looks like
  // --------------------------------------------------------------------------

  ghost predicate FragOk(m: FragMap, lo: nat, hi: nat, k: nat)
    requires k in m
  {
    lo <= k && m[k].size > 0 && k + m[k].size <= hi && (k + m[k].size == hi || k + m[k].size in m)
  }

  /** The fragments partition [lo, hi). */
  ghost predicate Tiled(m: FragMap, lo: nat, hi: nat) {
    && lo in m
    && (forall k {:trigger FragOk(m, lo, hi, k)} | k in m :: FragOk(m, lo, hi, k))
    && (forall k, k' {:trigger m[k], m[k']} | k in m && k' in m && k < k' :: k + m[k].size <= k')
  }

  /** No two neighbours are both free. */
  ghost predicate Compacted(m: FragMap) {
    forall k, k' {:trigger m[k], m[k']} | k in m && k' in m && k' == k + m[k].size :: !(m[k].free && m[k'].free)
  }

  /** Of the addresses of the window, the free list holds each free fragment once and nothing else. */
  ghost predicate Listed(m: FragMap, list: FreeList, lo: nat, hi: nat) {
    forall e: (nat, nat) | lo <= e.1 < hi :: list[e] == if e.1 in m && m[e.1] == Frag(e.0, true) then 1 else 0
  }

  /** Two free lists differ at most inside the window. */
  ghost predicate SameOutside(list: FreeList, list': FreeList, lo: nat, hi: nat) {
    forall e: (nat, nat) | !(lo <= e.1 < hi) :: list[e] == list'[e]
  }

  /** What the owner of the window sees: the ranges handed out. */
  ghost function Live(m: FragMap): map<nat, nat> {
    map k | k in m && !m[k].free :: m[k].size
  }

  /** Every address of the window lies in exactly one fragment. */
  lemma Partition(m: FragMap, lo: nat, hi: nat, a: nat)
    requires Tiled(m, lo, hi) && lo <= a < hi
    ensures exists k :: k in m && k <= a < k + m[k].size
    ensures forall k, k' | k in m && k' in m && k <= a < k + m[k].size && k' <= a < k' + m[k'].size :: k == k'
  {
    var k := StepBack(m.Keys, a).value;
    assert FragOk(m, lo, hi, k);
  }

  /** With nothing handed out the map is a single free fragment. */
  lemma IdleIsOneFragment(m: FragMap, lo: nat, hi: nat)
    requires Tiled(m, lo, hi) && Compacted(m) && Live(m) == map[]
    ensures lo < hi && m == map[lo := Frag(hi - lo, true)]
  {
    assert forall k | k in m :: m[k].free by {
      forall k | k in m ensures m[k].free { assert k !in Live(m); }
    }
    assert FragOk(m, lo, hi, lo);
    assert forall k | k in m :: FragOk(m, lo, hi, k);
    assert m.Keys == {lo};
  }

  /** A neighbour above is where the fragment ends; a neighbour below ends where it starts. */
  lemma Neighbours(m: FragMap, lo: nat, hi: nat, k: nat)
    requires Tiled(m, lo, hi) && k in m
    ensures k > lo ==> StepBack(m.Keys, k - 1).Some?
    ensures k == lo > 0 ==> StepBack(m.Keys, k - 1).None?
    ensures k > lo ==> var l := StepBack(m.Keys, k - 1).value; l in m && l + m[l].size == k
    ensures var u := StepForward(m.Keys, k);
            if k + m[k].size == hi then u == None else u == Some(k + m[k].size)
  {
    assert FragOk(m, lo, hi, k);
    if k > 0 {
      var l := StepBack(m.Keys, k - 1);
      if l.Some? { assert FragOk(m, lo, hi, l.value); }
    }
    var u := StepForward(m.Keys, k);
    if u.Some? { assert FragOk(m, lo, hi, u.value); }
  }

  // --------------------------------------------------------------------------
  // Cutting a fragment in two and joining two neighbours
  // --------------------------------------------------------------------------

  function Split(m: FragMap, k: nat, at: nat): FragMap
    requires k in m && k < at < k + m[k].size
  {
    m[k := Frag(at - k, m[k].free)][at := Frag(k + m[k].size - at, m[k].free)]
  }

  function Join(m: FragMap, k: nat): FragMap
    requires k in m && k + m[k].size in m
  {
    (m - {k + m[k].size})[k := Frag(m[k].size + m[k + m[k].size].size, m[k].free)]
  }

  function Mark(m: FragMap, k: nat, free: bool): FragMap
    requires k in m
  {
    m[k := Frag(m[k].size, free)]
  }

  lemma NothingBetween(m: FragMap, lo: nat, hi: nat, k: nat)
    requires Tiled(m, lo, hi) && k in m
    ensures forall x | x in m && k < x :: k + m[k].size <= x
  {
  }

  lemma SplitTiled(m: FragMap, lo: nat, hi: nat, k: nat, at: nat)
    requires Tiled(m, lo, hi) && k in m && k < at < k + m[k].size
    ensures at !in m && Tiled(Split(m, k, at), lo, hi)
  {
    var c := Split(m, k, at);
    assert FragOk(m, lo, hi, k);
    NothingBetween(m, lo, hi, k);
    forall x | x in c ensures FragOk(c, lo, hi, x) {
      if x in m { assert FragOk(m, lo, hi, x); }
    }
    forall x, y | x in c && y in c && x < y ensures x + c[x].size <= y {
      if x in m { assert FragOk(m, lo, hi, x); }
      if x in m && y in m { assert m[x].size > 0 && m[y].size >= 0; }
      if x == at { assert m[k].size > 0 && m[y].size >= 0; }
      if y == at && x in m { assert m[x].size > 0 && m[k].size > 0; }
    }
  }

  lemma JoinOrdered(m: FragMap, lo: nat, hi: nat, k: nat, x: nat, y: nat)
    requires Tiled(m, lo, hi) && k in m && k + m[k].size in m
    requires x in Join(m, k) && y in Join(m, k) && x < y
    ensures x + Join(m, k)[x].size <= y
  {
  }

  lemma JoinTiled(m: FragMap, lo: nat, hi: nat, k: nat)
    requires Tiled(m, lo, hi) && k in m && k + m[k].size in m
    ensures Tiled(Join(m, k), lo, hi)
  {
    var c, gone := Join(m, k), k + m[k].size;
    forall x, y | x in c && y in c && x < y ensures x + c[x].size <= y { JoinOrdered(m, lo, hi, k, x, y); }
    assert FragOk(m, lo, hi, k) && FragOk(m, lo, hi, gone);
    forall x | x in c ensures FragOk(c, lo, hi, x) {
      assert FragOk(m, lo, hi, x);
      if x != k { assert m[x].size > 0 && m[k].size > 0; }
    }
  }

  lemma MarkTiled(m: FragMap, lo: nat, hi: nat, k: nat, free: bool)
    requires Tiled(m, lo, hi) && k in m
    ensures Tiled(Mark(m, k, free), lo, hi)
  {
    var c := Mark(m, k, free);
    forall x | x in c ensures FragOk(c, lo, hi, x) { assert FragOk(m, lo, hi, x); }
  }

  // --------------------------------------------------------------------------
  // Handing out part of a free fragment
  // --------------------------------------------------------------------------

  predicate CanCarve(m: FragMap, k: nat, addr: nat, bytes: nat) {
    k in m && m[k].free && k <= addr && bytes > 0 && addr + bytes <= k + m[k].size
  }

  function Carve(m: FragMap, k: nat, addr: nat, bytes: nat): FragMap
    requires CanCarve(m, k, addr, bytes)
  {
    var m1 := if k < addr then Split(m, k, addr) else m;
    var m2 := if addr + bytes < k + m[k].size then Split(m1, addr, addr + bytes) else m1;
    Mark(m2, addr, false)
  }

  lemma CarveTiled(m: FragMap, lo: nat, hi: nat, k: nat, addr: nat, bytes: nat)
    requires Tiled(m, lo, hi) && CanCarve(m, k, addr, bytes)
    ensures Tiled(Carve(m, k, addr, bytes), lo, hi)
    ensures k < addr ==> addr !in m
    ensures addr + bytes < k + m[k].size ==> addr + bytes !in m
  {
    hide Tiled;
    var m1 := if k < addr then Split(m, k, addr) else m;
    if k < addr { SplitTiled(m, lo, hi, k, addr); }
    var m2 := if addr + bytes < k + m[k].size then Split(m1, addr, addr + bytes) else m1;
    if addr + bytes < k + m[k].size { SplitTiled(m1, lo, hi, addr, addr + bytes); }
    MarkTiled(m2, lo, hi, addr, false);
  }

  /** The carved map, entry by entry. */
  lemma CarveShape(m: FragMap, lo: nat, hi: nat, k: nat, addr: nat, bytes: nat)
    requires Tiled(m, lo, hi) && CanCarve(m, k, addr, bytes)
    ensures lo <= k && k + m[k].size <= hi
    ensures var c, end := Carve(m, k, addr, bytes), k + m[k].size;
            && addr in c && c[addr] == Frag(bytes, false)
            && (k < addr ==> addr !in m && k in c && c[k] == Frag(addr - k, true))
            && (addr + bytes < end ==> addr + bytes !in m && addr + bytes in c && c[addr + bytes] == Frag(end - addr - bytes, true))
            && (forall x | x in c && x != k && x != addr && x != addr + bytes :: x in m && c[x] == m[x])
            && (forall x | x in m && x != k :: x in c && c[x] == m[x] && x != addr && (x == addr + bytes ==> x == end))
            && (addr + bytes == end && end in c ==> end in m && c[end] == m[end])
  {
    CarveTiled(m, lo, hi, k, addr, bytes);
    assert FragOk(m, lo, hi, k);
    hide Tiled;
  }

  lemma CarveLive(m: FragMap, lo: nat, hi: nat, k: nat, addr: nat, bytes: nat)
    requires Tiled(m, lo, hi) && CanCarve(m, k, addr, bytes)
    ensures addr !in Live(m) && Live(Carve(m, k, addr, bytes)) == Live(m)[addr := bytes]
  {
    CarveShape(m, lo, hi, k, addr, bytes);
    hide Tiled, Carve;
  }

  lemma CarveCompacted(m: FragMap, lo: nat, hi: nat, k: nat, addr: nat, bytes: nat)
    requires Tiled(m, lo, hi) && Compacted(m) && CanCarve(m, k, addr, bytes)
    ensures Compacted(Carve(m, k, addr, bytes))
  {
    hide Carve;
    CarveShape(m, lo, hi, k, addr, bytes);
    var c := Carve(m, k, addr, bytes);
    assert FragOk(m, lo, hi, k);
    forall x, y | x in c && y in c && y == x + c[x].size && c[x].free ensures !c[y].free {
      if x == k && k < addr {
        assert y == addr;
      } else if x == addr + bytes && x !in m {
        assert y == k + m[k].size && m[k].free && y in m && m[y].size >= 0;
      } else {
        assert x in m && m[x] == c[x] && FragOk(m, lo, hi, x);
        NothingBetween(m, lo, hi, x);
        if y in m { assert m[y].size >= 0; }
      }
    }
  }

  function CarveList(m: FragMap, list: FreeList, k: nat, addr: nat, bytes: nat): FreeList
    requires CanCarve(m, k, addr, bytes)
  {
    var end := k + m[k].size;
    var rest := list - multiset{(m[k].size, k)};
    var left := if k < addr then rest + multiset{(addr - k, k)} else rest;
    if addr + bytes < end then left + multiset{(end - addr - bytes, addr + bytes)} else left
  }

  lemma CarveListed(m: FragMap, lo: nat, hi: nat, list: FreeList, k: nat, addr: nat, bytes: nat)
    requires Tiled(m, lo, hi) && CanCarve(m, k, addr, bytes) && Listed(m, list, lo, hi)
    ensures Listed(Carve(m, k, addr, bytes), CarveList(m, list, k, addr, bytes), lo, hi)
    ensures SameOutside(list, CarveList(m, list, k, addr, bytes), lo, hi)
  {
    hide Tiled, Carve;
    CarveShape(m, lo, hi, k, addr, bytes);
    var c, cl := Carve(m, k, addr, bytes), CarveList(m, list, k, addr, bytes);
    assert list[(m[k].size, k)] == 1;
    forall e: (nat, nat) | lo <= e.1 < hi ensures cl[e] == if e.1 in c && c[e.1] == Frag(e.0, true) then 1 else 0 {
      assert list[e] == if e.1 in m && m[e.1] == Frag(e.0, true) then 1 else 0;
    }
  }

  // --------------------------------------------------------------------------
  // Taking a range back, with eager merging
  // --------------------------------------------------------------------------

  /** The free neighbour below k, or k itself. */
  function MergeBase(m: FragMap, k: nat): (b: nat)
    requires k in m
    ensures b in m
  {
    if k == 0 then k
    else match StepBack(m.Keys, k - 1)
      case None => k
      case Some(l) => if m[l].free then l else k
  }

  /** The free neighbour above k, if any. */
  function MergeUpper(m: FragMap, k: nat): (u: Option<nat>)
    requires k in m
    ensures u.Some? ==> u.value in m
  {
    match StepForward(m.Keys, k)
    case None => None
    case Some(u) => if m[u].free then Some(u) else None
  }

  /** k marked free and merged into its free lower neighbour. */
  function Lowered(m: FragMap, k: nat): (r: FragMap)
    requires k in m
    ensures MergeBase(m, k) in r
  {
    var b := MergeBase(m, k);
    if b == k then Mark(m, k, true) else (m - {k})[b := Frag(m[b].size + m[k].size, true)]
  }

  /** A free fragment merged with its free upper neighbour. */
  function Raised(m: FragMap, k: nat): FragMap
    requires k in m
  {
    match MergeUpper(m, k)
    case None => m
    case Some(u) => (m - {u})[k := Frag(m[k].size + m[u].size, m[k].free)]
  }

  function Release(m: FragMap, k: nat): FragMap
    requires k in m
  {
    Raised(Lowered(m, k), MergeBase(m, k))
  }

  lemma LowerFacts(m: FragMap, lo: nat, hi: nat, k: nat)
    requires Tiled(m, lo, hi) && k in m && lo > 0
    ensures var b := MergeBase(m, k);
            && b in m && (b != k ==> m[b].free && b < k && b + m[b].size == k)
            && (b == k ==> forall x | x in m && x + m[x].size == k :: !m[x].free)
            && m[k].size > 0 && m[b].size > 0
  {
    Neighbours(m, lo, hi, k);
    var b := MergeBase(m, k);
    assert FragOk(m, lo, hi, k) && FragOk(m, lo, hi, b);
    forall x | b == k && x in m && x + m[x].size == k ensures !m[x].free {
      assert FragOk(m, lo, hi, x);
      if k > lo {
        var l := StepBack(m.Keys, k - 1).value;
        assert m[l].size > 0 by { assert FragOk(m, lo, hi, l); }
        assert x == l;
      }
    }
  }

  lemma UpperFacts(m: FragMap, lo: nat, hi: nat, k: nat)
    requires Tiled(m, lo, hi) && k in m
    ensures var u, end := MergeUpper(m, k), k + m[k].size;
            && (u.Some? ==> u == Some(end) && end in m && m[end].free && m[end].size > 0 && k < end)
            && (u.None? ==> end !in m || !m[end].free)
  {
    Neighbours(m, lo, hi, k);
    assert FragOk(m, lo, hi, k);
    if k + m[k].size in m { assert FragOk(m, lo, hi, k + m[k].size); }
  }

  lemma LoweredTiled(m: FragMap, lo: nat, hi: nat, k: nat)
    requires Tiled(m, lo, hi) && k in m && lo > 0
    ensures Tiled(Lowered(m, k), lo, hi)
  {
    hide Tiled, MergeBase;
    LowerFacts(m, lo, hi, k);
    var b := MergeBase(m, k);
    MarkTiled(m, lo, hi, k, true);
    if b != k {
      JoinTiled(m, lo, hi, b);
      assert Join(m, b) == Lowered(m, k);
    }
  }

  lemma RaisedTiled(m: FragMap, lo: nat, hi: nat, k: nat)
    requires Tiled(m, lo, hi) && k in m
    ensures Tiled(Raised(m, k), lo, hi)
  {
    hide Tiled, MergeUpper;
    UpperFacts(m, lo, hi, k);
    if MergeUpper(m, k).Some? { JoinTiled(m, lo, hi, k); }
  }

  lemma ReleaseTiled(m: FragMap, lo: nat, hi: nat, k: nat)
    requires Tiled(m, lo, hi) && k in m && lo > 0
    ensures Tiled(Release(m, k), lo, hi)
  {
    hide Tiled, Lowered, Raised;
    LoweredTiled(m, lo, hi, k);
    RaisedTiled(Lowered(m, k), lo, hi, MergeBase(m, k));
  }

  lemma LoweredLive(m: FragMap, lo: nat, hi: nat, k: nat)
    requires Tiled(m, lo, hi) && k in m && lo > 0
    ensures Live(Lowered(m, k)) == Live(m) - {k}
  {
    LowerFacts(m, lo, hi, k);
    hide Tiled, MergeBase;
  }

  lemma RaisedLive(m: FragMap, lo: nat, hi: nat, k: nat)
    requires Tiled(m, lo, hi) && k in m && m[k].free
    ensures Live(Raised(m, k)) == Live(m)
  {
  }

  lemma ReleaseLive(m: FragMap, lo: nat, hi: nat, k: nat)
    requires Tiled(m, lo, hi) && k in m && lo > 0
    ensures Live(Release(m, k)) == Live(m) - {k}
  {
    hide Tiled, Live, Raised;
    LoweredTiled(m, lo, hi, k);
    LoweredLive(m, lo, hi, k);
    RaisedLive(Lowered(m, k), lo, hi, MergeBase(m, k));
  }

  /** Lowering leaves at most the merged fragment with a free upper neighbour. */
  lemma LoweredCompacted(m: FragMap, lo: nat, hi: nat, k: nat)
    requires Tiled(m, lo, hi) && Compacted(m) && k in m && !m[k].free && lo > 0
    ensures var r, b := Lowered(m, k), MergeBase(m, k);
            && r[b].free
            && forall x, y {:trigger r[x], r[y]} | x in r && y in r && y == x + r[x].size && x != b :: !(r[x].free && r[y].free)
  {
  }

  lemma RaisedCompacted(m: FragMap, lo: nat, hi: nat, k: nat)
    requires Tiled(m, lo, hi) && k in m && m[k].free
    requires forall x, y {:trigger m[x], m[y]} | x in m && y in m && y == x + m[x].size && x != k :: !(m[x].free && m[y].free)
    ensures Compacted(Raised(m, k))
  {
    hide MergeUpper;
    UpperFacts(m, lo, hi, k);
    var r, end := Raised(m, k), k + m[k].size;
    forall x, y | x in r && y in r && y == x + r[x].size ensures !(r[x].free && r[y].free) {
      assert m[x].size >= 0 && m[y].size >= 0;
      if x == k && MergeUpper(m, k).Some? { assert m[end].free; }
    }
  }

  lemma ReleaseCompacted(m: FragMap, lo: nat, hi: nat, k: nat)
    requires Tiled(m, lo, hi) && Compacted(m) && k in m && !m[k].free && lo > 0
    ensures Compacted(Release(m, k))
  {
    hide Tiled, Compacted, Lowered, Raised;
    LoweredTiled(m, lo, hi, k);
    LoweredCompacted(m, lo, hi, k);
    RaisedCompacted(Lowered(m, k), lo, hi, MergeBase(m, k));
  }

  /** Everything but the free fragment k is listed. */
  ghost predicate ListedBut(m: FragMap, list: FreeList, lo: nat, hi: nat, k: nat) {
    forall e: (nat, nat) | lo <= e.1 < hi :: list[e] == if e.1 in m && e.1 != k && m[e.1] == Frag(e.0, true) then 1 else 0
  }

  function LoweredList(m: FragMap, list: FreeList, k: nat): FreeList
    requires k in m
  {
    var b := MergeBase(m, k);
    if b == k then list else list - multiset{(m[b].size, b)}
  }

  lemma LoweredListed(m: FragMap, lo: nat, hi: nat, list: FreeList, k: nat)
    requires Tiled(m, lo, hi) && k in m && !m[k].free && lo > 0 && Listed(m, list, lo, hi)
    ensures ListedBut(Lowered(m, k), LoweredList(m, list, k), lo, hi, MergeBase(m, k))
    ensures SameOutside(list, LoweredList(m, list, k), lo, hi)
  {
    LowerFacts(m, lo, hi, k);
    var b, r, rl := MergeBase(m, k), Lowered(m, k), LoweredList(m, list, k);
    assert FragOk(m, lo, hi, b);
    hide Tiled, MergeBase;
    assert b != k ==> list[(m[b].size, b)] == 1;
    forall e: (nat, nat) | lo <= e.1 < hi
      ensures rl[e] == if e.1 in r && e.1 != b && r[e.1] == Frag(e.0, true) then 1 else 0
    {
      assert list[e] == if e.1 in m && m[e.1] == Frag(e.0, true) then 1 else 0;
    }
  }

  /** The free list without the merged neighbours, before the result is listed. */
  function RaisedRest(m: FragMap, list: FreeList, k: nat): FreeList
    requires k in m
  {
    match MergeUpper(m, k)
    case None => list
    case Some(u) => list - multiset{(m[u].size, u)}
  }

  lemma RaisedListed(m: FragMap, lo: nat, hi: nat, list: FreeList, k: nat)
    requires Tiled(m, lo, hi) && k in m && m[k].free && ListedBut(m, list, lo, hi, k)
    ensures ListedBut(Raised(m, k), RaisedRest(m, list, k), lo, hi, k)
    ensures SameOutside(list, RaisedRest(m, list, k), lo, hi)
  {
    UpperFacts(m, lo, hi, k);
    var r, rl, u := Raised(m, k), RaisedRest(m, list, k), MergeUpper(m, k);
    if u.Some? { assert FragOk(m, lo, hi, u.value); }
    hide Tiled, MergeUpper;
    assert u.Some? ==> list[(m[u.value].size, u.value)] == 1;
    forall e: (nat, nat) | lo <= e.1 < hi
      ensures rl[e] == if e.1 in r && e.1 != k && r[e.1] == Frag(e.0, true) then 1 else 0
    {
      assert list[e] == if e.1 in m && e.1 != k && m[e.1] == Frag(e.0, true) then 1 else 0;
    }
  }

  function ReleaseRest(m: FragMap, list: FreeList, k: nat): FreeList
    requires k in m
  {
    RaisedRest(Lowered(m, k), LoweredList(m, list, k), MergeBase(m, k))
  }

  function ReleaseList(m: FragMap, list: FreeList, k: nat): FreeList
    requires k in m
  {
    ReleaseRest(m, list, k) + multiset{(Release(m, k)[MergeBase(m, k)].size, MergeBase(m, k))}
  }

  lemma ReleaseRestListed(m: FragMap, lo: nat, hi: nat, list: FreeList, k: nat)
    requires Tiled(m, lo, hi) && k in m && !m[k].free && lo > 0 && Listed(m, list, lo, hi)
    ensures var b, r := MergeBase(m, k), Release(m, k);
            && b in r && r[b].free && lo <= b < hi
            && ListedBut(r, ReleaseRest(m, list, k), lo, hi, b)
            && SameOutside(list, ReleaseRest(m, list, k), lo, hi)
  {
    LoweredTiled(m, lo, hi, k);
    LoweredListed(m, lo, hi, list, k);
    assert FragOk(m, lo, hi, MergeBase(m, k));
    hide Tiled, Listed, ListedBut, RaisedRest, LoweredList, MergeBase;
    RaisedListed(Lowered(m, k), lo, hi, LoweredList(m, list, k), MergeBase(m, k));
  }

  lemma ReleaseListed(m: FragMap, lo: nat, hi: nat, list: FreeList, k: nat)
    requires Tiled(m, lo, hi) && k in m && !m[k].free && lo > 0 && Listed(m, list, lo, hi)
    ensures Listed(Release(m, k), ReleaseList(m, list, k), lo, hi)
    ensures SameOutside(list, ReleaseList(m, list, k), lo, hi)
  {
    ReleaseRestListed(m, lo, hi, list, k);
    hide Tiled, Release, ReleaseRest, MergeBase;
  }

  // --------------------------------------------------------------------------
  // Looking up the free list by size
  // --------------------------------------------------------------------------

  predicate IsBestFit(list: FreeList, bytes: nat, e: (nat, nat)) {
    e in list && bytes <= e.0 && forall f | f in list && bytes <= f.0 :: e.0 <= f.0
  }

  lemma {:induction false} BestFitExists(list: FreeList, bytes: nat, x: (nat, nat))
    requires x in list && bytes <= x.0
    ensures exists e :: e in list && IsBestFit(list, bytes, e)
    decreases list
  {
    if y :| y in list && bytes <= y.0 < x.0 {
      var rest := list[x := 0];
      assert y in rest;
      BestFitExists(rest, bytes, y);
      var e :| e in rest && IsBestFit(rest, bytes, e);
      forall f | f in list && bytes <= f.0 ensures e.0 <= f.0 {
        if f != x { assert f in rest; }
      }
      assert e in list && IsBestFit(list, bytes, e);
    } else {
      assert IsBestFit(list, bytes, x);
    }
  }
}
