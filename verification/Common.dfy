/** Vocabulary shared by the components. */
module Common {

  const PAGE: nat := 0x1000
  const HUGE_PAGE: nat := 0x20_0000
  const UINT32_RANGE: nat := 0x1_0000_0000

  /** The results an API call reports. */
  datatype Status = Success | Error | InvalidParameter | InvalidNodeUnit | NotSupported | NoMemory
                  | NotOpened | AlreadyOpened

  datatype Option<+T> = None | Some(value: T)

  /** The addresses [lo, lo + len). */
  function Span(lo: nat, len: nat): (s: set<nat>)
    ensures forall a: nat :: a in s <==> lo <= a < lo + len
  {
    if len == 0 then {} else Span(lo, len - 1) + {lo + len - 1}
  }

  /** Ranges, given as address to size, that do not overlap. */
  ghost predicate Separate(ranges: map<nat, nat>) {
    forall j, k {:trigger ranges[j], ranges[k]} | j in ranges && k in ranges && j < k :: j + ranges[j] <= k
  }

  function AlignDown(v: nat, align: nat): nat
    requires align > 0
  {
    v / align * align
  }

  function AlignUp(v: nat, align: nat): nat
    requires align > 0
  {
    AlignDown(v + align - 1, align)
  }

  lemma AlignBounds(v: nat, align: nat)
    requires align > 0
    ensures AlignDown(v, align) <= v < AlignDown(v, align) + align
    ensures v <= AlignUp(v, align) < v + align
    ensures AlignDown(v, align) % align == 0 && AlignUp(v, align) % align == 0
  {
    MultipleOf(v / align, align);
    MultipleOf((v + align - 1) / align, align);
  }

  lemma AlignedAbove(base: nat, align: nat)
    requires align > 0 && base % align != 0
    ensures (base + align - base % align) % align == 0 && base < base + align - base % align < base + align
  {
    var q := base / align;
    assert base == q * align + base % align;
    assert base + align - base % align == (q + 1) * align;
    MultipleOf(q + 1, align);
  }

  lemma MultipleOf(q: nat, align: nat)
    requires align > 0
    ensures q * align % align == 0
  {
    var x := q * align;
    var t, r := x / align, x % align;
    assert (q - t) * align == r by {
      assert x == align * t + r;
      assert (q - t) * align == q * align - t * align;
    }
    ScaleBound(q - t, align);
  }

  lemma ScaleBound(d: int, align: nat)
    requires align > 0
    ensures d >= 1 ==> d * align >= align
    ensures d <= -1 ==> d * align <= 0 - align
  {
  }
}

/** Stepping through the keys of an ordered map. */
module OrderedKeys {
  import opened Common

  predicate IsGreatest(keys: set<nat>, p: nat, best: nat) {
    best in keys && best <= p && forall k | k in keys && k <= p :: k <= best
  }

  predicate IsLeast(keys: set<nat>, p: nat, best: nat) {
    best in keys && p < best && forall k | k in keys && p < k :: best <= k
  }

  /** `upper_bound(p)` and one step back: the greatest key not above p. */
  function StepBack(keys: set<nat>, p: nat): (r: Option<nat>)
    ensures r.None? ==> forall k | k in keys :: p < k
    ensures r.Some? ==> IsGreatest(keys, p, r.value)
  {
    if k :| k in keys && k <= p then
      GreatestExists(keys, p, k);
      var best: nat :| best in keys && IsGreatest(keys, p, best);
      Some(best)
    else None
  }

  /** `upper_bound(p)`: the least key above p. */
  function StepForward(keys: set<nat>, p: nat): (r: Option<nat>)
    ensures r.None? ==> forall k | k in keys :: k <= p
    ensures r.Some? ==> IsLeast(keys, p, r.value)
  {
    if k :| k in keys && p < k then
      LeastExists(keys, p, k);
      var best: nat :| best in keys && IsLeast(keys, p, best);
      Some(best)
    else None
  }

  lemma {:induction false} GreatestExists(keys: set<nat>, p: nat, x: nat)
    requires x in keys && x <= p
    ensures exists best :: best in keys && IsGreatest(keys, p, best)
    decreases keys
  {
    if y :| y in keys && x < y <= p {
      GreatestExists(keys - {x}, p, y);
      var best :| best in keys - {x} && IsGreatest(keys - {x}, p, best);
      forall k | k in keys && k <= p ensures k <= best {
        if k != x { assert k in keys - {x}; }
      }
      assert IsGreatest(keys, p, best);
    } else {
      assert IsGreatest(keys, p, x);
    }
  }

  lemma {:induction false} LeastExists(keys: set<nat>, p: nat, x: nat)
    requires x in keys && p < x
    ensures exists best :: best in keys && IsLeast(keys, p, best)
    decreases keys
  {
    if y :| y in keys && p < y < x {
      LeastExists(keys - {x}, p, y);
      var best :| best in keys - {x} && IsLeast(keys - {x}, p, best);
      forall k | k in keys && p < k ensures best <= k {
        if k != x { assert k in keys - {x}; }
      }
      assert IsLeast(keys, p, best);
    } else {
      assert IsLeast(keys, p, x);
    }
  }
}
