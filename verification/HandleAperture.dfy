/** Choosing a window of handle addresses that stays clear of the adapters' own apertures. */
module HandleAperture {

  const STEP: nat := 0x8000_0000_0000          // 2^47
  const START: nat := 0x8000_0000_0000
  const END: nat := 0xFFFF_7FFF_FFFF_FFFF      // all ones minus 2^47

  datatype Adapter = Adapter(privateBase: nat, privateSize: nat, sharedBase: nat, sharedSize: nat)

  predicate Overlapping(start1: nat, size1: nat, start2: nat, size2: nat) {
    start1 < start2 + size2 && start2 < start1 + size1
  }

  /** A base of 0 stands for "no aperture". */
  predicate Blocks(base: nat, size: nat, w: nat) {
    base != 0 && Overlapping(base, size, w, STEP)
  }

  predicate Clear(ad: Adapter, w: nat) {
    !Blocks(ad.privateBase, ad.privateSize, w) && !Blocks(ad.sharedBase, ad.sharedSize, w)
  }

  /** What that means address by address: no address of a clear window lies in an aperture the adapter has, and
      for apertures that are not empty the converse holds too. */
  lemma ClearMeans(ad: Adapter, w: nat)
    ensures Clear(ad, w) ==> forall x | w <= x < w + 0x8000_0000_0000 :: !InAperture(ad, x)
    ensures (ad.privateSize > 0 || ad.privateBase == 0) && (ad.sharedSize > 0 || ad.sharedBase == 0) ==>
              (Clear(ad, w) <==> forall x | w <= x < w + 0x8000_0000_0000 :: !InAperture(ad, x))
  {
    if Blocks(ad.privateBase, ad.privateSize, w) && ad.privateSize > 0 {
      assert InAperture(ad, if w < ad.privateBase then ad.privateBase else w);
    }
    if Blocks(ad.sharedBase, ad.sharedSize, w) && ad.sharedSize > 0 {
      assert InAperture(ad, if w < ad.sharedBase then ad.sharedBase else w);
    }
  }

  /** Address x is in the adapter's private or shared aperture. */
  predicate InAperture(ad: Adapter, x: nat) {
    || (ad.privateBase != 0 && ad.privateBase <= x < ad.privateBase + ad.privateSize)
    || (ad.sharedBase != 0 && ad.sharedBase <= x < ad.sharedBase + ad.sharedSize)
  }

  function Max(a: nat, b: nat): nat { if a < b then b else a }

  /** Past this address an adapter blocks nothing. */
  function Last(ad: Adapter): nat {
    Max(ad.privateBase + ad.privateSize, ad.sharedBase + ad.sharedSize)
  }

  /** The first clear window for one adapter, in steps from w. */
  function FirstClear(ad: Adapter, w: nat): (r: nat)
    ensures r >= w && (r - w) % STEP == 0 && Clear(ad, r)
    ensures forall x: nat | w <= x < r && (x - w) % STEP == 0 :: !Clear(ad, x)
    decreases if w <= Last(ad) then Last(ad) - w + 1 else 0
  {
    if Clear(ad, w) then w
    else FirstClear(ad, w + STEP)
  }

  /** The search over all adapters, each starting where the one before it stopped. */
  function Search(ads: seq<Adapter>, w: nat): (r: nat)
    ensures r >= w && (r - w) % STEP == 0
  {
    if ads == [] then w else Search(ads[1..], FirstClear(ads[0], w))
  }

  /** The index of the last adapter that moved the window, or 0. */
  function LastBump(ads: seq<Adapter>, w: nat): (i: nat)
    ensures ads != [] ==> i < |ads|
    ensures ads == [] ==> i == 0
  {
    if ads == [] then 0
    else
      var next := FirstClear(ads[0], w);
      if Search(ads[1..], next) == next then 0 else LastBump(ads[1..], next) + 1
  }

  /** The window is clear of every adapter from the last one that moved it onward. */
  lemma {:induction false} ClearFromLastBump(ads: seq<Adapter>, w: nat, i: nat)
    requires LastBump(ads, w) <= i < |ads|
    ensures Clear(ads[i], Search(ads, w))
  {
    var next := FirstClear(ads[0], w);
    if Search(ads[1..], next) == next {
      if i > 0 {
        NeverMoved(ads[1..], next, i - 1);
      }
    } else {
      ClearFromLastBump(ads[1..], next, i - 1);
    }
  }

  lemma {:induction false} NeverMoved(ads: seq<Adapter>, w: nat, i: nat)
    requires Search(ads, w) == w && i < |ads|
    ensures Clear(ads[i], w)
  {
    var next := FirstClear(ads[0], w);
    if i > 0 { NeverMoved(ads[1..], next, i - 1); }
  }

  predicate ClearOfAll(ads: seq<Adapter>, w: nat) {
    forall i | 0 <= i < |ads| :: Clear(ads[i], w)
  }

  /** The search never steps over a window that is clear of every adapter. */
  lemma {:induction false} NeverOvershoots(ads: seq<Adapter>, w: nat, x: nat)
    requires w <= x && (x - w) % STEP == 0 && ClearOfAll(ads, x)
    ensures Search(ads, w) <= x
  {
    if ads != [] {
      assert Clear(ads[0], x);
      var next := FirstClear(ads[0], w);
      SameGrid(w, next, x);
      NeverOvershoots(ads[1..], next, x);
    }
  }

  lemma SameGrid(w: nat, next: nat, x: nat)
    requires w <= next <= x && (next - w) % STEP == 0 && (x - w) % STEP == 0
    ensures (x - next) % STEP == 0
  {
  }

  /** Past this address no adapter blocks anything. */
  function LastOfAll(ads: seq<Adapter>): nat {
    if ads == [] then 0 else Max(Last(ads[0]), LastOfAll(ads[1..]))
  }

  lemma {:induction false} BlockedBelow(ads: seq<Adapter>, w: nat)
    requires !ClearOfAll(ads, w)
    ensures w <= LastOfAll(ads)
  {
    var i :| 0 <= i < |ads| && !Clear(ads[i], w);
    if i > 0 {
      assert ads[1..][i - 1] == ads[i];
      BlockedBelow(ads[1..], w);
    }
  }

  /** What the search is after: the first window clear of every adapter, in steps from w. */
  function FirstClearOfAll(ads: seq<Adapter>, w: nat): (r: nat)
    ensures r >= w && (r - w) % STEP == 0 && ClearOfAll(ads, r)
    ensures forall x: nat | w <= x < r && (x - w) % STEP == 0 :: !ClearOfAll(ads, x)
    decreases if w <= LastOfAll(ads) then LastOfAll(ads) - w + 1 else 0
  {
    if ClearOfAll(ads, w) then w
    else
      BlockedBelow(ads, w);
      FirstClearOfAll(ads, w + STEP)
  }

  /** Each of the first |f| windows is blocked by the adapter f assigns to it, in the adapters' own order. */
  predicate BlockedInOrder(ads: seq<Adapter>, w: nat, f: seq<nat>) {
    && (forall k | 0 <= k < |f| :: f[k] < |ads| && !Clear(ads[f[k]], w + k * STEP))
    && forall j, k | 0 <= j < k < |f| :: f[j] <= f[k]
  }

  /** How often one adapter moves the window. */
  function Bumps(ad: Adapter, w: nat): (n: nat)
    decreases if w <= Last(ad) then Last(ad) - w + 1 else 0
  {
    if Clear(ad, w) then 0 else Bumps(ad, w + STEP) + 1
  }

  lemma {:induction false} BumpsToClear(ad: Adapter, w: nat)
    ensures FirstClear(ad, w) == w + Bumps(ad, w) * STEP
    ensures forall k | 0 <= k < Bumps(ad, w) :: !Clear(ad, w + k * STEP)
    decreases Bumps(ad, w)
  {
    hide Clear;
    if !Clear(ad, w) {
      BumpsToClear(ad, w + STEP);
      forall k | 0 < k < Bumps(ad, w) ensures !Clear(ad, w + k * STEP) {
        assert w + k * STEP == w + STEP + (k - 1) * STEP;
      }
    }
  }

  /** The path the search takes is such an assignment. */
  lemma {:induction false} SearchPath(ads: seq<Adapter>, w: nat) returns (f: seq<nat>)
    ensures BlockedInOrder(ads, w, f) && Search(ads, w) == w + |f| * STEP
  {
    hide Clear, FirstClear, Bumps;
    if ads == [] {
      f := [];
    } else {
      BumpsToClear(ads[0], w);
      var n, next := Bumps(ads[0], w), FirstClear(ads[0], w);
      var rest := SearchPath(ads[1..], next);
      f := seq(n, k => 0) + seq(|rest|, k requires 0 <= k < |rest| => rest[k] + 1);
      PathInOrder(ads, w, n, rest, f);
    }
  }

  lemma PathInOrder(ads: seq<Adapter>, w: nat, n: nat, rest: seq<nat>, f: seq<nat>)
    requires ads != [] && (forall k | 0 <= k < n :: !Clear(ads[0], w + k * STEP))
    requires BlockedInOrder(ads[1..], w + n * STEP, rest) && |f| == n + |rest|
    requires forall k | 0 <= k < |f| :: f[k] == if k < n then 0 else rest[k - n] + 1
    ensures BlockedInOrder(ads, w, f)
  {
    hide Clear;
    forall k | 0 <= k < |f| ensures f[k] < |ads| && !Clear(ads[f[k]], w + k * STEP) {
      if k >= n {
        assert rest[k - n] < |ads[1..]| && !Clear(ads[1..][rest[k - n]], w + n * STEP + (k - n) * STEP);
        assert w + n * STEP + (k - n) * STEP == w + k * STEP;
      }
    }
  }

  /** As far as windows can be blocked in order, the search goes on. */
  lemma {:induction false} GoesAsFar(ads: seq<Adapter>, w: nat, f: seq<nat>)
    requires BlockedInOrder(ads, w, f)
    ensures Search(ads, w) >= w + |f| * STEP
  {
    hide Clear, FirstClear, Bumps;
    if f != [] {
      assert f[0] < |ads|;
      BumpsToClear(ads[0], w);
      var n, next := Bumps(ads[0], w), FirstClear(ads[0], w);
      if n < |f| {
        assert Clear(ads[0], w + n * STEP) && f[n] > 0;
        var rest := seq(|f| - n, k requires 0 <= k < |f| - n => f[n + k] - 1);
        forall k | 0 <= k < |rest| ensures rest[k] < |ads[1..]| && !Clear(ads[1..][rest[k]], next + k * STEP) {
          assert w + (n + k) * STEP == next + k * STEP;
        }
        GoesAsFar(ads[1..], next, rest);
      }
    }
  }

  /** The windows below the first clear one can be blocked in the adapters' own order. */
  ghost predicate InOrder(ads: seq<Adapter>, w: nat) {
    exists f :: BlockedInOrder(ads, w, f) && w + |f| * STEP == FirstClearOfAll(ads, w)
  }

  /** The window found is clear of all adapters, and then the first such window, exactly when every window
      below the first clear one is blocked by an adapter no earlier than the one that blocks the window before. */
  lemma AllClearIff(ads: seq<Adapter>, w: nat)
    ensures ClearOfAll(ads, Search(ads, w)) <==> InOrder(ads, w)
    ensures Search(ads, w) == FirstClearOfAll(ads, w) <==> InOrder(ads, w)
  {
    var r, first := Search(ads, w), FirstClearOfAll(ads, w);
    NeverOvershoots(ads, w, first);
    if r == first {
      var f := SearchPath(ads, w);
    }
    if f :| BlockedInOrder(ads, w, f) && w + |f| * STEP == first { GoesAsFar(ads, w, f); }
  }

  /** With the same apertures everywhere the result is the first window clear of them all. */
  lemma SameAperturesFirstClear(ads: seq<Adapter>, ad: Adapter, w: nat)
    requires ads != [] && forall i | 0 <= i < |ads| :: ads[i] == ad
    ensures Search(ads, w) == FirstClearOfAll(ads, w) == FirstClear(ad, w)
  {
    BumpsToClear(ad, w);
    var f := seq(Bumps(ad, w), k => 0);
    assert forall x :: ClearOfAll(ads, x) <==> Clear(ads[0], x);
    assert FirstClearOfAll(ads, w) == FirstClear(ad, w);
    assert BlockedInOrder(ads, w, f) && w + |f| * STEP == FirstClearOfAll(ads, w);
    AllClearIff(ads, w);
  }

  /** Moved past one adapter, the window may run into an earlier one. */
  lemma EarlierAdapterHit()
    ensures var a, b := Adapter(2 * STEP, STEP, 0, 0), Adapter(STEP, STEP, 0, 0);
            Search([a, b], START) == 2 * STEP && !Clear(a, 2 * STEP)
  {
    var a, b := Adapter(2 * STEP, STEP, 0, 0), Adapter(STEP, STEP, 0, 0);
    assert Clear(a, START) && !Clear(b, START) && Clear(b, START + STEP);
    assert [a, b][1..] == [b] && [b][1..] == [];
    assert FirstClear(b, START) == FirstClear(b, START + STEP) == START + STEP;
    assert Search([b], START) == Search([], START + STEP) == START + STEP;
  }

  /** One turn of the search: past a blocked window, or on to the next adapter. */
  lemma SearchStep(ads: seq<Adapter>, j: nat, w: nat)
    requires j < |ads|
    ensures Search(ads[j..], w) == if Clear(ads[j], w) then Search(ads[j + 1..], w) else Search(ads[j..], w + STEP)
    ensures !Clear(ads[j], w) ==> w <= Last(ads[j])
  {
  }

  lemma SearchNobody(w: nat)
    ensures Search([], w) == w
  {
  }

  class Runtime {
    var handleApertureStart: nat
    var handleApertureSize: nat

    /** The search as written: one bump at a time, never going back to an earlier adapter, and the end
        of the address range looked at only before the search.  The library passes START and END. */
    method InitHandleApertureSpace(ads: seq<Adapter>, first: nat, end: nat) returns (ok: bool)
      modifies this
      ensures handleApertureSize == 0x8000_0000_0000
      ensures ok <==> first < end - 1
      ensures handleApertureStart == if ok then Search(ads, first) else 0
    {
      hide Search, FirstClear;
      handleApertureStart := first;
      handleApertureSize := STEP;
      if handleApertureStart < end - 1 {
        var j := 0;
        assert ads[0..] == ads;
        while j < |ads|
          invariant 0 <= j <= |ads| && handleApertureSize == STEP
          invariant Search(ads[j..], handleApertureStart) == Search(ads, first)
          decreases |ads| - j,
                    if j < |ads| && handleApertureStart <= Last(ads[j]) then Last(ads[j]) - handleApertureStart + 1 else 0
        {
          SearchStep(ads, j, handleApertureStart);
          if ads[j].privateBase != 0
             && Overlapping(ads[j].privateBase, ads[j].privateSize, handleApertureStart, handleApertureSize) {
            handleApertureStart := handleApertureStart + STEP;
            continue;
          }
          if ads[j].sharedBase != 0
             && Overlapping(ads[j].sharedBase, ads[j].sharedSize, handleApertureStart, handleApertureSize) {
            handleApertureStart := handleApertureStart + STEP;
            continue;
          }
          j := j + 1;
        }
        assert ads[j..] == [] && Search([], handleApertureStart) == handleApertureStart by {
          SearchNobody(handleApertureStart);
        }
        return true;
      }
      handleApertureStart := 0;
      ok := false;
    }
  }
}
