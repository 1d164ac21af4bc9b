/** Reserving one address range on the CPU and on every GPU adapter at once.  The kernel is an
    explicit model: it may refuse any request, but never hands out a range twice. */
module SvmReserve {
  import opened Common

  const ATTEMPTS: nat := 16

  /** The addresses of several windows of one length. */
  ghost function Windows(ws: seq<nat>, len: nat): set<nat> {
    if ws == [] then {} else Span(ws[0], len) + Windows(ws[1..], len)
  }

  lemma {:induction false} WindowsAppend(ws: seq<nat>, w: nat, len: nat)
    ensures Windows(ws + [w], len) == Windows(ws, len) + Span(w, len)
  {
    if ws == [] {
      assert [w][1..] == [];
    } else {
      assert (ws + [w])[1..] == ws[1..] + [w];
      WindowsAppend(ws[1..], w, len);
    }
  }

  /** No window overlaps an earlier one. */
  ghost predicate Apart(ws: seq<nat>, len: nat) {
    ws == [] || (Span(ws[0], len) !! Windows(ws[1..], len) && Apart(ws[1..], len))
  }

  lemma {:induction false} ApartAppend(ws: seq<nat>, w: nat, len: nat)
    requires Apart(ws, len) && Span(w, len) !! Windows(ws, len)
    ensures Apart(ws + [w], len)
  {
    if ws == [] {
      assert [w][1..] == [];
    } else {
      assert (ws + [w])[1..] == ws[1..] + [w];
      ApartAppend(ws[1..], w, len);
      WindowsAppend(ws[1..], w, len);
    }
  }

  /** Beside `home`, exactly these windows are mapped, each of them once. */
  ghost predicate OnlyWindows(home: set<nat>, cpu: set<nat>, ws: seq<nat>, len: nat) {
    Apart(ws, len) && Windows(ws, len) !! home && cpu == home + Windows(ws, len)
  }

  lemma NoWindows(home: set<nat>, len: nat)
    ensures OnlyWindows(home, home, [], len)
  {
  }

  lemma OnlyWindowsAppend(home: set<nat>, cpu: set<nat>, ws: seq<nat>, w: nat, len: nat)
    requires OnlyWindows(home, cpu, ws, len) && Span(w, len) !! cpu
    ensures OnlyWindows(home, cpu + Span(w, len), ws + [w], len)
  {
    WindowsAppend(ws, w, len);
    ApartAppend(ws, w, len);
  }

  lemma OnlyWindowsDrop(home: set<nat>, cpu: set<nat>, ws: seq<nat>, len: nat)
    requires OnlyWindows(home, cpu, ws, len) && ws != []
    ensures OnlyWindows(home, cpu - Span(ws[0], len), ws[1..], len)
  {
  }

  /** Trimming the last window to the range [va, va + size) inside it. */
  lemma OnlyWindowsTrim(home: set<nat>, cpu: set<nat>, ws: seq<nat>, w: nat, va: nat, size: nat, align: nat)
    requires OnlyWindows(home, cpu, ws + [w], size + align) && w <= va <= w + align
    ensures var left, right := Span(w, va - w), Span(va + size, align - (va - w));
            OnlyWindows(home + Span(va, size), cpu - left - right, ws, size + align)
    ensures home !! Span(va, size)
  {
    WindowsAppend(ws, w, size + align);
    WindowOutsideEarlier(ws, w, size + align);
    SpanSplit(w, va, size, align);
    var left, right := Span(w, va - w), Span(va + size, align - (va - w));
    CutOut(home, Windows(ws, size + align), left, Span(va, size), right);
  }

  lemma SpanSplit(w: nat, va: nat, size: nat, align: nat)
    requires w <= va <= w + align
    ensures var left, right := Span(w, va - w), Span(va + size, align - (va - w));
            Span(w, size + align) == left + Span(va, size) + right && left !! Span(va, size) !! right
  {
  }

  lemma CutOut(home: set<nat>, others: set<nat>, left: set<nat>, middle: set<nat>, right: set<nat>)
    requires home !! others !! left !! middle !! right
    ensures home + (others + (left + middle + right)) - left - right == home + middle + others
  {
  }

  /** What the adapters hold: all of them what they held at first, except that some may also hold
      one and the same further range. */
  ghost predicate HoldOneRange(was: seq<set<nat>>, now: seq<set<nat>>, base: nat, size: nat) {
    && |now| == |was|
    && forall j | 0 <= j < |was| :: now[j] == was[j] || Gained(was, now, j, base, size)
  }

  ghost predicate Gained(was: seq<set<nat>>, now: seq<set<nat>>, j: nat, base: nat, size: nat)
    requires j < |was| == |now|
  {
    Span(base, size) !! was[j] && now[j] == was[j] + Span(base, size)
  }

  /** A grant of the range to adapter j: it did not hold it before, and what others gained is untouched. */
  lemma GrantAdds(was: seq<set<nat>>, before: seq<set<nat>>, j: nat, base: nat, va: nat, size: nat)
    requires HoldOneRange(was, before, base, size) && j < |was| && size > 0
    requires if base == 0 then before == was else va == base
    requires Span(va, size) !! before[j]
    ensures var after := before[j := before[j] + Span(va, size)];
            && HoldOneRange(was, after, va, size) && Gained(was, after, j, va, size)
            && (base != 0 ==> !Gained(was, before, j, base, size))
            && forall k | 0 <= k < |was| && base != 0 && Gained(was, before, k, base, size) :: Gained(was, after, k, va, size)
  {
  }

  /** Of the first j adapters `matched` gave a range since `start`, as far as it matters; the others are as then. */
  ghost predicate Counted(start: seq<set<nat>>, now: seq<set<nat>>, j: nat, matched: nat) {
    && |now| == |start| && matched <= j <= |start|
    && (matched == j <==> forall k | 0 <= k < j :: now[k] != start[k])
    && forall k | j <= k < |start| :: now[k] == start[k]
  }

  lemma NoneCounted(start: seq<set<nat>>)
    ensures Counted(start, start, 0, 0)
  {
  }

  lemma CountedGrant(start: seq<set<nat>>, now: seq<set<nat>>, j: nat, matched: nat, va: nat, size: nat)
    requires Counted(start, now, j, matched) && j < |start| && size > 0 && Span(va, size) !! now[j]
    ensures Counted(start, now[j := now[j] + Span(va, size)], j + 1, matched + 1)
  {
    var next := now[j := now[j] + Span(va, size)];
    assert va in next[j] && va !in start[j];
    assert forall k | 0 <= k < j :: next[k] == now[k];
    assert (forall k | 0 <= k < j + 1 :: next[k] != start[k]) <==> forall k | 0 <= k < j :: now[k] != start[k];
  }

  lemma CountedRefusal(start: seq<set<nat>>, now: seq<set<nat>>, j: nat, matched: nat)
    requires Counted(start, now, j, matched) && j < |start|
    ensures Counted(start, now, j + 1, matched)
  {
    assert now[j] == start[j];
  }

  lemma AllCounted(start: seq<set<nat>>, now: seq<set<nat>>, matched: nat)
    requires Counted(start, now, |start|, matched)
    ensures matched <= |now| == |start|
    ensures matched == |now| <==> forall j | 0 <= j < |now| :: now[j] != start[j]
  {
  }

  lemma OneMore(i: nat, n: nat)
    ensures (i + 1) * n == i * n + n
  {
  }

  class AddressSpace {
    var cpu: set<nat>
    var gpu: seq<set<nat>>
    ghost var asked: nat         // how often an adapter was asked for a range
    ghost var mapRefusals: nat   // how often the CPU refused a window

    constructor (adapters: nat)
      ensures cpu == {} && |gpu| == adapters && forall j | 0 <= j < adapters :: gpu[j] == {}
    {
      cpu := {};
      gpu := seq(adapters, _ => {});
    }

    // ---- the kernel ----

    method Mmap(len: nat) returns (r: Option<nat>)
      modifies this`cpu, this`mapRefusals
      ensures mapRefusals == old(mapRefusals) + if r.None? then 1 else 0
      ensures r.None? ==> cpu == old(cpu)
      ensures r.Some? ==>
                && r.value > 0 && r.value % PAGE == 0
                && Span(r.value, len) !! old(cpu) && cpu == old(cpu) + Span(r.value, len)
    {
      var p: nat := *;
      if p > 0 && p % PAGE == 0 && Span(p, len) !! cpu {
        cpu := cpu + Span(p, len);
        return Some(p);
      }
      mapRefusals := mapRefusals + 1;
      return None;
    }

    method Munmap(p: nat, len: nat)
      modifies this`cpu
      ensures cpu == old(cpu) - Span(p, len)
    {
      cpu := cpu - Span(p, len);
    }

    /** Any free page-aligned range of `size` bytes between `low` and `high`, or a refusal. */
    method ReserveGpuVirtualAddress(j: nat, size: nat, low: nat, high: nat) returns (r: Option<nat>)
      requires j < |gpu|
      modifies this`gpu, this`asked
      ensures asked == old(asked) + 1
      ensures r.None? ==> gpu == old(gpu)
      ensures r.Some? ==>
                && low <= r.value && r.value + size <= high && r.value > 0 && r.value % PAGE == 0
                && Span(r.value, size) !! old(gpu)[j]
                && gpu == old(gpu)[j := old(gpu)[j] + Span(r.value, size)]
    {
      asked := asked + 1;
      var va: nat := *;
      if 0 < va && low <= va && va + size <= high && va % PAGE == 0 && Span(va, size) !! gpu[j] {
        gpu := gpu[j := gpu[j] + Span(va, size)];
        return Some(va);
      }
      return None;
    }

    method FreeGpuVirtualAddress(j: nat, base: nat, size: nat)
      requires j < |gpu|
      modifies this`gpu
      ensures gpu == old(gpu)[j := old(gpu)[j] - Span(base, size)]
    {
      gpu := gpu[j := gpu[j] - Span(base, size)];
    }

    // ---- the library ----

    /** One attempt: ask every adapter for the same range.  `base` is what an earlier attempt left. */
    method AskAdapters(ptr: nat, base0: nat, size: nat, align: nat, ghost was: seq<set<nat>>)
      returns (base: nat, localVa: nat, matched: nat)
      requires ptr > 0 && ptr % PAGE == 0 && size > 0 && size % PAGE == 0 && align % PAGE == 0
      requires |gpu| > 0 && HoldOneRange(was, gpu, base0, size)
      requires base0 == 0 ==> gpu == was
      requires base0 != 0 ==> base0 % PAGE == 0 && exists j :: 0 <= j < |gpu| && Gained(was, gpu, j, base0, size)
      modifies this`gpu, this`asked
      ensures asked == old(asked) + |gpu| && |gpu| == |old(gpu)|
      ensures matched == |gpu| <==> forall j | 0 <= j < |gpu| :: gpu[j] != old(gpu)[j]
      ensures matched <= |gpu|
      ensures HoldOneRange(was, gpu, base, size)
      ensures base == 0 <==> base0 == 0 && matched == 0
      ensures base == 0 ==> gpu == was
      ensures base != 0 ==> base % PAGE == 0 && exists j :: 0 <= j < |gpu| && Gained(was, gpu, j, base, size)
      ensures base0 != 0 ==> base == base0 && matched < |gpu|
      ensures matched == |gpu| ==>
                && localVa == base && ptr <= base <= ptr + align
                && forall j | 0 <= j < |gpu| :: Gained(was, gpu, j, base, size)
    {
      assert |was| == |gpu|;
      hide HoldOneRange, Gained, Counted;
      base, localVa, matched := base0, 0, 0;
      ghost var start := gpu;
      NoneCounted(start);
      ghost var holder := 0;
      if base0 != 0 { holder :| 0 <= holder < |gpu| && Gained(was, gpu, holder, base0, size); }
      var j := 0;
      while j < |gpu|
        invariant 0 <= j <= |gpu| == |was| && 0 <= holder < |gpu|
        invariant HoldOneRange(was, gpu, base, size)
        invariant base == 0 <==> base0 == 0 && matched == 0
        invariant base == 0 ==> gpu == was
        invariant base != 0 ==> base % PAGE == 0 && Gained(was, gpu, holder, base, size)
        invariant base0 != 0 ==> base == base0 && (j > holder ==> matched < j)
        invariant matched <= j && asked == old(asked) + j && |gpu| == |old(gpu)|
        invariant Counted(start, gpu, j, matched)
        invariant matched == j > 0 ==> localVa == base && (base0 == 0 ==> ptr <= base <= ptr + align)
        invariant matched == j > 0 ==> forall k | 0 <= k < j :: Gained(was, gpu, k, base, size)
        invariant forall k | j <= k < |gpu| :: base0 == 0 ==> gpu[k] == was[k]
      {
        var low := if base == 0 then ptr else base;
        var high := low + (if base == 0 then size + align else size) + 1;
        ghost var before := gpu;
        var r := ReserveGpuVirtualAddress(j, size, low, high);
        if r.Some? {
          assert base != 0 ==> r.value == base;
          GrantAdds(was, before, j, base, r.value, size);
          CountedGrant(start, before, j, matched, r.value, size);
          matched := matched + 1;
          localVa := r.value;
          if base == 0 { holder := j; }
          base := localVa;
        } else {
          CountedRefusal(start, before, j, matched);
        }
        j := j + 1;
      }
      AllCounted(start, gpu, matched);
    }

    /** `granted[k]` is the number of adapters that gave a range in attempt k. */
    method ReserveSvmSpace(size0: nat, align: nat)
      returns (ok: bool, base: nat, size: nat, window: nat, granted: seq<nat>)
      requires |gpu| > 0 && size0 > 0 && size0 % PAGE == 0 && align % PAGE == 0
      modifies this
      // success: the same range everywhere, taken from the window of the last attempt, and nothing else
      ensures ok ==>
                && size == size0 && base > 0 && base % PAGE == 0 && window <= base <= window + align
                && Span(base, size) !! old(cpu) && cpu == old(cpu) + Span(base, size)
                && |gpu| == |old(gpu)| && forall j | 0 <= j < |gpu| :: Gained(old(gpu), gpu, j, base, size)
      // ... and only in an attempt before which no adapter had given anything
      ensures ok ==> |granted| > 0 && granted[|granted| - 1] == |gpu|
                     && forall k | 0 <= k < |granted| - 1 :: granted[k] == 0
      // failure: no CPU mapping stays; adapters that gave a range keep it, all the same one
      ensures !ok ==> base == 0 && size == 0 && cpu == old(cpu)
      ensures !ok ==> exists stale: nat :: HoldOneRange(old(gpu), gpu, stale, size0)
      // ... and it comes only after sixteen attempts, or when the CPU has no window left
      ensures !ok ==> (|granted| == 16 || mapRefusals > old(mapRefusals)) && forall k | 0 <= k < |granted| :: granted[k] < |gpu|
      // every attempt asks every adapter
      ensures |granted| <= 16 && asked == old(asked) + |granted| * |gpu|
    {
      var sysVa := new nat[ATTEMPTS](_ => 0);
      var sysVaSize := size0 + align;
      size, window := size0, 0;
      ghost var was, home := gpu, cpu;
      var used, matchIndex, localVa;
      used, matchIndex, base, localVa, granted := TryWindows(sysVa, size0, align);
      assert HoldOneRange(was, gpu, base, size0);
      ghost var stale := base;
      if matchIndex >= 0 {
        window := sysVa[matchIndex];
        TrimWindow(sysVa, matchIndex, localVa, size0, align, home);
      } else {
        base, size := 0, 0;
      }
      var count := if matchIndex >= 0 then matchIndex else ATTEMPTS;
      ReleaseWindows(sysVa, count, sysVaSize, if matchIndex >= 0 then matchIndex else used,
                     home + if matchIndex >= 0 then Span(base, size) else {});
      ok := matchIndex >= 0;
      assert HoldOneRange(was, gpu, stale, size0);
    }

    /** The retry loop: map a window, ask every adapter, stop at the first attempt all agree to. */
    method TryWindows(sysVa: array<nat>, size: nat, align: nat)
      returns (used: nat, matchIndex: int, base: nat, localVa: nat, granted: seq<nat>)
      requires |gpu| > 0 && size > 0 && size % PAGE == 0 && align % PAGE == 0
      requires sysVa.Length == ATTEMPTS && forall k | 0 <= k < ATTEMPTS :: sysVa[k] == 0
      modifies this, sysVa
      ensures used == |granted| <= ATTEMPTS && (matchIndex == -1 || matchIndex == used - 1 >= 0)
      ensures matchIndex == -1 ==> (used == ATTEMPTS || mapRefusals > old(mapRefusals)) && forall k | 0 <= k < used :: granted[k] < |gpu|
      ensures asked == old(asked) + used * |gpu|
      ensures forall k | used <= k < ATTEMPTS :: sysVa[k] == 0
      ensures forall k | 0 <= k < used :: sysVa[k] > 0
      ensures OnlyWindows(old(cpu), cpu, sysVa[..used], size + align)
      ensures HoldOneRange(old(gpu), gpu, base, size)
      ensures matchIndex >= 0 ==>
                && localVa == base > 0 && base % PAGE == 0
                && sysVa[matchIndex] <= base <= sysVa[matchIndex] + align
                && granted[matchIndex] == |gpu| && (forall k | 0 <= k < matchIndex :: granted[k] == 0)
                && forall j | 0 <= j < |gpu| :: Gained(old(gpu), gpu, j, base, size)
    {
      hide OnlyWindows, Gained;
      assert OnlyWindows(cpu, cpu, sysVa[..0], size + align) by { NoWindows(cpu, size + align); }
      base, localVa, granted, matchIndex := 0, 0, [], -1;
      ghost var was := gpu;
      var i := 0;
      while i < ATTEMPTS
        invariant 0 <= i <= ATTEMPTS && |granted| == i && matchIndex == -1
        invariant forall k | i <= k < ATTEMPTS :: sysVa[k] == 0
        invariant forall k | 0 <= k < i :: sysVa[k] > 0
        invariant OnlyWindows(old(cpu), cpu, sysVa[..i], size + align)
        invariant HoldOneRange(was, gpu, base, size)
        invariant mapRefusals == old(mapRefusals)
        invariant asked == old(asked) + i * |gpu| && forall k | 0 <= k < i :: granted[k] < |gpu|
        invariant base == 0 ==> gpu == was && forall k | 0 <= k < i :: granted[k] == 0
        invariant base != 0 ==> base % PAGE == 0 && exists j :: 0 <= j < |gpu| && Gained(was, gpu, j, base, size)
      {
        ghost var mapped := cpu;
        var ptr := Mmap(size + align);
        if ptr.None? { break; }
        ghost var before := sysVa[..i];
        sysVa[i] := ptr.value;
        assert sysVa[..i + 1] == before + [ptr.value];
        OnlyWindowsAppend(old(cpu), mapped, before, ptr.value, size + align);
        var matched;
        base, localVa, matched := AskAdapters(ptr.value, base, size, align, was);
        granted := granted + [matched];
        OneMore(i, |gpu|);
        i := i + 1;
        if matched == |gpu| { matchIndex := i - 1; break; }
      }
      used := i;
    }

    /** Give back what the chosen window holds left and right of the range. */
    method TrimWindow(sysVa: array<nat>, chosen: nat, localVa: nat, size: nat, align: nat, ghost home: set<nat>)
      requires chosen < sysVa.Length && sysVa[chosen] <= localVa <= sysVa[chosen] + align
      requires OnlyWindows(home, cpu, sysVa[..chosen + 1], size + align)
      modifies this`cpu
      ensures home !! Span(localVa, size)
      ensures OnlyWindows(home + Span(localVa, size), cpu, sysVa[..chosen], size + align)
    {
      var window := sysVa[chosen];
      assert sysVa[..chosen + 1] == sysVa[..chosen] + [window];
      OnlyWindowsTrim(home, cpu, sysVa[..chosen], window, localVa, size, align);
      var leftSize := localVa - window;
      var rightSize := align - leftSize;
      hide OnlyWindows;
      assert cpu - Span(window, 0) == cpu;
      if leftSize > 0 { Munmap(window, leftSize); }
      assert cpu - Span(localVa + size, 0) == cpu;
      if rightSize > 0 { Munmap(localVa + size, rightSize); }
    }

    method FreeSvmSpace(base: nat, size: nat)
      modifies this
      ensures cpu == old(cpu) - Span(base, size)
      ensures |gpu| == |old(gpu)| && forall j | 0 <= j < |gpu| :: gpu[j] == old(gpu)[j] - Span(base, size)
    {
      var j := 0;
      while j < |gpu|
        invariant 0 <= j <= |gpu| == |old(gpu)| && cpu == old(cpu)
        invariant forall k | 0 <= k < |gpu| :: gpu[k] == if k < j then old(gpu)[k] - Span(base, size) else old(gpu)[k]
      {
        FreeGpuVirtualAddress(j, base, size);
        j := j + 1;
      }
      Munmap(base, size);
    }

    /** A reservation that succeeded is undone completely, on the CPU and on every adapter. */
    method ReserveThenFree(size0: nat, align: nat) returns (ok: bool)
      requires |gpu| > 0 && size0 > 0 && size0 % PAGE == 0 && align % PAGE == 0
      modifies this
      ensures cpu == old(cpu)
      ensures ok ==> gpu == old(gpu)
    {
      ghost var was := gpu;
      var base, size, window, granted;
      ok, base, size, window, granted := ReserveSvmSpace(size0, align);
      if ok {
        ghost var held := gpu;
        FreeSvmSpace(base, size);
        forall j | 0 <= j < |gpu| ensures gpu[j] == was[j] {
          assert Gained(was, held, j, base, size);
        }
      }
    }

    /** Unmap the first `count` windows; only the first `used` slots hold one, the others hold 0. */
    method ReleaseWindows(sysVa: array<nat>, count: nat, len: nat, ghost used: nat, ghost keep: set<nat>)
      requires used <= count <= sysVa.Length
      requires forall k | used <= k < count :: sysVa[k] == 0
      requires forall k | 0 <= k < used :: sysVa[k] > 0
      requires OnlyWindows(keep, cpu, sysVa[..used], len)
      modifies this`cpu
      ensures cpu == keep
    {
      var j := 0;
      ghost var rest := sysVa[..used];
      while j < count
        invariant 0 <= j <= count
        invariant rest == if j < used then sysVa[j..used] else []
        invariant OnlyWindows(keep, cpu, rest, len)
      {
        if sysVa[j] != 0 {
          OnlyWindowsDrop(keep, cpu, rest, len);
          Munmap(sysVa[j], len);
          rest := rest[1..];
        }
        j := j + 1;
      }
    }
  }

  lemma {:induction false} WindowOutsideEarlier(ws: seq<nat>, w: nat, len: nat)
    requires Apart(ws + [w], len)
    ensures Apart(ws, len) && Span(w, len) !! Windows(ws, len)
  {
    if ws != [] {
      assert (ws + [w])[1..] == ws[1..] + [w];
      WindowOutsideEarlier(ws[1..], w, len);
      WindowsAppend(ws[1..], w, len);
    }
  }
}
