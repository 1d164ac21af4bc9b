/** The state of the sub-allocator: blocks cut into fragments, one free list over all blocks.
    Everything here is about values; the allocator that changes them is in SubAllocator. */
module BlockHeap {
  import opened Common
  import opened OrderedKeys
  import opened Fragments

  const BLOCK: nat := 0x800_0000   // 128 MB

  type Blocks = map<nat, FragMap>

  /** A listed block is partitioned into fragments, merged as far as possible, and in use. */
  ghost predicate BlockOk(m: FragMap, b: nat) {
    b > 0 && Tiled(m, b, b + BLOCK) && Compacted(m) && Live(m) != map[]
  }

  ghost predicate Within(b: nat, a: nat) {
    b <= a < b + BLOCK
  }

  ghost predicate InBlocks(blocks: Blocks, a: nat) {
    exists b :: b in blocks && Within(b, a)
  }

  ghost predicate BlocksOk(blocks: Blocks) {
    && (forall b | b in blocks :: BlockOk(blocks[b], b))
    && (forall b, c {:trigger blocks[b], blocks[c]} | b in blocks && c in blocks && b < c :: b + BLOCK <= c)
  }

  ghost predicate FreeListOk(blocks: Blocks, list: FreeList) {
    && (forall b | b in blocks :: Listed(blocks[b], list, b, b + BLOCK))
    && (forall e | e in list :: InBlocks(blocks, e.1))
  }

  ghost predicate TracksIn(m: FragMap, live: map<nat, nat>, b: nat) {
    forall a: nat {:trigger a in live} | Within(b, a) ::
      && (a in live <==> a in m && !m[a].free)
      && (a in live ==> live[a] == m[a].size)
  }

  /** `live` is the map of the fragments handed out. */
  ghost predicate Tracks(blocks: Blocks, live: map<nat, nat>) {
    && (forall b | b in blocks :: TracksIn(blocks[b], live, b))
    && (forall a | a in live :: InBlocks(blocks, a))
  }

  ghost predicate HeapOk(blocks: Blocks, list: FreeList, live: map<nat, nat>) {
    BlocksOk(blocks) && FreeListOk(blocks, list) && Tracks(blocks, live)
  }

  /** Nothing changes outside the window of block b. */
  ghost predicate SameLiveOutside(live: map<nat, nat>, live': map<nat, nat>, b: nat) {
    forall a: nat {:trigger a in live'} | !Within(b, a) ::
      (a in live <==> a in live') && (a in live ==> live'[a] == live[a])
  }

  /** The step back from any address of a block finds that block. */
  lemma BlockOfAddress(blocks: Blocks, b: nat, a: nat)
    requires BlocksOk(blocks) && b in blocks && Within(b, a)
    ensures StepBack(blocks.Keys, a) == Some(b)
  {
    hide BlockOk;
    var r := StepBack(blocks.Keys, a);
    assert r.Some? && b <= r.value;
    Apart(blocks, b, r.value);
  }

  lemma Apart(blocks: Blocks, b: nat, c: nat)
    requires BlocksOk(blocks) && b in blocks && c in blocks
    ensures b < c ==> b + BLOCK <= c
  {
  }

  /** Replacing the fragments of one block. */
  lemma SetBlock(blocks: Blocks, list: FreeList, live: map<nat, nat>,
                 b: nat, m: FragMap, list': FreeList, live': map<nat, nat>)
    requires HeapOk(blocks, list, live) && b > 0
    requires forall c | c in blocks && c != b :: c + BLOCK <= b || b + BLOCK <= c
    requires BlockOk(m, b) && Listed(m, list', b, b + BLOCK) && TracksIn(m, live', b)
    requires SameOutside(list, list', b, b + BLOCK) && SameLiveOutside(live, live', b)
    ensures HeapOk(blocks[b := m], list', live')
  {
    hide BlockOk, Listed, TracksIn, SameOutside, SameLiveOutside;
    var after := blocks[b := m];
    forall c | c in after ensures Listed(after[c], list', c, c + BLOCK) && TracksIn(after[c], live', c) {
      if c != b { OtherBlock(blocks[c], list, list', live, live', b, c); }
    }
    forall e | e in list' ensures InBlocks(after, e.1) {
      if !Within(b, e.1) { StillListed(list, list', b, e); }
      StillIn(blocks, b, m, e.1);
    }
    forall a | a in live' ensures InBlocks(after, a) {
      if !Within(b, a) { StillLive(live, live', b, a); }
      StillIn(blocks, b, m, a);
    }
  }

  lemma StillIn(blocks: Blocks, b: nat, m: FragMap, a: nat)
    requires Within(b, a) || InBlocks(blocks, a)
    ensures InBlocks(blocks[b := m], a)
  {
  }

  lemma OtherBlock(m: FragMap, list: FreeList, list': FreeList, live: map<nat, nat>, live': map<nat, nat>, b: nat, c: nat)
    requires c + BLOCK <= b || b + BLOCK <= c
    requires SameOutside(list, list', b, b + BLOCK) && SameLiveOutside(live, live', b)
    requires Listed(m, list, c, c + BLOCK) && TracksIn(m, live, c)
    ensures Listed(m, list', c, c + BLOCK) && TracksIn(m, live', c)
  {
  }

  /** Taking a whole block out, once nothing of it is handed out or listed. */
  lemma DropBlock(blocks: Blocks, list: FreeList, live: map<nat, nat>, b: nat, list': FreeList, live': map<nat, nat>)
    requires HeapOk(blocks, list, live) && b in blocks
    requires SameOutside(list, list', b, b + BLOCK) && SameLiveOutside(live, live', b)
    requires forall e | e in list' :: !Within(b, e.1)
    requires forall a | a in live' :: !Within(b, a)
    ensures HeapOk(blocks - {b}, list', live')
  {
    hide BlockOk, Listed, TracksIn, SameOutside, SameLiveOutside;
    var after := blocks - {b};
    forall c | c in after ensures Listed(after[c], list', c, c + BLOCK) && TracksIn(after[c], live', c) {
      assert blocks[c] == after[c] && blocks[b] == blocks[b];
      OtherBlock(blocks[c], list, list', live, live', b, c);
    }
    forall e | e in list' ensures InBlocks(after, e.1) {
      StillListed(list, list', b, e);
      var c :| c in blocks && Within(c, e.1);
      assert c in after;
    }
    forall a | a in live' ensures InBlocks(after, a) {
      StillLive(live, live', b, a);
      var c :| c in blocks && Within(c, a);
      assert c in after;
    }
  }

  lemma StillListed(list: FreeList, list': FreeList, b: nat, e: (nat, nat))
    requires SameOutside(list, list', b, b + BLOCK) && e in list' && !Within(b, e.1)
    ensures e in list
  {
  }

  lemma StillLive(live: map<nat, nat>, live': map<nat, nat>, b: nat, a: nat)
    requires SameLiveOutside(live, live', b) && a in live' && !Within(b, a)
    ensures a in live
  {
  }

  // --------------------------------------------------------------------------
  // Handing out a fragment
  // --------------------------------------------------------------------------

  lemma CarveBlock(blocks: Blocks, list: FreeList, live: map<nat, nat>, b: nat, k: nat, addr: nat, bytes: nat)
    requires HeapOk(blocks, list, live) && b in blocks && CanCarve(blocks[b], k, addr, bytes)
    ensures addr !in live && Within(b, addr)
    ensures HeapOk(blocks[b := Carve(blocks[b], k, addr, bytes)], CarveList(blocks[b], list, k, addr, bytes), live[addr := bytes])
  {
    hide Tiled, Compacted, Listed, Carve, CarveList, HeapOk;
    var m := blocks[b];
    var c := Carve(m, k, addr, bytes);
    HeapBlock(blocks, list, live, b);
    CarveTiled(m, b, b + BLOCK, k, addr, bytes);
    CarveCompacted(m, b, b + BLOCK, k, addr, bytes);
    CarveListed(m, b, b + BLOCK, list, k, addr, bytes);
    CarveLive(m, b, b + BLOCK, k, addr, bytes);
    CarveShape(m, b, b + BLOCK, k, addr, bytes);
    assert addr in Live(c);
    LiveTracks(m, c, live, b, addr, bytes);
    SetBlock(blocks, list, live, b, c, CarveList(m, list, k, addr, bytes), live[addr := bytes]);
  }

  lemma LiveTracks(m: FragMap, c: FragMap, live: map<nat, nat>, b: nat, addr: nat, bytes: nat)
    requires TracksIn(m, live, b) && addr !in Live(m) && Live(c) == Live(m)[addr := bytes] && Within(b, addr)
    ensures addr !in live && TracksIn(c, live[addr := bytes], b) && SameLiveOutside(live, live[addr := bytes], b)
  {
    assert addr in live ==> addr in Live(m);
    var after := live[addr := bytes];
    forall a: nat {:trigger a in after} | Within(b, a)
      ensures (a in after <==> a in c && !c[a].free) && (a in after ==> after[a] == c[a].size)
    {
      assert a in live <==> a in Live(m);
      assert a in Live(c) <==> a in Live(m) || a == addr;
    }
  }

  lemma HeapBlock(blocks: Blocks, list: FreeList, live: map<nat, nat>, b: nat)
    requires HeapOk(blocks, list, live) && b in blocks
    ensures b > 0 && Tiled(blocks[b], b, b + BLOCK) && Compacted(blocks[b]) && Live(blocks[b]) != map[]
    ensures Listed(blocks[b], list, b, b + BLOCK) && TracksIn(blocks[b], live, b)
    ensures forall c | c in blocks && c != b :: c + BLOCK <= b || b + BLOCK <= c
  {
  }

  /** A block that serves its first fragment. */
  function FirstCut(b: nat, bytes: nat): FragMap
    requires 0 < bytes < BLOCK
  {
    map[b := Frag(bytes, false), b + bytes := Frag(BLOCK - bytes, true)]
  }

  lemma NewBlock(blocks: Blocks, list: FreeList, live: map<nat, nat>, b: nat, bytes: nat)
    requires HeapOk(blocks, list, live) && b > 0 && 0 < bytes < BLOCK
    requires forall c | c in blocks :: c + BLOCK <= b || b + BLOCK <= c
    ensures b !in blocks && b !in live
    ensures HeapOk(blocks[b := FirstCut(b, bytes)], list + multiset{(BLOCK - bytes, b + bytes)}, live[b := bytes])
  {
    hide *;
    NothingWithin(blocks, list, live, b);
    FirstCutOk(b, bytes);
    FirstCutListed(list, live, b, bytes);
    SetBlock(blocks, list, live, b, FirstCut(b, bytes), list + multiset{(BLOCK - bytes, b + bytes)}, live[b := bytes]);
  }

  lemma FirstCutOk(b: nat, bytes: nat)
    requires b > 0 && 0 < bytes < BLOCK
    ensures BlockOk(FirstCut(b, bytes), b)
  {
    var m := FirstCut(b, bytes);
    assert FragOk(m, b, b + BLOCK, b) && FragOk(m, b, b + BLOCK, b + bytes);
    assert b in Live(m);
  }

  lemma FirstCutListed(list: FreeList, live: map<nat, nat>, b: nat, bytes: nat)
    requires 0 < bytes < BLOCK
    requires forall e: (nat, nat) | Within(b, e.1) :: list[e] == 0
    requires forall a: nat | Within(b, a) :: a !in live
    ensures b !in live
    ensures var list' := list + multiset{(BLOCK - bytes, b + bytes)};
            Listed(FirstCut(b, bytes), list', b, b + BLOCK) && SameOutside(list, list', b, b + BLOCK)
    ensures TracksIn(FirstCut(b, bytes), live[b := bytes], b) && SameLiveOutside(live, live[b := bytes], b)
  {
  }

  lemma NothingWithin(blocks: Blocks, list: FreeList, live: map<nat, nat>, b: nat)
    requires HeapOk(blocks, list, live) && b > 0
    requires forall c | c in blocks :: c + BLOCK <= b || b + BLOCK <= c
    ensures b !in blocks
    ensures forall e: (nat, nat) | Within(b, e.1) :: list[e] == 0
    ensures forall a: nat | Within(b, a) :: a !in live
  {
    forall e | e in list ensures !Within(b, e.1) {
      var c :| c in blocks && Within(c, e.1);
    }
    forall a | a in live ensures !Within(b, a) {
      var c :| c in blocks && Within(c, a);
    }
  }

  /** The allocator's edits when a request is served from the front of a free fragment. */
  function TakeFront(m: FragMap, k: nat, bytes: nat): FragMap
    requires k in m && bytes <= m[k].size
  {
    var cut := m[k := Frag(bytes, false)];
    if m[k].size > bytes then cut[k + bytes := Frag(m[k].size - bytes, true)] else cut
  }

  /** The address handed out is recorded as in use exactly when the request is not for zero bytes:
      for zero bytes the fragment stays free and the same address can be handed out again. */
  lemma TakeFrontRecords(m: FragMap, lo: nat, hi: nat, k: nat, bytes: nat)
    requires Tiled(m, lo, hi) && k in m && m[k].free && bytes <= m[k].size
    ensures k in Live(TakeFront(m, k, bytes)) <==> bytes > 0
    ensures bytes > 0 ==> TakeFront(m, k, bytes) == Carve(m, k, k, bytes)
    ensures bytes == 0 ==> TakeFront(m, k, bytes) == m
  {
    assert FragOk(m, lo, hi, k);
  }

  // --------------------------------------------------------------------------
  // Taking a fragment back
  // --------------------------------------------------------------------------

  /** The block is left with a single fragment exactly when this was its last one handed out. */
  lemma ReleaseBlock(blocks: Blocks, list: FreeList, live: map<nat, nat>, b: nat, a: nat)
    requires HeapOk(blocks, list, live) && b in blocks && a in blocks[b] && !blocks[b][a].free
    ensures a in live && Within(b, a)
    ensures var r := Release(blocks[b], a);
            && MergeBase(blocks[b], a) in r
            && (|r| == 1 ==>
                  && r == map[b := Frag(BLOCK, true)]
                  && HeapOk(blocks - {b}, ReleaseRest(blocks[b], list, a), live - {a}))
            && (|r| != 1 ==> HeapOk(blocks[b := r], ReleaseList(blocks[b], list, a), live - {a}))
  {
    hide Tiled, Compacted, Listed, Release, ReleaseList, ReleaseRest, HeapOk, MergeBase, Live, TracksIn, SameLiveOutside;
    var m := blocks[b];
    var r := Release(m, a);
    HeapBlock(blocks, list, live, b);
    ReleaseTiled(m, b, b + BLOCK, a);
    ReleaseCompacted(m, b, b + BLOCK, a);
    ReleaseListed(m, b, b + BLOCK, list, a);
    ReleaseRestListed(m, b, b + BLOCK, list, a);
    ReleaseLive(m, b, b + BLOCK, a);
    LiveUntracks(m, r, live, b, a);
    SingleIffIdle(r, b);
    if |r| == 1 {
      NothingLeft(r, ReleaseRest(m, list, a), live - {a}, b);
      DropBlock(blocks, list, live, b, ReleaseRest(m, list, a), live - {a});
    } else {
      SetBlock(blocks, list, live, b, r, ReleaseList(m, list, a), live - {a});
    }
  }

  lemma LiveUntracks(m: FragMap, r: FragMap, live: map<nat, nat>, b: nat, a: nat)
    requires Tiled(m, b, b + BLOCK) && TracksIn(m, live, b) && a in m && !m[a].free && Live(r) == Live(m) - {a}
    ensures a in live && Within(b, a) && TracksIn(r, live - {a}, b) && SameLiveOutside(live, live - {a}, b)
  {
    assert FragOk(m, b, b + BLOCK, a);
    hide Tiled;
    var after := live - {a};
    assert Within(b, a) && a in live;
    forall x: nat {:trigger x in after} | Within(b, x)
      ensures (x in after <==> x in r && !r[x].free) && (x in after ==> after[x] == r[x].size)
    {
      assert x in live <==> x in Live(m);
      assert x in Live(r) <==> x in Live(m) && x != a;
    }
  }

  lemma SingleIffIdle(r: FragMap, b: nat)
    requires Tiled(r, b, b + BLOCK) && Compacted(r) && b > 0
    requires exists k :: k in r && r[k].free
    ensures |r| == 1 <==> Live(r) == map[]
    ensures |r| == 1 ==> r == map[b := Frag(BLOCK, true)]
  {
    if Live(r) == map[] {
      IdleIsOneFragment(r, b, b + BLOCK);
    }
    if |r| == 1 {
      assert FragOk(r, b, b + BLOCK, b);
      OnlyKey(r.Keys, b);
      assert Live(r) == map[];
    }
  }

  lemma OnlyKey(keys: set<nat>, b: nat)
    requires |keys| == 1 && b in keys
    ensures keys == {b}
  {
    var rest := keys - {b};
    assert |rest| == 0;
    assert keys == rest + {b};
  }

  lemma NothingLeft(r: FragMap, list: FreeList, live: map<nat, nat>, b: nat)
    requires r == map[b := Frag(BLOCK, true)]
    requires ListedBut(r, list, b, b + BLOCK, b) && TracksIn(r, live, b)
    ensures forall e | e in list :: !Within(b, e.1)
    ensures forall a | a in live :: !Within(b, a)
  {
  }
}
