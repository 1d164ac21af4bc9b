/** The node table as the library changes it: lookups that scan a node's links, the slot
    allocator, the indirect-link pass and the snapshot that fills the table. */
module NodeTables {
  import opened Common
  import opened TopologyLinks

  /** How many destinations of node a the pass has dealt with just before it reaches the pair (i, j). */
  function Progress(a: nat, i: nat, j: nat, n: nat): nat {
    if a < i then n else if a == i then j else if a < j then i + 1 else i
  }

  ghost predicate RoomyTable(nodes: seq<Node>) {
    KernelTable(nodes) && forall a | 0 <= a < |nodes| :: |nodes[a].slots| == |nodes| - 1
  }

  ghost function PartOf(orig: seq<Node>, a: nat, upto: nat): Node
    requires WellFormedTable(orig) && a < |orig| && upto <= |orig|
  {
    AppendAll(orig[a], NewLinks(orig, a, upto))
  }

  ghost predicate Reached(orig: seq<Node>, cur: seq<Node>, i: nat, j: nat)
    requires WellFormedTable(orig)
  {
    && |cur| == |orig| && i < j <= |orig|
    && forall a | 0 <= a < |orig| :: cur[a] == PartOf(orig, a, Progress(a, i, j, |orig|))
  }

  lemma PartExtendsNode(orig: seq<Node>, a: nat, upto: nat)
    requires WellFormedTable(orig) && a < |orig| && upto <= |orig|
    ensures NodeExtends(orig, a, PartOf(orig, a, upto))
  {
    AppendAllExtends(orig, a, upto);
  }

  lemma ReachedExtends(orig: seq<Node>, cur: seq<Node>, i: nat, j: nat)
    requires WellFormedTable(orig) && Reached(orig, cur, i, j)
    ensures Extends(orig, cur)
    ensures |cur| == |orig| && cur[i] == PartOf(orig, i, j) && (j < |orig| ==> cur[j] == PartOf(orig, j, i))
  {
    hide PartOf, NodeExtends;
    forall a | 0 <= a < |orig| ensures NodeExtends(orig, a, cur[a]) {
      PartExtendsNode(orig, a, Progress(a, i, j, |orig|));
    }
  }

  /** Dealing with one destination more moves a node from one prefix of its new links to the next. */
  lemma PartStep(orig: seq<Node>, a: nat, b: nat)
    requires WellFormedTable(orig) && a < |orig| && b < |orig|
    ensures var now := PartOf(orig, a, b);
            var new_ := NewLink(orig, a, b);
            PartOf(orig, a, b + 1) == if new_ == [] then now else Append(now, new_[0])
    ensures PartOf(orig, a, b).numLinks ==
            var all := orig[a].numLinks + |NewLinks(orig, a, b)|;
            if all <= |orig[a].slots| then all else |orig[a].slots|
  {
    hide NewLink;
    var ls, one := NewLinks(orig, a, b), NewLink(orig, a, b);
    if one == [] {
      assert ls + one == ls;
    } else {
      assert one == [one[0]];
      AppendOne(orig[a], ls, one[0]);
    }
    LinksOfAppendAll(orig[a], ls);
    assert |Links(PartOf(orig, a, b))| == PartOf(orig, a, b).numLinks;
  }

  /** A node composes no link to itself, so its own turn changes nothing. */
  lemma PartSkipsSelf(orig: seq<Node>, a: nat)
    requires WellFormedTable(orig) && a < |orig|
    ensures PartOf(orig, a, a + 1) == PartOf(orig, a, a)
  {
    PartStep(orig, a, a);
  }

  lemma ReachedStep(orig: seq<Node>, cur: seq<Node>, i: nat, j: nat)
    requires WellFormedTable(orig) && Reached(orig, cur, i, j) && j < |orig|
    ensures Reached(orig, cur[i := PartOf(orig, i, j + 1)][j := PartOf(orig, j, i + 1)], i, j + 1)
  {
    hide PartOf;
  }

  lemma ReachedNextRow(orig: seq<Node>, cur: seq<Node>, i: nat)
    requires WellFormedTable(orig) && Reached(orig, cur, i, |orig|) && i + 1 < |orig|
    ensures Reached(orig, cur, i + 1, i + 2)
  {
    hide PartOf;
    PartSkipsSelf(orig, i + 1);
  }

  lemma ReachedEnd(orig: seq<Node>, cur: seq<Node>)
    requires WellFormedTable(orig) && |orig| >= 1 && Reached(orig, cur, |orig| - 1, |orig|)
    ensures cur == WithIndirectLinks(orig)
  {
  }

  lemma ReachedStart(orig: seq<Node>)
    requires RoomyTable(orig) && |orig| >= 1
    ensures WellFormedTable(orig) && Reached(orig, orig, 0, 1)
  {
    PartSkipsSelf(orig, 0);
    hide NewLink;
  }

  /** The add for (a, b) is refused exactly when the slots of a are already full. */
  ghost predicate Overflows(orig: seq<Node>, a: nat)
    requires WellFormedTable(orig) && a < |orig|
  {
    orig[a].numLinks + |NewLinks(orig, a, |orig|)| > |orig[a].slots|
  }

  /** What the pass is told about (a, b) midway, and what acting on it does to node a. */
  lemma AnswerIsNewLink(orig: seq<Node>, cur: seq<Node>, a: nat, b: nat)
    requires RoomyTable(orig) && Extends(orig, cur) && a < |orig| && b < |orig|
    requires cur[a] == PartOf(orig, a, b)
    ensures |cur| == |orig| && WellFormedTable(cur) && WellFormed(cur[a]) && |cur[a].slots| == |cur| - 1
    ensures var c := Compose(cur, a, b);
            var w := StoredWeight(c);
            && (w == 0 ==> PartOf(orig, a, b + 1) == cur[a])
            && (w != 0 ==> c.Route? && PartOf(orig, a, b + 1) == Append(cur[a], Link(c.kind, a, b, w)))
            && (w != 0 && cur[a].numLinks >= |cur| - 1 ==> Overflows(orig, a))
  {
    hide Compose, AppendAll, NewLinks;
    ComposeStable(orig, cur, a, b);
    PartStep(orig, a, b);
    assert NodeExtends(orig, a, cur[a]);
    if NewLink(orig, a, b) != [] { NewLinksCount(orig, a, b); }
  }

  lemma NewLinksCount(orig: seq<Node>, a: nat, b: nat)
    requires WellFormedTable(orig) && a < |orig| && b < |orig| && NewLink(orig, a, b) != []
    ensures |NewLinks(orig, a, b)| < |NewLinks(orig, a, |orig|)|
  {
    hide NewLink;
    NewLinksGrow(orig, a, b + 1, |orig|);
  }

  lemma NothingOverflows(orig: seq<Node>, a: nat)
    requires RoomyTable(orig) && AttachedTable(orig) && a < |orig|
    ensures !Overflows(orig, a)
  {
    SlotsSuffice(orig, a);
  }

  lemma PartExtends(orig: seq<Node>, cur: seq<Node>, a: nat, upto: nat)
    requires WellFormedTable(orig) && Extends(orig, cur) && a < |orig| && upto <= |orig|
    ensures Extends(orig, cur[a := PartOf(orig, a, upto)])
  {
    PartExtendsNode(orig, a, upto);
    hide PartOf, NodeExtends;
  }

  // --------------------------------------------------------------------------
  // The snapshot of one CPU and n adapters
  // --------------------------------------------------------------------------

  function SnapshotSlots(deviceIds: seq<nat>, i: nat): (slots: seq<Link>)
    requires 1 <= i <= |deviceIds|
  {
    seq(|deviceIds|, _ => EMPTY_SLOT)[0 := Link(PciExpress, i, 0, DIRECT_PCIE_WEIGHT)]
  }

  function SnapshotNode(deviceIds: seq<nat>, i: nat): Node
    requires i <= |deviceIds|
  {
    if i == 0 then Node(0, 0, [SystemHeap], seq(|deviceIds|, _ => EMPTY_SLOT), 0)
    else Node(deviceIds[i - 1], 0, [FrameBufferPrivate], SnapshotSlots(deviceIds, i), 1)
  }

  /** One link per GPU, to node 0 with weight 20, and none for the CPU node. */
  function Snapshot(deviceIds: seq<nat>): (nodes: seq<Node>)
    requires |deviceIds| >= 1
  {
    seq(|deviceIds| + 1, i requires 0 <= i <= |deviceIds| => SnapshotNode(deviceIds, i))
  }

  lemma SnapshotLinks(deviceIds: seq<nat>, i: nat)
    requires |deviceIds| >= 1 && i <= |deviceIds|
    ensures var n := SnapshotNode(deviceIds, i);
            && WellFormed(n) && |n.slots| == |deviceIds|
            && Links(n) == (if i == 0 then [] else [Link(PciExpress, i, 0, DIRECT_PCIE_WEIGHT)])
            && DirectCpu(n) == (if i == 0 || deviceIds[i - 1] == 0 then -1 else 0)
  {
  }

  lemma SnapshotRoutesNothing(deviceIds: seq<nat>, a: nat, b: nat)
    requires |deviceIds| >= 1 && a <= |deviceIds| && b <= |deviceIds|
    requires WellFormedTable(Snapshot(deviceIds))
    ensures Compose(Snapshot(deviceIds), a, b).NoRoute?
  {
  }

  lemma {:induction false} SnapshotAddsNothing(deviceIds: seq<nat>, a: nat, upto: nat)
    requires |deviceIds| >= 1 && a <= |deviceIds| && upto <= |deviceIds| + 1
    requires WellFormedTable(Snapshot(deviceIds))
    ensures NewLinks(Snapshot(deviceIds), a, upto) == []
  {
    hide Compose, Snapshot;
    assert |Snapshot(deviceIds)| == |deviceIds| + 1 by { SnapshotSize(deviceIds); }
    if upto > 0 {
      SnapshotAddsNothing(deviceIds, a, upto - 1);
      SnapshotRoutesNothing(deviceIds, a, upto - 1);
    }
  }

  lemma SnapshotSize(deviceIds: seq<nat>)
    requires |deviceIds| >= 1
    ensures |Snapshot(deviceIds)| == |deviceIds| + 1
  {
  }

  /** A snapshot is a table the pass accepts, and the pass leaves it as it is. */
  lemma SnapshotQuiet(deviceIds: seq<nat>)
    requires |deviceIds| >= 1
    ensures RoomyTable(Snapshot(deviceIds)) && AttachedTable(Snapshot(deviceIds))
    ensures WithIndirectLinks(Snapshot(deviceIds)) == Snapshot(deviceIds)
  {
    var nodes := Snapshot(deviceIds);
    forall i | 0 <= i < |nodes|
      ensures WellFormed(nodes[i]) && DirectCpu(nodes[i]) <= 0 && |nodes[i].slots| == |deviceIds|
    {
      SnapshotLinks(deviceIds, i);
    }
    assert WellFormedTable(nodes);
    SnapshotKernelTable(deviceIds);
    forall a | 0 <= a < |nodes| ensures AppendAll(nodes[a], NewLinks(nodes, a, |nodes|)) == nodes[a] {
      SnapshotAddsNothing(deviceIds, a, |nodes|);
    }
  }

  lemma SnapshotKernelTable(deviceIds: seq<nat>)
    requires |deviceIds| >= 1 && WellFormedTable(Snapshot(deviceIds))
    ensures KernelTable(Snapshot(deviceIds)) && AttachedTable(Snapshot(deviceIds))
  {
    hide Compose;
    var nodes := Snapshot(deviceIds);
    forall a | 0 <= a < |nodes| ensures KernelNode(nodes, a) && AttachedNode(nodes, a) {
      SnapshotLinks(deviceIds, a);
      assert forall k | 0 <= k < nodes[a].numLinks :: nodes[a].slots[k] == Links(nodes[a])[k];
    }
    forall a, b | 0 <= a < |nodes| && 0 <= b < |nodes| ensures NoWrap(nodes, a, b) {
      SnapshotRoutesNothing(deviceIds, a, b);
    }
  }

  class NodeTable {
    var nodes: seq<Node>

    constructor (table: seq<Node>)
      ensures nodes == table
    {
      nodes := table;
    }

    method GpuDirectLinkCpu(gpu: nat) returns (cpu: int)
      requires gpu < |nodes| && WellFormed(nodes[gpu])
      ensures cpu == DirectCpu(nodes[gpu])
    {
      var n := nodes[gpu];
      if n.gpuId == 0 || |n.slots| == 0 || n.numLinks == 0 { return -1; }
      var i := 0;
      while i < n.numLinks
        invariant 0 <= i <= n.numLinks
        invariant FirstPcie(Links(n)) == FirstPcie(Links(n)[i..])
      {
        if n.slots[i].kind == PciExpress && n.slots[i].weight <= DIRECT_PCIE_WEIGHT {
          return n.slots[i].to;
        }
        assert Links(n)[i..][1..] == Links(n)[i + 1..];
        i := i + 1;
      }
      return -1;
    }

    method DirectIoLinkInfo(a: nat, to: nat) returns (r: Lookup)
      requires a < |nodes| && WellFormed(nodes[a])
      ensures r == Direct(nodes[a], to)
    {
      var n := nodes[a];
      if |n.slots| == 0 { return Missing(InvalidNodeUnit); }
      var i := 0;
      while i < n.numLinks
        invariant 0 <= i <= n.numLinks
        invariant FirstTo(Links(n), to) == FirstTo(Links(n)[i..], to)
      {
        if n.slots[i].to == to { return Found(n.slots[i]); }
        assert Links(n)[i..][1..] == Links(n)[i + 1..];
        i := i + 1;
      }
      return Missing(InvalidParameter);
    }

    method HasLargeBar(b: nat) returns (r: bool)
      requires b < |nodes|
      ensures r == HasPublicBank(nodes[b])
    {
      var i := 0;
      while i < |nodes[b].banks|
        invariant 0 <= i <= |nodes[b].banks|
        invariant forall k | 0 <= k < i :: nodes[b].banks[k] != FrameBufferPublic
      {
        if nodes[b].banks[i] == FrameBufferPublic { return true; }
        i := i + 1;
      }
      return false;
    }

    /** The weight is non-zero only for a route; a failed question leaves it at zero. */
    method IndirectIoLinkInfo(a: nat, b: nat) returns (status: Status, weight: nat, kind: LinkType)
      requires WellFormedTable(nodes) && a < |nodes| && b < |nodes|
      ensures var c := Compose(nodes, a, b);
              && weight == StoredWeight(c)
              && (c.NoRoute? ==> status == c.why)
              && (c.Route? ==> status == Success && kind == c.kind)
    {
      weight, kind := 0, Undefined;
      if a == b { return InvalidParameter, weight, kind; }
      if nodes[a].gpuId == 0 && nodes[b].gpuId == 0 { return InvalidNodeUnit, weight, kind; }
      if nodes[a].hiveId != 0 && nodes[b].hiveId != 0 && nodes[a].hiveId == nodes[b].hiveId {
        return InvalidParameter, weight, kind;
      }
      var cpuA, cpuB := -1, -1;
      if nodes[a].gpuId != 0 { cpuA := GpuDirectLinkCpu(a); }
      if nodes[b].gpuId != 0 { cpuB := GpuDirectLinkCpu(b); }
      if cpuA < 0 && cpuB < 0 { return Error, weight, kind; }
      if nodes[b].gpuId != 0 {
        var large := HasLargeBar(b);
        if !large { return Error, weight, kind; }
      }
      var weight1, weight2, weight3 := 0, 0, 0;
      if cpuA >= 0 {
        var first := DirectIoLinkInfo(a, cpuA);
        if first.Missing? { return first.why, weight, kind; }
        weight1 := first.link.weight;
        if cpuB >= 0 && cpuA != cpuB {
          var middle := DirectIoLinkInfo(cpuA, cpuB);
          if middle.Missing? { return middle.why, weight, kind; }
          weight2, kind := middle.link.weight, middle.link.kind;
          if kind == Qpi && weight2 > QPI_SOCKET_WEIGHT { return NotSupported, weight, kind; }
          var last := DirectIoLinkInfo(cpuB, b);
          if last.Missing? { return last.why, weight, kind; }
          weight3 := last.link.weight;
        } else {
          var last := DirectIoLinkInfo(cpuA, b);
          if last.Missing? { return last.why, weight, kind; }
          weight2, kind := last.link.weight, last.link.kind;
        }
      } else {
        var middle := DirectIoLinkInfo(a, cpuB);
        if middle.Missing? { return middle.why, weight, kind; }
        weight2, kind := middle.link.weight, middle.link.kind;
        var last := DirectIoLinkInfo(cpuB, b);
        if last.Missing? { return last.why, weight, kind; }
        weight3 := last.link.weight;
      }
      weight := (weight1 + weight2 + weight3) % UINT32_RANGE;
      return Success, weight, kind;
    }

    method AddIoLink(from: nat, kind: LinkType, to: nat, weight: nat) returns (status: Status)
      requires from < |nodes| && WellFormed(nodes[from]) && |nodes[from].slots| == |nodes| - 1
      modifies this
      ensures nodes == old(nodes)[from := Append(old(nodes)[from], Link(kind, from, to, weight))]
      ensures status == if old(nodes)[from].numLinks < |nodes| - 1 then Success else NoMemory
    {
      var n := nodes[from];
      if |n.slots| == 0 || n.numLinks >= |nodes| - 1 { return NoMemory; }
      nodes := nodes[from := n.(slots := n.slots[n.numLinks := Link(kind, from, to, weight)], numLinks := n.numLinks + 1)];
      return Success;
    }

    /** One direction of one pair: ask, and append if there is a route. */
    method TryAdd(a: nat, b: nat, ghost orig: seq<Node>) returns (refused: bool)
      requires RoomyTable(orig) && Extends(orig, nodes) && a < |orig| && b < |orig|
      requires nodes[a] == PartOf(orig, a, b)
      modifies this
      ensures nodes == old(nodes)[a := PartOf(orig, a, b + 1)]
      ensures refused ==> Overflows(orig, a)
    {
      hide *;
      AnswerIsNewLink(orig, nodes, a, b);
      var status, weight, kind := IndirectIoLinkInfo(a, b);
      refused := false;
      if weight != 0 {
        status := AddIoLink(a, kind, b, weight);
        refused := status != Success;
      }
    }

    /** The pass over all pairs.  The table it leaves is the original one with, per node, the
        links composed on the ORIGINAL table; `dropped` counts the adds reported as failed. */
    method CreateIndirectGpuLinks() returns (dropped: nat)
      requires RoomyTable(nodes) && |nodes| >= 1
      modifies this
      ensures nodes == WithIndirectLinks(old(nodes))
      ensures AttachedTable(old(nodes)) ==> dropped == 0
    {
      hide *;
      ghost var orig := nodes;
      dropped := 0;
      ReachedStart(orig);
      var i := 0;
      while i < |nodes| - 1
        invariant 0 <= i < |orig| == |nodes| && Reached(orig, nodes, i, i + 1)
        invariant dropped > 0 ==> exists a :: 0 <= a < |orig| && Overflows(orig, a)
      {
        var j := i + 1;
        while j < |nodes|
          invariant i < j <= |orig| == |nodes| && Reached(orig, nodes, i, j)
          invariant dropped > 0 ==> exists a :: 0 <= a < |orig| && Overflows(orig, a)
        {
          ghost var before := nodes;
          ReachedExtends(orig, nodes, i, j);
          var refused := TryAdd(i, j, orig);
          if refused { dropped := dropped + 1; }
          PartExtends(orig, before, i, j + 1);
          refused := TryAdd(j, i, orig);
          if refused { dropped := dropped + 1; }
          ReachedStep(orig, before, i, j);
          j := j + 1;
        }
        ReachedNextRow(orig, nodes, i);
        i := i + 1;
      }
      ReachedEnd(orig, nodes);
      if AttachedTable(orig) {
        forall a | 0 <= a < |orig| ensures !Overflows(orig, a) { NothingOverflows(orig, a); }
      }
    }

    /** Fill the table for one CPU node and one GPU node per adapter, then run the pass. */
    method TakeSnapshot(deviceIds: seq<nat>) returns (dropped: nat)
      requires |deviceIds| >= 1
      modifies this
      ensures nodes == Snapshot(deviceIds)
      ensures dropped == 0
    {
      var numNodes := |deviceIds| + 1;
      nodes := [];
      var i := 0;
      while i < numNodes
        invariant 0 <= i <= numNodes && |nodes| == i
        invariant forall a | 0 <= a < i :: nodes[a] == SnapshotNode(deviceIds, a)
      {
        var gpuId, numIoLinks := 0, 0;
        if i != 0 { gpuId, numIoLinks := deviceIds[i - 1], 1; }
        var bank := if i == 0 then SystemHeap else FrameBufferPrivate;
        var slots := seq(numNodes - 1, _ => EMPTY_SLOT);
        var linkId, sysLinkId := 0, 0;
        while sysLinkId < numIoLinks && linkId < numNodes - 1
          invariant linkId == sysLinkId <= numIoLinks
          invariant slots == if linkId == 0 then seq(numNodes - 1, _ => EMPTY_SLOT) else SnapshotSlots(deviceIds, i)
        {
          slots := slots[linkId := Link(PciExpress, i, 0, DIRECT_PCIE_WEIGHT)];
          sysLinkId := sysLinkId + 1;
          linkId := linkId + 1;
        }
        nodes := nodes + [Node(gpuId, 0, [bank], slots, linkId)];
        i := i + 1;
      }
      assert nodes == Snapshot(deviceIds);
      SnapshotQuiet(deviceIds);
      dropped := CreateIndirectGpuLinks();
    }

    /** The caller's buffer gets a prefix of the node's links: the copy never runs past the link vector. */
    method GetNodeIoLinks(id: nat, want: nat) returns (status: Status, copy: seq<Link>)
      requires forall a | 0 <= a < |nodes| :: WellFormed(nodes[a])
      ensures status == Success <==> id < |nodes| && want <= |Links(nodes[id])|
      ensures status == Success ==> copy == Links(nodes[id])[..want]
      ensures status != Success ==> copy == []
      ensures status == InvalidNodeUnit <==> id >= |nodes|
      ensures status == InvalidParameter <==> id < |nodes| && want > |Links(nodes[id])|
    {
      if id >= |nodes| { return InvalidNodeUnit, []; }
      if want > nodes[id].numLinks { return InvalidParameter, []; }
      copy := nodes[id].slots[..want];
      assert copy == Links(nodes[id])[..want];
      return Success, copy;
    }
  }
}
