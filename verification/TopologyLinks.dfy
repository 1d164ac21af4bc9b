/** The io-link part of the node topology: direct-link lookups, the composition of an
    indirect link out of up to three direct ones, and the in-place pass that appends the
    composed links to the very table it keeps reading.  */
module TopologyLinks {

  import opened Common

  const DIRECT_PCIE_WEIGHT: nat := 20
  const QPI_SOCKET_WEIGHT: nat := 20

  datatype LinkType = Undefined | PciExpress | Qpi | OtherLink(code: nat)

  datatype HeapType = SystemHeap | FrameBufferPublic | FrameBufferPrivate | OtherHeap(code: nat)

  datatype Link = Link(kind: LinkType, from: nat, to: nat, weight: nat)

  const EMPTY_SLOT := Link(Undefined, 0, 0, 0)

  /** `slots` is the preallocated link vector, of which the first `numLinks` entries are in use. */
  datatype Node = Node(gpuId: nat, hiveId: nat, banks: seq<HeapType>, slots: seq<Link>, numLinks: nat)

  predicate WellFormed(n: Node) {
    n.numLinks <= |n.slots|
  }

  /** The links of a node, as every reader of the table sees them. */
  function Links(n: Node): seq<Link>
    requires WellFormed(n)
  {
    n.slots[..n.numLinks]
  }

  predicate IsDirectPcie(l: Link) {
    l.kind == PciExpress && l.weight <= DIRECT_PCIE_WEIGHT
  }

  // --------------------------------------------------------------------------
  // What a lookup means
  // --------------------------------------------------------------------------

  function FirstPcie(links: seq<Link>): (r: int)
    ensures r >= -1
  {
    if links == [] then -1
    else if IsDirectPcie(links[0]) then links[0].to
    else FirstPcie(links[1..])
  }

  /** The CPU a GPU hangs off, or -1. */
  function DirectCpu(n: Node): int
    requires WellFormed(n)
  {
    if n.gpuId == 0 then -1 else FirstPcie(Links(n))
  }

  datatype Lookup = Found(link: Link) | Missing(why: Status)

  function FirstTo(links: seq<Link>, to: int): Lookup {
    if links == [] then Missing(InvalidParameter)
    else if links[0].to == to then Found(links[0])
    else FirstTo(links[1..], to)
  }

  function Direct(n: Node, to: int): Lookup
    requires WellFormed(n)
  {
    if |n.slots| == 0 then Missing(InvalidNodeUnit) else FirstTo(Links(n), to)
  }

  predicate HasPublicBank(n: Node) {
    exists i | 0 <= i < |n.banks| :: n.banks[i] == FrameBufferPublic
  }

  predicate WellFormedTable(nodes: seq<Node>) {
    && (forall a | 0 <= a < |nodes| :: WellFormed(nodes[a]))
    // a direct CPU is an index into the table
    && (forall a | 0 <= a < |nodes| :: DirectCpu(nodes[a]) < |nodes|)
  }

  datatype Composed = Route(sum: nat, kind: LinkType) | NoRoute(why: Status)

  /** The route from a to b over direct links, its weights added without a machine width. */
  function Compose(nodes: seq<Node>, a: nat, b: nat): Composed
    requires WellFormedTable(nodes) && a < |nodes| && b < |nodes|
  {
    var cpuA, cpuB := DirectCpu(nodes[a]), DirectCpu(nodes[b]);
    if a == b then NoRoute(InvalidParameter)
    else if nodes[a].gpuId == 0 && nodes[b].gpuId == 0 then NoRoute(InvalidNodeUnit)
    else if nodes[a].hiveId != 0 && nodes[a].hiveId == nodes[b].hiveId then NoRoute(InvalidParameter)
    else if cpuA < 0 && cpuB < 0 then NoRoute(Error)
    else if nodes[b].gpuId != 0 && !HasPublicBank(nodes[b]) then NoRoute(Error)
    else if cpuA >= 0 && (cpuB < 0 || cpuA == cpuB) then
      Chain(Direct(nodes[a], cpuA), Direct(nodes[cpuA], b), Found(Link(Undefined, 0, 0, 0)))
    else if cpuA >= 0 then
      var hop := Direct(nodes[cpuA], cpuB);
      if Direct(nodes[a], cpuA).Found? && hop.Found? && hop.link.kind == Qpi && hop.link.weight > QPI_SOCKET_WEIGHT
      then NoRoute(NotSupported)
      else Chain(Direct(nodes[a], cpuA), hop, Direct(nodes[cpuB], b))
    else
      Chain(Found(Link(Undefined, 0, 0, 0)), Direct(nodes[a], cpuB), Direct(nodes[cpuB], b))
  }

  /** The middle hop gives the route its type. */
  function Chain(first: Lookup, middle: Lookup, last: Lookup): Composed {
    if first.Missing? then NoRoute(first.why)
    else if middle.Missing? then NoRoute(middle.why)
    else if last.Missing? then NoRoute(last.why)
    else Route(first.link.weight + middle.link.weight + last.link.weight, middle.link.kind)
  }

  /** The weight the library stores: a 32-bit sum, 0 standing for "no link". */
  function StoredWeight(c: Composed): nat {
    if c.Route? then c.sum % UINT32_RANGE else 0
  }

  function NewLink(nodes: seq<Node>, a: nat, b: nat): (ls: seq<Link>)
    requires WellFormedTable(nodes) && a < |nodes| && b < |nodes|
    ensures |ls| <= 1 && (ls != [] ==> a != b && ls == [ls[0]] && ls[0].from == a && ls[0].to == b)
  {
    var c := Compose(nodes, a, b);
    if StoredWeight(c) == 0 then [] else [Link(c.kind, a, b, StoredWeight(c))]
  }

  /** The indirect links of node a to the nodes below `upto`, in loop order, all read off one fixed table. */
  function NewLinks(nodes: seq<Node>, a: nat, upto: nat): seq<Link>
    requires WellFormedTable(nodes) && a < |nodes| && upto <= |nodes|
  {
    if upto == 0 then [] else NewLinks(nodes, a, upto - 1) + NewLink(nodes, a, upto - 1)
  }

  function Append(n: Node, l: Link): Node
    requires WellFormed(n)
  {
    if n.numLinks < |n.slots| then n.(slots := n.slots[n.numLinks := l], numLinks := n.numLinks + 1) else n
  }

  function AppendAll(n: Node, ls: seq<Link>): (r: Node)
    requires WellFormed(n)
    ensures WellFormed(r) && |r.slots| == |n.slots|
    ensures r.gpuId == n.gpuId && r.hiveId == n.hiveId && r.banks == n.banks
    decreases |ls|
  {
    if ls == [] then n else Append(AppendAll(n, ls[..|ls| - 1]), ls[|ls| - 1])
  }

  /** The table after the whole pass, computed from the original table alone. */
  function WithIndirectLinks(nodes: seq<Node>): seq<Node>
    requires WellFormedTable(nodes)
  {
    seq(|nodes|, a requires 0 <= a < |nodes| => AppendAll(nodes[a], NewLinks(nodes, a, |nodes|)))
  }

  // --------------------------------------------------------------------------
  // What a route is
  // --------------------------------------------------------------------------

  /** l is the first link of the node to that destination. */
  ghost predicate FirstLink(links: seq<Link>, to: int, l: Link) {
    exists k :: 0 <= k < |links| && links[k] == l && l.to == to && forall j | 0 <= j < k :: links[j].to != to
  }

  lemma {:induction false} FirstToMeans(links: seq<Link>, to: int, l: Link)
    ensures FirstTo(links, to) == Found(l) <==> FirstLink(links, to, l)
  {
    if links != [] {
      FirstToMeans(links[1..], to, l);
      assert forall j | 0 < j < |links| :: links[j] == links[1..][j - 1];
      if links[0].to == to {
        if FirstLink(links, to, l) { assert links[0] == l; }
        if links[0] == l { assert FirstLink(links, to, l); }
      } else {
        if FirstLink(links, to, l) {
          var k :| 0 <= k < |links| && links[k] == l && l.to == to && forall j | 0 <= j < k :: links[j].to != to;
          assert links[1..][k - 1] == l && forall j | 0 <= j < k - 1 :: links[1..][j] == links[j + 1];
          assert FirstLink(links[1..], to, l);
        }
        if FirstLink(links[1..], to, l) {
          var k :| 0 <= k < |links[1..]| && links[1..][k] == l && l.to == to && forall j | 0 <= j < k :: links[1..][j].to != to;
          assert links[k + 1] == l;
        }
      }
    }
  }

  /** The CPU a GPU hangs off is where its first PCIe link of weight at most 20 leads. */
  lemma {:induction false} FirstPcieMeans(links: seq<Link>, k: nat)
    requires k < |links| && links[k].kind == PciExpress && links[k].weight <= 20
    requires forall j | 0 <= j < k :: !(links[j].kind == PciExpress && links[j].weight <= 20)
    ensures FirstPcie(links) == links[k].to
  {
    if k > 0 {
      assert forall j | 0 <= j < |links[1..]| :: links[1..][j] == links[j + 1];
      FirstPcieMeans(links[1..], k - 1);
    }
  }

  /** From a over the CPUs the two ends hang off to b. */
  function PathOf(nodes: seq<Node>, a: nat, b: nat): (path: seq<nat>)
    requires WellFormedTable(nodes) && a < |nodes| && b < |nodes|
    ensures forall i | 0 <= i < |path| :: path[i] < |nodes|
  {
    var cpuA, cpuB := DirectCpu(nodes[a]), DirectCpu(nodes[b]);
    [a] + (if cpuA >= 0 then [cpuA] else []) + (if cpuB >= 0 && cpuB != cpuA then [cpuB] else []) + [b]
  }

  /** One direct link for each hop. */
  ghost predicate LinksPath(nodes: seq<Node>, path: seq<nat>, ls: seq<Link>)
    requires forall i | 0 <= i < |path| :: path[i] < |nodes| && WellFormed(nodes[path[i]])
  {
    |path| == |ls| + 1 && forall i | 0 <= i < |ls| :: FirstLink(Links(nodes[path[i]]), path[i + 1], ls[i])
  }

  function TotalWeight(ls: seq<Link>): nat {
    if ls == [] then 0 else ls[0].weight + TotalWeight(ls[1..])
  }

  /** Two different nodes, not both CPUs, not of one hive, at least one of them on a CPU, and the far end with a
      memory bank the host can see. */
  ghost predicate MayRoute(nodes: seq<Node>, a: nat, b: nat)
    requires WellFormedTable(nodes) && a < |nodes| && b < |nodes|
  {
    && a != b && (nodes[a].gpuId != 0 || nodes[b].gpuId != 0)
    && (nodes[a].hiveId == 0 || nodes[a].hiveId != nodes[b].hiveId)
    && (DirectCpu(nodes[a]) >= 0 || DirectCpu(nodes[b]) >= 0)
    && (nodes[b].gpuId == 0 || exists i :: 0 <= i < |nodes[b].banks| && nodes[b].banks[i] == FrameBufferPublic)
  }

  /** These links make the route: each hop has one, the two CPUs are not too far apart, the weights add up, and
      the hop that leaves a's CPU gives the type. */
  ghost predicate IsRoute(nodes: seq<Node>, a: nat, b: nat, ls: seq<Link>, r: Composed)
    requires WellFormedTable(nodes) && a < |nodes| && b < |nodes|
  {
    && LinksPath(nodes, PathOf(nodes, a, b), ls)
    && (|ls| == 3 ==> !(ls[1].kind == Qpi && ls[1].weight > 20))
    && |ls| >= 2 && r == Route(TotalWeight(ls), ls[if DirectCpu(nodes[a]) >= 0 then 1 else 0].kind)
  }

  /** A composed route is exactly a path of direct links over the CPUs of its two ends. */
  lemma RouteIff(nodes: seq<Node>, a: nat, b: nat, r: Composed)
    requires WellFormedTable(nodes) && a < |nodes| && b < |nodes| && r.Route?
    ensures Compose(nodes, a, b) == r <==> MayRoute(nodes, a, b) && exists ls :: IsRoute(nodes, a, b, ls, r)
  {
    hide FirstTo, FirstLink;
    if Compose(nodes, a, b) == r {
      var ls := RouteLinks(nodes, a, b, r);
    }
    if ls :| MayRoute(nodes, a, b) && IsRoute(nodes, a, b, ls, r) { RouteOfLinks(nodes, a, b, ls, r); }
  }

  lemma HopFound(nodes: seq<Node>, x: nat, y: nat, l: Link)
    requires x < |nodes| && WellFormed(nodes[x])
    ensures Direct(nodes[x], y) == Found(l) <==> FirstLink(Links(nodes[x]), y, l)
  {
    FirstToMeans(Links(nodes[x]), y, l);
  }

  lemma RouteLinks(nodes: seq<Node>, a: nat, b: nat, r: Composed) returns (ls: seq<Link>)
    requires WellFormedTable(nodes) && a < |nodes| && b < |nodes| && r.Route? && Compose(nodes, a, b) == r
    ensures MayRoute(nodes, a, b) && IsRoute(nodes, a, b, ls, r)
  {
    hide FirstLink, Direct;
    var path := PathOf(nodes, a, b);
    var l0, l1 := Direct(nodes[path[0]], path[1]).link, Direct(nodes[path[1]], path[2]).link;
    HopFound(nodes, path[0], path[1], l0);
    HopFound(nodes, path[1], path[2], l1);
    if |path| == 3 {
      ls := [l0, l1];
      TwoHops(l0, l1);
    } else {
      var l2 := Direct(nodes[path[2]], path[3]).link;
      HopFound(nodes, path[2], path[3], l2);
      ls := [l0, l1, l2];
      ThreeHops(l0, l1, l2);
    }
  }

  lemma RouteOfLinks(nodes: seq<Node>, a: nat, b: nat, ls: seq<Link>, r: Composed)
    requires WellFormedTable(nodes) && a < |nodes| && b < |nodes| && r.Route?
    requires MayRoute(nodes, a, b) && IsRoute(nodes, a, b, ls, r)
    ensures Compose(nodes, a, b) == r
  {
    hide FirstLink, Direct;
    var path := PathOf(nodes, a, b);
    HopFound(nodes, path[0], path[1], ls[0]);
    HopFound(nodes, path[1], path[2], ls[1]);
    if |ls| == 2 {
      TwoHops(ls[0], ls[1]);
      assert ls == [ls[0], ls[1]];
    } else {
      HopFound(nodes, path[2], path[3], ls[2]);
      ThreeHops(ls[0], ls[1], ls[2]);
      assert ls == [ls[0], ls[1], ls[2]];
    }
  }

  /** The link a route becomes: its weight is kept in 32 bits, and a weight that wraps to 0 is no link. */
  lemma NewLinkMeans(nodes: seq<Node>, a: nat, b: nat)
    requires WellFormedTable(nodes) && a < |nodes| && b < |nodes|
    ensures var c := Compose(nodes, a, b);
            if c.Route? && c.sum % 0x1_0000_0000 != 0
            then NewLink(nodes, a, b) == [Link(c.kind, a, b, c.sum % 0x1_0000_0000)]
            else NewLink(nodes, a, b) == []
  {
  }

  lemma TwoHops(a: Link, b: Link)
    ensures TotalWeight([a, b]) == a.weight + b.weight
  {
    assert [a, b][1..] == [b] && [b][1..] == [];
    assert TotalWeight([b]) == b.weight + TotalWeight([]);
  }

  lemma ThreeHops(a: Link, b: Link, c: Link)
    ensures TotalWeight([a, b, c]) == a.weight + b.weight + c.weight
  {
    assert [a, b, c][1..] == [b, c];
    TwoHops(b, c);
  }

  // --------------------------------------------------------------------------
  // Confluence: links added midway never change a later answer
  // --------------------------------------------------------------------------

  /** What the kernel's tables satisfy: no self-links, a GPU's cheap PCIe link leads to a CPU node,
      and no composed weight leaves 32 bits. */
  ghost predicate KernelTable(nodes: seq<Node>) {
    && WellFormedTable(nodes)
    && (forall a | 0 <= a < |nodes| :: KernelNode(nodes, a))
    && (forall a, b | 0 <= a < |nodes| && 0 <= b < |nodes| :: NoWrap(nodes, a, b))
  }

  ghost predicate KernelNode(nodes: seq<Node>, a: nat)
    requires WellFormedTable(nodes) && a < |nodes|
  {
    && (forall k | 0 <= k < nodes[a].numLinks :: nodes[a].slots[k].to != a)
    && (DirectCpu(nodes[a]) >= 0 ==> nodes[DirectCpu(nodes[a])].gpuId == 0)
  }

  ghost predicate NoWrap(nodes: seq<Node>, a: nat, b: nat)
    requires WellFormedTable(nodes) && a < |nodes| && b < |nodes|
  {
    Compose(nodes, a, b).Route? ==> Compose(nodes, a, b).sum < UINT32_RANGE
  }

  /** `l` is a link the pass may add to node a. */
  ghost predicate Addable(orig: seq<Node>, a: nat, l: Link)
    requires WellFormedTable(orig) && a < |orig|
  {
    && l.to < |orig| && NewLink(orig, a, l.to) == [l]
  }

  ghost predicate NodeExtends(orig: seq<Node>, a: nat, n: Node)
    requires WellFormedTable(orig) && a < |orig|
  {
    && WellFormed(n)
    && n.gpuId == orig[a].gpuId && n.hiveId == orig[a].hiveId && n.banks == orig[a].banks
    && |n.slots| == |orig[a].slots|
    && orig[a].numLinks <= n.numLinks
    && Links(n)[..orig[a].numLinks] == Links(orig[a])
    && forall k | orig[a].numLinks <= k < n.numLinks :: Addable(orig, a, n.slots[k])
  }

  /** Some, but not necessarily all, of the indirect links have been appended. */
  ghost predicate Extends(orig: seq<Node>, cur: seq<Node>)
    requires WellFormedTable(orig)
  {
    && |cur| == |orig|
    && forall a | 0 <= a < |orig| :: NodeExtends(orig, a, cur[a])
  }

  lemma {:induction false} FirstPcieConcat(xs: seq<Link>, ys: seq<Link>)
    ensures FirstPcie(xs) >= 0 ==> FirstPcie(xs + ys) == FirstPcie(xs)
    ensures FirstPcie(xs) < 0 ==> FirstPcie(xs + ys) == FirstPcie(ys)
    ensures FirstPcie(xs) < 0 ==> forall k | 0 <= k < |xs| :: !IsDirectPcie(xs[k])
    ensures (forall k | 0 <= k < |xs| :: !IsDirectPcie(xs[k])) ==> FirstPcie(xs) < 0
    ensures FirstPcie(xs) >= 0 ==> FirstTo(xs, FirstPcie(xs)).Found?
  {
    if xs == [] {
      assert xs + ys == ys;
    } else {
      FirstPcieConcat(xs[1..], ys);
      assert (xs + ys)[1..] == xs[1..] + ys;
      assert forall k | 0 < k < |xs| :: xs[k] == xs[1..][k - 1];
      assert forall k | 0 <= k < |xs[1..]| :: xs[1..][k] == xs[k + 1];
    }
  }

  lemma {:induction false} FirstToConcat(xs: seq<Link>, ys: seq<Link>, to: int)
    ensures FirstTo(xs, to).Found? ==>
              && FirstTo(xs + ys, to) == FirstTo(xs, to)
              && FirstTo(xs, to).link in xs && FirstTo(xs, to).link.to == to
    ensures FirstTo(xs, to).Missing? ==> FirstTo(xs + ys, to) == FirstTo(ys, to)
    ensures FirstTo(xs, to).Missing? <==> forall k | 0 <= k < |xs| :: xs[k].to != to
    ensures FirstTo(xs, to).Missing? ==> FirstTo(xs, to).why == InvalidParameter
  {
    if xs == [] {
      assert xs + ys == ys;
    } else {
      FirstToConcat(xs[1..], ys, to);
      assert (xs + ys)[1..] == xs[1..] + ys;
      assert forall k | 0 < k < |xs| :: xs[k] == xs[1..][k - 1];
      assert forall k | 0 <= k < |xs[1..]| :: xs[1..][k] == xs[k + 1];
    }
  }

  /** The pairs the composition looks up, other than a GPU's link to its own CPU, are never
      pairs the pass adds a link for. */
  lemma NotComposable(orig: seq<Node>, x: nat, y: nat)
    requires KernelTable(orig) && x < |orig| && y < |orig|
    requires orig[x].gpuId == 0 || orig[y].gpuId == 0
    requires DirectCpu(orig[x]) < 0
    requires DirectCpu(orig[y]) < 0 || DirectCpu(orig[y]) == x
    ensures Compose(orig, x, y).NoRoute?
  {
    assert KernelNode(orig, x);
    if DirectCpu(orig[y]) == x {
      FirstToConcat(Links(orig[x]), [], x);
    }
  }

  /** An absent link of such a pair is still absent once the pass is under way, a present one is unchanged. */
  lemma DirectStable(orig: seq<Node>, cur: seq<Node>, x: nat, y: nat)
    requires KernelTable(orig) && Extends(orig, cur) && x < |orig| && y < |orig|
    requires Direct(orig[x], y).Found? || Compose(orig, x, y).NoRoute?
    ensures Direct(cur[x], y) == Direct(orig[x], y)
  {
    assert NodeExtends(orig, x, cur[x]);
    var old_, extra := Links(orig[x]), cur[x].slots[orig[x].numLinks..cur[x].numLinks];
    assert Links(cur[x]) == old_ + extra;
    FirstToConcat(old_, extra, y);
    if FirstTo(old_, y).Missing? {
      forall k | 0 <= k < |extra| ensures extra[k].to != y {
        assert Addable(orig, x, cur[x].slots[orig[x].numLinks + k]);
      }
      FirstToConcat(extra, [], y);
    }
  }

  lemma DirectCpuStable(orig: seq<Node>, cur: seq<Node>, a: nat)
    requires KernelTable(orig) && Extends(orig, cur) && a < |orig|
    ensures DirectCpu(cur[a]) == DirectCpu(orig[a])
  {
    assert NodeExtends(orig, a, cur[a]);
    var old_, extra := Links(orig[a]), cur[a].slots[orig[a].numLinks..cur[a].numLinks];
    assert Links(cur[a]) == old_ + extra;
    FirstPcieConcat(old_, extra);
    if orig[a].gpuId != 0 && DirectCpu(orig[a]) < 0 {
      forall k | 0 <= k < |extra| ensures !IsDirectPcie(extra[k]) {
        var l := cur[a].slots[orig[a].numLinks + k];
        assert Addable(orig, a, l);
        NewLinkOfDetachedGpu(orig, a, l.to);
      }
      FirstPcieConcat(extra, []);
      assert extra + [] == extra;
    }
  }

  /** A GPU without a direct CPU never gains a link that looks like one. */
  lemma NewLinkOfDetachedGpu(orig: seq<Node>, a: nat, b: nat)
    requires KernelTable(orig) && a < |orig| && b < |orig|
    requires orig[a].gpuId != 0 && DirectCpu(orig[a]) < 0
    ensures forall l | l in NewLink(orig, a, b) :: !IsDirectPcie(l)
  {
    assert NoWrap(orig, a, b);
    if Compose(orig, a, b).Route? {
      var cpu := DirectCpu(orig[b]);
      FirstToConcat(Links(orig[a]), [], cpu);
      FirstPcieConcat(Links(orig[a]), []);
      var l := Direct(orig[a], cpu).link;
      assert !IsDirectPcie(l);
    }
  }

  lemma ExtendsWellFormed(orig: seq<Node>, cur: seq<Node>)
    requires KernelTable(orig) && Extends(orig, cur)
    ensures WellFormedTable(cur)
  {
    forall a | 0 <= a < |cur| ensures WellFormed(cur[a]) && DirectCpu(cur[a]) < |cur| {
      assert NodeExtends(orig, a, cur[a]);
      DirectCpuStable(orig, cur, a);
    }
  }

  /** Confluence of one question: on any partly extended table it has the answer of the original. */
  lemma ComposeStable(orig: seq<Node>, cur: seq<Node>, a: nat, b: nat)
    requires KernelTable(orig) && Extends(orig, cur) && a < |orig| && b < |orig|
    ensures WellFormedTable(cur) && Compose(cur, a, b) == Compose(orig, a, b)
  {
    ExtendsWellFormed(orig, cur);
    assert NodeExtends(orig, a, cur[a]) && NodeExtends(orig, b, cur[b]);
    DirectCpuStable(orig, cur, a);
    DirectCpuStable(orig, cur, b);
    var cpuA, cpuB := DirectCpu(orig[a]), DirectCpu(orig[b]);
    assert KernelNode(orig, a) && KernelNode(orig, b);
    if cpuA >= 0 {
      FirstPcieConcat(Links(orig[a]), []);
      FirstToConcat(Links(orig[a]), [], cpuA);
      DirectStable(orig, cur, a, cpuA);
      if cpuB < 0 || cpuA == cpuB {
        NotComposable(orig, cpuA, b);
        DirectStable(orig, cur, cpuA, b);
      } else {
        NotComposable(orig, cpuA, cpuB);
        DirectStable(orig, cur, cpuA, cpuB);
      }
    } else if cpuB >= 0 {
      NotComposable(orig, a, cpuB);
      DirectStable(orig, cur, a, cpuB);
    }
    if cpuB >= 0 {
      NotComposable(orig, cpuB, b);
      DirectStable(orig, cur, cpuB, b);
    }
  }

  lemma AppendKeepsExtends(orig: seq<Node>, a: nat, n: Node, l: Link)
    requires WellFormedTable(orig) && a < |orig| && NodeExtends(orig, a, n) && Addable(orig, a, l)
    ensures NodeExtends(orig, a, Append(n, l))
  {
  }

  lemma {:induction false} AppendAllExtends(orig: seq<Node>, a: nat, upto: nat)
    requires WellFormedTable(orig) && a < |orig| && upto <= |orig|
    ensures NodeExtends(orig, a, AppendAll(orig[a], NewLinks(orig, a, upto)))
  {
    hide NewLink;
    if upto == 0 {
      assert NodeExtends(orig, a, orig[a]);
    } else {
      hide NodeExtends, AppendAll;
      AppendAllExtends(orig, a, upto - 1);
      var ls, one := NewLinks(orig, a, upto - 1), NewLink(orig, a, upto - 1);
      if one == [] {
        assert ls + one == ls;
      } else {
        AppendOne(orig[a], ls, one[0]);
        AppendKeepsExtends(orig, a, AppendAll(orig[a], ls), one[0]);
      }
    }
  }

  lemma AppendOne(n: Node, ls: seq<Link>, l: Link)
    requires WellFormed(n)
    ensures AppendAll(n, ls + [l]) == Append(AppendAll(n, ls), l)
  {
  }

  /** What the finished node holds: its own links, then the new ones, cut off at the preallocated slots. */
  lemma {:induction false} LinksOfAppendAll(n: Node, ls: seq<Link>)
    requires WellFormed(n)
    ensures var all := Links(n) + ls;
            Links(AppendAll(n, ls)) == if |all| <= |n.slots| then all else all[..|n.slots|]
    decreases |ls|
  {
    if ls == [] {
      assert Links(n) + ls == Links(n);
    } else {
      var init, l := ls[..|ls| - 1], ls[|ls| - 1];
      LinksOfAppendAll(n, init);
      assert ls == init + [l];
      assert Links(n) + ls == Links(n) + init + [l];
    }
  }

  // --------------------------------------------------------------------------
  // Capacity: N - 1 slots are enough
  // --------------------------------------------------------------------------

  ghost predicate DistinctDestinations(links: seq<Link>) {
    forall i, j | 0 <= i < j < |links| :: links[i].to != links[j].to
  }

  ghost predicate DestinationsExclude(links: seq<Link>, self: int, n: int) {
    forall i | 0 <= i < |links| :: links[i].to != self && links[i].to < n
  }

  /** Each GPU has at most its link to its CPU; a CPU links to distinct CPUs and to its own GPUs only. */
  ghost predicate AttachedTable(nodes: seq<Node>)
    requires WellFormedTable(nodes)
  {
    forall a | 0 <= a < |nodes| :: AttachedNode(nodes, a)
  }

  ghost predicate AttachedNode(nodes: seq<Node>, a: nat)
    requires WellFormedTable(nodes) && a < |nodes|
  {
    var own := Links(nodes[a]);
    && DistinctDestinations(own) && DestinationsExclude(own, a, |nodes|)
    && (nodes[a].gpuId != 0 ==> |own| <= 1 && forall k | 0 <= k < |own| :: IsDirectPcie(own[k]))
    && (nodes[a].gpuId == 0 ==>
          forall k | 0 <= k < |own| && nodes[own[k].to].gpuId != 0 :: DirectCpu(nodes[own[k].to]) == a)
  }

  /** The links gathered so far have distinct destinations, the new ones below `upto`. */
  ghost predicate Spread(own: seq<Link>, added: seq<Link>, self: int, n: int, upto: int) {
    && DistinctDestinations(own + added) && DestinationsExclude(own + added, self, n)
    && forall k | 0 <= k < |added| :: added[k].to < upto
  }

  lemma SpreadAppend(own: seq<Link>, added: seq<Link>, l: Link, self: int, n: int)
    requires Spread(own, added, self, n, l.to) && l.to != self && l.to < n
    requires forall k | 0 <= k < |own| :: own[k].to != l.to
    ensures Spread(own, added + [l], self, n, l.to + 1)
  {
    assert own + (added + [l]) == own + added + [l];
  }

  lemma OwnLinksAvoid(nodes: seq<Node>, a: nat, b: nat)
    requires KernelTable(nodes) && AttachedTable(nodes) && a < |nodes| && b < |nodes|
    requires NewLink(nodes, a, b) != []
    ensures forall k | 0 <= k < nodes[a].numLinks :: Links(nodes[a])[k].to != b
  {
    forall k | 0 <= k < nodes[a].numLinks ensures Links(nodes[a])[k].to != b {
      if Links(nodes[a])[k].to == b { DirectPairNotComposed(nodes, a, Links(nodes[a])[k]); }
    }
  }

  lemma {:induction false} NewLinksSpread(nodes: seq<Node>, a: nat, upto: nat)
    requires KernelTable(nodes) && AttachedTable(nodes) && a < |nodes| && upto <= |nodes|
    ensures Spread(Links(nodes[a]), NewLinks(nodes, a, upto), a, |nodes|, upto)
  {
    assert WellFormedTable(nodes);
    hide NewLink, KernelTable;
    var own := Links(nodes[a]);
    if upto == 0 {
      assert AttachedNode(nodes, a);
      assert own + [] == own;
    } else {
      var b := upto - 1;
      NewLinksSpread(nodes, a, b);
      var ls, one := NewLinks(nodes, a, b), NewLink(nodes, a, b);
      if one == [] {
        assert ls + one == ls;
      } else {
        OwnLinksAvoid(nodes, a, b);
        SpreadAppend(own, ls, one[0], a, |nodes|);
      }
    }
  }

  /** Where a direct link exists no indirect one is composed. */
  lemma DirectPairNotComposed(nodes: seq<Node>, a: nat, l: Link)
    requires KernelTable(nodes) && AttachedTable(nodes) && a < |nodes| && l in Links(nodes[a])
    ensures l.to < |nodes| && Compose(nodes, a, l.to).NoRoute?
  {
    var k :| 0 <= k < |Links(nodes[a])| && Links(nodes[a])[k] == l;
    assert AttachedNode(nodes, a) && KernelNode(nodes, a);
    if nodes[a].gpuId != 0 {
      assert Links(nodes[a]) == [l];
      assert DirectCpu(nodes[a]) == l.to;
      assert KernelNode(nodes, l.to);
      FirstToConcat(Links(nodes[l.to]), [], l.to);
    } else if nodes[l.to].gpuId != 0 {
      FirstToConcat(Links(nodes[a]), [], a);
    }
  }

  ghost function Below(n: nat): (s: set<nat>)
    ensures |s| == n
    ensures forall i: nat :: i in s <==> i < n
  {
    if n == 0 then {} else Below(n - 1) + {n - 1}
  }

  lemma {:induction false} DestinationSet(links: seq<Link>)
    requires DistinctDestinations(links)
    ensures |set i | 0 <= i < |links| :: links[i].to| == |links|
  {
    if links != [] {
      var init := links[..|links| - 1];
      DestinationSet(init);
      assert (set i | 0 <= i < |links| :: links[i].to) == (set i | 0 <= i < |init| :: init[i].to) + {links[|links| - 1].to};
    }
  }

  /** Pigeonhole: distinct destinations other than the node itself number at most N - 1. */
  lemma DestinationsFit(links: seq<Link>, self: nat, n: nat)
    requires self < n && DistinctDestinations(links) && DestinationsExclude(links, self, n)
    ensures |links| <= n - 1
  {
    DestinationSet(links);
    SubsetSize(set i | 0 <= i < |links| :: links[i].to, Below(n) - {self});
  }

  lemma {:induction false} SubsetSize(a: set<nat>, b: set<nat>)
    requires a <= b
    ensures |a| <= |b|
  {
    if a != {} {
      var x :| x in a;
      SubsetSize(a - {x}, b - {x});
    }
  }

  /** Slots never run out, whatever the number of nodes, so no link is dropped. */
  lemma SlotsSuffice(nodes: seq<Node>, a: nat)
    requires KernelTable(nodes) && AttachedTable(nodes) && a < |nodes| && |nodes[a].slots| == |nodes| - 1
    ensures |Links(nodes[a])| + |NewLinks(nodes, a, |nodes|)| <= |nodes| - 1
    ensures Links(WithIndirectLinks(nodes)[a]) == Links(nodes[a]) + NewLinks(nodes, a, |nodes|)
  {
    NewLinksSpread(nodes, a, |nodes|);
    DestinationsFit(Links(nodes[a]) + NewLinks(nodes, a, |nodes|), a, |nodes|);
    LinksOfAppendAll(nodes[a], NewLinks(nodes, a, |nodes|));
  }

  lemma {:induction false} NewLinksGrow(nodes: seq<Node>, a: nat, low: nat, high: nat)
    requires WellFormedTable(nodes) && a < |nodes| && low <= high <= |nodes|
    ensures |NewLinks(nodes, a, low)| <= |NewLinks(nodes, a, high)|
    decreases high
  {
    hide NewLink;
    if low < high { NewLinksGrow(nodes, a, low, high - 1); }
  }
}
