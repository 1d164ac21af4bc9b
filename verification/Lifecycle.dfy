/** Opening, closing and forking: the reference-counted connection and the gate in front of every call. */
module Lifecycle {
  import opened Common

  /** One process.  `allocs` are the keys of the allocation map, `parentPid` the process the runtime
      was made in. */
  datatype Process = Process(openCount: nat, fd: Option<nat>, isForked: bool, parentPid: nat, pid: nat,
                             atforkInstalled: bool, allocs: set<nat>)

  datatype Op =
    | OpenOp(device: Option<nat>)   // the descriptor the device gives, if it opens
    | CloseOp
    | ForkOp(child: nat)            // a libc fork, followed into the child
    | AllocOp(addr: nat)            // any gated call, here one that adds an allocation

  /** Every gated call starts with this test. */
  predicate GateOpen(p: Process) {
    p.openCount != 0 && !p.isForked
  }

  predicate InForkedChild(p: Process) {
    p.isForked || p.parentPid != p.pid
  }

  function ClearAfterFork(p: Process): Process {
    p.(openCount := 0, fd := None, isForked := false, parentPid := p.pid, allocs := {})
  }

  function Open(p: Process, device: Option<nat>): (Process, Status) {
    var q := if InForkedChild(p) then ClearAfterFork(p) else p;
    if q.openCount > 0 then (q.(openCount := q.openCount + 1), AlreadyOpened)
    else if q.fd.None? && device.None? then (q, NotOpened)
    else (q.(openCount := 1, fd := if q.fd.None? then device else q.fd, atforkInstalled := true), Success)
  }

  function Close(p: Process): (Process, Status) {
    if p.openCount == 0 then (p, NotOpened)
    else (p.(openCount := p.openCount - 1, fd := if p.openCount == 1 then None else p.fd), Success)
  }

  /** The child inherits everything; the handlers, once installed, mark it. */
  function Fork(p: Process, child: nat): Process {
    p.(pid := child, isForked := p.isForked || p.atforkInstalled)
  }

  function Step(p: Process, op: Op): Process {
    match op
    case OpenOp(device) => Open(p, device).0
    case CloseOp => Close(p).0
    case ForkOp(child) => Fork(p, child)
    case AllocOp(addr) => if GateOpen(p) then p.(allocs := p.allocs + {addr}) else p
  }

  function Run(p: Process, ops: seq<Op>): Process
    decreases |ops|
  {
    if ops == [] then p else Run(Step(p, ops[0]), ops[1..])
  }

  /** Successful opens minus successful closes since the last reset after a fork. */
  function Balance(p: Process, ops: seq<Op>, sofar: int): int
    decreases |ops|
  {
    if ops == [] then sofar
    else
      var next :=
        match ops[0]
        case OpenOp(device) =>
          (if InForkedChild(p) then 0 else sofar) + (if Open(p, device).1 == NotOpened then 0 else 1)
        case CloseOp => if Close(p).1 == Success then sofar - 1 else sofar
        case _ => sofar;
      Balance(Step(p, ops[0]), ops[1..], next)
  }

  function Started(pid: nat): Process {
    Process(0, None, false, pid, pid, false, {})
  }

  /** The descriptor is held while the count is positive; handlers are installed before anything opens;
      a child nobody marked has nothing open and nothing allocated. */
  predicate Sound(p: Process) {
    && (p.fd.Some? <==> p.openCount > 0)
    && (!p.atforkInstalled ==> p.openCount == 0 && p.allocs == {})
    && (p.parentPid != p.pid ==> p.isForked || !p.atforkInstalled)
  }

  lemma StepKeepsSound(p: Process, op: Op)
    requires Sound(p)
    ensures Sound(Step(p, op))
  {
  }

  /** Over every run the count is the balance of opens and closes, and the descriptor is held exactly
      while it is positive. */
  lemma {:induction false} CountIsBalance(p: Process, ops: seq<Op>)
    requires Sound(p)
    ensures Sound(Run(p, ops)) && Run(p, ops).openCount == Balance(p, ops, p.openCount)
    ensures Run(p, ops).fd.Some? <==> Run(p, ops).openCount > 0
    decreases |ops|
  {
    if ops != [] {
      StepKeepsSound(p, ops[0]);
      CountIsBalance(Step(p, ops[0]), ops[1..]);
    }
  }

  predicate SucceedsToOpen(op: Op) {
    op.OpenOp? && op.device.Some?
  }

  /** Whatever a forked child does short of opening the device, every gated call fails. */
  lemma {:induction false} GateStaysShut(p: Process, ops: seq<Op>)
    requires Sound(p) && (p.isForked || p.openCount == 0)
    requires forall i | 0 <= i < |ops| :: !SucceedsToOpen(ops[i])
    ensures !GateOpen(Run(p, ops))
    decreases |ops|
  {
    if ops != [] {
      StepKeepsSound(p, ops[0]);
      assert !SucceedsToOpen(ops[0]);
      assert forall i | 0 <= i < |ops[1..]| :: ops[1..][i] == ops[i + 1];
      GateStaysShut(Step(p, ops[0]), ops[1..]);
    }
  }

  lemma ForkedChildIsGated(p: Process, child: nat, ops: seq<Op>)
    requires Sound(p) && forall i | 0 <= i < |ops| :: !SucceedsToOpen(ops[i])
    ensures !GateOpen(Run(Fork(p, child), ops))
  {
    StepKeepsSound(p, ForkOp(child));
    GateStaysShut(Fork(p, child), ops);
  }

  /** Then it opens, and starts with one reference, an open gate and no allocation of its parent's. */
  lemma ChildOpensEmpty(p: Process, child: nat, ops: seq<Op>, device: nat)
    requires Sound(p)
    requires forall i | 0 <= i < |ops| :: !SucceedsToOpen(ops[i])
    ensures var q := Open(Run(Fork(p, child), ops), Some(device)).0;
            GateOpen(q) && q.openCount == 1 && q.allocs == {} && q.parentPid == q.pid
  {
    StepKeepsSound(p, ForkOp(child));
    ChildStaysMarked(Fork(p, child), ops);
  }

  /** Until it opens, a child is either recognised as one or has already been reset. */
  predicate UnopenedChild(p: Process) {
    Sound(p) && (InForkedChild(p) || (p.openCount == 0 && p.allocs == {}))
  }

  lemma {:induction false} ChildStaysMarked(p: Process, ops: seq<Op>)
    requires UnopenedChild(p) && (p.isForked || p.openCount == 0)
    requires forall i | 0 <= i < |ops| :: !SucceedsToOpen(ops[i])
    ensures UnopenedChild(Run(p, ops))
    decreases |ops|
  {
    if ops != [] {
      StepKeepsSound(p, ops[0]);
      assert !SucceedsToOpen(ops[0]);
      assert forall i | 0 <= i < |ops[1..]| :: ops[1..][i] == ops[i + 1];
      ChildStaysMarked(Step(p, ops[0]), ops[1..]);
    }
  }

  // --------------------------------------------------------------------------
  // The gate, read off the calls
  // --------------------------------------------------------------------------

  /** References a process holds after these calls, counted from none: an open adds one if the device opens or
      is open already, a close takes one back. */
  function References(ops: seq<Op>): nat
    decreases |ops|
  {
    if ops == [] then 0
    else
      var n := References(ops[..|ops| - 1]);
      match ops[|ops| - 1]
      case OpenOp(device) => if n > 0 || device.Some? then n + 1 else 0
      case CloseOp => if n > 0 then n - 1 else 0
      case _ => n
  }

  /** `before` ends in a fork, or is nothing; after it there is none. */
  predicate LastFork(before: seq<Op>, after: seq<Op>) {
    && (before == [] || before[|before| - 1].ForkOp?)
    && forall i | 0 <= i < |after| :: !after[i].ForkOp?
  }

  lemma {:induction false} RunAppend(p: Process, ops: seq<Op>, op: Op)
    ensures Run(p, ops + [op]) == Step(Run(p, ops), op)
    decreases |ops|
  {
    hide Step;
    if ops == [] {
      assert [] + [op] == [op] && [op][1..] == [];
    } else {
      assert (ops + [op])[1..] == ops[1..] + [op];
      RunAppend(Step(p, ops[0]), ops[1..], op);
    }
  }

  /** With n references of its own a process is open with that count; with none its gate is shut. */
  predicate Holds(p: Process, n: nat) {
    && Sound(p)
    && (n > 0 ==> p.openCount == n && !p.isForked && p.parentPid == p.pid)
    && (n == 0 ==> p.isForked || p.openCount == 0)
  }

  lemma StepHolds(p: Process, n: nat, ops: seq<Op>, op: Op)
    requires Holds(p, n) && n == References(ops) && !op.ForkOp?
    ensures Holds(Step(p, op), References(ops + [op]))
  {
    assert (ops + [op])[..|ops|] == ops;
  }

  lemma {:induction false} RunHolds(pid: nat, before: seq<Op>, after: seq<Op>)
    requires LastFork(before, after)
    ensures Holds(Run(Started(pid), before + after), References(after))
    decreases |after|
  {
    hide Step, Run;
    if after == [] {
      assert before + after == before;
      ForkHolds(pid, before);
    } else {
      var init, op := after[..|after| - 1], after[|after| - 1];
      assert before + after == before + init + [op] && after == init + [op];
      RunHolds(pid, before, init);
      RunAppend(Started(pid), before + init, op);
      StepHolds(Run(Started(pid), before + init), References(init), init, op);
    }
  }

  lemma ForkHolds(pid: nat, before: seq<Op>)
    requires LastFork(before, [])
    ensures Holds(Run(Started(pid), before), 0)
  {
    if before != [] {
      var init, op := before[..|before| - 1], before[|before| - 1];
      assert before == init + [op];
      CountIsBalance(Started(pid), init);
      RunAppend(Started(pid), init, op);
      StepKeepsSound(Run(Started(pid), init), op);
    }
  }

  /** Over every run: the gate is open exactly when the calls since the last fork leave a reference, and the
      count is then their number.  What a parent had open counts for nothing. */
  lemma GateOpenIff(pid: nat, before: seq<Op>, after: seq<Op>)
    requires LastFork(before, after)
    ensures var p := Run(Started(pid), before + after);
            && (GateOpen(p) <==> References(after) > 0)
            && (GateOpen(p) ==> p.openCount == References(after))
  {
    hide Run, References;
    RunHolds(pid, before, after);
  }

  /** What the next call reports: an open says whether the connection was there already or could be made, a
      close of something open succeeds, and a gated call takes effect exactly behind an open gate. */
  lemma NextCall(pid: nat, before: seq<Op>, after: seq<Op>, device: Option<nat>, addr: nat)
    requires LastFork(before, after)
    ensures var p := Run(Started(pid), before + after);
            && Open(p, device).1 == (if References(after) > 0 then AlreadyOpened else if device.Some? then Success else NotOpened)
            && (References(after) > 0 ==> Close(p).1 == Success)
            && (References(after) > 0 ==> Open(p, device).0.allocs == Close(p).0.allocs == p.allocs)
            && (before == [] ==> (Close(p).1 == Success <==> References(after) > 0))
            && (addr in Step(p, AllocOp(addr)).allocs <==> References(after) > 0 || addr in p.allocs)
  {
    hide Run, References;
    RunHolds(pid, before, after);
    if before == [] { NeverForked(pid, after); assert before + after == after; }
  }

  lemma {:induction false} NeverForked(pid: nat, ops: seq<Op>)
    requires forall i | 0 <= i < |ops| :: !ops[i].ForkOp?
    ensures !Run(Started(pid), ops).isForked && Run(Started(pid), ops).parentPid == Run(Started(pid), ops).pid
    decreases |ops|
  {
    if ops != [] {
      var init, op := ops[..|ops| - 1], ops[|ops| - 1];
      assert ops == init + [op];
      NeverForked(pid, init);
      RunAppend(Started(pid), init, op);
    }
  }

  class Runtime {
    var openCount: nat
    var fd: Option<nat>
    var isForked: bool
    var parentPid: nat
    var pid: nat
    var atforkInstalled: bool
    var allocs: set<nat>

    ghost function View(): Process
      reads this
    {
      Process(openCount, fd, isForked, parentPid, pid, atforkInstalled, allocs)
    }

    constructor (self: nat)
      ensures View() == Started(self) && Sound(View())
    {
      openCount, fd, isForked, parentPid, pid, atforkInstalled, allocs := 0, None, false, self, self, false, {};
    }

    method IsForkedChild() returns (r: bool)
      modifies this
      ensures r == InForkedChild(old(View()))
      ensures View() == if r && !old(isForked) then old(View()).(isForked := true, parentPid := old(pid)) else old(View())
    {
      if isForked { return true; }
      if parentPid != pid {
        isForked := true;
        parentPid := pid;
        return true;
      }
      return false;
    }

    method OpenKfd(device: Option<nat>) returns (status: Status)
      modifies this
      ensures (View(), status) == Open(old(View()), device)
    {
      var forked := IsForkedChild();
      if forked {
        allocs := {};
        if fd.Some? { fd := None; }
        openCount, fd, isForked, parentPid := 0, None, false, pid;
      }
      if openCount == 0 {
        if fd.None? {
          if device.None? { return NotOpened; }
          fd := device;
        }
        openCount := 1;
        if !atforkInstalled { atforkInstalled := true; }
        return Success;
      }
      openCount := openCount + 1;
      return AlreadyOpened;
    }

    method CloseKfd() returns (status: Status)
      modifies this
      ensures (View(), status) == Close(old(View()))
    {
      if openCount > 0 {
        openCount := openCount - 1;
        if openCount == 0 { fd := None; }
        return Success;
      }
      return NotOpened;
    }
  }
}
