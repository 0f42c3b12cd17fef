/** Rolling upgrades of a fleet, one node in flight at a time: `UpgradePlan` of `core/src/fleet.rs`. */
module Upgrade {
  import opened Wrappers

  datatype State = Pending | InFlight(since: u64) | Done | Drained(noticed: u64)

  datatype Node = Node(name: string, state: State)

  const BUDGET_SECS: nat := 15 * 60

  predicate Overdue(n: Node, now: u64) {
    n.state.InFlight? && n.state.since <= now && now - n.state.since > BUDGET_SECS
  }

  function Noticed(n: Node, now: u64): Node {
    if Overdue(n, now) then n.(state := Drained(now)) else n
  }

  function AllNoticed(nodes: seq<Node>, now: u64): seq<Node> {
    seq(|nodes|, i requires 0 <= i < |nodes| => Noticed(nodes[i], now))
  }

  function OverdueNames(nodes: seq<Node>, now: u64): seq<string> {
    if nodes == [] then []
    else
      OverdueNames(nodes[..|nodes| - 1], now) +
      if Overdue(nodes[|nodes| - 1], now) then [nodes[|nodes| - 1].name] else []
  }

  predicate AnyInFlight(nodes: seq<Node>) {
    exists i :: 0 <= i < |nodes| && nodes[i].state.InFlight?
  }

  /** The first node in this state, or the number of nodes. */
  function FirstPending(nodes: seq<Node>): (k: nat)
    ensures k <= |nodes|
    ensures forall i :: 0 <= i < k ==> !nodes[i].state.Pending?
    ensures k < |nodes| ==> nodes[k].state.Pending?
  {
    if nodes == [] || nodes[0].state.Pending? then 0
    else
      var k := FirstPending(nodes[1..]) + 1;
      assert forall i :: 1 <= i < k ==> nodes[i] == nodes[1..][i - 1];
      k
  }

  function FirstInFlight(nodes: seq<Node>): (k: nat)
    ensures k <= |nodes|
    ensures forall i :: 0 <= i < k ==> !nodes[i].state.InFlight?
    ensures k < |nodes| ==> nodes[k].state.InFlight?
  {
    if nodes == [] || nodes[0].state.InFlight? then 0
    else
      var k := FirstInFlight(nodes[1..]) + 1;
      assert forall i :: 1 <= i < k ==> nodes[i] == nodes[1..][i - 1];
      k
  }

  function Started(nodes: seq<Node>, now: u64): seq<Node> {
    var k := FirstPending(nodes);
    if AnyInFlight(nodes) || k == |nodes| then nodes else nodes[k := nodes[k].(state := InFlight(now))]
  }

  function AfterAdvance(nodes: seq<Node>, now: u64): seq<Node> {
    Started(AllNoticed(nodes, now), now)
  }

  function AfterReturn(nodes: seq<Node>): seq<Node> {
    var k := FirstInFlight(nodes);
    if k == |nodes| then nodes else nodes[k := nodes[k].(state := Done)]
  }

  class Plan {
    var nodes: seq<Node>

    constructor (names: seq<string>)
      ensures nodes == NewNodes(names)
    {
      nodes := seq(|names|, i requires 0 <= i < |names| => Node(names[i], Pending));
    }

    /** Settles timeouts and starts the next node when nothing is in flight; names what it drained. */
    method Advance(now: u64) returns (drained: seq<string>)
      modifies this
      ensures nodes == AfterAdvance(old(nodes), now)
      ensures drained == OverdueNames(old(nodes), now)
    {
      drained := [];
      ghost var before := nodes;
      for k := 0 to |nodes|
        invariant |nodes| == |before|
        invariant forall i :: 0 <= i < k ==> nodes[i] == Noticed(before[i], now)
        invariant forall i :: k <= i < |before| ==> nodes[i] == before[i]
        invariant drained == OverdueNames(before[..k], now)
      {
        assert before[..k + 1][..k] == before[..k];
        match nodes[k].state {
          case InFlight(since) =>
            var waited := if now >= since then now - since else 0;
            if waited > BUDGET_SECS {
              drained := drained + [nodes[k].name];
              nodes := nodes[k := nodes[k].(state := Drained(now))];
            }
          case _ =>
        }
      }
      assert before[..|before|] == before;
      assert nodes == AllNoticed(before, now);
      if !AnyInFlight(nodes) {
        var k := FirstPending(nodes);
        if k < |nodes| {
          nodes := nodes[k := nodes[k].(state := InFlight(now))];
        }
      }
    }

    /** Marks the in-flight node as returned healthy; refused when there is none. */
    method RecordReturned() returns (recorded: bool)
      modifies this
      ensures nodes == AfterReturn(old(nodes))
      ensures recorded <==> AnyInFlight(old(nodes))
    {
      var k := FirstInFlight(nodes);
      if k == |nodes| {
        return false;
      }
      nodes := nodes[k := nodes[k].(state := Done)];
      return true;
    }
  }

  function NewNodes(names: seq<string>): seq<Node> {
    seq(|names|, i requires 0 <= i < |names| => Node(names[i], Pending))
  }

  // ---------------------------------------------------------------- every run

  predicate Settled(s: State) {
    s.Done? || s.Drained?
  }

  /** `k` settled nodes, then at most one in flight, then pending ones. */
  predicate Shape(nodes: seq<Node>, k: nat) {
    && k <= |nodes|
    && (forall i :: 0 <= i < k ==> Settled(nodes[i].state))
    && (forall i :: k < i < |nodes| ==> nodes[i].state.Pending?)
    && (k < |nodes| ==> !Settled(nodes[k].state))
  }

  datatype Op = Advances(now: u64) | Returns

  function Step(nodes: seq<Node>, op: Op): seq<Node> {
    match op
    case Advances(now) => AfterAdvance(nodes, now)
    case Returns => AfterReturn(nodes)
  }

  function Run(nodes: seq<Node>, ops: seq<Op>): seq<Node> {
    if ops == [] then nodes else Step(Run(nodes, ops[..|ops| - 1]), ops[|ops| - 1])
  }

  lemma NewShape(names: seq<string>)
    ensures Shape(NewNodes(names), 0)
  {
  }

  /** What one call does to a plan of that shape, said outright. */
  lemma AdvanceShape(nodes: seq<Node>, k: nat, now: u64)
    requires Shape(nodes, k)
    ensures k == |nodes| ==> AfterAdvance(nodes, now) == nodes && OverdueNames(nodes, now) == []
    ensures k < |nodes| && nodes[k].state.Pending? ==>
              AfterAdvance(nodes, now) == nodes[k := Node(nodes[k].name, InFlight(now))] && OverdueNames(nodes, now) == []
    ensures k < |nodes| && nodes[k].state.InFlight? && !Overdue(nodes[k], now) ==>
              AfterAdvance(nodes, now) == nodes && OverdueNames(nodes, now) == []
    ensures k < |nodes| && Overdue(nodes[k], now) ==>
              && OverdueNames(nodes, now) == [nodes[k].name]
              && var drained := nodes[k := Node(nodes[k].name, Drained(now))];
                 AfterAdvance(nodes, now) ==
                 if k + 1 == |nodes| then drained else drained[k + 1 := Node(nodes[k + 1].name, InFlight(now))]
  {
    OnlyOneOverdue(nodes, k, now);
    if k < |nodes| && Overdue(nodes[k], now) {
      NoticedOverdue(nodes, k, now);
      StartedNext(AllNoticed(nodes, now), k + 1, now);
    } else {
      assert AllNoticed(nodes, now) == nodes;
      StartedNext(nodes, k, now);
    }
  }

  /** A node is drained by an advance exactly when that comes more than the budget after it was started. */
  lemma DrainedExactly(nodes: seq<Node>, k: nat, now: u64)
    requires Shape(nodes, k) && k < |nodes| && nodes[k].state.InFlight?
    ensures now > nodes[k].state.since + 900 ==>
              AfterAdvance(nodes, now)[k].state == Drained(now) && OverdueNames(nodes, now) == [nodes[k].name]
    ensures now <= nodes[k].state.since + 900 ==> AfterAdvance(nodes, now) == nodes && OverdueNames(nodes, now) == []
  {
    AdvanceShape(nodes, k, now);
  }

  lemma NoticedOverdue(nodes: seq<Node>, k: nat, now: u64)
    requires Shape(nodes, k) && k < |nodes| && Overdue(nodes[k], now)
    ensures AllNoticed(nodes, now) == nodes[k := Node(nodes[k].name, Drained(now))]
    ensures Shape(AllNoticed(nodes, now), k + 1)
    ensures k + 1 < |nodes| ==> AllNoticed(nodes, now)[k + 1] == nodes[k + 1]
  {
  }

  /** Nothing is started while a node is in flight; otherwise the first pending one is. */
  lemma StartedNext(nodes: seq<Node>, k: nat, now: u64)
    requires Shape(nodes, k)
    ensures Started(nodes, now) ==
            if k < |nodes| && nodes[k].state.Pending? then nodes[k := Node(nodes[k].name, InFlight(now))] else nodes
  {
    if k < |nodes| && nodes[k].state.InFlight? {
      assert AnyInFlight(nodes);
    } else {
      assert FirstPending(nodes) == k;
    }
  }

  lemma {:induction false} OnlyOneOverdue(nodes: seq<Node>, k: nat, now: u64)
    requires forall i :: 0 <= i < |nodes| && i != k ==> !nodes[i].state.InFlight?
    ensures OverdueNames(nodes, now) == if k < |nodes| && Overdue(nodes[k], now) then [nodes[k].name] else []
  {
    if nodes != [] {
      OnlyOneOverdue(nodes[..|nodes| - 1], k, now);
    }
  }

  lemma ReturnShape(nodes: seq<Node>, k: nat)
    requires Shape(nodes, k)
    ensures AfterReturn(nodes) ==
            if k < |nodes| && nodes[k].state.InFlight? then nodes[k := Node(nodes[k].name, Done)] else nodes
    ensures AnyInFlight(nodes) <==> k < |nodes| && nodes[k].state.InFlight?
  {
    if k < |nodes| && nodes[k].state.InFlight? {
      assert FirstInFlight(nodes) == k;
    }
  }

  /** How many nodes are settled after one more call. */
  function NextSettled(nodes: seq<Node>, k: nat, op: Op): nat
    requires Shape(nodes, k)
  {
    if k == |nodes| then k
    else match op
      case Advances(now) => if Overdue(nodes[k], now) then k + 1 else k
      case Returns => if nodes[k].state.InFlight? then k + 1 else k
  }

  lemma AdvanceKeepsShape(nodes: seq<Node>, k: nat, now: u64)
    requires Shape(nodes, k)
    ensures Shape(AfterAdvance(nodes, now), NextSettled(nodes, k, Op.Advances(now)))
    ensures forall i :: 0 <= i < k ==> AfterAdvance(nodes, now)[i] == nodes[i]
    ensures forall i :: 0 <= i < |nodes| ==> AfterAdvance(nodes, now)[i].name == nodes[i].name
  {
    AdvanceShape(nodes, k, now);
  }

  lemma StepShape(nodes: seq<Node>, k: nat, op: Op)
    requires Shape(nodes, k)
    ensures Shape(Step(nodes, op), NextSettled(nodes, k, op))
    ensures forall i :: 0 <= i < k ==> Step(nodes, op)[i] == nodes[i]
    ensures forall i :: 0 <= i < |nodes| ==> Step(nodes, op)[i].name == nodes[i].name
  {
    match op {
      case Advances(now) => AdvanceKeepsShape(nodes, k, now);
      case Returns => ReturnShape(nodes, k);
    }
  }

  /** Every run keeps the shape, the nodes and their order. */
  lemma {:induction false} RunShape(nodes: seq<Node>, k: nat, ops: seq<Op>) returns (j: nat)
    requires Shape(nodes, k)
    ensures Shape(Run(nodes, ops), j) && k <= j
    ensures |Run(nodes, ops)| == |nodes|
    ensures forall i :: 0 <= i < |nodes| ==> Run(nodes, ops)[i].name == nodes[i].name
    ensures forall i :: 0 <= i < k ==> Run(nodes, ops)[i] == nodes[i]
  {
    j := k;
    if ops != [] {
      var before := Run(nodes, ops[..|ops| - 1]);
      var m := RunShape(nodes, k, ops[..|ops| - 1]);
      StepShape(before, m, ops[|ops| - 1]);
      j := NextSettled(before, m, ops[|ops| - 1]);
    }
  }

  lemma {:induction false} RunConcat(nodes: seq<Node>, a: seq<Op>, b: seq<Op>)
    ensures Run(nodes, a + b) == Run(Run(nodes, a), b)
  {
    if b == [] {
      assert a + b == a;
    } else {
      assert (a + b)[..|a + b| - 1] == a + b[..|b| - 1];
      RunConcat(nodes, a, b[..|b| - 1]);
    }
  }

  /** At most one node is in flight at any moment, and a settled node never changes again. */
  lemma SafeRollout(names: seq<string>, ops: seq<Op>, more: seq<Op>)
    ensures |Run(NewNodes(names), ops)| == |Run(NewNodes(names), ops + more)| == |names|
    ensures forall i, j :: 0 <= i < j < |names| ==>
              !(Run(NewNodes(names), ops)[i].state.InFlight? && Run(NewNodes(names), ops)[j].state.InFlight?)
    ensures forall i :: 0 <= i < |names| && Settled(Run(NewNodes(names), ops)[i].state) ==>
              Run(NewNodes(names), ops + more)[i] == Run(NewNodes(names), ops)[i]
  {
    NewShape(names);
    var k := RunShape(NewNodes(names), 0, ops);
    RunConcat(NewNodes(names), ops, more);
    var j := RunShape(Run(NewNodes(names), ops), k, more);
  }

  // ---------------------------------------------------------------- it ends

  function AdvanceCount(ops: seq<Op>): nat {
    if ops == [] then 0 else AdvanceCount(ops[..|ops| - 1]) + if ops[|ops| - 1].Advances? then 1 else 0
  }

  function LastAdvance(ops: seq<Op>): Option<u64> {
    if ops == [] then None
    else if ops[|ops| - 1].Advances? then Some(ops[|ops| - 1].now)
    else LastAdvance(ops[..|ops| - 1])
  }

  /** Each `advance` comes more than the budget after the one before it. */
  predicate Spaced(ops: seq<Op>) {
    ops == [] ||
    (&& Spaced(ops[..|ops| - 1])
     && (ops[|ops| - 1].Advances? ==>
           match LastAdvance(ops[..|ops| - 1])
           case None => true
           case Some(t) => ops[|ops| - 1].now > t + BUDGET_SECS))
  }

  /** Nobody has been in flight since after the last `advance`. */
  predicate StartedBy(nodes: seq<Node>, k: nat, last: Option<u64>) {
    k < |nodes| && nodes[k].state.InFlight? ==> last.Some? && nodes[k].state.since <= last.value
  }

  lemma {:induction false} SpacedProgress(names: seq<string>, ops: seq<Op>) returns (k: nat)
    requires Spaced(ops)
    ensures Shape(Run(NewNodes(names), ops), k)
    ensures StartedBy(Run(NewNodes(names), ops), k, LastAdvance(ops))
    ensures k + 1 >= AdvanceCount(ops) || k == |Run(NewNodes(names), ops)|
    ensures k < |Run(NewNodes(names), ops)| && Run(NewNodes(names), ops)[k].state.Pending? ==> k >= AdvanceCount(ops)
  {
    k := 0;
    NewShape(names);
    if ops != [] {
      var init, op := ops[..|ops| - 1], ops[|ops| - 1];
      var before := Run(NewNodes(names), init);
      var m := SpacedProgress(names, init);
      StepShape(before, m, op);
      k := NextSettled(before, m, op);
      match op {
        case Advances(now) => AdvanceShape(before, m, now);
        case Returns => ReturnShape(before, m);
      }
    }
  }

  /** Called more than the budget apart, `n + 1` advances settle an upgrade of `n` nodes. */
  lemma SettlesInTime(names: seq<string>, ops: seq<Op>)
    requires Spaced(ops) && AdvanceCount(ops) >= |names| + 1
    ensures forall i :: 0 <= i < |Run(NewNodes(names), ops)| ==> Settled(Run(NewNodes(names), ops)[i].state)
  {
    NewShape(names);
    var k := SpacedProgress(names, ops);
    var j := RunShape(NewNodes(names), 0, ops);
  }
}
