/** The process list of radproclist.c: entries by ascending start priority. */
module RadProcList {
  import opened RadList
  import opened Sequences
  import opened StableSort

  class Proc {
    const priority: int
    const entry: int
    const args: int
    var pid: int

    constructor (priority: int, entry: int, args: int)
      ensures this.priority == priority && this.entry == entry && this.args == args && pid == 0
    {
      this.priority, this.entry, this.args, pid := priority, entry, args, 0;
    }
  }

  function Priority(p: Proc?): int {
    if p == null then 0 else p.priority
  }

  /** Priorities as radPlistAdd admits them, sorted; no process is listed twice. */
  ghost predicate StartOrder(procs: seq<Proc?>) {
    && Sorted(procs, Priority)
    && (forall i | 0 <= i < |procs| :: procs[i] != null && 1 <= procs[i].priority <= 100)
    && (forall i, j | 0 <= i < j < |procs| :: procs[i] != procs[j])
  }

  lemma {:induction false} StartOrderWith(procs: seq<Proc?>, p: Proc)
    requires StartOrder(procs) && p !in procs && 1 <= p.priority <= 100
    ensures StartOrder(InsertStable(procs, p, Priority))
  {
    hide InsertStable, Place, Sorted, With;
    InsertKeepsSorted(procs, p, Priority);
    var k := PlaceExists(procs, p, Priority);
    InsertStableAt(procs, p, Priority, k);
    PlaceIsWithin(procs, p, k);
    WithIsListed(procs, p, k);
  }

  lemma {:induction false} PlaceIsWithin(procs: seq<Proc?>, p: Proc, k: nat)
    requires Place(procs, p, Priority, k)
    ensures k <= |procs|
  {
  }

  lemma {:induction false} WithIsListed(procs: seq<Proc?>, p: Proc, k: nat)
    requires k <= |procs| && p !in procs && 1 <= p.priority <= 100
    requires forall i | 0 <= i < |procs| :: procs[i] != null && 1 <= procs[i].priority <= 100
    requires forall i, j | 0 <= i < j < |procs| :: procs[i] != procs[j]
    ensures var s := With(procs, k, p);
      && (forall i | 0 <= i < |s| :: s[i] != null && 1 <= s[i].priority <= 100)
      && forall i, j | 0 <= i < j < |s| :: s[i] != s[j]
  {
    var s := With(procs, k, p);
    assert forall i | 0 <= i < |s| :: s[i] == if i < k then procs[i] else if i == k then p else procs[i - 1];
  }

  /** Processes with a process id. */
  ghost function Running(procs: seq<Proc?>): nat
    reads set p | p in procs
  {
    if procs == [] then 0
    else
      var last := procs[|procs| - 1];
      Running(procs[..|procs| - 1]) + (if last != null && last.pid > 0 then 1 else 0)
  }

  /** The processes that have one. */
  ghost function WithPid(procs: seq<Proc?>): set<Proc?>
    reads set p | p in procs
  {
    set p | p in procs && p != null && p.pid > 0
  }

  /** That is how many there are, if none is listed twice. */
  lemma {:induction false} RunningIs(procs: seq<Proc?>)
    requires forall i | 0 <= i < |procs| :: procs[i] != null
    requires forall i, j | 0 <= i < j < |procs| :: procs[i] != procs[j]
    ensures Running(procs) == |WithPid(procs)|
  {
    if procs != [] {
      var front, last := procs[..|procs| - 1], procs[|procs| - 1];
      RunningIs(front);
      assert procs == front + [last];
      var a, b := WithPid(procs), WithPid(front);
      assert last !in b;
      assert a == if last.pid > 0 then b + {last} else b;
    }
  }

  lemma {:induction false} OrderedRunning(procs: seq<Proc?>)
    requires StartOrder(procs)
    ensures Running(procs) == |WithPid(procs)| && procs[..0] == []
    ensures forall i | 0 <= i < |procs| :: procs[i] != null
  {
    RunningIs(procs);
  }

  class ProcList {
    const procList: List<Proc?>
    var hasStarted: bool
    ghost var added: seq<Proc?>

    ghost predicate Valid()
      reads this, procList, procList.Chain()
    {
      procList.Valid() && StartOrder(Procs()) && Procs() == AddAll(added, Priority)
    }

    ghost function Procs(): seq<Proc?>
      reads procList
    {
      Items(procList.nodes)
    }

    /** radProcListCreate. */
    constructor ()
      ensures Valid() && added == [] && !hasStarted
    {
      procList := new List<Proc?>();
      hasStarted := false;
      added := [];
    }

    /** The search of insertAscending: the last node before the first with a greater priority. */
    method LastNotAbove(p: Proc) returns (insertAfter: Node?<Proc?>, ghost k: nat)
      requires procList.Valid() && StartOrder(Procs())
      ensures k <= |procList.nodes| && Place(Procs(), p, Priority, k)
      ensures insertAfter == if k == 0 then null else procList.nodes[k - 1]
    {
      hide Distinct, Linked, Sorted, Items;
      ghost var nodes := procList.nodes;
      k := 0;
      insertAfter := null;
      var node := procList.GetFirst();
      while node != null
        invariant k <= |nodes| && node == if k < |nodes| then nodes[k] else null
        invariant insertAfter == if k == 0 then null else nodes[k - 1]
        invariant forall i | 0 <= i < k :: Priority(Items(nodes)[i]) <= p.priority
        decreases |nodes| - k
      {
        if node.data.priority > p.priority {
          break;
        }
        insertAfter := node;
        node := procList.GetNext(node, k);
        k := k + 1;
      }
    }

    /** insertAscending, for the node made for process p. */
    method InsertAscending(newNode: Node<Proc?>, p: Proc)
      requires procList.Valid() && StartOrder(Procs()) && newNode !in procList.Chain() && newNode.data == p
      modifies procList`noNodes, procList`nodes, procList.Chain()`nextNode, procList.Chain()`prevNode, newNode`nextNode,
        newNode`prevNode
      ensures procList.Valid() && Procs() == InsertStable(old(Procs()), p, Priority)
    {
      hide Distinct, Linked, InsertStable, Place, StartOrder;
      ghost var nodes := procList.nodes;
      var insertAfter, k := LastNotAbove(p);
      InsertStableAt(Items(nodes), p, Priority, k);
      ItemsWith(nodes, k, newNode);
      if insertAfter == null {
        procList.AddToFront(newNode);
      } else {
        procList.InsertAfter(insertAfter, newNode, k - 1);
      }
    }

    /** radPlistAdd: ERROR for a priority outside 1 to 100. */
    method Add(entry: int, args: int, priority: int) returns (ok: bool, ghost p: Proc?)
      requires Valid()
      modifies this`added, procList`noNodes, procList`nodes, procList.Chain()`nextNode, procList.Chain()`prevNode
      ensures Valid() && (ok <==> 1 <= priority <= 100)
      ensures !ok ==> added == old(added) && Procs() == old(Procs())
      ensures ok ==> p != null && fresh(p) && p.priority == priority && p.entry == entry && p.args == args && p.pid == 0
      ensures ok ==> added == old(added) + [p] && Procs() == InsertStable(old(Procs()), p, Priority)
    {
      hide Distinct, Linked, InsertStable, StartOrder, AddAll;
      if priority < 1 || priority > 100 {
        return false, null;
      }
      var proc := new Proc(priority, entry, args);
      StartOrderWith(Procs(), proc);
      var newNode := new Node<Proc?>(proc);
      AddAllOne(added, proc, Priority);
      InsertAscending(newNode, proc);
      added := added + [proc];
      return true, proc;
    }

    /** The loop of radPlistStart. */
    method StartAll(pids: seq<int>) returns (started: seq<Proc?>)
      requires procList.Valid() && StartOrder(Procs()) && |Procs()| <= |pids|
      modifies Procs()`pid
      ensures started == Procs() && forall i | 0 <= i < |started| :: started[i].pid == pids[i]
    {
      hide Distinct, Linked, Sorted;
      ghost var procs, k := Procs(), 0;
      started := [];
      var node := procList.GetFirst();
      while node != null
        invariant k <= |procs| && node == if k < |procs| then procList.nodes[k] else null
        invariant started == procs[..k] && forall i | 0 <= i < k :: procs[i].pid == pids[i]
        decreases |procs| - k
      {
        var proc := node.data;
        proc.pid := pids[|started|];
        started := started + [proc];
        node := procList.GetNext(node, k);
        k := k + 1;
      }
      assert procs[..k] == procs;
    }

    /** radPlistStart; the i-th process started gets process id pids[i]. Processes start once,
        by ascending priority, in the order they were added within a priority. */
    method Start(pids: seq<int>) returns (ok: bool, started: seq<Proc?>)
      requires Valid() && |Procs()| <= |pids|
      modifies this`hasStarted, Procs()`pid
      ensures Valid() && hasStarted && added == old(added) && Procs() == old(Procs()) && (ok <==> !old(hasStarted))
      ensures !ok ==> started == [] && forall p | p in Procs() :: p.pid == old(p.pid)
      ensures ok ==> StableSorted(started, added, Priority)
      ensures ok ==> started == Procs() && forall i | 0 <= i < |started| :: started[i].pid == pids[i]
      ensures forall i | 0 <= i < |started| :: started[i] != null
      ensures forall i, j | 0 <= i < j < |started| :: started[i].priority <= started[j].priority
    {
      hide Distinct, Linked, StableSorted, AddAll;
      AddsSortStably(added, Priority);
      started := [];
      if hasStarted {
        return false, started;
      }
      hasStarted := true;
      started := StartAll(pids);
      return true, started;
    }

    /** radPlistGetNumberRunning. */
    method GetNumberRunning() returns (count: int)
      requires Valid()
      ensures count == Running(Procs())
      ensures count == |WithPid(Procs())|
    {
      hide Distinct, Linked, Sorted, AddAll, Items, WithPid, StartOrder;
      ghost var procs, k := Procs(), 0;
      OrderedRunning(procs);
      count := 0;
      var node := procList.GetFirst();
      while node != null
        invariant k <= |procs| && node == if k < |procs| then procList.nodes[k] else null
        invariant count == Running(procs[..k])
        decreases |procs| - k
      {
        assert procs[..k + 1][..k] == procs[..k];
        if node.data.pid > 0 {
          count := count + 1;
        }
        node := procList.GetNext(node, k);
        k := k + 1;
      }
      assert procs[..k] == procs;
    }
  }
}
