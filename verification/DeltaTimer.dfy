/**
 * timer.c in its own form: a linked list of delta nodes relinked in place, and the timer it drives. Every
 * method is one region that the C code runs under timer_mutex.
 */
module DeltaTimer {
  import opened Net
  import opened Interfaces
  import opened DeltaQueue
  import opened DeltaQueueSafety

  class DeltaNode {
    var next: DeltaNode?
    var msec: nat
    var ipAddr: Ip
    var pktList: seq<Packet>
    var retryAmt: nat

    ghost function Value(): Node
      reads this
    {
      Node(msec, ipAddr, pktList, retryAmt)
    }

    constructor (msec: nat, ip: Ip, pkt: Packet)
      ensures next == null && Value() == Node(msec, ip, [pkt], 0)
    {
      next := null;
      this.msec, ipAddr, pktList, retryAmt := msec, ip, [pkt], 0;
    }
  }

  ghost function NodeAt(nodes: seq<DeltaNode>, i: int): (n: DeltaNode?) {
    if 0 <= i < |nodes| then nodes[i] else null
  }

  /** Each node points to the next and the last one to `end`; so the nodes are distinct. */
  ghost predicate Linked(nodes: seq<DeltaNode>, end: DeltaNode?)
    reads nodes
  {
    && (forall i {:trigger nodes[i].next} :: 0 <= i < |nodes| ==>
        nodes[i].next == if i == |nodes| - 1 then end else NodeAt(nodes, i + 1))
    && (forall i, j :: 0 <= i < j < |nodes| ==> nodes[i] != nodes[j])
  }

  lemma UnlinkIsBypassAndPass(list: seq<Node>, i: nat)
    requires i < |list|
    ensures var without := list[..i] + list[i + 1..];
      Unlink(list, i) ==
        if i < |without| then without[i := without[i].(msec := without[i].msec + list[i].msec)] else without
  {
    UnlinkElements(list, i);
  }

  class Timer {
    var deltaList: DeltaNode?
    /** it_value of the POSIX timer in nanoseconds. */
    var remaining: nat
    /** A SIGALRM is on its way. */
    var pending: bool
    /** The ARP requests written to the interfaces. */
    var requests: seq<ArpRequest>

    ghost var nodes: seq<DeltaNode>
    ghost var state: State

    /** The heap list starting at `deltaList` consists of `nodes`, is acyclic, and holds `list`. */
    ghost predicate Represents(list: seq<Node>)
      reads this, nodes
    {
      && |nodes| == |list|
      && deltaList == NodeAt(nodes, 0)
      && (forall i {:trigger nodes[i].Value()} {:trigger list[i]} :: 0 <= i < |nodes| ==> nodes[i].Value() == list[i])
      && Linked(nodes, null)
    }

    ghost predicate Valid()
      reads this, nodes
    {
      && Represents(state.list)
      && GoodList(state.list)
      && state.remaining == remaining && state.pending == pending && state.requests == requests
    }

    constructor ()
      ensures Valid() && state == INIT && nodes == []
    {
      deltaList := null;
      remaining, pending, requests := 0, false, [];
      nodes, state := [], INIT;
    }

    /** `timer_settime` with a relative value. */
    method SetTime(ns: nat)
      modifies this`remaining
      ensures remaining == ns
    {
      remaining := ns;
    }

    method TimerAddPacket(pkt: Packet, intId: nat, dst: Ip)
      requires Valid()
      modifies this, nodes
      ensures Valid() && state == AddPacket(old(state), pkt, intId, dst)
      ensures forall i :: 0 <= i < |nodes| ==> nodes[i] in old(nodes) || fresh(nodes[i])
    {
      AddKeepsGood(state, pkt, intId, dst);
      var deltaNode, totalTime := ScanFor(dst);
      if deltaNode != null {
        deltaNode.pktList := deltaNode.pktList + [pkt];
        state := AddPacket(state, pkt, intId, dst);
      } else {
        AddNode(pkt, intId, dst, totalTime);
      }
    }

    /** The part of `timer_add_packet` for a destination that has no node yet. */
    method AddNode(pkt: Packet, intId: nat, dst: Ip, total: nat)
      requires Valid() && GoodList(AddPacket(state, pkt, intId, dst).list)
      requires IndexOf(state.list, dst) == |state.list| && total == Total(state.list)
      modifies this, nodes
      ensures Valid() && state == AddPacket(old(state), pkt, intId, dst)
      ensures forall i :: 0 <= i < |nodes| ==> nodes[i] in old(nodes) || fresh(nodes[i])
    {
      requests := requests + [ArpRequest(Some(intId), dst)];
      var totalTime := if total > 1000 then 1000 else total;
      if deltaList == null {
        SetTime(1_000_000_000);
      }
      AppendNode(1000 - totalTime, dst, pkt, state.list);
      state := AddPacket(state, pkt, intId, dst);
    }

    /** Allocates the node and puts it at the end. */
    method AppendNode(msec: nat, dst: Ip, pkt: Packet, ghost list: seq<Node>)
      requires Represents(list)
      modifies `deltaList, `nodes, nodes
      ensures Represents(list + [Node(msec, dst, [pkt], 0)])
      ensures forall i :: 0 <= i < |nodes| ==> nodes[i] in old(nodes) || fresh(nodes[i])
    {
      var newNode := new DeltaNode(msec, dst, pkt);
      LinkLast(newNode, list);
    }

    /** Finds the node for `dst`, adding up the deltas on the way. */
    method ScanFor(dst: Ip) returns (found: DeltaNode?, totalTime: nat)
      requires Valid()
      ensures found == NodeAt(nodes, IndexOf(state.list, dst))
      ensures found == null ==> totalTime == Total(state.list)
    {
      ghost var list := state.list;
      ghost var i := 0;
      totalTime := 0;
      found := deltaList;
      while found != null
        invariant 0 <= i <= |nodes| == |list|
        invariant found == NodeAt(nodes, i)
        invariant totalTime == Total(list[..i])
        invariant forall j :: 0 <= j < i ==> list[j].ip != dst
        decreases |nodes| - i
      {
        assert found.Value() == list[i];
        assert list[..i + 1] == list[..i] + [list[i]];
        TotalAppend(list[..i], [list[i]]);
        TotalOne(list[i]);
        totalTime := totalTime + found.msec;
        if found.ipAddr == dst {
          assert IndexOf(list, dst) == i;
          return;
        }
        found := found.next;
        i := i + 1;
      }
      assert list[..i] == list;
    }

    /** Puts `newNode` at the end of the list, empty or not. */
    method LinkLast(newNode: DeltaNode, ghost list: seq<Node>)
      requires Represents(list) && newNode !in nodes && newNode.next == null
      modifies `deltaList, `nodes, nodes
      ensures nodes == old(nodes) + [newNode]
      ensures Represents(list + [newNode.Value()])
    {
      if deltaList == null {
        deltaList := newNode;
      } else {
        ghost var i := 0;
        var last: DeltaNode := deltaList;
        while last.next != null
          invariant 0 <= i < |nodes| && last == nodes[i]
          modifies {}
          decreases |nodes| - i
        {
          last := last.next;
          i := i + 1;
        }
        last.next := newNode;
      }
      nodes := nodes + [newNode];
    }

    /** Returns the packets that the C code passes to `send_ipv4` after it has released the mutex. */
    method TimerUpdatePackets(dst: Ip) returns (pkts: seq<Packet>)
      requires Valid()
      modifies this, nodes
      ensures Valid() && state == Resolve(old(state), dst)
      ensures pkts == ResolvedPackets(old(state), dst)
      ensures forall i :: 0 <= i < |nodes| ==> nodes[i] in old(nodes)
    {
      var deltaNode, nodeSrc := FindWithOwner(dst);
      if deltaNode == null {
        return [];
      }
      assert deltaNode.Value() == state.list[IndexOf(state.list, dst)];
      pkts := deltaNode.pktList;
      RemoveNode(deltaNode, nodeSrc, dst);
    }

    /** The node for `dst` leaves the list, the timer passes to its successor. */
    method RemoveNode(deltaNode: DeltaNode, nodeSrc: DeltaNode?, ghost dst: Ip)
      requires Valid() && IndexOf(state.list, dst) < |state.list|
      requires deltaNode == nodes[IndexOf(state.list, dst)]
      requires nodeSrc == NodeAt(nodes, IndexOf(state.list, dst) - 1)
      modifies this, nodes
      ensures Valid() && state == Resolve(old(state), dst)
      ensures forall i :: 0 <= i < |nodes| ==> nodes[i] in old(nodes)
    {
      ghost var i := IndexOf(state.list, dst);
      UnlinkGood(state.list, i);
      Rearm(deltaNode, i);
      UnlinkNode(deltaNode, nodeSrc, i);
      state := Resolve(state, dst);
    }

    /** Sets the timer for the successor when the node that leaves is the head. */
    method Rearm(deltaNode: DeltaNode, ghost i: nat)
      requires Represents(state.list) && i < |nodes| && deltaNode == nodes[i]
      modifies `remaining
      ensures remaining == RemainingAfterUnlink(state.list, old(remaining), i)
    {
      if deltaNode == deltaList {
        if deltaNode.next == null {
          SetTime(0);
        } else {
          assert nodes[1].Value() == state.list[1];
          var extraMsec := deltaNode.next.msec;
          var nsec := remaining % 1_000_000_000;
          SetTime(nsec + extraMsec * 1_000_000);
        }
      }
    }

    /** The node for `dst` and the node whose `next` points to it. */
    method FindWithOwner(dst: Ip) returns (deltaNode: DeltaNode?, nodeSrc: DeltaNode?)
      requires Valid()
      ensures deltaNode == NodeAt(nodes, IndexOf(state.list, dst))
      ensures deltaNode != null ==> nodeSrc == NodeAt(nodes, IndexOf(state.list, dst) - 1)
    {
      ghost var list := state.list;
      ghost var i := 0;
      deltaNode := deltaList;
      nodeSrc := null;
      while deltaNode != null && deltaNode.ipAddr != dst
        invariant 0 <= i <= |nodes| == |list|
        invariant deltaNode == NodeAt(nodes, i)
        invariant nodeSrc == NodeAt(nodes, i - 1)
        invariant forall j :: 0 <= j < i ==> list[j].ip != dst
        decreases |nodes| - i
      {
        assert deltaNode.Value() == list[i];
        nodeSrc := deltaNode;
        deltaNode := deltaNode.next;
        i := i + 1;
      }
      if deltaNode != null {
        assert deltaNode.Value() == list[i];
      }
      assert IndexOf(list, dst) == i;
    }

    /** Bypasses `node`, the list's `i`-th, and hands its delta to its successor. */
    method UnlinkNode(node: DeltaNode, nodeSrc: DeltaNode?, ghost i: nat)
      requires Represents(state.list) && i < |nodes| && node == nodes[i] && nodeSrc == NodeAt(nodes, i - 1)
      modifies `deltaList, `nodes, nodes
      ensures Represents(Unlink(state.list, i))
      ensures nodes == old(nodes[..i] + nodes[i + 1..])
    {
      ghost var list, without := state.list, state.list[..i] + state.list[i + 1..];
      UnlinkIsBypassAndPass(list, i);
      assert node.msec == node.Value().msec == list[i].msec;
      Bypass(node, nodeSrc, i, list);
      PassOn(node, i, without, Unlink(list, i));
    }

    /** The delta of the bypassed node goes to its successor, if it has one. */
    method PassOn(node: DeltaNode, ghost k: nat, ghost list: seq<Node>, ghost after: seq<Node>)
      requires Represents(list) && k <= |nodes| && node.next == NodeAt(nodes, k)
      requires after == if k < |list| then list[k := list[k].(msec := list[k].msec + node.msec)] else list
      modifies nodes
      ensures Represents(after)
    {
      if node.next != null {
        PassDelta(node.next, node.msec, k, list);
      }
    }

    /** `*node_src = delta_node->next`. */
    method Bypass(node: DeltaNode, nodeSrc: DeltaNode?, ghost i: nat, ghost list: seq<Node>)
      requires Represents(list) && i < |nodes| && node == nodes[i] && nodeSrc == NodeAt(nodes, i - 1)
      modifies `deltaList, `nodes, nodes
      ensures Represents(list[..i] + list[i + 1..])
      ensures nodes == old(nodes[..i] + nodes[i + 1..])
      ensures forall k :: 0 <= k < |nodes| ==> nodes[k] in old(nodes)
      ensures node.msec == old(node.msec) && node.next == NodeAt(nodes, i)
    {
      ghost var before := nodes;
      if nodeSrc == null {
        deltaList := node.next;
      } else {
        nodeSrc.next := node.next;
      }
      nodes := before[..i] + before[i + 1..];
      assert forall k :: 0 <= k < i ==> nodes[k] == before[k];
      assert forall k :: i <= k < |nodes| ==> nodes[k] == before[k + 1];
    }

    /** `delta_node->next->msec += delta_node->msec`. */
    method PassDelta(successor: DeltaNode, msec: nat, ghost k: nat, ghost list: seq<Node>)
      requires Represents(list) && k < |nodes| && successor == nodes[k]
      modifies successor`msec
      ensures Represents(list[k := list[k].(msec := list[k].msec + msec)])
    {
      assert successor.Value() == list[k];
      successor.msec := successor.msec + msec;
    }

    method TimerHandler(table: seq<Config>)
      requires Valid()
      modifies this, nodes
      ensures Valid() && state == Tick(old(state), table)
      ensures forall i :: 0 <= i < |nodes| ==> nodes[i] in old(nodes)
    {
      pending := false;
      if deltaList == null {
        state := Tick(state, table);
        return;
      }
      ghost var start := Drained(state.list[0 := state.list[0].(msec := 0)], state.requests, state.gone);
      HandleDue(table, state.list, start);
      ArmForHead(Drain(start, table).list);
      state := Tick(state, table);
    }

    /** The head is due, whatever its delay says, and so are the nodes without delay behind it. */
    method HandleDue(table: seq<Config>, ghost list: seq<Node>, ghost start: Drained)
      requires Represents(list) && GoodList(list) && deltaList != null
      requires start.list == list[0 := list[0].(msec := 0)] && requests == start.requests
      modifies `deltaList, `nodes, `requests, nodes
      ensures Represents(Drain(start, table).list) && requests == Drain(start, table).requests
      ensures GoodList(Drain(start, table).list)
      ensures forall i :: 0 <= i < |nodes| ==> nodes[i] in old(nodes)
    {
      ZeroHeadKeepsGood(list);
      ClearHeadDelay(list);
      DrainDue(table, start);
    }

    /** `delta_list->msec = 0`. */
    method ClearHeadDelay(ghost list: seq<Node>)
      requires Represents(list) && deltaList != null
      modifies deltaList`msec
      ensures Represents(list[0 := list[0].(msec := 0)])
    {
      assert deltaList.Value() == list[0];
      deltaList.msec := 0;
    }

    /** Disables the timer for an empty list and sets it to the head's delay otherwise. */
    method ArmForHead(ghost list: seq<Node>)
      requires Represents(list)
      modifies `remaining
      ensures remaining == if list == [] then 0 else list[0].msec * NS_PER_MS
    {
      if deltaList == null {
        SetTime(0);
      } else {
        assert nodes[0].Value() == list[0];
        var msec := deltaList.msec;
        SetTime(msec * 1_000_000);
      }
    }

    /** The handler's loop. */
    method DrainDue(table: seq<Config>, ghost start: Drained)
      requires Represents(start.list) && GoodList(start.list) && requests == start.requests
      modifies `deltaList, `nodes, `requests, nodes
      ensures Represents(Drain(start, table).list) && requests == Drain(start, table).requests
      ensures GoodList(Drain(start, table).list)
      ensures forall i :: 0 <= i < |nodes| ==> nodes[i] in old(nodes)
    {
      ghost var d := start;
      while deltaList != null && deltaList.msec == 0
        invariant Represents(d.list) && GoodList(d.list)
        invariant requests == d.requests
        invariant Drain(d, table) == Drain(start, table)
        invariant forall i :: 0 <= i < |nodes| ==> nodes[i] in old(nodes)
        decreases Budget(d.list)
      {
        assert nodes[0].Value() == d.list[0];
        DrainStepKeepsGood(d, table);
        HandleHead(table, d);
        d := DrainStep(d, table);
      }
      if deltaList != null {
        assert nodes[0].Value() == d.list[0];
      }
    }

    /** One round of the handler's loop: the head is discarded, or asks again and goes to the end. */
    method HandleHead(table: seq<Config>, ghost d: Drained)
      requires Represents(d.list) && deltaList != null && requests == d.requests
      modifies `deltaList, `nodes, `requests, nodes
      ensures Represents(DrainStep(d, table).list) && requests == DrainStep(d, table).requests
      ensures forall i :: 0 <= i < |nodes| ==> nodes[i] in old(nodes)
    {
      var deltaNode := deltaList;
      assert deltaNode.Value() == d.list[0];
      PopHead(d.list);
      if deltaNode.retryAmt < 1 {
        var intId := BestMatch(table, deltaNode.ipAddr);
        requests := requests + [ArpRequest(intId, deltaNode.ipAddr)];
        deltaNode.retryAmt := deltaNode.retryAmt + 1;
        Requeue(deltaNode, d.list[1..]);
      }
    }

    method PopHead(ghost list: seq<Node>)
      requires Represents(list) && deltaList != null
      modifies `deltaList, `nodes
      ensures nodes == old(nodes[1..]) && old(deltaList) !in nodes
      ensures Represents(list[1..])
    {
      deltaList := deltaList.next;
      nodes := nodes[1..];
    }

    /** Gives `deltaNode` the delay that is missing from a full second and puts it at the end. */
    method Requeue(deltaNode: DeltaNode, ghost rest: seq<Node>)
      requires Represents(rest) && deltaNode !in nodes
      modifies `deltaList, `nodes, deltaNode, nodes
      ensures nodes == old(nodes) + [deltaNode]
      ensures Represents(rest + [old(deltaNode.Value()).(msec := TailDelay(rest))])
    {
      var totalTime := TotalTime(rest);
      if totalTime > 1000 {
        totalTime := 1000;
      }
      deltaNode.msec := 1000 - totalTime;
      deltaNode.next := null;
      LinkLast(deltaNode, rest);
    }

    /** Sums the deltas of the whole list. */
    method TotalTime(ghost list: seq<Node>) returns (total: nat)
      requires Represents(list)
      ensures total == Total(list)
    {
      total := 0;
      ghost var i := 0;
      var node := deltaList;
      while node != null
        invariant 0 <= i <= |nodes| == |list|
        invariant node == NodeAt(nodes, i)
        invariant total == Total(list[..i])
        modifies {}
        decreases |nodes| - i
      {
        assert list[..i + 1] == list[..i] + [list[i]];
        TotalAppend(list[..i], [list[i]]);
        TotalOne(list[i]);
        total := total + node.msec;
        node := node.next;
        i := i + 1;
      }
      assert list[..i] == list;
    }
  }
}
