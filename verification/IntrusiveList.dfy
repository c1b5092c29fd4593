/** The intrusive circular list (misc/include/misc/list.h) and the connection table that uses it
    (tcp/src/tcp_process.c). A node embeds the list entry and the file descriptor of its connection. */
module IntrusiveLists {

  class Node {
    var next: Node?
    var prev: Node?
    const fd: int

    /** calloc-like: a zeroed entry. */
    constructor (fd: int)
      ensures next == null && prev == null && this.fd == fd
    {
      next, prev := null, null;
      this.fd := fd;
    }
  }

  /** Once around: the head, the elements, and the head again. */
  ghost function Path(head: Node, elems: seq<Node>): (p: seq<Node>)
    ensures |p| == |elems| + 2 && p[0] == head && p[|elems| + 1] == head
    ensures forall k :: 1 <= k <= |elems| ==> p[k] == elems[k - 1]
  {
    [head] + elems + [head]
  }

  /** The heap structure behind `head` represents the sequence `elems`: distinct nodes, linked both ways round. */
  ghost predicate IsRing(head: Node, elems: seq<Node>)
    reads head, elems
  {
    && head !in elems
    && (forall j, k :: 0 <= j < k < |elems| ==> elems[j] != elems[k])
    && Linked(Path(head, elems))
  }

  ghost predicate Linked(p: seq<Node>)
    reads p
  {
    forall k :: 0 <= k < |p| - 1 ==> p[k].next == p[k + 1] && p[k + 1].prev == p[k]
  }

  /** next and prev are inverse to each other all around the ring. */
  lemma RingInverse(head: Node, elems: seq<Node>, x: Node)
    requires IsRing(head, elems) && (x == head || x in elems)
    ensures x.next != null && x.next.prev == x && x.prev != null && x.prev.next == x
  {
    var p := Path(head, elems);
    if x == head {
      assert p[0].next == p[1] && p[|elems|].next == p[|elems| + 1];
    } else {
      var k :| 0 <= k < |elems| && elems[k] == x;
      assert p[k + 1].next == p[k + 2] && p[k].next == p[k + 1];
    }
  }

  /** The heap determines the represented sequence. */
  lemma {:induction false} RingUnique(head: Node, a: seq<Node>, b: seq<Node>)
    requires IsRing(head, a) && IsRing(head, b)
    ensures a == b
  {
    var n := if |a| <= |b| then |a| else |b|;
    RingAgree(head, a, b, n);
    assert |a| == |b|;
  }

  lemma {:induction false} RingAgree(head: Node, a: seq<Node>, b: seq<Node>, n: nat)
    requires IsRing(head, a) && IsRing(head, b) && n <= |a| && n <= |b|
    ensures a[..n] == b[..n] && Path(head, a)[n] == Path(head, b)[n] && Path(head, a)[n + 1] == Path(head, b)[n + 1]
  {
    if n > 0 {
      RingAgree(head, a, b, n - 1);
      assert a[..n] == a[..n - 1] + [a[n - 1]] && b[..n] == b[..n - 1] + [b[n - 1]];
    }
    assert Path(head, a)[n].next == Path(head, a)[n + 1] && Path(head, b)[n].next == Path(head, b)[n + 1];
  }

  // ----- reading -----

  method First(list: Node, ghost elems: seq<Node>) returns (r: Node)
    requires IsRing(list, elems)
    ensures r == if elems == [] then list else elems[0]
  {
    assert Path(list, elems)[0].next == Path(list, elems)[1];
    r := list.next;
  }

  method Last(list: Node, ghost elems: seq<Node>) returns (r: Node)
    requires IsRing(list, elems)
    ensures r == if elems == [] then list else elems[|elems| - 1]
  {
    assert Path(list, elems)[|elems| + 1].prev == Path(list, elems)[|elems|];
    r := list.prev;
  }

  method IsEmpty(list: Node, ghost elems: seq<Node>) returns (r: bool)
    requires IsRing(list, elems)
    ensures r <==> elems == []
  {
    assert Path(list, elems)[0].next == Path(list, elems)[1];
    r := list == list.next;
  }

  predicate IsValidElem(list: Node, elem: Node) {
    elem != list
  }

  // ----- changing -----

  method Init(list: Node)
    modifies list
    ensures IsRing(list, [])
  {
    list.next, list.prev := list, list;
  }

  /** `elems` with `x` as its element number `k`. */
  ghost function Inserted(elems: seq<Node>, k: nat, x: Node): seq<Node>
    requires k <= |elems|
  {
    elems[..k] + [x] + elems[k..]
  }

  ghost function Removed(elems: seq<Node>, k: nat): seq<Node>
    requires k < |elems|
  {
    elems[..k] + elems[k + 1..]
  }

  /** The path around the ring with a new node between positions `k` and `k + 1`. */
  lemma InsertedPath(head: Node, elems: seq<Node>, k: nat, x: Node)
    requires k <= |elems|
    ensures var p, q := Path(head, elems), Path(head, Inserted(elems, k, x));
            && |q| == |p| + 1 && q[k + 1] == x
            && (forall j :: 0 <= j <= k ==> q[j] == p[j])
            && (forall j :: k + 2 <= j < |q| ==> q[j] == p[j - 1])
  {
    assert Inserted(elems, k, x)[..k] == elems[..k];
  }

  lemma RemovedPath(head: Node, elems: seq<Node>, k: nat)
    requires k < |elems|
    ensures var p, q := Path(head, elems), Path(head, Removed(elems, k));
            && |q| == |p| - 1
            && (forall j :: 0 <= j <= k ==> q[j] == p[j])
            && (forall j :: k < j < |q| ==> q[j] == p[j + 1])
  {
  }

  /** A list operation either traps, because the new element is already linked somewhere, and changes nothing, or
      inserts the element at position `k`. */
  twostate predicate InsertedOrTrapped(list: Node, elems: seq<Node>, k: nat, x: Node, trapped: bool)
    requires k <= |elems|
    reads list, elems, x
  {
    && (trapped <==> old(x.next) != null || old(x.prev) != null)
    && (trapped ==> unchanged(list) && unchanged(elems) && unchanged(x))
    && (!trapped ==> IsRing(list, Inserted(elems, k, x)))
  }

  lemma UnlinkedIsOutside(head: Node, elems: seq<Node>, x: Node)
    requires IsRing(head, elems) && x.next == null
    ensures x != head && x !in elems
  {
    if x == head || x in elems {
      RingInverse(head, elems, x);
    }
  }

  method AddFront(list: Node, newElem: Node, ghost elems: seq<Node>) returns (trapped: bool)
    requires IsRing(list, elems)
    modifies list, newElem, list.next
    ensures InsertedOrTrapped(list, elems, 0, newElem, trapped)
  {
    if newElem.next != null || newElem.prev != null {
      return true;
    }
    UnlinkedIsOutside(list, elems, newElem);
    InsertedPath(list, elems, 0, newElem);
    assert Path(list, elems)[0].next == Path(list, elems)[1];
    newElem.next := list.next;
    newElem.prev := list;
    list.next.prev := newElem;
    list.next := newElem;
    trapped := false;
  }

  method AddBack(list: Node, newElem: Node, ghost elems: seq<Node>) returns (trapped: bool)
    requires IsRing(list, elems)
    modifies list, newElem, list.prev
    ensures InsertedOrTrapped(list, elems, |elems|, newElem, trapped)
  {
    if newElem.next != null || newElem.prev != null {
      return true;
    }
    UnlinkedIsOutside(list, elems, newElem);
    InsertedPath(list, elems, |elems|, newElem);
    assert Path(list, elems)[|elems|].next == Path(list, elems)[|elems| + 1];
    newElem.next := list;
    newElem.prev := list.prev;
    list.prev.next := newElem;
    list.prev := newElem;
    trapped := false;
  }

  /** `elem` is at position `k` of the path; position 0 is the head itself. */
  method InsertAfter(list: Node, elem: Node, newElem: Node, ghost elems: seq<Node>,
      ghost k: nat) returns (trapped: bool)
    requires IsRing(list, elems) && k <= |elems| && elem == Path(list, elems)[k]
    modifies elem, newElem, elem.next
    ensures InsertedOrTrapped(list, elems, k, newElem, trapped)
  {
    if newElem.next != null || newElem.prev != null {
      return true;
    }
    UnlinkedIsOutside(list, elems, newElem);
    InsertedPath(list, elems, k, newElem);
    assert Path(list, elems)[k].next == Path(list, elems)[k + 1];
    newElem.next := elem.next;
    newElem.prev := elem;
    elem.next.prev := newElem;
    elem.next := newElem;
    trapped := false;
  }

  /** `elem` is at position `k + 1` of the path; the last position is the head again. */
  method InsertBefore(list: Node, elem: Node, newElem: Node, ghost elems: seq<Node>,
      ghost k: nat) returns (trapped: bool)
    requires IsRing(list, elems) && k <= |elems| && elem == Path(list, elems)[k + 1]
    modifies elem, newElem, elem.prev
    ensures InsertedOrTrapped(list, elems, k, newElem, trapped)
  {
    if newElem.next != null || newElem.prev != null {
      return true;
    }
    UnlinkedIsOutside(list, elems, newElem);
    InsertedPath(list, elems, k, newElem);
    assert Path(list, elems)[k].next == Path(list, elems)[k + 1];
    newElem.next := elem;
    newElem.prev := elem.prev;
    elem.prev.next := newElem;
    elem.prev := newElem;
    trapped := false;
  }

  /** The code does not check that the new element is outside the list; exactly then it takes the place of the old. */
  method Replace(list: Node, elem: Node, newElem: Node, ghost elems: seq<Node>, ghost k: nat)
    requires IsRing(list, elems) && k < |elems| && elem == elems[k]
    modifies elem, newElem, elem.next, elem.prev
    ensures IsRing(list, elems[k := newElem]) <==> newElem != list && newElem !in elems
    ensures elem.next == null && elem.prev == null
  {
    ghost var p := Path(list, elems);
    ghost var q := Path(list, elems[k := newElem]);
    assert p[k].next == p[k + 1] && p[k + 1].next == p[k + 2];
    assert forall j :: 0 <= j < |q| ==> q[j] == if j == k + 1 then newElem else p[j];
    newElem.next := elem.next;
    newElem.prev := elem.prev;
    elem.next.prev := newElem;
    elem.prev.next := newElem;
    elem.next, elem.prev := null, null;
    if newElem == list || newElem in elems {
      NotReplaced(list, elems, k, newElem);
    }
  }

  lemma NotReplaced(head: Node, elems: seq<Node>, k: nat, x: Node)
    requires k < |elems| && elems[k].next == null && (x == head || x in elems)
    ensures !IsRing(head, elems[k := x])
  {
    var replaced := elems[k := x];
    assert replaced[k] == x;
    if x in elems {
      var j :| 0 <= j < |elems| && elems[j] == x;
      if j != k {
        assert replaced[j] == replaced[k];
      } else if IsRing(head, replaced) {
        RingInverse(head, replaced, x);
        assert false;
      }
    }
  }

  method Remove(list: Node, elem: Node, ghost elems: seq<Node>, ghost k: nat)
    requires IsRing(list, elems) && k < |elems| && elem == elems[k]
    modifies elem, elem.next, elem.prev
    ensures IsRing(list, Removed(elems, k))
    ensures elem.next == null && elem.prev == null
  {
    ghost var p := Path(list, elems);
    assert p[k].next == p[k + 1] && p[k + 1].next == p[k + 2];
    RemovedPath(list, elems, k);
    elem.prev.next := elem.next;
    elem.next.prev := elem.prev;
    elem.next, elem.prev := null, null;
  }

  // ----- the connection table of the TCP server -----

  /** What the select loop finds on a connection: nothing to read (or a full buffer), data whose callback may raise the
      exit flag, or a failed or empty read. */
  datatype Event = Quiet | Data(exit: bool) | Closed

  class Server {
    var connectionCnt: int
    const list: Node
    ghost var conns: seq<Node>
    var closed: seq<int>      // history: descriptors closed, in order

    ghost predicate Valid()
      reads this, list, conns
    {
      IsRing(list, conns) && connectionCnt == |conns|
    }

    constructor ()
      ensures Valid() && conns == [] && closed == [] && fresh(list)
    {
      connectionCnt := 0;
      list := new Node(-1);
      conns, closed := [], [];
      new;
      Init(list);
    }

    /** `mallocOk` is whether malloc succeeded. The debug trap of the list never fires on a fresh connection. */
    method ConnectionAdd(fd: int, mallocOk: bool) returns (connection: Node?)
      requires Valid()
      modifies this, list, conns
      ensures Valid() && closed == old(closed)
      ensures !mallocOk ==> connection == null && conns == old(conns)
      ensures mallocOk ==> connection != null && fresh(connection) && connection.fd == fd
      ensures mallocOk ==> conns == old(conns) + [connection]
    {
      if !mallocOk {
        return null;
      }
      var c := new Node(fd);
      LastInside(list, conns);
      var trapped := AddBack(list, c, conns);
      assert !trapped;
      assert Inserted(conns, |conns|, c) == conns + [c];
      conns := conns + [c];
      connectionCnt := connectionCnt + 1;
      connection := c;
    }

    method ConnectionDelete(connection: Node, ghost k: nat)
      requires Valid() && k < |conns| && connection == conns[k]
      modifies this, list, conns
      ensures Valid() && conns == Removed(old(conns), k) && closed == old(closed) + [connection.fd]
      ensures connection.next == null && connection.prev == null
    {
      NeighboursInside(list, conns, k);
      Remove(list, connection, conns, k);
      conns := Removed(conns, k);
      connectionCnt := connectionCnt - 1;
      closed := closed + [connection.fd];
    }

    /** Ends with an empty list; every connection was closed once, in list order. */
    method Destroy()
      requires Valid()
      modifies this, list, conns
      ensures Valid() && conns == [] && connectionCnt == 0
      ensures closed == old(closed) + Fds(old(conns), |old(conns)|)
    {
      hide IsRing, Removed;
      ghost var orig := conns;
      ghost var k := 0;
      var empty := IsEmpty(list, conns);
      while !empty
        invariant 0 <= k <= |orig| && Valid() && conns == orig[k..]
        invariant empty <==> conns == []
        invariant closed == old(closed) + Fds(orig, k)
        decreases |conns|
      {
        var item := First(list, conns);
        RemovedFirst(conns);
        ConnectionDelete(item, 0);
        k := k + 1;
        empty := IsEmpty(list, conns);
      }
    }

    /** The body of the server loop for one connection, after its successor was read. */
    method Visit(connection: Node, event: Event, ghost kept: seq<Node>, ghost rest: seq<Node>) returns (exitFlag: bool)
      requires Valid() && conns == kept + [connection] + rest
      modifies this, list, conns
      ensures Valid() && conns == kept + (if event == Closed then [] else [connection]) + rest
      ensures closed == old(closed) + if event == Closed then [connection.fd] else []
      ensures exitFlag <==> event == Data(true)
    {
      hide IsRing, Removed;
      exitFlag := false;
      match event {
        case Quiet =>
        case Data(exit) =>
          exitFlag := exit;
        case Closed =>
          assert conns[|kept|] == connection;
          RemovedAt(kept, connection, rest);
          ConnectionDelete(connection, |kept|);
      }
    }

    /** One round of the loop: the successor is read before the connection may be deleted. */
    method VisitNext(item: Node, event: Event, ghost kept: seq<Node>, ghost rest: seq<Node>)
        returns (next: Node, exitFlag: bool)
      requires Valid() && conns == kept + [item] + rest
      modifies this, list, conns
      ensures Valid() && conns == kept + (if event == Closed then [] else [item]) + rest
      ensures next == if rest != [] then rest[0] else list
      ensures closed == old(closed) + if event == Closed then [item.fd] else []
      ensures exitFlag <==> event == Data(true)
    {
      hide IsRing, Removed;
      NextInRing(list, conns, |kept|);
      next := item.next;
      exitFlag := Visit(item, event, kept, rest);
    }

    /** One pass of the server loop over its connections; `events[j]` is what the pass finds on the `j`-th of them. */
    method Sweep(events: seq<Event>) returns (visited: seq<int>, exitFlag: bool)
      requires Valid() && |events| == |conns|
      modifies this, list, conns
      ensures Valid()
      ensures exitFlag <==> Data(true) in events
      ensures visited == Fds(old(conns), Visits(events))
      ensures conns == Kept(old(conns), events, Visits(events)) + old(conns)[Visits(events)..]
      ensures closed == old(closed) + ClosedFds(old(conns), events, Visits(events))
    {
      hide IsRing, Path, Linked, Removed, Inserted, Visits, SeenExit, Kept, Fds, ClosedFds;
      HeadOutside(list, conns);
      ghost var orig := conns;
      SweepStart(orig, events);
      var k := 0;
      visited, exitFlag := [], false;
      var item := First(list, conns);
      while !exitFlag && IsValidElem(list, item)
        invariant 0 <= k <= |orig| && Valid() && list !in orig
        invariant conns == Kept(orig, events, k) + orig[k..]
        invariant item == (if k < |orig| then orig[k] else list)
        invariant visited == Fds(orig, k)
        invariant closed == old(closed) + ClosedFds(orig, events, k)
        invariant SeenExit(events, k, exitFlag)
        decreases |orig| - k, !exitFlag
      {
        SweepNext(orig, events, k);
        StillInside(orig, events, k, conns);
        visited := visited + [item.fd];
        item, exitFlag := VisitNext(item, events[k], Kept(orig, events, k), orig[k + 1..]);
        k := k + 1;
      }
      VisitsAre(events, k, exitFlag);
    }
  }

  lemma SweepStart(orig: seq<Node>, events: seq<Event>)
    requires |orig| == |events|
    ensures Fds(orig, 0) == [] && Kept(orig, events, 0) + orig[0..] == orig && ClosedFds(orig, events, 0) == []
    ensures SeenExit(events, 0, false)
  {
  }

  lemma SweepNext(orig: seq<Node>, events: seq<Event>, k: nat)
    requires k < |orig| == |events| && SeenExit(events, k, false)
    ensures Kept(orig, events, k) + orig[k..] == Kept(orig, events, k) + [orig[k]] + orig[k + 1..]
    ensures Fds(orig, k + 1) == Fds(orig, k) + [orig[k].fd]
    ensures Kept(orig, events, k + 1) == Kept(orig, events, k) + if events[k] == Closed then [] else [orig[k]]
    ensures ClosedFds(orig, events, k + 1) == ClosedFds(orig, events, k) + if events[k] == Closed then [orig[k].fd]
        else []
    ensures SeenExit(events, k + 1, events[k] == Data(true))
  {
  }

  lemma {:induction false} KeptInside(conns: seq<Node>, events: seq<Event>, k: nat)
    requires k <= |conns| == |events|
    ensures forall c :: c in Kept(conns, events, k) + conns[k..] ==> c in conns
  {
    if k > 0 {
      KeptInside(conns, events, k - 1);
    }
  }

  lemma StillInside(orig: seq<Node>, events: seq<Event>, k: nat, conns: seq<Node>)
    requires k <= |orig| == |events| && conns == Kept(orig, events, k) + orig[k..]
    ensures forall j :: 0 <= j < |conns| ==> conns[j] in orig
  {
    hide Kept;
    KeptInside(orig, events, k);
  }

  lemma RemovedAt(kept: seq<Node>, c: Node, rest: seq<Node>)
    ensures Removed(kept + [c] + rest, |kept|) == kept + rest
  {
  }

  lemma NextInRing(list: Node, conns: seq<Node>, k: nat)
    requires IsRing(list, conns) && k < |conns|
    ensures conns[k] != list && conns[k].next == if k + 1 < |conns| then conns[k + 1] else list
  {
    assert Path(list, conns)[k + 1].next == Path(list, conns)[k + 2];
  }

  lemma HeadOutside(list: Node, conns: seq<Node>)
    requires IsRing(list, conns)
    ensures list !in conns
  {
  }

  lemma RemovedFirst(conns: seq<Node>)
    requires conns != []
    ensures Removed(conns, 0) == conns[1..]
  {
  }

  lemma LastInside(list: Node, conns: seq<Node>)
    requires IsRing(list, conns)
    ensures list.prev != null && (list.prev == list || list.prev in conns)
  {
    assert Path(list, conns)[|conns|].next == Path(list, conns)[|conns| + 1];
  }

  lemma NeighboursInside(list: Node, conns: seq<Node>, k: nat)
    requires IsRing(list, conns) && k < |conns|
    ensures var x := conns[k];
            && x.next != null && (x.next == list || x.next in conns)
            && x.prev != null && (x.prev == list || x.prev in conns)
  {
    var p := Path(list, conns);
    assert p[k].next == p[k + 1] && p[k + 1].next == p[k + 2];
  }

  /** The descriptors of the first `k` connections. */
  ghost function Fds(conns: seq<Node>, k: nat): seq<int>
    requires k <= |conns|
  {
    if k == 0 then [] else Fds(conns, k - 1) + [conns[k - 1].fd]
  }

  /** Those of the first `k` connections that were not closed. */
  ghost function Kept(conns: seq<Node>, events: seq<Event>, k: nat): seq<Node>
    requires k <= |conns| == |events|
  {
    if k == 0 then []
    else Kept(conns, events, k - 1) + if events[k - 1] == Closed then [] else [conns[k - 1]]
  }

  /** The descriptors of those that were. */
  ghost function ClosedFds(conns: seq<Node>, events: seq<Event>, k: nat): seq<int>
    requires k <= |conns| == |events|
  {
    if k == 0 then []
    else ClosedFds(conns, events, k - 1) + if events[k - 1] == Closed then [conns[k - 1].fd] else []
  }

  /** How many connections a pass visits: up to and including the first whose callback raises the exit flag. */
  ghost function Visits(events: seq<Event>): (n: nat)
    ensures n <= |events|
    ensures forall j :: 0 <= j < n - 1 ==> events[j] != Data(true)
    ensures n < |events| ==> n > 0 && events[n - 1] == Data(true)
  {
    if events == [] then 0 else if events[0] == Data(true) then 1 else 1 + Visits(events[1..])
  }

  /** Among the first `k` events, only the last may have raised the exit flag, and it did exactly if `stopped`. */
  ghost predicate SeenExit(events: seq<Event>, k: nat, stopped: bool)
    requires k <= |events|
  {
    && (stopped ==> k > 0 && events[k - 1] == Data(true))
    && forall j :: 0 <= j < (if stopped then k - 1 else k) ==> events[j] != Data(true)
  }

  lemma {:induction false} VisitsAre(events: seq<Event>, k: nat, stopped: bool)
    requires k <= |events| && SeenExit(events, k, stopped) && (!stopped ==> k == |events|)
    ensures Visits(events) == k
    ensures stopped <==> Data(true) in events
  {
    if k > 0 && !(stopped && k == 1) {
      forall j | 0 <= j < (if stopped then k - 2 else k - 1) ensures events[1..][j] != Data(true) {
        assert events[j + 1] != Data(true);
      }
      assert events[0] != Data(true) && events == [events[0]] + events[1..];
      VisitsAre(events[1..], k - 1, stopped);
    }
  }
}
