/** The DHCP server's lease list as it is kept: a singly linked list changed through its pointers. */
module LeaseList {
  import opened LeaseSpec

  /** A list cell together with the lease it points to. */
  class Node {
    var mac: Mac
    var ip: int
    var leaseTimer: int
    var next: Node?

    constructor (mac: Mac, ip: int)
      ensures this.mac == mac && this.ip == ip && leaseTimer == LEASE_TIMER && next == null
    {
      this.mac, this.ip, leaseTimer, next := mac, ip, LEASE_TIMER, null;
    }

    function Value(): Lease
      reads this`mac, this`ip, this`leaseTimer
    {
      Lease(mac, ip, leaseTimer)
    }
  }

  /** From this cell the next pointers lead through exactly these cells. */
  ghost predicate Chain(from: Node?, cells: seq<Node>)
    reads cells
  {
    Distinct(cells) && Linked(from, cells)
  }

  ghost predicate Distinct(cells: seq<Node>) {
    forall i, j :: 0 <= i < j < |cells| ==> cells[i] != cells[j]
  }

  ghost predicate Linked(from: Node?, cells: seq<Node>)
    reads cells
  {
    from == At(cells, 0) && forall i :: 0 <= i < |cells| ==> cells[i].next == At(cells, i + 1)
  }

  ghost function At(cells: seq<Node>, i: nat): Node? {
    if i < |cells| then cells[i] else null
  }

  function Without<T>(s: seq<T>, at: nat): (r: seq<T>)
    requires at < |s|
    ensures |r| == |s| - 1
    ensures forall k :: 0 <= k < |r| ==> r[k] == if k < at then s[k] else s[k + 1]
  {
    s[..at] + s[at + 1..]
  }

  /** The leases these cells point to. */
  ghost predicate Shows(cells: seq<Node>, leases: seq<Lease>)
    reads (set n <- cells)`mac, (set n <- cells)`ip, (set n <- cells)`leaseTimer
  {
    |cells| == |leases| && forall i :: 0 <= i < |cells| ==> cells[i].Value() == leases[i]
  }

  lemma DistinctWithout(cells: seq<Node>, at: nat)
    requires Distinct(cells) && at < |cells|
    ensures Distinct(Without(cells, at)) && cells[at] !in Without(cells, at)
  {
  }

  lemma ShowsWithout(cells: seq<Node>, leases: seq<Lease>, at: nat)
    requires Shows(cells, leases) && at < |cells| == |leases|
    ensures Shows(Without(cells, at), Without(leases, at))
  {
  }

  /** The links around a cell that is being taken out: its predecessor already points past it. */
  lemma LinkedWithout(from: Node?, cells: seq<Node>, at: nat)
    requires at < |cells|
    requires from == At(cells, if at == 0 then 1 else 0)
    requires forall i :: 0 <= i < |cells| && i != at && i != at - 1 ==> cells[i].next == At(cells, i + 1)
    requires at > 0 ==> cells[at - 1].next == At(cells, at + 1)
    ensures Linked(from, Without(cells, at))
  {
    var r := Without(cells, at);
    forall k | 0 <= k < |r|
      ensures r[k].next == At(r, k + 1)
    {
      assert r[k] == cells[if k < at then k else k + 1];
      assert k + 1 < |r| ==> r[k + 1] == cells[if k + 1 < at then k + 1 else k + 2];
    }
    assert |r| > 0 ==> r[0] == cells[if 0 < at then 0 else 1];
  }

  lemma SameLength(cells: seq<Node>, leases: seq<Lease>)
    requires Shows(cells, leases)
    ensures |leases| == |cells|
  {
  }

  lemma ShowsAt(cells: seq<Node>, leases: seq<Lease>, i: nat)
    requires Shows(cells, leases) && i < |cells|
    ensures |leases| == |cells| && cells[i].Value() == leases[i]
  {
  }

  lemma {:induction false} PlaceIs(ls: seq<Lease>, mac: Mac, i: nat)
    requires i <= |ls| && (forall k :: 0 <= k < i ==> ls[k].mac != mac) && (i < |ls| ==> ls[i].mac == mac)
    ensures Place(ls, mac) == i
  {
  }

  lemma HeadOf(from: Node?, cells: seq<Node>)
    requires Chain(from, cells)
    ensures from == At(cells, 0)
  {
  }

  lemma NextOf(from: Node?, cells: seq<Node>, i: nat)
    requires Chain(from, cells) && i < |cells|
    ensures cells[i].next == At(cells, i + 1)
    ensures forall k :: 0 <= k < |cells| && k != i ==> cells[k] != cells[i]
  {
  }

  lemma EmptyAged()
    ensures Aged([]) == []
  {
  }

  /** A new cell behind the last one. */
  lemma Extended(from: Node?, cells: seq<Node>, leases: seq<Lease>, node: Node)
    requires Distinct(cells) && Shows(cells, leases) && node !in cells && node.next == null
    requires from == if cells == [] then node else cells[0]
    requires forall i :: 0 <= i < |cells| - 1 ==> cells[i].next == At(cells, i + 1)
    requires cells != [] ==> cells[|cells| - 1].next == node
    ensures Chain(from, cells + [node]) && Shows(cells + [node], leases + [node.Value()])
  {
    var longer := cells + [node];
    assert forall i :: 0 <= i < |cells| ==> longer[i] == cells[i];
    assert longer[|cells|] == node;
  }

  /** What a sweep leaves of one lease. */
  function AgedOne(l: Lease): seq<Lease> {
    var left := Decremented(l.timer);
    if left == 0 then [] else [l.(timer := left)]
  }

  lemma AgedNext(ls: seq<Lease>, j: nat)
    requires j < |ls|
    ensures Aged(ls[..j + 1]) == Aged(ls[..j]) + AgedOne(ls[j])
  {
    hide Decremented;
    AgedLast(ls[..j + 1]);
    assert ls[..j + 1][..j] == ls[..j];
  }

  class LeaseTable {
    var head: Node?
    ghost var cells: seq<Node>
    ghost var leases: seq<Lease>

    constructor ()
      ensures Valid() && leases == []
    {
      head, cells, leases := null, [], [];
    }

    ghost predicate Valid()
      reads this, cells
    {
      Chain(head, cells) && Shows(cells, leases)
    }

    /** The walk to the last cell. */
    method LastCell() returns (p: Node)
      requires Valid() && head != null
      ensures cells != [] && p == cells[|cells| - 1]
    {
      hide Chain, Shows;
      HeadOf(head, cells);
      p := head;
      ghost var i := 0;
      NextOf(head, cells, 0);
      while p.next != null
        invariant 0 <= i < |cells| && p == cells[i] && p.next == At(cells, i + 1)
        decreases |cells| - i
      {
        p := p.next;
        i := i + 1;
        NextOf(head, cells, i);
      }
    }

    method HangBehind(p: Node, node: Node)
      requires Valid() && cells != [] && p == cells[|cells| - 1]
      modifies p`next
      ensures p.next == node && head == cells[0]
      ensures forall i :: 0 <= i < |cells| - 1 ==> cells[i].next == At(cells, i + 1)
    {
      hide Distinct, Shows;
      HeadOf(head, cells);
      NextOf(head, cells, |cells| - 1);
      p.next := node;
    }

    /** Hangs the new cell behind the last one. */
    method Insert(node: Node)
      requires Valid() && node !in cells
      modifies this, node`next, (set n <- cells)`next
      ensures Valid() && cells == old(cells) + [node] && leases == old(leases) + [node.Value()]
    {
      hide Distinct, Linked, Shows;
      HeadOf(head, cells);
      if head == null {
        head := node;
      } else {
        var p := LastCell();
        HangBehind(p, node);
      }
      node.next := null;
      Extended(head, cells, leases, node);
      cells, leases := cells + [node], leases + [node.Value()];
    }

    method Unlink(p: Node, node: Node, ghost at: nat)
      requires Valid() && 0 < at < |cells| == |leases| && cells[at - 1] == p && cells[at] == node
      modifies this`cells, this`leases, p`next
      ensures Valid() && p.next == node.next
      ensures cells == Without(old(cells), at) && leases == Without(old(leases), at) && node !in cells
    {
      hide Without, Distinct, Shows, At;
      NextOf(head, cells, at - 1);
      NextOf(head, cells, at);
      p.next := node.next;
      DistinctWithout(cells, at);
      LinkedWithout(head, cells, at);
      ShowsWithout(cells, leases, at);
      cells, leases := Without(cells, at), Without(leases, at);
    }

    /** The walk behind the first cell; it goes on to the end of the list even after the cell was found. */
    method RemoveLater(node: Node, ghost at: nat)
      requires Valid() && 0 < at <= |cells| == |leases|
      requires cells[0] != node && (if at < |cells| then cells[at] == node else node !in cells)
      modifies this`cells, this`leases, (set n <- cells)`next
      ensures Valid() && cells == if at < |old(cells)| then Without(old(cells), at) else old(cells)
      ensures leases == if at < |old(cells)| then Without(old(leases), at) else old(leases)
      ensures node in old(cells) ==> node.next == old(node.next)
    {
      hide Chain, Shows, Without;
      var p := head;
      ghost var i, removed, was, values := 0, false, cells, leases;
      HeadOf(head, cells);
      while p != null
        invariant removed ==> at < |was|
        invariant Valid() && cells == (if removed then Without(was, at) else was)
        invariant leases == (if removed then Without(values, at) else values)
        invariant 0 <= i <= |cells| && p == At(cells, i)
        invariant !removed && at < |was| ==> i < at && was[at] == node
        invariant removed || at == |was| ==> node !in cells
        invariant node in was ==> node.next == old(node.next)
        decreases |cells| - i
        modifies this`cells, this`leases, (set n <- was)`next
      {
        NextOf(head, cells, i);
        if p.next == node {
          assert cells[i + 1] == node;
          NextOf(head, cells, i + 1);
          SameLength(cells, leases);
          Unlink(p, node, at);
          removed := true;
          NextOf(head, cells, i);
        }
        p := p.next;
        i := i + 1;
      }
    }

    /** Unlinks a cell; a cell that is not in the list changes nothing. */
    method Remove(node: Node, ghost at: nat)
      requires Valid() && at <= |cells| == |leases| && (if at < |cells| then cells[at] == node else node !in cells)
      modifies this, (set n <- cells)`next
      ensures Valid() && cells == if at < |old(cells)| then Without(old(cells), at) else old(cells)
      ensures leases == if at < |old(cells)| then Without(old(leases), at) else old(leases)
      ensures node in old(cells) ==> node.next == old(node.next)
    {
      hide Without, Distinct, Shows;
      if head == null {
        head := null;
      } else if head == node {
        assert at == 0 by {
          HeadOf(head, cells);
          if at > 0 && at < |cells| {
            NextOf(head, cells, at);
          }
        }
        head := node.next;
        DistinctWithout(cells, 0);
        LinkedWithout(head, cells, 0);
        ShowsWithout(cells, leases, 0);
        cells, leases := Without(cells, at), Without(leases, at);
      } else {
        RemoveLater(node, at);
      }
    }

    method SetTimer(node: Node, ghost i: nat, timer: int)
      requires Valid() && i < |cells| && cells[i] == node
      modifies this`leases, node`leaseTimer
      ensures Valid() && |old(leases)| == |cells| && leases == old(leases)[i := old(leases)[i].(timer := timer)]
    {
      node.leaseTimer := timer;
      leases := leases[i := leases[i].(timer := timer)];
    }

    /** One cell of a sweep: the timer goes down, and at zero the cell is unlinked after its successor is noted. */
    method SweepCell(node: Node, ghost i: nat) returns (next: Node?, ghost kept: nat)
      requires Valid() && i < |cells| == |leases| && cells[i] == node
      modifies this, set n <- cells
      ensures Valid() && forall n <- cells :: n in old(cells)
      ensures leases == old(leases)[..i] + AgedOne(old(leases)[i]) + old(leases)[i + 1..]
      ensures kept == i + |AgedOne(old(leases)[i])| <= |cells| == |leases| && next == At(cells, kept)
    {
      hide Decremented, Chain, Shows;
      ShowsAt(cells, leases, i);
      var left := Decremented(node.leaseTimer);
      SetTimer(node, i, left);
      NextOf(head, cells, i);
      next, kept := node.next, i + 1;
      if left == 0 {
        Remove(node, i);
        kept := i;
      }
      SameLength(cells, leases);
    }

    /** One sweep of the coarse timer. */
    method CoarseTimer()
      requires Valid()
      modifies this, set n <- cells
      ensures Valid() && leases == Aged(old(leases))
      ensures forall n <- cells :: n in old(cells)
    {
      hide Aged, Chain, AgedOne, Shows;
      var node := head;
      ghost var values := leases;
      ghost var i, j := 0, 0;
      HeadOf(head, cells);
      EmptyAged();
      SameLength(cells, leases);
      while node != null
        invariant Valid() && j <= |values| && i == |Aged(values[..j])| <= |cells| == |leases| && node == At(cells, i)
        invariant leases == Aged(values[..j]) + values[j..]
        invariant forall n <- cells :: n in old(cells)
        decreases |values| - j
      {
        AgedNext(values, j);
        assert leases[i] == values[j];
        node, i := SweepCell(node, i);
        j := j + 1;
      }
      assert values[..j] == values;
    }

    /** The lease of a client that asks again is renewed; a new client gets one at the end. */
    method Request(mac: Mac, ip: int)
      requires Valid()
      modifies this, set n <- cells
      ensures Valid() && leases == Renewed(old(leases), mac, ip)
      ensures forall n <- cells :: n in old(cells) || fresh(n)
    {
      hide Renewed, Place, Chain, Shows;
      var p := head;
      ghost var i := 0;
      RenewedAtPlace(leases, mac, ip);
      HeadOf(head, cells);
      SameLength(cells, leases);
      while p != null && p.mac != mac
        invariant 0 <= i <= |cells| && p == At(cells, i)
        invariant forall k :: 0 <= k < i ==> leases[k].mac != mac
        decreases |cells| - i
        modifies {}
      {
        NextOf(head, cells, i);
        ShowsAt(cells, leases, i);
        p := p.next;
        i := i + 1;
      }
      if p != null {
        ShowsAt(cells, leases, i);
      }
      PlaceIs(leases, mac, i);
      if p != null {
        SetTimer(p, i, LEASE_TIMER);
        return;
      }
      var node := new Node(mac, ip);
      Insert(node);
    }
  }
}
