/** espconn's UDP sender: a payload of any length leaves in datagrams of at most 1024 bytes, by mutual recursion
    between the function that sends one and the function that is told it was sent. */
module UdpSender {
  import opened Common

  const DATAGRAM := 1024

  // ---- what is to be sent ----

  function Datagrams(payload: seq<int>): seq<seq<int>>
    decreases |payload|
  {
    if payload == [] then []
    else
      var n := Min(DATAGRAM, |payload|);
      [payload[..n]] + Datagrams(payload[n..])
  }

  function Flatten(parts: seq<seq<int>>): seq<int>
    decreases |parts|
  {
    if parts == [] then [] else parts[0] + Flatten(parts[1..])
  }

  /** The first k datagrams carry the payload's bytes in order, none twice. */
  lemma {:induction false} DatagramsCarry(payload: seq<int>, k: nat)
    requires k <= |Datagrams(payload)|
    ensures Flatten(Datagrams(payload)[..k]) == payload[..Min(DATAGRAM * k, |payload|)]
    decreases |payload|
  {
    if k > 0 {
      var n := Min(DATAGRAM, |payload|);
      var rest := payload[n..];
      DatagramsCarry(rest, k - 1);
      assert Datagrams(payload)[..k][1..] == Datagrams(rest)[..k - 1];
      assert payload[..n] + rest[..Min(DATAGRAM * (k - 1), |rest|)] == payload[..Min(DATAGRAM * k, |payload|)];
    }
  }

  /** As few datagrams as the limit allows, and only the last can be short. */
  lemma {:induction false} DatagramSizes(payload: seq<int>)
    ensures |Datagrams(payload)| == (|payload| + DATAGRAM - 1) / DATAGRAM
    ensures forall i :: 0 <= i < |Datagrams(payload)| ==>
              |Datagrams(payload)[i]| == Min(DATAGRAM, |payload| - DATAGRAM * i) > 0
    decreases |payload|
  {
    if payload != [] {
      var n := Min(DATAGRAM, |payload|);
      var rest := payload[n..];
      DatagramSizes(rest);
      CountChunks(|rest|);
      CountChunks(|payload|);
      DatagramsFirst(payload, n);
      hide Datagrams;
      var parts := Datagrams(payload);
      assert forall i :: 0 < i < |parts| ==> parts[i] == Datagrams(rest)[i - 1];
    }
  }

  lemma CountChunks(n: nat)
    ensures (n + DATAGRAM + DATAGRAM - 1) / DATAGRAM == (n + DATAGRAM - 1) / DATAGRAM + 1
    ensures 0 < n <= DATAGRAM ==> (n + DATAGRAM - 1) / DATAGRAM == 1
  {
  }

  lemma DatagramsFirst(payload: seq<int>, n: nat)
    requires payload != [] && n == Min(DATAGRAM, |payload|)
    ensures Datagrams(payload) == [payload[..n]] + Datagrams(payload[n..])
  {
  }

  lemma SliceSplits(s: seq<int>, from: nat, n: nat, length: nat)
    requires n <= length && from + length <= |s|
    ensures s[from..from + length][..n] == s[from..from + n]
    ensures s[from..from + length][n..] == s[from + n..from + length]
  {
  }

  lemma NoDatagrams()
    ensures Datagrams([]) == []
  {
  }

  lemma {:induction false} WholePayload(payload: seq<int>)
    ensures Flatten(Datagrams(payload)) == payload
    ensures forall d <- Datagrams(payload) :: 0 < |d| <= DATAGRAM
  {
    var parts := Datagrams(payload);
    DatagramsCarry(payload, |parts|);
    DatagramSizes(payload);
    assert parts[..|parts|] == parts;
    forall d | d in parts
      ensures 0 < |d| <= DATAGRAM
    {
      var i :| 0 <= i < |parts| && parts[i] == d;
    }
  }

  // ---- packet buffers ----

  /** One link of a packet buffer chain. */
  class Pbuf {
    const payload: array<int>
    var next: Pbuf?

    constructor (len: nat, next: Pbuf?)
      ensures payload.Length == len && fresh(payload) && this.next == next
    {
      payload := new int[len];
      this.next := next;
    }
  }

  ghost function LinkAt(links: seq<Pbuf>, i: nat): Pbuf? {
    if i < |links| then links[i] else null
  }

  ghost function TotalLength(links: seq<Pbuf>): nat
    decreases |links|
  {
    if links == [] then 0 else TotalLength(links[..|links| - 1]) + links[|links| - 1].payload.Length
  }

  ghost function Contents(links: seq<Pbuf>): (s: seq<int>)
    reads set l <- links :: l.payload
    ensures |s| == TotalLength(links)
    decreases |links|
  {
    if links == [] then [] else Contents(links[..|links| - 1]) + links[|links| - 1].payload[..]
  }

  /** The chain that starts here consists of these links, each with memory of its own. */
  ghost predicate PbufChain(from: Pbuf?, links: seq<Pbuf>)
    reads links
  {
    from == LinkAt(links, 0)
    && (forall i :: 0 <= i < |links| ==> links[i].next == LinkAt(links, i + 1))
    && forall i, j :: 0 <= i < j < |links| ==> links[i].payload != links[j].payload
  }

  lemma {:induction false} TotalLengthPrepends(l: Pbuf, links: seq<Pbuf>)
    ensures TotalLength([l] + links) == l.payload.Length + TotalLength(links)
    decreases |links|
  {
    var longer := [l] + links;
    if links == [] {
      assert longer[..0] == [];
    } else {
      assert longer[..|longer| - 1] == [l] + links[..|links| - 1];
      TotalLengthPrepends(l, links[..|links| - 1]);
    }
  }

  lemma {:induction false} TotalLengthSplits(links: seq<Pbuf>, k: nat)
    requires k < |links|
    ensures TotalLength(links[..k]) + links[k].payload.Length == TotalLength(links[..k + 1]) <= TotalLength(links)
    decreases |links|
  {
    assert links[..k + 1][..k] == links[..k];
    if k + 1 < |links| {
      var rest := links[..|links| - 1];
      TotalLengthSplits(rest, k);
      assert rest[..k + 1] == links[..k + 1] && rest[..k] == links[..k];
    } else {
      assert links[..k + 1] == links;
    }
  }

  lemma {:induction false} ContentsSplits(links: seq<Pbuf>, k: nat)
    requires k < |links|
    ensures Contents(links[..k + 1]) == Contents(links[..k]) + links[k].payload[..]
  {
    assert links[..k + 1][..k] == links[..k];
  }

  lemma NothingYet()
    ensures Contents([]) == [] && TotalLength([]) == 0
  {
  }

  lemma LinkInChain(from: Pbuf?, links: seq<Pbuf>, k: nat)
    requires PbufChain(from, links)
    ensures from == LinkAt(links, 0)
    ensures k < |links| ==>
              links[k].next == LinkAt(links, k + 1) && forall l <- links[..k] :: l.payload != links[k].payload
  {
  }

  /** The allocator answers with nothing or with a chain of any shape of the requested total length. */
  method PbufAlloc(n: nat) returns (p: Pbuf?, ghost links: seq<Pbuf>)
    requires n > 0
    ensures p != null ==> PbufChain(p, links) && TotalLength(links) == n
    ensures p != null ==> forall l <- links :: fresh(l) && fresh(l.payload)
  {
    hide TotalLength;
    p, links := null, [];
    if * {
      return;
    }
    NothingYet();
    var left := n;
    while left > 0 || p == null
      invariant 0 <= left <= n
      invariant (p == null <==> links == []) && PbufChain(p, links) && TotalLength(links) == n - left
      invariant forall l <- links :: fresh(l) && fresh(l.payload)
      decreases left, p == null
    {
      var len: nat := *;
      if len == 0 || len > left {
        len := left;
      }
      var link := new Pbuf(len, p);
      TotalLengthPrepends(link, links);
      p, links := link, [link] + links;
      left := left - len;
    }
  }

  /** Copies the first bytes of the buffer into the chain, link by link. */
  method FillChain(p: Pbuf, ghost links: seq<Pbuf>, buffer: array<int>, from: nat, n: nat)
    requires PbufChain(p, links) && TotalLength(links) == n && from + n <= buffer.Length
    requires forall l <- links :: l.payload != buffer
    modifies set l <- links :: l.payload
    ensures Contents(links) == buffer[from..from + n]
  {
    hide Contents, TotalLength, PbufChain;
    var q: Pbuf? := p;
    var cnt := 0;
    ghost var k := 0;
    LinkInChain(p, links, 0);
    NothingYet();
    while q != null
      invariant k <= |links| && q == LinkAt(links, k)
      invariant cnt == TotalLength(links[..k]) <= n
      invariant Contents(links[..k]) == buffer[from..from + cnt]
      decreases |links| - k
    {
      TotalLengthSplits(links, k);
      LinkInChain(p, links, k);
      FillLink(q, links[..k], buffer, from + cnt);
      ContentsSplits(links, k);
      var before := cnt;
      cnt := cnt + q.payload.Length;
      assert buffer[from..from + cnt] == buffer[from..from + before] + buffer[from + before..from + cnt];
      k := k + 1;
      q := q.next;
    }
    assert links[..k] == links;
  }

  method FillLink(q: Pbuf, ghost before: seq<Pbuf>, buffer: array<int>, from: nat)
    requires from + q.payload.Length <= buffer.Length && q.payload != buffer
    requires forall l <- before :: l.payload != q.payload
    modifies q.payload
    ensures q.payload[..] == buffer[from..from + q.payload.Length]
    ensures Contents(before) == old(Contents(before))
  {
    var i := 0;
    while i < q.payload.Length
      invariant i <= q.payload.Length
      invariant q.payload[..i] == buffer[from..from + i]
    {
      q.payload[i] := buffer[from + i];
      i := i + 1;
    }
  }

  /** The datagram udp_send makes of a chain. */
  method Collect(p: Pbuf, ghost links: seq<Pbuf>) returns (datagram: seq<int>)
    requires PbufChain(p, links)
    ensures datagram == Contents(links)
  {
    hide Contents, PbufChain;
    var q: Pbuf? := p;
    datagram := [];
    ghost var k := 0;
    LinkInChain(p, links, 0);
    NothingYet();
    while q != null
      invariant k <= |links| && q == LinkAt(links, k)
      invariant datagram == Contents(links[..k])
      decreases |links| - k
    {
      ContentsSplits(links, k);
      LinkInChain(p, links, k);
      datagram := datagram + q.payload[..];
      k := k + 1;
      q := q.next;
    }
    assert links[..k] == links;
  }

  // ---- the two functions ----

  /** One UDP connection. `sent` is what udp_send was given, `scheduled` counts the sent callbacks put on the timer,
      `outOfMemory` says that an allocation failed. */
  class Connection {
    const hasPcb: bool
    var ptrbuf: nat
    var cntr: nat
    var connected: bool
    var sent: seq<seq<int>>
    var scheduled: nat
    var outOfMemory: bool

    constructor (hasPcb: bool)
      ensures this.hasPcb == hasPcb && sent == [] && scheduled == 0 && !outOfMemory
    {
      this.hasPcb, ptrbuf, cntr, connected := hasPcb, 0, 0, false;
      sent, scheduled, outOfMemory := [], 0, false;
    }

    /** One datagram: a chain of buffers, filled and handed to udp_send. */
    method SendDatagram(buffer: array<int>, from: nat, n: nat)
      requires n > 0 && from + n <= buffer.Length && !outOfMemory
      modifies this`sent, this`outOfMemory
      ensures sent == if outOfMemory then old(sent) else old(sent) + [buffer[from..from + n]]
    {
      hide Contents, TotalLength, PbufChain;
      var p, links := PbufAlloc(n);
      if p == null {
        outOfMemory := true;
        return;
      }
      FillChain(p, links, buffer, from, n);
      var datagram := Collect(p, links);
      sent := sent + [datagram];
    }

    /** Sends the bytes from this place on. Without memory failures every datagram goes out and the callback is put
        on the timer once; after a failure the datagrams before it have gone out and there is no callback. */
    method UdpSent(buffer: array?<int>, from: nat, length: nat) returns (ghost k: nat)
      requires buffer != null ==> from + length <= buffer.Length
      requires !outOfMemory
      modifies this
      ensures !hasPcb || buffer == null || length == 0 ==>
                k == 0 && sent == old(sent) && scheduled == old(scheduled) && !outOfMemory
      ensures hasPcb && buffer != null && length > 0 ==>
                var parts := Datagrams(buffer[from..from + length]);
                k <= |parts| && sent == old(sent) + parts[..k]
                && (outOfMemory <==> k < |parts|)
                && scheduled == old(scheduled) + (if outOfMemory then 0 else 1)
                && (!outOfMemory ==> connected && cntr == 0)
      decreases length, 1
    {
      hide Datagrams, Contents, TotalLength, PbufChain;
      k := 0;
      if !hasPcb || buffer == null || length == 0 {
        return;
      }
      var datalen := if DATAGRAM < length then DATAGRAM else length;
      ghost var payload := buffer[from..from + length];
      DatagramsFirst(payload, datalen);
      SliceSplits(buffer[..], from, datalen, length);
      SendDatagram(buffer, from, datalen);
      if outOfMemory {
        return;
      }
      ptrbuf, cntr := from + datalen, length - datalen;
      ghost var rest := Datagrams(payload[datalen..]);
      k := DataSent(buffer);
      assert Datagrams(payload)[..k + 1] == [payload[..datalen]] + rest[..k];
      k := k + 1;
    }

    method DataSent(buffer: array<int>) returns (ghost k: nat)
      requires hasPcb && ptrbuf + cntr <= buffer.Length && !outOfMemory
      modifies this
      ensures var parts := Datagrams(buffer[old(ptrbuf)..old(ptrbuf) + old(cntr)]);
              k <= |parts| && sent == old(sent) + parts[..k]
              && (outOfMemory <==> k < |parts|)
              && scheduled == old(scheduled) + (if outOfMemory then 0 else 1)
              && (!outOfMemory ==> connected && cntr == 0)
      decreases cntr, 2
    {
      hide Datagrams;
      k := 0;
      if cntr == 0 {
        NoDatagrams();
        assert buffer[ptrbuf..ptrbuf + cntr] == [];
        connected := true;
        scheduled := scheduled + 1;
      } else {
        k := UdpSent(buffer, ptrbuf, cntr);
      }
    }
  }
}
