/** The DHCP server's leases as a sequence: what a request and a sweep of the coarse timer do to it. */
module LeaseSpec {
  /** A hardware address: six bytes, read as one number. */
  type Mac = m: nat | m < 0x1_0000_0000_0000

  const LEASE_TIMER := 0x05A0
  const WORD := 0x1_0000_0000

  /** The timer is an unsigned 32-bit counter. */
  datatype Lease = Lease(mac: Mac, ip: int, timer: int)

  function Decremented(timer: int): int {
    (timer - 1) % WORD
  }

  /** One sweep: every timer goes down by one, and the leases that reach zero go. */
  function Aged(ls: seq<Lease>): seq<Lease>
    decreases |ls|
  {
    if ls == [] then []
    else
      var last := ls[|ls| - 1];
      var left := Decremented(last.timer);
      Aged(ls[..|ls| - 1]) + if left == 0 then [] else [last.(timer := left)]
  }

  /** A request: the first lease of this client starts afresh, or a new one is appended. */
  function Renewed(ls: seq<Lease>, mac: Mac, ip: int): seq<Lease>
    decreases |ls|
  {
    if ls == [] then [Lease(mac, ip, LEASE_TIMER)]
    else if ls[0].mac == mac then [ls[0].(timer := LEASE_TIMER)] + ls[1..]
    else [ls[0]] + Renewed(ls[1..], mac, ip)
  }

  datatype Event = Sweep | Request(mac: Mac, ip: int)

  function Step(ls: seq<Lease>, e: Event): seq<Lease> {
    match e
    case Sweep => Aged(ls)
    case Request(mac, ip) => Renewed(ls, mac, ip)
  }

  function Run(es: seq<Event>): seq<Lease>
    decreases |es|
  {
    if es == [] then [] else Step(Run(es[..|es| - 1]), es[|es| - 1])
  }

  /** One lease a client, none of them run out. */
  predicate Sound(ls: seq<Lease>) {
    (forall i, j :: 0 <= i < j < |ls| ==> ls[i].mac != ls[j].mac)
    && (forall i :: 0 <= i < |ls| ==> 0 < ls[i].timer <= LEASE_TIMER)
  }

  predicate Holds(ls: seq<Lease>, mac: Mac) {
    exists i :: 0 <= i < |ls| && ls[i].mac == mac
  }

  /** Sweeps left for a client's lease; 0 when it has none. */
  function Remaining(ls: seq<Lease>, mac: Mac): int
    decreases |ls|
  {
    if ls == [] then 0
    else if ls[|ls| - 1].mac == mac then ls[|ls| - 1].timer
    else Remaining(ls[..|ls| - 1], mac)
  }

  function Sweeps(es: seq<Event>): nat
    decreases |es|
  {
    if es == [] then 0 else Sweeps(es[..|es| - 1]) + if es[|es| - 1].Sweep? then 1 else 0
  }

  predicate Silent(es: seq<Event>, mac: Mac) {
    forall e <- es :: e.Request? ==> e.mac != mac
  }

  // ---- growing a list by one lease ----

  lemma SoundExtends(ls: seq<Lease>, l: Lease)
    ensures Sound(ls + [l]) <==> Sound(ls) && !Holds(ls, l.mac) && 0 < l.timer <= LEASE_TIMER
  {
    var longer := ls + [l];
    assert forall i :: 0 <= i < |ls| ==> longer[i] == ls[i];
    assert longer[|ls|] == l;
  }

  lemma HoldsExtends(ls: seq<Lease>, l: Lease, mac: Mac)
    ensures Holds(ls + [l], mac) <==> Holds(ls, mac) || l.mac == mac
  {
    var longer := ls + [l];
    assert forall i :: 0 <= i < |ls| ==> longer[i] == ls[i];
    assert longer[|ls|] == l;
  }

  lemma {:induction false} RemainingExtends(ls: seq<Lease>, l: Lease, mac: Mac)
    ensures Remaining(ls + [l], mac) == if l.mac == mac then l.timer else Remaining(ls, mac)
  {
    assert (ls + [l])[..|ls|] == ls;
  }

  lemma {:induction false} RemainingIsHolding(ls: seq<Lease>, mac: Mac)
    requires Sound(ls)
    ensures 0 <= Remaining(ls, mac) <= LEASE_TIMER
    ensures Holds(ls, mac) <==> Remaining(ls, mac) > 0
    decreases |ls|
  {
    if ls != [] {
      hide Sound, Holds, Remaining;
      var rest, last := ls[..|ls| - 1], ls[|ls| - 1];
      assert ls == rest + [last];
      SoundExtends(rest, last);
      HoldsExtends(rest, last, mac);
      RemainingExtends(rest, last, mac);
      RemainingIsHolding(rest, mac);
    }
  }

  // ---- one sweep ----

  lemma AgedLast(ls: seq<Lease>)
    requires ls != []
    ensures var rest, last := ls[..|ls| - 1], ls[|ls| - 1];
            ls == rest + [last]
            && Aged(ls) == if Decremented(last.timer) == 0 then Aged(rest)
                           else Aged(rest) + [last.(timer := Decremented(last.timer))]
  {
  }

  lemma {:induction false} AgedHolds(ls: seq<Lease>, mac: Mac)
    ensures Holds(Aged(ls), mac) ==> Holds(ls, mac)
    decreases |ls|
  {
    if ls != [] {
      hide Holds, Aged;
      var rest, last := ls[..|ls| - 1], ls[|ls| - 1];
      AgedLast(ls);
      AgedHolds(rest, mac);
      HoldsExtends(rest, last, mac);
      HoldsExtends(Aged(rest), last.(timer := Decremented(last.timer)), mac);
    }
  }

  lemma AgedEmpty()
    ensures Aged([]) == []
  {
  }

  lemma TimerLeft(timer: int)
    requires 0 < timer <= LEASE_TIMER
    ensures Decremented(timer) == timer - 1
  {
  }

  lemma {:induction false} AgedSound(ls: seq<Lease>)
    requires Sound(ls)
    ensures Sound(Aged(ls))
    decreases |ls|
  {
    hide Sound, Holds, Aged;
    if ls == [] {
      AgedEmpty();
    } else {
      var rest, last := ls[..|ls| - 1], ls[|ls| - 1];
      AgedLast(ls);
      SoundExtends(rest, last);
      TimerLeft(last.timer);
      hide Decremented;
      AgedSound(rest);
      AgedHolds(rest, last.mac);
      SoundExtends(Aged(rest), last.(timer := Decremented(last.timer)));
    }
  }

  lemma {:induction false} AgedRemaining(ls: seq<Lease>, mac: Mac)
    requires Sound(ls)
    ensures Remaining(Aged(ls), mac) == if Remaining(ls, mac) == 0 then 0 else Remaining(ls, mac) - 1
    decreases |ls|
  {
    if ls != [] {
      hide Sound, Holds, Aged, Remaining;
      var rest, last := ls[..|ls| - 1], ls[|ls| - 1];
      AgedLast(ls);
      SoundExtends(rest, last);
      AgedRemaining(rest, mac);
      RemainingIsHolding(rest, mac);
      RemainingExtends(rest, last, mac);
      RemainingExtends(Aged(rest), last.(timer := Decremented(last.timer)), mac);
    }
  }

  // ---- one request ----

  /** Where a client's lease stands; |ls| when it has none. */
  function Place(ls: seq<Lease>, mac: Mac): (p: nat)
    ensures p <= |ls|
    ensures p < |ls| ==> ls[p].mac == mac
    ensures forall i :: 0 <= i < p ==> ls[i].mac != mac
    decreases |ls|
  {
    if ls == [] || ls[0].mac == mac then 0 else 1 + Place(ls[1..], mac)
  }

  lemma {:induction false} RenewedAtPlace(ls: seq<Lease>, mac: Mac, ip: int)
    ensures var p := Place(ls, mac);
            Renewed(ls, mac, ip) == if p < |ls| then ls[p := ls[p].(timer := LEASE_TIMER)]
                                    else ls + [Lease(mac, ip, LEASE_TIMER)]
    decreases |ls|
  {
    if ls != [] && ls[0].mac != mac {
      var rest := ls[1..];
      RenewedAtPlace(rest, mac, ip);
      var p := Place(rest, mac);
      assert ls == [ls[0]] + rest;
      if p < |rest| {
        assert [ls[0]] + rest[p := rest[p].(timer := LEASE_TIMER)] == ls[p + 1 := ls[p + 1].(timer := LEASE_TIMER)];
      }
    }
  }

  lemma {:induction false} RenewedSound(ls: seq<Lease>, mac: Mac, ip: int)
    requires Sound(ls)
    ensures Sound(Renewed(ls, mac, ip))
  {
    hide Renewed, Place;
    RenewedAtPlace(ls, mac, ip);
    if Place(ls, mac) == |ls| {
      SoundExtends(ls, Lease(mac, ip, LEASE_TIMER));
    }
  }

  lemma {:induction false} RemainingAt(ls: seq<Lease>, p: nat)
    requires Sound(ls) && p < |ls|
    ensures Remaining(ls, ls[p].mac) == ls[p].timer
    decreases |ls|
  {
    var rest, last := ls[..|ls| - 1], ls[|ls| - 1];
    if p < |rest| {
      assert ls == rest + [last];
      SoundExtends(rest, last);
      RemainingAt(rest, p);
    }
  }

  lemma {:induction false} RenewedRemaining(ls: seq<Lease>, mac: Mac, ip: int, other: Mac)
    requires Sound(ls)
    ensures Remaining(Renewed(ls, mac, ip), other) == if other == mac then LEASE_TIMER else Remaining(ls, other)
  {
    hide Renewed, Place, Remaining, Sound, Holds;
    var after, p, q := Renewed(ls, mac, ip), Place(ls, mac), Place(ls, other);
    RenewedAtPlace(ls, mac, ip);
    RenewedSound(ls, mac, ip);
    if p == |ls| {
      RemainingExtends(ls, Lease(mac, ip, LEASE_TIMER), other);
    } else if other == mac {
      RemainingAt(after, p);
    } else if q < |ls| {
      RemainingAt(ls, q);
      RemainingAt(after, q);
    } else {
      NotHeld(ls, other);
      NotHeld(after, other);
    }
  }

  lemma {:induction false} NotHeld(ls: seq<Lease>, mac: Mac)
    requires forall i :: 0 <= i < |ls| ==> ls[i].mac != mac
    ensures Remaining(ls, mac) == 0
    decreases |ls|
  {
    if ls != [] {
      NotHeld(ls[..|ls| - 1], mac);
    }
  }

  // ---- whole runs ----

  lemma {:induction false} RunSound(es: seq<Event>)
    ensures Sound(Run(es))
    decreases |es|
  {
    hide Sound;
    if es == [] {
      EmptySound();
    } else {
      var rest, e := es[..|es| - 1], es[|es| - 1];
      RunSound(rest);
      match e
      case Sweep => AgedSound(Run(rest));
      case Request(mac, ip) => RenewedSound(Run(rest), mac, ip);
    }
  }

  lemma EmptySound()
    ensures Sound([])
  {
  }

  /** Whatever the other clients do, a lease that was last renewed at some request has LEASE_TIMER sweeps to live,
      less the sweeps since; it is there until exactly the LEASE_TIMER-th of them. */
  lemma {:induction false} LeaseLives(before: seq<Event>, mac: Mac, ip: int, after: seq<Event>)
    requires Silent(after, mac)
    ensures var now := Run(before + [Request(mac, ip)] + after);
            Remaining(now, mac) == (if Sweeps(after) < LEASE_TIMER then LEASE_TIMER - Sweeps(after) else 0)
            && (Holds(now, mac) <==> Sweeps(after) < LEASE_TIMER)
    decreases |after|
  {
    hide Sound, Holds, Remaining, Aged, Renewed;
    var es := before + [Request(mac, ip)] + after;
    RunSound(es);
    RemainingIsHolding(Run(es), mac);
    if after == [] {
      assert es[..|es| - 1] == before;
      RunSound(before);
      RenewedRemaining(Run(before), mac, ip, mac);
    } else {
      var rest, e := after[..|after| - 1], after[|after| - 1];
      assert es[..|es| - 1] == before + [Request(mac, ip)] + rest;
      LeaseLives(before, mac, ip, rest);
      var ls := Run(es[..|es| - 1]);
      RunSound(es[..|es| - 1]);
      match e
      case Sweep => AgedRemaining(ls, mac);
      case Request(client, address) =>
        assert e in after;
        RenewedRemaining(ls, client, address, mac);
    }
  }

  /** A client that never asked holds nothing. */
  lemma {:induction false} StrangersHoldNothing(es: seq<Event>, mac: Mac)
    requires Silent(es, mac)
    ensures !Holds(Run(es), mac)
    decreases |es|
  {
    hide Sound, Remaining, Aged, Renewed, Place;
    if es != [] {
      var rest, e := es[..|es| - 1], es[|es| - 1];
      StrangersHoldNothing(rest, mac);
      match e
      case Sweep => AgedHolds(Run(rest), mac);
      case Request(client, ip) =>
        assert e in es;
        RenewedAtPlace(Run(rest), client, ip);
        HoldsExtends(Run(rest), Lease(client, ip, LEASE_TIMER), mac);
    }
  }

  // ---- addresses ----

  /** The address in a client's lease; 0 when it has none. */
  function AddressOf(ls: seq<Lease>, mac: Mac): int
    decreases |ls|
  {
    if ls == [] then 0
    else if ls[|ls| - 1].mac == mac then ls[|ls| - 1].ip
    else AddressOf(ls[..|ls| - 1], mac)
  }

  lemma {:induction false} AddressExtends(ls: seq<Lease>, l: Lease, mac: Mac)
    ensures AddressOf(ls + [l], mac) == if l.mac == mac then l.ip else AddressOf(ls, mac)
  {
    assert (ls + [l])[..|ls|] == ls;
  }

  lemma {:induction false} AgedAddress(ls: seq<Lease>, mac: Mac)
    requires Sound(ls) && Holds(Aged(ls), mac)
    ensures AddressOf(Aged(ls), mac) == AddressOf(ls, mac)
    decreases |ls|
  {
    hide Sound, Holds, Aged, AddressOf, Decremented;
    if ls == [] {
      AgedHolds(ls, mac);
      assert false by { NothingHeld(mac); }
    } else {
      var rest, last := ls[..|ls| - 1], ls[|ls| - 1];
      var older := last.(timer := Decremented(last.timer));
      AgedLast(ls);
      SoundExtends(rest, last);
      HoldsExtends(Aged(rest), older, mac);
      AddressExtends(rest, last, mac);
      AddressExtends(Aged(rest), older, mac);
      if Holds(Aged(rest), mac) {
        AgedHolds(rest, mac);
        AgedAddress(rest, mac);
      }
    }
  }

  lemma NothingHeld(mac: Mac)
    ensures !Holds([], mac)
  {
  }

  lemma {:induction false} AddressAt(ls: seq<Lease>, p: nat)
    requires Sound(ls) && p < |ls|
    ensures AddressOf(ls, ls[p].mac) == ls[p].ip
    decreases |ls|
  {
    var rest, last := ls[..|ls| - 1], ls[|ls| - 1];
    if p < |rest| {
      assert ls == rest + [last];
      SoundExtends(rest, last);
      AddressAt(rest, p);
    }
  }

  lemma {:induction false} RenewedAddress(ls: seq<Lease>, client: Mac, ip: int, mac: Mac)
    requires Sound(ls) && Holds(ls, mac)
    ensures AddressOf(Renewed(ls, client, ip), mac) == AddressOf(ls, mac)
  {
    var q :| 0 <= q < |ls| && ls[q].mac == mac;
    hide Renewed, Place, AddressOf, Sound, Holds;
    RenewedAtPlace(ls, client, ip);
    RenewedSound(ls, client, ip);
    AddressAt(ls, q);
    AddressAt(Renewed(ls, client, ip), q);
  }

  /** As long as a client's lease lasts it keeps its address, whatever address it is offered when it asks again. */
  lemma {:induction false} AddressKept(es: seq<Event>, more: seq<Event>, mac: Mac)
    requires forall k :: 0 <= k <= |more| ==> Holds(Run(es + more[..k]), mac)
    ensures AddressOf(Run(es + more), mac) == AddressOf(Run(es), mac)
    decreases |more|
  {
    hide Sound, Holds, Aged, Renewed, AddressOf;
    if more == [] {
      assert es + more == es;
    } else {
      var rest, e := more[..|more| - 1], more[|more| - 1];
      assert forall k :: 0 <= k <= |rest| ==> rest[..k] == more[..k];
      AddressKept(es, rest, mac);
      assert more[..|rest|] == rest && more[..|more|] == more;
      assert (es + more)[..|es + more| - 1] == es + rest;
      var ls := Run(es + rest);
      RunSound(es + rest);
      match e
      case Sweep => AgedAddress(ls, mac);
      case Request(client, ip) => RenewedAddress(ls, client, ip, mac);
    }
  }
}
