/** The order in which a 1-Wire ROM search visits device codes.

    A ROM code is 64 bits, the first transmitted bit first. The search walks
    the binary trie of the codes on the bus, the 0 branch before the 1 branch,
    so its order is the lexicographic order on the bits in transmission order. */
module RomOrder {

  const ROM_BITS: nat := 64

  type Rom = r: seq<bool> | |r| == ROM_BITS witness seq(ROM_BITS, _ => false)

  /** `a` and `b` have the same first `k` bits. */
  predicate Agree(a: Rom, b: Rom, k: nat)
    requires k <= ROM_BITS
  {
    forall j | 0 <= j < k :: a[j] == b[j]
  }

  /** `a` and `b` part ways at bit `k`, `a` into the 0 branch. */
  predicate Diverge(a: Rom, b: Rom, k: nat)
    requires k < ROM_BITS
  {
    Agree(a, b, k) && !a[k] && b[k]
  }

  ghost predicate Less(a: Rom, b: Rom) {
    exists k: nat | k < ROM_BITS :: Diverge(a, b, k)
  }

  lemma LessIrreflexive(a: Rom)
    ensures !Less(a, a)
  {
  }

  lemma LessAsymmetric(a: Rom, b: Rom)
    requires Less(a, b)
    ensures !Less(b, a)
  {
    var k: nat :| k < ROM_BITS && Diverge(a, b, k);
    assert forall m: nat | m < ROM_BITS :: !Diverge(b, a, m);
  }

  lemma LessTransitive(a: Rom, b: Rom, c: Rom)
    requires Less(a, b) && Less(b, c)
    ensures Less(a, c)
  {
    var k: nat :| k < ROM_BITS && Diverge(a, b, k);
    var m: nat :| m < ROM_BITS && Diverge(b, c, m);
    assert Diverge(a, c, if k < m then k else m);
  }

  lemma LessTotal(a: Rom, b: Rom)
    ensures a == b || Less(a, b) || Less(b, a)
  {
    var k: nat := 0;
    while k < ROM_BITS && a[k] == b[k]
      invariant k <= ROM_BITS && Agree(a, b, k)
    {
      k := k + 1;
    }
    if k == ROM_BITS {
      assert a == b;
    } else {
      assert Diverge(a, b, k) || Diverge(b, a, k);
    }
  }

  ghost predicate IsLeast(m: Rom, devices: set<Rom>) {
    m in devices && forall d | d in devices :: d == m || Less(m, d)
  }

  lemma LeastExists(devices: set<Rom>)
    requires devices != {}
    ensures exists m :: IsLeast(m, devices)
  {
    var d :| d in devices;
    if devices == {d} {
      assert IsLeast(d, devices);
    } else {
      var rest := devices - {d};
      assert rest != {} by {
        assert devices == {d} + rest;
      }
      LeastExists(rest);
      var m :| IsLeast(m, rest);
      LessTotal(d, m);
      if Less(d, m) {
        forall e | e in devices
          ensures e == d || Less(d, e)
        {
          if e != d && e != m { LessTransitive(d, m, e); }
        }
        assert IsLeast(d, devices);
      } else {
        assert IsLeast(m, devices);
      }
    }
  }

  /** The devices of a bus in search order. */
  ghost function Sorted(devices: set<Rom>): (s: seq<Rom>)
    ensures |s| == |devices|
    decreases |devices|
  {
    if devices == {} then []
    else
      LeastExists(devices);
      var m :| IsLeast(m, devices);
      [m] + Sorted(devices - {m})
  }

  lemma {:induction false} SortedFirst(devices: set<Rom>)
    requires devices != {}
    ensures var s := Sorted(devices);
            && IsLeast(s[0], devices) && s == [s[0]] + Sorted(devices - {s[0]})
            && s[0] in devices && |devices - {s[0]}| == |devices| - 1
  {
    LeastExists(devices);
  }

  /** Only devices are listed. */
  lemma {:induction false} SortedAt(devices: set<Rom>, i: nat)
    requires i < |devices|
    ensures Sorted(devices)[i] in devices
    decreases |devices|
  {
    hide Sorted, IsLeast;
    SortedFirst(devices);
    if i > 0 {
      SortedAt(devices - {Sorted(devices)[0]}, i - 1);
    }
  }

  /** Every device is listed. */
  lemma {:induction false} Position(devices: set<Rom>, r: Rom) returns (j: nat)
    requires r in devices
    ensures j < |devices| && Sorted(devices)[j] == r
    decreases |devices|
  {
    hide Sorted, IsLeast;
    SortedFirst(devices);
    var first := Sorted(devices)[0];
    if r == first {
      j := 0;
    } else {
      var k := Position(devices - {first}, r);
      j := k + 1;
    }
  }

  lemma {:induction false} SortedIncreases(devices: set<Rom>, i: nat, j: nat)
    requires i < j < |devices|
    ensures Less(Sorted(devices)[i], Sorted(devices)[j])
    decreases |devices|
  {
    hide Sorted, Less;
    SortedFirst(devices);
    var first := Sorted(devices)[0];
    var rest := devices - {first};
    if i == 0 {
      SortedAt(rest, j - 1);
    } else {
      SortedIncreases(rest, i - 1, j - 1);
    }
  }

  /** `r` is the first device after `prev`: nothing on the bus lies in between. */
  ghost predicate IsSuccessor(devices: set<Rom>, prev: Rom, r: Rom) {
    && r in devices && Less(prev, r)
    && forall d | d in devices && Less(prev, d) :: d == r || Less(r, d)
  }

  lemma LeastIsFirst(devices: set<Rom>, r: Rom)
    requires IsLeast(r, devices)
    ensures |devices| > 0 && Sorted(devices)[0] == r
  {
    hide Sorted, Less;
    var s := Sorted(devices);
    var j := Position(devices, r);
    if j > 0 {
      SortedIncreases(devices, 0, j);
      SortedAt(devices, 0);
      LessAsymmetric(s[0], r);
      LessIrreflexive(r);
    }
  }

  /** The successor is the next of the order, and there is one exactly before the end. */
  lemma {:induction false} SuccessorIsNext(devices: set<Rom>, i: nat, r: Rom)
    requires i < |devices|
    ensures IsSuccessor(devices, Sorted(devices)[i], r) <==> i + 1 < |devices| && Sorted(devices)[i + 1] == r
  {
    hide Sorted, Less;
    if IsSuccessor(devices, Sorted(devices)[i], r) {
      var j := Position(devices, r);
      SuccessorIndex(devices, i, j);
    } else if i + 1 < |devices| {
      NextIsSuccessor(devices, i);
    }
  }

  lemma {:induction false} NextIsSuccessor(devices: set<Rom>, i: nat)
    requires i + 1 < |devices|
    ensures IsSuccessor(devices, Sorted(devices)[i], Sorted(devices)[i + 1])
  {
    hide Sorted, Less;
    var a, b := Sorted(devices)[i], Sorted(devices)[i + 1];
    SortedAt(devices, i + 1);
    SortedIncreases(devices, i, i + 1);
    forall d | d in devices && Less(a, d)
      ensures d == b || Less(b, d)
    {
      var j := Position(devices, d);
      SortedAfter(devices, i, j);
      if j > i + 1 {
        SortedIncreases(devices, i + 1, j);
      }
    }
  }

  lemma SuccessorIndex(devices: set<Rom>, i: nat, j: nat)
    requires i < |devices| && j < |devices|
    requires IsSuccessor(devices, Sorted(devices)[i], Sorted(devices)[j])
    ensures i + 1 == j
  {
    SortedAfter(devices, i, j);
    InBetween(devices, i, j);
  }

  lemma InBetween(devices: set<Rom>, i: nat, j: nat)
    requires i < j < |devices|
    ensures i + 1 < j ==> !IsSuccessor(devices, Sorted(devices)[i], Sorted(devices)[j])
  {
    hide Sorted, Less;
    if i + 1 < j {
      var a, e, b := Sorted(devices)[i], Sorted(devices)[i + 1], Sorted(devices)[j];
      SortedAt(devices, i + 1);
      SortedIncreases(devices, i, i + 1);
      SortedIncreases(devices, i + 1, j);
      LessIrreflexive(e);
      LessAsymmetric(e, b);
    }
  }

  lemma SortedAfter(devices: set<Rom>, i: nat, j: nat)
    requires i < |devices| && j < |devices|
    ensures Less(Sorted(devices)[i], Sorted(devices)[j]) ==> i < j
  {
    var s := Sorted(devices);
    LessIrreflexive(s[i]);
    if j < i {
      SortedIncreases(devices, j, i);
      LessAsymmetric(s[j], s[i]);
    }
  }

  // ---- The trie walk ----

  /** Some device shares the first `k` bits of `r` and has a 1 where `r` has a 0:
      a choice the walk made at bit `k` and can still revisit. */
  ghost predicate Branch(devices: set<Rom>, r: Rom, k: nat)
    requires k < ROM_BITS
  {
    exists d | d in devices :: Diverge(r, d, k)
  }

  /** `lz` is the 1-based position of the deepest branch of `r` within its first `n` bits, 0 if none. */
  ghost predicate IsDeepest(devices: set<Rom>, r: Rom, n: nat, lz: nat)
    requires n <= ROM_BITS
  {
    && lz <= n
    && (lz > 0 ==> Branch(devices, r, lz - 1))
    && forall k: nat | lz <= k < n :: !Branch(devices, r, k)
  }

  /** The remembered discrepancy is 0 exactly when nothing on the bus comes after `r`. */
  lemma NoDiscrepancyIffLast(devices: set<Rom>, r: Rom, lz: nat)
    requires r in devices && IsDeepest(devices, r, ROM_BITS, lz)
    ensures lz == 0 <==> forall d | d in devices :: d == r || Less(d, r)
  {
    if lz == 0 {
      forall d | d in devices
        ensures d == r || Less(d, r)
      {
        LessTotal(d, r);
        if Less(r, d) {
          var k: nat :| k < ROM_BITS && Diverge(r, d, k);
          assert Branch(devices, r, k);
        }
      }
    } else {
      var d :| d in devices && Diverge(r, d, lz - 1);
      assert Less(r, d);
      LessAsymmetric(r, d);
      LessIrreflexive(r);
    }
  }

  /** Devices still active after `k` bits of the walk: those that agree with `r` so far. */
  function Matching(devices: set<Rom>, r: Rom, k: nat): set<Rom>
    requires k <= ROM_BITS
  {
    set d | d in devices && Agree(d, r, k)
  }

  /** What one pass knows after `k` bits. `prev` and `ld` are the code and the
      discrepancy remembered from the previous pass (`ld == 0` on a fresh one). */
  ghost predicate PassInvariant(devices: set<Rom>, prev: Rom, ld: nat, r: Rom, k: nat, lz: nat)
    requires k <= ROM_BITS && ld <= ROM_BITS
  {
    && Matching(devices, r, k) != {}
    && IsDeepest(devices, r, k, lz)
    && (forall j | k <= j < ROM_BITS :: r[j] == prev[j])
    && (k < ld ==> Agree(r, prev, k))
    && (0 < ld <= k ==> Diverge(prev, r, ld - 1))
    // past the discrepancy a 1 is taken only when no active device has a 0
    && (forall j: nat | ld <= j < k && r[j] :: forall d | d in devices :: !Diverge(d, r, j))
  }

  /** The direction the walk takes at 1-based bit `n`, from the two bits read off the bus. */
  function Direction(idBit: bool, cmpIdBit: bool, n: nat, ld: nat, romBit: bool): bool {
    if idBit != cmpIdBit then idBit
    else if n < ld then romBit
    else n == ld
  }

  /** The wired-AND bus: what the active devices' bits, and their complements, read as. */
  predicate AllHave(active: set<Rom>, k: nat, v: bool)
    requires k < ROM_BITS
  {
    forall d | d in active :: d[k] == v
  }

  lemma AgreeNext(a: Rom, b: Rom, k: nat)
    requires k < ROM_BITS
    ensures Agree(a, b, k + 1) <==> Agree(a, b, k) && a[k] == b[k]
  {
  }

  /** One bit of the walk keeps the invariant, and the bus is never silent. */
  lemma PassStep(devices: set<Rom>, prev: Rom, ld: nat, r: Rom, k: nat, lz: nat,
                 idBit: bool, cmpIdBit: bool, r': Rom, lz': nat)
    requires ld <= ROM_BITS && k < ROM_BITS
    requires PassInvariant(devices, prev, ld, r, k, lz)
    requires ld > 0 ==> prev in devices && IsDeepest(devices, prev, ROM_BITS, ld)
    requires idBit == AllHave(Matching(devices, r, k), k, true)
    requires cmpIdBit == AllHave(Matching(devices, r, k), k, false)
    requires r' == r[k := Direction(idBit, cmpIdBit, k + 1, ld, r[k])]
    requires lz' == if idBit == cmpIdBit && !r'[k] then k + 1 else lz
    ensures !(idBit && cmpIdBit)
    ensures PassInvariant(devices, prev, ld, r', k + 1, lz')
    ensures Matching(devices, r', k + 1) == set d | d in Matching(devices, r, k) && d[k] == r'[k]
  {
    var active := Matching(devices, r, k);
    var dir := r'[k];
    assert Agree(r, r', k);
    assert forall d: Rom, j: nat | j <= k :: Agree(d, r, j) == Agree(d, r', j);
    forall d: Rom ensures Agree(d, r', k + 1) <==> Agree(d, r, k) && d[k] == dir {
      AgreeNext(d, r', k);
    }
    assert Matching(devices, r', k + 1) == set d | d in active && d[k] == dir;
    var w :| w in active;
    assert !(idBit && cmpIdBit);
    // the chosen branch is inhabited
    PassNonempty(devices, prev, ld, r, k, idBit, cmpIdBit, dir);
    PassDeepest(devices, r, r', k, lz, lz', idBit, cmpIdBit);
    PassTrail(devices, prev, ld, r, r', k, lz, idBit, cmpIdBit);
  }

  lemma PassNonempty(devices: set<Rom>, prev: Rom, ld: nat, r: Rom, k: nat, idBit: bool, cmpIdBit: bool, dir: bool)
    requires ld <= ROM_BITS && k < ROM_BITS
    requires Matching(devices, r, k) != {}
    requires idBit == AllHave(Matching(devices, r, k), k, true)
    requires cmpIdBit == AllHave(Matching(devices, r, k), k, false)
    requires dir == Direction(idBit, cmpIdBit, k + 1, ld, r[k])
    ensures (set d | d in Matching(devices, r, k) && d[k] == dir) != {}
  {
    var active := Matching(devices, r, k);
    var chosen := set d | d in active && d[k] == dir;
    var w :| w in active;
    if idBit != cmpIdBit {
      assert w in chosen;
    } else {
      assert !idBit && !cmpIdBit;
      assert !AllHave(active, k, true) && !AllHave(active, k, false);
      var zero, one :| zero in active && !zero[k] && one in active && one[k];
      assert (if dir then one else zero) in chosen;
    }
  }

  lemma PassDeepest(devices: set<Rom>, r: Rom, r': Rom, k: nat, lz: nat, lz': nat, idBit: bool, cmpIdBit: bool)
    requires k < ROM_BITS && Agree(r, r', k)
    requires Matching(devices, r, k) != {} && IsDeepest(devices, r, k, lz)
    requires idBit == AllHave(Matching(devices, r, k), k, true)
    requires cmpIdBit == AllHave(Matching(devices, r, k), k, false)
    requires idBit != cmpIdBit ==> r'[k] == idBit
    requires lz' == if idBit == cmpIdBit && !r'[k] then k + 1 else lz
    ensures IsDeepest(devices, r', k + 1, lz')
  {
    forall j: nat | j < k
      ensures Branch(devices, r', j) == Branch(devices, r, j)
    {
      assert forall d: Rom :: Diverge(r', d, j) == Diverge(r, d, j);
    }
    var active := Matching(devices, r, k);
    if !r'[k] && idBit == cmpIdBit {
      var w :| w in active;
      assert !AllHave(active, k, false);
      var d :| d in active && d[k];
      assert Diverge(r', d, k);
    } else {
      forall d | d in devices
        ensures !Diverge(r', d, k)
      {
        assert Agree(r', d, k) ==> d in active;
      }
    }
  }

  lemma PassTrail(devices: set<Rom>, prev: Rom, ld: nat, r: Rom, r': Rom, k: nat, lz: nat, idBit: bool, cmpIdBit: bool)
    requires ld <= ROM_BITS && k < ROM_BITS
    requires PassInvariant(devices, prev, ld, r, k, lz)
    requires ld > 0 ==> prev in devices && IsDeepest(devices, prev, ROM_BITS, ld)
    requires idBit == AllHave(Matching(devices, r, k), k, true)
    requires cmpIdBit == AllHave(Matching(devices, r, k), k, false)
    requires r' == r[k := Direction(idBit, cmpIdBit, k + 1, ld, r[k])]
    ensures k + 1 < ld ==> Agree(r', prev, k + 1)
    ensures 0 < ld <= k + 1 ==> Diverge(prev, r', ld - 1)
    ensures forall j: nat | ld <= j < k + 1 && r'[j] :: forall d | d in devices :: !Diverge(d, r', j)
  {
    var active := Matching(devices, r, k);
    assert Agree(r, r', k);
    if k < ld {
      assert prev in active;
      if k + 1 == ld {
        var d :| d in devices && Diverge(prev, d, k);
        assert d in active && d[k] && !prev[k];
        assert r'[k];
      }
    } else {
      assert 0 < ld ==> Diverge(prev, r', ld - 1);
      forall j: nat, d | ld <= j < k + 1 && r'[j] && d in devices
        ensures !Diverge(d, r', j)
      {
        if j < k {
          assert Diverge(d, r, j) == Diverge(d, r', j);
        } else {
          assert Agree(d, r', k) ==> d in active;
        }
      }
    }
  }

  /** A fresh pass ends on the first device. */
  lemma FreshPassFindsLeast(devices: set<Rom>, prev: Rom, r: Rom, lz: nat)
    requires PassInvariant(devices, prev, 0, r, ROM_BITS, lz)
    ensures IsLeast(r, devices)
  {
    MatchingAllIsSelf(devices, r);
    forall d | d in devices
      ensures d == r || Less(r, d)
    {
      LessTotal(d, r);
      assert forall k: nat | k < ROM_BITS :: !Diverge(d, r, k);
    }
  }

  /** Any other pass ends on the device right after the previous one. */
  lemma LaterPassFindsSuccessor(devices: set<Rom>, prev: Rom, ld: nat, r: Rom, lz: nat)
    requires 0 < ld <= ROM_BITS && IsDeepest(devices, prev, ROM_BITS, ld)
    requires PassInvariant(devices, prev, ld, r, ROM_BITS, lz)
    ensures IsSuccessor(devices, prev, r)
  {
    MatchingAllIsSelf(devices, r);
    assert Diverge(prev, r, ld - 1);
    forall d | d in devices && Less(prev, d)
      ensures d == r || Less(r, d)
    {
      LessTotal(d, r);
      var m: nat :| m < ROM_BITS && Diverge(prev, d, m);
      assert Branch(devices, prev, m);
      assert m <= ld - 1;
      forall k: nat | k < ROM_BITS
        ensures !Diverge(d, r, k)
      {
        assert k < ld - 1 ==> r[k] == prev[k];
      }
    }
  }

  lemma MatchingAllIsSelf(devices: set<Rom>, r: Rom)
    requires Matching(devices, r, ROM_BITS) != {}
    ensures r in devices
  {
    var d :| d in Matching(devices, r, ROM_BITS);
    assert d == r;
  }
}
