/** The layer-2 frame between the SX1276 bridge and the sensor node, and the rolling counters both ends keep.

      byte 0      0x00 for MQTT-SN data, 0x02 for a hello
      byte 1      rolling counter of the sender
      byte 2      counter the sender last received (the bridge fills it in, the node sends 0)
      byte 3..    payload
      last byte   exclusive or of every byte before it */
module RadioLink {
  import opened Common

  const DATA: Byte := 0
  const HELLO: Byte := 2
  /** Room for one MQTT-SN message in the node's buffers. */
  const MAX_BUFFER_SIZE := 92
  /** The node's receive buffer. */
  const RX_BUFFER_SIZE := 128

  function Pow2(n: nat): nat {
    if n == 0 then 1 else 2 * Pow2(n - 1)
  }

  /** Exclusive or, binary digit by binary digit. */
  function XorDigits(n: nat, a: nat, b: nat): (r: nat)
    ensures r < Pow2(n)
  {
    if n == 0 then 0 else 2 * XorDigits(n - 1, a / 2, b / 2) + (a + b) % 2
  }

  function XorByte(a: Byte, b: Byte): Byte {
    assert Pow2(8) == 256;
    XorDigits(8, a, b)
  }

  function XorAll(s: seq<Byte>): Byte
    decreases |s|
  {
    if s == [] then 0 else XorByte(XorAll(s[..|s| - 1]), s[|s| - 1])
  }

  function Sealed(s: seq<Byte>): seq<Byte> {
    s + [XorAll(s)]
  }

  function Frame(kind: Byte, counter: Byte, echo: Byte, payload: seq<Byte>): seq<Byte> {
    Sealed([kind, counter, echo] + payload)
  }

  function Next(counter: Byte): Byte {
    (counter + 1) % 256
  }

  /** The bridge's checksum test. */
  predicate Intact(frame: seq<Byte>)
    requires |frame| > 0
  {
    XorAll(frame[..|frame| - 1]) == frame[|frame| - 1]
  }

  /** What the bridge's radio reports from one blocking receive. */
  datatype Arrival = SpiError | Timeout | CrcError | Packet(bytes: seq<Byte>)

  /** What the bridge can take without leaving its buffer: a packet has a byte to check, and one that passes for
      data has a whole frame. */
  predicate WellSized(a: Arrival) {
    a.Packet? ==> |a.bytes| > 0 && (Intact(a.bytes) && a.bytes[0] == DATA ==> |a.bytes| >= 4)
  }

  lemma HelloHasCounter(bytes: seq<Byte>)
    requires |bytes| > 0 && Intact(bytes) && bytes[0] == HELLO
    ensures |bytes| > 1
  {
  }

  predicate IsData(a: Arrival) {
    WellSized(a) && a.Packet? && Intact(a.bytes) && a.bytes[0] == DATA
  }

  predicate IsHello(a: Arrival) {
    WellSized(a) && a.Packet? && Intact(a.bytes) && a.bytes[0] == HELLO
  }

  function PayloadOf(a: Arrival): seq<Byte>
    requires IsData(a)
  {
    a.bytes[3..|a.bytes| - 1]
  }

  /** The receiving half of the bridge. */
  datatype Receiver = Receiver(counterRx: Byte, haveRx: bool, valid: nat, crcErrors: nat, junk: nat,
                               xorErrors: nat, dropped: nat)

  /** What the bridge adds to its drop count for a frame that does not carry the expected counter. */
  function Skipped(counterRx: Byte, received: Byte): nat {
    var expected := if counterRx == 0xff then 0 else counterRx + 1;
    if received == expected then 0
    else if received - expected < 1 then received - expected + 256
    else received - expected
  }

  function Absorb(r: Receiver, a: Arrival): Receiver
    requires WellSized(a)
  {
    match a
    case SpiError => r
    case Timeout => r
    case CrcError => r.(crcErrors := r.crcErrors + 1)
    case Packet(bytes) =>
      if !Intact(bytes) then r.(xorErrors := r.xorErrors + 1)
      else if bytes[0] == HELLO then
        HelloHasCounter(bytes);
        r.(counterRx := bytes[1], haveRx := false)
      else if bytes[0] == DATA then
        r.(valid := r.valid + 1, haveRx := true, counterRx := bytes[1],
           dropped := r.dropped + if r.haveRx then Skipped(r.counterRx, bytes[1]) else 0)
      else r.(junk := r.junk + 1)
  }

  function AbsorbAll(r: Receiver, air: seq<Arrival>): Receiver
    requires forall a <- air :: WellSized(a)
    decreases |air|
  {
    if air == [] then r else Absorb(AbsorbAll(r, air[..|air| - 1]), air[|air| - 1])
  }

  /** The payloads handed up while these arrivals come in. */
  function Payloads(air: seq<Arrival>): seq<seq<Byte>>
    decreases |air|
  {
    if air == [] then []
    else
      var last := air[|air| - 1];
      Payloads(air[..|air| - 1]) + if IsData(last) then [PayloadOf(last)] else []
  }

  /** The node's end: the frame it sends, the bytes its driver keeps of a packet, the message buffer after parsing. */
  function Clipped(message: seq<Byte>): seq<Byte> {
    message[..Min(|message|, MAX_BUFFER_SIZE)]
  }

  function NodeFrame(counter: Byte, message: seq<Byte>): seq<Byte> {
    Frame(DATA, counter, 0, Clipped(message))
  }

  /** The driver copies one byte less than the chip reports, which is what drops the checksum; the
      subtraction is on a byte, so an empty packet looks 255 bytes long and is refused. */
  function NodeSize(packet: seq<Byte>): int
    requires |packet| < 256
  {
    (|packet| + 255) % 256
  }

  function NodeParse(received: seq<Byte>, response: seq<Byte>): (r: seq<Byte>)
    requires |response| == MAX_BUFFER_SIZE
    ensures |r| == MAX_BUFFER_SIZE
  {
    if |received| < 3 || received[0] == HELLO then response
    else
      var n := Min(|received| - 3, MAX_BUFFER_SIZE);
      received[3..3 + n] + response[n..]
  }

  // ---- the checksum ----

  lemma {:induction false} XorDigitsStep(n: nat, a: nat, b: nat)
    requires n > 0
    ensures XorDigits(n, a, b) % 2 == (a + b) % 2
    ensures XorDigits(n, a, b) / 2 == XorDigits(n - 1, a / 2, b / 2)
  {
  }

  lemma {:induction false} XorDigitsLaws(n: nat, a: nat, b: nat)
    requires a < Pow2(n) && b < Pow2(n)
    ensures XorDigits(n, a, b) == XorDigits(n, b, a)
    ensures XorDigits(n, a, 0) == a
    ensures XorDigits(n, a, b) == 0 <==> a == b
  {
    if n > 0 {
      XorDigitsLaws(n - 1, a / 2, b / 2);
      assert XorDigits(n, a, b) == 2 * XorDigits(n - 1, a / 2, b / 2) + (a + b) % 2;
      ParityOfSum(a, b);
    }
  }

  lemma ParityOfSum(a: nat, b: nat)
    ensures (a + b) % 2 == 0 <==> a % 2 == b % 2
    ensures a == 2 * (a / 2) + a % 2 && b == 2 * (b / 2) + b % 2
  {
  }

  lemma ParityAssociates(ab: nat, bc: nat, a: nat, b: nat, c: nat)
    requires ab % 2 == (a + b) % 2 && bc % 2 == (b + c) % 2
    ensures (ab + c) % 2 == (a + bc) % 2
  {
  }

  lemma {:induction false} XorDigitsAssociates(n: nat, a: nat, b: nat, c: nat)
    ensures XorDigits(n, XorDigits(n, a, b), c) == XorDigits(n, a, XorDigits(n, b, c))
  {
    if n > 0 {
      hide XorDigits;
      XorDigitsAssociates(n - 1, a / 2, b / 2, c / 2);
      var ab, bc := XorDigits(n, a, b), XorDigits(n, b, c);
      XorDigitsStep(n, a, b);
      XorDigitsStep(n, b, c);
      XorDigitsStep(n, ab, c);
      XorDigitsStep(n, a, bc);
      ParityAssociates(ab, bc, a, b, c);
      ParityOfSum(XorDigits(n, ab, c), XorDigits(n, a, bc));
    }
  }

  lemma XorByteLaws(a: Byte, b: Byte)
    ensures XorByte(a, b) == XorByte(b, a)
    ensures XorByte(a, 0) == a
    ensures XorByte(a, b) == 0 <==> a == b
  {
    assert Pow2(8) == 256;
    hide XorDigits, Pow2;
    XorDigitsLaws(8, a, b);
  }

  lemma XorByteAssociates(a: Byte, b: Byte, c: Byte)
    ensures XorByte(XorByte(a, b), c) == XorByte(a, XorByte(b, c))
  {
    hide XorDigits, Pow2;
    XorDigitsAssociates(8, a, b, c);
  }

  /** Exchanging the last byte of a running sum for another. */
  lemma XorExchange(x: Byte, a: Byte, b: Byte)
    ensures XorByte(x, b) == XorByte(XorByte(x, a), XorByte(a, b))
  {
    hide XorByte;
    XorByteAssociates(x, a, XorByte(a, b));
    XorByteAssociates(a, a, b);
    XorByteLaws(a, a);
    XorByteLaws(b, 0);
  }

  lemma XorMovesOut(x: Byte, d: Byte, last: Byte)
    ensures XorByte(XorByte(x, d), last) == XorByte(XorByte(x, last), d)
  {
    hide XorByte;
    XorByteAssociates(x, d, last);
    XorByteAssociates(x, last, d);
    XorByteLaws(d, last);
  }

  lemma {:induction false} XorAllUpdate(s: seq<Byte>, i: nat, b: Byte)
    requires i < |s|
    ensures XorAll(s[i := b]) == XorByte(XorAll(s), XorByte(s[i], b))
    decreases |s|
  {
    hide XorByte;
    var n := |s| - 1;
    if i == n {
      assert s[i := b][..n] == s[..n];
      XorExchange(XorAll(s[..n]), s[n], b);
    } else {
      assert s[i := b][..n] == s[..n][i := b];
      XorAllUpdate(s[..n], i, b);
      XorMovesOut(XorAll(s[..n]), XorByte(s[i], b), s[n]);
    }
  }

  /** The bridge compares the last byte with the exclusive or of the others; that passes exactly when
      all the bytes cancel. */
  lemma {:induction false} IntactIffZero(frame: seq<Byte>)
    requires |frame| > 0
    ensures Intact(frame) <==> XorAll(frame) == 0
  {
    hide XorByte;
    XorByteLaws(XorAll(frame[..|frame| - 1]), frame[|frame| - 1]);
  }

  lemma {:induction false} OneByteChangeRejected(frame: seq<Byte>, i: nat, b: Byte)
    requires |frame| > 0 && Intact(frame) && i < |frame| && frame[i] != b
    ensures !Intact(frame[i := b])
  {
    hide XorByte, Intact;
    IntactIffZero(frame);
    IntactIffZero(frame[i := b]);
    XorAllUpdate(frame, i, b);
    XorByteLaws(frame[i], b);
    XorByteLaws(0, XorByte(frame[i], b));
    XorByteLaws(XorByte(frame[i], b), 0);
  }

  // ---- frames across the air ----

  lemma {:induction false} FrameShape(kind: Byte, counter: Byte, echo: Byte, payload: seq<Byte>)
    ensures var frame := Frame(kind, counter, echo, payload);
            |frame| == |payload| + 4 && Intact(frame) && frame[0] == kind && frame[1] == counter && frame[2] == echo
            && frame[3..|frame| - 1] == payload
  {
    var head := [kind, counter, echo] + payload;
    assert Frame(kind, counter, echo, payload)[..|payload| + 3] == head;
  }

  /** Bridge to node: the message buffer starts with the payload, up to the size of the buffer. */
  lemma {:induction false} BridgeToNode(counter: Byte, echo: Byte, payload: seq<Byte>, response: seq<Byte>)
    requires |payload| <= RX_BUFFER_SIZE - 3 && |response| == MAX_BUFFER_SIZE
    ensures var packet := Frame(DATA, counter, echo, payload);
            NodeSize(packet) <= RX_BUFFER_SIZE
            && NodeParse(packet[..NodeSize(packet)], response)
               == Clipped(payload) + response[|Clipped(payload)|..]
  {
    hide XorAll;
    FrameShape(DATA, counter, echo, payload);
    var packet := Frame(DATA, counter, echo, payload);
    assert packet[..NodeSize(packet)] == [DATA, counter, echo] + payload;
  }

  /** Node to bridge: the frame is accepted and carries exactly the clipped message. */
  lemma {:induction false} NodeToBridge(counter: Byte, message: seq<Byte>)
    ensures var a := Packet(NodeFrame(counter, message));
            IsData(a) && PayloadOf(a) == Clipped(message) && a.bytes[1] == counter
            && (|message| <= MAX_BUFFER_SIZE ==> PayloadOf(a) == message)
  {
    hide XorAll;
    FrameShape(DATA, counter, 0, Clipped(message));
  }

  /** A frame with one byte changed in flight is counted as a checksum error and moves nothing else. */
  lemma {:induction false} DamagedFrameIsOnlyCounted(r: Receiver, counter: Byte, message: seq<Byte>, i: nat, b: Byte)
    requires i < |NodeFrame(counter, message)| && NodeFrame(counter, message)[i] != b
    ensures Absorb(r, Packet(NodeFrame(counter, message)[i := b])) == r.(xorErrors := r.xorErrors + 1)
  {
    hide XorAll, Intact;
    FrameShape(DATA, counter, 0, Clipped(message));
    OneByteChangeRejected(NodeFrame(counter, message), i, b);
  }

  // ---- rolling counters ----

  /** The data frames among these arrivals carry, in order, the sequence numbers ns modulo 256; there is no hello. */
  predicate Numbered(air: seq<Arrival>, ns: seq<nat>)
    decreases |air|
  {
    if air == [] then ns == []
    else
      var last, rest := air[|air| - 1], air[..|air| - 1];
      if IsData(last) then
        |ns| > 0 && last.bytes[1] == ns[|ns| - 1] % 256 && Numbered(rest, ns[..|ns| - 1])
      else WellSized(last) && !IsHello(last) && Numbered(rest, ns)
  }

  predicate Increasing(ns: seq<nat>) {
    forall i :: 0 < i < |ns| ==> ns[i - 1] < ns[i]
  }

  predicate GapsWithin(ns: seq<nat>, bound: nat) {
    forall i :: 0 < i < |ns| ==> ns[i] <= ns[i - 1] + bound
  }

  /** What the bridge can count: each gap is seen modulo 256. */
  function Counted(ns: seq<nat>): nat
    requires Increasing(ns)
    decreases |ns|
  {
    if |ns| < 2 then 0 else Counted(ns[..|ns| - 1]) + (ns[|ns| - 1] - ns[|ns| - 2] - 1) % 256
  }

  lemma SkippedIsTheGap(a: nat, b: nat)
    requires a < b
    ensures Skipped(a % 256, b % 256) == (b - a - 1) % 256
  {
    var x, y, turns := a % 256, b % 256, b / 256 - a / 256;
    assert b - a - 1 == (y - x - 1) + 256 * turns;
    if y - x - 1 >= 0 {
      RemainderOf(y - x - 1, turns);
    } else {
      RemainderOf(y - x + 255, turns - 1);
    }
  }

  lemma RemainderOf(r: nat, turns: int)
    requires r < 256
    ensures (r + 256 * turns) % 256 == r
  {
  }

  lemma {:induction false} NumberedSized(air: seq<Arrival>, ns: seq<nat>)
    requires Numbered(air, ns)
    ensures forall a <- air :: WellSized(a)
    decreases |air|
  {
    hide IsData, IsHello;
    if air != [] {
      var last, rest := air[|air| - 1], air[..|air| - 1];
      NumberedSized(rest, if IsData(last) then ns[..|ns| - 1] else ns);
      assert WellSized(last) by {
        if IsData(last) { assert WellSized(last) by { DataSized(last); } }
      }
      assert forall a <- air :: a in rest || a == last;
    }
  }

  lemma DataSized(a: Arrival)
    requires IsData(a)
    ensures WellSized(a)
  {
  }

  lemma AbsorbData(r: Receiver, a: Arrival)
    requires IsData(a)
    ensures Absorb(r, a) == r.(valid := r.valid + 1, haveRx := true, counterRx := a.bytes[1],
                               dropped := r.dropped + if r.haveRx then Skipped(r.counterRx, a.bytes[1]) else 0)
  {
    hide Intact, Skipped;
  }

  lemma AbsorbOther(r: Receiver, a: Arrival)
    requires WellSized(a) && !IsData(a) && !IsHello(a)
    ensures var after := Absorb(r, a);
            after.haveRx == r.haveRx && after.counterRx == r.counterRx && after.valid == r.valid
            && after.dropped == r.dropped
  {
    hide Intact, Skipped;
  }

  lemma {:induction false} CountersTrack(r: Receiver, air: seq<Arrival>, ns: seq<nat>)
    requires !r.haveRx && Numbered(air, ns) && Increasing(ns)
    requires forall a <- air :: WellSized(a)
    ensures var after := AbsorbAll(r, air);
            after.haveRx == (|ns| > 0)
            && (|ns| > 0 ==> after.counterRx == ns[|ns| - 1] % 256)
            && after.valid == r.valid + |ns|
            && after.dropped == r.dropped + Counted(ns)
            && |Payloads(air)| == |ns|
    decreases |air|
  {
    hide IsData, IsHello, Absorb, Skipped, PayloadOf, WellSized;
    if air != [] {
      var last, rest := air[|air| - 1], air[..|air| - 1];
      if IsData(last) {
        CountersTrack(r, rest, ns[..|ns| - 1]);
        AbsorbData(AbsorbAll(r, rest), last);
        if |ns| > 1 {
          SkippedIsTheGap(ns[|ns| - 2], ns[|ns| - 1]);
        }
      } else {
        CountersTrack(r, rest, ns);
        AbsorbOther(AbsorbAll(r, rest), last);
      }
    }
  }

  lemma SmallRemainder(n: nat)
    ensures n % 256 <= n && (n % 256 == n <==> n < 256)
  {
  }

  lemma GapsExtend(ns: seq<nat>)
    requires |ns| > 1
    ensures GapsWithin(ns, 256) <==> GapsWithin(ns[..|ns| - 1], 256) && ns[|ns| - 1] <= ns[|ns| - 2] + 256
  {
    assert forall i :: 0 <= i < |ns| - 1 ==> ns[..|ns| - 1][i] == ns[i];
  }

  /** Counting modulo 256 never overestimates the loss, and is exact just when no gap exceeds 256. */
  lemma {:induction false} CountedExact(ns: seq<nat>)
    requires Increasing(ns) && |ns| > 0
    ensures Counted(ns) <= (ns[|ns| - 1] - ns[0]) - (|ns| - 1)
    ensures Counted(ns) == (ns[|ns| - 1] - ns[0]) - (|ns| - 1) <==> GapsWithin(ns, 256)
    decreases |ns|
  {
    if |ns| > 1 {
      hide GapsWithin;
      var rest := ns[..|ns| - 1];
      CountedExact(rest);
      var gap := ns[|ns| - 1] - ns[|ns| - 2];
      GapsExtend(ns);
      SmallRemainder(gap - 1);
    }
  }

  // ---- a whole run over a lossy, in-order link ----

  /** What happens to one frame on its way: it never arrives, it arrives as sent, or something else does. */
  datatype Fate = Lost | Arrives | Spoiled(arrival: Arrival)

  predicate Spoils(fate: Fate) {
    fate.Spoiled? ==> WellSized(fate.arrival) && !IsData(fate.arrival) && !IsHello(fate.arrival)
  }

  /** The frames the node emits for these messages, its counter starting at this value. */
  function Sends(counter: Byte, messages: seq<seq<Byte>>): (frames: seq<seq<Byte>>)
    ensures |frames| == |messages| && forall f <- frames :: |f| >= 4
    decreases |messages|
  {
    if messages == [] then []
    else
      var k := |messages| - 1;
      Sends(counter, messages[..k]) + [NodeFrame((counter + k) % 256, messages[k])]
  }

  function Hop(frame: seq<Byte>, fate: Fate): (air: seq<Arrival>)
    requires |frame| >= 4 && Spoils(fate)
    ensures forall a <- air :: WellSized(a)
  {
    match fate
    case Lost => []
    case Arrives => [Packet(frame)]
    case Spoiled(a) => [a]
  }

  function AirOf(frames: seq<seq<Byte>>, fates: seq<Fate>): (air: seq<Arrival>)
    requires |frames| == |fates|
    requires forall f <- frames :: |f| >= 4
    requires forall f <- fates :: Spoils(f)
    ensures forall a <- air :: WellSized(a)
    decreases |fates|
  {
    if fates == [] then []
    else
      var k := |fates| - 1;
      AirOf(frames[..k], fates[..k]) + Hop(frames[k], fates[k])
  }

  /** The places of the frames that arrive, counted from the sender's counter. */
  function Kept(base: nat, fates: seq<Fate>): (ns: seq<nat>)
    ensures forall i :: 0 <= i < |ns| ==> base <= ns[i] < base + |fates|
    decreases |fates|
  {
    if fates == [] then []
    else
      var k := |fates| - 1;
      Kept(base, fates[..k]) + if fates[k].Arrives? then [base + k] else []
  }

  function KeptMessages(messages: seq<seq<Byte>>, fates: seq<Fate>): seq<seq<Byte>>
    requires |messages| == |fates|
    decreases |fates|
  {
    if fates == [] then []
    else
      var k := |fates| - 1;
      KeptMessages(messages[..k], fates[..k]) + if fates[k].Arrives? then [Clipped(messages[k])] else []
  }

  lemma {:induction false} KeptIncreases(base: nat, fates: seq<Fate>)
    ensures Increasing(Kept(base, fates))
    decreases |fates|
  {
    if fates != [] {
      KeptIncreases(base, fates[..|fates| - 1]);
    }
  }

  lemma AirOfPrefix(counter: Byte, messages: seq<seq<Byte>>, fates: seq<Fate>)
    requires |messages| == |fates| && fates != []
    ensures var k := |fates| - 1;
            Sends(counter, messages)[..k] == Sends(counter, messages[..k])
            && Sends(counter, messages)[k] == NodeFrame((counter + k) % 256, messages[k])
  {
    hide NodeFrame;
  }

  lemma DataExtends(air: seq<Arrival>, a: Arrival, ns: seq<nat>, n: nat)
    requires Numbered(air, ns) && IsData(a) && a.bytes[1] == n % 256
    ensures Numbered(air + [a], ns + [n]) && Payloads(air + [a]) == Payloads(air) + [PayloadOf(a)]
  {
    hide IsData, IsHello, PayloadOf, WellSized;
    assert (air + [a])[..|air|] == air && (ns + [n])[..|ns|] == ns;
  }

  lemma OtherExtends(air: seq<Arrival>, a: Arrival, ns: seq<nat>)
    requires Numbered(air, ns) && WellSized(a) && !IsData(a) && !IsHello(a)
    ensures Numbered(air + [a], ns) && Payloads(air + [a]) == Payloads(air)
  {
    hide IsData, IsHello, PayloadOf, WellSized;
    assert (air + [a])[..|air|] == air;
  }

  lemma HopExtends(before: seq<Arrival>, ns: seq<nat>, n: nat, message: seq<Byte>, fate: Fate)
    requires Numbered(before, ns) && Spoils(fate) && |NodeFrame(n % 256, message)| >= 4
    ensures var air := before + Hop(NodeFrame(n % 256, message), fate);
            Numbered(air, ns + if fate.Arrives? then [n] else [])
            && Payloads(air) == Payloads(before) + if fate.Arrives? then [Clipped(message)] else []
  {
    hide NodeFrame, IsData, IsHello, PayloadOf, Clipped, Numbered, Payloads, WellSized;
    match fate {
      case Lost =>
        assert before + [] == before && ns + [] == ns;
      case Arrives =>
        NodeToBridge(n % 256, message);
        DataExtends(before, Packet(NodeFrame(n % 256, message)), ns, n);
      case Spoiled(a) =>
        OtherExtends(before, a, ns);
        assert ns + [] == ns;
    }
  }

  lemma {:induction false} AirIsNumbered(counter: Byte, messages: seq<seq<Byte>>, fates: seq<Fate>)
    requires |messages| == |fates|
    requires forall f <- fates :: Spoils(f)
    ensures var air := AirOf(Sends(counter, messages), fates);
            Numbered(air, Kept(counter, fates)) && Payloads(air) == KeptMessages(messages, fates)
    decreases |fates|
  {
    hide NodeFrame, Clipped, Sends, Numbered, Payloads, WellSized, Spoils, Hop;
    if fates == [] {
      EmptyAir();
    } else {
      var k := |fates| - 1;
      AirIsNumbered(counter, messages[..k], fates[..k]);
      AirOfPrefix(counter, messages, fates);
      var before := AirOf(Sends(counter, messages[..k]), fates[..k]);
      HopExtends(before, Kept(counter, fates[..k]), counter + k, messages[k], fates[k]);
    }
  }

  lemma EmptyAir()
    ensures Numbered([], []) && Payloads([]) == []
  {
  }

  /** The node sends any messages, the link loses or spoils any of the frames: the bridge hands up exactly the
      messages that arrived, in order, and its drop count grows by the number of frames missing between the first
      and the last that arrived, if and only if no two neighbours of them are more than 256 apart. */
  lemma {:induction false} LossyLink(r: Receiver, counter: Byte, messages: seq<seq<Byte>>, fates: seq<Fate>)
    requires !r.haveRx
    requires |messages| == |fates|
    requires forall f <- fates :: Spoils(f)
    ensures var air := AirOf(Sends(counter, messages), fates);
            var ns := Kept(counter, fates);
            var after := AbsorbAll(r, air);
            Payloads(air) == KeptMessages(messages, fates)
            && after.valid == r.valid + |ns|
            && (|ns| > 0 ==>
                  after.dropped - r.dropped <= (ns[|ns| - 1] - ns[0]) - (|ns| - 1)
                  && (after.dropped - r.dropped == (ns[|ns| - 1] - ns[0]) - (|ns| - 1) <==> GapsWithin(ns, 256)))
  {
    hide Sends, AirOf, Kept, Payloads, AbsorbAll, Numbered, KeptMessages, Counted, GapsWithin, Increasing, WellSized;
    var ns := Kept(counter, fates);
    KeptIncreases(counter, fates);
    AirIsNumbered(counter, messages, fates);
    CountersTrack(r, AirOf(Sends(counter, messages), fates), ns);
    if |ns| > 0 {
      CountedExact(ns);
    }
  }

  /** 256 frames in a row go missing and the bridge notices none of them. */
  lemma FullTurnUnseen(r: Receiver, first: seq<Byte>, second: seq<Byte>, counter: Byte)
    requires !r.haveRx
    ensures var r1 := Absorb(r, Packet(NodeFrame(counter, first)));
            Absorb(r1, Packet(NodeFrame((counter + 257) % 256, second))).dropped == r.dropped
  {
    hide XorAll, Intact;
    FrameShape(DATA, counter, 0, Clipped(first));
    FrameShape(DATA, (counter + 257) % 256, 0, Clipped(second));
  }

  // ---- hellos, and what else comes in ----

  /** Every arrival is counted in its own place and nowhere else. */
  lemma EveryArrivalCounted(r: Receiver, a: Arrival)
    requires WellSized(a)
    ensures var after := Absorb(r, a);
            && after.valid == r.valid + (if IsData(a) then 1 else 0)
            && after.crcErrors == r.crcErrors + (if a.CrcError? then 1 else 0)
            && after.xorErrors == r.xorErrors + (if a.Packet? && !Intact(a.bytes) then 1 else 0)
            && after.junk == r.junk + (if a.Packet? && Intact(a.bytes) && !IsData(a) && !IsHello(a) then 1 else 0)
            && after.dropped >= r.dropped && (!IsData(a) ==> after.dropped == r.dropped)
  {
    hide Intact;
  }

  /** A hello sets the counter and forgets that data has come in. */
  lemma HelloStartsOver(r: Receiver, hello: Arrival)
    requires IsHello(hello)
    ensures WellSized(hello) && |hello.bytes| > 1
    ensures Absorb(r, hello) == r.(counterRx := hello.bytes[1], haveRx := false)
  {
    hide Intact;
    HelloHasCounter(hello.bytes);
  }

  lemma {:induction false} AbsorbedFirst(r: Receiver, a: Arrival, air: seq<Arrival>)
    requires WellSized(a) && forall b <- air :: WellSized(b)
    ensures forall b <- [a] + air :: WellSized(b)
    ensures AbsorbAll(r, [a] + air) == AbsorbAll(Absorb(r, a), air)
    decreases |air|
  {
    hide WellSized, Absorb;
    if air == [] {
      assert [a] + air == [a] && [a][..0] == [];
    } else {
      var k := |air| - 1;
      AbsorbedFirst(r, a, air[..k]);
      assert ([a] + air)[..k + 1] == [a] + air[..k];
    }
  }

  /** From any receiver: after a hello the link counts as from a fresh start. */
  lemma {:induction false} LossyLinkAfterHello(r: Receiver, hello: Arrival, counter: Byte, messages: seq<seq<Byte>>,
                                               fates: seq<Fate>)
    requires IsHello(hello) && |messages| == |fates|
    requires forall f <- fates :: Spoils(f)
    ensures var air := AirOf(Sends(counter, messages), fates);
            (forall a <- [hello] + air :: WellSized(a)) &&
            var ns := Kept(counter, fates);
            var after := AbsorbAll(r, [hello] + air);
            Payloads(air) == KeptMessages(messages, fates)
            && after.valid == r.valid + |ns|
            && (|ns| > 0 ==>
                  after.dropped - r.dropped <= (ns[|ns| - 1] - ns[0]) - (|ns| - 1)
                  && (after.dropped - r.dropped == (ns[|ns| - 1] - ns[0]) - (|ns| - 1) <==> GapsWithin(ns, 256)))
  {
    hide Sends, AirOf, Kept, Payloads, AbsorbAll, KeptMessages, GapsWithin, WellSized, IsHello, Absorb;
    HelloStartsOver(r, hello);
    AbsorbedFirst(r, hello, AirOf(Sends(counter, messages), fates));
    LossyLink(Absorb(r, hello), counter, messages, fates);
  }

  /** The node takes nothing from a hello or from what is shorter than a head. */
  lemma NodeIgnores(counter: Byte, echo: Byte, payload: seq<Byte>, packet: seq<Byte>, response: seq<Byte>)
    requires |payload| <= RX_BUFFER_SIZE - 3 && |response| == MAX_BUFFER_SIZE && |packet| < 3
    ensures var hello := Frame(HELLO, counter, echo, payload);
            NodeSize(hello) <= RX_BUFFER_SIZE && NodeParse(hello[..NodeSize(hello)], response) == response
    ensures NodeParse(packet, response) == response
  {
    hide XorAll;
    FrameShape(HELLO, counter, echo, payload);
  }
}
