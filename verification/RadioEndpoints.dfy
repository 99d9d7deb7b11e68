/** The two ends of the radio link as the programs keep them: the bridge's radio manager and the node's radio. */
module RadioEndpoints {
  import opened Common
  import opened RadioLink

  datatype Outcome = Silent | Failed | Delivered

  /** Exclusive or of the first n bytes of a buffer. */
  method XorOf(buffer: array<Byte>, n: nat) returns (xorv: Byte)
    requires n <= buffer.Length
    ensures xorv == XorAll(buffer[..n])
  {
    hide XorByte;
    xorv := 0;
    var j := 0;
    while j < n
      invariant j <= n && xorv == XorAll(buffer[..j])
    {
      assert buffer[..j + 1] == buffer[..j] + [buffer[j]];
      xorv := XorByte(xorv, buffer[j]);
      j := j + 1;
    }
  }

  method CopyBytes(source: array<Byte>, from: nat, target: array<Byte>, to: nat, n: nat)
    requires source != target
    requires from + n <= source.Length && to + n <= target.Length
    modifies target
    ensures target[..] == old(target[..to]) + source[from..from + n] + old(target[to + n..])
  {
    var j := 0;
    while j < n
      invariant j <= n
      invariant forall k :: 0 <= k < target.Length ==>
                  target[k] == if to <= k < to + j then source[from + k - to] else old(target[k])
    {
      target[to + j] := source[from + j];
      j := j + 1;
    }
  }

  /** Puts the checksum of the first n bytes behind them. */
  method Seal(buffer: array<Byte>, n: nat)
    requires n < buffer.Length
    modifies buffer
    ensures buffer[..n + 1] == Sealed(old(buffer[..n]))
  {
    hide XorAll;
    var xorv := XorOf(buffer, n);
    buffer[n] := xorv;
    assert buffer[..n + 1] == buffer[..n] + [xorv];
  }

  /** The bridge. */
  class RadioManager {
    var rollingCounter: Byte
    var rollingCounterRx: Byte
    var haveRx: bool
    var numTx: nat
    var numValidReceived: nat
    var numCrcErrors: nat
    var numJunk: nat
    var numXorv: nat
    var dropped: nat

    constructor ()
      ensures rollingCounter == 0 && numTx == 0
      ensures State() == Receiver(0xff, false, 0, 0, 0, 0, 0)
    {
      rollingCounter, rollingCounterRx, haveRx := 0, 0xff, false;
      numTx, numValidReceived, numCrcErrors, numJunk, numXorv, dropped := 0, 0, 0, 0, 0, 0;
    }

    function State(): Receiver
      reads this
    {
      Receiver(rollingCounterRx, haveRx, numValidReceived, numCrcErrors, numJunk, numXorv, dropped)
    }

    /** The frame that goes to the radio; the counter moves on even when the radio refuses it. */
    method Transmit(payload: array<Byte>, len: nat, radioOk: bool) returns (ok: bool, frame: seq<Byte>)
      requires len <= payload.Length
      modifies this`rollingCounter, this`numTx
      ensures ok == radioOk
      ensures frame == Frame(DATA, old(rollingCounter), rollingCounterRx, payload[..len])
      ensures rollingCounter == Next(old(rollingCounter))
      ensures numTx == old(numTx) + if ok then 1 else 0
    {
      frame := Framed(DATA, rollingCounter, rollingCounterRx, payload, len);
      rollingCounter := if rollingCounter == 0xff then 0 else rollingCounter + 1;
      ok := radioOk;
      if ok {
        numTx := numTx + 1;
      }
    }

    method Hello(i: nat) returns (frame: seq<Byte>)
      requires i < 5
      ensures frame == Frame(HELLO, rollingCounter, 0xff, [104, 101, 108, 108, 111, 48 + i])
    {
      hide XorAll;
      var head := [HELLO, rollingCounter, 0xff, 104, 101, 108, 108, 111, 48 + i];
      assert head == [HELLO, rollingCounter, 0xff] + [104, 101, 108, 108, 111, 48 + i];
      var buffer := new Byte[10](k requires 0 <= k < 10 => if k < 9 then head[k] else 0);
      assert buffer[..9] == head;
      Seal(buffer, 9);
      frame := buffer[..];
      assert frame == buffer[..10];
    }

    /** Five hellos on consecutive counters. */
    method TransmitHello() returns (frames: seq<seq<Byte>>)
      modifies this`rollingCounter
      ensures rollingCounter == (old(rollingCounter) + 5) % 256
      ensures |frames| == 5
      ensures forall i :: 0 <= i < 5 ==>
                frames[i] == Frame(HELLO, (old(rollingCounter) + i) % 256, 0xff, [104, 101, 108, 108, 111, 48 + i])
    {
      hide XorAll;
      frames := [];
      var i := 0;
      while i < 5
        invariant 0 <= i <= 5 && |frames| == i
        invariant rollingCounter == (old(rollingCounter) + i) % 256
        invariant forall k :: 0 <= k < i ==>
                    frames[k] == Frame(HELLO, (old(rollingCounter) + k) % 256, 0xff, [104, 101, 108, 108, 111, 48 + k])
      {
        var frame := Hello(i);
        frames := frames + [frame];
        rollingCounter := (rollingCounter + 1) % 256;
        i := i + 1;
      }
    }

    /** Compares the counter of a valid data frame with the expected one and charges the difference as drops. */
    method NoteCounter(receivedCounter: Byte)
      modifies this`rollingCounterRx, this`haveRx, this`numValidReceived, this`dropped
      ensures rollingCounterRx == receivedCounter && haveRx && numValidReceived == old(numValidReceived) + 1
      ensures dropped == old(dropped) + if old(haveRx) then Skipped(old(rollingCounterRx), receivedCounter) else 0
    {
      numValidReceived := numValidReceived + 1;
      var expectedCounter: Byte := if rollingCounterRx == 0xff then 0 else rollingCounterRx + 1;
      if !haveRx {
        haveRx := true;
      } else if receivedCounter != expectedCounter {
        var skipped := receivedCounter - expectedCounter;
        if skipped < 1 {
          skipped := skipped + 256;
        }
        dropped := dropped + skipped;
      }
      rollingCounterRx := receivedCounter;
    }

    /** The packet in the receive buffer, and the exclusive or of all but its last byte. */
    method Arrived(bytes: seq<Byte>) returns (buffer: array<Byte>, xorv: Byte)
      requires |bytes| > 0
      ensures fresh(buffer) && buffer[..] == bytes && xorv == XorAll(bytes[..|bytes| - 1])
    {
      hide XorAll;
      var received := |bytes|;
      buffer := new Byte[received](k requires 0 <= k < received => bytes[k]);
      assert buffer[..received - 1] == bytes[..received - 1];
      xorv := XorOf(buffer, received - 1);
    }

    /** The head of a frame, its payload and its checksum in a buffer of their own. */
    method Framed(kind: Byte, counter: Byte, echo: Byte, payload: array<Byte>, len: nat) returns (frame: seq<Byte>)
      requires len <= payload.Length
      ensures frame == Frame(kind, counter, echo, payload[..len])
    {
      hide XorAll;
      var buffer := new Byte[len + 4];
      buffer[0], buffer[1] := kind, counter;
      CopyBytes(payload, 0, buffer, 3, len);
      assert buffer[3..len + 3] == payload[..len];
      buffer[2] := echo;
      assert buffer[..len + 3] == [kind, counter, echo] + payload[..len];
      Seal(buffer, len + 3);
      frame := buffer[..];
      assert frame == buffer[..len + 4];
    }

    /** One packet that the radio delivered without complaint. */
    method TakePacket(bytes: seq<Byte>, payload: array<Byte>) returns (delivered: bool, rx: nat)
      requires |bytes| <= payload.Length + 4 && WellSized(Packet(bytes))
      modifies this, payload
      ensures State() == Absorb(old(State()), Packet(bytes))
      ensures rollingCounter == old(rollingCounter) && numTx == old(numTx)
      ensures delivered == IsData(Packet(bytes))
      ensures delivered ==> rx == |bytes| - 4 && payload[..] == PayloadOf(Packet(bytes)) + old(payload[rx..])
      ensures !delivered ==> payload[..] == old(payload[..])
    {
      hide XorAll, Skipped;
      delivered, rx := false, 0;
      var received := |bytes|;
      var buffer, xorv := Arrived(bytes);
      if xorv != buffer[received - 1] {
        numXorv := numXorv + 1;
      } else if buffer[0] == 2 {
        HelloHasCounter(bytes);
        rollingCounterRx := buffer[1];
        haveRx := false;
      } else if buffer[0] == 0 {
        NoteCounter(buffer[1]);
        CopyBytes(buffer, 3, payload, 0, received - 4);
        assert buffer[3..received - 1] == bytes[3..received - 1];
        delivered, rx := true, received - 4;
      } else {
        numJunk := numJunk + 1;
      }
    }

    /** Takes what the radio reports, one receive after another, until a payload comes in or the SPI bus fails.
        Silent means that the loop is still waiting when these arrivals are used up. */
    method TryReceive(air: seq<Arrival>, payload: array<Byte>) returns (outcome: Outcome, rx: nat, used: nat)
      requires forall a <- air :: WellSized(a) && (a.Packet? ==> |a.bytes| <= payload.Length + 4)
      modifies this, payload
      ensures used <= |air| && State() == AbsorbAll(old(State()), air[..used])
      ensures rollingCounter == old(rollingCounter) && numTx == old(numTx)
      ensures outcome.Silent? ==> used == |air| && Payloads(air) == []
      ensures !outcome.Silent? ==> used > 0 && Payloads(air[..used - 1]) == []
      ensures outcome.Failed? ==> air[used - 1].SpiError?
      ensures outcome.Delivered? ==>
                IsData(air[used - 1]) && rx == |air[used - 1].bytes| - 4
                && payload[..] == PayloadOf(air[used - 1]) + old(payload[rx..])
      ensures !outcome.Delivered? ==> payload[..] == old(payload[..])
    {
      hide IsData, IsHello, PayloadOf;
      outcome, rx, used := Silent, 0, 0;
      while used < |air|
        invariant used <= |air|
        invariant State() == AbsorbAll(old(State()), air[..used])
        invariant rollingCounter == old(rollingCounter) && numTx == old(numTx)
        invariant payload[..] == old(payload[..])
        invariant Payloads(air[..used]) == []
      {
        var a := air[used];
        assert air[..used + 1][..used] == air[..used];
        AbsorbAllStep(old(State()), air, used);
        PayloadsStep(air, used);
        DataIsPacket(a);
        used := used + 1;
        if a.SpiError? {
          return Failed, 0, used;
        } else if a.Packet? {
          var delivered;
          delivered, rx := TakePacket(a.bytes, payload);
          if delivered {
            return Delivered, rx, used;
          }
        } else if a.CrcError? {
          numCrcErrors := numCrcErrors + 1;
        }
      }
      assert air[..used] == air;
    }
  }

  lemma DataIsPacket(a: Arrival)
    ensures IsData(a) ==> a.Packet?
  {
  }

  lemma AbsorbAllStep(r: Receiver, air: seq<Arrival>, k: nat)
    requires k < |air| && forall a <- air :: WellSized(a)
    ensures AbsorbAll(r, air[..k + 1]) == Absorb(AbsorbAll(r, air[..k]), air[k])
  {
    hide Absorb, WellSized;
    assert air[..k + 1][..k] == air[..k];
  }

  lemma PayloadsStep(air: seq<Arrival>, k: nat)
    requires k < |air|
    ensures Payloads(air[..k + 1]) == Payloads(air[..k]) + if IsData(air[k]) then [PayloadOf(air[k])] else []
  {
    hide IsData, PayloadOf;
    assert air[..k + 1][..k] == air[..k];
  }

  lemma PointerStep(start: Byte, n: nat)
    ensures ((start + n) % 256 + 1) % 256 == (start + n + 1) % 256
  {
  }

  /** The node: its two buffers, its counter, and the chip's FIFO with its auto-incrementing pointer. */
  class NodeRadio {
    const txBuffer: array<Byte>
    const rxBuffer: array<Byte>
    const fifo: array<Byte>
    var rxLen: Byte
    var txRolling: Byte
    var pointer: Byte

    constructor ()
      ensures Valid() && fresh(txBuffer) && fresh(rxBuffer) && fresh(fifo)
      ensures rxLen == 0 && txRolling == 0
    {
      txBuffer, rxBuffer, fifo := new Byte[MAX_BUFFER_SIZE + 4], new Byte[RX_BUFFER_SIZE], new Byte[256];
      rxLen, txRolling, pointer := 0, 0, 0;
    }

    predicate Valid() {
      txBuffer.Length == MAX_BUFFER_SIZE + 4 && rxBuffer.Length == RX_BUFFER_SIZE && fifo.Length == 256
      && txBuffer != rxBuffer && txBuffer != fifo && rxBuffer != fifo
    }

    /** The packet lies in the FIFO from the pointer on, wrapping at its end. */
    predicate Holds(packet: seq<Byte>)
      requires Valid()
      reads this, fifo
    {
      forall i :: 0 <= i < |packet| ==> fifo[(pointer + i) % 256] == packet[i]
    }

    /** Fills the upper half of the FIFO and starts the transmitter; the result is what goes on the air. */
    method TransmitMessage(payload: array<Byte>, length: Byte) returns (packet: seq<Byte>)
      requires Valid() && payload != fifo && length <= payload.Length
      modifies this`pointer, fifo
      ensures packet == payload[..Min(length, 0x80)] == fifo[0x80..0x80 + Min(length, 0x80)]
    {
      var len := length;
      if len > 0x80 {
        len := 0x80;
      }
      pointer := 0x80;
      var b := 0;
      while b < len
        invariant 0 <= b <= len <= 0x80 && pointer == if b == 0x80 then 0 else 0x80 + b
        invariant fifo[0x80..0x80 + b] == payload[..b]
        invariant payload[..] == old(payload[..])
      {
        fifo[pointer] := payload[b];
        pointer := (pointer + 1) % 256;
        b := b + 1;
      }
      packet := fifo[0x80..0x80 + len];
    }

    method SendMessage(msg: array<Byte>, length: Byte) returns (packet: seq<Byte>)
      requires Valid() && length <= msg.Length && msg != txBuffer && msg != fifo
      modifies this`txRolling, this`pointer, txBuffer, fifo
      ensures packet == NodeFrame(old(txRolling), old(msg[..length]))
      ensures txRolling == Next(old(txRolling))
    {
      hide XorAll;
      txBuffer[0] := 0;
      txBuffer[1] := txRolling;
      txBuffer[2] := 0;
      var len := length;
      if len > MAX_BUFFER_SIZE {
        len := MAX_BUFFER_SIZE;
      }
      CopyBytes(msg, 0, txBuffer, 3, len);
      assert msg[..len] == Clipped(old(msg[..length]));
      assert txBuffer[..len + 3] == [DATA, old(txRolling), 0] + msg[..len];
      Seal(txBuffer, len + 3);
      txRolling := (txRolling + 1) % 256;
      packet := TransmitMessage(txBuffer, len + 4);
    }

    method ReceiveMessage(ghost packet: seq<Byte>, rxNbBytes: Byte) returns (ok: bool)
      requires Valid() && rxNbBytes == |packet| && Holds(packet)
      modifies this`rxLen, this`pointer, rxBuffer
      ensures ok <==> NodeSize(packet) <= RX_BUFFER_SIZE
      ensures ok ==> rxLen == NodeSize(packet) && rxBuffer[..rxLen] == packet[..rxLen]
      ensures !ok ==> rxLen == old(rxLen) && rxBuffer[..] == old(rxBuffer[..])
    {
      var payloadSizeBytes: Byte := if rxNbBytes == 0 then 255 else rxNbBytes - 1;
      if payloadSizeBytes > RX_BUFFER_SIZE {
        return false;
      }
      var n := 0;
      while n < payloadSizeBytes
        invariant 0 <= n <= payloadSizeBytes && pointer == (old(pointer) + n) % 256
        invariant fifo[..] == old(fifo[..])
        invariant forall i :: 0 <= i < n ==> rxBuffer[i] == packet[i]
      {
        assert fifo[(old(pointer) + n) % 256] == packet[n];
        var v := fifo[pointer];
        PointerStep(old(pointer), n);
        pointer := (pointer + 1) % 256;
        rxBuffer[n] := v;
        n := n + 1;
      }
      rxLen := payloadSizeBytes;
      ok := true;
    }

    method Parse(response: array<Byte>)
      requires Valid() && rxLen <= RX_BUFFER_SIZE && response.Length == MAX_BUFFER_SIZE && response != rxBuffer
      modifies response
      ensures response[..] == NodeParse(rxBuffer[..rxLen], old(response[..]))
    {
      if rxLen < 3 {
        return;
      }
      if rxBuffer[0] == 0x2 {
        return;
      }
      var n := if rxLen - 3 > MAX_BUFFER_SIZE then MAX_BUFFER_SIZE else rxLen - 3;
      hide XorAll;
      CopyBytes(rxBuffer, 3, response, 0, n);
      assert rxBuffer[..] == old(rxBuffer[..]);
      assert rxBuffer[3..3 + n] == rxBuffer[..rxLen][3..3 + n];
    }
  }
}
