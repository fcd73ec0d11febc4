/** The receive loop: captured frames are cut to the receive limit, parsed, filtered and decoded. */
module FullStack {
  import opened Bits
  import BitBuffer
  import opened Message
  import opened Chain
  import opened Radiotap
  import opened Receiver
  import Ring
  import opened Transfer
  import Resync

  /** What one call to recvfrom can return of a captured frame. */
  const RECEIVE_LIMIT: nat := PACKET_MAX - 1

  function Received(packet: seq<byte>): seq<byte> {
    packet[..BitBuffer.Min(|packet|, RECEIVE_LIMIT)]
  }

  /** The length handed to the decoder, or a number the loop throws away. */
  function RecoveredLength(packet: seq<byte>): int {
    var pkt := Received(packet);
    if pkt == [] then 0 else ParsedLength(pkt)
  }

  function CaptureIn(packet: seq<byte>): Capture {
    Capture(RecoveredLength(packet), SourceAddress(Received(packet)))
  }

  function CapturesOf(packet: seq<byte>): (caps: seq<Capture>)
    ensures caps == [] || caps == [CaptureIn(packet)]
    ensures caps != [] <==> RecoveredLength(packet) > 0
  {
    if RecoveredLength(packet) <= 0 then [] else [CaptureIn(packet)]
  }

  /** What the decoder gets to see of the first n captured frames. */
  function CapturesIn(packets: seq<seq<byte>>, n: nat): seq<Capture>
    requires n <= |packets|
  {
    if n == 0 then [] else CapturesIn(packets, n - 1) + CapturesOf(packets[n - 1])
  }

  lemma {:induction false} CutInNumbers(packet: seq<byte>, r: int, saddr: seq<byte>, before: seq<byte>)
    requires InNumbers(Received(packet), r, saddr, before)
    ensures |packet| <= 1499 ==> InNumbers(packet, r, saddr, before)
    ensures 1499 < |packet| ==> InNumbers(packet[..1499], r, saddr, before)
  {
    assert Received(packet) == if |packet| <= 1499 then packet else packet[..1499];
  }

  /** One receive; an empty packet stands for a poll that returns nothing. */
  method ReceiveRawPacket(packet: seq<byte>, radiotap: RadiotapInfo) returns (sendlen: int)
    requires radiotap.Valid()
    modifies radiotap, radiotap.saddr
    ensures sendlen == RecoveredLength(packet)
    ensures sendlen > 0 ==> radiotap.saddr[..] == SourceAddress(Received(packet))
    ensures packet == [] ==> sendlen == 0
    ensures 0 < |packet| <= 1499 ==> InNumbers(packet, sendlen, radiotap.saddr[..], old(radiotap.saddr[..]))
    ensures 1499 < |packet| ==> InNumbers(packet[..1499], sendlen, radiotap.saddr[..], old(radiotap.saddr[..]))
  {
    var buffer := new byte[PACKET_MAX](_ => 0);
    var rxlen := BitBuffer.Min(|packet|, buffer.Length - 1);
    forall i | 0 <= i < rxlen { buffer[i] := packet[i]; }
    assert buffer[..rxlen] == Received(packet);
    ghost var before := radiotap.saddr[..];
    if rxlen > 0 {
      sendlen := RadiotapHeader(radiotap, buffer, rxlen);
      CutInNumbers(packet, sendlen, radiotap.saddr[..], before);
    } else {
      sendlen := rxlen;
    }
  }

  /** One turn of the receive loop. */
  function Turn(st: State, packet: seq<byte>): (r: Result)
    requires st.Valid()
    ensures r.state.Valid()
  {
    if RecoveredLength(packet) <= 0 then Result(st, [])
    else Decode(st, RecoveredLength(packet), SourceAddress(Received(packet)))
  }

  function ThenTurn(before: Result, packet: seq<byte>): (r: Result)
    requires before.state.Valid()
    ensures r.state.Valid()
  {
    Then(before, Turn(before.state, packet))
  }

  /** The loop's first n turns. */
  function Turns(st: State, packets: seq<seq<byte>>, n: nat): (r: Result)
    requires st.Valid() && n <= |packets|
    ensures r.state.Valid()
  {
    if n == 0 then Result(st, []) else ThenTurn(Turns(st, packets, n - 1), packets[n - 1])
  }

  lemma {:induction false} TurnsNext(st: State, packets: seq<seq<byte>>, n: nat)
    requires st.Valid() && n < |packets|
    ensures Turns(st, packets, n + 1) == ThenTurn(Turns(st, packets, n), packets[n])
  {
  }

  /** The receiver has made the calls `before` and then those of `done`, and stands where `done` ends. */
  ghost predicate Stands(rx: SmartLinkRx, before: seq<Delivery>, done: Result)
    reads rx, rx.buffer, rx.sourceAddr
  {
    rx.Valid() && rx.View() == done.state && rx.calls == before + done.calls
  }

  /** One turn of the loop, with what it has done before as ghost arguments. */
  method ProcessOne(rx: SmartLinkRx, packet: seq<byte>, radiotap: RadiotapInfo,
                    ghost before: seq<Delivery>, ghost done: Result)
    requires Stands(rx, before, done)
    requires radiotap.Valid() && radiotap.saddr != rx.buffer && radiotap.saddr != rx.sourceAddr
    modifies rx`index, rx`sequence, rx`calls, rx.buffer, rx.sourceAddr, radiotap, radiotap.saddr
    ensures radiotap.Valid() && done.state.Valid() && Stands(rx, before, ThenTurn(done, packet))
  {
    var sendlen := ReceiveRawPacket(packet, radiotap);
    if sendlen <= 0 { return; }
    rx.DecodeFrame(sendlen, radiotap);
  }

  /** The same turn counted among those of the whole loop. */
  method ProcessNext(rx: SmartLinkRx, packets: seq<seq<byte>>, i: nat, radiotap: RadiotapInfo,
                     ghost before: seq<Delivery>, ghost st: State, ghost done: Result) returns (ghost next: Result)
    requires i < |packets| && st.Valid() && done == Turns(st, packets, i) && Stands(rx, before, done)
    requires radiotap.Valid() && radiotap.saddr != rx.buffer && radiotap.saddr != rx.sourceAddr
    modifies rx`index, rx`sequence, rx`calls, rx.buffer, rx.sourceAddr, radiotap, radiotap.saddr
    ensures radiotap.Valid() && next == Turns(st, packets, i + 1) && Stands(rx, before, next)
  {
    ProcessOne(rx, packets[i], radiotap, before, done);
    TurnsNext(st, packets, i);
    next := Turns(st, packets, i + 1);
  }

  method Loop(rx: SmartLinkRx, packets: seq<seq<byte>>, radiotap: RadiotapInfo,
              ghost before: seq<Delivery>, ghost none: Result) returns (ghost done: Result)
    requires none.state.Valid() && none.calls == [] && Stands(rx, before, none)
    requires radiotap.Valid() && radiotap.saddr != rx.buffer && radiotap.saddr != rx.sourceAddr
    modifies rx`index, rx`sequence, rx`calls, rx.buffer, rx.sourceAddr, radiotap, radiotap.saddr
    ensures done == Turns(none.state, packets, |packets|) && Stands(rx, before, done)
  {
    done := none;
    var i := 0;
    while i < |packets|
      invariant 0 <= i <= |packets| && radiotap.Valid()
      invariant done == Turns(none.state, packets, i) && Stands(rx, before, done)
    {
      done := ProcessNext(rx, packets, i, radiotap, before, none.state, done);
      i := i + 1;
    }
  }

  /** The receive loop over everything that is captured. */
  method Process(rx: SmartLinkRx, packets: seq<seq<byte>>)
    requires rx.Valid()
    modifies rx`index, rx`sequence, rx`calls, rx.buffer, rx.sourceAddr
    ensures rx.Valid() && Stands(rx, old(rx.calls), Turns(old(rx.View()), packets, |packets|))
  {
    var radiotap := new RadiotapInfo();
    ghost var none := Result(rx.View(), []);
    ghost var done := Loop(rx, packets, radiotap, rx.calls, none);
  }

  /** Initialisation and then the loop. */
  method Receive(packets: seq<seq<byte>>) returns (rx: SmartLinkRx)
    ensures rx.Valid() && Stands(rx, [], Turns(FreshState(), packets, |packets|))
  {
    rx := new SmartLinkRx();
    Process(rx, packets);
  }

  lemma {:induction false} ThenAssociative(a: Result, b: Result, c: Result)
    ensures Then(a, Then(b, c)) == Then(Then(a, b), c)
  {
  }

  lemma {:induction false} DecodeOneMore(st: State, caps: seq<Capture>, cap: Capture)
    requires st.Valid()
    ensures var before := DecodeAll(st, caps);
            DecodeAll(st, caps + [cap]) == Then(before, Decode(before.state, cap.sendlen, cap.saddr))
    decreases |caps|
  {
    var all := caps + [cap];
    if caps == [] {
      assert all == [cap] && all[1..] == [];
    } else {
      var first := Decode(st, caps[0].sendlen, caps[0].saddr);
      assert all[0] == caps[0] && all[1..] == caps[1..] + [cap];
      DecodeOneMore(first.state, caps[1..], cap);
      var middle := DecodeAll(first.state, caps[1..]);
      ThenAssociative(first, middle, Decode(middle.state, cap.sendlen, cap.saddr));
    }
  }

  lemma {:induction false} TurnDecodes(st: State, before: seq<Capture>, packet: seq<byte>, caps: seq<Capture>)
    requires st.Valid() && caps == before + CapturesOf(packet)
    ensures DecodeAll(st, caps) == ThenTurn(DecodeAll(st, before), packet)
  {
    if RecoveredLength(packet) > 0 {
      DecodeOneMore(st, before, CaptureIn(packet));
    } else {
      assert caps == before;
    }
  }

  /** The loop decodes exactly the captures, in their order. */
  lemma {:induction false} TurnsDecodeCaptures(st: State, packets: seq<seq<byte>>, n: nat, caps: seq<Capture>)
    requires st.Valid() && n <= |packets| && caps == CapturesIn(packets, n)
    ensures Turns(st, packets, n) == DecodeAll(st, caps)
  {
    if n == 0 {
    } else {
      var before, packet := CapturesIn(packets, n - 1), packets[n - 1];
      TurnsDecodeCaptures(st, packets, n - 1, before);
      TurnDecodes(st, before, packet, caps);
    }
  }

  // ---------- a datagram inside a captured frame ----------

  /** A data frame with a radiotap header of at least three bytes around a datagram of `len` bytes. */
  predicate Wraps(packet: seq<byte>, len: int) {
    var l := BitBuffer.ByteAt(packet, 2);
    l >= 3 && BitBuffer.ByteAt(packet, l) == 0x08 && |packet| == l + 76 + len
  }

  /** The parser gives back the length of the datagram in the frame. */
  lemma {:induction false} WrappedLength(packet: seq<byte>, len: int)
    requires Wraps(packet, len) && 0 < len && |packet| <= 1499
    ensures RecoveredLength(packet) == len
    ensures |CaptureIn(packet).saddr| == 6
    ensures var l: nat := packet[2];
            forall i :: 0 <= i < 6 ==> CaptureIn(packet).saddr[i] == packet[l + 16 + i]
  {
    assert Received(packet) == packet;
  }

  function Seen(packet: seq<byte>): seq<byte> {
    CaptureIn(packet).saddr
  }

  /** What is captured, in numbers, for every packet. */
  lemma {:induction false} CapturedInNumbers(packet: seq<byte>)
    ensures packet == [] ==> RecoveredLength(packet) == 0
    ensures 0 < |packet| <= 1499 ==> InNumbers(packet, RecoveredLength(packet), Seen(packet), Seen(packet))
    ensures 1499 < |packet| ==> InNumbers(packet[..1499], RecoveredLength(packet), Seen(packet), Seen(packet))
  {
  }

  /** What is no data frame fails with -1, and a header length below 3 leaves the 802.11 header at byte 3. */
  lemma {:induction false} OtherHeaders(packet: seq<byte>)
    requires 3 < |packet| <= 1499
    ensures var l: nat := packet[2];
            && (3 <= l < |packet| && packet[l] != 0x08 ==> RecoveredLength(packet) == -1)
            && (|packet| <= l ==> RecoveredLength(packet) == -1)
            && (l < 3 && packet[3] != 0x08 ==> RecoveredLength(packet) == -1)
            && (l < 3 && packet[3] == 0x08 ==> RecoveredLength(packet) == |packet| - l - 76)
  {
    assert Received(packet) == packet;
  }

  /** Of two packets with the same first 1499 bytes the same is captured. */
  lemma {:induction false} LongPacketsCut(p: seq<byte>, q: seq<byte>)
    requires |p| >= 1499 && |q| >= 1499 && p[..1499] == q[..1499]
    ensures CaptureIn(p) == CaptureIn(q)
  {
    assert Received(p) == Received(q);
  }

  /** Byte 1498 of a data frame still counts; no byte behind it does. */
  lemma {:induction false} LastByteCounts(packet: seq<byte>)
    requires |packet| >= 1499 && packet[2] >= 3 && packet[packet[2]] == 0x08
    ensures var l: nat := packet[2];
            RecoveredLength(packet) == 1499 - l - 76 && RecoveredLength(packet[..1498]) == 1498 - l - 76
  {
    assert Received(packet) == packet[..1499] && Received(packet[..1498]) == packet[..1498];
  }

  predicate WithinLimit(packets: seq<seq<byte>>) {
    forall t :: 0 <= t < |packets| ==> |packets[t]| <= 1499
  }

  /** The frames that the datagrams sent for a payload are captured in. */
  predicate WrapAll(packets: seq<seq<byte>>, payload: seq<byte>)
    requires |payload| <= 255
  {
    |packets| == |Sent(payload)|
    && forall t :: 0 <= t < |packets| ==> Wraps(packets[t], FrameLength(Stream(payload), t))
  }

  lemma {:induction false} OneCapture(packet: seq<byte>)
    requires RecoveredLength(packet) > 0
    ensures CapturesOf(packet) == [CaptureIn(packet)]
  {
  }

  lemma {:induction false} CapturesOfWrapped(packets: seq<seq<byte>>, n: nat)
    requires n <= |packets| && forall t :: 0 <= t < n ==> RecoveredLength(packets[t]) > 0
    ensures |CapturesIn(packets, n)| == n
    ensures forall t :: 0 <= t < n ==> CapturesIn(packets, n)[t] == CaptureIn(packets[t])
  {
    if n == 0 {
    } else {
      CapturesOfWrapped(packets, n - 1);
      OneCapture(packets[n - 1]);
    }
  }

  /** Short payloads behind short headers stay within the receive limit. */
  lemma {:induction false} ShortFramesFit(packets: seq<seq<byte>>, payload: seq<byte>)
    requires |payload| <= 255 && (|payload| <= 38 || |payload| >= 254) && WrapAll(packets, payload)
    requires forall t :: 0 <= t < |packets| ==> BitBuffer.ByteAt(packets[t], 2) <= 120
    ensures WithinLimit(packets)
  {
    ShortPayloadsFit(payload);
    forall t | 0 <= t < |packets| ensures |packets[t]| <= 1499 {
      assert FrameLength(Stream(payload), t) <= 1303;
    }
  }

  /** The source address in the last captured frame. */
  function LastSource(packets: seq<seq<byte>>): seq<byte>
  {
    if packets == [] then [] else CaptureIn(packets[|packets| - 1]).saddr
  }

  lemma {:induction false} WrappedFrame(packet: seq<byte>, ns: seq<nibble>, t: nat)
    requires t < |ns| && Wraps(packet, FrameLength(ns, t)) && |packet| <= 1499
    ensures RecoveredLength(packet) == FrameLength(ns, t) > 0
  {
    LengthCarriesTagAndData(ns, t);
    WrappedLength(packet, FrameLength(ns, t));
  }

  lemma {:induction false} WrappedCapture(packets: seq<seq<byte>>, payload: seq<byte>, t: nat)
    requires |payload| <= 255 && WrapAll(packets, payload) && WithinLimit(packets) && t < |packets|
    ensures RecoveredLength(packets[t]) == FrameLength(Stream(payload), t) > 0
  {
    WrappedFrame(packets[t], Stream(payload), t);
  }

  lemma {:induction false} SentCarry(packets: seq<seq<byte>>, payload: seq<byte>, caps: seq<Capture>)
    requires |payload| <= 255 && |packets| == |Sent(payload)| && |caps| == |packets|
    requires forall t :: 0 <= t < |caps| ==> caps[t] == CaptureIn(packets[t])
    requires forall t :: 0 <= t < |packets| ==> RecoveredLength(packets[t]) == FrameLength(Stream(payload), t)
    ensures Carry(caps, payload, |Sent(payload)|)
  {
    forall t | 0 <= t < |caps| ensures caps[t].sendlen == FrameLength(Stream(payload), t) {
      assert caps[t] == CaptureIn(packets[t]);
    }
  }

  lemma {:induction false} WrappedCarry(packets: seq<seq<byte>>, payload: seq<byte>, caps: seq<Capture>)
    requires |payload| <= 255 && WrapAll(packets, payload) && WithinLimit(packets)
    requires caps == CapturesIn(packets, |packets|)
    ensures Carry(caps, payload, |Sent(payload)|)
    ensures caps != [] ==> caps[|caps| - 1].saddr == LastSource(packets)
  {
    forall t | 0 <= t < |packets| ensures RecoveredLength(packets[t]) == FrameLength(Stream(payload), t) > 0 {
      WrappedCapture(packets, payload, t);
    }
    CapturesOfWrapped(packets, |packets|);
    SentCarry(packets, payload, caps);
  }

  /** When the run stops at its last capture there is exactly one callback. */
  lemma {:induction false} CallsOfFinalDelivery(st: State, caps: seq<Capture>)
    requires st.Valid() && RunRx(st, caps).CalledBack? && RunRx(st, caps).rest == []
    ensures DecodeAll(st, caps).calls == [RunRx(st, caps).d]
    decreases |caps|
  {
    var r := Decode(st, caps[0].sendlen, caps[0].saddr);
    if r.calls != [] {
    } else {
      CallsOfFinalDelivery(r.state, caps[1..]);
    }
  }

  lemma {:induction false} FinalCall(st: State, caps: seq<Capture>, payload: seq<byte>)
    requires st.Valid() && DeliversLast(RunRx(st, caps), payload, caps)
    ensures DecodeAll(st, caps).calls == [Arrived(payload, caps[|caps| - 1].saddr)]
  {
    CallsOfFinalDelivery(st, caps);
  }

  lemma {:induction false} NotBrought(st: State, caps: seq<Capture>, payload: seq<byte>)
    requires Ring.Zeroed(st) && |payload| <= 255 && Carry(caps, payload, |Sent(payload)|)
    requires !(1 <= |payload| <= 253 && NoEarlyFlag(payload))
    ensures !Resync.Brings(RunRx(st, caps), payload)
  {
    if 1 <= |payload| <= 253 {
      SentWhole(payload);
      CarriedFrames(caps, payload, |Sent(payload)|);
      Resync.EarlyRound(st, payload, caps);
    } else {
      Resync.EndlessRound(st, payload, caps);
    }
  }

  /** What was sent makes one callback, with the payload, or its first callback does not bring it. */
  lemma {:induction false} OnlyCallIff(st: State, caps: seq<Capture>, payload: seq<byte>, mac: seq<byte>)
    requires Ring.Zeroed(st) && |payload| <= 255 && Carry(caps, payload, |Sent(payload)|)
    requires caps != [] ==> caps[|caps| - 1].saddr == mac
    ensures DecodeAll(st, caps).calls == [Arrived(payload, mac)] <==> 1 <= |payload| <= 253 && NoEarlyFlag(payload)
  {
    if 1 <= |payload| <= 253 && NoEarlyFlag(payload) {
      ZeroedTransferIff(st, payload, caps);
      FinalCall(st, caps, payload);
    } else {
      NotBrought(st, caps, payload);
      FirstCall(st, caps);
    }
  }

  /** Radio to callback, for every 8-bit size: over the captured frames of a lossless transmission the loop
      calls back exactly once, with the payload and the address in the last frame, if and only if the
      payload has 1 to 253 bytes and no early flag. */
  lemma {:induction false} FullStackDeliversIff(packets: seq<seq<byte>>, payload: seq<byte>)
    requires |payload| <= 255 && WrapAll(packets, payload) && WithinLimit(packets)
    ensures Turns(FreshState(), packets, |packets|).calls == [Arrived(payload, LastSource(packets))] <==>
              1 <= |payload| <= 253 && NoEarlyFlag(payload)
  {
    var caps := CapturesIn(packets, |packets|);
    WrappedCarry(packets, payload, caps);
    OnlyCallIff(FreshState(), caps, payload, LastSource(packets));
    TurnsDecodeCaptures(FreshState(), packets, |packets|, caps);
  }

  /** Up to 38 bytes behind headers of up to 120 bytes nothing more is needed. */
  lemma {:induction false} ShortFullStackDeliversIff(packets: seq<seq<byte>>, payload: seq<byte>)
    requires |payload| <= 255 && (|payload| <= 38 || |payload| >= 254) && WrapAll(packets, payload)
    requires forall t :: 0 <= t < |packets| ==> BitBuffer.ByteAt(packets[t], 2) <= 120
    ensures Turns(FreshState(), packets, |packets|).calls == [Arrived(payload, LastSource(packets))] <==>
              1 <= |payload| <= 38 && NoEarlyFlag(payload)
  {
    ShortFramesFit(packets, payload);
    FullStackDeliversIff(packets, payload);
  }

  // ---------- any traffic ----------

  /** What the decoder gets to see of all captured frames. */
  function AllCaptures(packets: seq<seq<byte>>): seq<Capture> {
    CapturesIn(packets, |packets|)
  }

  function FramesHeard(packets: seq<seq<byte>>): set<Frame> {
    set i | 0 <= i < |packets| && RecoveredLength(packets[i]) > 0 :: FrameIn(RecoveredLength(packets[i]))
  }

  lemma {:induction false} CapturesFrom(packets: seq<seq<byte>>, n: nat, air: set<Frame>)
    requires n <= |packets|
    requires forall i :: 0 <= i < n && RecoveredLength(packets[i]) > 0 ==> FrameIn(RecoveredLength(packets[i])) in air
    ensures From(Frames(CapturesIn(packets, n)), air)
  {
    if n == 0 {
    } else {
      CapturesFrom(packets, n - 1, air);
    }
  }

  lemma {:induction false} HeardFrom(packets: seq<seq<byte>>, air: set<Frame>)
    requires FramesHeard(packets) <= air
    ensures From(Frames(AllCaptures(packets)), air)
  {
    forall i | 0 <= i < |packets| && RecoveredLength(packets[i]) > 0
      ensures FrameIn(RecoveredLength(packets[i])) in air
    {
      assert FrameIn(RecoveredLength(packets[i])) in FramesHeard(packets);
    }
    CapturesFrom(packets, |packets|, air);
  }

  /** The longest datagram whose captured frame is not cut, behind the shortest header. */
  const HEARD_MAX: nat := 1423

  /** Some length that can be heard shows the frame. */
  predicate Hearable(f: Frame) {
    exists len: nat :: 0 < len <= HEARD_MAX && FrameIn(len) == f
  }

  /** A data frame with no radiotap header around a datagram of `len` bytes. */
  function BarePacket(len: nat): (packet: seq<byte>)
    ensures |packet| == len + FRAME_OVERHEAD
  {
    [0, 0, 0, TYPE_DATA] + seq(len + FRAME_OVERHEAD - 4, _ => 0)
  }

  lemma {:induction false} BarePacketLength(len: nat)
    requires 0 < len <= HEARD_MAX
    ensures RecoveredLength(BarePacket(len)) == len
  {
    assert Received(BarePacket(len)) == BarePacket(len);
  }

  /** Exactly the hearable frames are heard in some captured frame. */
  lemma {:induction false} HearableIff(f: Frame)
    ensures Hearable(f) <==> exists packet :: RecoveredLength(packet) > 0 && FrameIn(RecoveredLength(packet)) == f
  {
    if Hearable(f) {
      var len: nat :| 0 < len <= HEARD_MAX && FrameIn(len) == f;
      BarePacketLength(len);
    }
    if packet :| RecoveredLength(packet) > 0 && FrameIn(RecoveredLength(packet)) == f {
      assert RecoveredLength(packet) <= HEARD_MAX;
    }
  }

  lemma {:induction false} HearableLength(ns: seq<nibble>, t: nat) returns (len: nat)
    requires t < |ns| <= 80
    ensures 0 < len <= HEARD_MAX && FrameIn(len) == FrameOf(ns, t)
  {
    LengthCarriesTagAndData(ns, t);
    LengthBefore80(ns, t);
    len := FrameLength(ns, t);
  }

  /** The datagrams sent for payloads of up to 38 bytes can be heard. */
  lemma {:induction false} ShortFramesHearable(payload: seq<byte>)
    requires |payload| <= 255 && (|payload| <= 38 || |payload| >= 254)
    ensures forall f :: f in FramesOf(Sent(payload)) ==> Hearable(f)
  {
    var ns := Sent(payload);
    ShortSent(payload);
    forall t | 0 <= t < |ns| ensures Hearable(FrameOf(ns, t)) {
      var len: nat := HearableLength(ns, t);
      assert FrameIn(len) == FrameOf(ns, t);
    }
  }

  lemma {:induction false} PacketFor(f: Frame) returns (packet: seq<byte>)
    requires Hearable(f)
    ensures RecoveredLength(packet) > 0 && FrameIn(RecoveredLength(packet)) == f
  {
    var len: nat :| 0 < len <= HEARD_MAX && FrameIn(len) == f;
    BarePacketLength(len);
    packet := BarePacket(len);
  }

  /** Captured frames that show the given frames one by one. */
  lemma {:induction false} PacketsFor(fs: seq<Frame>) returns (packets: seq<seq<byte>>)
    requires forall i :: 0 <= i < |fs| ==> Hearable(fs[i])
    ensures |packets| == |fs|
    ensures forall i :: 0 <= i < |fs| ==>
              RecoveredLength(packets[i]) > 0 && FrameIn(RecoveredLength(packets[i])) == fs[i]
    decreases |fs|
  {
    if fs == [] {
      packets := [];
    } else {
      var n := |fs| - 1;
      var front := PacketsFor(fs[..n]);
      var last := PacketFor(fs[n]);
      packets := front + [last];
    }
  }

  lemma {:induction false} HeardPackets(fs: seq<Frame>, air: set<Frame>) returns (packets: seq<seq<byte>>)
    requires From(fs, air) && forall f :: f in air ==> Hearable(f)
    ensures FramesHeard(packets) <= air && Frames(AllCaptures(packets)) == fs
  {
    packets := PacketsFor(fs);
    CapturesOfWrapped(packets, |packets|);
    assert forall t :: 0 <= t < |fs| ==> Frames(AllCaptures(packets))[t] == fs[t];
  }

  /** The loop has stored a prefix of what was sent, or its first callback brings the payload with the
      address of the capture that completed it. */
  predicate LoopSafe(r: Result, rx: RxOutcome, payload: seq<byte>, caps: seq<Capture>)
    requires |payload| <= 255
  {
    if r.calls == [] then r.state.Valid() && Stored(r.state) <= Sent(payload)
    else rx.CalledBack? && |rx.rest| < |caps| && r.calls[0] == Arrived(payload, StoppedBy(caps, |rx.rest|))
  }

  lemma {:induction false} LoopSafeIffRxSafe(st: State, packets: seq<seq<byte>>, payload: seq<byte>, caps: seq<Capture>)
    requires st.Valid() && |payload| <= 255 && caps == AllCaptures(packets)
    ensures LoopSafe(Turns(st, packets, |packets|), RunRx(st, caps), payload, caps) <==>
              RxSafe(RunRx(st, caps), payload, caps)
  {
    FirstCall(st, caps);
    TurnsDecodeCaptures(st, packets, |packets|, caps);
  }

  /** Whatever is captured of what is in the air leaves the loop safe. */
  ghost predicate LoopSafeAmong(payload: seq<byte>, air: set<Frame>)
    requires |payload| <= 255
  {
    forall packets :: FramesHeard(packets) <= air ==>
      LoopSafe(Turns(FreshState(), packets, |packets|), RunRx(FreshState(), AllCaptures(packets)), payload,
               AllCaptures(packets))
  }

  /** Any harmless traffic at all leaves the loop safe. */
  lemma {:induction false} AnyTrafficSafe(st: State, packets: seq<seq<byte>>, payload: seq<byte>, caps: seq<Capture>)
    requires Ring.Zeroed(st) && |payload| <= 255 && (|payload| <= 253 ==> NoEarlyFlag(payload))
    requires AllHarmless(FramesHeard(packets), Sent(payload)) && caps == AllCaptures(packets)
    ensures LoopSafe(Turns(st, packets, |packets|), RunRx(st, caps), payload, caps)
  {
    SentEnds(payload);
    HeardFrom(packets, FramesHeard(packets));
    SafeCaptures(st, payload, caps, FramesHeard(packets));
    LoopSafeIffRxSafe(st, packets, payload, caps);
  }

  lemma {:induction false} UnsafeTraffic(payload: seq<byte>, air: set<Frame>)
    returns (packets: seq<seq<byte>>)
    requires |payload| <= 255 && FramesOf(Sent(payload)) <= air && forall f :: f in air ==> Hearable(f)
    requires !(NoEarlyEnd(Sent(payload)) && AllHarmless(air, Sent(payload)))
    ensures FramesHeard(packets) <= air
    ensures forall st :: Ring.Zeroed(st) ==>
              !LoopSafe(Turns(st, packets, |packets|), RunRx(st, AllCaptures(packets)), payload, AllCaptures(packets))
  {
    SentEnds(payload);
    var fs := BreakingRun(Sent(payload), air);
    packets := HeardPackets(fs, air);
    var caps := AllCaptures(packets);
    forall st | Ring.Zeroed(st) ensures !LoopSafe(Turns(st, packets, |packets|), RunRx(st, caps), payload, caps) {
      UnsafeCaptures(st, payload, caps);
      LoopSafeIffRxSafe(st, packets, payload, caps);
    }
  }

  /** Radio to memory and callback, exactly, for every 8-bit size and any frames that can be heard: the loop
      is safe whatever is captured if and only if the payload, when it is sent whole, has no early flag and
      all frames in the air are harmless. */
  lemma {:induction false} FullStackSafeIff(payload: seq<byte>, air: set<Frame>)
    requires |payload| <= 255 && FramesOf(Sent(payload)) <= air && forall f :: f in air ==> Hearable(f)
    ensures LoopSafeAmong(payload, air) <==>
              (|payload| <= 253 ==> NoEarlyFlag(payload)) && AllHarmless(air, Sent(payload))
  {
    SentEnds(payload);
    if NoEarlyEnd(Sent(payload)) && AllHarmless(air, Sent(payload)) {
      forall packets | FramesHeard(packets) <= air
        ensures LoopSafe(Turns(FreshState(), packets, |packets|), RunRx(FreshState(), AllCaptures(packets)), payload,
                         AllCaptures(packets))
      {
        AnyTrafficSafe(FreshState(), packets, payload, AllCaptures(packets));
      }
    } else {
      var packets := UnsafeTraffic(payload, air);
    }
  }

  lemma {:induction false} SplitFrom(caps: seq<Capture>, m: nat, air: set<Frame>)
    requires m <= |caps| && From(Frames(caps), air)
    ensures caps[..m] + caps[m..] == caps && From(Frames(caps[..m]), air) && From(Frames(caps[m..]), air)
  {
    forall i | 0 <= i < m ensures Frames(caps[..m])[i] in air {
      assert Frames(caps)[i] in air;
    }
    forall i | 0 <= i < |caps| - m ensures Frames(caps[m..])[i] in air {
      assert Frames(caps)[m + i] in air;
    }
  }

  /** The loop's first callback is the one the run stops at, and brings the payload with the address of
      the capture that completed it. */
  predicate FirstCallBrings(calls: seq<Delivery>, rx: RxOutcome, payload: seq<byte>, caps: seq<Capture>) {
    RxDelivers(rx, payload, caps) && calls != [] && calls[0] == rx.d
  }

  /** Once the captures from the m-th on hold a complete round of the message, the loop has called back,
      first of all with the payload. */
  lemma {:induction false} AnyTrafficRecovers(
    st: State, packets: seq<seq<byte>>, payload: seq<byte>, caps: seq<Capture>, m: nat)
    requires Ring.Zeroed(st) && |payload| <= 255 && Resync.Recoverable(payload, FramesHeard(packets))
    requires caps == AllCaptures(packets) && m <= |caps| && CompleteRound(Frames(caps[m..]), Sent(payload))
    ensures FirstCallBrings(Turns(st, packets, |packets|).calls, RunRx(st, caps), payload, caps)
  {
    SentEnds(payload);
    HeardFrom(packets, FramesHeard(packets));
    SplitFrom(caps, m, FramesHeard(packets));
    Resync.ToldRun(st, payload, caps[..m], caps[m..], FramesHeard(packets));
    FirstCall(st, caps);
    TurnsDecodeCaptures(st, packets, |packets|, caps);
  }

  /** Whatever is captured of what is in the air, a complete round in it makes the first callback bring the payload. */
  ghost predicate LoopRecoversAmong(payload: seq<byte>, air: set<Frame>)
    requires |payload| <= 255
  {
    forall packets, m ::
      FramesHeard(packets) <= air && 0 <= m <= |AllCaptures(packets)|
      && CompleteRound(Frames(AllCaptures(packets)[m..]), Sent(payload)) ==>
        FirstCallBrings(Turns(FreshState(), packets, |packets|).calls, RunRx(FreshState(), AllCaptures(packets)),
                        payload, AllCaptures(packets))
  }

  lemma {:induction false} MissedTraffic(payload: seq<byte>, air: set<Frame>) returns (packets: seq<seq<byte>>, m: nat)
    requires |payload| <= 255 && FramesOf(Sent(payload)) <= air && forall f :: f in air ==> Hearable(f)
    requires !Resync.Recoverable(payload, air)
    ensures FramesHeard(packets) <= air && m <= |AllCaptures(packets)|
    ensures CompleteRound(Frames(AllCaptures(packets)[m..]), Sent(payload))
    ensures !Resync.Brings(RunRx(FreshState(), AllCaptures(packets)), payload)
  {
    var ns := Sent(payload);
    var before := Resync.SpoiledHistory(payload, air);
    LosslessIsCompleteRound(ns);
    assert From(before + Lossless(ns), air);
    packets := HeardPackets(before + Lossless(ns), air);
    m := |before|;
    assert Frames(AllCaptures(packets)[m..]) == Lossless(ns);
  }

  /** Radio to callback under loss, exactly, for every 8-bit size and any frames that can be heard. */
  lemma {:induction false} FullStackRecoversIff(payload: seq<byte>, air: set<Frame>)
    requires |payload| <= 255 && FramesOf(Sent(payload)) <= air && forall f :: f in air ==> Hearable(f)
    ensures LoopRecoversAmong(payload, air) <==> Resync.Recoverable(payload, air)
  {
    if Resync.Recoverable(payload, air) {
      forall packets, m | FramesHeard(packets) <= air && 0 <= m <= |AllCaptures(packets)|
        && CompleteRound(Frames(AllCaptures(packets)[m..]), Sent(payload))
        ensures FirstCallBrings(Turns(FreshState(), packets, |packets|).calls,
                                RunRx(FreshState(), AllCaptures(packets)), payload, AllCaptures(packets))
      {
        AnyTrafficRecovers(FreshState(), packets, payload, AllCaptures(packets), m);
      }
    } else {
      var packets, m := MissedTraffic(payload, air);
    }
  }

  /** For up to 38 bytes, with only the message's own frames in the air, both come down to equal tags that
      carry equal nibbles. */
  lemma {:induction false} ShortTrafficIff(payload: seq<byte>)
    requires |payload| <= 38
    ensures LoopSafeAmong(payload, FramesOf(Sent(payload))) <==> NoEarlyFlag(payload) && TagConsistent(Sent(payload))
    ensures LoopRecoversAmong(payload, FramesOf(Sent(payload))) <==>
              1 <= |payload| && NoEarlyFlag(payload) && TagConsistent(Sent(payload))
  {
    ShortFramesHearable(payload);
    FullStackSafeIff(payload, FramesOf(Sent(payload)));
    SentFramesHarmless(payload);
    FullStackRecoversIff(payload, FramesOf(Sent(payload)));
    SentEnds(payload);
    Resync.OwnFramesTolerable(Sent(payload));
  }
}
