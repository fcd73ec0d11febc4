/** The receiver's runs up to the first callback: they follow the nibble chain, so what holds of the
    chain holds of the bytes that are stored and delivered. */
module Transfer {
  import opened Bits
  import opened Message
  import opened Chain
  import opened Receiver
  import opened Ring
  import Sender

  /** The most nibbles the byte index can count before it wraps. */
  const MAX_NIBBLES := 511

  function Frames(caps: seq<Capture>): (fs: seq<Frame>)
    ensures |fs| == |caps| && forall i :: 0 <= i < |caps| ==> fs[i] == FrameIn(caps[i].sendlen)
  {
    seq(|caps|, i requires 0 <= i < |caps| => FrameIn(caps[i].sendlen))
  }

  // ---------- the ring as a chain, on its first pass ----------

  /** Behind the write head the ring is zero, but for what a reset has left in its first place. */
  function NibbleAt(c: Chain, j: nat): nibble {
    if j < |c.nibbles| then c.nibbles[j] else if j == 0 then c.stale else 0
  }

  predicate Follows(r: Ring, c: Chain) {
    && r.Valid() && |c.nibbles| <= MAX_NIBBLES && r.at == |c.nibbles|
    && forall j :: 0 <= j < RING_SIZE ==> r.nibbles[j] == NibbleAt(c, j)
  }

  /** The whole bytes of a nibble sequence, from byte 1 up to the one before the last. */
  function PayloadOf(ns: seq<nibble>): (p: seq<byte>)
    requires |ns| >= 4
    ensures |p| == |ns| / 2 - 2
    ensures forall i :: 0 <= i < |p| ==> p[i] == Join(ns[2 * i + 2], ns[2 * i + 3])
  {
    seq<byte>(|ns| / 2 - 2, i requires 0 <= i < |ns| / 2 - 2 => Join(ns[2 * i + 2], ns[2 * i + 3]))
  }

  lemma {:induction false} AwaitsIffAccepts(r: Ring, c: Chain, f: Frame)
    requires Follows(r, c)
    ensures Awaits(r, f.tag) <==> Accepts(c, f)
  {
    assert LastNibble(r) == PreviousNibble(c.nibbles, |c.nibbles|);
  }

  lemma {:induction false} DroppedFollows(r: Ring, c: Chain, f: Frame)
    requires Follows(r, c) && !Accepts(c, f)
    ensures Follows(Dropped(r, f.data), Step(c, f))
  {
  }

  lemma {:induction false} StepNibbles(c: Chain, f: Frame)
    requires Accepts(c, f)
    ensures |Step(c, f).nibbles| == |c.nibbles| + 1
    ensures forall j: nat :: NibbleAt(Step(c, f), j)
                          == if j == |c.nibbles| then OrNibbles(NibbleAt(c, j), f.data) else NibbleAt(c, j)
  {
  }

  lemma {:induction false} AddedNibbles(r: Ring, c: Chain, f: Frame, ns: seq<nibble>, c': Chain)
    requires Follows(r, c) && |c.nibbles| < MAX_NIBBLES && c' == Step(c, f)
    requires ns == r.nibbles[r.at := OrNibbles(r.nibbles[r.at], f.data)]
    requires forall j: nat :: NibbleAt(c', j)
                           == if j == |c.nibbles| then OrNibbles(NibbleAt(c, j), f.data) else NibbleAt(c, j)
    ensures forall j :: 0 <= j < RING_SIZE ==> ns[j] == NibbleAt(c', j)
  {
  }

  /** On the first pass the place at the head is zero, so that or-ing stores; in the first place it ors
      onto what a reset has left. */
  lemma {:induction false} AddedFollows(r: Ring, c: Chain, f: Frame)
    requires Follows(r, c) && Accepts(c, f) && |c.nibbles| < MAX_NIBBLES
    ensures Follows(Added(r, f.data), Step(c, f)) && |Step(c, f).nibbles| == |c.nibbles| + 1
  {
    var r', c' := Added(r, f.data), Step(c, f);
    assert r'.at == |c.nibbles| + 1 && |c'.nibbles| == |c.nibbles| + 1 by { StepNibbles(c, f); }
    assert forall j :: 0 <= j < RING_SIZE ==> r'.nibbles[j] == NibbleAt(c', j) by {
      StepNibbles(c, f);
      AddedNibbles(r, c, f, r'.nibbles, c');
    }
  }

  /** The ring behind the callback: it stands where it stood, with the end flag cleared and zeros behind. */
  predicate Spent(r: Ring, ns: seq<nibble>) {
    && r.Valid() && r.at == |ns| && |ns| >= 6
    && forall j :: 0 <= j < RING_SIZE ==> r.nibbles[j] == if j < |ns| - 2 then ns[j] else 0
  }

  /** What a step promises: the callback's bytes when the chain fires, the chain's next state otherwise. */
  predicate StepAgrees(g: RingResult, c: Chain, c': Chain, saddr: seq<byte>) {
    if Fires(c, c')
    then g.calls == [Delivery(saddr, PayloadOf(c'.nibbles) + [0, 0], |c'.nibbles| / 2)] && Spent(g.ring, c'.nibbles)
    else g.calls == [] && Follows(g.ring, c')
  }

  lemma {:induction false} ClearedNibbles(r: Ring, c: Chain, i: nat)
    requires Follows(r, c) && 6 <= |c.nibbles| && |c.nibbles| % 2 == 0 && i < r.at / 2
    ensures var cleared := r.nibbles[r.at - 2 := 0][r.at - 1 := 0];
            if i < r.at / 2 - 2
            then cleared[2 * i + 2] == c.nibbles[2 * i + 2] && cleared[2 * i + 3] == c.nibbles[2 * i + 3]
            else cleared[2 * i + 2] == 0 && cleared[2 * i + 3] == 0
  {
    assert r.nibbles[2 * i + 2] == NibbleAt(c, 2 * i + 2) && r.nibbles[2 * i + 3] == NibbleAt(c, 2 * i + 3);
  }

  /** The callback sees the payload and two zeros: the cleared flag and one byte behind it. */
  lemma {:induction false} CallBytes(r: Ring, c: Chain)
    requires Follows(r, c) && 6 <= |c.nibbles| && |c.nibbles| % 2 == 0
    ensures BytesOf(r.nibbles[r.at - 2 := 0][r.at - 1 := 0], r.at / 2) == PayloadOf(c.nibbles) + [0, 0]
  {
    var n, cleared, p := r.at / 2, r.nibbles[r.at - 2 := 0][r.at - 1 := 0], PayloadOf(c.nibbles);
    forall i | 0 <= i < n ensures BytesOf(cleared, n)[i] == (p + [0, 0])[i] {
      ClearedNibbles(r, c, i);
    }
  }

  lemma {:induction false} ClosedFollows(r: Ring, c: Chain, c': Chain, saddr: seq<byte>)
    requires Follows(r, c') && |c'.nibbles| > |c.nibbles|
    ensures StepAgrees(Closed(r, saddr), c, c', saddr)
  {
    if Fires(c, c') {
      CallBytes(r, c');
      forall j | 0 <= j < RING_SIZE
        ensures Closed(r, saddr).ring.nibbles[j] == if j < |c'.nibbles| - 2 then c'.nibbles[j] else 0
      {
        assert r.nibbles[j] == NibbleAt(c', j);
      }
    }
  }

  lemma {:induction false} StepFollows(r: Ring, c: Chain, f: Frame, saddr: seq<byte>)
    requires Follows(r, c) && |Step(c, f).nibbles| <= MAX_NIBBLES
    ensures StepAgrees(RingStep(r, f, saddr), c, Step(c, f), saddr)
  {
    AwaitsIffAccepts(r, c, f);
    if Accepts(c, f) {
      AddedFollows(r, c, f);
      ClosedFollows(Added(r, f.data), c, Step(c, f), saddr);
    } else {
      DroppedFollows(r, c, f);
    }
  }

  // ---------- runs ----------

  predicate Represents(st: State, c: Chain) {
    InStep(st) && Follows(RingOf(st), c)
  }

  lemma {:induction false} FreshRepresents(st: State, c: Chain)
    requires Zeroed(st) && c.nibbles == [] && c.stale == 0
    ensures Represents(st, c)
  {
    FreshRing(st);
  }

  /** A run of the decoder goes up to the first callback; `st` is the state it ends in. */
  datatype RxOutcome = Listening(st: State) | CalledBack(st: State, d: Delivery, rest: seq<Capture>)

  function RunRx(st: State, caps: seq<Capture>): (rx: RxOutcome)
    requires st.Valid()
    ensures rx.st.Valid() && (rx.CalledBack? ==> |rx.rest| < |caps|)
    decreases |caps|
  {
    if caps == [] then Listening(st)
    else
      var r := Decode(st, caps[0].sendlen, caps[0].saddr);
      if r.calls != [] then CalledBack(r.state, r.calls[0], caps[1..]) else RunRx(r.state, caps[1..])
  }

  /** The first callback of all is the one the run stops at. */
  lemma {:induction false} FirstCall(st: State, caps: seq<Capture>)
    requires st.Valid()
    ensures match RunRx(st, caps)
            case Listening(st') => DecodeAll(st, caps) == Result(st', [])
            case CalledBack(_, d, _) => DecodeAll(st, caps).calls != [] && DecodeAll(st, caps).calls[0] == d
    decreases |caps|
  {
    if caps == [] {
    } else {
      var r := Decode(st, caps[0].sendlen, caps[0].saddr);
      if r.calls == [] { FirstCall(r.state, caps[1..]); }
    }
  }

  /** The address of the capture at which a run stopped. */
  function StoppedBy(caps: seq<Capture>, rest: nat): seq<byte>
    requires rest < |caps|
  {
    caps[|caps| - 1 - rest].saddr
  }

  /** The two outcomes tell the same story. */
  predicate SameOutcome(rx: RxOutcome, o: Outcome, caps: seq<Capture>) {
    match o
    case Waiting(c) => rx.Listening? && Represents(rx.st, c)
    case Delivered(ns, rest) =>
      && |ns| >= 6 && |rest| < |caps| && rx.CalledBack? && |rx.rest| == |rest|
      && rx.d == Delivery(StoppedBy(caps, |rest|), PayloadOf(ns) + [0, 0], |ns| / 2)
      && InStep(rx.st) && Spent(RingOf(rx.st), ns)
  }

  lemma {:induction false} SameOutcomeLater(rx: RxOutcome, o: Outcome, caps: seq<Capture>)
    requires caps != [] && SameOutcome(rx, o, caps[1..])
    ensures SameOutcome(rx, o, caps)
  {
  }

  /** No intermediate state holds more than the final one, a first nibble aside. */
  lemma {:induction false} HeldGrows(c: Chain, fs: seq<Frame>)
    requires fs != []
    ensures |Step(c, fs[0]).nibbles| <= |Held(Run(c, fs))| || |Step(c, fs[0]).nibbles| <= 1
  {
    var c' := Step(c, fs[0]);
    RunStep(c, fs);
    if !Fires(c, c') && |c'.nibbles| >= 2 { RunOfAccepted(c', fs[1..]); }
  }

  /** On arbitrary captures the decoder does what the chain does, up to the first callback, as long as
      the nibbles fit its index. */
  lemma {:induction false} RunFollowsChain(st: State, c: Chain, caps: seq<Capture>)
    requires Represents(st, c) && |Held(Run(c, Frames(caps)))| <= MAX_NIBBLES
    ensures SameOutcome(RunRx(st, caps), Run(c, Frames(caps)), caps)
    decreases |caps|
  {
    if caps == [] {
    } else {
      var fs, tail := Frames(caps), caps[1..];
      var c', r := Step(c, fs[0]), Decode(st, caps[0].sendlen, caps[0].saddr);
      assert fs[1..] == Frames(tail);
      RunStep(c, fs);
      HeldGrows(c, fs);
      StepRefines(st, caps[0].sendlen, caps[0].saddr);
      StepFollows(RingOf(st), c, fs[0], caps[0].saddr);
      if !Fires(c, c') {
        RunFollowsChain(r.state, c', tail);
        SameOutcomeLater(RunRx(r.state, tail), Run(c', Frames(tail)), caps);
      }
    }
  }

  lemma {:induction false} ZeroedRunFollows(st: State, c: Chain, caps: seq<Capture>)
    requires Zeroed(st) && c.nibbles == [] && c.stale == 0
    requires |Held(Run(c, Frames(caps)))| <= MAX_NIBBLES
    ensures SameOutcome(RunRx(st, caps), Run(c, Frames(caps)), caps)
  {
    FreshRepresents(st, c);
    RunFollowsChain(st, c, caps);
  }

  /** The nibbles in front of the write head. */
  function Stored(st: State): seq<nibble>
    requires st.Valid()
  {
    RingOf(st).nibbles[..Place(st)]
  }

  lemma {:induction false} StoredIsChain(st: State, c: Chain)
    requires Represents(st, c)
    ensures Stored(st) == c.nibbles
  {
    var ns := RingOf(st).nibbles;
    forall j | 0 <= j < |c.nibbles| ensures Stored(st)[j] == c.nibbles[j] {
      assert ns[j] == NibbleAt(c, j);
    }
  }

  // ---------- what the callback brings ----------

  /** What the callback should get for a payload: the payload, a NUL and one more zero. */
  function Arrived(payload: seq<byte>, mac: seq<byte>): Delivery {
    Delivery(mac, payload + [0, 0], |payload| + 2)
  }

  lemma {:induction false} StreamByte(payload: seq<byte>, i: nat)
    requires i < |payload|
    ensures Join(Stream(payload)[2 * i + 2], Stream(payload)[2 * i + 3]) == payload[i]
  {
    NibblePair(Framed(payload), i + 1);
    JoinHalves(payload[i]);
  }

  lemma {:induction false} PayloadOfStream(payload: seq<byte>)
    ensures PayloadOf(Stream(payload)) == payload
  {
    forall i | 0 <= i < |payload| ensures PayloadOf(Stream(payload))[i] == payload[i] {
      StreamByte(payload, i);
    }
  }

  // ---------- lossless transfer ----------

  /** The captures hold what the sender emits for the payload, in order and without loss. */
  predicate Carry(caps: seq<Capture>, payload: seq<byte>, n: nat)
    requires n <= |Stream(payload)|
  {
    |caps| == n && forall t :: 0 <= t < n ==> caps[t].sendlen == Sender.Lengths(Stream(payload), n)[t]
  }

  lemma {:induction false} CarriedFrames(caps: seq<Capture>, payload: seq<byte>, n: nat)
    requires n <= |Stream(payload)| && Carry(caps, payload, n)
    ensures Frames(caps) == Ordered(Stream(payload), 0, n)
  {
    var ns := Stream(payload);
    forall t | 0 <= t < n ensures Frames(caps)[t] == FrameOf(ns, t) {
      LengthCarriesTagAndData(ns, t);
    }
  }

  lemma {:induction false} OrderedPrefix(ns: seq<nibble>, n: nat)
    requires n <= |ns|
    ensures Lossless(ns[..n]) == Ordered(ns, 0, n)
  {
    forall t | 0 <= t < n ensures FrameOf(ns[..n], t) == FrameOf(ns, t) {
    }
  }

  /** The one callback comes with the last capture and brings the payload. */
  predicate DeliversLast(rx: RxOutcome, payload: seq<byte>, caps: seq<Capture>) {
    caps != [] && rx.CalledBack? && rx.d == Arrived(payload, caps[|caps| - 1].saddr) && rx.rest == []
  }

  /** The two runs over all frames in order, side by side. */
  lemma {:induction false} LosslessOutcome(st: State, payload: seq<byte>, caps: seq<Capture>)
    requires Zeroed(st) && |payload| <= 255 && Carry(caps, payload, |Sent(payload)|)
    ensures SameOutcome(RunRx(st, caps), Run(FRESH, Lossless(Sent(payload))), caps)
  {
    CarriedFrames(caps, payload, |Sent(payload)|);
    OrderedPrefix(Stream(payload), |Sent(payload)|);
    LosslessIff(Sent(payload));
    ZeroedRunFollows(st, FRESH, caps);
  }

  lemma {:induction false} LastDelivery(rx: RxOutcome, o: Outcome, caps: seq<Capture>)
    requires caps != [] && SameOutcome(rx, o, caps)
    ensures rx.CalledBack? && rx.rest == [] <==> o.Delivered? && o.rest == []
    ensures o.Delivered? && o.rest == [] ==>
              rx.d == Delivery(caps[|caps| - 1].saddr, PayloadOf(o.nibbles) + [0, 0], |o.nibbles| / 2)
  {
  }

  lemma {:induction false} DeliversLastIff(rx: RxOutcome, payload: seq<byte>, caps: seq<Capture>)
    requires |payload| <= 255 && |caps| == |Sent(payload)|
    requires SameOutcome(rx, Run(FRESH, Lossless(Sent(payload))), caps)
    ensures DeliversLast(rx, payload, caps) <==> 1 <= |payload| <= 253 && NoEarlyFlag(payload)
  {
    var ns := Sent(payload);
    LosslessIff(ns);
    SentEnds(payload);
    PayloadOfStream(payload);
    if caps != [] { LastDelivery(rx, Run(FRESH, Lossless(ns)), caps); }
  }

  lemma {:induction false} ZeroedTransferIff(st: State, payload: seq<byte>, caps: seq<Capture>)
    requires Zeroed(st) && |payload| <= 255 && Carry(caps, payload, 2 * ((|payload| + 2) % 256))
    ensures DeliversLast(RunRx(st, caps), payload, caps) <==> 1 <= |payload| <= 253 && NoEarlyFlag(payload)
  {
    LosslessOutcome(st, payload, caps);
    DeliversLastIff(RunRx(st, caps), payload, caps);
  }

  /** End to end, for every 8-bit size: what the sender emits, fed to a fresh receiver, calls back on the
      last datagram with the payload and two zeros, if and only if the payload has 1 to 253 bytes and no
      early flag. */
  lemma {:induction false} LosslessTransferIff(payload: seq<byte>, caps: seq<Capture>)
    requires |payload| <= 255 && Carry(caps, payload, 2 * ((|payload| + 2) % 256))
    ensures DeliversLast(RunRx(FreshState(), caps), payload, caps) <==> 1 <= |payload| <= 253 && NoEarlyFlag(payload)
  {
    ZeroedTransferIff(FreshState(), payload, caps);
  }

  predicate CountersFollow(rx: RxOutcome, payload: seq<byte>, t: nat) {
    && t <= |Stream(payload)| && rx.Listening? && rx.st.Valid()
    && rx.st.sequence == t % 256 && rx.st.index == t / 2 && Stored(rx.st) == Stream(payload)[..t]
  }

  lemma {:induction false} ZeroedCounters(st: State, payload: seq<byte>, caps: seq<Capture>, t: nat)
    requires Zeroed(st) && |payload| <= 253 && NoEarlyFlag(payload) && t < |Stream(payload)| && Carry(caps, payload, t)
    ensures CountersFollow(RunRx(st, caps), payload, t)
  {
    CarriedFrames(caps, payload, t);
    OrderedRun(Stream(payload), FRESH, 0, t);
    EarlyEndIffEarlyFlag(payload);
    var o := Run(FRESH, Frames(caps));
    ZeroedRunFollows(st, FRESH, caps);
    StoredIsChain(RunRx(st, caps).st, o.c);
  }

  /** Until then every datagram is accepted and the receiver's counters follow the sender's. */
  lemma {:induction false} LosslessCounters(payload: seq<byte>, caps: seq<Capture>, t: nat)
    requires |payload| <= 253 && NoEarlyFlag(payload) && t < |Stream(payload)| && Carry(caps, payload, t)
    ensures CountersFollow(RunRx(FreshState(), caps), payload, t)
  {
    ZeroedCounters(FreshState(), payload, caps, t);
  }

  lemma {:induction false} ByteOfRing(st: State, i: nat)
    requires st.Valid() && i < 256
    ensures st.buffer[i] == Join(RingOf(st).nibbles[2 * i], RingOf(st).nibbles[2 * i + 1])
  {
    NibblePair(st.buffer, i);
    JoinHalves(st.buffer[i]);
  }

  lemma {:induction false} SpentByte(st: State, payload: seq<byte>, i: nat)
    requires st.Valid() && Spent(RingOf(st), Stream(payload)) && i < 256
    ensures i <= |payload| ==> st.buffer[i] == Framed(payload)[i]
    ensures |payload| < i ==> st.buffer[i] == 0
  {
    ByteOfRing(st, i);
    if i <= |payload| {
      NibblePair(Framed(payload), i);
      JoinHalves(Framed(payload)[i]);
    }
  }

  lemma {:induction false} SpentCounters(st: State, payload: seq<byte>)
    requires InStep(st) && Spent(RingOf(st), Stream(payload))
    ensures st.index == |payload| + 2 && st.sequence == (2 * |payload| + 4) % 256
  {
  }

  lemma {:induction false} SpentBytes(st: State, payload: seq<byte>)
    requires InStep(st) && 1 <= |payload| <= 253 && Spent(RingOf(st), Stream(payload))
    ensures st.index == |payload| + 2 && st.sequence == (2 * |payload| + 4) % 256
    ensures st.buffer[0] == 0x7F && st.buffer[1..|payload| + 1] == payload
    ensures forall i :: |payload| + 1 <= i < 256 ==> st.buffer[i] == 0
  {
    SpentCounters(st, payload);
    forall i | 0 <= i < 256
      ensures st.buffer[i] == if i <= |payload| then Framed(payload)[i] else 0
    {
      SpentByte(st, payload, i);
    }
  }

  lemma {:induction false} ZeroedAfterDelivery(st: State, payload: seq<byte>, caps: seq<Capture>)
    requires Zeroed(st) && 1 <= |payload| <= 253 && NoEarlyFlag(payload) && Carry(caps, payload, |Stream(payload)|)
    ensures InStep(RunRx(st, caps).st) && Spent(RingOf(RunRx(st, caps).st), Stream(payload))
  {
    SentEnds(payload);
    LosslessOutcome(st, payload, caps);
    LosslessIff(Stream(payload));
  }

  /** Where the receiver stands behind the callback: it has not started over. Its index is behind the
      cleared end flag, its counter is what the sender's is, and the message is still in its buffer. */
  lemma {:induction false} StateAfterDelivery(payload: seq<byte>, caps: seq<Capture>)
    requires 1 <= |payload| <= 253 && NoEarlyFlag(payload) && Carry(caps, payload, |Stream(payload)|)
    ensures var st := RunRx(FreshState(), caps).st;
            && st.index == |payload| + 2 && st.sequence == (2 * |payload| + 4) % 256
            && st.buffer[0] == 0x7F && st.buffer[1..|payload| + 1] == payload
            && forall i :: |payload| + 1 <= i < 256 ==> st.buffer[i] == 0
  {
    ZeroedAfterDelivery(FreshState(), payload, caps);
    SpentBytes(RunRx(FreshState(), caps).st, payload);
  }

  lemma {:induction false} LetterCarry(payload: seq<byte>, caps: seq<Capture>)
    requires payload == [0x71] && |caps| == 6
    requires caps[0].sendlen == 31 && caps[1].sendlen == 135 && caps[2].sendlen == 239
    requires caps[3].sendlen == 89 && caps[4].sendlen == 111 && caps[5].sendlen == 71
    ensures Carry(caps, payload, 6)
  {
    LetterLengths(payload);
  }

  /** The lengths 31, 135, 239, 89, 111 and 71 bring the letter "q". */
  lemma {:induction false} LetterArrives(payload: seq<byte>, caps: seq<Capture>)
    requires payload == [0x71] && |caps| == 6
    requires caps[0].sendlen == 31 && caps[1].sendlen == 135 && caps[2].sendlen == 239
    requires caps[3].sendlen == 89 && caps[4].sendlen == 111 && caps[5].sendlen == 71
    ensures var rx := RunRx(FreshState(), caps);
            rx.CalledBack? && rx.d == Delivery(caps[5].saddr, [0x71, 0, 0], 3) && rx.rest == []
  {
    LetterCarry(payload, caps);
    LosslessTransferIff(payload, caps);
    assert payload + [0, 0] == [0x71, 0, 0];
  }

  // ---------- transfer under loss ----------

  /** Before the callback the receiver has stored a prefix of what was sent; the callback brings the
      payload and the address of the capture that completed it. */
  predicate RxSafe(rx: RxOutcome, payload: seq<byte>, caps: seq<Capture>)
    requires |payload| <= 255
  {
    match rx
    case Listening(st) => st.Valid() && Stored(st) <= Sent(payload)
    case CalledBack(_, d, rest) => |rest| < |caps| && d == Arrived(payload, StoppedBy(caps, |rest|))
  }

  ghost predicate RxSafeAmong(payload: seq<byte>, air: set<Frame>)
    requires |payload| <= 255
  {
    forall caps :: From(Frames(caps), air) ==> RxSafe(RunRx(FreshState(), caps), payload, caps)
  }

  /** A capture that shows the decoder a given frame. */
  function CaptureOf(f: Frame): (cap: Capture)
    ensures FrameIn(cap.sendlen) == f
  {
    LengthParts(f.tag, f.data);
    Capture(LengthOf(f.tag, f.data), [])
  }

  function CapturesOfFrames(fs: seq<Frame>): (caps: seq<Capture>)
    ensures |caps| == |fs| && forall i :: 0 <= i < |fs| ==> caps[i] == CaptureOf(fs[i])
  {
    seq(|fs|, i requires 0 <= i < |fs| => CaptureOf(fs[i]))
  }

  /** The run ends with the payload and the address of the capture that completed it. */
  predicate RxDelivers(rx: RxOutcome, payload: seq<byte>, caps: seq<Capture>) {
    rx.CalledBack? && |rx.rest| < |caps| && rx.d == Arrived(payload, StoppedBy(caps, |rx.rest|))
  }

  lemma {:induction false} SafeOutcome(rx: RxOutcome, o: Outcome, payload: seq<byte>, caps: seq<Capture>)
    requires |payload| <= 255 && SameOutcome(rx, o, caps) && Safe(o, Sent(payload))
    requires o.Delivered? ==> Ended(o.nibbles)
    ensures RxSafe(rx, payload, caps) && (o.Delivered? ==> RxDelivers(rx, payload, caps))
  {
    if o.Waiting? {
      StoredIsChain(rx.st, o.c);
    } else {
      SentEnds(payload);
      PayloadOfStream(payload);
    }
  }

  lemma {:induction false} WrongCount(n: nat, payload: seq<byte>)
    requires |payload| <= 255 && n % 2 == 0 && 6 <= n <= |Sent(payload)| + 1 && n != |Sent(payload)|
    ensures n / 2 != |payload| + 2
  {
    assert |payload| <= 253 ==> |Sent(payload)| == 2 * (|payload| + 2);
  }

  lemma {:induction false} UnsafeOutcome(rx: RxOutcome, o: Outcome, payload: seq<byte>, caps: seq<Capture>)
    requires |payload| <= 255 && SameOutcome(rx, o, caps) && Unsafe(o, Sent(payload))
    requires |Held(o)| <= |Sent(payload)| + 1 && (o.Delivered? ==> Ended(o.nibbles))
    ensures !RxSafe(rx, payload, caps)
  {
    if o.Waiting? { StoredIsChain(rx.st, o.c); } else { WrongCount(|o.nibbles|, payload); }
  }

  lemma {:induction false} SafeCaptures(st: State, payload: seq<byte>, caps: seq<Capture>, air: set<Frame>)
    requires Zeroed(st) && |payload| <= 255 && NoEarlyEnd(Sent(payload)) && AllHarmless(air, Sent(payload))
    requires From(Frames(caps), air)
    ensures RxSafe(RunRx(st, caps), payload, caps)
    ensures Run(FRESH, Frames(caps)).Delivered? ==> RxDelivers(RunRx(st, caps), payload, caps)
  {
    var o := Run(FRESH, Frames(caps));
    SentEnds(payload);
    SafeRun(Sent(payload), FRESH, Frames(caps), air);
    ZeroedRunFollows(st, FRESH, caps);
    if o.Delivered? { DeliveredEnded(FRESH, Frames(caps)); }
    SafeOutcome(RunRx(st, caps), o, payload, caps);
  }

  lemma {:induction false} UnsafeCaptures(st: State, payload: seq<byte>, caps: seq<Capture>)
    requires Zeroed(st) && |payload| <= 255 && |caps| <= |Sent(payload)| + 1
    requires Unsafe(Run(FRESH, Frames(caps)), Sent(payload))
    ensures !RxSafe(RunRx(st, caps), payload, caps)
  {
    var o := Run(FRESH, Frames(caps));
    HeldBound(FRESH, Frames(caps));
    ZeroedRunFollows(st, FRESH, caps);
    if o.Delivered? { DeliveredEnded(FRESH, Frames(caps)); }
    UnsafeOutcome(RunRx(st, caps), o, payload, caps);
  }

  /** The receiver on a channel that loses, repeats, reorders and mixes in foreign frames, for every 8-bit
      size: it is safe on every run exactly when the payload, if it is sent whole, has no early flag and
      all frames in the air are harmless to what is sent. */
  lemma {:induction false} LossyTransferIff(payload: seq<byte>, air: set<Frame>)
    requires |payload| <= 255 && FramesOf(Sent(payload)) <= air
    ensures RxSafeAmong(payload, air) <==>
              (|payload| <= 253 ==> NoEarlyFlag(payload)) && AllHarmless(air, Sent(payload))
  {
    var ns := Sent(payload);
    SentEnds(payload);
    if NoEarlyEnd(ns) && AllHarmless(air, ns) {
      forall caps | From(Frames(caps), air) ensures RxSafe(RunRx(FreshState(), caps), payload, caps) {
        SafeCaptures(FreshState(), payload, caps, air);
      }
    } else {
      var fs := BreakingRun(ns, air);
      var caps := CapturesOfFrames(fs);
      assert Frames(caps) == fs;
      UnsafeCaptures(FreshState(), payload, caps);
    }
  }
}
