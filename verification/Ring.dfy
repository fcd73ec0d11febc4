/** The receiver's memory as a ring of nibbles with one write head. The byte-level decoder with its two
    wrapping counters does on every run of captures, callbacks and wrap-around included, what the ring does. */
module Ring {
  import opened Bits
  import opened Message
  import opened Receiver

  /** The nibbles an 8-bit byte index can reach. */
  const RING_SIZE: nat := 512

  datatype Ring = Ring(nibbles: seq<nibble>, at: nat, addr: seq<byte>) {
    predicate Valid() {
      |nibbles| == RING_SIZE && at < RING_SIZE
    }
  }

  datatype RingResult = RingResult(ring: Ring, calls: seq<Delivery>)

  function LastNibble(r: Ring): nibble
    requires r.Valid()
  {
    if r.at == 0 then 0 else r.nibbles[r.at - 1]
  }

  predicate Awaits(r: Ring, tag: byte)
    requires r.Valid()
  {
    tag == TagOf(LastNibble(r), r.at)
  }

  /** A frame that is not awaited starts the first byte over, unless its nibble could be the start's. */
  function Dropped(r: Ring, data: nibble): Ring {
    if r.at == 1 && data != 0x7 then r.(at := 0) else r
  }

  /** A nibble is or-ed in at the head, which moves on. */
  function Added(r: Ring, data: nibble): (r': Ring)
    requires r.Valid()
    ensures r'.Valid()
  {
    r.(nibbles := r.nibbles[r.at := OrNibbles(r.nibbles[r.at], data)], at := (r.at + 1) % RING_SIZE)
  }

  function Join(high: nibble, low: nibble): (b: byte)
    ensures b / 16 == high && b % 16 == low
  {
    var h: nat := high;
    16 * h + low
  }

  lemma {:induction false} JoinHalves(b: byte)
    ensures Join(b / 16, b % 16) == b
  {
  }

  /** The bytes 1 to n of the ring. */
  function BytesOf(nibbles: seq<nibble>, n: nat): (bytes: seq<byte>)
    requires 2 * n + 2 <= |nibbles|
    ensures |bytes| == n
    ensures forall i :: 0 <= i < n ==> bytes[i] == Join(nibbles[2 * i + 2], nibbles[2 * i + 3])
  {
    seq<byte>(n, i requires 0 <= i < n => Join(nibbles[2 * i + 2], nibbles[2 * i + 3]))
  }

  /** Behind the third byte and every later one the address is noted, and a flag there is cleared and
      makes the callback. */
  function Closed(r: Ring, saddr: seq<byte>): (res: RingResult)
    requires r.Valid()
    ensures res.ring.Valid()
  {
    if r.at % 2 == 1 || r.at < 6 then RingResult(r, [])
    else if r.nibbles[r.at - 2] == 0x7 && r.nibbles[r.at - 1] == 0xF then
      var cleared := r.nibbles[r.at - 2 := 0][r.at - 1 := 0];
      RingResult(Ring(cleared, r.at, saddr), [Delivery(saddr, BytesOf(cleared, r.at / 2), r.at / 2)])
    else RingResult(r.(addr := saddr), [])
  }

  function RingStep(r: Ring, f: Frame, saddr: seq<byte>): (res: RingResult)
    requires r.Valid()
    ensures res.ring.Valid()
  {
    if Awaits(r, f.tag) then Closed(Added(r, f.data), saddr) else RingResult(Dropped(r, f.data), [])
  }

  function RingAll(r: Ring, caps: seq<Capture>): (res: RingResult)
    requires r.Valid()
    ensures res.ring.Valid()
    decreases |caps|
  {
    if caps == [] then RingResult(r, [])
    else
      var first := RingStep(r, FrameIn(caps[0].sendlen), caps[0].saddr);
      var rest := RingAll(first.ring, caps[1..]);
      RingResult(rest.ring, first.calls + rest.calls)
  }

  // ---------- the decoder's state as a ring ----------

  /** Where the next nibble goes: the byte index says which byte, the counter's parity which half. */
  function Place(st: State): (at: nat)
    ensures at < RING_SIZE
  {
    2 * st.index + st.sequence % 2
  }

  /** The two counters agree: the 8-bit counter is the place, cut to 8 bits. */
  predicate InStep(st: State) {
    st.Valid() && st.sequence == Place(st) % 256
  }

  function RingOf(st: State): (r: Ring)
    requires st.Valid()
    ensures r.Valid()
  {
    Ring(Nibbles(st.buffer)[..RING_SIZE], Place(st), st.sourceAddr)
  }

  predicate Zeroed(st: State) {
    st.Valid() && st.index == 0 && st.sequence == 0 && forall i :: 0 <= i < BUFFER_MAX ==> st.buffer[i] == 0
  }

  lemma {:induction false} FreshRing(st: State)
    requires Zeroed(st)
    ensures InStep(st) && RingOf(st).at == 0
    ensures forall j :: 0 <= j < RING_SIZE ==> RingOf(st).nibbles[j] == 0
  {
  }

  lemma {:induction false} MatchesIffAwaits(st: State, tag: byte)
    requires InStep(st)
    ensures Matches(st, tag) <==> Awaits(RingOf(st), tag)
  {
    assert Previous(st) == LastNibble(RingOf(st));
  }

  lemma {:induction false} RejectRefines(st: State, data: nibble)
    requires InStep(st)
    ensures InStep(Rejected(st, data)) && RingOf(Rejected(st, data)) == Dropped(RingOf(st), data)
  {
  }

  /** Or-ing a nibble into one half of a byte leaves the other half. */
  lemma {:induction false} OrHalves(b: byte, d: nibble)
    ensures OrByte(b, d * 16) == Join(OrNibbles(b / 16, d), b % 16)
    ensures OrByte(b, d) == Join(b / 16, OrNibbles(b % 16, d))
  {
    OrNibblePairs(b / 16, b % 16, d, 0);
    OrNibblePairs(b / 16, b % 16, 0, d);
    OrZero(b / 16);
  }

  /** `|=` into the high half of the byte at the index is or-ing at an even place, whatever is there. */
  lemma {:induction false} HighStored(buffer: seq<byte>, i: nat, d: nibble)
    requires |buffer| == BUFFER_MAX && i < 256
    ensures var ns := Nibbles(buffer);
            Nibbles(OrAt(buffer, i, d * 16)) == ns[2 * i := OrNibbles(ns[2 * i], d)]
  {
    OrHalves(buffer[i], d);
    var b := OrAt(buffer, i, d * 16);
    forall j | 0 <= j < 2 * BUFFER_MAX && j / 2 != i ensures NibbleOf(b, j) == NibbleOf(buffer, j) {
      assert b[j / 2] == buffer[j / 2];
    }
  }

  /** And into its low half at an odd place. */
  lemma {:induction false} LowStored(buffer: seq<byte>, i: nat, d: nibble)
    requires |buffer| == BUFFER_MAX && i < 256
    ensures var ns := Nibbles(buffer);
            Nibbles(OrAt(buffer, i, d)) == ns[2 * i + 1 := OrNibbles(ns[2 * i + 1], d)]
  {
    OrHalves(buffer[i], d);
    var b := OrAt(buffer, i, d);
    forall j | 0 <= j < 2 * BUFFER_MAX && j / 2 != i ensures NibbleOf(b, j) == NibbleOf(buffer, j) {
      assert b[j / 2] == buffer[j / 2];
    }
  }

  /** Both counters step through their wrap as the place does. */
  lemma {:induction false} CountersAdvance(index: byte, sequence: byte)
    requires sequence == (2 * index + sequence % 2) % 256
    ensures var at, next := 2 * index + sequence % 2, (sequence + 1) % 256;
            && next == (at + 1) % RING_SIZE % 256
            && (sequence % 2 == 0 ==> next % 2 == 1 && (at + 1) % RING_SIZE == 2 * index + 1)
            && (sequence % 2 == 1 ==> next % 2 == 0 && (at + 1) % RING_SIZE == 2 * ((index + 1) % 256))
  {
    var at, next := 2 * index + sequence % 2, (sequence + 1) % 256;
    ModStep(at);
    assert (at + 1) % RING_SIZE == if at == 511 then 0 else at + 1;
    assert next == if sequence == 255 then 0 else sequence + 1;
    if sequence % 2 == 1 {
      assert at + 1 == 2 * (index + 1);
    }
  }

  lemma {:induction false} HighRefines(st: State, data: nibble)
    requires InStep(st) && st.sequence % 2 == 0
    ensures InStep(StoreHigh(st, data)) && RingOf(StoreHigh(st, data)) == Added(RingOf(st), data)
  {
    CountersAdvance(st.index, st.sequence);
    HighStored(st.buffer, st.index, data);
  }

  /** The low half up to the end test. */
  lemma {:induction false} LowRefines(st: State, data: nibble, saddr: seq<byte>)
    requires InStep(st) && st.sequence % 2 == 1
    ensures var st' := WithLow(st, data, saddr);
            && InStep(st') && st'.sequence % 2 == 0
            && RingOf(st').(addr := st.sourceAddr) == Added(RingOf(st), data)
            && st'.sourceAddr == (if st'.index > 2 then saddr else st.sourceAddr)
  {
    CountersAdvance(st.index, st.sequence);
    LowStored(st.buffer, st.index, data);
  }

  lemma {:induction false} ByteCleared(buffer: seq<byte>, i: nat)
    requires |buffer| == BUFFER_MAX && i < 256
    ensures Nibbles(buffer[i := 0]) == Nibbles(buffer)[2 * i := 0][2 * i + 1 := 0]
  {
  }

  /** The bytes the callback sees are the ring's. */
  lemma {:induction false} DeliveredBytes(buffer: seq<byte>, n: nat)
    requires |buffer| == BUFFER_MAX && n < 256
    ensures buffer[1..1 + n] == BytesOf(Nibbles(buffer)[..RING_SIZE], n)
  {
    var ns := Nibbles(buffer)[..RING_SIZE];
    forall i | 0 <= i < n ensures buffer[i + 1] == BytesOf(ns, n)[i] {
      NibblePair(buffer, i + 1);
      assert ns[2 * i + 2] == buffer[i + 1] / 16 && ns[2 * i + 3] == buffer[i + 1] % 16;
    }
  }

  lemma {:induction false} LastByte(buffer: seq<byte>, k: nat, ns: seq<nibble>)
    requires |buffer| == BUFFER_MAX && k < 256 && ns == Nibbles(buffer)[..RING_SIZE]
    ensures buffer[k] == FLAG <==> ns[2 * k] == 0x7 && ns[2 * k + 1] == 0xF
  {
    NibblePair(buffer, k);
  }

  lemma {:induction false} FlagRefines(st: State, ns: seq<nibble>, k: nat, saddr: seq<byte>)
    requires InStep(st) && st.sequence % 2 == 0 && st.index == k + 1 && ns == Nibbles(st.buffer)[..RING_SIZE]
    ensures var cleared := st.buffer[k := 0];
            && Nibbles(cleared)[..RING_SIZE] == ns[2 * k := 0][2 * k + 1 := 0]
            && cleared[1..1 + st.index] == BytesOf(ns[2 * k := 0][2 * k + 1 := 0], st.index)
            && cleared[256..] == st.buffer[256..]
  {
    ByteCleared(st.buffer, k);
    DeliveredBytes(st.buffer[k := 0], st.index);
  }

  /** Decoder and ring have made the same calls and stand at the same place, and the half of the buffer
      that the index cannot reach is as it was in st. */
  predicate Agree(d: Result, g: RingResult, st: State) {
    && InStep(d.state) && RingOf(d.state) == g.ring && d.calls == g.calls
    && st.Valid() && d.state.buffer[256..] == st.buffer[256..]
  }

  /** The end test, the clearing of the flag and the callback. */
  lemma {:induction false} EndRefines(st: State, r: Ring, saddr: seq<byte>)
    requires InStep(st) && st.sequence % 2 == 0 && RingOf(st) == r.(addr := if st.index > 2 then saddr else r.addr)
    ensures Agree(CheckEnd(st), Closed(r, saddr), st)
  {
    if st.index > 2 {
      var k := st.index - 1;
      LastByte(st.buffer, k, r.nibbles);
      if st.buffer[k] == FLAG { FlagRefines(st, r.nibbles, k, saddr); }
    }
  }

  lemma {:induction false} StoreRefines(st: State, data: nibble, saddr: seq<byte>)
    requires InStep(st) && st.sequence % 2 == 1
    ensures Agree(StoreLow(st, data, saddr), Closed(Added(RingOf(st), data), saddr), st)
  {
    LowRefines(st, data, saddr);
    EndRefines(WithLow(st, data, saddr), Added(RingOf(st), data), saddr);
  }

  /** One length, any state: the decoder's step is the ring's. */
  lemma {:induction false} StepRefines(st: State, sendlen: int, saddr: seq<byte>)
    requires InStep(st)
    ensures Agree(Decode(st, sendlen, saddr), RingStep(RingOf(st), FrameIn(sendlen), saddr), st)
  {
    var f := FrameIn(sendlen);
    MatchesIffAwaits(st, f.tag);
    if !Matches(st, f.tag) {
      RejectRefines(st, f.data);
    } else if st.sequence % 2 == 0 {
      HighRefines(st, f.data);
      assert Closed(Added(RingOf(st), f.data), saddr) == RingResult(Added(RingOf(st), f.data), []);
    } else {
      StoreRefines(st, f.data, saddr);
    }
  }

  // ---------- runs ----------

  /** Refinement: on every run of captures, from every state whose counters agree, through any number of
      callbacks and any wrap of index and counter, the decoder does what the ring does. */
  lemma {:induction false} RunRefines(st: State, caps: seq<Capture>)
    requires InStep(st)
    ensures Agree(DecodeAll(st, caps), RingAll(RingOf(st), caps), st)
    decreases |caps|
  {
    if caps == [] {
    } else {
      StepRefines(st, caps[0].sendlen, caps[0].saddr);
      RunRefines(Decode(st, caps[0].sendlen, caps[0].saddr).state, caps[1..]);
    }
  }

  /** 3 to 255 bytes from byte 1 on, with a NUL in front of the last one, and a sender's address. */
  predicate ProperCall(d: Delivery, caps: seq<Capture>) {
    && 3 <= d.len <= 255 && |d.data| == d.len && d.data[d.len - 2] == 0
    && exists k :: 0 <= k < |caps| && d.mac == caps[k].saddr
  }

  lemma {:induction false} ClosedCall(r: Ring, saddr: seq<byte>)
    requires r.Valid() && Closed(r, saddr).calls != []
    ensures |Closed(r, saddr).calls| == 1
    ensures var d := Closed(r, saddr).calls[0];
            d.mac == saddr && 3 <= d.len <= 255 && |d.data| == d.len && d.data[d.len - 2] == 0
  {
    var n, cleared := r.at / 2, r.nibbles[r.at - 2 := 0][r.at - 1 := 0];
    assert BytesOf(cleared, n)[n - 2] == Join(0, 0);
  }

  lemma {:induction false} StepCall(r: Ring, f: Frame, saddr: seq<byte>)
    requires r.Valid() && RingStep(r, f, saddr).calls != []
    ensures |RingStep(r, f, saddr).calls| == 1
    ensures var d := RingStep(r, f, saddr).calls[0];
            d.mac == saddr && 3 <= d.len <= 255 && |d.data| == d.len && d.data[d.len - 2] == 0
  {
    ClosedCall(Added(r, f.data), saddr);
  }

  lemma {:induction false} LaterCall(d: Delivery, caps: seq<Capture>)
    requires caps != [] && ProperCall(d, caps[1..])
    ensures ProperCall(d, caps)
  {
    var k :| 0 <= k < |caps[1..]| && d.mac == caps[1..][k].saddr;
    assert d.mac == caps[k + 1].saddr;
  }

  lemma {:induction false} RingCalls(r: Ring, caps: seq<Capture>, i: nat)
    requires r.Valid() && i < |RingAll(r, caps).calls|
    ensures ProperCall(RingAll(r, caps).calls[i], caps)
    decreases |caps|
  {
    var f, saddr := FrameIn(caps[0].sendlen), caps[0].saddr;
    var first := RingStep(r, f, saddr);
    var later := RingAll(first.ring, caps[1..]).calls;
    assert RingAll(r, caps).calls == first.calls + later;
    if i < |first.calls| {
      StepCall(r, f, saddr);
    } else {
      var k := i - |first.calls|;
      RingCalls(first.ring, caps[1..], k);
      LaterCall(later[k], caps);
    }
  }

  /** Every callback of every run is proper, whatever has been captured. */
  lemma {:induction false} EveryCall(st: State, caps: seq<Capture>, i: nat)
    requires InStep(st) && i < |DecodeAll(st, caps).calls|
    ensures ProperCall(DecodeAll(st, caps).calls[i], caps)
  {
    RunRefines(st, caps);
    RingCalls(RingOf(st), caps, i);
  }

  // ---------- the bits of the buffer ----------

  /** Every bit that is set in a is set in b. */
  ghost predicate Kept(a: seq<byte>, b: seq<byte>) {
    |a| == |b| && forall i, k: nat :: 0 <= i < |a| && Bit(a[i], k) ==> Bit(b[i], k)
  }

  lemma {:induction false} OrAtBit(buffer: seq<byte>, i: nat, bits: byte, j: nat, k: nat)
    requires i < |buffer| && j < |buffer|
    ensures Bit(OrAt(buffer, i, bits)[j], k) == (Bit(buffer[j], k) || (j == i && Bit(bits, k)))
  {
    BitOfOr(buffer[i], bits, k);
  }

  /** The bits that an accepted length puts into its byte: its nibble, in the high half at an even place. */
  function StoredBits(sendlen: int, place: nat): byte {
    var data: nibble := (sendlen - 24) % 16;
    if place % 2 == 0 then data * 16 else data
  }

  /** A step without a callback ors the nibble's bits into the byte at the index or changes no byte. */
  lemma {:induction false} StepBits(st: State, sendlen: int, saddr: seq<byte>, j: nat, k: nat)
    requires InStep(st) && Decode(st, sendlen, saddr).calls == [] && j < 512
    ensures var accepted := Awaits(RingOf(st), (sendlen - 24) / 16 % 256);
            Bit(Decode(st, sendlen, saddr).state.buffer[j], k) ==
              (Bit(st.buffer[j], k) || (accepted && j == st.index && Bit(StoredBits(sendlen, st.sequence), k)))
  {
    var f := FrameIn(sendlen);
    MatchesIffAwaits(st, f.tag);
    OrAtBit(st.buffer, st.index, f.data * 16, j, k);
    OrAtBit(st.buffer, st.index, f.data, j, k);
  }

  lemma {:induction false} StepKeeps(st: State, cap: Capture)
    requires InStep(st) && Decode(st, cap.sendlen, cap.saddr).calls == []
    ensures Kept(st.buffer, Decode(st, cap.sendlen, cap.saddr).state.buffer)
  {
    forall j, k: nat | 0 <= j < 512 && Bit(st.buffer[j], k)
      ensures Bit(Decode(st, cap.sendlen, cap.saddr).state.buffer[j], k)
    {
      StepBits(st, cap.sendlen, cap.saddr, j, k);
    }
  }

  /** No run clears a bit of the buffer before it calls back, through the wrap of the index too. */
  lemma {:induction false} RunKeeps(st: State, caps: seq<Capture>)
    requires InStep(st) && DecodeAll(st, caps).calls == []
    ensures Kept(st.buffer, DecodeAll(st, caps).state.buffer)
    decreases |caps|
  {
    if caps == [] {
    } else {
      var r := Decode(st, caps[0].sendlen, caps[0].saddr);
      StepRefines(st, caps[0].sendlen, caps[0].saddr);
      RunKeeps(r.state, caps[1..]);
      StepKeeps(st, caps[0]);
    }
  }

  /** At the start of the buffer, with the index still there or come round, any length from 24 to 39 is
      taken for a first one, and its nibble is or-ed onto what is in byte 0. */
  lemma {:induction false} FirstTaken(st: State, d: nibble, a: seq<byte>)
    requires st.Valid() && st.index == 0 && st.sequence == 0
    ensures var r := Decode(st, 24 + d, a);
            && r.calls == [] && r.state.index == 0 && r.state.sequence == 1
            && r.state.buffer[0] / 16 == Or(st.buffer[0] / 16, d) && r.state.buffer[0] % 16 == st.buffer[0] % 16
  {
    assert XorByte(0, 0) == 0 by { XorZero(0); }
    assert FrameIn(24 + d) == Frame(0, d);
    OrHalves(st.buffer[0], d);
  }

  lemma {:induction false} FirstStored(st: State, d: nibble, a: seq<byte>) returns (st': State)
    requires Zeroed(st)
    ensures Decode(st, 24 + d, a) == Result(st', [])
    ensures st'.Valid() && st'.index == 0 && st'.sequence == 1 && st'.buffer[0] == 16 * d
  {
    FirstTaken(st, d, a);
    OrZero(d);
    st' := Decode(st, 24 + d, a).state;
  }

  lemma {:induction false} SecondAccepted(st: State, d: nibble, sendlen: int, b: seq<byte>)
    requires st.Valid() && st.index == 0 && st.sequence == 1 && st.buffer[0] == 16 * d
    requires FrameIn(sendlen).tag == Xor(d, 1)
    ensures var second := Decode(st, sendlen, b);
            && second.calls == [] && second.state.index == 1 && second.state.sequence == 2
            && second.state.buffer[0] == 16 * d + (sendlen - 24) % 16
  {
    var data := FrameIn(sendlen).data;
    assert Matches(st, FrameIn(sendlen).tag);
    var low := WithLow(st, data, b);
    assert low.buffer[0] == 16 * d + data by {
      OrHalves(st.buffer[0], data);
      OrZero(data);
    }
    assert low.index == 1 && low.sequence == 2;
    assert Decode(st, sendlen, b) == CheckEnd(low) == Result(low, []);
  }

  lemma {:induction false} SecondRejected(st: State, d: nibble, sendlen: int, b: seq<byte>)
    requires st.Valid() && st.index == 0 && st.sequence == 1 && st.buffer[0] == 16 * d
    requires FrameIn(sendlen).tag != Xor(d, 1)
    ensures var second := Decode(st, sendlen, b);
            && second.calls == [] && second.state.index == 0 && second.state.buffer == st.buffer
            && second.state.sequence == if (sendlen - 24) % 16 == 7 then 1 else 0
  {
    assert !Matches(st, FrameIn(sendlen).tag);
  }

  /** The second length decides: when its tag continues a first nibble d, both counters step; otherwise
      the first byte is started over, unless the nibble is a 7. What has been stored stays. */
  lemma {:induction false} SecondLength(st: State, d: nibble, sendlen: int, a: seq<byte>, b: seq<byte>)
    requires Zeroed(st)
    ensures var first := Decode(st, 24 + d, a);
            var second := Decode(first.state, sendlen, b);
            var tag, data := (sendlen - 24) / 16 % 256, (sendlen - 24) % 16;
            var accepted := tag == if d % 2 == 1 then d - 1 else d + 1;
            && first.calls == second.calls == []
            && second.state.index == (if accepted then 1 else 0)
            && second.state.sequence == (if accepted then 2 else if data == 7 then 1 else 0)
            && second.state.buffer[0] == 16 * d + (if accepted then data else 0)
  {
    var st1 := FirstStored(st, d, a);
    if FrameIn(sendlen).tag == Xor(d, 1) {
      SecondAccepted(st1, d, sendlen, b);
    } else {
      SecondRejected(st1, d, sendlen, b);
    }
    XorOne(d);
  }
}
