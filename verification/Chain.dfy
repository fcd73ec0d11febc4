/** The receiver as a chain of nibbles: it appends a frame's nibble exactly when the frame's tag is
    the one its last nibble and its count call for. Runs over lost, repeated and reordered frames. */
module Chain {
  import opened Bits
  import opened Message

  /** `stale` is what a reset of the first nibble left behind in the high half of byte 0. */
  datatype Chain = Chain(nibbles: seq<nibble>, stale: nibble)

  const FRESH := Chain([], 0)

  predicate Accepts(c: Chain, f: Frame) {
    f.tag == Tag(c.nibbles, |c.nibbles|)
  }

  function Step(c: Chain, f: Frame): Chain {
    if Accepts(c, f) then
      if c.nibbles == [] then c.(nibbles := [OrNibbles(c.stale, f.data)])
      else c.(nibbles := c.nibbles + [f.data])
    else if |c.nibbles| == 1 && f.data != 0x7 then Chain([], c.nibbles[0])
    else c
  }

  /** The last whole byte is a flag and at least the third byte. */
  predicate Ended(ns: seq<nibble>) {
    |ns| % 2 == 0 && |ns| >= 6 && ns[|ns| - 2] == 0x7 && ns[|ns| - 1] == 0xF
  }

  /** The step from c to c' calls back. */
  predicate Fires(c: Chain, c': Chain) {
    |c'.nibbles| > |c.nibbles| && Ended(c'.nibbles)
  }

  // ---------- runs ----------

  /** A run goes up to the first callback; `rest` is what has not been looked at then. */
  datatype Outcome = Waiting(c: Chain) | Delivered(nibbles: seq<nibble>, rest: seq<Frame>)

  function Run(c: Chain, fs: seq<Frame>): Outcome
    decreases |fs|
  {
    if fs == [] then Waiting(c)
    else
      var c' := Step(c, fs[0]);
      if Fires(c, c') then Delivered(c'.nibbles, fs[1..]) else Run(c', fs[1..])
  }

  lemma {:induction false} RunStep(c: Chain, fs: seq<Frame>)
    requires fs != []
    ensures Fires(c, Step(c, fs[0])) ==> Run(c, fs) == Delivered(Step(c, fs[0]).nibbles, fs[1..])
    ensures !Fires(c, Step(c, fs[0])) ==> Run(c, fs) == Run(Step(c, fs[0]), fs[1..])
  {
  }

  lemma {:induction false} RunConcat(c: Chain, a: seq<Frame>, b: seq<Frame>)
    ensures Run(c, a + b) == match Run(c, a)
                             case Waiting(c') => Run(c', b)
                             case Delivered(ns, rest) => Delivered(ns, rest + b)
    decreases |a|
  {
    if a == [] {
      assert a + b == b;
    } else {
      assert (a + b)[1..] == a[1..] + b;
      RunConcat(Step(c, a[0]), a[1..], b);
    }
  }

  /** The nibbles a run ends with, callback or not. */
  function Held(o: Outcome): seq<nibble> {
    match o
    case Waiting(c) => c.nibbles
    case Delivered(ns, _) => ns
  }

  lemma {:induction false} HeldBound(c: Chain, fs: seq<Frame>)
    ensures |Held(Run(c, fs))| <= |c.nibbles| + |fs|
    decreases |fs|
  {
    if fs == [] {
    } else {
      HeldBound(Step(c, fs[0]), fs[1..]);
    }
  }

  lemma {:induction false} DeliveredEnded(c: Chain, fs: seq<Frame>)
    requires Run(c, fs).Delivered?
    ensures Ended(Run(c, fs).nibbles)
    decreases |fs|
  {
    if Fires(c, Step(c, fs[0])) {
    } else {
      DeliveredEnded(Step(c, fs[0]), fs[1..]);
    }
  }

  /** The frames of a run that are accepted when their turn comes. */
  function AcceptedOnly(c: Chain, fs: seq<Frame>): seq<Frame>
    decreases |fs|
  {
    if fs == [] then []
    else if !Accepts(c, fs[0]) then AcceptedOnly(Step(c, fs[0]), fs[1..])
    else [fs[0]] + AcceptedOnly(Step(c, fs[0]), fs[1..])
  }

  /** Past the start byte a run is the run over just the frames it accepts: it never goes back, and
      every other frame leaves no trace. This needs nothing of the message. */
  lemma {:induction false} RunOfAccepted(c: Chain, fs: seq<Frame>)
    requires |c.nibbles| >= 2
    ensures Held(Run(c, fs)) == Held(Run(c, AcceptedOnly(c, fs)))
    ensures Run(c, fs).Waiting? == Run(c, AcceptedOnly(c, fs)).Waiting?
    ensures c.nibbles <= Held(Run(c, fs))
    decreases |fs|
  {
    if fs == [] {
    } else {
      var c' := Step(c, fs[0]);
      RunOfAccepted(c', fs[1..]);
      if Accepts(c, fs[0]) { assert AcceptedOnly(c, fs)[1..] == AcceptedOnly(c', fs[1..]); }
    }
  }

  // ---------- frames of a message ----------

  function FrameOf(ns: seq<nibble>, t: nat): Frame
    requires t < |ns|
  {
    Frame(Tag(ns, t), ns[t])
  }

  /** The frames from..to-1 in order. */
  function Ordered(ns: seq<nibble>, from: nat, to: nat): (fs: seq<Frame>)
    requires from <= to <= |ns|
    ensures |fs| == to - from && forall i :: 0 <= i < |fs| ==> fs[i] == FrameOf(ns, from + i)
  {
    seq(to - from, i requires 0 <= i < to - from => FrameOf(ns, from + i))
  }

  /** All frames of the message, each once and in order. */
  function Lossless(ns: seq<nibble>): seq<Frame> {
    Ordered(ns, 0, |ns|)
  }

  function FramesOf(ns: seq<nibble>): set<Frame> {
    set t | 0 <= t < |ns| :: FrameOf(ns, t)
  }

  /** Any sequence of frames that are in the air: frames may be missing, come twice, come in any order,
      and frames of other senders may come in between. */
  predicate From(fs: seq<Frame>, air: set<Frame>) {
    forall i :: 0 <= i < |fs| ==> fs[i] in air
  }

  /** Wherever the frame would be accepted it carries the right nibble. */
  predicate Compatible(f: Frame, ns: seq<nibble>) {
    forall s :: 0 <= s < |ns| && f.tag == Tag(ns, s) ==> f.data == ns[s]
  }

  /** And nothing is accepted behind a message that never ends. */
  predicate Harmless(f: Frame, ns: seq<nibble>) {
    Compatible(f, ns) && (f.tag == Tag(ns, |ns|) ==> Ended(ns))
  }

  predicate AllHarmless(air: set<Frame>, ns: seq<nibble>) {
    forall f :: f in air ==> Harmless(f, ns)
  }

  /** A message's own frames are harmless to it exactly when equal tags carry equal nibbles, where for
      a message that never ends the tag behind it counts too. */
  lemma {:induction false} OwnFramesHarmless(ns: seq<nibble>)
    ensures AllHarmless(FramesOf(ns), ns) <==>
              TagConsistent(ns) && (Ended(ns) || forall t :: 0 <= t < |ns| ==> Tag(ns, t) != Tag(ns, |ns|))
  {
    if AllHarmless(FramesOf(ns), ns) {
      forall s, t | 0 <= s < |ns| && 0 <= t < |ns| && Tag(ns, s) == Tag(ns, t) ensures ns[s] == ns[t] {
        assert FrameOf(ns, t) in FramesOf(ns);
        assert Compatible(FrameOf(ns, t), ns);
      }
      forall t | 0 <= t < |ns| && !Ended(ns) ensures Tag(ns, t) != Tag(ns, |ns|) {
        assert FrameOf(ns, t) in FramesOf(ns);
        assert Harmless(FrameOf(ns, t), ns);
      }
    }
  }

  lemma {:induction false} TagOfPrefix(ns: seq<nibble>, s: nat)
    requires s <= |ns|
    ensures Tag(ns[..s], s) == Tag(ns, s)
  {
  }

  /** A receiver that holds the first s nibbles can only take frame t for the next one if both indices
      lie in the same block of 16, modulo 256. */
  lemma {:induction false} TagSeparation(ns: seq<nibble>, c: Chain, s: nat, t: nat)
    requires s < |ns| && t < |ns| && c.nibbles == ns[..s] && Accepts(c, FrameOf(ns, t))
    ensures s % 256 / 16 == t % 256 / 16
  {
    TagOfPrefix(ns, s);
  }

  // ---------- the message ----------

  /** A nibble stream that is empty, or starts with a flag and ends with a flag's low half. */
  predicate IsMessage(ns: seq<nibble>) {
    ns == [] || (|ns| >= 2 && ns[0] == 0x7 && ns[1] == 0xF && ns[|ns| - 1] == 0xF)
  }

  /** No proper prefix looks like a whole message. */
  predicate NoEarlyEnd(ns: seq<nibble>) {
    forall k :: 0 <= k < |ns| ==> !Ended(ns[..k])
  }

  lemma {:induction false} StreamEnds(payload: seq<byte>)
    ensures IsMessage(Stream(payload))
    ensures Ended(Stream(payload)) <==> |payload| >= 1
  {
  }

  /** Prefixes of the stream look like a whole message exactly at the flags behind the first payload byte. */
  lemma {:induction false} EndedPrefix(payload: seq<byte>, k: nat)
    requires k <= |Stream(payload)|
    ensures Ended(Stream(payload)[..k]) <==>
              k % 2 == 0 && k >= 6 && Framed(payload)[k / 2 - 1] == FLAG
  {
    var msg, ns := Framed(payload), Stream(payload);
    if k % 2 == 0 && k >= 6 {
      var b := msg[k / 2 - 1];
      assert ns[k - 2] == b / 16 && ns[k - 1] == b % 16;
    }
  }

  /** The stream ends early exactly when the payload has a flag behind its first byte. */
  lemma {:induction false} EarlyEndIffEarlyFlag(payload: seq<byte>)
    ensures NoEarlyEnd(Stream(payload)) <==> NoEarlyFlag(payload)
  {
    var ns := Stream(payload);
    forall k | 0 <= k < |ns| && NoEarlyFlag(payload) ensures !Ended(ns[..k]) {
      EndedPrefix(payload, k);
      if k % 2 == 0 && k >= 6 { assert Framed(payload)[k / 2 - 1] == payload[k / 2 - 2]; }
    }
    forall i | 1 <= i < |payload| && NoEarlyEnd(ns) ensures payload[i] != FLAG {
      EndedPrefix(payload, 2 * (i + 2));
      assert Framed(payload)[i + 1] == payload[i];
    }
  }

  lemma {:induction false} SentCut(payload: seq<byte>)
    requires 254 <= |payload| <= 255
    ensures IsMessage(Sent(payload)) && !Ended(Sent(payload)) && NoEarlyEnd(Sent(payload))
  {
    StreamEnds(payload);
    assert |Sent(payload)| == if |payload| == 254 then 0 else 2;
  }

  lemma {:induction false} SentEnds(payload: seq<byte>)
    requires |payload| <= 255
    ensures |payload| <= 253 ==> Sent(payload) == Stream(payload)
    ensures IsMessage(Sent(payload))
    ensures Ended(Sent(payload)) <==> 1 <= |payload| <= 253
    ensures NoEarlyEnd(Sent(payload)) <==> (|payload| <= 253 ==> NoEarlyFlag(payload))
  {
    StreamEnds(payload);
    if |payload| <= 253 {
      SentWhole(payload);
      EarlyEndIffEarlyFlag(payload);
    } else {
      SentCut(payload);
    }
  }

  // ---------- lossless runs ----------

  /** The frame a receiver waits for is accepted, whatever the message is. */
  lemma {:induction false} NextFrameAccepted(ns: seq<nibble>, c: Chain, t: nat)
    requires t < |ns| && c.nibbles == ns[..t] && (t == 0 ==> c.stale == 0)
    ensures Accepts(c, FrameOf(ns, t)) && Step(c, FrameOf(ns, t)).nibbles == ns[..t + 1]
  {
    TagOfPrefix(ns, t);
    if t == 0 { assert c.nibbles == []; }
    assert ns[..t + 1] == ns[..t] + [ns[t]];
  }

  /** The run stopped at the first prefix longer than t that looks ended, or at m. */
  predicate StoppedAtFirstEnd(ns: seq<nibble>, t: nat, m: nat, o: Outcome)
    requires m <= |ns|
  {
    match o
    case Waiting(c) => c.nibbles == ns[..m] && (m == 0 ==> c.stale == 0) && forall k :: t < k <= m ==> !Ended(ns[..k])
    case Delivered(got, rest) =>
      && t < |got| <= m && got == ns[..|got|] && Ended(got) && |rest| == m - |got|
      && forall k :: t < k < |got| ==> !Ended(ns[..k])
  }

  lemma {:induction false} StoppedNow(ns: seq<nibble>, t: nat, m: nat, rest: seq<Frame>)
    requires t < m <= |ns| && Ended(ns[..t + 1]) && |rest| == m - t - 1
    ensures StoppedAtFirstEnd(ns, t, m, Delivered(ns[..t + 1], rest))
  {
  }

  lemma {:induction false} StoppedLater(ns: seq<nibble>, t: nat, m: nat, o: Outcome)
    requires t < m <= |ns| && StoppedAtFirstEnd(ns, t + 1, m, o) && !Ended(ns[..t + 1])
    ensures StoppedAtFirstEnd(ns, t, m, o)
  {
  }

  /** Frames t..m-1 in order add their nibbles one by one, up to the first prefix that looks ended. */
  lemma {:induction false} OrderedRun(ns: seq<nibble>, c: Chain, t: nat, m: nat)
    requires t <= m <= |ns| && c.nibbles == ns[..t] && (t == 0 ==> c.stale == 0)
    ensures StoppedAtFirstEnd(ns, t, m, Run(c, Ordered(ns, t, m)))
    decreases m - t
  {
    if t == m {
    } else {
      var fs, c' := Ordered(ns, t, m), Step(c, FrameOf(ns, t));
      assert fs[1..] == Ordered(ns, t + 1, m);
      NextFrameAccepted(ns, c, t);
      OrderedRun(ns, c', t + 1, m);
      RunStep(c, fs);
      if Fires(c, c') {
        StoppedNow(ns, t, m, fs[1..]);
      } else {
        StoppedLater(ns, t, m, Run(c, fs));
      }
    }
  }

  /** A lossless run never holds more than the message, and delivers exactly the message on the last
      frame if and only if the message looks ended and no proper prefix of it does. */
  lemma {:induction false} LosslessIff(ns: seq<nibble>)
    ensures Run(FRESH, Lossless(ns)) == Delivered(ns, []) <==> Ended(ns) && NoEarlyEnd(ns)
    ensures Run(FRESH, Lossless(ns)).Delivered? && Run(FRESH, Lossless(ns)).rest == [] ==>
              Run(FRESH, Lossless(ns)).nibbles == ns
    ensures |Held(Run(FRESH, Lossless(ns)))| <= |ns|
  {
    OrderedRun(ns, FRESH, 0, |ns|);
    assert ns[..|ns|] == ns;
  }

  /** For what is sent of a payload: it has 1 to 253 bytes and no flag behind its first. */
  lemma {:induction false} LosslessPayloadIff(payload: seq<byte>)
    requires |payload| <= 255
    ensures Run(FRESH, Lossless(Sent(payload))) == Delivered(Sent(payload), []) <==>
              1 <= |payload| <= 253 && NoEarlyFlag(payload)
  {
    LosslessIff(Sent(payload));
    SentEnds(payload);
  }

  // ---------- runs with losses, repetitions, reordering and foreign frames ----------

  predicate Holds(c: Chain, ns: seq<nibble>) {
    && |c.nibbles| <= |ns| && c.nibbles == ns[..|c.nibbles|]
    && (c.nibbles == [] ==> c.stale < 8)
  }

  /** A state before the callback that holds a correct part of the message. */
  predicate Good(c: Chain, ns: seq<nibble>) {
    Holds(c, ns) && (c.nibbles == ns ==> !Ended(ns))
  }

  predicate Safe(o: Outcome, ns: seq<nibble>) {
    match o
    case Waiting(c) => Good(c, ns)
    case Delivered(got, _) => got == ns
  }

  /** What a caller can see of an unsafe run: stored nibbles that are not the message's, or a delivery
      of the wrong length. */
  predicate Unsafe(o: Outcome, ns: seq<nibble>) {
    match o
    case Waiting(c) => !(c.nibbles <= ns)
    case Delivered(got, _) => |got| != |ns|
  }

  lemma {:induction false} AcceptedIsAwaited(ns: seq<nibble>, c: Chain, f: Frame)
    requires Good(c, ns) && Harmless(f, ns) && Accepts(c, f)
    ensures |c.nibbles| < |ns| && f.data == ns[|c.nibbles|]
  {
    TagOfPrefix(ns, |c.nibbles|);
    assert ns[..|ns|] == ns;
  }

  /** An accepted harmless frame carries the nibble that comes next. */
  lemma {:induction false} AcceptedIsNext(ns: seq<nibble>, c: Chain, f: Frame)
    requires IsMessage(ns) && Good(c, ns) && Harmless(f, ns) && Accepts(c, f)
    ensures |c.nibbles| < |ns| && Step(c, f).nibbles == ns[..|c.nibbles| + 1]
  {
    AcceptedIsAwaited(ns, c, f);
    var s := |c.nibbles|;
    if s > 0 { assert ns[..s + 1] == ns[..s] + [ns[s]]; } else { OrSeven(c.stale, 7); }
  }

  /** Any harmless frame keeps the stored nibbles a prefix of the message, a reset included. */
  lemma {:induction false} AnyFrameKeepsPrefix(ns: seq<nibble>, c: Chain, f: Frame)
    requires IsMessage(ns) && Good(c, ns) && Harmless(f, ns)
    ensures Holds(Step(c, f), ns)
  {
    if Accepts(c, f) { AcceptedIsNext(ns, c, f); }
  }

  /** A correct state fires exactly when it holds the whole of a message that ends. */
  lemma {:induction false} FiresOnlyWhole(ns: seq<nibble>, c: Chain, c': Chain)
    requires NoEarlyEnd(ns) && Good(c, ns) && Holds(c', ns)
    ensures Fires(c, c') <==> c'.nibbles == ns && Ended(ns)
    ensures !Fires(c, c') ==> Good(c', ns)
  {
    if |c'.nibbles| < |ns| {
      assert !Ended(ns[..|c'.nibbles|]);
    } else {
      assert c'.nibbles == ns;
    }
  }

  lemma {:induction false} SafeRun(ns: seq<nibble>, c: Chain, fs: seq<Frame>, air: set<Frame>)
    requires IsMessage(ns) && NoEarlyEnd(ns) && AllHarmless(air, ns) && Good(c, ns) && From(fs, air)
    ensures Safe(Run(c, fs), ns)
    decreases |fs|
  {
    if fs == [] {
    } else {
      var c' := Step(c, fs[0]);
      AnyFrameKeepsPrefix(ns, c, fs[0]);
      FiresOnlyWhole(ns, c, c');
      RunStep(c, fs);
      if !Fires(c, c') { SafeRun(ns, c', fs[1..], air); }
    }
  }

  /** Whatever arrives of what is in the air, a fresh receiver only ever holds a prefix of the message,
      and delivers nothing but the message. */
  ghost predicate SafeAmong(ns: seq<nibble>, air: set<Frame>) {
    forall fs :: From(fs, air) ==> Safe(Run(FRESH, fs), ns)
  }

  /** A nibble is stored that is not the message's. */
  predicate Misleads(f: Frame, ns: seq<nibble>, s: nat) {
    s <= |ns| && f.tag == Tag(ns, s) && if s < |ns| then f.data != ns[s] else !Ended(ns)
  }

  lemma {:induction false} WrongNibbleStored(ns: seq<nibble>, c: Chain, s: nat, f: Frame)
    requires Misleads(f, ns, s) && c.nibbles == ns[..s] && (s == 0 ==> c.stale == 0)
    ensures Step(c, f).nibbles == ns[..s] + [f.data] && !(Step(c, f).nibbles <= ns)
    ensures IsMessage(ns) ==> Unsafe(Run(c, [f]), ns)
  {
    var c' := Step(c, f);
    TagOfPrefix(ns, s);
    assert c'.nibbles[s] == f.data && |c'.nibbles| == s + 1;
    RunStep(c, [f]);
  }

  /** A misleading frame that arrives in the place of frame s is stored, or comes too late after an
      early delivery. */
  lemma {:induction false} MisleadingFrameIsUnsafe(ns: seq<nibble>, s: nat, f: Frame)
    requires IsMessage(ns) && Misleads(f, ns, s)
    ensures Unsafe(Run(FRESH, Ordered(ns, 0, s) + [f]), ns)
  {
    OrderedRun(ns, FRESH, 0, s);
    RunConcat(FRESH, Ordered(ns, 0, s), [f]);
    var o := Run(FRESH, Ordered(ns, 0, s));
    if o.Waiting? {
      WrongNibbleStored(ns, o.c, s, f);
    } else {
      assert ns[..|ns|] == ns;
    }
  }

  lemma {:induction false} MisledAt(f: Frame, ns: seq<nibble>) returns (s: nat)
    requires !Harmless(f, ns)
    ensures Misleads(f, ns, s)
  {
    if !Compatible(f, ns) {
      s :| 0 <= s < |ns| && f.tag == Tag(ns, s) && f.data != ns[s];
    } else {
      s := |ns|;
    }
  }

  /** A run that goes visibly wrong when a prefix ends early or a frame misleads. */
  lemma {:induction false} BreakingRun(ns: seq<nibble>, air: set<Frame>) returns (fs: seq<Frame>)
    requires IsMessage(ns) && FramesOf(ns) <= air
    requires !(NoEarlyEnd(ns) && AllHarmless(air, ns))
    ensures From(fs, air) && Unsafe(Run(FRESH, fs), ns)
    ensures |fs| <= |ns| + 1
  {
    if !NoEarlyEnd(ns) {
      fs := Lossless(ns);
      OrderedRun(ns, FRESH, 0, |ns|);
    } else {
      var f :| f in air && !Harmless(f, ns);
      var s := MisledAt(f, ns);
      fs := Ordered(ns, 0, s) + [f];
      MisleadingFrameIsUnsafe(ns, s, f);
    }
  }

  /** Safety on a lossy channel with foreign traffic, exactly: for any set of frames in the air that
      contains the message's own, every run is safe if and only if no proper prefix of the message
      looks ended and every frame in the air is harmless to it. */
  lemma {:induction false} LossySafetyIff(ns: seq<nibble>, air: set<Frame>)
    requires IsMessage(ns) && FramesOf(ns) <= air
    ensures SafeAmong(ns, air) <==> NoEarlyEnd(ns) && AllHarmless(air, ns)
  {
    if NoEarlyEnd(ns) && AllHarmless(air, ns) {
      forall fs | From(fs, air) ensures Safe(Run(FRESH, fs), ns) {
        SafeRun(ns, FRESH, fs, air);
      }
    } else {
      var fs := BreakingRun(ns, air);
      assert !Safe(Run(FRESH, fs), ns);
    }
  }

  /** The tags of the start frames and of the one behind them. */
  lemma {:induction false} StartTags(ns: seq<nibble>)
    requires |ns| >= 2 && ns[0] == 0x7 && ns[1] == 0xF
    ensures Tag(ns, 0) == 0 && Tag(ns, 1) == 6 && Tag(ns, 2) == 13
  {
    assert Xor(0, 0) == 0 && Xor(7, 1) == 6 && Xor(15, 2) == 13;
  }

  /** Two flags: all tags are different, the one behind them too. */
  lemma {:induction false} TwoFlagsTags(ns: seq<nibble>)
    requires |ns| == 4 && ns[0] == 7 && ns[1] == 15 && ns[2] == 7 && ns[3] == 15
    ensures TagConsistent(ns) && forall t :: 0 <= t < |ns| ==> Tag(ns, t) != Tag(ns, |ns|)
  {
    StartTags(ns);
    assert Tag(ns, 3) == 4 by { assert Xor(7, 3) == 4; }
    assert Tag(ns, 4) == 11 by { assert Xor(15, 4) == 11; }
  }

  /** Of the messages that never end every frame has its own tag, and none the tag behind them. */
  lemma {:induction false} EndlessTags(payload: seq<byte>)
    requires |payload| <= 255 && !(1 <= |payload| <= 253)
    ensures var ns := Sent(payload);
            TagConsistent(ns) && forall t :: 0 <= t < |ns| ==> Tag(ns, t) != Tag(ns, |ns|)
  {
    var ns := Sent(payload);
    if |payload| == 0 {
      TwoFlagsTags(ns);
    } else if |payload| == 254 {
      assert |ns| == 0;
    } else {
      assert |ns| == 2 && ns[0] == 7 && ns[1] == 15;
      StartTags(ns);
    }
  }

  lemma {:induction false} SentFramesHarmless(payload: seq<byte>)
    requires |payload| <= 255
    ensures AllHarmless(FramesOf(Sent(payload)), Sent(payload)) <==> TagConsistent(Sent(payload))
  {
    SentEnds(payload);
    OwnFramesHarmless(Sent(payload));
    if !(1 <= |payload| <= 253) { EndlessTags(payload); }
  }

  /** The channel that loses, repeats and reorders the sent frames but adds none. */
  lemma {:induction false} OwnFramesSafeIff(payload: seq<byte>)
    requires |payload| <= 255
    ensures SafeAmong(Sent(payload), FramesOf(Sent(payload))) <==>
              (|payload| <= 253 ==> NoEarlyFlag(payload)) && TagConsistent(Sent(payload))
  {
    SentEnds(payload);
    LossySafetyIff(Sent(payload), FramesOf(Sent(payload)));
    SentFramesHarmless(payload);
  }

  // ---------- recovery ----------

  function Next(f: Frame, ns: seq<nibble>, t: nat): (t': nat)
    requires t < |ns|
    ensures t' <= |ns|
  {
    if f == FrameOf(ns, t) then t + 1 else t
  }

  /** The frames from t on occur in `fs` in this order, with anything in between. */
  predicate Covers(fs: seq<Frame>, ns: seq<nibble>, t: nat)
    requires t <= |ns|
    decreases |fs|
  {
    t == |ns| || (fs != [] && Covers(fs[1..], ns, Next(fs[0], ns, t)))
  }

  /** The frames of the start byte in succession, then all others in order with anything in between. */
  predicate CompleteRound(fs: seq<Frame>, ns: seq<nibble>) {
    |ns| < 2 || (|fs| >= 2 && fs[0] == FrameOf(ns, 0) && fs[1] == FrameOf(ns, 1) && Covers(fs[2..], ns, 2))
  }

  /** A message that ends and that nothing in the air disturbs. */
  predicate Undisturbed(ns: seq<nibble>, air: set<Frame>) {
    IsMessage(ns) && Ended(ns) && NoEarlyEnd(ns) && AllHarmless(air, ns)
  }

  /** How far a frame takes the receiver: never back once the start byte is complete, and forward
      when it is the frame waited for. */
  lemma {:induction false} FrameProgress(ns: seq<nibble>, c: Chain, f: Frame)
    requires IsMessage(ns) && Good(c, ns) && |ns| >= 2
    ensures |c.nibbles| != 1 ==> |Step(c, f).nibbles| >= |c.nibbles|
    ensures |c.nibbles| < |ns| && f == FrameOf(ns, |c.nibbles|) ==> |Step(c, f).nibbles| == |c.nibbles| + 1
    ensures |c.nibbles| == 1 && f == FrameOf(ns, 0) ==> Step(c, f) == c
  {
    StartTags(ns);
    TagOfPrefix(ns, |c.nibbles|);
  }

  /** One frame of a run, taken by a correct state. */
  lemma {:induction false} FirstStep(ns: seq<nibble>, c: Chain, fs: seq<Frame>, air: set<Frame>) returns (c': Chain)
    requires Undisturbed(ns, air) && Good(c, ns) && fs != [] && From(fs, air)
    ensures c' == Step(c, fs[0]) && (!Fires(c, c') ==> Good(c', ns))
    ensures Fires(c, c') ==> Run(c, fs) == Delivered(ns, fs[1..])
    ensures !Fires(c, c') ==> Run(c, fs) == Run(c', fs[1..])
  {
    c' := Step(c, fs[0]);
    AnyFrameKeepsPrefix(ns, c, fs[0]);
    FiresOnlyWhole(ns, c, c');
    RunStep(c, fs);
  }

  /** A receiver that is ahead of the frames counted off stays ahead. */
  lemma {:induction false} StaysAhead(ns: seq<nibble>, c: Chain, f: Frame, t: nat)
    requires IsMessage(ns) && Good(c, ns) && t < |ns|
    requires |c.nibbles| >= 2 && |c.nibbles| >= t
    ensures |Step(c, f).nibbles| >= 2 && |Step(c, f).nibbles| >= Next(f, ns, t)
  {
    FrameProgress(ns, c, f);
  }

  /** A receiver past the start byte that has at least the first t nibbles gets the whole message
      from any run in which the frames from t on occur in order. */
  lemma {:induction false} CoveringRunDelivers(ns: seq<nibble>, c: Chain, fs: seq<Frame>, t: nat, air: set<Frame>)
    requires Undisturbed(ns, air) && Good(c, ns) && |c.nibbles| >= 2 && |c.nibbles| >= t
    requires t <= |ns| && From(fs, air) && Covers(fs, ns, t)
    ensures Run(c, fs).Delivered?
    decreases |fs|
  {
    assert t < |ns|;
    var c' := FirstStep(ns, c, fs, air);
    if Fires(c, c') {
    } else {
      StaysAhead(ns, c, fs[0], t);
      CoveringRunDelivers(ns, c', fs[1..], Next(fs[0], ns, t), air);
    }
  }

  /** The two start frames bring any correct state past the start byte. */
  lemma {:induction false} StartedRunDelivers(ns: seq<nibble>, c: Chain, fs: seq<Frame>, air: set<Frame>)
    requires Undisturbed(ns, air) && Good(c, ns) && From(fs, air) && CompleteRound(fs, ns)
    ensures Run(c, fs).Delivered?
  {
    FrameProgress(ns, c, fs[0]);
    var c1 := FirstStep(ns, c, fs, air);
    if !Fires(c, c1) {
      assert fs[1..][1..] == fs[2..];
      FrameProgress(ns, c1, fs[1]);
      var c2 := FirstStep(ns, c1, fs[1..], air);
      if !Fires(c1, c2) { CoveringRunDelivers(ns, c2, fs[2..], 2, air); }
    }
  }

  predicate Delivers(ns: seq<nibble>, o: Outcome) {
    o.Delivered? && o.nibbles == ns
  }

  /** Recovery: from whatever state a lossy history has left behind, a complete round of the message's
      frames delivers the message, with any further harmless frames among them. */
  lemma {:induction false} Recovery(ns: seq<nibble>, before: seq<Frame>, round: seq<Frame>, air: set<Frame>)
    requires Undisturbed(ns, air) && From(before, air) && From(round, air) && CompleteRound(round, ns)
    ensures Delivers(ns, Run(FRESH, before + round))
  {
    SafeRun(ns, FRESH, before + round, air);
    RunConcat(FRESH, before, round);
    SafeRun(ns, FRESH, before, air);
    var o := Run(FRESH, before);
    if o.Waiting? { StartedRunDelivers(ns, o.c, round, air); }
  }

  lemma {:induction false} OrderedCovers(ns: seq<nibble>, t: nat)
    requires t <= |ns|
    ensures Covers(Ordered(ns, t, |ns|), ns, t)
    decreases |ns| - t
  {
    if t == |ns| {
    } else {
      assert Ordered(ns, t, |ns|)[1..] == Ordered(ns, t + 1, |ns|);
      OrderedCovers(ns, t + 1);
    }
  }

  /** One round as the sender emits it is complete. */
  lemma {:induction false} LosslessIsCompleteRound(ns: seq<nibble>)
    ensures CompleteRound(Lossless(ns), ns)
    ensures From(Lossless(ns), FramesOf(ns))
  {
    if |ns| >= 2 {
      OrderedCovers(ns, 2);
      assert Lossless(ns)[2..] == Ordered(ns, 2, |ns|);
    }
  }

  // ---------- what recovery needs ----------

  /** A misleading frame behind the start nibble is never made good: no continuation delivers the message. */
  lemma {:induction false} NeverRecovers(ns: seq<nibble>, s: nat, f: Frame, more: seq<Frame>)
    requires 1 <= s < |ns| && Misleads(f, ns, s)
    ensures !Delivers(ns, Run(FRESH, Ordered(ns, 0, s) + [f] + more))
  {
    var o := Run(FRESH, Ordered(ns, 0, s));
    OrderedRun(ns, FRESH, 0, s);
    RunConcat(FRESH, Ordered(ns, 0, s), [f]);
    RunConcat(FRESH, Ordered(ns, 0, s) + [f], more);
    if o.Waiting? {
      WrongNibbleStored(ns, o.c, s, f);
      RunStep(o.c, [f]);
      RunOfAccepted(Step(o.c, f), more);
    }
  }

  /** A false first nibble is kept through the start frame and dropped at the second one, so that the
      two start frames are lost on it. */
  lemma {:induction false} FalseStart(ns: seq<nibble>, f: Frame)
    requires IsMessage(ns) && |ns| >= 2 && Misleads(f, ns, 0)
    ensures !Delivers(ns, Run(FRESH, [f] + Lossless(ns)))
  {
    var d, fs := f.data, Lossless(ns);
    StartTags(ns);
    OrZero(d);
    var c := Step(FRESH, f);
    assert c.nibbles == [d];
    RunConcat(FRESH, [f], fs);
    RunStep(FRESH, [f]);
    assert Run(FRESH, [f] + fs) == Run(c, fs);
    XorOne(d);
    assert Tag(c.nibbles, 1) == Xor(d, 1);
    var c1 := Step(c, fs[0]);
    RunStep(c, fs);
    if d == 1 {
      assert c1.nibbles == [1, 7];
      RunOfAccepted(c1, fs[1..]);
    } else {
      assert c1 == c;
      var c2 := Step(c, fs[1]);
      RunStep(c, fs[1..]);
      assert c2.nibbles == [];
      HeldBound(c2, fs[1..][1..]);
    }
  }

  /** Every complete round delivers, whatever of what is in the air has arrived before it. */
  ghost predicate RecoversAmong(ns: seq<nibble>, air: set<Frame>) {
    forall before, round :: From(before, air) && From(round, air) && CompleteRound(round, ns) ==>
      Delivers(ns, Run(FRESH, before + round))
  }

  /** A history after which the sender's own complete round does not deliver. */
  lemma {:induction false} BreakingHistory(ns: seq<nibble>, air: set<Frame>) returns (before: seq<Frame>)
    requires IsMessage(ns) && FramesOf(ns) <= air && !Undisturbed(ns, air)
    ensures From(before, air) && !Delivers(ns, Run(FRESH, before + Lossless(ns)))
  {
    if !(Ended(ns) && NoEarlyEnd(ns)) {
      before := [];
      LosslessIff(ns);
      assert [] + Lossless(ns) == Lossless(ns);
      if Delivers(ns, Run(FRESH, Lossless(ns))) { OrderedRun(ns, FRESH, 0, |ns|); }
    } else {
      var f :| f in air && !Harmless(f, ns);
      var s := MisledAt(f, ns);
      before := Ordered(ns, 0, s) + [f];
      if s > 0 {
        NeverRecovers(ns, s, f, Lossless(ns));
      } else {
        assert before == [f];
        FalseStart(ns, f);
      }
    }
  }

  /** Recovery, exactly: complete rounds deliver after every history if and only if the message ends, no
      proper prefix of it looks ended, and every frame in the air is harmless to it. */
  lemma {:induction false} RecoveryIff(ns: seq<nibble>, air: set<Frame>)
    requires IsMessage(ns) && FramesOf(ns) <= air
    ensures RecoversAmong(ns, air) <==> Undisturbed(ns, air)
  {
    if Undisturbed(ns, air) {
      forall before, round | From(before, air) && From(round, air) && CompleteRound(round, ns)
        ensures Delivers(ns, Run(FRESH, before + round))
      {
        Recovery(ns, before, round, air);
      }
    } else {
      var before := BreakingHistory(ns, air);
      LosslessIsCompleteRound(ns);
      assert From(Lossless(ns), air);
    }
  }

  /** When only the message's own frames are in the air. */
  lemma {:induction false} OwnFramesRecoverIff(payload: seq<byte>)
    requires |payload| <= 255
    ensures RecoversAmong(Sent(payload), FramesOf(Sent(payload))) <==>
              1 <= |payload| <= 253 && NoEarlyFlag(payload) && TagConsistent(Sent(payload))
  {
    SentEnds(payload);
    RecoveryIff(Sent(payload), FramesOf(Sent(payload)));
    SentFramesHarmless(payload);
  }

  // ---------- what the reset is for ----------

  /** The top bit of the first nibble is set, stored or left behind. */
  predicate High(c: Chain) {
    if c.nibbles == [] then c.stale >= 8 else c.nibbles[0] >= 8
  }

  lemma {:induction false} HighStep(c: Chain, f: Frame)
    requires High(c)
    ensures High(Step(c, f))
  {
    OrSeven(c.stale, f.data);
  }

  lemma {:induction false} HighRun(c: Chain, fs: seq<Frame>)
    requires High(c)
    ensures Run(c, fs).Delivered? ==> Run(c, fs).nibbles != [] && Run(c, fs).nibbles[0] >= 8
    decreases |fs|
  {
    if fs == [] {
    } else {
      var c' := Step(c, fs[0]);
      HighStep(c, fs[0]);
      RunStep(c, fs);
      if !Fires(c, c') { HighRun(c', fs[1..]); }
    }
  }

  /** The receiver in front of a message's frames, holding a nibble d in place of the first one: the
      state behind the two start frames. */
  lemma {:induction false} AfterStart(ns: seq<nibble>, d: nibble) returns (c: Chain)
    requires IsMessage(ns) && |ns| >= 2 && d != 7
    ensures Run(Chain([d], 0), Lossless(ns)[..2]) == Waiting(c)
    ensures d == 1 ==> |c.nibbles| >= 2 && c.nibbles[0] == 1
    ensures d != 1 ==> c == Chain([], d)
  {
    var c0, f0, f1 := Chain([d], 0), FrameOf(ns, 0), FrameOf(ns, 1);
    var fs := Lossless(ns)[..2];
    StartTags(ns);
    XorOne(d);
    assert Tag(c0.nibbles, 1) == Xor(d, 1);
    assert fs == [f0, f1] && fs[1..] == [f1] && fs[1..][1..] == [];
    RunStep(c0, fs);
    RunStep(Step(c0, f0), fs[1..]);
    c := Step(Step(c0, f0), f1);
  }

  lemma {:induction false} FalseFirst(d: nibble, rest: seq<Frame>)
    ensures Run(FRESH, [Frame(0, d)] + rest) == Run(Chain([d], 0), rest)
  {
    var f := Frame(0, d);
    assert Tag([], 0) == 0 by { assert Xor(0, 0) == 0; }
    OrZero(d);
    assert ([f] + rest)[1..] == rest;
    RunStep(FRESH, [f] + rest);
  }

  lemma {:induction false} RoundFrom(ns: seq<nibble>, c: Chain, round: seq<Frame>, air: set<Frame>)
    requires Undisturbed(ns, air) && Good(c, ns) && From(round, air) && CompleteRound(round, ns)
    ensures forall more :: Delivers(ns, Run(c, round + more))
  {
    StartedRunDelivers(ns, c, round, air);
    SafeRun(ns, c, round, air);
    forall more ensures Delivers(ns, Run(c, round + more)) {
      RunConcat(c, round, more);
    }
  }

  lemma {:induction false} RoundAfter(ns: seq<nibble>, c: Chain, before: seq<Frame>, round: seq<Frame>, air: set<Frame>)
    requires Undisturbed(ns, air) && Good(c, ns) && From(before, air) && From(round, air) && CompleteRound(round, ns)
    ensures Delivers(ns, Run(c, before + round))
  {
    SafeRun(ns, c, before, air);
    RunConcat(c, before, round);
    var o := Run(c, before);
    if o.Waiting? {
      RoundFrom(ns, o.c, round, air);
      assert round + [] == round;
    }
  }

  /** The reset leaves a nibble below 8 to be or-ed onto, and the second round is complete. */
  lemma {:induction false} SecondRound(ns: seq<nibble>, c: Chain)
    requires Undisturbed(ns, FramesOf(ns)) && c.nibbles == [] && c.stale < 8
    ensures Delivers(ns, Run(c, Lossless(ns)[2..] + Lossless(ns)))
  {
    LosslessIsCompleteRound(ns);
    RoundAfter(ns, c, Lossless(ns)[2..], Lossless(ns), FramesOf(ns));
  }

  /** Two rounds from the state with the nibble 7, which is the right one. */
  lemma {:induction false} TwoRoundsRight(ns: seq<nibble>)
    requires Undisturbed(ns, FramesOf(ns))
    ensures Delivers(ns, Run(Chain([7], 0), Lossless(ns) + Lossless(ns)))
  {
    LosslessIsCompleteRound(ns);
    assert ns[..1] == [7];
    RoundFrom(ns, Chain([7], 0), Lossless(ns), FramesOf(ns));
  }

  lemma {:induction false} SplitRound(round: seq<Frame>)
    requires |round| >= 2
    ensures round + round == round[..2] + (round[2..] + round)
  {
  }

  lemma {:induction false} BehindStart(ns: seq<nibble>, d: nibble) returns (c: Chain)
    requires IsMessage(ns) && |ns| >= 2 && d != 7
    ensures Run(Chain([d], 0), Lossless(ns) + Lossless(ns)) == Run(c, Lossless(ns)[2..] + Lossless(ns))
    ensures d == 1 ==> |c.nibbles| >= 2 && c.nibbles[0] == 1
    ensures d != 1 ==> c == Chain([], d)
  {
    c := AfterStart(ns, d);
    SplitRound(Lossless(ns));
    RunConcat(Chain([d], 0), Lossless(ns)[..2], Lossless(ns)[2..] + Lossless(ns));
  }

  /** Two rounds from the state with any other nibble. */
  lemma {:induction false} TwoRoundsFalse(ns: seq<nibble>, d: nibble)
    requires Undisturbed(ns, FramesOf(ns)) && d != 7
    ensures Delivers(ns, Run(Chain([d], 0), Lossless(ns) + Lossless(ns))) <==> d < 8 && d != 1
  {
    var rest := Lossless(ns)[2..] + Lossless(ns);
    var c := BehindStart(ns, d);
    if d == 1 {
      RunOfAccepted(c, rest);
    } else if d >= 8 {
      HighRun(c, rest);
    } else {
      SecondRound(ns, c);
    }
  }

  /** A frame that brings a false first nibble d, and two rounds of the message: the second one is
      delivered exactly when no bit of d is in the way of the 7, but for the 1, which the first start
      frame follows. */
  lemma {:induction false} ResetIff(ns: seq<nibble>, d: nibble)
    requires Undisturbed(ns, FramesOf(ns))
    ensures Delivers(ns, Run(FRESH, [Frame(0, d)] + Lossless(ns) + Lossless(ns))) <==> d < 8 && d != 1
  {
    var rounds := Lossless(ns) + Lossless(ns);
    assert [Frame(0, d)] + Lossless(ns) + Lossless(ns) == [Frame(0, d)] + rounds;
    FalseFirst(d, rounds);
    if d == 7 { TwoRoundsRight(ns); } else { TwoRoundsFalse(ns, d); }
  }

  // ---------- messages that are safe and messages that are not ----------

  lemma {:induction false} ZeroByteTags(ns: seq<nibble>)
    requires |ns| == 6 && ns[0] == 7 && ns[1] == 15 && ns[2] == 0 && ns[3] == 0 && ns[4] == 7 && ns[5] == 15
    ensures TagConsistent(ns)
  {
    StartTags(ns);
    assert Tag(ns, 3) == 3 by { assert Xor(0, 3) == 3; }
    assert Tag(ns, 4) == 4 by { assert Xor(0, 4) == 4; }
    assert Tag(ns, 5) == 2 by { assert Xor(7, 5) == 2; }
  }

  /** The payload of one zero byte is safe and recovers: its tags are 0, 6, 13, 3, 4 and 2. */
  lemma {:induction false} ZeroByteIsSafe()
    ensures NoEarlyFlag([0]) && TagConsistent(Sent([0]))
    ensures SafeAmong(Sent([0]), FramesOf(Sent([0]))) && RecoversAmong(Sent([0]), FramesOf(Sent([0])))
  {
    SentWhole([0]);
    ZeroByteTags(Stream([0]));
    OwnFramesSafeIff([0]);
    OwnFramesRecoverIff([0]);
  }

  lemma {:induction false} TwinXor(n: nat, k: nat)
    ensures Xor(2 * n + 1, 2 * k) == Xor(2 * n, 2 * k + 1)
  {
    XorDouble(n, k, true, false);
    XorDouble(n, k, false, true);
  }

  /** A high nibble one below the low nibble in front of it shares its tag with the low nibble behind it. */
  lemma {:induction false} TwinTags(ns: seq<nibble>, t: nat)
    requires 0 < t < |ns| && t % 2 == 0 && ns[t] % 2 == 0 && ns[t - 1] == ns[t] + 1
    ensures Tag(ns, t) == Tag(ns, t + 1)
  {
    var n, k := ns[t] / 2, t / 2 % 128;
    ModDouble(t, 128);
    assert t % 256 == 2 * k;
    ModUnique(t + 1, 256, t / 256, 2 * k + 1);
    TwinXor(n, k);
  }

  /** With frame t lost, frame t+1 then passes for it: its nibble is stored, and no later frames make it good. */
  lemma {:induction false} TwinsNotSafe(payload: seq<byte>, t: nat, more: seq<Frame>)
    requires 0 < t < |Stream(payload)| - 1 && t % 2 == 0
    requires Stream(payload)[t] % 2 == 0 && Stream(payload)[t - 1] == Stream(payload)[t] + 1
    requires Stream(payload)[t] != Stream(payload)[t + 1]
    ensures var ns := Stream(payload);
            && Unsafe(Run(FRESH, Ordered(ns, 0, t) + [FrameOf(ns, t + 1)]), ns)
            && !Delivers(ns, Run(FRESH, Ordered(ns, 0, t) + [FrameOf(ns, t + 1)] + more))
    ensures !SafeAmong(Stream(payload), FramesOf(Stream(payload)))
  {
    var ns := Stream(payload);
    TwinTags(ns, t);
    assert !TagConsistent(ns);
    StreamEnds(payload);
    OwnFramesHarmless(ns);
    LossySafetyIff(ns, FramesOf(ns));
    MisleadingFrameIsUnsafe(ns, t, FrameOf(ns, t + 1));
    NeverRecovers(ns, t, FrameOf(ns, t + 1), more);
  }

  /** The two letters "ga" are such a payload, with frame 4 lost. */
  lemma {:induction false} LettersNotSafe(more: seq<Frame>)
    ensures var ns := Stream([0x67, 0x61]);
            && Unsafe(Run(FRESH, Ordered(ns, 0, 4) + [FrameOf(ns, 5)]), ns)
            && !Delivers(ns, Run(FRESH, Ordered(ns, 0, 4) + [FrameOf(ns, 5)] + more))
            && !SafeAmong(ns, FramesOf(ns))
  {
    var ns := Stream([0x67, 0x61]);
    assert ns[3] == 7 && ns[4] == 6 && ns[5] == 1;
    TwinsNotSafe([0x67, 0x61], 4, more);
  }
}
