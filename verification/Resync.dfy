/** Recovery on the bytes: after which histories a complete round of a message's datagrams calls back with
    the payload. The callback does not show the start flag, so one kind of frame that spoils it is excused. */
module Resync {
  import opened Bits
  import opened Message
  import opened Chain
  import opened Receiver
  import opened Ring
  import opened Transfer

  // ---------- frames that do no lasting harm ----------

  /** A nibble 2 for the second start nibble: the receiver then awaits the tag of the first start frame,
      whose nibble 7 passes for the third nibble where that is a 7. */
  predicate Excused(f: Frame, ns: seq<nibble>, s: nat) {
    s == 1 && f.data == 2 && |ns| > 2 && ns[2] == 0x7
  }

  /** Wherever the frame would be accepted it carries the right nibble or is excused. */
  predicate Tolerable(f: Frame, ns: seq<nibble>) {
    forall s :: 0 <= s < |ns| && f.tag == Tag(ns, s) ==> f.data == ns[s] || Excused(f, ns, s)
  }

  predicate AllTolerable(air: set<Frame>, ns: seq<nibble>) {
    forall f :: f in air ==> Tolerable(f, ns)
  }

  /** A message that ends and that nothing in the air spoils for good. */
  predicate Unspoiled(ns: seq<nibble>, air: set<Frame>) {
    IsMessage(ns) && Ended(ns) && NoEarlyEnd(ns) && AllTolerable(air, ns)
  }

  /** At most the first start nibble is held. */
  predicate Early(c: Chain) {
    c.nibbles == [0x7] || (c.nibbles == [] && c.stale < 8)
  }

  /** All that is held behind the start flag is right, and the next nibble can be. */
  predicate Late(c: Chain, ns: seq<nibble>) {
    && 2 <= |c.nibbles| <= |ns| && (forall j :: 2 <= j < |c.nibbles| ==> c.nibbles[j] == ns[j])
    && (|c.nibbles| == 2 && |ns| > 2 ==> c.nibbles[1] == 0xF || (c.nibbles[1] == 2 && ns[2] == 0x7))
  }

  predicate Plausible(c: Chain, ns: seq<nibble>) {
    Early(c) || (Late(c, ns) && |c.nibbles| < |ns|)
  }

  /** The frame that is awaited is the message's next one. */
  predicate Past(c: Chain, ns: seq<nibble>) {
    Late(c, ns) && (|c.nibbles| == 2 ==> c.nibbles[1] == 0xF)
  }

  lemma {:induction false} PastTag(ns: seq<nibble>, c: Chain)
    requires IsMessage(ns) && Past(c, ns)
    ensures Tag(c.nibbles, |c.nibbles|) == Tag(ns, |c.nibbles|)
  {
  }

  /** What is accepted behind the start flag is right, from the state with the false 2 too. */
  lemma {:induction false} LateAccepts(ns: seq<nibble>, c: Chain, f: Frame)
    requires IsMessage(ns) && Late(c, ns) && |c.nibbles| < |ns| && Tolerable(f, ns) && Accepts(c, f)
    ensures f.data == ns[|c.nibbles|]
  {
    if Past(c, ns) {
      PastTag(ns, c);
    } else {
      StartTags(ns);
      assert Tag(c.nibbles, 2) == 0 by { assert Xor(2, 2) == 0; }
    }
  }

  lemma {:induction false} LateAppend(ns: seq<nibble>, c: Chain, c': Chain)
    requires Late(c, ns) && |c.nibbles| < |ns| && c'.nibbles == c.nibbles + [ns[|c.nibbles|]]
    ensures Late(c', ns) && Past(c', ns)
  {
  }

  lemma {:induction false} LateStep(ns: seq<nibble>, c: Chain, f: Frame)
    requires IsMessage(ns) && Late(c, ns) && |c.nibbles| < |ns| && Tolerable(f, ns)
    ensures Late(Step(c, f), ns) && |Step(c, f).nibbles| >= |c.nibbles|
    ensures Past(c, ns) || |Step(c, f).nibbles| > 2 ==> Past(Step(c, f), ns)
  {
    if Accepts(c, f) {
      LateAccepts(ns, c, f);
      LateAppend(ns, c, Step(c, f));
    } else {
      assert Step(c, f) == c;
    }
  }

  lemma {:induction false} EarlyStep(ns: seq<nibble>, c: Chain, f: Frame)
    requires IsMessage(ns) && |ns| > 2 && Early(c) && Tolerable(f, ns)
    ensures Early(Step(c, f)) || Late(Step(c, f), ns)
  {
    StartTags(ns);
    OrSeven(c.stale, 7);
    if c.nibbles == [] {
      assert Tag(c.nibbles, 0) == 0 by { assert Xor(0, 0) == 0; }
    } else {
      assert Tag(c.nibbles, 1) == 6 by { assert Xor(7, 1) == 6; }
    }
  }

  /** A plausible state fires exactly when it holds as many nibbles as the message. */
  lemma {:induction false} PlausibleFires(ns: seq<nibble>, c: Chain, c': Chain)
    requires Ended(ns) && NoEarlyEnd(ns) && Plausible(c, ns) && (Early(c') || Late(c', ns))
    ensures Fires(c, c') <==> |c'.nibbles| == |ns|
    ensures Fires(c, c') ==> Late(c', ns)
    ensures !Fires(c, c') ==> Plausible(c', ns)
  {
    var k := |c'.nibbles|;
    if 6 <= k < |ns| { assert !Ended(ns[..k]); }
  }

  /** One frame of a run, taken by a plausible state. */
  lemma {:induction false} PlausibleStep(ns: seq<nibble>, c: Chain, fs: seq<Frame>, air: set<Frame>) returns (c': Chain)
    requires Unspoiled(ns, air) && Plausible(c, ns) && fs != [] && From(fs, air)
    ensures c' == Step(c, fs[0]) && (!Fires(c, c') ==> Plausible(c', ns))
    ensures Fires(c, c') ==> Late(c', ns) && |c'.nibbles| == |ns| && Run(c, fs) == Delivered(c'.nibbles, fs[1..])
    ensures !Fires(c, c') ==> Run(c, fs) == Run(c', fs[1..])
  {
    c' := Step(c, fs[0]);
    if Early(c) { EarlyStep(ns, c, fs[0]); } else { LateStep(ns, c, fs[0]); }
    PlausibleFires(ns, c, c');
    RunStep(c, fs);
  }

  /** What a run over tolerable frames leads to: a plausible state, or as many nibbles as the message
      has, right behind the start flag. */
  predicate Told(o: Outcome, ns: seq<nibble>) {
    match o
    case Waiting(c) => Plausible(c, ns)
    case Delivered(got, _) => |got| == |ns| && forall j :: 2 <= j < |ns| ==> got[j] == ns[j]
  }

  lemma {:induction false} PlausibleRun(ns: seq<nibble>, c: Chain, fs: seq<Frame>, air: set<Frame>)
    requires Unspoiled(ns, air) && Plausible(c, ns) && From(fs, air)
    ensures Told(Run(c, fs), ns)
    decreases |fs|
  {
    if fs == [] {
    } else {
      var c' := PlausibleStep(ns, c, fs, air);
      if !Fires(c, c') { PlausibleRun(ns, c', fs[1..], air); }
    }
  }

  // ---------- complete rounds ----------

  lemma {:induction false} PastAccepts(ns: seq<nibble>, c: Chain)
    requires IsMessage(ns) && Past(c, ns) && |c.nibbles| < |ns|
    ensures |Step(c, FrameOf(ns, |c.nibbles|)).nibbles| == |c.nibbles| + 1
  {
    PastTag(ns, c);
  }

  /** A receiver that is ahead of the frames counted off stays ahead. */
  lemma {:induction false} PastAhead(ns: seq<nibble>, c: Chain, f: Frame, t: nat)
    requires IsMessage(ns) && Past(c, ns) && t <= |c.nibbles| < |ns| && Tolerable(f, ns)
    ensures Past(Step(c, f), ns) && |Step(c, f).nibbles| >= Next(f, ns, t)
  {
    LateStep(ns, c, f);
    if f == FrameOf(ns, t) && t == |c.nibbles| { PastAccepts(ns, c); }
  }

  /** Past the start flag any run delivers in which the frames from t on occur in order. */
  lemma {:induction false} PastRunDelivers(ns: seq<nibble>, c: Chain, fs: seq<Frame>, t: nat, air: set<Frame>)
    requires Unspoiled(ns, air) && Past(c, ns) && t <= |c.nibbles| < |ns|
    requires From(fs, air) && Covers(fs, ns, t)
    ensures Run(c, fs).Delivered?
    decreases |fs|
  {
    assert t < |ns|;
    var c' := PlausibleStep(ns, c, fs, air);
    if Fires(c, c') {
    } else {
      PastAhead(ns, c, fs[0], t);
      PastRunDelivers(ns, c', fs[1..], Next(fs[0], ns, t), air);
    }
  }

  /** The first start frame brings any plausible state to its nibble or past the start flag. */
  lemma {:induction false} FirstStart(ns: seq<nibble>, c: Chain)
    requires IsMessage(ns) && |ns| > 2 && Plausible(c, ns) && Tolerable(FrameOf(ns, 0), ns)
    ensures Step(c, FrameOf(ns, 0)).nibbles == [0x7] || Past(Step(c, FrameOf(ns, 0)), ns)
  {
    StartTags(ns);
    OrSeven(c.stale, 7);
    if Early(c) {
      assert Xor(0, 0) == 0 && Xor(7, 1) == 6;
    } else {
      LateStep(ns, c, FrameOf(ns, 0));
      assert Xor(2, 2) == 0;
    }
  }

  lemma {:induction false} SecondStart(ns: seq<nibble>, c: Chain)
    requires IsMessage(ns) && |ns| > 2 && c.nibbles == [0x7]
    ensures Past(Step(c, FrameOf(ns, 1)), ns)
  {
    StartTags(ns);
    assert Xor(7, 1) == 6;
  }

  /** A complete round delivers from any plausible state. */
  lemma {:induction false} RoundDelivers(ns: seq<nibble>, c: Chain, fs: seq<Frame>, air: set<Frame>)
    requires Unspoiled(ns, air) && Plausible(c, ns) && From(fs, air) && CompleteRound(fs, ns)
    ensures Run(c, fs).Delivered?
  {
    assert fs[0] in air && fs[1] in air;
    FirstStart(ns, c);
    var c1 := PlausibleStep(ns, c, fs, air);
    if !Fires(c, c1) {
      var rest := fs[1..];
      assert rest[0] == fs[1] && rest[1..] == fs[2..];
      var c2 := PlausibleStep(ns, c1, rest, air);
      if !Fires(c1, c2) {
        if c1.nibbles == [0x7] { SecondStart(ns, c1); } else { LateStep(ns, c1, fs[1]); }
        PastRunDelivers(ns, c2, fs[2..], 2, air);
      }
    }
  }

  // ---------- histories that spoil a round ----------

  /** After `front` the rest is too short to complete a message, or begins with a frame whose wrong nibble
      is stored behind the start flag. */
  predicate Doomed(ns: seq<nibble>, front: seq<Frame>, rest: seq<Frame>) {
    var o := Run(FRESH, front);
    && o.Waiting?
    && (|o.c.nibbles| + |rest| < |ns| || (
        && 2 <= |o.c.nibbles| < |ns| && 0 < |rest| <= |ns| + 1
        && Accepts(o.c, rest[0]) && rest[0].data != ns[|o.c.nibbles|]))
  }

  /** A lossless round behind `before` is doomed from the k-th frame on, counted from the start. */
  predicate Dooms(ns: seq<nibble>, before: seq<Frame>, k: nat) {
    var all := before + Lossless(ns);
    k <= |all| && Doomed(ns, all[..k], all[k..])
  }

  lemma {:induction false} DoomedStored(ns: seq<nibble>, before: seq<Frame>, k: nat, c: Chain)
    requires |before| <= k + 1 && k < |before| + |ns|
    requires var all := before + Lossless(ns);
             && Run(FRESH, all[..k]) == Waiting(c) && 2 <= |c.nibbles| < |ns|
             && Accepts(c, all[k]) && all[k].data != ns[|c.nibbles|]
    ensures Dooms(ns, before, k)
  {
  }

  lemma {:induction false} DoomedShort(ns: seq<nibble>, before: seq<Frame>, k: nat, c: Chain)
    requires |c.nibbles| + |before| < k <= |before| + |ns|
    requires Run(FRESH, (before + Lossless(ns))[..k]) == Waiting(c)
    ensures Dooms(ns, before, k)
  {
  }

  /** The three frames of a lossless round that come first. */
  lemma {:induction false} StartOf(ns: seq<nibble>, before: seq<Frame>)
    requires |ns| >= 6
    ensures var all, n := before + Lossless(ns), |before|;
            && |all| == n + |ns| && all[..n] == before
            && all[n] == FrameOf(ns, 0) && all[n + 1] == FrameOf(ns, 1) && all[n + 2] == FrameOf(ns, 2)
            && all[..n + 1] == before + [all[n]] && all[..n + 2] == before + [all[n]] + [all[n + 1]]
            && all[..n + 3] == before + [all[n]] + [all[n + 1]] + [all[n + 2]]
  {
  }

  lemma {:induction false} RunSnoc(fs: seq<Frame>, f: Frame, c: Chain, c': Chain)
    requires Run(FRESH, fs) == Waiting(c) && c' == Step(c, f) && |c'.nibbles| < 6
    ensures Run(FRESH, fs + [f]) == Waiting(c')
  {
    RunConcat(FRESH, fs, [f]);
    RunStep(c, [f]);
  }

  /** A frame that is not awaited behind the start flag leaves no trace. */
  lemma {:induction false} Ignored(fs: seq<Frame>, f: Frame, c: Chain)
    requires Run(FRESH, fs) == Waiting(c) && |c.nibbles| == 2 && !Accepts(c, f)
    ensures Run(FRESH, fs + [f]) == Waiting(c)
  {
    RunSnoc(fs, f, c, c);
  }

  /** A state that awaits none of them ignores all three. */
  lemma {:induction false} IgnoredStart(ns: seq<nibble>, before: seq<Frame>, c: Chain)
    requires |ns| >= 6 && Run(FRESH, before) == Waiting(c) && |c.nibbles| == 2
    requires Tag(ns, 0) != Tag(c.nibbles, 2) && Tag(ns, 1) != Tag(c.nibbles, 2) && Tag(ns, 2) != Tag(c.nibbles, 2)
    ensures Run(FRESH, (before + Lossless(ns))[..|before| + 3]) == Waiting(c)
  {
    var f0, f1, f2 := FrameOf(ns, 0), FrameOf(ns, 1), FrameOf(ns, 2);
    StartOf(ns, before);
    Ignored(before, f0, c);
    Ignored(before + [f0], f1, c);
    Ignored(before + [f0] + [f1], f2, c);
  }

  lemma {:induction false} XorTwo(d: nibble)
    ensures Xor(d, 2) == if d / 2 % 2 == 1 then d - 2 else d + 2
  {
    var h, odd := Halves(d);
    XorOne(h);
    XorDouble(h, 1, odd, false);
  }

  /** The receiver after the first start frame and a false second one. */
  lemma {:induction false} FalseSecond(ns: seq<nibble>, f: Frame) returns (c: Chain)
    requires IsMessage(ns) && |ns| >= 2 && f.tag == Tag(ns, 1)
    ensures c.nibbles == [0x7, f.data] && Run(FRESH, [FrameOf(ns, 0), f]) == Waiting(c)
    ensures Tag(c.nibbles, 2) == if f.data / 2 % 2 == 1 then f.data - 2 else f.data + 2
    ensures Tag(ns, 0) == 0 && Tag(ns, 1) == 6 && Tag(ns, 2) == 13
  {
    StartTags(ns);
    XorTwo(f.data);
    var c1 := Step(FRESH, FrameOf(ns, 0));
    c := Step(c1, f);
    assert c1.nibbles == [0x7] by { OrZero(7); }
    assert Tag(c1.nibbles, 1) == 6 by { assert Xor(7, 1) == 6; }
    assert Run(FRESH, []) == Waiting(FRESH);
    RunSnoc([], FrameOf(ns, 0), FRESH, c1);
    RunSnoc([FrameOf(ns, 0)], f, c1, c);
    assert [] + [FrameOf(ns, 0)] == [FrameOf(ns, 0)];
    assert [FrameOf(ns, 0)] + [f] == [FrameOf(ns, 0), f];
  }

  /** A false second start nibble 4 awaits its own frame's tag a second time. */
  lemma {:induction false} DoomedByAgain(ns: seq<nibble>, f: Frame)
    requires IsMessage(ns) && |ns| >= 6 && f.tag == Tag(ns, 1) && f.data == 4 && ns[2] != 4
    ensures Dooms(ns, [FrameOf(ns, 0), f, f], 2)
  {
    var c := FalseSecond(ns, f);
    var before := [FrameOf(ns, 0), f, f];
    assert (before + Lossless(ns))[..2] == [FrameOf(ns, 0), f] && (before + Lossless(ns))[2] == f;
    DoomedStored(ns, before, 2, c);
  }

  /** And then takes the right second start frame for the third one. */
  lemma {:induction false} DoomedBySecond(ns: seq<nibble>, f: Frame)
    requires IsMessage(ns) && |ns| >= 6 && f.tag == Tag(ns, 1) && f.data == 4 && ns[2] == 4
    ensures Dooms(ns, [FrameOf(ns, 0), f], 3)
  {
    var c := FalseSecond(ns, f);
    var before := [FrameOf(ns, 0), f];
    StartOf(ns, before);
    Ignored(before, FrameOf(ns, 0), c);
    DoomedStored(ns, before, 3, c);
  }

  /** A false 2 takes the first start frame for the third one. */
  lemma {:induction false} DoomedByFirst(ns: seq<nibble>, f: Frame)
    requires IsMessage(ns) && |ns| >= 6 && f.tag == Tag(ns, 1) && f.data == 2 && ns[2] != 0x7
    ensures Dooms(ns, [FrameOf(ns, 0), f], 2)
  {
    var c := FalseSecond(ns, f);
    var before := [FrameOf(ns, 0), f];
    StartOf(ns, before);
    DoomedStored(ns, before, 2, c);
  }

  /** Any other awaits no start frame's tag and ignores too much of the round. */
  lemma {:induction false} DoomedByOther(ns: seq<nibble>, f: Frame)
    requires IsMessage(ns) && |ns| >= 6 && f.tag == Tag(ns, 1) && f.data != 0xF && f.data != 2 && f.data != 4
    ensures Dooms(ns, [FrameOf(ns, 0), f], 5)
  {
    var c := FalseSecond(ns, f);
    var before := [FrameOf(ns, 0), f];
    IgnoredStart(ns, before, c);
    DoomedShort(ns, before, 5, c);
  }

  /** A misleading second start frame, but for the excused one. */
  lemma {:induction false} DoomedSecond(ns: seq<nibble>, f: Frame) returns (before: seq<Frame>, k: nat)
    requires IsMessage(ns) && |ns| >= 6 && f.tag == Tag(ns, 1) && f.data != 0xF && !Excused(f, ns, 1)
    ensures forall i :: 0 <= i < |before| ==> before[i] == f || before[i] == FrameOf(ns, 0)
    ensures Dooms(ns, before, k)
  {
    before := [FrameOf(ns, 0), f];
    if f.data == 4 && ns[2] != 4 {
      before, k := [FrameOf(ns, 0), f, f], 2;
      DoomedByAgain(ns, f);
    } else if f.data == 4 {
      k := 3;
      DoomedBySecond(ns, f);
    } else if f.data == 2 {
      k := 2;
      DoomedByFirst(ns, f);
    } else {
      k := 5;
      DoomedByOther(ns, f);
    }
  }

  /** A misleading first start frame: the 1 is followed by the right 7 and stays, all others are dropped
      by the second start frame. */
  lemma {:induction false} DoomedFirst(ns: seq<nibble>, f: Frame) returns (k: nat)
    requires IsMessage(ns) && |ns| >= 6 && f.tag == Tag(ns, 0) && f.data != 0x7
    ensures Dooms(ns, [f], k)
  {
    var d, f0, f1, f2 := f.data, FrameOf(ns, 0), FrameOf(ns, 1), FrameOf(ns, 2);
    var c := Step(FRESH, f);
    StartTags(ns);
    StartOf(ns, [f]);
    OrZero(d);
    XorOne(d);
    assert c.nibbles == [d] && Tag(c.nibbles, 1) == Xor(d, 1);
    RunSnoc([], f, FRESH, c);
    assert [] + [f] == [f];
    var c1 := Step(c, f0);
    RunSnoc([f], f0, c, c1);
    if d == 1 {
      k := 4;
      assert c1.nibbles == [1, 7] && Tag(c1.nibbles, 2) == 5 by { assert Xor(7, 2) == 5; }
      Ignored([f] + [f0], f1, c1);
      Ignored([f] + [f0] + [f1], f2, c1);
      DoomedShort(ns, [f], 4, c1);
    } else {
      k := 3;
      assert c1 == c;
      RunSnoc([f] + [f0], f1, c, Step(c, f1));
      assert Step(c, f1).nibbles == [];
      DoomedShort(ns, [f], 3, Step(c, f1));
    }
  }

  /** Behind the start flag the misleading frame stands in place of frame s. */
  lemma {:induction false} DoomedLate(ns: seq<nibble>, s: nat, f: Frame)
    requires NoEarlyEnd(ns) && 2 <= s < |ns| && f.tag == Tag(ns, s) && f.data != ns[s]
    ensures Dooms(ns, Ordered(ns, 0, s) + [f], s)
  {
    var all := Ordered(ns, 0, s) + [f] + Lossless(ns);
    OrderedRun(ns, FRESH, 0, s);
    TagOfPrefix(ns, s);
    assert all[..s] == Ordered(ns, 0, s) && all[s] == f;
    DoomedStored(ns, Ordered(ns, 0, s) + [f], s, Run(FRESH, all[..s]).c);
  }

  /** Whatever frame in the air is not tolerable, some history dooms the lossless round. */
  lemma {:induction false} DoomedHistory(ns: seq<nibble>, air: set<Frame>) returns (before: seq<Frame>, k: nat)
    requires IsMessage(ns) && |ns| >= 6 && NoEarlyEnd(ns) && FramesOf(ns) <= air && !AllTolerable(air, ns)
    ensures From(before, air) && Dooms(ns, before, k)
  {
    var f :| f in air && !Tolerable(f, ns);
    var s :| 0 <= s < |ns| && f.tag == Tag(ns, s) && f.data != ns[s] && !Excused(f, ns, s);
    assert FrameOf(ns, 0) in FramesOf(ns);
    if s == 0 {
      before := [f];
      k := DoomedFirst(ns, f);
    } else if s == 1 {
      before, k := DoomedSecond(ns, f);
    } else {
      before, k := Ordered(ns, 0, s) + [f], s;
      DoomedLate(ns, s, f);
      assert forall t :: 0 <= t < s ==> before[t] == FrameOf(ns, t) && FrameOf(ns, t) in FramesOf(ns);
    }
  }

  // ---------- on the bytes ----------

  /** The first callback brings the payload, whatever the address. */
  predicate Brings(rx: RxOutcome, payload: seq<byte>) {
    rx.CalledBack? && rx.d.data == payload + [0, 0] && rx.d.len == |payload| + 2
  }

  lemma {:induction false} RunRxConcat(st: State, a: seq<Capture>, b: seq<Capture>)
    requires st.Valid()
    ensures RunRx(st, a).Listening? ==> RunRx(st, a).st.Valid() && RunRx(st, a + b) == RunRx(RunRx(st, a).st, b)
    decreases |a|
  {
    if a == [] {
      assert a + b == b;
    } else {
      var r := Decode(st, a[0].sendlen, a[0].saddr);
      assert (a + b)[0] == a[0] && (a + b)[1..] == a[1..] + b;
      if r.calls == [] { RunRxConcat(r.state, a[1..], b); }
    }
  }

  lemma {:induction false} AddedPlace(r: Ring, data: nibble)
    requires r.Valid()
    ensures Added(r, data).at == if r.at == MAX_NIBBLES then 0 else r.at + 1
  {
  }

  lemma {:induction false} ClosedPlace(r: Ring, saddr: seq<byte>)
    requires r.Valid()
    ensures Closed(r, saddr).ring.at == r.at
    ensures Closed(r, saddr).calls != [] ==> 6 <= r.at && Closed(r, saddr).calls[0].len == r.at / 2
  {
  }

  lemma {:induction false} RingAdvance(r: Ring, f: Frame, saddr: seq<byte>)
    requires r.Valid()
    ensures var g := RingStep(r, f, saddr);
            && g.ring.at <= r.at + 1
            && (g.calls != [] ==> 3 <= g.calls[0].len && 2 * g.calls[0].len <= r.at + 1)
  {
    if Awaits(r, f.tag) {
      AddedPlace(r, f.data);
      ClosedPlace(Added(r, f.data), saddr);
    } else {
      assert Dropped(r, f.data).at <= r.at;
    }
  }

  /** At the last place a nibble wraps the ring silently. */
  lemma {:induction false} RingWrap(r: Ring, f: Frame, saddr: seq<byte>)
    requires r.Valid() && r.at == MAX_NIBBLES && Awaits(r, f.tag)
    ensures RingStep(r, f, saddr).calls == [] && RingStep(r, f, saddr).ring.at == 0
  {
    AddedPlace(r, f.data);
    ClosedPlace(Added(r, f.data), saddr);
  }

  /** A callback of n bytes takes n bytes' worth of captures, counted from the write head. */
  lemma {:induction false} CallNeeds(st: State, caps: seq<Capture>)
    requires InStep(st)
    ensures var rx := RunRx(st, caps);
            rx.CalledBack? ==> 3 <= rx.d.len && 2 * rx.d.len <= Place(st) + |caps|
    decreases |caps|
  {
    if caps == [] {
    } else {
      var r := Decode(st, caps[0].sendlen, caps[0].saddr);
      StepRefines(st, caps[0].sendlen, caps[0].saddr);
      RingAdvance(RingOf(st), FrameIn(caps[0].sendlen), caps[0].saddr);
      if r.calls == [] { CallNeeds(r.state, caps[1..]); }
    }
  }

  /** A delivery with a wrong nibble behind the start flag is not the payload's. */
  lemma {:induction false} WrongDelivery(got: seq<nibble>, payload: seq<byte>, t: nat, mac: seq<byte>)
    requires 1 <= |payload| && Ended(got) && 2 <= t < |got| && t < |Stream(payload)| && got[t] != Stream(payload)[t]
    ensures !(PayloadOf(got) + [0, 0] == payload + [0, 0] && |got| / 2 == |payload| + 2)
  {
    var ns, i := Stream(payload), t / 2 - 1;
    if |got| == |ns| {
      StreamEnds(payload);
      assert i < |payload|;
      StreamByte(payload, i);
      assert (PayloadOf(got) + [0, 0])[i] == Join(got[2 * i + 2], got[2 * i + 3]);
      assert (payload + [0, 0])[i] == payload[i];
    }
  }

  lemma {:induction false} WrapStep(st: State, c: Chain, sendlen: int, saddr: seq<byte>)
    requires Represents(st, c) && |Step(c, FrameIn(sendlen)).nibbles| > MAX_NIBBLES
    ensures var r := Decode(st, sendlen, saddr);
            r.calls == [] && InStep(r.state) && Place(r.state) == 0
  {
    StepRefines(st, sendlen, saddr);
    AwaitsIffAccepts(RingOf(st), c, FrameIn(sendlen));
    RingWrap(RingOf(st), FrameIn(sendlen), saddr);
  }

  /** Once a wrong nibble is stored behind the start flag, too few captures follow to bring the payload,
      through the wrap of the index too. */
  lemma {:induction false} WrongRun(st: State, c: Chain, caps: seq<Capture>, payload: seq<byte>, t: nat)
    requires Represents(st, c) && 1 <= |payload| <= 253 && 2 <= t < |c.nibbles| && t < |Stream(payload)|
    requires c.nibbles[t] != Stream(payload)[t] && |caps| + |c.nibbles| <= |Stream(payload)| + t + 1
    ensures !Brings(RunRx(st, caps), payload)
    decreases |caps|
  {
    if caps == [] {
    } else {
      var f, saddr := FrameIn(caps[0].sendlen), caps[0].saddr;
      var c', r := Step(c, f), Decode(st, caps[0].sendlen, saddr);
      assert c.nibbles <= c'.nibbles;
      if |c'.nibbles| > MAX_NIBBLES {
        WrapStep(st, c, caps[0].sendlen, saddr);
        CallNeeds(r.state, caps[1..]);
      } else {
        StepRefines(st, caps[0].sendlen, saddr);
        StepFollows(RingOf(st), c, f, saddr);
        if Fires(c, c') {
          WrongDelivery(c'.nibbles, payload, t, saddr);
        } else {
          WrongRun(r.state, c', caps[1..], payload, t);
        }
      }
    }
  }

  /** The same one frame earlier. */
  lemma {:induction false} WrongNext(st: State, c: Chain, caps: seq<Capture>, payload: seq<byte>)
    requires Represents(st, c) && 1 <= |payload| <= 253 && 2 <= |c.nibbles| < |Stream(payload)|
    requires 0 < |caps| <= |Stream(payload)| + 1 && Accepts(c, FrameIn(caps[0].sendlen))
    requires FrameIn(caps[0].sendlen).data != Stream(payload)[|c.nibbles|]
    ensures !Brings(RunRx(st, caps), payload)
  {
    var f, saddr, t := FrameIn(caps[0].sendlen), caps[0].saddr, |c.nibbles|;
    var c', r := Step(c, f), Decode(st, caps[0].sendlen, saddr);
    StepRefines(st, caps[0].sendlen, saddr);
    StepFollows(RingOf(st), c, f, saddr);
    if Fires(c, c') {
      WrongDelivery(c'.nibbles, payload, t, saddr);
    } else {
      WrongRun(r.state, c', caps[1..], payload, t);
    }
  }

  /** A doomed run does not bring the payload. */
  lemma {:induction false} DoomedRun(st: State, payload: seq<byte>, front: seq<Capture>, rest: seq<Capture>)
    requires Zeroed(st) && 1 <= |payload| <= 253 && Doomed(Stream(payload), Frames(front), Frames(rest))
    ensures !Brings(RunRx(st, front + rest), payload)
  {
    var c := Run(FRESH, Frames(front)).c;
    ZeroedRunFollows(st, FRESH, front);
    RunRxConcat(st, front, rest);
    var st' := RunRx(st, front).st;
    if |c.nibbles| + |rest| < |Stream(payload)| {
      CallNeeds(st', rest);
    } else {
      WrongNext(st', c, rest, payload);
    }
  }

  lemma {:induction false} DoomedCaptures(st: State, payload: seq<byte>, before: seq<Frame>, k: nat, caps: seq<Capture>)
    requires Zeroed(st) && 1 <= |payload| <= 253 && Dooms(Stream(payload), before, k)
    requires Frames(caps) == before + Lossless(Stream(payload))
    ensures !Brings(RunRx(st, caps), payload)
  {
    assert Frames(caps[..k]) == Frames(caps)[..k] && Frames(caps[k..]) == Frames(caps)[k..];
    assert caps[..k] + caps[k..] == caps;
    DoomedRun(st, payload, caps[..k], caps[k..]);
  }

  /** What is sent of a message that never ends is too short for any callback. */
  lemma {:induction false} EndlessRound(st: State, payload: seq<byte>, caps: seq<Capture>)
    requires Zeroed(st) && |payload| <= 255 && !(1 <= |payload| <= 253) && |caps| == |Sent(payload)|
    ensures !Brings(RunRx(st, caps), payload)
  {
    FreshRing(st);
    CallNeeds(st, caps);
  }

  /** A lossless round with an early flag calls back with fewer bytes. */
  lemma {:induction false} EarlyRound(st: State, payload: seq<byte>, caps: seq<Capture>)
    requires Zeroed(st) && 1 <= |payload| <= 253 && !NoEarlyFlag(payload)
    requires Frames(caps) == Lossless(Stream(payload))
    ensures !Brings(RunRx(st, caps), payload)
  {
    var ns := Stream(payload);
    EarlyEndIffEarlyFlag(payload);
    OrderedRun(ns, FRESH, 0, |ns|);
    ZeroedRunFollows(st, FRESH, caps);
    var o := Run(FRESH, Frames(caps));
    if o.Delivered? { assert |o.nibbles| < |ns|; }
  }

  /** Every receiver that starts zeroed misses the payload on this history and a lossless round. */
  ghost predicate Misses(payload: seq<byte>, before: seq<Frame>)
    requires |payload| <= 255
  {
    forall st, caps :: Zeroed(st) && Frames(caps) == before + Lossless(Sent(payload)) ==>
      !Brings(RunRx(st, caps), payload)
  }

  /** What has to be for rounds to bring the payload after every history. */
  predicate Recoverable(payload: seq<byte>, air: set<Frame>)
    requires |payload| <= 255
  {
    1 <= |payload| <= 253 && NoEarlyFlag(payload) && AllTolerable(air, Sent(payload))
  }

  lemma {:induction false} SpoiledHistory(payload: seq<byte>, air: set<Frame>) returns (before: seq<Frame>)
    requires |payload| <= 255 && FramesOf(Sent(payload)) <= air && !Recoverable(payload, air)
    ensures From(before, air) && Misses(payload, before)
  {
    var round := Lossless(Sent(payload));
    SentEnds(payload);
    if 1 <= |payload| <= 253 && NoEarlyFlag(payload) {
      var k: nat;
      before, k := DoomedHistory(Stream(payload), air);
      forall st, caps | Zeroed(st) && Frames(caps) == before + round ensures !Brings(RunRx(st, caps), payload) {
        DoomedCaptures(st, payload, before, k, caps);
      }
    } else {
      before := [];
      assert [] + round == round;
      forall st, caps | Zeroed(st) && Frames(caps) == before + round ensures !Brings(RunRx(st, caps), payload) {
        if 1 <= |payload| <= 253 { EarlyRound(st, payload, caps); } else { EndlessRound(st, payload, caps); }
      }
    }
  }

  /** A delivery that is right behind the start flag brings the payload. */
  lemma {:induction false} ToldDelivers(rx: RxOutcome, o: Outcome, payload: seq<byte>, caps: seq<Capture>)
    requires SameOutcome(rx, o, caps) && o.Delivered? && Told(o, Stream(payload))
    ensures RxDelivers(rx, payload, caps)
  {
    var p := PayloadOf(o.nibbles);
    forall i | 0 <= i < |payload| ensures p[i] == payload[i] {
      StreamByte(payload, i);
    }
    assert p == payload;
  }

  lemma {:induction false} ToldRound(ns: seq<nibble>, before: seq<Frame>, round: seq<Frame>, air: set<Frame>)
    requires Unspoiled(ns, air) && From(before, air) && From(round, air) && CompleteRound(round, ns)
    ensures Run(FRESH, before + round).Delivered? && Told(Run(FRESH, before + round), ns)
  {
    RunConcat(FRESH, before, round);
    PlausibleRun(ns, FRESH, before, air);
    PlausibleRun(ns, FRESH, before + round, air);
    var o := Run(FRESH, before);
    if o.Waiting? { RoundDelivers(ns, o.c, round, air); }
  }

  lemma {:induction false} FramesJoin(a: seq<Capture>, b: seq<Capture>)
    ensures Frames(a + b) == Frames(a) + Frames(b)
  {
  }

  lemma {:induction false} ToldRun(
    st: State, payload: seq<byte>, before: seq<Capture>, round: seq<Capture>, air: set<Frame>)
    requires Zeroed(st) && 1 <= |payload| <= 253 && Unspoiled(Stream(payload), air)
    requires From(Frames(before), air) && From(Frames(round), air) && CompleteRound(Frames(round), Stream(payload))
    ensures RxDelivers(RunRx(st, before + round), payload, before + round)
  {
    var caps := before + round;
    FramesJoin(before, round);
    ToldRound(Stream(payload), Frames(before), Frames(round), air);
    ZeroedRunFollows(st, FRESH, caps);
    ToldDelivers(RunRx(st, caps), Run(FRESH, Frames(caps)), payload, caps);
  }

  /** Whatever a run of tolerable frames has left in the receiver, a complete round of the message's
      datagrams calls back with the payload and the address of the capture that completed it. */
  lemma {:induction false} RecoveredTransfer(
    payload: seq<byte>, before: seq<Capture>, round: seq<Capture>, air: set<Frame>)
    requires |payload| <= 255 && Recoverable(payload, air)
    requires From(Frames(before), air) && From(Frames(round), air) && CompleteRound(Frames(round), Sent(payload))
    ensures RxDelivers(RunRx(FreshState(), before + round), payload, before + round)
  {
    SentEnds(payload);
    ToldRun(FreshState(), payload, before, round, air);
  }

  /** Every complete round brings the payload, whatever of what is in the air has been captured before it. */
  ghost predicate RxRecoversAmong(payload: seq<byte>, air: set<Frame>)
    requires |payload| <= 255
  {
    forall before, round ::
      From(Frames(before), air) && From(Frames(round), air) && CompleteRound(Frames(round), Sent(payload)) ==>
        RxDelivers(RunRx(FreshState(), before + round), payload, before + round)
  }

  lemma {:induction false} MissedOnce(payload: seq<byte>, air: set<Frame>, before: seq<Capture>, round: seq<Capture>)
    requires |payload| <= 255 && From(Frames(before), air) && From(Frames(round), air)
    requires CompleteRound(Frames(round), Sent(payload)) && !Brings(RunRx(FreshState(), before + round), payload)
    ensures !RxRecoversAmong(payload, air)
  {
    assert !RxDelivers(RunRx(FreshState(), before + round), payload, before + round);
  }

  lemma {:induction false} ShownFrames(fs: seq<Frame>)
    ensures Frames(CapturesOfFrames(fs)) == fs
  {
  }

  /** The history and the lossless round as captures. */
  lemma {:induction false} MissedCaptures(st: State, payload: seq<byte>, fs: seq<Frame>)
    returns (before: seq<Capture>, round: seq<Capture>)
    requires Zeroed(st) && |payload| <= 255 && Misses(payload, fs)
    ensures Frames(before) == fs && Frames(round) == Lossless(Sent(payload))
    ensures !Brings(RunRx(st, before + round), payload)
  {
    before, round := CapturesOfFrames(fs), CapturesOfFrames(Lossless(Sent(payload)));
    ShownFrames(fs);
    ShownFrames(Lossless(Sent(payload)));
    FramesJoin(before, round);
  }

  lemma {:induction false} MissedRound(payload: seq<byte>, air: set<Frame>)
    requires |payload| <= 255 && FramesOf(Sent(payload)) <= air && !Recoverable(payload, air)
    ensures !RxRecoversAmong(payload, air)
  {
    var fs := SpoiledHistory(payload, air);
    var before, round := MissedCaptures(FreshState(), payload, fs);
    LosslessIsCompleteRound(Sent(payload));
    MissedOnce(payload, air, before, round);
  }

  /** Recovery on the bytes, exactly, for every 8-bit size: complete rounds bring the payload after every
      history if and only if it has 1 to 253 bytes, no early flag, and all frames in the air are tolerable. */
  lemma {:induction false} RxRecoveryIff(payload: seq<byte>, air: set<Frame>)
    requires |payload| <= 255 && FramesOf(Sent(payload)) <= air
    ensures RxRecoversAmong(payload, air) <==> Recoverable(payload, air)
  {
    if Recoverable(payload, air) {
      forall before, round |
        From(Frames(before), air) && From(Frames(round), air) && CompleteRound(Frames(round), Sent(payload))
        ensures RxDelivers(RunRx(FreshState(), before + round), payload, before + round)
      {
        RecoveredTransfer(payload, before, round, air);
      }
    } else {
      MissedRound(payload, air);
    }
  }

  /** Of a message's own frames none is excused: the right second start frame then misleads in its place. */
  lemma {:induction false} OwnFramesTolerable(ns: seq<nibble>)
    requires IsMessage(ns)
    ensures AllTolerable(FramesOf(ns), ns) <==> TagConsistent(ns)
  {
    if AllTolerable(FramesOf(ns), ns) {
      forall s, t | 0 <= s < |ns| && 0 <= t < |ns| && Tag(ns, s) == Tag(ns, t) ensures ns[s] == ns[t] {
        assert FrameOf(ns, s) in FramesOf(ns) && FrameOf(ns, t) in FramesOf(ns);
        assert Tolerable(FrameOf(ns, s), ns) && Tolerable(FrameOf(ns, t), ns);
      }
    }
  }

  /** The channel that loses, repeats and reorders the sent datagrams but adds none. */
  lemma {:induction false} RxOwnFramesRecoverIff(payload: seq<byte>)
    requires |payload| <= 255
    ensures RxRecoversAmong(payload, FramesOf(Sent(payload))) <==>
              1 <= |payload| <= 253 && NoEarlyFlag(payload) && TagConsistent(Sent(payload))
  {
    SentEnds(payload);
    RxRecoveryIff(payload, FramesOf(Sent(payload)));
    OwnFramesTolerable(Sent(payload));
  }

  lemma {:induction false} ExcusedFrame(ns: seq<nibble>, f: Frame)
    requires |ns| == 6 && ns[0] == 7 && ns[1] == 15 && ns[2] == 7 && ns[3] == 1 && ns[4] == 7 && ns[5] == 15
    requires f.tag == 6 && f.data == 2
    ensures TagConsistent(ns) && Tolerable(f, ns) && !Harmless(f, ns)
  {
    LetterTags(ns);
    assert Tag(ns, 1) == f.tag && f.data != ns[1];
    assert forall t :: 0 <= t < |ns| && Tag(ns, t) == f.tag ==> t == 1;
  }

  lemma {:induction false} LetterConsistent(payload: seq<byte>)
    requires payload == [0x71]
    ensures TagConsistent(Stream(payload))
  {
    LetterNibbles(payload);
    ExcusedFrame(Stream(payload), Frame(6, 2));
  }

  /** A foreign frame with tag 6 and nibble 2 beside the frames of the letter "q" is excused: rounds bring
      the payload in spite of it, but not always the right start flag. */
  lemma {:induction false} ExcusedExample(payload: seq<byte>, air: set<Frame>)
    requires payload == [0x71] && air == FramesOf(Sent(payload)) + {Frame(6, 2)}
    ensures RxRecoversAmong(payload, air) && !RecoversAmong(Sent(payload), air)
  {
    var ns, f := Sent(payload), Frame(6, 2);
    SentEnds(payload);
    ExcusedFrame(ns, f);
    OwnFramesTolerable(ns);
    assert AllTolerable(air, ns) && f in air;
    RxRecoveryIff(payload, air);
    RecoveryIff(ns, air);
  }

  // ---------- what the reset is for ----------

  /** The payload comes with the start flag in place in front of it. */
  predicate BringsWhole(rx: RxOutcome, payload: seq<byte>) {
    Brings(rx, payload) && rx.st.Valid() && rx.st.buffer[0] == 0x7F
  }

  lemma {:induction false} HighKeptStep(st: State, sendlen: int, saddr: seq<byte>)
    requires InStep(st) && st.buffer[0] >= 128
    ensures Decode(st, sendlen, saddr).state.buffer[0] >= 128
  {
    var d := FrameIn(sendlen).data;
    OrHalves(st.buffer[0], d);
    OrSeven(st.buffer[0] / 16, d);
  }

  /** The high half of byte 0 keeps its top bit, whatever is captured. */
  lemma {:induction false} HighKept(st: State, caps: seq<Capture>)
    requires InStep(st) && st.buffer[0] >= 128
    ensures RunRx(st, caps).st.buffer[0] >= 128
    decreases |caps|
  {
    if caps == [] {
    } else {
      var r := Decode(st, caps[0].sendlen, caps[0].saddr);
      StepRefines(st, caps[0].sendlen, caps[0].saddr);
      HighKeptStep(st, caps[0].sendlen, caps[0].saddr);
      if r.calls == [] { HighKept(r.state, caps[1..]); }
    }
  }

  lemma {:induction false} FlagOfSpent(st: State, ns: seq<nibble>)
    requires InStep(st) && Spent(RingOf(st), ns)
    ensures st.buffer[0] == 0x7F <==> ns[0] == 0x7 && ns[1] == 0xF
  {
    NibblePair(st.buffer, 0);
    assert RingOf(st).nibbles[0] == ns[0] && RingOf(st).nibbles[1] == ns[1];
  }

  /** A false first nibble is not made good while too few captures follow for the index to come round. */
  lemma {:induction false} FalseFlagRun(st: State, c: Chain, caps: seq<Capture>, payload: seq<byte>)
    requires Represents(st, c) && 1 <= |payload| <= 253 && |c.nibbles| >= 2 && c.nibbles[0] != 0x7
    requires |caps| + |c.nibbles| <= |Stream(payload)| + MAX_NIBBLES
    ensures !BringsWhole(RunRx(st, caps), payload)
    decreases |caps|
  {
    if caps == [] {
    } else {
      var f, saddr := FrameIn(caps[0].sendlen), caps[0].saddr;
      var c', r := Step(c, f), Decode(st, caps[0].sendlen, saddr);
      assert c.nibbles <= c'.nibbles;
      if |c'.nibbles| > MAX_NIBBLES {
        WrapStep(st, c, caps[0].sendlen, saddr);
        CallNeeds(r.state, caps[1..]);
      } else {
        StepRefines(st, caps[0].sendlen, saddr);
        StepFollows(RingOf(st), c, f, saddr);
        if Fires(c, c') {
          FlagOfSpent(r.state, c'.nibbles);
        } else {
          FalseFlagRun(r.state, c', caps[1..], payload);
        }
      }
    }
  }

  /** The lengths of a false first nibble d and of two rounds of the message. */
  predicate FalseStartTwice(caps: seq<Capture>, payload: seq<byte>, d: nibble) {
    var n := |Stream(payload)|;
    && |caps| == 2 * n + 1 && caps[0].sendlen == 24 + d
    && Carry(caps[1..1 + n], payload, n) && Carry(caps[1 + n..], payload, n)
  }

  lemma {:induction false} ThreeParts(caps: seq<Capture>, n: nat)
    requires |caps| == 2 * n + 1
    ensures Frames(caps) == [FrameIn(caps[0].sendlen)] + Frames(caps[1..1 + n]) + Frames(caps[1 + n..])
  {
  }

  lemma {:induction false} FalseStartFrames(caps: seq<Capture>, payload: seq<byte>, d: nibble)
    requires FalseStartTwice(caps, payload, d)
    ensures Frames(caps) == [Frame(0, d)] + Lossless(Stream(payload)) + Lossless(Stream(payload))
  {
    var n, round := |Stream(payload)|, Lossless(Stream(payload));
    assert Frames(caps[1..1 + n]) == round by { CarriedFrames(caps[1..1 + n], payload, n); }
    assert Frames(caps[1 + n..]) == round by { CarriedFrames(caps[1 + n..], payload, n); }
    assert FrameIn(caps[0].sendlen) == Frame(0, d);
    ThreeParts(caps, n);
  }

  /** The receiver behind the first k captures, where the chain has not called back. */
  lemma {:induction false} FrontState(st: State, caps: seq<Capture>, k: nat, c: Chain) returns (st': State)
    requires Zeroed(st) && k <= |caps| && Run(FRESH, Frames(caps[..k])) == Waiting(c) && |c.nibbles| <= MAX_NIBBLES
    ensures Represents(st', c) && RunRx(st, caps) == RunRx(st', caps[k..])
  {
    ZeroedRunFollows(st, FRESH, caps[..k]);
    RunRxConcat(st, caps[..k], caps[k..]);
    assert caps[..k] + caps[k..] == caps;
    st' := RunRx(st, caps[..k]).st;
  }

  lemma {:induction false} ResetDelivers(st: State, payload: seq<byte>, caps: seq<Capture>)
    requires Zeroed(st) && 1 <= |payload| <= 253 && Delivers(Stream(payload), Run(FRESH, Frames(caps)))
    ensures RxDelivers(RunRx(st, caps), payload, caps) && BringsWhole(RunRx(st, caps), payload)
  {
    var o := Run(FRESH, Frames(caps));
    ZeroedRunFollows(st, FRESH, caps);
    StreamEnds(payload);
    ToldDelivers(RunRx(st, caps), o, payload, caps);
    FlagOfSpent(RunRx(st, caps).st, o.nibbles);
  }

  lemma {:induction false} HighMisses(st: State, payload: seq<byte>, caps: seq<Capture>, d: nibble)
    requires Zeroed(st) && FalseStartTwice(caps, payload, d) && d >= 8
    ensures !BringsWhole(RunRx(st, caps), payload)
  {
    var st1 := FirstStored(st, d, caps[0].saddr);
    StepRefines(st, 24 + d, caps[0].saddr);
    HighKept(st1, caps[1..]);
  }

  lemma {:induction false} OneThenSeven(ns: seq<nibble>) returns (c: Chain)
    requires IsMessage(ns) && |ns| >= 2
    ensures Run(FRESH, [Frame(0, 1), FrameOf(ns, 0)]) == Waiting(c) && c.nibbles == [1, 7]
  {
    var f0 := FrameOf(ns, 0);
    StartTags(ns);
    assert [Frame(0, 1)] + [f0] == [Frame(0, 1), f0];
    FalseFirst(1, [f0]);
    assert Tag([1], 1) == 0 by { assert Xor(1, 1) == 0; }
    c := Step(Chain([1], 0), f0);
    RunStep(Chain([1], 0), [f0]);
  }

  lemma {:induction false} OneMisses(st: State, payload: seq<byte>, caps: seq<Capture>)
    requires Zeroed(st) && 1 <= |payload| <= 253 && FalseStartTwice(caps, payload, 1)
    ensures !BringsWhole(RunRx(st, caps), payload)
  {
    var ns := Stream(payload);
    FalseStartFrames(caps, payload, 1);
    assert Frames(caps[..2]) == [Frame(0, 1), FrameOf(ns, 0)];
    var c := OneThenSeven(ns);
    var st' := FrontState(st, caps, 2, c);
    FalseFlagRun(st', c, caps[2..], payload);
  }

  lemma {:induction false} OwnFramesUndisturbed(payload: seq<byte>)
    requires |payload| >= 1 && NoEarlyFlag(payload) && TagConsistent(Stream(payload))
    ensures Undisturbed(Stream(payload), FramesOf(Stream(payload)))
  {
    StreamEnds(payload);
    EarlyEndIffEarlyFlag(payload);
    OwnFramesHarmless(Stream(payload));
  }

  lemma {:induction false} ZeroedResetIff(st: State, payload: seq<byte>, caps: seq<Capture>, d: nibble)
    requires Zeroed(st) && 1 <= |payload| <= 253 && NoEarlyFlag(payload) && TagConsistent(Stream(payload))
    requires FalseStartTwice(caps, payload, d)
    ensures BringsWhole(RunRx(st, caps), payload) <==> d < 8 && d != 1
    ensures d < 8 && d != 1 ==> RxDelivers(RunRx(st, caps), payload, caps)
  {
    if d == 1 {
      OneMisses(st, payload, caps);
    } else if d >= 8 {
      HighMisses(st, payload, caps, d);
    } else {
      OwnFramesUndisturbed(payload);
      ResetIff(Stream(payload), d);
      FalseStartFrames(caps, payload, d);
      ResetDelivers(st, payload, caps);
    }
  }

  /** The reset on the bytes: behind a length with a false first nibble d, two rounds of the message bring
      the payload behind a whole start flag exactly when d is below 8 and not 1. */
  lemma {:induction false} RxResetIff(payload: seq<byte>, caps: seq<Capture>, d: nibble)
    requires 1 <= |payload| <= 253 && NoEarlyFlag(payload) && TagConsistent(Stream(payload))
    requires FalseStartTwice(caps, payload, d)
    ensures BringsWhole(RunRx(FreshState(), caps), payload) <==> d < 8 && d != 1
    ensures d < 8 && d != 1 ==> RxDelivers(RunRx(FreshState(), caps), payload, caps)
  {
    ZeroedResetIff(FreshState(), payload, caps, d);
  }

  lemma {:induction false} LetterTwice(payload: seq<byte>, caps: seq<Capture>)
    requires payload == [0x71] && |caps| == 13 && caps[0].sendlen == 26
    requires caps[1].sendlen == caps[7].sendlen == 31 && caps[2].sendlen == caps[8].sendlen == 135
    requires caps[3].sendlen == caps[9].sendlen == 239 && caps[4].sendlen == caps[10].sendlen == 89
    requires caps[5].sendlen == caps[11].sendlen == 111 && caps[6].sendlen == caps[12].sendlen == 71
    ensures FalseStartTwice(caps, payload, 2)
  {
    LetterCarry(payload, caps[1..7]);
    LetterCarry(payload, caps[7..]);
    LetterNibbles(payload);
  }

  /** The length 26 and the lengths of "q" twice bring "q". */
  lemma {:induction false} LetterAfterFalseStart(payload: seq<byte>, caps: seq<Capture>)
    requires payload == [0x71] && |caps| == 13 && caps[0].sendlen == 26
    requires caps[1].sendlen == caps[7].sendlen == 31 && caps[2].sendlen == caps[8].sendlen == 135
    requires caps[3].sendlen == caps[9].sendlen == 239 && caps[4].sendlen == caps[10].sendlen == 89
    requires caps[5].sendlen == caps[11].sendlen == 111 && caps[6].sendlen == caps[12].sendlen == 71
    ensures RxDelivers(RunRx(FreshState(), caps), payload, caps)
  {
    LetterTwice(payload, caps);
    LetterConsistent(payload);
    RxResetIff(payload, caps, 2);
  }
}
