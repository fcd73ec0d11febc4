/** What the link carries: a message between two flags, split into nibbles, each nibble sent as
    the length of one datagram together with a tag that chains it to the nibble before it. */
module Message {
  import opened Bits

  const FLAG: byte := 0x7F
  const OVERHEAD := 24
  const PACKET_MAX := 1500

  function Framed(payload: seq<byte>): (msg: seq<byte>)
    ensures |msg| == |payload| + 2
  {
    [FLAG] + payload + [FLAG]
  }

  /** Nibble t: the high half of a byte at even t, its low half at odd t. */
  function NibbleOf(msg: seq<byte>, t: nat): nibble
    requires t < 2 * |msg|
  {
    if t % 2 == 0 then msg[t / 2] / 16 else msg[t / 2] % 16
  }

  function Nibbles(msg: seq<byte>): (ns: seq<nibble>)
    ensures |ns| == 2 * |msg|
    ensures forall t :: 0 <= t < |ns| ==> ns[t] == NibbleOf(msg, t)
  {
    seq(2 * |msg|, t requires 0 <= t < 2 * |msg| => NibbleOf(msg, t))
  }

  /** The two nibbles of byte k. */
  lemma {:induction false} NibblePair(msg: seq<byte>, k: nat)
    requires k < |msg|
    ensures Nibbles(msg)[2 * k] == msg[k] / 16 && Nibbles(msg)[2 * k + 1] == msg[k] % 16
  {
  }

  function PreviousNibble(ns: seq<nibble>, t: nat): nibble
    requires t <= |ns|
  {
    if t == 0 then 0 else ns[t - 1]
  }

  /** A nibble chained to a count that wraps at 256. */
  function TagOf(previous: nibble, count: nat): (tag: byte)
    ensures tag / 16 == count % 256 / 16
  {
    XorByte(previous, count % 256)
  }

  /** The tag a receiver that holds the first t nibbles waits for. */
  function Tag(ns: seq<nibble>, t: nat): byte
    requires t <= |ns|
  {
    TagOf(PreviousNibble(ns, t), t)
  }

  /** What one datagram's length says. */
  datatype Frame = Frame(tag: byte, data: nibble)

  /** The length that stands for a tag and a nibble. */
  function LengthOf(tag: byte, data: nibble): int {
    OVERHEAD + 16 * tag + data
  }

  function FrameLength(ns: seq<nibble>, t: nat): int
    requires t < |ns|
  {
    LengthOf(Tag(ns, t), ns[t])
  }

  /** The two parts a receiver cuts a length into: `(len - 24) >> 4` as one byte and the low nibble. */
  function TagPart(sendlen: int): byte {
    (sendlen - OVERHEAD) / 16 % 256
  }

  function DataPart(sendlen: int): nibble {
    (sendlen - OVERHEAD) % 16
  }

  function FrameIn(sendlen: int): Frame {
    Frame(TagPart(sendlen), DataPart(sendlen))
  }

  lemma {:induction false} LengthParts(tag: byte, data: nibble)
    ensures TagPart(LengthOf(tag, data)) == tag && DataPart(LengthOf(tag, data)) == data
    ensures LengthOf(tag, data) >= 24
  {
  }

  lemma {:induction false} TagInNumbers(previous: nibble, count: nat)
    ensures TagOf(previous, count) / 16 == count % 256 / 16
    ensures TagOf(previous, count) % 16 == Xor(previous, count % 16)
  {
    var x := count % 256;
    XorLowBits(previous, x);
    ModNested(count);
    assert TagOf(previous, count) == Xor(previous, x);
  }

  lemma {:induction false} CutInNumbers(tag: byte, data: nibble, x: int)
    requires x == 16 * tag + data
    ensures x / 256 == tag / 16 && x / 16 % 16 == tag % 16 && x % 16 == data
  {
    assert x / 16 == tag;
  }

  /** A datagram's length in numbers: over 24 stand, from the top, the block of 16 that the frame's index
      lies in modulo 256, the previous nibble xor-ed with the place in that block, and the nibble. */
  lemma {:induction false} LengthInNumbers(ns: seq<nibble>, t: nat)
    requires t < |ns|
    ensures (FrameLength(ns, t) - 24) / 256 == t % 256 / 16
    ensures (FrameLength(ns, t) - 24) / 16 % 16 == Xor(if t == 0 then 0 else ns[t - 1], t % 16)
    ensures (FrameLength(ns, t) - 24) % 16 == ns[t]
  {
    TagInNumbers(PreviousNibble(ns, t), t);
    CutInNumbers(Tag(ns, t), ns[t], FrameLength(ns, t) - 24);
  }

  /** The nibbles of the framed payload. */
  function Stream(payload: seq<byte>): (ns: seq<nibble>)
    ensures |ns| == 2 * |payload| + 4
  {
    Nibbles(Framed(payload))
  }

  /** Every message starts with a datagram of 31 bytes. */
  lemma {:induction false} FirstLength(payload: seq<byte>)
    ensures FrameLength(Stream(payload), 0) == 31
  {
    NibblePair(Framed(payload), 0);
    XorZero(0);
  }

  lemma {:induction false} LetterNibbles(payload: seq<byte>)
    requires payload == [0x71]
    ensures var ns := Stream(payload);
            && |ns| == 6 && ns[0] == 7 && ns[1] == 15 && ns[2] == 7 && ns[3] == 1 && ns[4] == 7 && ns[5] == 15
  {
    NibblePair(Framed(payload), 0);
    NibblePair(Framed(payload), 1);
    NibblePair(Framed(payload), 2);
  }

  /** The tags of the letter "q" are 0, 6, 13, 4, 5 and 2. */
  lemma {:induction false} LetterTags(ns: seq<nibble>)
    requires |ns| == 6 && ns[0] == 7 && ns[1] == 15 && ns[2] == 7 && ns[3] == 1 && ns[4] == 7 && ns[5] == 15
    ensures Tag(ns, 0) == 0 && Tag(ns, 1) == 6 && Tag(ns, 2) == 13
    ensures Tag(ns, 3) == 4 && Tag(ns, 4) == 5 && Tag(ns, 5) == 2
  {
    assert Tag(ns, 0) == 0 by { assert Xor(0, 0) == 0; }
    assert Tag(ns, 1) == 6 by { assert Xor(7, 1) == 6; }
    assert Tag(ns, 2) == 13 by { assert Xor(15, 2) == 13; }
    assert Tag(ns, 3) == 4 by { assert Xor(7, 3) == 4; }
    assert Tag(ns, 4) == 5 by { assert Xor(1, 4) == 5; }
    assert Tag(ns, 5) == 2 by { assert Xor(7, 5) == 2; }
  }

  /** The six lengths of the letter "q". */
  lemma {:induction false} LetterLengths(payload: seq<byte>)
    requires payload == [0x71]
    ensures var ns := Stream(payload);
            && |ns| == 6 && FrameLength(ns, 0) == 31 && FrameLength(ns, 1) == 135 && FrameLength(ns, 2) == 239
            && FrameLength(ns, 3) == 89 && FrameLength(ns, 4) == 111 && FrameLength(ns, 5) == 71
  {
    LetterNibbles(payload);
    LetterTags(Stream(payload));
  }

  lemma {:induction false} LengthCarriesTagAndData(ns: seq<nibble>, t: nat)
    requires t < |ns|
    ensures TagPart(FrameLength(ns, t)) == Tag(ns, t)
    ensures DataPart(FrameLength(ns, t)) == ns[t]
    ensures FrameLength(ns, t) > 0
  {
    LengthParts(Tag(ns, t), ns[t]);
  }

  /** Equal tags always carry equal nibbles. */
  predicate TagConsistent(ns: seq<nibble>) {
    forall s, t :: 0 <= s < |ns| && 0 <= t < |ns| && Tag(ns, s) == Tag(ns, t) ==> ns[s] == ns[t]
  }

  /** No flag byte after the first payload byte, where the receiver would take it for the end. */
  predicate NoEarlyFlag(payload: seq<byte>) {
    forall i :: 1 <= i < |payload| ==> payload[i] != FLAG
  }

  /** The part of the stream that is sent: the message length is an 8-bit number, so that of a payload of
      254 bytes nothing and of one of 255 bytes only the start flag is. */
  function Sent(payload: seq<byte>): (ns: seq<nibble>)
    requires |payload| <= 255
    ensures |ns| == 2 * ((|payload| + 2) % 256) && |ns| <= |Stream(payload)|
  {
    Stream(payload)[..2 * ((|payload| + 2) % 256)]
  }

  lemma {:induction false} SentWhole(payload: seq<byte>)
    requires |payload| <= 253
    ensures Sent(payload) == Stream(payload)
  {
    assert (|payload| + 2) % 256 == |payload| + 2;
  }

  // ---------- how long a datagram gets ----------

  lemma {:induction false} LengthBound(ns: seq<nibble>, t: nat)
    requires t < |ns|
    ensures FrameLength(ns, t) <= 24 + 16 * (16 * (t % 256 / 16) + 15) + 15
  {
  }

  lemma {:induction false} LengthBefore80(ns: seq<nibble>, t: nat)
    requires t < |ns| && t < 80
    ensures FrameLength(ns, t) <= 1303
  {
    LengthBound(ns, t);
    assert t % 256 / 16 <= 4;
  }

  /** Every datagram sent for the payload stays within the limit. */
  predicate AllFit(payload: seq<byte>, limit: int)
    requires |payload| <= 255
  {
    forall t :: 0 <= t < |Sent(payload)| ==> FrameLength(Stream(payload), t) <= limit
  }

  lemma {:induction false} ShortSent(payload: seq<byte>)
    requires |payload| <= 255 && (|payload| <= 38 || |payload| >= 254)
    ensures |Sent(payload)| <= 80 && |Sent(payload)| <= |Stream(payload)|
  {
  }

  lemma {:induction false} ShortPayloadsFit(payload: seq<byte>)
    requires |payload| <= 255 && (|payload| <= 38 || |payload| >= 254)
    ensures AllFit(payload, 1303)
  {
    var n, ns := |Sent(payload)|, Stream(payload);
    ShortSent(payload);
    forall t | 0 <= t < n ensures FrameLength(ns, t) <= 1303 {
      LengthBefore80(ns, t);
    }
  }

  /** At the start of a block of 16 the tag is the frame's index plus the previous nibble. */
  lemma {:induction false} TagAtBlockStart(ns: seq<nibble>, t: nat)
    requires 0 < t < 256 && t < |ns| && t % 16 == 0
    ensures Tag(ns, t) == t + ns[t - 1]
  {
    var n, b := ns[t - 1], t / 16;
    assert t == 16 * b && t % 256 == t;
    XorNibble(n, b);
    assert Tag(ns, t) == Xor(n, t);
  }

  /** And 38 bytes reach the bound. */
  lemma {:induction false} LongestShort(payload: seq<byte>)
    requires |payload| == 38 && payload[30] % 16 == 15 && payload[31] / 16 == 15
    ensures FrameLength(Stream(payload), 64) == 1303
  {
    var ns := Stream(payload);
    assert ns[63] == 15 by { NibblePair(Framed(payload), 31); }
    assert ns[64] == 15 by { NibblePair(Framed(payload), 32); }
    TagAtBlockStart(ns, 64);
  }

  /** From the 80th frame on, a block of 16 frames behind a nibble 1111 starts with one too long for a packet. */
  lemma {:induction false} FrameTooLong(payload: seq<byte>, t: nat)
    requires |payload| <= 253 && 80 <= t < 256 && t % 16 == 0
    requires t / 2 - 2 < |payload| && payload[t / 2 - 2] % 16 == 15
    ensures t < |Sent(payload)| && FrameLength(Stream(payload), t) > 1500
  {
    var k, ns := t / 2 - 1, Stream(payload);
    SentWhole(payload);
    NibblePair(Framed(payload), k);
    assert ns[t - 1] == payload[k - 1] % 16 == 15;
    TagAtBlockStart(ns, t);
  }

  /** Of the 8-bit sizes exactly those up to 38, and the two that wrap the message length, stay inside a
      packet whatever the payload is. */
  lemma {:induction false} FitsPacketIff(n: nat)
    requires n <= 255
    ensures (forall payload: seq<byte> :: |payload| == n ==> AllFit(payload, 1500)) <==> n <= 38 || n >= 254
  {
    if n <= 38 || n >= 254 {
      forall payload: seq<byte> | |payload| == n ensures AllFit(payload, 1500) {
        ShortPayloadsFit(payload);
      }
    } else {
      var payload: seq<byte> := seq(n, _ => 15);
      FrameTooLong(payload, 80);
      assert !AllFit(payload, 1500);
    }
  }
}
