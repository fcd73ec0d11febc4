/** The transmitting side. */
module Sender {
  import opened Bits
  import opened Message

  lemma {:induction false} HighFrame(msg: seq<byte>, index: nat, low0: byte)
    requires index < |msg| && index < 256
    requires low0 == if index != 0 then XorByte(msg[index - 1] % 16, 2 * index % 256) else 0
    ensures FrameLength(Nibbles(msg), 2 * index) == LengthOf(low0, msg[index] / 16)
  {
    var ns := Nibbles(msg);
    assert ns[2 * index] == msg[index] / 16;
    if index != 0 { assert ns[2 * index - 1] == msg[index - 1] % 16; }
    assert Tag(ns, 2 * index) == low0;
  }

  lemma {:induction false} LowFrame(msg: seq<byte>, index: nat, highs: byte)
    requires index < |msg| && index < 256
    requires highs == XorByte(msg[index] / 16, (2 * index + 1) % 256)
    ensures FrameLength(Nibbles(msg), 2 * index + 1) == LengthOf(highs, msg[index] % 16)
  {
    var ns := Nibbles(msg);
    assert ns[2 * index] == msg[index] / 16 && ns[2 * index + 1] == msg[index] % 16;
    assert Tag(ns, 2 * index + 1) == highs;
  }

  /** `((tag << 4) | data) + 24` */
  function JoinLength(tag: byte, data: nibble): (r: int)
    ensures r == LengthOf(tag, data)
  {
    OrNibble(tag, data);
    Or(tag * 16, data) + 24
  }

  /** The lengths of the first n frames of a nibble stream. */
  function Lengths(ns: seq<nibble>, n: nat): (ls: seq<int>)
    requires n <= |ns|
    ensures |ls| == n
    ensures forall t :: 0 <= t < n ==> ls[t] == FrameLength(ns, t)
  {
    seq(n, t requires 0 <= t < n => FrameLength(ns, t))
  }

  lemma {:induction false} FirstSent(before: seq<int>, payload: seq<byte>, n: nat)
    requires n <= |Stream(payload)|
    ensures n > 0 ==> (before + Lengths(Stream(payload), n))[|before|] == 31
  {
    FirstLength(payload);
  }

  lemma {:induction false} LengthsNext(ns: seq<nibble>, n: nat)
    requires n < |ns|
    ensures Lengths(ns, n + 1) == Lengths(ns, n) + [FrameLength(ns, n)]
  {
  }

  lemma {:induction false} SendOrder(before: seq<int>, ns: seq<nibble>, index: nat, sent0: int, sent1: int)
    requires 2 * index + 1 < |ns|
    requires sent0 == FrameLength(ns, 2 * index) && sent1 == FrameLength(ns, 2 * index + 1)
    ensures before + Lengths(ns, 2 * index) + [sent0] + [sent1] == before + Lengths(ns, 2 * (index + 1))
  {
    var n := 2 * index;
    LengthsNext(ns, n);
    LengthsNext(ns, n + 1);
    assert before + Lengths(ns, n) + [sent0] + [sent1] == before + (Lengths(ns, n) + [sent0] + [sent1]);
  }

  class SmartLinkTx {
    var sequence: byte
    /** The datagram lengths handed to the socket so far. */
    var sent: seq<int>

    constructor ()
      ensures sequence == 0 && sent == []
    {
      sequence, sent := 0, [];
    }

    /** `sequence++` on an 8-bit counter that has been stepped `count` times. */
    method NextSequence(ghost count: nat) returns (r: byte)
      requires sequence == count % 256
      modifies this`sequence
      ensures r == count % 256 && sequence == (count + 1) % 256
    {
      ModStep(count);
      r := sequence;
      sequence := (sequence + 1) % 256;
    }

    /** The two lengths of one message byte. */
    method FramesOfByte(buffer: array<byte>, index: byte) returns (sent0: int, sent1: int)
      requires index < buffer.Length && sequence == 2 * index % 256
      modifies this`sequence
      ensures sequence == 2 * (index + 1) % 256
      ensures sent0 == FrameLength(Nibbles(buffer[..]), 2 * index)
      ensures sent1 == FrameLength(Nibbles(buffer[..]), 2 * index + 1)
    {
      ghost var msg := buffer[..];
      var high1 := buffer[index] / 16;
      var low1 := LowNibble(buffer[index]);

      var seq0 := NextSequence(2 * index);
      var low0 := seq0;
      if index != 0 { low0 := XorByte(LowNibble(buffer[index - 1]), seq0); }
      HighFrame(msg, index, low0);

      var seq1 := NextSequence(2 * index + 1);
      var highs := XorByte(high1, seq1);
      LowFrame(msg, index, highs);

      sent0, sent1 := JoinLength(low0, high1), JoinLength(highs, low1);
      assert 2 * (index + 1) == 2 * index + 1 + 1;
    }

    /** One round of the loop, with what was sent before it as a ghost argument. */
    method SendByte(buffer: array<byte>, index: byte, ghost before: seq<int>)
      requires index < buffer.Length && sequence == 2 * index % 256
      requires sent == before + Lengths(Nibbles(buffer[..]), 2 * index)
      modifies this
      ensures sequence == 2 * (index + 1) % 256
      ensures sent == before + Lengths(Nibbles(buffer[..]), 2 * (index + 1))
    {
      var sent0, sent1 := FramesOfByte(buffer, index);
      SendOrder(before, Nibbles(buffer[..]), index, sent0, sent1);
      sent := sent + [sent0];
      sent := sent + [sent1];
    }

    /** Sends the first `(size + 2) % 256` bytes of the framed payload; that is all of it up to size 253. */
    method Send(input: array<byte>, size: byte)
      requires size <= input.Length
      modifies this
      ensures var ns, n := Nibbles(Framed(input[..size])), 2 * ((size + 2) % 256);
              sent == old(sent) + Lengths(ns, n) && sequence == n % 256
      ensures |sent| > |old(sent)| ==> sent[|old(sent)|] == 31
    {
      var length: byte := (size + 2) % 256;
      var buffer := new byte[size + 2];
      buffer[0] := FLAG;
      forall i | 0 <= i < size { buffer[i + 1] := input[i]; }
      buffer[size + 1] := FLAG;
      ghost var ns := Nibbles(Framed(input[..size]));
      assert buffer[..] == Framed(input[..size]);

      sequence := 0;
      var index: byte := 0;
      while index < length
        invariant index <= length
        invariant sequence == 2 * index % 256
        invariant sent == old(sent) + Lengths(ns, 2 * index)
        invariant Nibbles(buffer[..]) == ns
        decreases length - index
      {
        SendByte(buffer, index, old(sent));
        index := index + 1;
      }
      FirstSent(old(sent), input[..size], 2 * length);
    }
  }
}
