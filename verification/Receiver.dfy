/** The receiving side: the decoder's state, its step on one captured length, and the class that
    does the step in place. */
module Receiver {
  import opened Bits
  import Message
  import Radiotap

  const BUFFER_MAX: nat := 512

  /** What the callback gets: the address, the bytes from `buffer + 1` on, and their count. */
  datatype Delivery = Delivery(mac: seq<byte>, data: seq<byte>, len: nat)

  datatype State = State(index: byte, sequence: byte, buffer: seq<byte>, sourceAddr: seq<byte>) {
    predicate Valid() {
      |buffer| == BUFFER_MAX
    }
  }

  /** One captured datagram: its recovered length and the address of its sender. */
  datatype Capture = Capture(sendlen: int, saddr: seq<byte>)

  datatype Result = Result(state: State, calls: seq<Delivery>)

  function ZeroBytes(n: nat): (s: seq<byte>)
    ensures |s| == n && forall i :: 0 <= i < n ==> s[i] == 0
  {
    seq(n, _ => 0)
  }

  /** The state of a receiver that has just been initialised. */
  function FreshState(): (st: State)
    ensures st.Valid() && st.index == 0 && st.sequence == 0
    ensures forall i :: 0 <= i < BUFFER_MAX ==> st.buffer[i] == 0
  {
    State(0, 0, ZeroBytes(BUFFER_MAX), ZeroBytes(Radiotap.MAC_LEN))
  }

  function Previous(st: State): nibble
    requires st.Valid()
  {
    if st.sequence % 2 == 1 then st.buffer[st.index] / 16
    else if st.index == 0 then 0
    else st.buffer[st.index - 1] % 16
  }

  /** The tag chains to the last nibble and the counter. */
  predicate Matches(st: State, tag: byte)
    requires st.Valid()
  {
    tag == XorByte(Previous(st), st.sequence)
  }

  /** A frame that does not match starts the first byte over, unless its nibble could be the start's. */
  function Rejected(st: State, data: nibble): (st': State)
  {
    if st.sequence % 2 == 1 && st.index == 0 && data != 0x7 then st.(sequence := 0) else st
  }

  function OrByte(a: byte, b: byte): byte {
    assert Pow2(8) == 256;
    OrBelow(a, b, 8);
    Or(a, b)
  }

  function OrAt(buffer: seq<byte>, i: nat, bits: byte): (r: seq<byte>)
    requires i < |buffer|
    ensures |r| == |buffer|
  {
    buffer[i := OrByte(buffer[i], bits)]
  }

  function StoreHigh(st: State, data: nibble): (st': State)
    requires st.Valid()
  {
    st.(buffer := OrAt(st.buffer, st.index, data * 16), sequence := (st.sequence + 1) % 256)
  }

  function WithLow(st: State, data: nibble, saddr: seq<byte>): (st': State)
    requires st.Valid()
    ensures st'.Valid()
  {
    var index := (st.index + 1) % 256;
    State(index, (st.sequence + 1) % 256, OrAt(st.buffer, st.index, data), if index > 2 then saddr else st.sourceAddr)
  }

  function CheckEnd(st: State): Result
    requires st.Valid()
  {
    if st.index > 2 && st.buffer[st.index - 1] == Message.FLAG then
      var ended := st.buffer[st.index - 1 := 0];
      Result(st.(buffer := ended), [Delivery(st.sourceAddr, ended[1..1 + st.index], st.index)])
    else Result(st, [])
  }

  /** The low half of a byte arrives: the byte is complete, and may be the end flag. */
  function StoreLow(st: State, data: nibble, saddr: seq<byte>): Result
    requires st.Valid()
  {
    CheckEnd(WithLow(st, data, saddr))
  }

  /** The decoder's step on a captured length and its source address. */
  function Decode(st: State, sendlen: int, saddr: seq<byte>): Result
    requires st.Valid()
  {
    var data := Message.DataPart(sendlen);
    if !Matches(st, Message.TagPart(sendlen)) then Result(Rejected(st, data), [])
    else if st.sequence % 2 == 0 then Result(StoreHigh(st, data), [])
    else StoreLow(st, data, saddr)
  }

  function Then(before: Result, next: Result): Result {
    Result(next.state, before.calls + next.calls)
  }

  /** The decoder applied to all captures, callbacks or not. */
  function DecodeAll(st: State, caps: seq<Capture>): (r: Result)
    requires st.Valid()
    ensures r.state.Valid()
    decreases |caps|
  {
    if caps == [] then Result(st, [])
    else
      var first := Decode(st, caps[0].sendlen, caps[0].saddr);
      Then(first, DecodeAll(first.state, caps[1..]))
  }

  class SmartLinkRx {
    var index: byte
    var sequence: byte
    const sourceAddr: array<byte>
    const buffer: array<byte>
    /** The callbacks made so far. */
    var calls: seq<Delivery>

    ghost predicate Valid()
      reads this
    {
      buffer.Length == BUFFER_MAX && sourceAddr.Length == Radiotap.MAC_LEN && buffer != sourceAddr
    }

    ghost function View(): (st: State)
      requires Valid()
      reads this, buffer, sourceAddr
      ensures st.Valid()
    {
      State(index, sequence, buffer[..], sourceAddr[..])
    }

    constructor ()
      ensures Valid() && View() == FreshState() && calls == []
      ensures buffer.Length == 512 && sourceAddr.Length == 6
      ensures fresh(buffer) && fresh(sourceAddr)
    {
      index, sequence, calls := 0, 0, [];
      buffer := new byte[BUFFER_MAX](_ => 0);
      sourceAddr := new byte[Radiotap.MAC_LEN](_ => 0);
      new;
      assert buffer[..] == FreshState().buffer;
      assert sourceAddr[..] == FreshState().sourceAddr;
    }

    method DecodeFrame(sendlen: int, radiotap: Radiotap.RadiotapInfo)
      requires Valid() && radiotap.Valid()
      requires radiotap.saddr != buffer && radiotap.saddr != sourceAddr
      modifies this`index, this`sequence, this`calls, buffer, sourceAddr
      ensures Valid()
      ensures View() == Decode(old(View()), sendlen, radiotap.saddr[..]).state
      ensures calls == old(calls) + Decode(old(View()), sendlen, radiotap.saddr[..]).calls
    {
      ghost var st := View();
      var data: nibble := (sendlen - 24) % 16;
      var flag: byte := (sendlen - 24) / 16 % 256;

      if sequence % 2 == 0 {
        var pdata := 0;
        if index != 0 { pdata := LowNibble(buffer[index - 1]); }
        if XorByte(pdata, sequence) != flag { return; }
        buffer[index] := OrByte(buffer[index], data * 16);
        assert buffer[..] == OrAt(st.buffer, st.index, data * 16);
      } else {
        var pdata := buffer[index] / 16;
        if XorByte(pdata, sequence) != flag {
          if index == 0 && data != 0x7 { sequence := 0; }
          return;
        }
        CompleteByte(data, radiotap);
      }
      sequence := (sequence + 1) % 256;
    }

    /** The low nibble joins its byte, the index moves on, and from the third byte on the address is noted. */
    method StoreLowHalf(data: nibble, radiotap: Radiotap.RadiotapInfo)
      requires Valid() && radiotap.Valid()
      requires radiotap.saddr != buffer && radiotap.saddr != sourceAddr
      modifies this`index, buffer, sourceAddr
      ensures Valid()
      ensures View() == WithLow(old(View()), data, radiotap.saddr[..]).(sequence := old(sequence))
    {
      ghost var st := View();
      buffer[index] := OrByte(buffer[index], data);
      index := (index + 1) % 256;
      assert buffer[..] == OrAt(st.buffer, st.index, data);
      if index > 0x02 {
        forall i | 0 <= i < Radiotap.MAC_LEN { sourceAddr[i] := radiotap.saddr[i]; }
        assert sourceAddr[..] == radiotap.saddr[..];
      }
    }

    /** The low-nibble branch up to the counter, callback included. */
    method CompleteByte(data: nibble, radiotap: Radiotap.RadiotapInfo)
      requires Valid() && radiotap.Valid()
      requires radiotap.saddr != buffer && radiotap.saddr != sourceAddr
      modifies this`index, this`calls, buffer, sourceAddr
      ensures Valid()
      ensures var r := StoreLow(old(View()), data, radiotap.saddr[..]);
              View() == r.state.(sequence := old(sequence)) && calls == old(calls) + r.calls
    {
      StoreLowHalf(data, radiotap);
      if index > 0x02 && buffer[index - 1] == Message.FLAG {
        buffer[index - 1] := 0;
        calls := calls + [Delivery(sourceAddr[..], buffer[1..1 + index], index)];
      }
    }
  }
}
