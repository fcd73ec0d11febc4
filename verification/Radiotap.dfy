/** The parser of captured frames: a radiotap header, then an IEEE 802.11 header, read with the bit cursor. */
module Radiotap {
  import opened Bits
  import opened BitBuffer
  import opened BitStream

  const MAC_LEN: nat := 6
  const TYPE_DATA: byte := 0x08
  const SMART_FAIL := -1
  /** The bytes of a captured frame besides the radiotap header and the datagram. */
  const FRAME_OVERHEAD := 76

  class RadiotapInfo {
    var frameType: byte
    const saddr: array<byte>

    ghost predicate Valid()
      reads this
    {
      saddr.Length == MAC_LEN
    }

    constructor ()
      ensures Valid() && fresh(saddr) && frameType == 0 && saddr[..] == seq(MAC_LEN, _ => 0)
    {
      frameType := 0;
      saddr := new byte[MAC_LEN](_ => 0);
    }
  }

  // ---------- the frame layout ----------

  function HeaderLength(pkt: seq<byte>): byte {
    ByteAt(pkt, 2)
  }

  /** Where the IEEE 802.11 header starts; the three bytes already read are never gone back over. */
  function FrameStart(pkt: seq<byte>): nat {
    if HeaderLength(pkt) < 3 then 3 else HeaderLength(pkt)
  }

  predicate IsData(pkt: seq<byte>) {
    ByteAt(pkt, FrameStart(pkt)) == TYPE_DATA
  }

  /** struct ieee80211_frame: two bytes of control, two of duration, then three addresses. */
  const I_FC := 0
  const I_DUR := I_FC + 2
  const I_ADDR1 := I_DUR + 2
  const I_ADDR2 := I_ADDR1 + MAC_LEN
  const I_ADDR3 := I_ADDR2 + MAC_LEN

  function Address(pkt: seq<byte>, at: nat): (a: seq<byte>)
    ensures |a| == MAC_LEN
    ensures forall i :: 0 <= i < MAC_LEN ==> a[i] == ByteAt(pkt, at + i)
  {
    seq<byte>(MAC_LEN, i requires 0 <= i < MAC_LEN => ByteAt(pkt, at + i))
  }

  lemma {:induction false} SixBytes(pkt: seq<byte>, k: nat, a: seq<byte>)
    requires |a| == MAC_LEN && a[0] == ByteAt(pkt, k) && a[1] == ByteAt(pkt, k + 1) && a[2] == ByteAt(pkt, k + 2)
    requires a[3] == ByteAt(pkt, k + 3) && a[4] == ByteAt(pkt, k + 4) && a[5] == ByteAt(pkt, k + 5)
    ensures a == Address(pkt, k)
  {
  }

  function SourceAddress(pkt: seq<byte>): seq<byte> {
    Address(pkt, FrameStart(pkt) + I_ADDR3)
  }

  function ParsedLength(pkt: seq<byte>): int {
    if IsData(pkt) then |pkt| - HeaderLength(pkt) - FRAME_OVERHEAD else SMART_FAIL
  }

  // ---------- the parser ----------

  /** A byte-aligned read of byte k. */
  method NextByte(bs: BitStream, ghost pkt: seq<byte>, ghost k: nat) returns (r: byte)
    requires bs.Valid() && bs.Data() == pkt && bs.Pos() == 8 * k
    modifies bs`p, bs`bitsLeft
    ensures bs.Valid() && bs.Data() == pkt && bs.Pos() == 8 * (k + 1)
    ensures r == ByteAt(pkt, k)
  {
    AlignedRead(pkt, k);
    r := bs.ReadU8();
  }

  /** Six byte reads in a row. */
  method NextAddress(bs: BitStream, ghost pkt: seq<byte>, ghost k: nat) returns (a: seq<byte>)
    requires bs.Valid() && bs.Data() == pkt && bs.Pos() == 8 * k
    modifies bs`p, bs`bitsLeft
    ensures bs.Valid() && bs.Data() == pkt && bs.Pos() == 8 * (k + MAC_LEN)
    ensures a == Address(pkt, k)
  {
    var a0 := NextByte(bs, pkt, k);
    var a1 := NextByte(bs, pkt, k + 1);
    var a2 := NextByte(bs, pkt, k + 2);
    var a3 := NextByte(bs, pkt, k + 3);
    var a4 := NextByte(bs, pkt, k + 4);
    var a5 := NextByte(bs, pkt, k + 5);
    a := [a0, a1, a2, a3, a4, a5];
    SixBytes(pkt, k, a);
  }

  /** The three header bytes and the skip to the IEEE 802.11 header. */
  method SkipHeader(bs: BitStream, ghost pkt: seq<byte>) returns (length: byte)
    requires bs.Valid() && bs.Data() == pkt && bs.Pos() == 0 && bs.start == 0
    modifies bs`p, bs`bitsLeft
    ensures bs.Valid() && bs.Data() == pkt && bs.Pos() == 8 * FrameStart(pkt)
    ensures length == HeaderLength(pkt)
  {
    var version := NextByte(bs, pkt, 0);
    var pad := NextByte(bs, pkt, 1);
    length := NextByte(bs, pkt, 2);
    var _ := bs.ReadU8n(length - bs.BytePos());
  }

  /** The layout in numbers: byte 2 says where the 802.11 header starts, byte 3 at the earliest; a first
      byte of 0x08 there makes a data frame, which has 76 bytes more than radiotap header and datagram,
      and its third address 16 bytes on. */
  predicate InNumbers(pkt: seq<byte>, r: int, saddr: seq<byte>, before: seq<byte>) {
    var l := ByteAt(pkt, 2);
    var at := if l < 3 then 3 else l;
    if ByteAt(pkt, at) == 0x08
    then r == |pkt| - l - 76 && |saddr| == 6 && forall i :: 0 <= i < 6 ==> saddr[i] == ByteAt(pkt, at + 16 + i)
    else r == -1 && saddr == before
  }

  lemma {:induction false} ParsedInNumbers(pkt: seq<byte>, saddr: seq<byte>, before: seq<byte>)
    requires saddr == if IsData(pkt) then SourceAddress(pkt) else before
    ensures InNumbers(pkt, ParsedLength(pkt), saddr, before)
  {
  }

  /** The rest of the frame, from behind its type byte up to and with the third address. */
  method ReadSource(bs: BitStream, ghost pkt: seq<byte>, ghost at: nat) returns (saddr: seq<byte>)
    requires bs.Valid() && bs.Data() == pkt && bs.Pos() == 8 * (at + 1)
    modifies bs`p, bs`bitsLeft
    ensures bs.Valid() && bs.Data() == pkt && bs.Pos() == 8 * (at + 22)
    ensures |saddr| == 6 && forall i :: 0 <= i < 6 ==> saddr[i] == ByteAt(pkt, at + 16 + i)
  {
    var control := NextByte(bs, pkt, at + 1);
    var duration := bs.ReadU(16);
    var daddr := NextAddress(bs, pkt, at + I_ADDR1);
    var wifiaddr := NextAddress(bs, pkt, at + I_ADDR2);
    saddr := NextAddress(bs, pkt, at + I_ADDR3);
  }

  method TakeSource(radiotap: RadiotapInfo, bs: BitStream, ghost pkt: seq<byte>, ghost at: nat)
    requires radiotap.Valid() && bs.Valid() && bs.Data() == pkt && bs.Pos() == 8 * (at + 1) && radiotap.saddr != bs.buf
    modifies bs`p, bs`bitsLeft, radiotap.saddr
    ensures radiotap.saddr[..] == Address(pkt, at + I_ADDR3)
  {
    var saddr := ReadSource(bs, pkt, at);
    forall i | 0 <= i < MAC_LEN { radiotap.saddr[i] := saddr[i]; }
  }

  method RadiotapHeader(radiotap: RadiotapInfo, buffer: array<byte>, size: nat) returns (r: int)
    requires radiotap.Valid() && size <= buffer.Length && radiotap.saddr != buffer
    modifies radiotap, radiotap.saddr
    ensures var pkt := buffer[..size];
            && r == ParsedLength(pkt)
            && radiotap.frameType == ByteAt(pkt, FrameStart(pkt))
            && radiotap.saddr[..] == if IsData(pkt) then SourceAddress(pkt) else old(radiotap.saddr[..])
    ensures InNumbers(buffer[..size], r, radiotap.saddr[..], old(radiotap.saddr[..]))
  {
    ghost var pkt := buffer[..size];
    ghost var at := FrameStart(pkt);
    var bs := new BitStream(buffer, size);
    var length := SkipHeader(bs, pkt);
    radiotap.frameType := NextByte(bs, pkt, at);
    ghost var before := radiotap.saddr[..];
    if radiotap.frameType != 0x08 {
      ParsedInNumbers(pkt, before, before);
      return SMART_FAIL;
    }
    TakeSource(radiotap, bs, pkt, at);
    ParsedInNumbers(pkt, radiotap.saddr[..], before);
    r := size - length - 76;
  }
}
