/** The mutable bit cursor. Every operation is specified on the abstract view: `Data()` is the
    byte buffer up to `end`, `Pos()` the bit position counted from the start of the memory. */
module BitStream {
  import opened Bits
  import opened BitBuffer
  import opened ExpGolomb

  /** A C shift of a 32-bit word; shifting by 32 or more is undefined and gives any value here. */
  method ShiftLeft32(x: uint32, k: int) returns (r: uint32)
    ensures 0 <= k < 32 ==> r == Shl(x, k) % 0x1_0000_0000
  {
    if 0 <= k < 32 { r := Shl(x, k) % 0x1_0000_0000; } else { r := *; }
  }

  lemma {:induction false} ShrShrinks(x: nat, k: nat)
    ensures Shr(x, k) <= x
  {
    if k == 0 {
    } else {
      ShrShrinks(x / 2, k - 1);
    }
  }

  method ShiftRight32(x: uint32, k: int) returns (r: uint32)
    ensures 0 <= k < 32 ==> r == Shr(x, k)
  {
    if 0 <= k < 32 {
      ShrShrinks(x, k);
      r := Shr(x, k);
    } else {
      r := *;
    }
  }

  // ---------- bulk copies ----------

  /** Byte writes past the end of the buffer make no difference. */
  lemma {:induction false} ClampedByteLoop(s: seq<byte>, k: nat, mem: seq<byte>, at: nat, len: nat, n: nat)
    requires n <= len && at + len <= |mem| && (n < len ==> |s| <= k + n)
    ensures Overwrite(s, k, mem[at..at + n]) == PutByteByByte(s, 8 * k, mem[at..at + len])
  {
    var all := mem[at..at + len];
    assert mem[at..at + n] == all[..n];
    BulkWriteIsByteLoop(s, k, all);
    OverwriteClamped(s, k, all, n);
  }

  /** `memcpy`; a copy of no bytes touches nothing, wherever its pointers point. */
  method CopyMemory(dst: array<byte>, at: nat, src: array<byte>, from: nat, n: nat, ghost bytes: seq<byte>)
    requires n > 0 ==> at + n <= dst.Length && from + n <= src.Length && bytes == src[from..from + n]
    requires n > 0 && dst == src ==> at + n <= from || from + n <= at
    requires |bytes| == n
    modifies dst
    ensures dst[..] == Overwrite(old(dst[..]), at, bytes)
  {
    forall i | 0 <= i < n { dst[at + i] := src[from + i]; }
  }

  // ---------- rounds of the bit loops ----------

  lemma {:induction false} CursorByte(p: nat, bitsLeft: nat, pos: nat)
    requires 1 <= bitsLeft <= 8 && pos == 8 * p + (8 - bitsLeft)
    ensures pos / 8 == p && 7 - pos % 8 == bitsLeft - 1
  {
  }

  function Max0(n: int): nat { if n < 0 then 0 else n }

  function OrWord(a: uint32, b: uint32): uint32 {
    Pow2Of32();
    OrBelow(a, b, 32);
    Or(a, b)
  }

  lemma {:induction false} WordBit(b: bool, k: nat)
    requires k < 32
    ensures Shl(Num(b), k) < 0x1_0000_0000
  {
    ShlNum(b, k);
    Pow2Monotone(k + 1, 32);
    Pow2Of32();
  }

  lemma {:induction false} NextValue(s: seq<byte>, pos: nat, i: nat)
    ensures Value(s, pos, i + 1) == 2 * Value(s, pos, i) + Num(BitAt(s, pos + i))
  {
    assert ReadBits(s, pos, i + 1)[..i] == ReadBits(s, pos, i);
  }

  /** One round of the read loop: the next bit is or-ed in below the bits read so far. */
  lemma {:induction false} OrNextBit(v: nat, b: bool, k: nat)
    ensures Or(Shl(v, k + 1), Shl(Num(b), k)) == Shl(2 * v + Num(b), k)
  {
    ShlNum(b, k);
    OrShl(v, k + 1, Shl(Num(b), k));
    ShlDouble(v, k);
    ShlAdd(2 * v, Num(b), k);
  }

  /** One round of the read loop: `r |= bit << k`. */
  method PushBit(r: uint32, bit: nat, k: int, ghost s: seq<byte>, ghost pos: nat, ghost i: nat) returns (r': uint32)
    requires bit == Num(BitAt(s, pos + i)) && k >= 0
    requires i + k < 32 ==> r == Shl(Value(s, pos, i), k + 1)
    ensures i + k < 32 ==> r' == Shl(Value(s, pos, i + 1), k)
  {
    var shifted := ShiftLeft32(bit, k);
    if i + k < 32 {
      var b := BitAt(s, pos + i);
      WordBit(b, k);
      assert shifted == Shl(bit, k);
      NextValue(s, pos, i);
      OrNextBit(Value(s, pos, i), b, k);
    }
    r' := OrWord(r, shifted);
  }

  lemma {:induction false} ShiftedBit(x: nat, k: nat)
    ensures Shr(x, k) % 2 == Num(Bit(x, k)) == And(Shr(x, k), 1)
  {
    BitOfShr(x, k, 0);
    AndOne(Shr(x, k));
  }

  method SelectBit(v: uint32, k: int) returns (bit: uint32)
    ensures bit <= 1
    ensures 0 <= k < 32 ==> bit == Num(Bit(v, k))
  {
    var shifted := ShiftRight32(v, k);
    AndOne(shifted);
    bit := And(shifted, 1);
    if 0 <= k < 32 { ShiftedBit(v, k); }
  }

  /** The upper i of the low n bits of `v`. */
  function TopBits(v: nat, n: nat, i: nat): (bits: seq<bool>)
    requires i <= n
    ensures i == n ==> bits == BitsOf(v, n)
    ensures i == 0 ==> bits == []
  {
    BitsOf(Shr(v, n - i), i)
  }

  lemma {:induction false} NextTopBit(v: nat, n: nat, i: nat)
    requires i < n
    ensures TopBits(v, n, i + 1) == TopBits(v, n, i) + [Bit(v, n - i - 1)]
  {
    var longer, shorter := TopBits(v, n, i + 1), TopBits(v, n, i);
    forall j | 0 <= j <= i ensures longer[j] == Bit(v, n - 1 - j) {
      BitOfShr(v, n - i - 1, i - j);
    }
    forall j | 0 <= j < i ensures shorter[j] == Bit(v, n - 1 - j) {
      BitOfShr(v, n - i, i - 1 - j);
    }
  }

  lemma {:induction false} PushWritten(s: seq<byte>, pos: nat, bits: seq<bool>, b: bool)
    ensures PutBits(s, pos, bits + [b]) == PutBit(PutBits(s, pos, bits), pos + |bits|, b)
  {
    assert (bits + [b])[..|bits|] == bits;
  }

  /** `b &= ~(1 << k); b |= (v & 1) << k` */
  function StoreBit(b: byte, k: nat, v: uint32): (r: byte)
    requires k < 8
    ensures r == WithBit(b, k, v % 2 == 1)
  {
    AndOne(v);
    assert Pow2(8) == 256;
    MaskedStore(b, 8, k, v % 2 == 1);
    Or(And(b, ClearMask(8, k)), Shl(And(v, 1), k))
  }

  lemma {:induction false} AppendByte(s: seq<byte>, p: nat, i: nat)
    requires p + i < |s|
    ensures Or(Shl(Value(s, 8 * p, 8 * i), 8), s[p + i]) == Value(s, 8 * p, 8 * (i + 1))
  {
    var v, b := Value(s, 8 * p, 8 * i), s[p + i];
    assert Pow2(8) == 256;
    assert Value(s, 8 * p, 8 * (i + 1)) == v * 256 + b by {
      ReadSplit(s, 8 * p, 8 * i, 8);
      AlignedRead(s, p + i);
    }
    OrShl(v, 8, b);
    ShlIsTimes(v, 8);
  }

  // ---------- codes ----------

  lemma {:induction false} PutOneBit(s: seq<byte>, pos: nat, b: bool)
    ensures PutBits(s, pos, [b]) == PutBit(s, pos, b)
  {
    assert [b][..0] == [];
  }

  lemma {:induction false} CodeOfZero()
    ensures UeCode(0) == [true] && BitLength(1) == 1
  {
    assert BitLength(1) == 1;
  }

  /** The number of bits the writer emits for any 32-bit `v`. */
  function UeWrittenLength(v: uint32): (n: int)
    ensures n >= 1
  {
    BitLengthBounds(v + 1);
    if v == 0xFFFF_FFFF then 1 else 2 * BitLength(v + 1) - 1
  }

  lemma {:induction false} LenTableOfZero()
    ensures LEN_TABLE[0] == 1
  {
  }

  /** A number written wider than it is long starts with zeros. */
  lemma {:induction false} PaddedBits(x: nat, len: nat, n: nat)
    requires x < Pow2(len) && len <= n
    ensures BitsOf(x, n) == Zeros(n - len) + BitsOf(x, len)
  {
    forall i | 0 <= i < n - len ensures !BitsOf(x, n)[i] {
      HighBitsAreZero(x, len, n - 1 - i);
    }
  }

  /** v+1 written with twice its length less one is the zero prefix followed by v+1. */
  lemma {:induction false} CodeInOneWord(v: nat)
    requires v <= 65534
    ensures 1 <= BitLength(v + 1) <= 16
    ensures BitsOf(v + 1, 2 * BitLength(v + 1) - 1) == UeCode(v)
  {
    BitLengthBounds(v + 1);
    MagnitudeBound(v);
    PaddedBits(v + 1, BitLength(v + 1), 2 * BitLength(v + 1) - 1);
  }

  /** v+1 as a 32-bit word, and the table's idea of its length. */
  method CodeWord(v: uint32) returns (w: uint32, len: int)
    requires v > 0
    ensures 2 * len - 1 == UeWrittenLength(v)
    ensures v <= 65534 ==> 2 * len - 1 <= 31 && BitsOf(w, 2 * len - 1) == UeCode(v)
    ensures v == 0xFFFF_FFFF ==> BitsOf(w, 1) == [false]
  {
    w := if v == 0xFFFF_FFFF then 0 else v + 1;
    if w == 0 {
      LenTableOfZero();
    } else {
      TableLengthIsBitLength(w);
    }
    if v <= 65534 { CodeInOneWord(v); }
    len := TableLength(w);
  }

  method SignedOf(k: uint32) returns (r: int)
    ensures r == SignedValue(k)
  {
    AndOne(k);
    if And(k, 1) != 0 {
      r := (k + 1) / 2;
    } else {
      var half: int := k / 2;
      r := -half;
    }
  }

  lemma {:induction false} UeFitsWord(s: seq<byte>, pos: nat)
    requires UeZeros(s, pos) <= 30
    ensures UeValue(s, pos) < 0x7FFF_FFFF
  {
    var z := UeZeros(s, pos);
    var v := Value(s, pos + z + 1, z);
    assert v < Pow2(z) by { ValueBound(ReadBits(s, pos + z + 1, z)); }
    assert 4 * Pow2(z) <= 0x1_0000_0000 by {
      Pow2Monotone(z + 2, 32);
      Pow2Of32();
    }
    assert UeValue(s, pos) == v + Pow2(z) - 1;
  }

  // ---------- the cursor ----------

  class BitStream {
    const buf: array<byte>
    const end: nat
    var start: nat
    var p: nat
    var bitsLeft: nat

    ghost predicate Valid()
      reads this
    {
      end <= buf.Length && start <= p && 1 <= bitsLeft <= 8
    }

    ghost function Pos(): nat
      requires Valid()
      reads this
    {
      8 * p + (8 - bitsLeft)
    }

    ghost function Data(): (s: seq<byte>)
      requires Valid()
      reads this, buf
      ensures |s| == end
    {
      buf[..end]
    }

    /** Memory behind `end`, which no operation may touch. */
    ghost function Beyond(): seq<byte>
      requires Valid()
      reads this, buf
    {
      buf[end..]
    }

    constructor (buf: array<byte>, size: nat)
      requires size <= buf.Length
      ensures Valid() && this.buf == buf && end == size && start == 0
      ensures Pos() == 0 && ByteAligned()
    {
      this.buf, this.end := buf, size;
      start, p, bitsLeft := 0, 0, 8;
    }

    /** The clone starts where the source cursor stands and shares its memory. */
    constructor Clone(src: BitStream)
      requires src.Valid()
      ensures Valid() && buf == src.buf && end == src.end
      ensures start == src.p && Pos() == src.Pos()
    {
      buf, end := src.buf, src.end;
      start, p, bitsLeft := src.p, src.p, src.bitsLeft;
    }

    // ---------- queries ----------

    predicate ByteAligned()
      reads this
    {
      bitsLeft == 8
    }

    predicate Eof()
      reads this
    {
      p >= end
    }

    /** The bytes passed, those behind the end not counted. */
    function BytePos(): (n: int)
      reads this
      ensures n == Min(p, end) - start
    {
      if p > end then end - start else p - start
    }

    /** Up to the end the bytes passed and the bytes left are the buffer from the start on; behind it
        the bytes passed are, and fewer than none are left. */
    function BytesLeft(): (n: int)
      reads this
      ensures p <= end ==> n >= 0 && BytePos() + n == end - start
      ensures p > end ==> n < 0 && BytePos() == end - start
    {
      end - p
    }

    method PeekU1() returns (r: nat)
      requires Valid()
      ensures r == Num(BitAt(Data(), Pos()))
    {
      r := 0;
      if !Eof() {
        r := And(Shr(buf[p], bitsLeft - 1), 1);
        ShiftedBit(buf[p], bitsLeft - 1);
      }
    }

    // ---------- single bits ----------

    method ReadU1() returns (r: nat)
      requires Valid()
      modifies this`p, this`bitsLeft
      ensures Valid()
      ensures Pos() == old(Pos()) + 1
      ensures r == Num(BitAt(Data(), old(Pos())))
    {
      r := 0;
      bitsLeft := bitsLeft - 1;
      if !Eof() {
        r := And(Shr(buf[p], bitsLeft), 1);
        ShiftedBit(buf[p], bitsLeft);
      }
      if bitsLeft == 0 { p, bitsLeft := p + 1, 8; }
    }

    method SkipU1()
      requires Valid()
      modifies this`p, this`bitsLeft
      ensures Valid()
      ensures Pos() == old(Pos()) + 1
    {
      bitsLeft := bitsLeft - 1;
      if bitsLeft == 0 { p, bitsLeft := p + 1, 8; }
    }

    method WriteU1(v: uint32)
      requires Valid()
      modifies this`p, this`bitsLeft, buf
      ensures Valid()
      ensures Pos() == old(Pos()) + 1
      ensures Data() == PutBit(old(Data()), old(Pos()), v % 2 == 1) && Beyond() == old(Beyond())
    {
      ghost var s, i := Data(), Pos();
      CursorByte(p, bitsLeft, i);
      bitsLeft := bitsLeft - 1;
      if !Eof() {
        buf[p] := StoreBit(buf[p], bitsLeft, v);
        assert buf[..end] == StoreInRange(s, i, v % 2 == 1);
      }
      if bitsLeft == 0 { p, bitsLeft := p + 1, 8; }
    }

    // ---------- n bits ----------

    method ReadU(n: int) returns (r: uint32)
      requires Valid()
      modifies this`p, this`bitsLeft
      ensures Valid()
      ensures Pos() == old(Pos()) + Max0(n)
      ensures n <= 32 ==> r == Value(Data(), old(Pos()), Max0(n))
    {
      ghost var s, pos := Data(), Pos();
      r := 0;
      ShlIsTimes(0, Max0(n));
      var i := 0;
      while i < n
        invariant 0 <= i <= Max0(n)
        invariant Valid() && Data() == s && Pos() == pos + i
        invariant n <= 32 ==> r == Shl(Value(s, pos, i), Max0(n) - i)
        decreases n - i
      {
        var bit := ReadU1();
        r := PushBit(r, bit, n - i - 1, s, pos, i);
        i := i + 1;
      }
    }

    method SkipU(n: int)
      requires Valid()
      modifies this`p, this`bitsLeft
      ensures Valid()
      ensures Pos() == old(Pos()) + Max0(n)
    {
      var i := 0;
      while i < n
        invariant 0 <= i <= Max0(n)
        invariant Valid() && Pos() == old(Pos()) + i
      {
        SkipU1();
        i := i + 1;
      }
    }

    /** From `s` and `pos` on exactly `bits` have been written, and nothing behind the end. */
    ghost predicate Wrote(s: seq<byte>, pos: nat, bits: seq<bool>, beyond: seq<byte>)
      reads this, buf
    {
      Valid() && Pos() == pos + |bits| && Data() == PutBits(s, pos, bits) && Beyond() == beyond
    }

    /** One round of the write loop, with the bits stored so far as a ghost argument. */
    method WriteNext(v: uint32, k: int, ghost s: seq<byte>, ghost pos: nat, ghost bits: seq<bool>,
                     ghost beyond: seq<byte>) returns (ghost b: bool)
      requires Wrote(s, pos, bits, beyond)
      modifies this`p, this`bitsLeft, buf
      ensures Wrote(s, pos, bits + [b], beyond)
      ensures 0 <= k < 32 ==> b == Bit(v, k)
    {
      var bit := SelectBit(v, k);
      b := bit % 2 == 1;
      PushWritten(s, pos, bits, b);
      WriteU1(bit);
    }

    /** The ghost result names the bits stored; for n beyond 32 the source leaves them undefined. */
    method WriteU(n: int, v: uint32) returns (ghost bits: seq<bool>)
      requires Valid()
      modifies this`p, this`bitsLeft, buf
      ensures Valid()
      ensures |bits| == Max0(n) && (n <= 32 ==> bits == BitsOf(v, Max0(n)))
      ensures Pos() == old(Pos()) + Max0(n)
      ensures Data() == PutBits(old(Data()), old(Pos()), bits) && Beyond() == old(Beyond())
    {
      ghost var s, pos, beyond := Data(), Pos(), Beyond();
      bits := [];
      var i := 0;
      while i < n
        invariant 0 <= i <= Max0(n) && |bits| == i
        invariant n <= 32 ==> bits == TopBits(v, Max0(n), i)
        invariant Wrote(s, pos, bits, beyond)
        decreases n - i
      {
        ghost var b := WriteNext(v, n - i - 1, s, pos, bits, beyond);
        if n <= 32 { NextTopBit(v, n, i); }
        bits := bits + [b];
        i := i + 1;
      }
    }

    /** Reads without moving the cursor. */
    method ReadRu(n: int) returns (r: uint32)
      requires Valid()
      modifies this`p, this`bitsLeft
      ensures p == old(p) && bitsLeft == old(bitsLeft)
      ensures n <= 32 ==> r == Value(Data(), Pos(), Max0(n))
    {
      var ptr, left := p, bitsLeft;
      r := ReadU(n);
      p, bitsLeft := ptr, left;
    }

    method NextBits(n: int) returns (r: uint32)
      requires Valid()
      ensures n <= 32 ==> r == Value(Data(), Pos(), Max0(n))
    {
      var b := new BitStream.Clone(this);
      r := b.ReadU(n);
    }

    // ---------- bytes ----------

    method ReadU8() returns (r: uint32)
      requires Valid()
      modifies this`p, this`bitsLeft
      ensures Valid()
      ensures Pos() == old(Pos()) + 8
      ensures r == Value(Data(), old(Pos()), 8)
    {
      if bitsLeft == 8 && !Eof() {
        AlignedRead(Data(), p);
        r := buf[p];
        p := p + 1;
        return;
      }
      r := ReadU(8);
    }

    method ReadU8n(n: int) returns (r: uint32)
      requires Valid()
      modifies this`p, this`bitsLeft
      ensures Valid()
      ensures Pos() == old(Pos()) + 8 * Max0(n)
      ensures n <= 4 ==> r == Value(Data(), old(Pos()), 8 * Max0(n))
    {
      r := ReadU(8 * n);
    }

    method WriteU8(v: uint32)
      requires Valid()
      modifies this`p, this`bitsLeft, buf
      ensures Valid()
      ensures Pos() == old(Pos()) + 8
      ensures Data() == PutBits(old(Data()), old(Pos()), BitsOf(v, 8)) && Beyond() == old(Beyond())
    {
      if bitsLeft == 8 && !Eof() {
        AlignedWrite(Data(), p, v);
        buf[p] := v % 256;
        assert Data() == old(Data())[p := v % 256];
        p := p + 1;
        return;
      }
      ghost var _ := WriteU(8, v);
    }

    /** Bytes from the byte the cursor stands in; its bit offset plays no part. */
    method NextBytes(n: int) returns (r: nat)
      requires Valid()
      ensures r == if 1 <= n <= 8 && p + n <= end then Value(Data(), 8 * p, 8 * n) else 0
      ensures r < Pow2(64)
    {
      if n > 8 || n < 1 { return 0; }
      if p + n > end { return 0; }
      r := 0;
      var i := 0;
      while i < n
        invariant 0 <= i <= n && r == Value(Data(), 8 * p, 8 * i)
      {
        AppendByte(Data(), p, i);
        r := Or(Shl(r, 8), buf[p + i]);
        i := i + 1;
      }
      ValueBound(ReadBits(Data(), 8 * p, 8 * n));
      Pow2Monotone(8 * n, 64);
    }

    /** The number of bytes a bulk transfer of `len` moves. */
    function Clamp(len: int): nat
      reads this
    {
      var n := if end - p < len then end - p else len;
      if n < 0 then 0 else n
    }

    /** What `memcpy` asks for: a stretch that may lie in the cursor's own memory but does not overlap
        the n bytes from the cursor on. */
    predicate Apart(mem: array<byte>, at: nat, n: nat)
      reads this
    {
      at + n <= mem.Length && (mem == buf ==> at + n <= p || p + n <= at)
    }

    /** Copies n bytes from the cursor's byte on to `dst + at`. */
    method LoadTo(dst: array<byte>, at: nat, n: nat) returns (ghost bytes: seq<byte>)
      requires Valid() && Apart(dst, at, n) && (n > 0 ==> p + n <= end)
      modifies dst
      ensures bytes == ReadByteByByte(old(Data()), 8 * p, n) && (n > 0 ==> bytes == old(Data())[p..p + n])
      ensures dst[..] == Overwrite(old(dst[..]), at, bytes)
    {
      bytes := ReadByteByByte(Data(), 8 * p, n);
      if n > 0 { BulkReadIsByteLoop(Data(), p, n); }
      CopyMemory(dst, at, buf, p, n, bytes);
    }

    /** Copies from the cursor's byte on to `dst + at`; the count is clamped to the bytes left, the
        cursor is not. */
    method ReadBytes(dst: array<byte>, at: nat, len: int) returns (actual: nat)
      requires Valid() && Apart(dst, at, Clamp(len))
      modifies this`p, dst
      ensures Valid() && p == old(p) + Max0(len)
      ensures actual == old(Clamp(len)) == Min(p, end) - Min(old(p), end)
      ensures dst[..] == Overwrite(old(dst[..]), at, ReadByteByByte(old(Data()), 8 * old(p), actual))
      ensures actual > 0 ==> dst[..][at..at + actual] == old(Data())[old(p)..old(p) + actual]
    {
      var n := len;
      if end - p < n { n := end - p; }
      if n < 0 { n := 0; }
      ghost var before := dst[..];
      ghost var bytes := LoadTo(dst, at, n);
      OverwrittenStretch(before, at, bytes);
      p := p + Max0(len);
      return n;
    }

    /** Copies n bytes from `src + at` to the cursor's byte. */
    method StoreFrom(src: array<byte>, at: nat, n: nat)
      requires Valid() && Apart(src, at, n) && (n > 0 ==> p + n <= end)
      modifies buf
      ensures Beyond() == old(Beyond())
      ensures Data() == Overwrite(old(Data()), p, old(src[..][at..at + n]))
    {
      ghost var m, bytes := buf[..], src[..][at..at + n];
      CopyMemory(buf, p, src, at, n, bytes);
      OverwriteBelow(m, end, p, bytes);
    }

    /** Copies from `src + at`: the effect of len byte writes from the cursor's byte on. */
    method WriteBytes(src: array<byte>, at: nat, len: int) returns (actual: nat)
      requires Valid() && Apart(src, at, Clamp(len))
      modifies this`p, buf
      ensures Valid() && p == old(p) + Max0(len)
      ensures actual == old(Clamp(len)) == Min(p, end) - Min(old(p), end) && Beyond() == old(Beyond())
      ensures Data() == Overwrite(old(Data()), old(p), old(src[..][at..at + Clamp(len)]))
      ensures at + Max0(len) <= src.Length ==>
                Data() == PutByteByByte(old(Data()), 8 * old(p), old(src[..][at..at + Max0(len)]))
    {
      var n := len;
      if end - p < n { n := end - p; }
      if n < 0 { n := 0; }
      ghost var s, mem := Data(), src[..];
      StoreFrom(src, at, n);
      if at + Max0(len) <= src.Length { ClampedByteLoop(s, p, mem, at, Max0(len), n); }
      p := p + Max0(len);
      return n;
    }

    /** Ends where as many single bits skipped would end, and counts the bytes passed over that lie in
        the buffer. */
    method SkipBytes(len: int) returns (actual: nat)
      requires Valid()
      modifies this`p
      ensures Valid() && Pos() == old(Pos()) + 8 * Max0(len)
      ensures actual == Min(p, end) - Min(old(p), end)
    {
      var n, m := len, len;
      if end - p < n { n := end - p; }
      if n < 0 { n := 0; }
      if m < 0 { m := 0; }
      p := p + m;
      return n;
    }

    /** n byte reads of s from bit `pos` on are stored in the memory that held t before. */
    ghost predicate CopiedTo(dst: array<byte>, s: seq<byte>, pos: nat, t: seq<byte>, at: nat, n: nat)
      reads this, buf, dst
    {
      && Valid() && Pos() == pos + 8 * n && (dst != buf ==> Data() == s)
      && at + n <= |t| && (dst == buf ==> |s| == end <= |t|)
      && dst[..] == StringCopied(dst == buf, s, pos, t, at, n)
    }

    /** One byte read, stored at once. */
    method CopyNext(dst: array<byte>, ghost s: seq<byte>, ghost pos: nat, ghost t: seq<byte>, at: nat, n: nat)
      requires CopiedTo(dst, s, pos, t, at, n) && at + n < |t|
      modifies this`p, this`bitsLeft, dst
      ensures CopiedTo(dst, s, pos, t, at, n + 1)
    {
      StringNext(dst == buf, s, pos, t, at, n, Data());
      ghost var c := ByteFrom(Data(), Pos());
      dst[at + n] := ReadU8();
    }

    /** Byte reads at any bit offset. When the target lies in the cursor's own memory, bytes stored early
        may be read later; a target not ahead of the cursor, or behind all that is read, gets the bytes
        as they were. */
    method ReadString(strSize: int, dst: array<byte>, at: nat, size: int) returns (r: int)
      requires Valid() && at <= dst.Length && at + size <= dst.Length
      modifies this`p, this`bitsLeft, dst
      ensures Valid()
      ensures r == if strSize <= size - 1 && old(p) + strSize <= end then strSize else -1
      ensures !(strSize <= size - 1 && old(p) + strSize <= end) ==> Pos() == old(Pos()) && dst[..] == old(dst[..])
      ensures strSize <= size - 1 && old(p) + strSize <= end ==>
                && (strSize > 0 ==> p <= end)
                && Pos() == old(Pos()) + 8 * Max0(strSize)
                && dst[..] == StringCopied(dst == buf, old(Data()), old(Pos()), old(dst[..]), at, Max0(strSize))
    {
      if strSize > size - 1 { return -1; }
      if BytesLeft() < strSize { return -1; }
      ghost var s, pos, t := Data(), Pos(), dst[..];
      var i := 0;
      while i < strSize
        invariant 0 <= i <= Max0(strSize)
        invariant CopiedTo(dst, s, pos, t, at, i)
      {
        CopyNext(dst, s, pos, t, at, i);
        i := i + 1;
      }
      return strSize;
    }

    // ---------- Exp-Golomb codes ----------

    /** One more zero inside the buffer: the scan goes on behind it. */
    method NextZero(i: nat, ghost s: seq<byte>, ghost at: nat, ghost z: nat) returns (bit: nat)
      requires Valid() && !Eof() && Data() == s && Pos() == at + 1 && !BitAt(s, at)
      requires i < 32 && z == UeScan(s, at, i)
      modifies this`p, this`bitsLeft
      ensures Valid() && Pos() == at + 2 && bit == Num(BitAt(s, at + 1)) && z == UeScan(s, at + 1, i + 1)
    {
      CursorByte(p, bitsLeft, at + 1);
      ScanOneMore(s, at, i);
      bit := ReadU1();
    }

    /** The zero-counting loop of the reader; it consumes the one that ends the zeros too. */
    method CountZeros() returns (i: nat)
      requires Valid()
      modifies this`p, this`bitsLeft
      ensures Valid()
      ensures i == UeZeros(Data(), old(Pos()))
      ensures Pos() == old(Pos()) + i + 1
    {
      ghost var s, at, z := Data(), Pos(), UeZeros(Data(), Pos());
      i := 0;
      var bit := ReadU1();
      while bit == 0 && i < 32 && !Eof()
        invariant 0 <= i <= 32 && at == old(Pos()) + i
        invariant Valid() && Data() == s && Pos() == at + 1
        invariant bit == Num(BitAt(s, at))
        invariant z == UeScan(s, at, i)
      {
        bit := NextZero(i, s, at, z);
        at := at + 1;
        i := i + 1;
      }
    }

    /** With more than 30 counted zeros the source shifts out of its word: no value is promised then. */
    method ReadUe() returns (r: uint32)
      requires Valid()
      modifies this`p, this`bitsLeft
      ensures Valid()
      ensures Pos() == UeEnd(Data(), old(Pos()))
      ensures UeZeros(Data(), old(Pos())) <= 30 ==> r == UeValue(Data(), old(Pos()))
    {
      ghost var s, pos := Data(), Pos();
      var i := CountZeros();
      assert i == UeZeros(s, pos);
      r := ReadU(i);
      assert Data() == s;
      if i <= 30 {
        UeFitsWord(s, pos);
        r := r + Pow2(i) - 1;
      } else {
        r := *;
      }
    }

    method ReadSe() returns (r: int)
      requires Valid()
      modifies this`p, this`bitsLeft
      ensures Valid()
      ensures Pos() == UeEnd(Data(), old(Pos()))
      ensures UeZeros(Data(), old(Pos())) <= 30 ==> r == SignedValue(UeValue(Data(), old(Pos())))
      ensures UeZeros(Data(), old(Pos())) <= 30 ==>
                var k: int := UeValue(Data(), old(Pos()));
                r == if k % 2 == 1 then (k + 1) / 2 else -(k / 2)
    {
      var k := ReadUe();
      r := SignedOf(k);
    }

    /** Writes the code of `v`; beyond 65534 the code is longer than 32 bits and only its length
        is promised. v = 2^32-1 wraps to 0 and becomes a single zero bit, which is no code. */
    method WriteUe(v: uint32) returns (ghost bits: seq<bool>)
      requires Valid()
      modifies this`p, this`bitsLeft, buf
      ensures Valid()
      ensures |bits| == UeWrittenLength(v)
      ensures v <= 65534 ==> bits == UeCode(v)
      ensures v == 0xFFFF_FFFF ==> bits == [false]
      ensures Pos() == old(Pos()) + |bits|
      ensures Data() == PutBits(old(Data()), old(Pos()), bits) && Beyond() == old(Beyond())
    {
      if v == 0 {
        CodeOfZero();
        PutOneBit(Data(), Pos(), true);
        WriteU1(1);
        bits := [true];
      } else {
        var w, len := CodeWord(v);
        bits := WriteU(2 * len - 1, w);
      }
    }

    method WriteSe(v: int) returns (ghost bits: seq<bool>)
      requires Valid()
      requires -0x4000_0000 < v < 0x4000_0000
      modifies this`p, this`bitsLeft, buf
      ensures Valid()
      ensures |bits| == UeWrittenLength(SignedIndex(v))
      ensures -32767 <= v <= 32767 ==> bits == UeCode(SignedIndex(v))
      ensures 0 < v <= 32767 ==> bits == UeCode(2 * v - 1)
      ensures -32767 <= v <= 0 ==> bits == UeCode(-2 * v)
      ensures Pos() == old(Pos()) + |bits|
      ensures Data() == PutBits(old(Data()), old(Pos()), bits) && Beyond() == old(Beyond())
    {
      ghost var k := SignedIndex(v);
      if v <= 0 {
        assert k == -2 * v;
        bits := WriteUe(-v * 2);
      } else {
        assert k == 2 * v - 1;
        bits := WriteUe(v * 2 - 1);
      }
      assert |bits| == UeWrittenLength(k) && (k <= 65534 ==> bits == UeCode(k));
    }
  }
}
