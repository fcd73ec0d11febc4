/** The Exp-Golomb codes of ITU-T H.264 section 9.1, and the signed mapping of section 9.1.1,
    as bit sequences, with the reader's scan over a buffer. */
module ExpGolomb {
  import opened Bits
  import opened BitBuffer

  function BitLength(v: nat): nat {
    if v == 0 then 0 else 1 + BitLength(v / 2)
  }

  lemma {:induction false} BitLengthBounds(v: nat)
    requires v > 0
    ensures BitLength(v) > 0
    ensures Pow2(BitLength(v) - 1) <= v < Pow2(BitLength(v))
  {
    if v == 1 {
    } else {
      BitLengthBounds(v / 2);
    }
  }

  lemma {:induction false} BitLengthUnique(v: nat, len: nat)
    requires len > 0 && Pow2(len - 1) <= v < Pow2(len)
    ensures BitLength(v) == len
  {
    BitLengthBounds(v);
    if len < BitLength(v) {
      Pow2Monotone(len, BitLength(v) - 1);
    } else if BitLength(v) < len {
      Pow2Monotone(BitLength(v), len - 1);
    }
  }

  // ---------- the table of the writer ----------

  function Repeat(v: int, n: nat): seq<int> {
    seq(n, _ => v)
  }

  const LEN_TABLE: seq<int> :=
    [1] + [1] + Repeat(2, 2) + Repeat(3, 4) + Repeat(4, 8)
    + Repeat(5, 16) + Repeat(6, 32) + Repeat(7, 64) + Repeat(8, 128)

  /** The table holds the bit length of every byte (and 1 for 0). */
  lemma {:induction false} LenTableIsBitLength(b: nat)
    requires 0 < b < 256
    ensures |LEN_TABLE| == 256
    ensures LEN_TABLE[b] == BitLength(b)
  {
    var len := LEN_TABLE[b];
    assert Pow2(0) == 1 && Pow2(1) == 2 && Pow2(2) == 4 && Pow2(3) == 8 && Pow2(4) == 16;
    assert Pow2(5) == 32 && Pow2(6) == 64 && Pow2(7) == 128 && Pow2(8) == 256;
    assert 1 <= len <= 8 && Pow2(len - 1) <= b < Pow2(len);
    BitLengthUnique(b, len);
  }

  /** The writer's four-way split on the size of `v`. */
  function TableLength(v: uint32): int
  {
    assert |LEN_TABLE| == 256;
    if v >= 0x01000000 then 24 + LEN_TABLE[v / 0x1000000]
    else if v >= 0x00010000 then 16 + LEN_TABLE[v / 0x10000]
    else if v >= 0x00000100 then 8 + LEN_TABLE[v / 0x100]
    else LEN_TABLE[v]
  }

  lemma {:induction false} ByteShorter(v: nat)
    ensures v >= 0x100 ==> BitLength(v) == 8 + BitLength(v / 0x100)
  {
    if v >= 0x100 {
      var a := v / 16;
      assert BitLength(v) == 4 + BitLength(a) by {
        assert v / 2 / 2 / 2 / 2 == a;
        assert BitLength(v) == 2 + BitLength(v / 2 / 2);
      }
      assert BitLength(a) == 4 + BitLength(a / 16) by {
        assert a / 2 / 2 / 2 / 2 == a / 16;
        assert BitLength(a) == 2 + BitLength(a / 2 / 2);
      }
      assert a / 16 == v / 0x100;
    }
  }

  lemma {:induction false} ShiftedLength(v: nat)
    ensures v >= 0x100 ==> BitLength(v) == 8 + BitLength(v / 0x100)
    ensures v >= 0x10000 ==> BitLength(v) == 16 + BitLength(v / 0x10000)
    ensures v >= 0x1000000 ==> BitLength(v) == 24 + BitLength(v / 0x1000000)
  {
    ByteShorter(v);
    ByteShorter(v / 0x100);
    ByteShorter(v / 0x10000);
    assert v / 0x100 / 0x100 == v / 0x10000;
    assert v / 0x10000 / 0x100 == v / 0x1000000;
  }

  /** The table lookup computes the bit length of every nonzero 32-bit number. */
  lemma {:induction false} TableLengthIsBitLength(v: uint32)
    requires v > 0
    ensures TableLength(v) == BitLength(v)
    ensures Pow2(TableLength(v) - 1) <= v < Pow2(TableLength(v))
  {
    BitLengthBounds(v);
    ShiftedLength(v);
    if v >= 0x01000000 { LenTableIsBitLength(v / 0x1000000); }
    else if v >= 0x00010000 { LenTableIsBitLength(v / 0x10000); }
    else if v >= 0x00000100 { LenTableIsBitLength(v / 0x100); }
    else { LenTableIsBitLength(v); }
  }

  // ---------- codes ----------

  function Zeros(n: nat): (z: seq<bool>)
    ensures |z| == n
    ensures forall i :: 0 <= i < n ==> !z[i]
  {
    seq(n, _ => false)
  }

  /** ue(v): one zero fewer than v+1 has bits, then v+1 in binary. */
  function UeCode(v: nat): seq<bool> {
    var len := BitLength(v + 1);
    Zeros(len - 1) + BitsOf(v + 1, len)
  }

  /** se(v) is ue of this number: 0, 1, -1, 2, -2, ... count up from 0. */
  function SignedIndex(v: int): nat {
    if v <= 0 then -v * 2 else v * 2 - 1
  }

  function SignedValue(k: nat): int {
    if k % 2 == 1 then (k + 1) / 2 else -(k / 2)
  }

  lemma {:induction false} SignedMapping(v: int, k: nat)
    ensures SignedValue(SignedIndex(v)) == v
    ensures SignedIndex(SignedValue(k)) == k
  {
    var h, odd := Halves(k);
    var half: int := h;
    assert SignedValue(k) == if odd then half + 1 else -half;
    if v <= 0 {
      assert SignedIndex(v) == 2 * -v;
    } else {
      assert SignedIndex(v) == 2 * (v - 1) + 1;
    }
  }

  // ---------- the reader's scan ----------

  const MAX_ZEROS: nat := 32

  /** How many zeros the reader counts from `pos`, having counted `i`: it reads one bit a step and
      stops at a one, at 32 counted zeros, or when that bit was the buffer's last. */
  function UeScan(s: seq<byte>, pos: nat, i: nat): (z: nat)
    requires i <= MAX_ZEROS
    ensures i <= z <= MAX_ZEROS
    decreases MAX_ZEROS - i, s
  {
    if !BitAt(s, pos) && i < MAX_ZEROS && (pos + 1) / 8 < |s| then UeScan(s, pos + 1, i + 1) else i
  }

  function UeZeros(s: seq<byte>, pos: nat): nat {
    UeScan(s, pos, 0)
  }

  function UeValue(s: seq<byte>, pos: nat): nat {
    var z := UeZeros(s, pos);
    Value(s, pos + z + 1, z) + Pow2(z) - 1
  }

  function UeEnd(s: seq<byte>, pos: nat): nat {
    pos + 2 * UeZeros(s, pos) + 1
  }

  lemma {:induction false} ScanOneMore(s: seq<byte>, pos: nat, i: nat)
    requires !BitAt(s, pos) && i < MAX_ZEROS && (pos + 1) / 8 < |s|
    ensures UeScan(s, pos, i) == UeScan(s, pos + 1, i + 1)
  {
  }

  lemma {:induction false} ScanFindsOne(s: seq<byte>, pos: nat, i: nat, z: nat)
    requires i + z <= MAX_ZEROS && pos + z < 8 * |s|
    requires ReadBits(s, pos, z + 1) == Zeros(z) + [true]
    ensures UeScan(s, pos, i) == i + z
    decreases z
  {
    var b := ReadBits(s, pos, z + 1);
    assert b[0] == BitAt(s, pos);
    if z == 0 {
    } else {
      assert !BitAt(s, pos) && (pos + 1) / 8 < |s|;
      assert ReadBits(s, pos + 1, z) == b[1..] == Zeros(z - 1) + [true];
      ScanFindsOne(s, pos + 1, i + 1, z - 1);
    }
  }

  lemma {:induction false} SliceConcat(a: seq<bool>, b: seq<bool>)
    ensures (a + b)[..|a|] == a && (a + b)[|a|..] == b
  {
  }

  lemma {:induction false} ReadParts(s: seq<byte>, pos: nat, n: nat, m: nat, a: seq<bool>, b: seq<bool>)
    requires |a| == n && |b| == m
    requires ReadBits(s, pos, n + m) == a + b
    ensures ReadBits(s, pos, n) == a && ReadBits(s, pos + n, m) == b
  {
    ReadSplit(s, pos, n, m);
    SliceConcat(a, b);
    SliceConcat(ReadBits(s, pos, n), ReadBits(s, pos + n, m));
  }

  /** z zeros and a one, with room for z more bits, decode to 2^z - 1 plus those bits. */
  lemma {:induction false} DecodeCode(s: seq<byte>, pos: nat, z: nat)
    requires z <= MAX_ZEROS && pos + z < 8 * |s|
    requires ReadBits(s, pos, z + 1) == Zeros(z) + [true]
    ensures UeZeros(s, pos) == z
    ensures UeValue(s, pos) == ValueOf(ReadBits(s, pos + z + 1, z)) + Pow2(z) - 1
    ensures UeEnd(s, pos) == pos + 2 * z + 1
  {
    ScanFindsOne(s, pos, 0, z);
  }

  /** floor(log2(v + 1)), the number of leading zeros of the code. */
  function Magnitude(v: nat): nat {
    BitLengthBounds(v + 1);
    BitLength(v + 1) - 1
  }

  /** The bits behind the leading one of the code. */
  function Remainder(v: nat): (bits: seq<bool>)
    ensures |bits| == Magnitude(v)
  {
    BitLengthBounds(v + 1);
    BitsOf(v + 1 - Pow2(Magnitude(v)), Magnitude(v))
  }

  lemma {:induction false} TopBit(x: nat, z: nat)
    requires Pow2(z) <= x < 2 * Pow2(z)
    ensures Bit(x, z)
    ensures forall k: nat :: k < z ==> Bit(x, k) == Bit(x - Pow2(z), k)
  {
    if z == 0 {
    } else {
      var h, d := Halves(x);
      var y := h - Pow2(z - 1);
      TopBit(h, z - 1);
      assert x - Pow2(z) == 2 * y + Num(d);
      forall k: nat | k < z ensures Bit(x, k) == Bit(x - Pow2(z), k) {
        BitDouble(h, d, k);
        BitDouble(y, d, k);
      }
    }
  }

  lemma {:induction false} TopBitsOf(x: nat, z: nat)
    requires Pow2(z) <= x < 2 * Pow2(z)
    ensures BitsOf(x, z + 1) == [true] + BitsOf(x - Pow2(z), z)
  {
    TopBit(x, z);
    var l, r := BitsOf(x, z + 1), [true] + BitsOf(x - Pow2(z), z);
    forall i | 0 <= i <= z ensures l[i] == r[i] {
      if i > 0 { assert r[i] == Bit(x - Pow2(z), z - i); }
    }
  }

  lemma {:induction false} CodeShape(v: nat)
    ensures Pow2(Magnitude(v)) <= v + 1 < 2 * Pow2(Magnitude(v))
    ensures |UeCode(v)| == 2 * Magnitude(v) + 1
    ensures UeCode(v) == Zeros(Magnitude(v)) + [true] + Remainder(v)
  {
    BitLengthBounds(v + 1);
    TopBitsOf(v + 1, Magnitude(v));
  }

  lemma {:induction false} RemainderValue(v: nat)
    ensures ValueOf(Remainder(v)) + Pow2(Magnitude(v)) - 1 == v
  {
    CodeShape(v);
    var z := Magnitude(v);
    ValueOfBitsOf(v + 1 - Pow2(z), z);
    ModUnique(v + 1 - Pow2(z), Pow2(z), 0, v + 1 - Pow2(z));
  }

  lemma {:induction false} MagnitudeBound(v: nat)
    requires v <= 0xFFFF_FFFE
    ensures Magnitude(v) < 32
    ensures v <= 65534 ==> Magnitude(v) < 16
  {
    CodeShape(v);
    Pow2Of32();
    if Magnitude(v) >= 32 {
      Pow2Monotone(32, Magnitude(v));
    }
    if Magnitude(v) >= 16 {
      Pow2Monotone(16, Magnitude(v));
    }
  }

  /** Round trip: a code inside the buffer reads back as its number, and the cursor ends behind it. */
  lemma {:induction false} UeRoundTrip(s: seq<byte>, pos: nat, v: nat)
    requires v <= 0xFFFF_FFFE
    requires pos + |UeCode(v)| <= 8 * |s|
    requires ReadBits(s, pos, |UeCode(v)|) == UeCode(v)
    ensures UeValue(s, pos) == v && UeEnd(s, pos) == pos + |UeCode(v)|
  {
    CodeShape(v);
    MagnitudeBound(v);
    var z := Magnitude(v);
    ReadParts(s, pos, z + 1, z, Zeros(z) + [true], Remainder(v));
    DecodeCode(s, pos, z);
    RemainderValue(v);
  }

  lemma {:induction false} ScanToEnd(s: seq<byte>, pos: nat, i: nat, k: nat)
    requires 0 < k && i + k <= MAX_ZEROS + 1 && pos + k == 8 * |s|
    requires ReadBits(s, pos, k) == Zeros(k)
    ensures UeScan(s, pos, i) == i + k - 1
    decreases k
  {
    var b := ReadBits(s, pos, k);
    assert b[0] == BitAt(s, pos);
    if k == 1 {
    } else {
      assert ReadBits(s, pos + 1, k - 1) == b[1..] == Zeros(k - 1);
      ScanToEnd(s, pos + 1, i + 1, k - 1);
    }
  }

  /** A code cut off in its zeros: of k zeros up to the end of the buffer the reader counts k-1, and
      it reads the missing bits as zeros. */
  lemma {:induction false} UeTruncated(s: seq<byte>, pos: nat, k: nat)
    requires 0 < k <= MAX_ZEROS + 1 && pos + k == 8 * |s|
    requires ReadBits(s, pos, k) == Zeros(k)
    ensures UeZeros(s, pos) == k - 1 && UeValue(s, pos) == Pow2(k - 1) - 1
  {
    ScanToEnd(s, pos, 0, k);
    var missing := ReadBits(s, pos + k, k - 1);
    forall i | 0 <= i < k - 1 ensures !missing[i] {
      assert !BitAt(s, pos + k + i);
    }
    ValueOfZeros(missing);
  }

  lemma {:induction false} CodeOfRemainder(v: nat, rest: seq<bool>)
    requires v == ValueOf(rest) + Pow2(|rest|) - 1
    ensures v + 1 < Pow2(|rest| + 1)
    ensures UeCode(v) == Zeros(|rest|) + [true] + rest
  {
    ValueBound(rest);
    BitLengthUnique(v + 1, |rest| + 1);
    CodeShape(v);
    BitsOfValueOf(rest);
  }

  /** Canonical codes: every in-range code is the one and only code of the number it reads as. */
  lemma {:induction false} UeCanonical(s: seq<byte>, pos: nat, z: nat)
    requires z <= 15 && pos + 2 * z + 1 <= 8 * |s|
    requires ReadBits(s, pos, z + 1) == Zeros(z) + [true]
    ensures UeValue(s, pos) <= 65534
    ensures UeCode(UeValue(s, pos)) == ReadBits(s, pos, 2 * z + 1)
  {
    var v, rest := UeValue(s, pos), ReadBits(s, pos + z + 1, z);
    assert ReadBits(s, pos, 2 * z + 1) == Zeros(z) + [true] + rest by { ReadSplit(s, pos, z + 1, z); }
    assert v == ValueOf(rest) + Pow2(z) - 1 by { DecodeCode(s, pos, z); }
    CodeOfRemainder(v, rest);
    assert Pow2(z + 1) <= 65536 by {
      Pow2Monotone(z + 1, 16);
      Pow2Of32();
    }
  }

  predicate FirstOneAt(c: seq<bool>, z: nat) {
    z < |c| && c[z] && forall i :: 0 <= i < z ==> !c[i]
  }

  lemma {:induction false} FirstOne(c: seq<bool>, z: nat, rest: seq<bool>)
    requires c == Zeros(z) + [true] + rest
    ensures FirstOneAt(c, z) && c[z + 1..] == rest
  {
  }

  lemma {:induction false} SameFirstOne(c: seq<bool>, y: nat, z: nat)
    requires FirstOneAt(c, y) && FirstOneAt(c, z)
    ensures y == z
  {
  }

  /** No code is a proper prefix of another one. */
  lemma {:induction false} UePrefixFree(v: nat, w: nat, tail: seq<bool>)
    requires UeCode(v) + tail == UeCode(w)
    ensures v == w && tail == []
  {
    CodeShape(v);
    CodeShape(w);
    FirstOne(UeCode(v) + tail, Magnitude(v), Remainder(v) + tail);
    FirstOne(UeCode(w), Magnitude(w), Remainder(w));
    SameFirstOne(UeCode(w), Magnitude(v), Magnitude(w));
    assert Remainder(v) + tail == Remainder(w);
    assert |tail| == 0;
    assert Remainder(v) == Remainder(w);
    RemainderValue(v);
    RemainderValue(w);
  }

  // ---------- small codes ----------

  /** The codes of 0 to 4 are 1, 010, 011, 00100 and 00101. */
  lemma {:induction false} SmallCodes()
    ensures UeCode(0) == [true] && UeCode(1) == [false, true, false] && UeCode(2) == [false, true, true]
    ensures UeCode(3) == [false, false, true, false, false] && UeCode(4) == [false, false, true, false, true]
  {
    BitLengthUnique(1, 1);
    BitLengthUnique(2, 2);
    BitLengthUnique(3, 2);
    BitLengthUnique(4, 3);
    BitLengthUnique(5, 3);
  }

  /** The positive value comes first: 010 reads as 1 and 011 as -1, and that is how they are written. */
  lemma {:induction false} SignsOfCodes(s: seq<byte>, pos: nat)
    requires pos + 3 <= 8 * |s|
    ensures UeCode(SignedIndex(1)) == [false, true, false] && UeCode(SignedIndex(-1)) == [false, true, true]
    ensures ReadBits(s, pos, 3) == [false, true, false] ==>
              SignedValue(UeValue(s, pos)) == 1 && UeEnd(s, pos) == pos + 3
    ensures ReadBits(s, pos, 3) == [false, true, true] ==>
              SignedValue(UeValue(s, pos)) == -1 && UeEnd(s, pos) == pos + 3
  {
    SmallCodes();
    if ReadBits(s, pos, 3) == UeCode(1) { UeRoundTrip(s, pos, 1); }
    if ReadBits(s, pos, 3) == UeCode(2) { UeRoundTrip(s, pos, 2); }
  }

  lemma {:induction false} ScanZeros(s: seq<byte>, pos: nat, i: nat, k: nat)
    requires i + k <= 32 && (pos + k) / 8 < |s| && ReadBits(s, pos, k) == Zeros(k)
    ensures UeScan(s, pos, i) == UeScan(s, pos + k, i + k)
    decreases k
  {
    if k == 0 {
    } else {
      assert BitAt(s, pos) == ReadBits(s, pos, k)[0];
      assert ReadBits(s, pos + 1, k - 1) == ReadBits(s, pos, k)[1..] == Zeros(k - 1);
      ScanOneMore(s, pos, i);
      ScanZeros(s, pos + 1, i + 1, k - 1);
    }
  }

  /** The reader gives up counting at 32 zeros, and takes 32 more bits behind the next one. */
  lemma {:induction false} UeGivesUp(s: seq<byte>, pos: nat)
    requires (pos + 32) / 8 < |s| && ReadBits(s, pos, 32) == Zeros(32)
    ensures UeZeros(s, pos) == 32 && UeEnd(s, pos) == pos + 65
  {
    ScanZeros(s, pos, 0, 32);
  }
}
