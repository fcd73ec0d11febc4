/** The abstract view of the bit cursor: a byte buffer seen as one sequence of bits, most
    significant bit of each byte first. A cursor is a bit position, which may pass the end. */
module BitBuffer {
  import opened Bits

  /** Bit `i` of the buffer; past the end every bit reads as 0. */
  predicate BitAt(s: seq<byte>, i: nat) {
    i / 8 < |s| && Bit(s[i / 8], 7 - i % 8)
  }

  /** The n bits from `pos` on. */
  function ReadBits(s: seq<byte>, pos: nat, n: nat): (bits: seq<bool>)
    ensures |bits| == n
    ensures forall i :: 0 <= i < n ==> bits[i] == BitAt(s, pos + i)
  {
    seq(n, i requires 0 <= i < n => BitAt(s, pos + i))
  }

  /** A bit sequence as a big-endian number. */
  function ValueOf(bits: seq<bool>): nat {
    if bits == [] then 0 else 2 * ValueOf(bits[..|bits| - 1]) + Num(bits[|bits| - 1])
  }

  /** The n bits from `pos` as a big-endian number. */
  function Value(s: seq<byte>, pos: nat, n: nat): nat {
    ValueOf(ReadBits(s, pos, n))
  }

  /** The low n bits of `v`, most significant first. */
  function BitsOf(v: nat, n: nat): (bits: seq<bool>)
    ensures |bits| == n
    ensures forall i :: 0 <= i < n ==> bits[i] == Bit(v, n - 1 - i)
  {
    seq(n, i requires 0 <= i < n => Bit(v, n - 1 - i))
  }

  lemma {:induction false} WithBitIsByte(b: byte, k: nat, v: bool)
    requires k < 8
    ensures WithBit(b, k, v) < 256
  {
    assert Pow2(8) == 256;
    MaskedStore(b, 8, k, v);
  }

  function StoreInRange(s: seq<byte>, i: nat, v: bool): (r: seq<byte>)
    requires i / 8 < |s|
    ensures |r| == |s|
  {
    WithBitIsByte(s[i / 8], 7 - i % 8, v);
    s[i / 8 := WithBit(s[i / 8], 7 - i % 8, v)]
  }

  function PutBit(s: seq<byte>, i: nat, v: bool): (r: seq<byte>)
    ensures |r| == |s|
  {
    if i / 8 < |s| then StoreInRange(s, i, v) else s
  }

  /** The buffer after `bits` are stored from bit position `pos` on; those past the end are dropped. */
  function PutBits(s: seq<byte>, pos: nat, bits: seq<bool>): (r: seq<byte>)
    ensures |r| == |s|
    decreases |bits|
  {
    if bits == [] then s
    else PutBit(PutBits(s, pos, bits[..|bits| - 1]), pos + |bits| - 1, bits[|bits| - 1])
  }

  // ---------- what a write changes ----------

  lemma {:induction false} PutBitAt(s: seq<byte>, i: nat, v: bool, j: nat)
    ensures BitAt(PutBit(s, i, v), j) == if j == i && i < 8 * |s| then v else BitAt(s, j)
  {
    if i / 8 < |s| {
      var k := 7 - i % 8;
      BitOfWithBit(s[i / 8], k, v, 7 - j % 8);
      assert j / 8 == i / 8 && 7 - j % 8 == k ==> i == j;
    }
  }

  /** Bits of the written range hold what was written, all other bits of the buffer keep their value. */
  lemma {:induction false} PutBitsAt(s: seq<byte>, pos: nat, bits: seq<bool>, j: nat)
    ensures BitAt(PutBits(s, pos, bits), j)
         == if pos <= j < pos + |bits| && j < 8 * |s| then bits[j - pos] else BitAt(s, j)
    decreases |bits|
  {
    if bits == [] {
    } else {
      var n := |bits| - 1;
      PutBitsAt(s, pos, bits[..n], j);
      PutBitAt(PutBits(s, pos, bits[..n]), pos + n, bits[n], j);
    }
  }

  /** A buffer is determined by its length and its bits. */
  lemma {:induction false} SameBuffer(s: seq<byte>, t: seq<byte>)
    requires |s| == |t|
    requires forall j: nat :: j < 8 * |s| ==> BitAt(s, j) == BitAt(t, j)
    ensures s == t
  {
    forall k | 0 <= k < |s| ensures s[k] == t[k] {
      forall j: nat | j < 8 ensures Bit(s[k], j) == Bit(t[k], j) {
        var i := 8 * k + 7 - j;
        assert i / 8 == k && 7 - i % 8 == j;
        assert BitAt(s, i) == BitAt(t, i);
      }
      assert Pow2(8) == 256;
      SameLowBits(s[k], t[k], 8);
    }
  }

  lemma {:induction false} PutBitsConcat(s: seq<byte>, pos: nat, a: seq<bool>, b: seq<bool>)
    ensures PutBits(PutBits(s, pos, a), pos + |a|, b) == PutBits(s, pos, a + b)
  {
    var l := PutBits(PutBits(s, pos, a), pos + |a|, b);
    var r := PutBits(s, pos, a + b);
    forall j: nat ensures BitAt(l, j) == BitAt(r, j) {
      PutBitsAt(PutBits(s, pos, a), pos + |a|, b, j);
      PutBitsAt(s, pos, a, j);
      PutBitsAt(s, pos, a + b, j);
    }
    SameBuffer(l, r);
  }

  // ---------- what a read returns ----------

  lemma {:induction false} ValueBound(bits: seq<bool>)
    ensures ValueOf(bits) < Pow2(|bits|)
  {
    if bits == [] {
    } else {
      ValueBound(bits[..|bits| - 1]);
    }
  }

  lemma {:induction false} ValueOfZeros(bits: seq<bool>)
    requires forall i :: 0 <= i < |bits| ==> !bits[i]
    ensures ValueOf(bits) == 0
  {
    if bits == [] {
    } else {
      ValueOfZeros(bits[..|bits| - 1]);
    }
  }

  /** Writing a number out and reading it back keeps its low n bits. */
  lemma {:induction false} ValueOfBitsOf(v: nat, n: nat)
    ensures ValueOf(BitsOf(v, n)) == v % Pow2(n)
  {
    if n == 0 {
    } else {
      ValueOfBitsOf(v / 2, n - 1);
      assert BitsOf(v, n)[..n - 1] == BitsOf(v / 2, n - 1);
      ModDouble(v, Pow2(n - 1));
    }
  }

  /** Reading bits as a number and writing it out gives the same bits. */
  lemma {:induction false} BitsOfValueOf(bits: seq<bool>)
    ensures BitsOf(ValueOf(bits), |bits|) == bits
  {
    if bits == [] {
    } else {
      var n, v := |bits| - 1, ValueOf(bits);
      assert v / 2 == ValueOf(bits[..n]);
      BitsOfValueOf(bits[..n]);
      forall i | 0 <= i <= n ensures BitsOf(v, n + 1)[i] == bits[i] {
        if i < n { assert BitsOf(v / 2, n)[i] == bits[..n][i]; }
      }
    }
  }

  lemma {:induction false} ValueOfConcat(a: seq<bool>, b: seq<bool>)
    ensures ValueOf(a + b) == ValueOf(a) * Pow2(|b|) + ValueOf(b)
  {
    if b == [] {
      assert a + b == a;
    } else {
      var n := |b| - 1;
      ValueOfConcat(a, b[..n]);
      assert (a + b)[..|a + b| - 1] == a + b[..n];
      TimesDouble(ValueOf(a), Pow2(n));
    }
  }

  /** Reading n+m bits is reading n and then m. */
  lemma {:induction false} ReadSplit(s: seq<byte>, pos: nat, n: nat, m: nat)
    ensures ReadBits(s, pos, n + m) == ReadBits(s, pos, n) + ReadBits(s, pos + n, m)
    ensures Value(s, pos, n + m) == Value(s, pos, n) * Pow2(m) + Value(s, pos + n, m)
  {
    assert ReadBits(s, pos, n + m) == ReadBits(s, pos, n) + ReadBits(s, pos + n, m);
    ValueOfConcat(ReadBits(s, pos, n), ReadBits(s, pos + n, m));
  }

  /** Bits written inside the buffer read back as they were. */
  lemma {:induction false} ReadWritten(s: seq<byte>, pos: nat, bits: seq<bool>)
    requires pos + |bits| <= 8 * |s|
    ensures ReadBits(PutBits(s, pos, bits), pos, |bits|) == bits
  {
    forall i | 0 <= i < |bits| ensures BitAt(PutBits(s, pos, bits), pos + i) == bits[i] {
      PutBitsAt(s, pos, bits, pos + i);
    }
  }

  /** A number written with n bits reads back as its low n bits. */
  lemma {:induction false} WriteThenRead(s: seq<byte>, pos: nat, n: nat, v: nat)
    requires pos + n <= 8 * |s|
    ensures Value(PutBits(s, pos, BitsOf(v, n)), pos, n) == v % Pow2(n)
  {
    ReadWritten(s, pos, BitsOf(v, n));
    ValueOfBitsOf(v, n);
  }

  // ---------- byte-aligned positions ----------

  function ByteAt(s: seq<byte>, k: nat): byte {
    if k < |s| then s[k] else 0
  }

  lemma {:induction false} AlignedRead(s: seq<byte>, k: nat)
    ensures Value(s, 8 * k, 8) == ByteAt(s, k)
  {
    var v := ByteAt(s, k);
    forall i | 0 <= i < 8 ensures ReadBits(s, 8 * k, 8)[i] == Bit(v, 7 - i) {
      assert (8 * k + i) / 8 == k && (8 * k + i) % 8 == i;
      BitOfZero(7 - i);
    }
    assert ReadBits(s, 8 * k, 8) == BitsOf(v, 8);
    ValueOfBitsOf(v, 8);
    assert Pow2(8) == 256;
  }

  /** Storing a whole byte is writing its eight bits. */
  lemma {:induction false} AlignedWrite(s: seq<byte>, k: nat, v: nat)
    requires k < |s|
    ensures PutBits(s, 8 * k, BitsOf(v, 8)) == s[k := v % 256]
  {
    var l, r := PutBits(s, 8 * k, BitsOf(v, 8)), s[k := v % 256];
    assert Pow2(8) == 256;
    forall j: nat | j < 8 * |s| ensures BitAt(l, j) == BitAt(r, j) {
      PutBitsAt(s, 8 * k, BitsOf(v, 8), j);
      if j / 8 == k { LowBits(v, 8, 7 - j % 8); }
    }
    SameBuffer(l, r);
  }

  /** A write that starts past the end of the buffer changes nothing. */
  lemma {:induction false} PutPastEnd(s: seq<byte>, pos: nat, bits: seq<bool>)
    requires pos >= 8 * |s|
    ensures PutBits(s, pos, bits) == s
  {
    forall j: nat | j < 8 * |s| ensures BitAt(PutBits(s, pos, bits), j) == BitAt(s, j) {
      PutBitsAt(s, pos, bits, j);
    }
    SameBuffer(PutBits(s, pos, bits), s);
  }

  // ---------- bulk transfers against repeated byte operations ----------

  /** Writing the bytes one at a time with the byte operation. */
  function PutByteByByte(s: seq<byte>, pos: nat, bytes: seq<byte>): (r: seq<byte>)
    ensures |r| == |s|
    decreases |bytes|
  {
    if bytes == [] then s else PutByteByByte(PutBits(s, pos, BitsOf(bytes[0], 8)), pos + 8, bytes[1..])
  }

  /** The byte operation's result at any bit position. */
  function ByteFrom(s: seq<byte>, pos: nat): (b: byte)
    ensures b == Value(s, pos, 8)
  {
    ValueBound(ReadBits(s, pos, 8));
    assert Pow2(8) == 256;
    Value(s, pos, 8)
  }

  /** Reading n bytes one at a time with the byte operation. */
  function ReadByteByByte(s: seq<byte>, pos: nat, n: nat): (bytes: seq<byte>)
    ensures |bytes| == n
    decreases n, s
  {
    if n == 0 then [] else ReadByteByByte(s, pos, n - 1) + [ByteFrom(s, pos + 8 * (n - 1))]
  }

  function Min(a: int, b: int): int { if a < b then a else b }

  /** The buffer with `bytes` in place from byte k on; those past the end are dropped. */
  function Overwrite(s: seq<byte>, k: nat, bytes: seq<byte>): (r: seq<byte>)
    ensures |r| == |s|
    ensures forall i :: 0 <= i < |s| ==> r[i] == if k <= i < k + |bytes| then bytes[i - k] else s[i]
  {
    seq(|s|, i requires 0 <= i < |s| => if k <= i < k + |bytes| then bytes[i - k] else s[i])
  }

  lemma {:induction false} ByteLoopPastEnd(s: seq<byte>, pos: nat, bytes: seq<byte>)
    requires pos >= 8 * |s| || bytes == []
    ensures PutByteByByte(s, pos, bytes) == s
    decreases |bytes|
  {
    if bytes == [] {
    } else {
      PutPastEnd(s, pos, BitsOf(bytes[0], 8));
      ByteLoopPastEnd(s, pos + 8, bytes[1..]);
    }
  }

  lemma {:induction false} StoreFirst(s: seq<byte>, k: nat, bytes: seq<byte>)
    requires bytes != [] && k < |s|
    ensures Overwrite(s[k := bytes[0]], k + 1, bytes[1..]) == Overwrite(s, k, bytes)
  {
  }

  /** Writing bytes one by one from a byte boundary is replacing them in one go. */
  lemma {:induction false} BulkWriteIsByteLoop(s: seq<byte>, k: nat, bytes: seq<byte>)
    ensures PutByteByByte(s, 8 * k, bytes) == Overwrite(s, k, bytes)
    decreases |bytes|
  {
    if bytes == [] || k >= |s| {
      ByteLoopPastEnd(s, 8 * k, bytes);
    } else {
      AlignedWrite(s, k, bytes[0]);
      BulkWriteIsByteLoop(s[k := bytes[0]], k + 1, bytes[1..]);
      StoreFirst(s, k, bytes);
    }
  }

  lemma {:induction false} OverwrittenStretch(s: seq<byte>, k: nat, bytes: seq<byte>)
    requires k + |bytes| <= |s|
    ensures Overwrite(s, k, bytes)[k..k + |bytes|] == bytes
  {
  }

  /** Of a stretch that passes the end only the part in front of it counts. */
  lemma {:induction false} OverwriteClamped(s: seq<byte>, k: nat, bytes: seq<byte>, n: nat)
    requires n <= |bytes| && (n < |bytes| ==> |s| <= k + n)
    ensures Overwrite(s, k, bytes[..n]) == Overwrite(s, k, bytes)
  {
  }

  /** A stretch that ends at or before `end` changes nothing behind it. */
  lemma {:induction false} OverwriteBelow(m: seq<byte>, end: nat, k: nat, bytes: seq<byte>)
    requires end <= |m| && (bytes != [] ==> k + |bytes| <= end)
    ensures Overwrite(m, k, bytes)[..end] == Overwrite(m[..end], k, bytes)
    ensures Overwrite(m, k, bytes)[end..] == m[end..]
  {
  }

  lemma {:induction false} OverwriteNext(s: seq<byte>, k: nat, bytes: seq<byte>, b: byte)
    requires k + |bytes| < |s|
    ensures Overwrite(s, k, bytes + [b]) == Overwrite(s, k, bytes)[k + |bytes| := b]
  {
  }

  lemma {:induction false} AlignedByte(s: seq<byte>, k: nat, pos: nat)
    requires k < |s| && pos == 8 * k
    ensures ByteFrom(s, pos) == s[k]
  {
    AlignedRead(s, k);
  }

  lemma {:induction false} LastOfSlice(s: seq<byte>, i: nat, j: nat)
    requires i < j <= |s|
    ensures s[i..j] == s[i..j - 1] + [s[j - 1]]
  {
  }

  lemma {:induction false} BulkReadIsByteLoop(s: seq<byte>, k: nat, n: nat)
    requires k + n <= |s|
    ensures ReadByteByByte(s, 8 * k, n) == s[k..k + n]
    decreases n
  {
    if n == 0 {
    } else {
      BulkReadIsByteLoop(s, k, n - 1);
      AlignedByte(s, k + n - 1, 8 * k + 8 * (n - 1));
      LastOfSlice(s, k, k + n);
    }
  }

  // ---------- a copy of the buffer's bytes into its own memory ----------

  function CopyByte(m: seq<byte>, end: nat, pos: nat, k: nat): (r: seq<byte>)
    requires end <= |m| && k < |m|
    ensures |r| == |m|
  {
    m[k := ByteFrom(m[..end], pos)]
  }

  /** The memory m after n byte reads from its first `end` bytes, each stored before the next one. */
  function CopiedWithin(m: seq<byte>, end: nat, pos: nat, at: nat, n: nat): (r: seq<byte>)
    requires end <= |m| && at + n <= |m|
    ensures |r| == |m|
    decreases n, m
  {
    if n == 0 then m else CopyByte(CopiedWithin(m, end, pos, at, n - 1), end, pos + 8 * (n - 1), at + n - 1)
  }

  /** No read from bit `pos` on sees what is stored from byte `at` on. */
  predicate Unseen(end: nat, at: nat, n: nat, pos: nat) {
    n == 0 || pos + 8 <= 8 * at || 8 * (at + n) <= pos || end <= at
  }

  /** Bytes that lie outside an overwritten stretch read as before. */
  lemma {:induction false} ReadOutside(m: seq<byte>, end: nat, at: nat, bytes: seq<byte>, pos: nat)
    requires end <= |m| && at + |bytes| <= |m| && Unseen(end, at, |bytes|, pos)
    ensures ByteFrom(Overwrite(m, at, bytes)[..end], pos) == ByteFrom(m[..end], pos)
  {
    var s, t := m[..end], Overwrite(m, at, bytes)[..end];
    forall i | 0 <= i < 8 ensures ReadBits(t, pos, 8)[i] == ReadBits(s, pos, 8)[i] {
      assert end <= at || !(at <= (pos + i) / 8 < at + |bytes|);
    }
    assert ReadBits(t, pos, 8) == ReadBits(s, pos, 8);
  }

  lemma {:induction false} CopyByteInTime(m: seq<byte>, end: nat, at: nat, bytes: seq<byte>, pos: nat)
    requires end <= |m| && at + |bytes| < |m| && Unseen(end, at, |bytes|, pos)
    ensures CopyByte(Overwrite(m, at, bytes), end, pos, at + |bytes|)
         == Overwrite(m, at, bytes + [ByteFrom(m[..end], pos)])
  {
    ReadOutside(m, end, at, bytes, pos);
    OverwriteNext(m, at, bytes, ByteFrom(m[..end], pos));
  }

  lemma {:induction false} CopiedNext(m: seq<byte>, end: nat, pos: nat, at: nat, n: nat, bytes: seq<byte>, b: byte)
    requires end <= |m| && at + n < |m| && Unseen(end, at, n, pos + 8 * n)
    requires |bytes| == n && CopiedWithin(m, end, pos, at, n) == Overwrite(m, at, bytes)
    requires b == ByteFrom(m[..end], pos + 8 * n)
    ensures CopiedWithin(m, end, pos, at, n + 1) == Overwrite(m, at, bytes + [b])
  {
    var before, last := CopiedWithin(m, end, pos, at, n), pos + 8 * n;
    CopyByteInTime(m, end, at, bytes, last);
    assert CopiedWithin(m, end, pos, at, n + 1) == CopyByte(before, end, last, at + n);
  }

  /** One byte is read before it is stored; more are when the target starts at or before the reader's
      byte, behind all that is read, or behind the buffer. */
  predicate InTime(end: nat, pos: nat, at: nat, n: nat) {
    n <= 1 || 8 * at <= pos || pos + 8 * n <= 8 * at || end <= at
  }

  /** In time, the target gets the bytes as they were before the copy. */
  lemma {:induction false} CopiedInTime(m: seq<byte>, end: nat, pos: nat, at: nat, n: nat)
    requires end <= |m| && at + n <= |m| && InTime(end, pos, at, n)
    ensures CopiedWithin(m, end, pos, at, n) == Overwrite(m, at, ReadByteByByte(m[..end], pos, n))
    decreases n
  {
    if n == 0 {
    } else {
      var k := n - 1;
      CopiedInTime(m, end, pos, at, k);
      CopiedNext(m, end, pos, at, k, ReadByteByByte(m[..end], pos, k), ByteFrom(m[..end], pos + 8 * k));
    }
  }

  /** Byte k of a copy is what was read with the first k bytes stored already. */
  lemma {:induction false} CopiedByte(m: seq<byte>, end: nat, pos: nat, at: nat, n: nat, k: nat)
    requires end <= |m| && at + n <= |m| && k < n
    ensures CopiedWithin(m, end, pos, at, n)[at + k] == ByteFrom(CopiedWithin(m, end, pos, at, k)[..end], pos + 8 * k)
    decreases n
  {
    if k == n - 1 {
    } else {
      CopiedByte(m, end, pos, at, n - 1, k);
    }
  }

  lemma {:induction false} ReadByteAt(s: seq<byte>, pos: nat, n: nat, k: nat)
    requires k < n
    ensures ReadByteByByte(s, pos, n)[k] == ByteFrom(s, pos + 8 * k)
    decreases n
  {
    if k == n - 1 {
    } else {
      ReadByteAt(s, pos, n - 1, k);
    }
  }

  lemma {:induction false} ByteOfZeros(s: seq<byte>, pos: nat)
    requires forall i :: pos <= i < pos + 8 ==> !BitAt(s, i)
    ensures ByteFrom(s, pos) == 0
  {
    ValueOfZeros(ReadBits(s, pos, 8));
  }

  lemma {:induction false} ByteNotZero(s: seq<byte>, pos: nat, i: nat)
    requires i < 8 && BitAt(s, pos + i)
    ensures ByteFrom(s, pos) > 0
  {
    var bits := ReadBits(s, pos, 8);
    BitsOfValueOf(bits);
    assert bits[i] == Bit(ValueOf(bits), 7 - i);
    BitOfZero(7 - i);
  }

  lemma {:induction false} ByteOfOnes(s: seq<byte>, pos: nat)
    requires forall i :: pos <= i < pos + 8 ==> BitAt(s, i)
    ensures ByteFrom(s, pos) == 255
  {
    assert Pow2(8) == 256;
    forall i | 0 <= i < 8 ensures ReadBits(s, pos, 8)[i] == BitsOf(255, 8)[i] {
      BitOfOnes(8, 7 - i);
    }
    assert ReadBits(s, pos, 8) == BitsOf(255, 8);
    ValueOfBitsOf(255, 8);
  }

  /** The memory whose only ones are the eight bits from `pos` on. */
  function OnesAt(len: nat, pos: nat): (m: seq<byte>)
    ensures |m| == len
  {
    PutBits(seq(len, _ => 0), pos, BitsOf(255, 8))
  }

  lemma {:induction false} BitOfOnesAt(len: nat, pos: nat, j: nat)
    requires pos + 8 <= 8 * len
    ensures BitAt(OnesAt(len, pos), j) == (pos <= j < pos + 8)
  {
    var zeros: seq<byte> := seq(len, _ => 0);
    PutBitsAt(zeros, pos, BitsOf(255, 8), j);
    if pos <= j < pos + 8 {
      assert Pow2(8) == 256;
      BitOfOnes(8, 7 - (j - pos));
    } else if j / 8 < len {
      BitOfZero(7 - j % 8);
    }
  }

  lemma {:induction false} ReadOnesAt(len: nat, end: nat, pos: nat, k: nat)
    requires end <= len && pos + 8 <= 8 * end
    ensures ByteFrom(OnesAt(len, pos)[..end], pos + 8 * k) == if k == 0 then 255 else 0
  {
    var s := OnesAt(len, pos)[..end];
    forall j: nat ensures BitAt(s, j) == (pos <= j < pos + 8) {
      BitOfOnesAt(len, pos, j);
    }
    if k == 0 { ByteOfOnes(s, pos); } else { ByteOfZeros(s, pos + 8 * k); }
  }

  lemma {:induction false} FirstByteStored(len: nat, end: nat, pos: nat, at: nat, k: nat)
    requires end <= len && at + k <= len && pos + 8 <= 8 * end && k >= 1
    ensures CopiedWithin(OnesAt(len, pos), end, pos, at, k)[at] == 255
  {
    CopiedByte(OnesAt(len, pos), end, pos, at, k, 0);
    ReadOnesAt(len, end, pos, 0);
  }

  lemma {:induction false} OnesInByte(s: seq<byte>, k: nat, j: nat)
    requires k < |s| && s[k] == 255 && j / 8 == k
    ensures BitAt(s, j)
  {
    assert Pow2(8) == 256;
    BitOfOnes(8, 7 - j % 8);
  }

  lemma {:induction false} SeenByte(len: nat, end: nat, pos: nat, at: nat, k: nat, j: nat)
    requires end <= len && at + k <= len && pos + 8 <= 8 * end && k >= 1
    requires pos + 8 * k <= j < pos + 8 * (k + 1) && j / 8 == at < end
    ensures ByteFrom(CopiedWithin(OnesAt(len, pos), end, pos, at, k)[..end], pos + 8 * k) > 0
  {
    var s := CopiedWithin(OnesAt(len, pos), end, pos, at, k)[..end];
    FirstByteStored(len, end, pos, at, k);
    OnesInByte(s, at, j);
    ByteNotZero(s, pos + 8 * k, j - (pos + 8 * k));
  }

  lemma {:induction false} UnseenByte(len: nat, end: nat, pos: nat, at: nat, n: nat, k: nat)
    requires end <= len && at + n <= len && pos + 8 <= 8 * end && 1 <= k < n
    ensures Overwrite(OnesAt(len, pos), at, ReadByteByByte(OnesAt(len, pos)[..end], pos, n))[at + k] == 0
  {
    ReadByteAt(OnesAt(len, pos)[..end], pos, n, k);
    ReadOnesAt(len, end, pos, k);
  }

  /** Too late, read k sees a bit j of the byte stored first. */
  lemma {:induction false} CopySeen(len: nat, end: nat, pos: nat, at: nat, n: nat, k: nat, j: nat)
    requires end <= len && at + n <= len && pos + 8 <= 8 * end
    requires 1 <= k < n && pos + 8 * k <= j < pos + 8 * (k + 1) && j / 8 == at < end
    ensures var m := OnesAt(len, pos);
            CopiedWithin(m, end, pos, at, n) != Overwrite(m, at, ReadByteByByte(m[..end], pos, n))
  {
    CopiedByte(OnesAt(len, pos), end, pos, at, n, k);
    SeenByte(len, end, pos, at, k, j);
    UnseenByte(len, end, pos, at, n, k);
  }

  /** Where the caller's guard lets the copy start, it is right for every memory exactly when it is in time. */
  lemma {:induction false} CopiedInTimeIff(len: nat, end: nat, pos: nat, at: nat, n: nat)
    requires end <= len && at + n <= len && pos / 8 + n <= end
    ensures (forall m: seq<byte> :: |m| == len ==>
               CopiedWithin(m, end, pos, at, n) == Overwrite(m, at, ReadByteByByte(m[..end], pos, n)))
       <==> InTime(end, pos, at, n)
  {
    if InTime(end, pos, at, n) {
      forall m: seq<byte> | |m| == len
        ensures CopiedWithin(m, end, pos, at, n) == Overwrite(m, at, ReadByteByByte(m[..end], pos, n))
      {
        CopiedInTime(m, end, pos, at, n);
      }
    } else if 8 * at < pos + 8 {
      CopySeen(len, end, pos, at, n, 1, pos + 8);
    } else {
      CopySeen(len, end, pos, at, n, (8 * at - pos) / 8, 8 * at);
    }
  }

  /** Of the memory 1, 2, 3, 0 two bytes copied one place on are 1, 1 and not 1, 2. */
  lemma {:induction false} CopyReadsBack(m: seq<byte>)
    requires m == [1, 2, 3, 0]
    ensures CopiedWithin(m, 3, 0, 1, 2) == [1, 1, 1, 0]
    ensures Overwrite(m, 1, ReadByteByByte(m[..3], 0, 2)) == [1, 1, 2, 0]
  {
    var m1 := CopyByte(m, 3, 0, 1);
    AlignedByte(m[..3], 0, 0);
    assert m1 == [1, 1, 3, 0];
    AlignedByte(m1[..3], 1, 8);
    assert CopiedWithin(m, 3, 0, 1, 1) == m1;
    BulkReadIsByteLoop(m[..3], 0, 2);
  }

  /** The target's memory t after n byte reads of s from bit `pos` on, where `own` says that s is the
      front of that memory. */
  function StringCopied(own: bool, s: seq<byte>, pos: nat, t: seq<byte>, at: nat, n: nat): seq<byte>
    requires at + n <= |t| && (own ==> |s| <= |t|)
  {
    if own then CopiedWithin(t, |s|, pos, at, n) else Overwrite(t, at, ReadByteByByte(s, pos, n))
  }

  lemma {:induction false} StringNext(own: bool, s: seq<byte>, pos: nat, t: seq<byte>, at: nat, n: nat, d: seq<byte>)
    requires at + n < |t| && (own ==> |s| <= |t|)
    requires d == if own then StringCopied(own, s, pos, t, at, n)[..|s|] else s
    ensures StringCopied(own, s, pos, t, at, n + 1)
         == StringCopied(own, s, pos, t, at, n)[at + n := ByteFrom(d, pos + 8 * n)]
  {
    if own {
    } else {
      OverwriteNext(t, at, ReadByteByByte(s, pos, n), ByteFrom(s, pos + 8 * n));
    }
  }
}
