/** Records of mixed fields written and read back through the cursor. */
module Fields {
  import opened Bits
  import opened BitBuffer
  import opened ExpGolomb
  import opened BitStream

  datatype Kind = KU(n: nat) | KU8 | KUe | KSe

  datatype Field = U(n: nat, u: uint32) | U8(b: uint32) | Ue(v: uint32) | Se(i: int)
  {
    /** The ranges in which every shift of the writer is defined. */
    predicate WellFormed() {
      match this
      case U(n, _) => n <= 32
      case U8(_) => true
      case Ue(v) => v <= 65534
      case Se(i) => -32767 <= i <= 32767
    }

    function Code(): seq<bool> {
      match this
      case U(n, u) => BitsOf(u, n)
      case U8(b) => BitsOf(b, 8)
      case Ue(v) => UeCode(v)
      case Se(i) => UeCode(SignedIndex(i))
    }

    /** What a reader is expected to get: the value, cut to the field's width. */
    function Meaning(): int {
      match this
      case U(n, u) => u % Pow2(n)
      case U8(b) => b % 256
      case Ue(v) => v
      case Se(i) => i
    }

    function Kind(): Kind {
      match this
      case U(n, _) => KU(n)
      case U8(_) => KU8
      case Ue(_) => KUe
      case Se(_) => KSe
    }
  }

  function ReadKind(s: seq<byte>, pos: nat, k: Kind): (r: (int, nat)) {
    match k
    case KU(n) => (Value(s, pos, n), pos + n)
    case KU8 => (Value(s, pos, 8), pos + 8)
    case KUe => (UeValue(s, pos), UeEnd(s, pos))
    case KSe => (SignedValue(UeValue(s, pos)), UeEnd(s, pos))
  }

  /** The read stays within the shifts the reader's word allows. */
  predicate ReadDefined(s: seq<byte>, pos: nat, k: Kind) {
    match k
    case KU(n) => n <= 32
    case KU8 => true
    case KUe => UeZeros(s, pos) <= 30
    case KSe => UeZeros(s, pos) <= 30
  }

  // ---------- the cursor's operations are these ----------

  method WriteField(b: BitStream, f: Field)
    requires b.Valid() && f.WellFormed()
    modifies b`p, b`bitsLeft, b.buf
    ensures b.Valid() && b.Pos() == old(b.Pos()) + |f.Code()|
    ensures b.Data() == PutBits(old(b.Data()), old(b.Pos()), f.Code()) && b.Beyond() == old(b.Beyond())
  {
    match f
    case U(n, u) => ghost var _ := b.WriteU(n, u);
    case U8(v) => b.WriteU8(v);
    case Ue(v) => ghost var _ := b.WriteUe(v);
    case Se(i) => ghost var _ := b.WriteSe(i);
  }

  method ReadField(b: BitStream, k: Kind) returns (r: int)
    requires b.Valid()
    modifies b`p, b`bitsLeft
    ensures b.Valid() && b.Pos() == ReadKind(b.Data(), old(b.Pos()), k).1
    ensures ReadDefined(b.Data(), old(b.Pos()), k) ==> r == ReadKind(b.Data(), old(b.Pos()), k).0
  {
    match k
    case KU(n) => r := b.ReadU(n);
    case KU8 => r := b.ReadU8();
    case KUe => r := b.ReadUe();
    case KSe => r := b.ReadSe();
  }

  // ---------- a sequence of codes in the buffer ----------

  /** The position in front of code n when the codes are laid out from `pos` on. */
  function Offset(pos: nat, codes: seq<seq<bool>>, n: nat): nat
    requires n <= |codes|
  {
    if n == 0 then pos else Offset(pos, codes, n - 1) + |codes[n - 1]|
  }

  /** The buffer after the first n codes are written one after the other. */
  function WriteCodes(s: seq<byte>, pos: nat, codes: seq<seq<bool>>, n: nat): (r: seq<byte>)
    requires n <= |codes|
    ensures |r| == |s|
  {
    if n == 0 then s
    else PutBits(WriteCodes(s, pos, codes, n - 1), Offset(pos, codes, n - 1), codes[n - 1])
  }

  predicate CodeAt(s: seq<byte>, pos: nat, code: seq<bool>) {
    pos + |code| <= 8 * |s| && ReadBits(s, pos, |code|) == code
  }

  /** A later write leaves the codes in front of it in place. */
  lemma {:induction false} WriteKeepsCode(s: seq<byte>, pos: nat, code: seq<bool>, q: nat, bits: seq<bool>)
    requires CodeAt(s, pos, code) && pos + |code| <= q
    ensures CodeAt(PutBits(s, q, bits), pos, code)
  {
    var before, after := ReadBits(s, pos, |code|), ReadBits(PutBits(s, q, bits), pos, |code|);
    forall i | 0 <= i < |code| ensures after[i] == before[i] {
      PutBitsAt(s, q, bits, pos + i);
    }
  }

  lemma {:induction false} OffsetMonotone(pos: nat, codes: seq<seq<bool>>, m: nat, n: nat)
    requires m <= n <= |codes|
    ensures pos <= Offset(pos, codes, m) <= Offset(pos, codes, n)
    decreases n
  {
    if m < n {
      OffsetMonotone(pos, codes, m, n - 1);
    } else if n > 0 {
      OffsetMonotone(pos, codes, n - 1, n - 1);
    }
  }

  lemma {:induction false} WrittenCode(s: seq<byte>, pos: nat, codes: seq<seq<bool>>, n: nat, i: nat)
    requires i < n <= |codes| && Offset(pos, codes, n) <= 8 * |s|
    ensures CodeAt(WriteCodes(s, pos, codes, n), Offset(pos, codes, i), codes[i])
    decreases n
  {
    var before, q, code := WriteCodes(s, pos, codes, n - 1), Offset(pos, codes, n - 1), codes[n - 1];
    if i == n - 1 {
      ReadWritten(before, q, code);
    } else {
      WrittenCode(s, pos, codes, n - 1, i);
      OffsetMonotone(pos, codes, i + 1, n - 1);
      WriteKeepsCode(before, Offset(pos, codes, i), codes[i], q, code);
    }
  }

  lemma {:induction false} WriteCodesFrame(s: seq<byte>, pos: nat, codes: seq<seq<bool>>, n: nat, j: nat)
    requires n <= |codes| && (j < pos || Offset(pos, codes, n) <= j)
    ensures BitAt(WriteCodes(s, pos, codes, n), j) == BitAt(s, j)
    decreases n
  {
    if n == 0 {
    } else {
      var before, q := WriteCodes(s, pos, codes, n - 1), Offset(pos, codes, n - 1);
      OffsetMonotone(pos, codes, n - 1, n);
      WriteCodesFrame(s, pos, codes, n - 1, j);
      PutBitsAt(before, q, codes[n - 1], j);
    }
  }

  // ---------- whole records ----------

  predicate AllWellFormed(fs: seq<Field>) {
    forall i :: 0 <= i < |fs| ==> fs[i].WellFormed()
  }

  function Kinds(fs: seq<Field>): (ks: seq<Kind>)
    ensures |ks| == |fs| && forall i :: 0 <= i < |fs| ==> ks[i] == fs[i].Kind()
  {
    seq(|fs|, i requires 0 <= i < |fs| => fs[i].Kind())
  }

  function Codes(fs: seq<Field>): (cs: seq<seq<bool>>)
    ensures |cs| == |fs| && forall i :: 0 <= i < |fs| ==> cs[i] == fs[i].Code()
  {
    seq(|fs|, i requires 0 <= i < |fs| => fs[i].Code())
  }

  /** The position behind a record of fields laid out from `pos` on. */
  function RecordEnd(pos: nat, fs: seq<Field>): nat {
    Offset(pos, Codes(fs), |fs|)
  }

  /** The buffer after the fields are written one after the other. */
  function WriteFields(s: seq<byte>, pos: nat, fs: seq<Field>): (r: seq<byte>)
    ensures |r| == |s|
  {
    WriteCodes(s, pos, Codes(fs), |fs|)
  }

  /** The position of a reader that has read the first n fields. */
  function ReaderAt(s: seq<byte>, pos: nat, ks: seq<Kind>, n: nat): nat
    requires n <= |ks|
  {
    if n == 0 then pos else ReadKind(s, ReaderAt(s, pos, ks, n - 1), ks[n - 1]).1
  }

  /** The value a reader gets for field n. */
  function ReadNth(s: seq<byte>, pos: nat, ks: seq<Kind>, n: nat): int
    requires n < |ks|
  {
    ReadKind(s, ReaderAt(s, pos, ks, n), ks[n]).0
  }

  lemma {:induction false} CodeReadsBack(s: seq<byte>, pos: nat, v: nat)
    requires v <= 65534 && CodeAt(s, pos, UeCode(v))
    ensures UeValue(s, pos) == v && UeEnd(s, pos) == pos + |UeCode(v)| && UeZeros(s, pos) <= 30
  {
    UeRoundTrip(s, pos, v);
    CodeShape(v);
    MagnitudeBound(v);
  }

  /** A field whose code stands at `pos` reads back as its value, within the zeros the reader counts. */
  lemma {:induction false} FieldReadsBack(s: seq<byte>, pos: nat, f: Field)
    requires f.WellFormed() && CodeAt(s, pos, f.Code())
    ensures ReadKind(s, pos, f.Kind()) == (f.Meaning(), pos + |f.Code()|)
    ensures ReadDefined(s, pos, f.Kind())
  {
    match f
    case U(n, u) => ValueOfBitsOf(u, n);
    case U8(b) => ValueOfBitsOf(b, 8); assert Pow2(8) == 256;
    case Ue(v) => CodeReadsBack(s, pos, v);
    case Se(i) =>
      CodeReadsBack(s, pos, SignedIndex(i));
      SignedMapping(i, 0);
  }

  /** What a reader standing in front of field n finds once the whole record is written. */
  lemma {:induction false} NthField(s: seq<byte>, pos: nat, fs: seq<Field>, t: seq<byte>, n: nat)
    requires AllWellFormed(fs) && n < |fs| && RecordEnd(pos, fs) <= 8 * |s|
    requires t == WriteFields(s, pos, fs)
    ensures ReadKind(t, Offset(pos, Codes(fs), n), fs[n].Kind()) == (fs[n].Meaning(), Offset(pos, Codes(fs), n + 1))
    ensures ReadDefined(t, Offset(pos, Codes(fs), n), fs[n].Kind())
  {
    var codes := Codes(fs);
    var q := Offset(pos, codes, n);
    assert CodeAt(t, q, codes[n]) by { WrittenCode(s, pos, codes, |fs|, n); }
    FieldReadsBack(t, q, fs[n]);
    assert Offset(pos, codes, n + 1) == q + |codes[n]|;
  }

  lemma {:induction false} ReaderNext(s: seq<byte>, pos: nat, ks: seq<Kind>, n: nat, q: nat)
    requires n < |ks| && ReaderAt(s, pos, ks, n) == q
    ensures ReaderAt(s, pos, ks, n + 1) == ReadKind(s, q, ks[n]).1
  {
  }

  lemma {:induction false} ReaderFollows(s: seq<byte>, pos: nat, fs: seq<Field>, t: seq<byte>, n: nat)
    requires AllWellFormed(fs) && n <= |fs| && RecordEnd(pos, fs) <= 8 * |s|
    requires t == WriteFields(s, pos, fs)
    ensures ReaderAt(t, pos, Kinds(fs), n) == Offset(pos, Codes(fs), n)
    decreases n
  {
    if n == 0 {
    } else {
      var k := n - 1;
      ReaderFollows(s, pos, fs, t, k);
      NthField(s, pos, fs, t, k);
      ReaderNext(t, pos, Kinds(fs), k, Offset(pos, Codes(fs), k));
    }
  }

  /** Any record that fits the buffer, written from any bit offset, reads back field by field,
      ends at the bit it was written up to, and leaves every other bit alone. */
  lemma {:induction false} RecordRoundTrip(s: seq<byte>, pos: nat, fs: seq<Field>, t: seq<byte>)
    requires AllWellFormed(fs) && RecordEnd(pos, fs) <= 8 * |s|
    requires t == WriteFields(s, pos, fs)
    ensures forall i :: 0 <= i < |fs| ==>
              && ReadDefined(t, ReaderAt(t, pos, Kinds(fs), i), fs[i].Kind())
              && ReadNth(t, pos, Kinds(fs), i) == fs[i].Meaning()
    ensures ReaderAt(t, pos, Kinds(fs), |fs|) == RecordEnd(pos, fs)
    ensures forall j: nat :: j < pos || RecordEnd(pos, fs) <= j ==> BitAt(t, j) == BitAt(s, j)
  {
    forall i | 0 <= i < |fs|
      ensures ReadDefined(t, ReaderAt(t, pos, Kinds(fs), i), fs[i].Kind())
      ensures ReadNth(t, pos, Kinds(fs), i) == fs[i].Meaning()
    {
      ReaderFollows(s, pos, fs, t, i);
      NthField(s, pos, fs, t, i);
    }
    ReaderFollows(s, pos, fs, t, |fs|);
    forall j: nat | j < pos || RecordEnd(pos, fs) <= j ensures BitAt(t, j) == BitAt(s, j) {
      WriteCodesFrame(s, pos, Codes(fs), |fs|, j);
    }
  }

  // ---------- whole records on the cursor ----------

  /** The cursor has written the first n codes from bit `pos` of s on, and nothing behind the end. */
  ghost predicate WroteCodes(b: BitStream, s: seq<byte>, pos: nat, codes: seq<seq<bool>>, n: nat, beyond: seq<byte>)
    requires n <= |codes|
    reads b, b.buf
  {
    && b.Valid() && b.Data() == WriteCodes(s, pos, codes, n)
    && b.Pos() == Offset(pos, codes, n) && b.Beyond() == beyond
  }

  method WriteNextField(b: BitStream, f: Field, ghost s: seq<byte>, ghost pos: nat, ghost codes: seq<seq<bool>>,
                        ghost n: nat, ghost beyond: seq<byte>)
    requires f.WellFormed() && n < |codes| && codes[n] == f.Code() && WroteCodes(b, s, pos, codes, n, beyond)
    modifies b`p, b`bitsLeft, b.buf
    ensures WroteCodes(b, s, pos, codes, n + 1, beyond)
  {
    WriteField(b, f);
  }

  /** Writes the fields one after the other. */
  method WriteRecord(b: BitStream, fs: seq<Field>)
    requires b.Valid() && AllWellFormed(fs)
    modifies b`p, b`bitsLeft, b.buf
    ensures b.Valid() && b.Data() == WriteFields(old(b.Data()), old(b.Pos()), fs)
    ensures b.Pos() == RecordEnd(old(b.Pos()), fs) && b.Beyond() == old(b.Beyond())
  {
    ghost var s, pos, beyond, codes := b.Data(), b.Pos(), b.Beyond(), Codes(fs);
    var i := 0;
    while i < |fs|
      invariant 0 <= i <= |fs|
      invariant WroteCodes(b, s, pos, codes, i, beyond)
    {
      WriteNextField(b, fs[i], s, pos, codes, i, beyond);
      i := i + 1;
    }
  }

  /** `v` is what a reader gets for field n, as far as its shifts are defined. */
  predicate ReadAs(s: seq<byte>, pos: nat, ks: seq<Kind>, n: nat, v: int)
    requires n < |ks|
  {
    ReadDefined(s, ReaderAt(s, pos, ks, n), ks[n]) ==> v == ReadNth(s, pos, ks, n)
  }

  predicate AllReadAs(s: seq<byte>, pos: nat, ks: seq<Kind>, vals: seq<int>) {
    |vals| <= |ks| && forall i :: 0 <= i < |vals| ==> ReadAs(s, pos, ks, i, vals[i])
  }

  /** The cursor stands where a reader of s stands after n fields. */
  ghost predicate StandsAt(b: BitStream, s: seq<byte>, pos: nat, ks: seq<Kind>, n: nat)
    requires n <= |ks|
    reads b, b.buf
  {
    b.Valid() && b.Data() == s && b.Pos() == ReaderAt(s, pos, ks, n)
  }

  method ReadNextField(b: BitStream, ks: seq<Kind>, n: nat, ghost s: seq<byte>, ghost pos: nat) returns (v: int)
    requires n < |ks| && StandsAt(b, s, pos, ks, n)
    modifies b`p, b`bitsLeft
    ensures StandsAt(b, s, pos, ks, n + 1) && ReadAs(s, pos, ks, n, v)
  {
    v := ReadField(b, ks[n]);
  }

  /** Reads fields of the given kinds one after the other. */
  method ReadRecord(b: BitStream, ks: seq<Kind>) returns (vals: seq<int>)
    requires b.Valid()
    modifies b`p, b`bitsLeft
    ensures b.Valid() && b.Pos() == ReaderAt(b.Data(), old(b.Pos()), ks, |ks|)
    ensures |vals| == |ks| && AllReadAs(b.Data(), old(b.Pos()), ks, vals)
  {
    ghost var s, pos := b.Data(), b.Pos();
    vals := [];
    while |vals| < |ks|
      invariant |vals| <= |ks| && StandsAt(b, s, pos, ks, |vals|)
      invariant AllReadAs(s, pos, ks, vals)
    {
      var v := ReadNextField(b, ks, |vals|, s, pos);
      vals := vals + [v];
    }
  }

  function Meanings(fs: seq<Field>): (vs: seq<int>)
    ensures |vs| == |fs| && forall i :: 0 <= i < |fs| ==> vs[i] == fs[i].Meaning()
  {
    seq(|fs|, i requires 0 <= i < |fs| => fs[i].Meaning())
  }

  lemma {:induction false} RecordReadsBack(s: seq<byte>, pos: nat, fs: seq<Field>, t: seq<byte>, vals: seq<int>)
    requires AllWellFormed(fs) && RecordEnd(pos, fs) <= 8 * |s| && t == WriteFields(s, pos, fs)
    requires |vals| == |fs| && AllReadAs(t, pos, Kinds(fs), vals)
    ensures vals == Meanings(fs)
  {
    RecordRoundTrip(s, pos, fs, t);
    forall i | 0 <= i < |fs| ensures vals[i] == fs[i].Meaning() {
      assert ReadAs(t, pos, Kinds(fs), i, vals[i]);
    }
  }

  /** A clone of the cursor reads back every record that fits, whatever the bit offset; writer and
      reader end at the same bit, and no bit outside the record has changed. */
  method WriteAndReadBack(b: BitStream, fs: seq<Field>) returns (vals: seq<int>, reader: BitStream)
    requires b.Valid() && AllWellFormed(fs) && RecordEnd(b.Pos(), fs) <= 8 * b.end
    modifies b`p, b`bitsLeft, b.buf
    ensures b.Valid() && reader.Valid() && b.Beyond() == old(b.Beyond())
    ensures vals == Meanings(fs)
    ensures reader.Pos() == b.Pos() == RecordEnd(old(b.Pos()), fs)
    ensures forall j: nat :: j < old(b.Pos()) || b.Pos() <= j ==> BitAt(b.Data(), j) == BitAt(old(b.Data()), j)
  {
    ghost var s, pos := b.Data(), b.Pos();
    reader := new BitStream.Clone(b);
    WriteRecord(b, fs);
    ghost var t := b.Data();
    var ks := Kinds(fs);
    vals := ReadRecord(reader, ks);
    RecordReadsBack(s, pos, fs, t, vals);
    RecordRoundTrip(s, pos, fs, t);
  }
}
