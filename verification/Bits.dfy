/** The unsigned integer operators of C, on natural numbers: shifts, `&`, `|` and `^`
    are defined bit by bit, so no fact about them is taken for granted. */
module Bits {

  type byte = x: nat | x < 0x100
  type nibble = x: nat | x < 0x10
  type uint32 = x: nat | x < 0x1_0000_0000

  function Pow2(k: nat): (r: nat)
    ensures r >= 1
  {
    if k == 0 then 1 else 2 * Pow2(k - 1)
  }

  /** Bit `k` of `x`, counted from the least significant bit. */
  predicate Bit(x: nat, k: nat) {
    if k == 0 then x % 2 == 1 else Bit(x / 2, k - 1)
  }

  function Num(b: bool): (r: nat)
    ensures r <= 1
  {
    if b then 1 else 0
  }

  function Shr(x: nat, k: nat): nat {
    if k == 0 then x else Shr(x / 2, k - 1)
  }

  function Shl(x: nat, k: nat): nat {
    if k == 0 then x else 2 * Shl(x, k - 1)
  }

  function And(a: nat, b: nat): nat {
    if a == 0 || b == 0 then 0 else 2 * And(a / 2, b / 2) + Num(a % 2 == 1 && b % 2 == 1)
  }

  function Or(a: nat, b: nat): nat
    decreases a + b
  {
    if a == 0 && b == 0 then 0 else 2 * Or(a / 2, b / 2) + Num(a % 2 == 1 || b % 2 == 1)
  }

  function Xor(a: nat, b: nat): nat
    decreases a + b
  {
    if a == 0 && b == 0 then 0 else 2 * Xor(a / 2, b / 2) + Num(a % 2 != b % 2)
  }

  // ---------- products, remainders, powers ----------

  lemma {:induction false} TimesDouble(v: nat, m: nat)
    ensures v * (2 * m) == 2 * (v * m)
  {
  }

  lemma {:induction false} TimesAtLeast(m: nat, d: nat)
    requires d > 0
    ensures m * d >= m
  {
  }

  lemma {:induction false} ModUnique(v: nat, m: nat, q: nat, r: nat)
    requires r < m && v == m * q + r
    ensures v % m == r && v / m == q
  {
    var d := v / m - q;
    assert m * d == r - v % m by {
      assert m * (v / m - q) == m * (v / m) - m * q;
    }
    assert m * -d == -(m * d);
    if d > 0 {
      TimesAtLeast(m, d);
      assert false;
    } else if d < 0 {
      TimesAtLeast(m, -d);
      assert false;
    }
  }

  /** An 8-bit counter steps as its full count does. */
  lemma {:induction false} ModStep(k: nat)
    ensures (k % 256 + 1) % 256 == (k + 1) % 256
  {
    var q, r := k / 256, k % 256;
    if r == 255 {
      ModUnique(k + 1, 256, q + 1, 0);
    } else {
      ModUnique(k + 1, 256, q, r + 1);
    }
  }

  lemma {:induction false} ModNested(k: nat)
    ensures k % 256 % 16 == k % 16
  {
  }

  lemma {:induction false} ModDouble(v: nat, m: nat)
    requires m > 0
    ensures v % (2 * m) == 2 * (v / 2 % m) + v % 2
    ensures v / (2 * m) == v / 2 / m
  {
    var q, r := v / 2 / m, v / 2 % m;
    assert v == 2 * (m * q + r) + v % 2;
    assert 2 * (m * q) == 2 * m * q;
    var low := 2 * r + v % 2;
    assert low < 2 * m;
    ModUnique(v, 2 * m, q, low);
  }

  lemma {:induction false} Pow2Monotone(a: nat, b: nat)
    requires a <= b
    ensures Pow2(a) <= Pow2(b)
  {
    if a == b {
    } else {
      Pow2Monotone(a, b - 1);
    }
  }

  lemma {:induction false} Pow2Of32()
    ensures Pow2(16) == 0x1_0000 && Pow2(32) == 0x1_0000_0000
  {
    assert Pow2(8) == 0x100;
    assert Pow2(16) == 0x1_0000;
    assert Pow2(24) == 0x100_0000;
  }

  // ---------- the operators one bit at a time ----------

  lemma {:induction false} BitDouble(h: nat, d: bool, k: nat)
    ensures Bit(2 * h + Num(d), k) == if k == 0 then d else Bit(h, k - 1)
  {
    assert (2 * h + Num(d)) / 2 == h;
  }

  lemma {:induction false} AndDouble(a: nat, b: nat, d: bool, e: bool)
    ensures And(2 * a + Num(d), 2 * b + Num(e)) == 2 * And(a, b) + Num(d && e)
  {
    assert (2 * a + Num(d)) / 2 == a && (2 * b + Num(e)) / 2 == b;
  }

  lemma {:induction false} OrDouble(a: nat, b: nat, d: bool, e: bool)
    ensures Or(2 * a + Num(d), 2 * b + Num(e)) == 2 * Or(a, b) + Num(d || e)
  {
    assert (2 * a + Num(d)) / 2 == a && (2 * b + Num(e)) / 2 == b;
  }

  lemma {:induction false} XorDouble(a: nat, b: nat, d: bool, e: bool)
    ensures Xor(2 * a + Num(d), 2 * b + Num(e)) == 2 * Xor(a, b) + Num(d != e)
  {
    assert (2 * a + Num(d)) / 2 == a && (2 * b + Num(e)) / 2 == b;
  }

  /** A number as its upper bits and its lowest one. */
  lemma {:induction false} Halves(x: nat) returns (h: nat, d: bool)
    ensures x == 2 * h + Num(d) && h == x / 2
  {
    h, d := x / 2, x % 2 == 1;
  }

  // ---------- what the operators mean, bit by bit ----------

  lemma {:induction false} BitOfZero(k: nat)
    ensures !Bit(0, k)
  {
    if k == 0 {
    } else {
      BitOfZero(k - 1);
    }
  }

  lemma {:induction false} BitOfAnd(a: nat, b: nat, k: nat)
    ensures Bit(And(a, b), k) == (Bit(a, k) && Bit(b, k))
    decreases k
  {
    var g, d := Halves(a);
    var h, e := Halves(b);
    AndDouble(g, h, d, e);
    BitDouble(And(g, h), d && e, k);
    if k == 0 {
    } else {
      BitOfAnd(g, h, k - 1);
    }
  }

  lemma {:induction false} BitOfOr(a: nat, b: nat, k: nat)
    ensures Bit(Or(a, b), k) == (Bit(a, k) || Bit(b, k))
    decreases k
  {
    var g, d := Halves(a);
    var h, e := Halves(b);
    OrDouble(g, h, d, e);
    BitDouble(Or(g, h), d || e, k);
    if k == 0 {
    } else {
      BitOfOr(g, h, k - 1);
    }
  }

  lemma {:induction false} BitOfXor(a: nat, b: nat, k: nat)
    ensures Bit(Xor(a, b), k) == (Bit(a, k) != Bit(b, k))
    decreases k
  {
    var g, d := Halves(a);
    var h, e := Halves(b);
    XorDouble(g, h, d, e);
    BitDouble(Xor(g, h), d != e, k);
    if k == 0 {
    } else {
      BitOfXor(g, h, k - 1);
    }
  }

  lemma {:induction false} BitOfShr(x: nat, k: nat, j: nat)
    ensures Bit(Shr(x, k), j) == Bit(x, k + j)
  {
    if k == 0 {
    } else {
      BitOfShr(x / 2, k - 1, j);
    }
  }

  lemma {:induction false} BitOfShl(x: nat, k: nat, j: nat)
    ensures Bit(Shl(x, k), j) == (k <= j && Bit(x, j - k))
  {
    if k == 0 {
    } else {
      BitDouble(Shl(x, k - 1), false, j);
      if j > 0 { BitOfShl(x, k - 1, j - 1); }
    }
  }

  lemma {:induction false} BitOfNum(v: bool, k: nat)
    ensures Bit(Num(v), k) == (v && k == 0)
  {
    BitDouble(0, v, k);
    if k > 0 { BitOfZero(k - 1); }
  }

  /** A number is determined by its bits. */
  lemma {:induction false} SameBits(a: nat, b: nat)
    requires forall k: nat :: Bit(a, k) == Bit(b, k)
    ensures a == b
  {
    assert Bit(a, 0) == Bit(b, 0);
    if a == 0 && b == 0 {
    } else {
      forall k: nat ensures Bit(a / 2, k) == Bit(b / 2, k) {
        assert Bit(a, k + 1) == Bit(b, k + 1);
      }
      SameBits(a / 2, b / 2);
    }
  }

  /** Numbers below 2^n are determined by their low n bits. */
  lemma {:induction false} SameLowBits(a: nat, b: nat, n: nat)
    requires a < Pow2(n) && b < Pow2(n)
    requires forall k: nat :: k < n ==> Bit(a, k) == Bit(b, k)
    ensures a == b
  {
    if n == 0 {
    } else {
      assert Bit(a, 0) == Bit(b, 0);
      forall k: nat | k < n - 1 ensures Bit(a / 2, k) == Bit(b / 2, k) {
        assert Bit(a, k + 1) == Bit(b, k + 1);
      }
      SameLowBits(a / 2, b / 2, n - 1);
    }
  }

  lemma {:induction false} HighBitsAreZero(a: nat, n: nat, k: nat)
    requires a < Pow2(n) && n <= k
    ensures !Bit(a, k)
  {
    if n == 0 {
      BitOfZero(k);
    } else {
      HighBitsAreZero(a / 2, n - 1, k - 1);
    }
  }

  lemma {:induction false} LowBits(v: nat, n: nat, k: nat)
    requires k < n
    ensures Bit(v % Pow2(n), k) == Bit(v, k)
  {
    var h, d := Halves(v);
    var m := Pow2(n - 1);
    ModDouble(v, m);
    assert v % Pow2(n) == 2 * (h % m) + Num(d);
    BitDouble(h % m, d, k);
    if k == 0 {
    } else {
      LowBits(h, n - 1, k - 1);
    }
  }

  lemma {:induction false} BitOfOnes(w: nat, j: nat)
    ensures Bit(Pow2(w) - 1, j) == (j < w)
  {
    if w == 0 {
      BitOfZero(j);
    } else {
      var ones := Pow2(w - 1) - 1;
      assert Pow2(w) - 1 == 2 * ones + Num(true);
      BitDouble(ones, true, j);
      if j > 0 { BitOfOnes(w - 1, j - 1); }
    }
  }

  // ---------- shifts ----------

  lemma {:induction false} ShlDouble(x: nat, k: nat)
    ensures Shl(2 * x, k) == 2 * Shl(x, k) == Shl(x, k + 1)
  {
    if k == 0 {
    } else {
      ShlDouble(x, k - 1);
    }
  }

  lemma {:induction false} ShlNum(b: bool, k: nat)
    ensures Shl(Num(b), k) == (if b then Pow2(k) else 0)
  {
    if k == 0 {
    } else {
      ShlNum(b, k - 1);
    }
  }

  lemma {:induction false} ShlAdd(x: nat, y: nat, k: nat)
    ensures Shl(x + y, k) == Shl(x, k) + Shl(y, k)
  {
    if k == 0 {
    } else {
      ShlAdd(x, y, k - 1);
    }
  }

  lemma {:induction false} ShlIsTimes(x: nat, k: nat)
    ensures Shl(x, k) == x * Pow2(k)
  {
    if k == 0 {
    } else {
      ShlIsTimes(x, k - 1);
      TimesDouble(x, Pow2(k - 1));
    }
  }

  lemma {:induction false} ShrIsQuotient(x: nat, k: nat)
    ensures Shr(x, k) == x / Pow2(k)
  {
    if k == 0 {
    } else {
      ShrIsQuotient(x / 2, k - 1);
      ModDouble(x, Pow2(k - 1));
    }
  }

  // ---------- masks ----------

  lemma {:induction false} AndOne(a: nat)
    ensures And(a, 1) == a % 2
  {
    if a == 0 {
    } else {
      assert And(a / 2, 0) == 0;
    }
  }

  /** A mask of n ones keeps the remainder by 2^n. */
  lemma {:induction false} AndLow(a: nat, n: nat)
    ensures And(a, Pow2(n) - 1) == a % Pow2(n)
  {
    var l, r := And(a, Pow2(n) - 1), a % Pow2(n);
    forall j: nat ensures Bit(l, j) == Bit(r, j) {
      BitOfAnd(a, Pow2(n) - 1, j);
      BitOfOnes(n, j);
      if j < n { LowBits(a, n, j); } else { HighBitsAreZero(r, n, j); }
    }
    SameBits(l, r);
  }

  lemma {:induction false} AndNibble(a: nat)
    ensures And(a, 0xF) == a % 16
  {
    assert Pow2(4) == 16;
    AndLow(a, 4);
  }

  /** `b & 0xF` */
  function LowNibble(b: byte): (r: nibble)
    ensures r == b % 16
  {
    AndNibble(b);
    And(b, 0xF)
  }

  // ---------- storing one bit ----------

  /** `x` with bit `k` replaced by `v`. */
  function WithBit(x: nat, k: nat, v: bool): nat {
    if k == 0 then 2 * (x / 2) + Num(v) else 2 * WithBit(x / 2, k - 1, v) + x % 2
  }

  lemma {:induction false} BitOfWithBit(x: nat, k: nat, v: bool, j: nat)
    ensures Bit(WithBit(x, k, v), j) == if j == k then v else Bit(x, j)
  {
    var h, d := Halves(x);
    if k == 0 {
      BitDouble(h, v, j);
    } else {
      BitDouble(WithBit(h, k - 1, v), d, j);
      if j > 0 { BitOfWithBit(h, k - 1, v, j - 1); }
    }
  }

  lemma {:induction false} WithBitBelow(x: nat, w: nat, k: nat, v: bool)
    requires x < Pow2(w) && k < w
    ensures WithBit(x, k, v) < Pow2(w)
  {
    var h, d := Halves(x);
    assert h < Pow2(w - 1);
    if k == 0 {
    } else {
      WithBitBelow(h, w - 1, k - 1, v);
      assert WithBit(x, k, v) == 2 * WithBit(h, k - 1, v) + Num(d);
    }
  }

  /** The mask with every bit of a w-bit word but bit `k`. */
  function ClearMask(w: nat, k: nat): (m: nat)
    requires k < w
    ensures m == Pow2(w) - 1 - Pow2(k)
  {
    if k == 0 then 2 * (Pow2(w - 1) - 1) else 2 * ClearMask(w - 1, k - 1) + 1
  }

  lemma {:induction false} BitOfClearMask(w: nat, k: nat, j: nat)
    requires k < w
    ensures Bit(ClearMask(w, k), j) == (j < w && j != k)
  {
    if k == 0 {
      var ones := Pow2(w - 1) - 1;
      assert ClearMask(w, k) == 2 * ones + Num(false);
      BitDouble(ones, false, j);
      if j > 0 { BitOfOnes(w - 1, j - 1); }
    } else {
      var rest := ClearMask(w - 1, k - 1);
      assert ClearMask(w, k) == 2 * rest + Num(true);
      BitDouble(rest, true, j);
      if j > 0 { BitOfClearMask(w - 1, k - 1, j - 1); }
    }
  }

  /** Clearing bit `k` with a mask and or-ing the new bit in, on a w-bit word. */
  lemma {:induction false} MaskedStore(x: nat, w: nat, k: nat, v: bool)
    requires x < Pow2(w) && k < w
    ensures Or(And(x, ClearMask(w, k)), Shl(Num(v), k)) == WithBit(x, k, v) < Pow2(w)
  {
    var m, b := ClearMask(w, k), Shl(Num(v), k);
    forall j: nat ensures Bit(Or(And(x, m), b), j) == Bit(WithBit(x, k, v), j) {
      BitOfOr(And(x, m), b, j);
      BitOfAnd(x, m, j);
      BitOfClearMask(w, k, j);
      BitOfShl(Num(v), k, j);
      if k <= j { BitOfNum(v, j - k); }
      BitOfWithBit(x, k, v, j);
      if w <= j { HighBitsAreZero(x, w, j); }
    }
    SameBits(Or(And(x, m), b), WithBit(x, k, v));
    WithBitBelow(x, w, k, v);
  }

  // ---------- `or` ----------

  lemma {:induction false} OrZero(a: nat)
    ensures Or(a, 0) == a && Or(0, a) == a
  {
    if a == 0 {
    } else {
      OrZero(a / 2);
    }
  }

  lemma {:induction false} OrSame(a: nat)
    ensures Or(a, a) == a
  {
    if a == 0 {
    } else {
      OrSame(a / 2);
    }
  }

  /** `|` of a number shifted past the width of the other operand is addition. */
  lemma {:induction false} OrShl(a: nat, k: nat, b: nat)
    requires b < Pow2(k)
    ensures Or(Shl(a, k), b) == Shl(a, k) + b
  {
    if k == 0 {
      OrZero(a);
    } else {
      var h, d := Halves(b);
      OrShl(a, k - 1, h);
      OrDouble(Shl(a, k - 1), h, false, d);
    }
  }

  lemma {:induction false} OrNibble(a: nat, b: nibble)
    ensures Or(a * 16, b) == a * 16 + b
  {
    assert Pow2(4) == 16;
    ShlIsTimes(a, 4);
    OrShl(a, 4, b);
  }

  lemma {:induction false} OrBelow(a: nat, b: nat, n: nat)
    requires a < Pow2(n) && b < Pow2(n)
    ensures Or(a, b) < Pow2(n)
  {
    if n == 0 {
    } else {
      OrBelow(a / 2, b / 2, n - 1);
    }
  }

  lemma {:induction false} BitOfJoin(a: nat, b: nat, k: nat, j: nat)
    requires b < Pow2(k)
    ensures Bit(Shl(a, k) + b, j) == if j < k then Bit(b, j) else Bit(a, j - k)
  {
    if k == 0 {
    } else {
      var h, d := Halves(b);
      var x := Shl(a, k - 1) + h;
      assert Shl(a, k) + b == 2 * x + Num(d);
      BitDouble(x, d, j);
      BitDouble(h, d, j);
      if j > 0 { BitOfJoin(a, h, k - 1, j - 1); }
    }
  }

  /** `|` works on the low k bits and on those above them separately. */
  lemma {:induction false} OrBlocks(a: nat, b: nat, c: nat, d: nat, k: nat)
    requires b < Pow2(k) && d < Pow2(k)
    ensures Or(Shl(a, k) + b, Shl(c, k) + d) == Shl(Or(a, c), k) + Or(b, d)
  {
    var x, y, z := Shl(a, k) + b, Shl(c, k) + d, Shl(Or(a, c), k) + Or(b, d);
    OrBelow(b, d, k);
    forall j: nat ensures Bit(Or(x, y), j) == Bit(z, j) {
      BitOfOr(x, y, j);
      BitOfJoin(a, b, k, j);
      BitOfJoin(c, d, k, j);
      BitOfJoin(Or(a, c), Or(b, d), k, j);
      if j < k { BitOfOr(b, d, j); } else { BitOfOr(a, c, j - k); }
    }
    SameBits(Or(x, y), z);
  }

  function OrNibbles(a: nibble, b: nibble): (r: nibble)
    ensures r == Or(a, b)
    ensures a == 0 || a == b ==> r == b
    ensures b == 0 ==> r == a
  {
    assert Pow2(4) == 16;
    OrBelow(a, b, 4);
    OrZero(a);
    OrZero(b);
    OrSame(b);
    Or(a, b)
  }

  lemma {:induction false} OrNibblePairs(a: nibble, b: nibble, c: nibble, d: nibble)
    ensures Or(16 * a + b, 16 * c + d) == 16 * OrNibbles(a, c) + OrNibbles(b, d)
  {
    assert Pow2(4) == 16;
    ShlIsTimes(a, 4);
    ShlIsTimes(c, 4);
    ShlIsTimes(Or(a, c), 4);
    OrBlocks(a, b, c, d, 4);
  }

  /** The top bit of a nibble says whether it is 8 or more. */
  lemma {:induction false} TopBitOfNibble(x: nibble)
    ensures Bit(x, 3) == (x >= 8)
  {
    var h, d := Halves(x);
    var g, e := Halves(h);
    BitDouble(h, d, 3);
    BitDouble(g, e, 2);
    assert Bit(g, 1) == (g >= 2);
  }

  lemma {:induction false} SevenOr(s: nibble)
    ensures Or(s, 7) >= 7
  {
    var h, d := Halves(s);
    var g, e := Halves(h);
    var f, c := Halves(g);
    OrDouble(h, 3, d, true);
    OrDouble(g, 1, e, true);
    OrDouble(f, 0, c, true);
  }

  /** Or-ing a 7 onto a nibble gives 7 exactly below 8, and or-ing never clears the top bit. */
  lemma {:induction false} OrSeven(s: nibble, d: nibble)
    ensures OrNibbles(s, 7) == 7 <==> s < 8
    ensures OrNibbles(s, d) >= 8 <==> s >= 8 || d >= 8
  {
    BitOfOr(s, d, 3);
    TopBitOfNibble(s);
    TopBitOfNibble(d);
    TopBitOfNibble(OrNibbles(s, d));
    BitOfOr(s, 7, 3);
    TopBitOfNibble(7);
    TopBitOfNibble(OrNibbles(s, 7));
    SevenOr(s);
  }

  // ---------- `^` with a nibble ----------

  lemma {:induction false} XorZero(a: nat)
    ensures Xor(0, a) == a
  {
    if a == 0 {
    } else {
      XorZero(a / 2);
    }
  }

  /** Xor with a nibble stays inside the 16-block of the other operand. */
  lemma {:induction false} XorStaysInBlock(n: nibble, x: nat)
    ensures Xor(n, x) / 16 == x / 16
  {
    assert Pow2(4) == 16;
    forall j: nat ensures Bit(Shr(Xor(n, x), 4), j) == Bit(Shr(x, 4), j) {
      BitOfShr(Xor(n, x), 4, j);
      BitOfShr(x, 4, j);
      BitOfXor(n, x, 4 + j);
      HighBitsAreZero(n, 4, 4 + j);
    }
    SameBits(Shr(Xor(n, x), 4), Shr(x, 4));
    ShrIsQuotient(Xor(n, x), 4);
    ShrIsQuotient(x, 4);
  }

  lemma {:induction false} XorShl(a: nat, k: nat, b: nat)
    requires a < Pow2(k)
    ensures Xor(a, Shl(b, k)) == a + Shl(b, k)
  {
    if k == 0 {
      XorZero(b);
    } else {
      var h, d := Halves(a);
      XorShl(h, k - 1, b);
      XorDouble(h, Shl(b, k - 1), d, false);
      assert Shl(b, k) == 2 * Shl(b, k - 1) + Num(false);
    }
  }

  lemma {:induction false} XorNibble(a: nibble, b: nat)
    ensures Xor(a, 16 * b) == a + 16 * b
  {
    assert Pow2(4) == 16;
    ShlIsTimes(b, 4);
    XorShl(a, 4, b);
  }

  lemma {:induction false} LowBitOfNibble(x: nat, k: nat)
    requires k < 4
    ensures Bit(x % 16, k) == Bit(x, k)
  {
    assert Pow2(4) == 16;
    LowBits(x, 4, k);
  }

  /** The low four bits of the result depend on the low four bits alone. */
  lemma {:induction false} XorLowBits(n: nibble, x: nat)
    ensures Xor(n, x) % 16 == Xor(n, x % 16)
  {
    var y, m := Xor(n, x), x % 16;
    forall k: nat | k < 4 ensures Bit(y % 16, k) == Bit(Xor(n, m), k) {
      LowBitOfNibble(y, k);
      LowBitOfNibble(x, k);
      BitOfXor(n, x, k);
      BitOfXor(n, m, k);
    }
    XorStaysInBlock(n, m);
    assert Pow2(4) == 16;
    SameLowBits(y % 16, Xor(n, m), 4);
  }

  function XorByte(n: nibble, b: byte): (r: byte)
    ensures r == Xor(n, b) && r / 16 == b / 16
  {
    XorStaysInBlock(n, b);
    Xor(n, b)
  }

  lemma {:induction false} XorOne(d: nibble)
    ensures Xor(d, 1) == if d % 2 == 1 then d - 1 else d + 1
  {
    var h, odd := Halves(d);
    XorDouble(h, 0, odd, true);
    XorShl(h, 4, 0);
    assert Pow2(4) == 16;
  }
}
