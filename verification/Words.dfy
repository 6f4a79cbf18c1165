/** Machine words: bytes, Go's bitwise operators on 64-bit words, and two's-complement wrap-around. */
module Words {

  type byte = b: int | 0 <= b < 256

  const TWO31: int := 0x8000_0000
  const TWO32: int := 0x1_0000_0000
  const TWO63: int := 0x8000_0000_0000_0000
  const TWO64: int := 0x1_0000_0000_0000_0000

  /** The largest Go `int`; no slice is longer than this. */
  const MAX_INT: int := 0x7FFF_FFFF_FFFF_FFFF

  type u32 = x: int | 0 <= x < 0x1_0000_0000
  type u64 = x: int | 0 <= x < 0x1_0000_0000_0000_0000
  type i32 = x: int | -0x8000_0000 <= x < 0x8000_0000
  type i64 = x: int | -0x8000_0000_0000_0000 <= x < 0x8000_0000_0000_0000

  function Pow2(n: nat): (p: nat)
    ensures p >= 1
  {
    if n == 0 then 1 else 2 * Pow2(n - 1)
  }

  /** Bitwise or of two non-negative integers. */
  function BitOr(a: nat, b: nat): nat
    decreases a + b
  {
    if a == 0 && b == 0 then 0
    else (if a % 2 == 1 || b % 2 == 1 then 1 else 0) + 2 * BitOr(a / 2, b / 2)
  }

  /** `x << s` on an unsigned word of `width` bits: bits that leave the word are lost. */
  function ShiftLeft(width: nat, x: nat, s: nat): nat {
    x * Pow2(s) % Pow2(width)
  }

  /** The number of bits needed for x (bits.Len64). */
  function BitLen(x: nat): nat {
    if x == 0 then 0 else 1 + BitLen(x / 2)
  }

  /** Conversion of an unsigned 64-bit pattern to Go's int. */
  function ToInt64(u: u64): i64 {
    if u < TWO63 then u else u - TWO64
  }

  /** Conversion of an int64 to uint64. */
  function FromInt64(x: i64): u64 {
    if x >= 0 then x else x + TWO64
  }

  /** Truncation of an unsigned pattern to int32. */
  function ToInt32(u: nat): i32 {
    var w := u % TWO32;
    if w < TWO31 then w else w - TWO32
  }

  /** The conversions keep the bits: the numbers are the same modulo the word size. */
  lemma ConversionsKeepBits(u: u64, x: i64, v: nat, a: i64, b: i64)
    ensures (ToInt64(u) - u) % 0x1_0000_0000_0000_0000 == 0
    ensures (FromInt64(x) - x) % 0x1_0000_0000_0000_0000 == 0
    ensures (ToInt32(v) - v) % 0x1_0000_0000 == 0
    ensures (AddInt(a, b) - (a + b)) % 0x1_0000_0000_0000_0000 == 0
  {
    Congruent(v, v % TWO32, v / TWO32, TWO32);
    Congruent(v, v % TWO32 - TWO32, v / TWO32 + 1, TWO32);
    var sum := a + b;
    Congruent(sum, sum % TWO64, sum / TWO64, TWO64);
    Congruent(sum, sum % TWO64 - TWO64, sum / TWO64 + 1, TWO64);
  }

  lemma Congruent(a: int, r: int, q: int, m: int)
    requires m > 0 && a == q * m + r
    ensures (r - a) % m == 0
  {
    assert r - a == m * (-q) + 0;
    DivModUnique(r - a, -q, 0, m);
  }

  lemma TruncationBounds(u: nat)
    ensures ToInt32(u) <= u
    ensures ToInt32(u) < 0 ==> u >= TWO31
  {}

  lemma SignExtension(x: i32)
    ensures ToInt32(FromInt64(x)) == x && (FromInt64(x) == 0 <==> x == 0)
  {
    if x < 0 {
      assert x + TWO64 == (x + TWO32) + TWO32 * (TWO32 - 1);
      ModMultiple(x + TWO32, TWO32 - 1, TWO32);
    }
  }

  /** Addition on Go's 64-bit int, with wrap-around. */
  function AddInt(a: i64, b: i64): i64 {
    ToInt64((a + b) % TWO64)
  }

  lemma Pow2Values()
    ensures Pow2(7) == 128 && Pow2(32) == TWO32
    ensures Pow2(63) == TWO63 && Pow2(64) == TWO64 && Pow2(70) == 64 * TWO64
  {
    Pow2Small();
    Pow2Add(16, 16);
    Pow2Add(31, 32);
    Pow2Add(32, 32);
    Pow2Add(64, 6);
  }

  lemma Pow2Small()
    ensures Pow2(6) == 64 && Pow2(7) == 128 && Pow2(16) == 0x1_0000 && Pow2(31) == TWO31
  {
    assert Pow2(8) == 256;
    Pow2Add(8, 8);
    Pow2Add(15, 16);
    assert Pow2(16) == 2 * Pow2(15);
  }

  lemma {:induction false} Pow2Add(m: nat, n: nat)
    ensures Pow2(m + n) == Pow2(m) * Pow2(n)
  {
    if m > 0 {
      Pow2Add(m - 1, n);
      assert m + n - 1 == (m - 1) + n;
    }
  }

  lemma {:induction false} Pow2Mono(m: nat, n: nat)
    requires m <= n
    ensures Pow2(m) <= Pow2(n)
    decreases n - m
  {
    if m < n {
      Pow2Mono(m + 1, n);
    }
  }

  /** Bit by bit. */
  lemma {:induction false} BitOrBits(a: nat, b: nat, k: nat)
    ensures BitOr(a, b) / Pow2(k) % 2 == 1 <==> a / Pow2(k) % 2 == 1 || b / Pow2(k) % 2 == 1
    decreases k
  {
    if k > 0 {
      BitOrBits(a / 2, b / 2, k - 1);
      HalfFirst(a, k);
      HalfFirst(b, k);
      HalfFirst(BitOr(a, b), k);
      assert BitOr(a, b) / 2 == BitOr(a / 2, b / 2);
    }
  }

  lemma HalfFirst(a: nat, k: nat)
    requires k > 0
    ensures a / Pow2(k) == a / 2 / Pow2(k - 1)
  {
    var p := Pow2(k - 1);
    var q, r := a / 2 / p, a / 2 % p;
    assert a == 2 * (a / 2) + a % 2 && a / 2 == p * q + r;
    assert a == (2 * p) * q + (2 * r + a % 2);
    DivModUnique(a, q, 2 * r + a % 2, 2 * p);
  }

  lemma {:induction false} OrZero(a: nat)
    ensures BitOr(a, 0) == a && BitOr(0, a) == a
  {
    if a > 0 {
      OrZero(a / 2);
    }
  }

  /** Or-ing a word with bits that all lie above it is addition. */
  lemma {:induction false} OrDisjoint(a: nat, x: nat, s: nat)
    requires a < Pow2(s)
    ensures BitOr(a, x * Pow2(s)) == a + x * Pow2(s)
  {
    if s == 0 {
      OrZero(x);
    } else {
      MulAssoc(x, 2, Pow2(s - 1));
      MulAssoc(2, x, Pow2(s - 1));
      OrDisjoint(a / 2, x, s - 1);
      OrEven(a, x * Pow2(s - 1));
    }
  }

  lemma OrEven(a: nat, y: nat)
    ensures BitOr(a, 2 * y) == a % 2 + 2 * BitOr(a / 2, y)
  {
    assert 2 * y / 2 == y;
  }

  /** One step of the varint reader: `acc |= x << s` in a word of `width` bits keeps `acc` equal
      to the exact sum reduced modulo the word size. */
  lemma OrShiftIsSum(width: nat, sum: nat, x: nat, s: nat)
    requires sum < Pow2(s)
    ensures BitOr(sum % Pow2(width), ShiftLeft(width, x, s)) == (sum + x * Pow2(s)) % Pow2(width)
  {
    if s >= width {
      OrShiftOut(width, sum, x, s);
    } else {
      OrShiftIn(width, sum, x, s);
    }
  }

  lemma OrShiftOut(width: nat, sum: nat, x: nat, s: nat)
    requires s >= width
    ensures BitOr(sum % Pow2(width), ShiftLeft(width, x, s)) == (sum + x * Pow2(s)) % Pow2(width)
  {
    var W := Pow2(width);
    Pow2Add(s - width, width);
    var c := x * Pow2(s - width);
    assert x * Pow2(s) == c * W by { MulAssoc(x, Pow2(s - width), W); }
    ModMultiple(sum, c, W);
    ModMultiple(0, c, W);
    SmallMod(0, W);
    OrZero(sum % W);
  }

  lemma OrShiftIn(width: nat, sum: nat, x: nat, s: nat)
    requires sum < Pow2(s) && s < width
    ensures BitOr(sum % Pow2(width), ShiftLeft(width, x, s)) == (sum + x * Pow2(s)) % Pow2(width)
  {
    var W := Pow2(width);
    var q, y := SplitShift(width, x, s);
    var low := y * Pow2(s);
    Pow2Mono(s, width);
    ModMultiple(low, q, W);
    ModMultiple(sum + low, q, W);
    OrDisjoint(sum, y, s);
    SmallMod(sum, W);
    SmallMod(low, W);
    SmallMod(sum + low, W);
    assert sum + x * Pow2(s) == (sum + low) + q * W;
  }

  /** `x << s` splits into the bits that stay in the word and a multiple of the word size. */
  lemma SplitShift(width: nat, x: nat, s: nat) returns (q: nat, y: nat)
    requires s < width
    ensures x * Pow2(s) == y * Pow2(s) + q * Pow2(width)
    ensures y * Pow2(s) + Pow2(s) <= Pow2(width)
  {
    Pow2Add(width - s, s);
    q, y := ShiftParts(x, Pow2(width - s), Pow2(s));
  }

  lemma ShiftParts(x: nat, R: nat, S: nat) returns (q: nat, y: nat)
    requires R > 0
    ensures x * S == y * S + q * (R * S)
    ensures y * S + S <= R * S
  {
    q, y := x / R, x % R;
    assert x == q * R + y;
    Distribute(q, R, y, S);
    MulLe(y + 1, R, S);
    assert (y + 1) * S == y * S + S;
  }

  lemma MulAssoc(a: int, b: int, c: int)
    ensures a * (b * c) == (a * b) * c
  {}

  lemma Distribute(q: nat, R: nat, y: nat, S: nat)
    ensures (q * R + y) * S == q * (R * S) + y * S
  {}

  lemma MulLe(a: nat, b: nat, c: nat)
    requires a <= b
    ensures a * c <= b * c
  {}

  lemma SmallMod(a: nat, m: nat)
    requires a < m
    ensures a % m == a
  {}

  lemma {:induction false} ModMultiple(a: nat, c: nat, m: nat)
    requires m > 0
    ensures (a + c * m) % m == a % m
    decreases c
  {
    if c > 0 {
      ModMultiple(a, c - 1, m);
      var t := a + (c - 1) * m;
      assert a + c * m == t + m;
      DivModUnique(t + m, t / m + 1, t % m, m);
    }
  }

  lemma DivModUnique(a: int, q: int, r: int, m: int)
    requires m > 0 && 0 <= r < m && a == m * q + r
    ensures a % m == r && a / m == q
  {
    var q', r' := a / m, a % m;
    var d := q' - q;
    assert m * d == r - r' by {
      assert a == m * q' + r';
      MulSub(m, q', q);
    }
    MulAtLeast(m, d);
  }

  lemma MulSub(m: int, a: int, b: int)
    ensures m * (a - b) == m * a - m * b
  {}

  lemma MulAtLeast(m: int, d: int)
    requires m > 0
    ensures d >= 1 ==> m * d >= m
    ensures d <= -1 ==> m * d <= -m
  {
    if d >= 1 {
      MulLe(1, d, m);
    } else if d <= -1 {
      MulLe(1, -d, m);
    }
  }

  /** bits.Len64 is the exact bit length. */
  lemma {:induction false} BitLenBounds(x: nat)
    ensures x < Pow2(BitLen(x))
    ensures x > 0 ==> BitLen(x) >= 1 && Pow2(BitLen(x) - 1) <= x
  {
    if x > 0 {
      BitLenBounds(x / 2);
    }
  }
}
