/** `tc::binary_util`: the width of an integer type, reading one bit, counting the set bits,
    and setting one bit on a condition. A value of an integer type `T` is an `int` in the range
    of `T`; its object representation is the two's-complement bit pattern, a `nat` below
    `2^bits<T>`. Signed shifts and conversions follow C++20: right shifts are arithmetic and
    conversions to an integer type are taken modulo `2^width`. */
module BinaryUtil {

  /** `CHAR_BIT`: bits per byte. */
  const CharBit: nat := 8

  /** A fundamental integer type, by its `sizeof` and signedness. */
  datatype IntType = IntType(size: nat, signed: bool)
  {
    /** The fundamental integer types occupy 1, 2, 4 or 8 bytes. */
    predicate Supported()
    {
      size == 1 || size == 2 || size == 4 || size == 8
    }
  }

  /** `bits<T>`: the size of `T` in bits, `sizeof(T) * CHAR_BIT`. */
  function Bits(t: IntType): (b: nat)
    ensures b % CharBit == 0 && b / CharBit == t.size
    ensures t.Supported() ==> b == 8 || b == 16 || b == 32 || b == 64
  {
    t.size * CharBit
  }

  /** Width of the type an operand of type `t` is promoted to before a shift: `int` (32 bits)
      for the narrower types, `t` itself otherwise. */
  function PromotedBits(t: IntType): (b: nat)
    ensures b >= Bits(t) && b >= 32
  {
    if Bits(t) < 32 then 32 else Bits(t)
  }

  function Pow2(n: nat): (p: nat)
    ensures p >= 1
  {
    if n == 0 then 1 else 2 * Pow2(n - 1)
  }

  /** `x` is a value of type `t`. */
  predicate InRange(t: IntType, x: int)
    requires t.Supported()
  {
    var b := Bits(t);
    var half: int := Pow2(b - 1);
    if t.signed then -half <= x < half else 0 <= x < Pow2(b)
  }

  /** The object representation of a value: its two's-complement bit pattern, which is also the
      value converted to the unsigned type of the same width. */
  function Pattern(t: IntType, x: int): (p: nat)
    requires t.Supported() && InRange(t, x)
    ensures p < Pow2(Bits(t))
    ensures x >= 0 ==> p == x
    ensures x < 0 ==> p == x + Pow2(Bits(t))
  {
    DivModUnique(x, Pow2(Bits(t)), if x < 0 then -1 else 0, if x < 0 then x + Pow2(Bits(t)) else x);
    x % Pow2(Bits(t))
  }

  /** Converting a bit pattern back to a value of type `t` (modulo `2^bits<T>`). */
  function FromPattern(t: IntType, p: nat): (x: int)
    requires t.Supported() && p < Pow2(Bits(t))
    ensures InRange(t, x) && Pattern(t, x) == p
  {
    if t.signed && p >= Pow2(Bits(t) - 1) then p - Pow2(Bits(t)) else p
  }

  /** Shifting a bit pattern right by `n`: `n` halvings. */
  function Shr(u: nat, n: nat): nat
  {
    if n == 0 then u else Shr(u / 2, n - 1)
  }

  /** Bit `n` (bit 0 is the least significant) of a bit pattern, as 0 or 1. */
  function Bit(u: nat, n: nat): nat
  {
    Shr(u, n) % 2
  }

  /** The number of set bits among bits `0 .. k - 1` of a bit pattern. */
  function CountBits(u: nat, k: nat): nat
  {
    if k == 0 then 0 else CountBits(u, k - 1) + Bit(u, k - 1)
  }

  /** The number of set bits of a bit pattern, one bit at a time from the least significant. */
  function PopCount(u: nat): nat
  {
    if u == 0 then 0 else u % 2 + PopCount(u / 2)
  }

  /** Bitwise or of two bit patterns. */
  function Or(a: nat, b: nat): nat
    decreases a + b
  {
    if a == 0 && b == 0 then 0
    else 2 * Or(a / 2, b / 2) + (if a % 2 == 1 || b % 2 == 1 then 1 else 0)
  }

  /** `get_bit(value, n)`: `(value >> n) & 1`, the shift acting on the promoted value (an
      arithmetic shift, that is floor division by `2^n`). Below `bits<T>` it reads bit `n` of the
      object representation; from there up to the promoted width it reads the sign. */
  function GetBit(t: IntType, x: int, n: nat): (b: bool)
    requires t.Supported() && InRange(t, x) && n < PromotedBits(t)
    ensures n < Bits(t) ==> (b <==> Bit(Pattern(t, x), n) == 1)
    ensures n >= Bits(t) ==> (b <==> t.signed && x < 0)
  {
    GetBitReadsPattern(t, x, n);
    (x / Pow2(n)) % 2 == 1
  }

  /** The width `popcount` counts at: the `std::uint16_t`, `std::uint32_t` or `std::uint64_t`
      overload, the first whose width is at least `bits<T>`. */
  function PopcountWidth(t: IntType): (k: nat)
    requires t.Supported()
    ensures k == 16 || k == 32 || k == 64
    ensures k >= Bits(t) && (k == 16 || k / 2 < Bits(t))
    ensures k == Bits(t) <==> t.size != 1
  {
    if Bits(t) <= 16 then 16 else if Bits(t) <= 32 then 32 else 64
  }

  /** `popcount(val)` as written: `val` is converted to the unsigned type of the chosen overload
      (modulo `2^16`, `2^32` or `2^64`) and that pattern's set bits are counted. */
  function Popcount(t: IntType, x: int): (r: nat)
    requires t.Supported() && InRange(t, x)
    ensures r <= PopcountWidth(t)
  {
    var k := PopcountWidth(t);
    PopCountBound(x % Pow2(k), k);
    PopCount(x % Pow2(k))
  }

  /** The number of set bits of `val` as evidently intended: the set bits of its own object
      representation (`OwnWidthCountsGetBit` shows it is the number of `n < bits<T>` with
      `get_bit(val, n)`). */
  function PopcountOwnWidth(t: IntType, x: int): (r: nat)
    requires t.Supported() && InRange(t, x)
    ensures r <= Bits(t)
  {
    PopCountBound(Pattern(t, x), Bits(t));
    PopCount(Pattern(t, x))
  }

  /** The number of `n < k` for which `get_bit(val, n)` holds. */
  function CountGetBits(t: IntType, x: int, k: nat): nat
    requires t.Supported() && InRange(t, x) && k <= Bits(t)
  {
    if k == 0 then 0 else CountGetBits(t, x, k - 1) + (if GetBit(t, x, k - 1) then 1 else 0)
  }

  /** `set_bit_cond(val, n, condition)`: `val |= static_cast<T>(condition) << n`, computed at the
      promoted width and converted back to `T`; `result` is the new value of `val`. Bit `n` is
      set when `condition` holds and `n < bits<T>`; nothing else changes. */
  method SetBitCond(t: IntType, val: int, n: nat, condition: bool) returns (result: int)
    requires t.Supported() && InRange(t, val) && n < PromotedBits(t)
    ensures InRange(t, result)
    ensures !condition || n >= Bits(t) ==> result == val
    ensures condition && n < Bits(t) ==> GetBit(t, result, n)
    ensures forall m :: 0 <= m < Bits(t) && m != n ==> GetBit(t, result, m) == GetBit(t, val, m)
    ensures condition && n < Bits(t) && GetBit(t, val, n) ==> result == val
    ensures condition && n < Bits(t) && !GetBit(t, val, n) ==>
              PopcountOwnWidth(t, result) == PopcountOwnWidth(t, val) + 1
    ensures condition && n < Bits(t) && !GetBit(t, val, n) ==>
              Popcount(t, result) ==
                Popcount(t, val) + 1 + (if t.signed && n == Bits(t) - 1 then PopcountWidth(t) - Bits(t) else 0)
  {
    var b, p := Bits(t), Pattern(t, val);
    var mask := if condition then Pow2(n) else 0;
    SetBitPattern(p, b, n, condition);
    var q := Or(p, mask) % Pow2(b);
    result := FromPattern(t, q);
    assert Pattern(t, result) == q;
    if q == p {
      PatternRoundTrip(t, val);
    }
    forall m | 0 <= m < b && m != n
      ensures GetBit(t, result, m) == GetBit(t, val, m)
    {
      assert Bit(q, m) == Bit(p, m);
    }
    if condition && n < b && !GetBit(t, val, n) {
      SetClearBitPopcount(t, val, result, n);
    }
  }

  // ---------------------------------------------------------------------------------------
  // Properties of popcount

  /** Widening before counting: the count as written exceeds the count of the own-width bits by
      exactly the sign-extension bits, `PopcountWidth(t) - bits<T>` for a negative signed value
      and none otherwise; so the two agree exactly unless `T` is a negative signed 8-bit value. */
  lemma PopcountWidening(t: IntType, x: int)
    requires t.Supported() && InRange(t, x)
    ensures Popcount(t, x) ==
              PopcountOwnWidth(t, x) + (if t.signed && x < 0 then PopcountWidth(t) - Bits(t) else 0)
    ensures Popcount(t, x) == PopcountOwnWidth(t, x) <==> !(t.signed && x < 0 && t.size == 1)
  {
    if x >= 0 {
      NonNegativeNotWidened(t, x);
    } else {
      NegativeWidened(t, x);
    }
  }

  /** A non-negative value is unchanged by the conversion to the wider unsigned type. */
  lemma NonNegativeNotWidened(t: IntType, x: int)
    requires t.Supported() && InRange(t, x) && x >= 0
    ensures Popcount(t, x) == PopcountOwnWidth(t, x)
  {
    Pow2Monotone(Bits(t), PopcountWidth(t));
    DivModUnique(x, Pow2(PopcountWidth(t)), 0, x);
  }

  /** A negative value is signed, and its conversion to the wider unsigned type sets the
      `PopcountWidth(t) - bits<T>` bits above its own. */
  lemma NegativeWidened(t: IntType, x: int)
    requires t.Supported() && InRange(t, x) && x < 0
    ensures t.signed
    ensures Popcount(t, x) == PopcountOwnWidth(t, x) + (PopcountWidth(t) - Bits(t))
  {
    WidenedCount(x, Bits(t), PopcountWidth(t), Pattern(t, x));
  }

  /** A negative `x` whose `b`-bit pattern is `own`, reduced modulo `2^k` for `k >= b`, has
      `k - b` set bits above that pattern. */
  lemma WidenedCount(x: int, b: nat, k: nat, own: nat)
    requires b <= k && x < 0 && own == x + Pow2(b)
    ensures PopCount(x % Pow2(k)) == PopCount(own) + (k - b)
  {
    Pow2Monotone(b, k);
    DivModUnique(x, Pow2(k), -1, x + Pow2(k));
    PopCountHighOnes(own, b, k);
    assert own + Pow2(k) - Pow2(b) == x % Pow2(k);
  }

  /** The corrected count is the number of `n < bits<T>` with `get_bit(val, n)`. */
  lemma OwnWidthCountsGetBit(t: IntType, x: int)
    requires t.Supported() && InRange(t, x)
    ensures PopcountOwnWidth(t, x) == CountGetBits(t, x, Bits(t))
  {
    PopCountIsCountBits(Pattern(t, x), Bits(t));
    CountGetBitsReadsPattern(t, x, Bits(t));
  }

  lemma {:induction false} CountGetBitsReadsPattern(t: IntType, x: int, k: nat)
    requires t.Supported() && InRange(t, x) && k <= Bits(t)
    ensures CountGetBits(t, x, k) == CountBits(Pattern(t, x), k)
  {
    if k > 0 {
      CountGetBitsReadsPattern(t, x, k - 1);
    }
  }

  /** Setting a clear bit `n` and keeping the others, counted by `popcount` as written: one
      more set bit, plus the sign-extension bits when `n` is the sign bit of a signed type, whose
      value turns negative (bit 7 of a signed 8-bit 0 gives -128, which counts 9). */
  lemma SetClearBitPopcount(t: IntType, x: int, y: int, n: nat)
    requires t.Supported() && InRange(t, x) && InRange(t, y) && n < Bits(t)
    requires !GetBit(t, x, n) && GetBit(t, y, n)
    requires forall m :: 0 <= m < Bits(t) && m != n ==> GetBit(t, y, m) == GetBit(t, x, m)
    ensures Popcount(t, y) ==
              Popcount(t, x) + 1 + (if t.signed && n == Bits(t) - 1 then PopcountWidth(t) - Bits(t) else 0)
  {
    SetClearBitOwnWidth(t, x, y, n);
    PopcountWidening(t, x);
    PopcountWidening(t, y);
    if t.signed {
      SignIsTopBit(t, x);
      SignIsTopBit(t, y);
    }
  }

  /** Setting a clear bit `n` and keeping the others adds one to the own-width count. */
  lemma SetClearBitOwnWidth(t: IntType, x: int, y: int, n: nat)
    requires t.Supported() && InRange(t, x) && InRange(t, y) && n < Bits(t)
    requires !GetBit(t, x, n) && GetBit(t, y, n)
    requires forall m :: 0 <= m < Bits(t) && m != n ==> GetBit(t, y, m) == GetBit(t, x, m)
    ensures PopcountOwnWidth(t, y) == PopcountOwnWidth(t, x) + 1
  {
    CountGetBitsOneMore(t, x, y, n, Bits(t));
    OwnWidthCountsGetBit(t, x);
    OwnWidthCountsGetBit(t, y);
  }

  /** Among the lowest `k` bits, `y` has one more bit set than `x` when the one bit they differ
      in, `n`, lies there. */
  lemma {:induction false} CountGetBitsOneMore(t: IntType, x: int, y: int, n: nat, k: nat)
    requires t.Supported() && InRange(t, x) && InRange(t, y) && n < Bits(t) && k <= Bits(t)
    requires !GetBit(t, x, n) && GetBit(t, y, n)
    requires forall m :: 0 <= m < Bits(t) && m != n ==> GetBit(t, y, m) == GetBit(t, x, m)
    ensures CountGetBits(t, y, k) == CountGetBits(t, x, k) + (if n < k then 1 else 0)
  {
    if k > 0 {
      CountGetBitsOneMore(t, x, y, n, k - 1);
    }
  }

  /** In a signed type, a value is negative exactly when `get_bit` reads its top bit as set. */
  lemma SignIsTopBit(t: IntType, x: int)
    requires t.Supported() && t.signed && InRange(t, x)
    ensures x < 0 <==> GetBit(t, x, Bits(t) - 1)
  {
    var b, p := Bits(t), Pattern(t, x);
    var h := Pow2(b - 1);
    assert Pow2(b) == 2 * h;
    ShrIsDivision(p, b - 1);
    TopBit(p, h);
  }

  /** Below `2 * h`, the quotient by `h` is odd exactly from `h` on. */
  lemma TopBit(p: nat, h: nat)
    requires 0 < h && p < 2 * h
    ensures (p / h) % 2 == 1 <==> p >= h
  {
    if p >= h {
      DivModUnique(p, h, 1, p - h);
    } else {
      DivModUnique(p, h, 0, p);
    }
  }

  /** An instance of the discrepancy: setting bit 7 of a signed 8-bit 0 gives -128,
      one set bit of its own, which `popcount` as written counts as 9. */
  lemma SignBitOfByteCountsNine(t: IntType)
    requires t.Supported() && t.signed && t.size == 1
    ensures InRange(t, -128) && Pattern(t, -128) == 128 && Bit(128, 7) == 1
    ensures PopcountOwnWidth(t, -128) == 1 && Popcount(t, -128) == 9
  {
    assert Bits(t) - 1 == 7 && Pow2(7) == 128;
    NegativeWidened(t, -128);
    PopCountTopBit(0, 7);
  }

  /** Whenever the widening adds nothing, the count lies in `[0, bits<T>]`. */
  lemma PopcountWithinBits(t: IntType, x: int)
    requires t.Supported() && InRange(t, x)
    requires !(t.signed && x < 0 && t.size == 1)
    ensures Popcount(t, x) <= Bits(t)
  {
    PopcountWidening(t, x);
  }

  /** -1 has every bit of its signed type set: the own-width count is `bits<T>`, and the count
      as written is the full width of the overload's unsigned type. */
  lemma PopcountOfMinusOne(t: IntType)
    requires t.Supported() && t.signed
    ensures Popcount(t, -1) == PopcountWidth(t)
    ensures PopcountOwnWidth(t, -1) == Bits(t)
  {
    AllBitsSet(t, -1);
  }

  /** A value whose representation has every bit set (`-1`, or the maximum of an unsigned
      type): the own-width count is `bits<T>`; as written, a signed value is sign-extended to
      the overload's full width. */
  lemma AllBitsSet(t: IntType, x: int)
    requires t.Supported() && InRange(t, x) && Pattern(t, x) == Pow2(Bits(t)) - 1
    ensures PopcountOwnWidth(t, x) == Bits(t)
    ensures Popcount(t, x) == if t.signed then PopcountWidth(t) else Bits(t)
  {
    OwnWidthAllOnes(t, x);
    if t.signed {
      AllOnesIsNegative(t, x);
    }
    PopcountWidening(t, x);
  }

  lemma OwnWidthAllOnes(t: IntType, x: int)
    requires t.Supported() && InRange(t, x) && Pattern(t, x) == Pow2(Bits(t)) - 1
    ensures PopcountOwnWidth(t, x) == Bits(t)
  {
    PopCountAllOnes(Bits(t));
  }

  /** In a signed type, the value whose bits are all set is negative (it is -1). */
  lemma AllOnesIsNegative(t: IntType, x: int)
    requires t.Supported() && t.signed && InRange(t, x) && Pattern(t, x) == Pow2(Bits(t)) - 1
    ensures x == -1
  {
    assert Pow2(Bits(t)) == 2 * Pow2(Bits(t) - 1);
  }


  /** The discrepancy in `popcount` for a signed 8-bit type (`signed char`, `std::int8_t`): for
      -1, whose 8 bits are all set, it counts 16, twice `bits<T>`. */
  lemma PopcountOfNegativeByteExceedsBits(t: IntType)
    requires t.Supported() && t.signed && t.size == 1
    ensures Popcount(t, -1) == 16 && Bits(t) == 8
    ensures PopcountOwnWidth(t, -1) == 8
  {
    PopcountOfMinusOne(t);
  }

  /** For the unsigned types the count is the own-width count. */
  lemma PopcountOfUnsigned(t: IntType, x: int)
    requires t.Supported() && !t.signed && InRange(t, x)
    ensures Popcount(t, x) == PopcountOwnWidth(t, x) == PopCount(x)
  {
    PopcountWidening(t, x);
  }

  // ---------------------------------------------------------------------------------------
  // Arithmetic of bit patterns

  /** A value is recovered from its object representation. */
  lemma PatternRoundTrip(t: IntType, x: int)
    requires t.Supported() && InRange(t, x)
    ensures FromPattern(t, Pattern(t, x)) == x
  {
    if t.signed {
      assert Pow2(Bits(t)) == 2 * Pow2(Bits(t) - 1);
    }
  }

  /** Euclidean division is determined by a quotient and an in-range remainder. */
  lemma DivModUnique(x: int, d: nat, q: int, r: int)
    requires d > 0 && 0 <= r < d && x == q * d + r
    ensures x / d == q && x % d == r
  {
    var q0, r0 := x / d, x % d;
    assert (q - q0) * d == r0 - r;
    if q > q0 {
      MulAtLeast(q - q0, d);
    } else if q < q0 {
      MulAtLeast(q0 - q, d);
    }
  }

  lemma MulAtLeast(a: int, d: nat)
    requires a >= 1
    ensures a * d >= d
  {
    assert a * d == (a - 1) * d + d;
  }

  lemma {:induction false} Pow2Add(a: nat, b: nat)
    ensures Pow2(a + b) == Pow2(a) * Pow2(b)
  {
    if a > 0 {
      Pow2Add(a - 1, b);
      assert Pow2(a + b) == 2 * Pow2(a - 1 + b);
    }
  }

  lemma Pow2Monotone(a: nat, b: nat)
    requires a <= b
    ensures Pow2(a) <= Pow2(b)
  {
    Pow2Add(a, b - a);
    MulAtLeast(Pow2(b - a), Pow2(a));
  }

  /** Shifting right by `n` is floor division by `2^n`. */
  lemma {:induction false} ShrIsDivision(u: nat, n: nat)
    ensures Shr(u, n) == u / Pow2(n)
  {
    if n > 0 {
      ShrIsDivision(u / 2, n - 1);
      DivDiv(u, Pow2(n - 1));
    }
  }

  /** Halving and then dividing by `p` is dividing by `2 * p`. */
  lemma DivDiv(u: nat, p: nat)
    requires p > 0
    ensures (u / 2) / p == u / (2 * p)
  {
    var q, r := u / 2, u % 2;
    var q2, r2 := q / p, q % p;
    assert q == q2 * p + r2;
    Regroup(q2, p, r2, r);
    DivModUnique(u, 2 * p, q2, 2 * r2 + r);
  }

  lemma Regroup(q: int, p: int, r2: int, r: int)
    ensures 2 * (q * p + r2) + r == q * (2 * p) + (2 * r2 + r)
  {
  }

  /** `GetBit` reads the object representation below `bits<T>` and the sign above it. */
  lemma GetBitReadsPattern(t: IntType, x: int, n: nat)
    requires t.Supported() && InRange(t, x) && n < PromotedBits(t)
    ensures n < Bits(t) ==> ((x / Pow2(n)) % 2 == 1 <==> Bit(Pattern(t, x), n) == 1)
    ensures n >= Bits(t) ==> ((x / Pow2(n)) % 2 == 1 <==> t.signed && x < 0)
  {
    if n < Bits(t) {
      ShiftReadsPattern(t, x, n);
    } else {
      ShiftBeyondWidth(t, x, n);
    }
  }

  /** Below `bits<T>`, the parity of `value >> n` is bit `n` of the object representation. */
  lemma ShiftReadsPattern(t: IntType, x: int, n: nat)
    requires t.Supported() && InRange(t, x) && n < Bits(t)
    ensures (x / Pow2(n)) % 2 == Bit(Pattern(t, x), n)
  {
    ShrIsDivision(Pattern(t, x), n);
    if x < 0 {
      ShiftOfWrapped(x, Bits(t), n);
    }
  }

  /** Adding `2^b` to a value does not change its bit `n` for `n < b`. */
  lemma ShiftOfWrapped(x: int, b: nat, n: nat)
    requires n < b
    ensures ((x + Pow2(b)) / Pow2(n)) % 2 == (x / Pow2(n)) % 2
  {
    Pow2Add(b - n, n);
    assert Pow2(b - n) == 2 * Pow2(b - n - 1);
    QuotientParity(x, Pow2(n), Pow2(b - n - 1));
  }

  /** Adding an even multiple of `p` keeps the parity of the quotient by `p`. */
  lemma QuotientParity(x: int, p: nat, k: int)
    requires p > 0
    ensures ((x + (2 * k) * p) / p) % 2 == (x / p) % 2
  {
    var q, r := x / p, x % p;
    assert x + (2 * k) * p == (q + 2 * k) * p + r;
    DivModUnique(x + (2 * k) * p, p, q + 2 * k, r);
    DivModUnique(q + 2 * k, 2, q / 2 + k, q % 2);
  }

  /** At or above `bits<T>`, a shift leaves 0 for a non-negative value and -1 for a negative one. */
  lemma ShiftBeyondWidth(t: IntType, x: int, n: nat)
    requires t.Supported() && InRange(t, x) && Bits(t) <= n
    ensures x >= 0 ==> x / Pow2(n) == 0
    ensures x < 0 ==> t.signed && x / Pow2(n) == -1
  {
    var b := Bits(t);
    Pow2Monotone(b, n);
    if x >= 0 {
      DivModUnique(x, Pow2(n), 0, x);
    } else {
      Pow2Monotone(b - 1, n);
      DivModUnique(x, Pow2(n), -1, x + Pow2(n));
    }
  }

  /** Counting bits `0 .. k` is counting bit 0, then bits `0 .. k - 1` of the halved pattern. */
  lemma {:induction false} CountBitsHalf(u: nat, k: nat)
    ensures CountBits(u, k + 1) == u % 2 + CountBits(u / 2, k)
  {
    if k > 0 {
      CountBitsHalf(u, k - 1);
      assert Bit(u, k) == Bit(u / 2, k - 1);
    }
  }

  /** A pattern below `2^w` has as many set bits as bits `0 .. w - 1` that are set. */
  lemma {:induction false} PopCountIsCountBits(u: nat, w: nat)
    requires u < Pow2(w)
    ensures PopCount(u) == CountBits(u, w)
  {
    if w > 0 {
      PopCountIsCountBits(u / 2, w - 1);
      CountBitsHalf(u, w - 1);
    }
  }

  lemma {:induction false} CountBitsBound(u: nat, k: nat)
    ensures CountBits(u, k) <= k
  {
    if k > 0 {
      CountBitsBound(u, k - 1);
    }
  }

  /** A pattern below `2^w` has at most `w` set bits. */
  lemma PopCountBound(u: nat, w: nat)
    requires u < Pow2(w)
    ensures PopCount(u) <= w
  {
    PopCountIsCountBits(u, w);
    CountBitsBound(u, w);
  }

  /** Setting the bit just above the `m` bits of `z` adds one to the count. */
  lemma {:induction false} PopCountTopBit(z: nat, m: nat)
    requires z < Pow2(m)
    ensures PopCount(z + Pow2(m)) == PopCount(z) + 1
  {
    if m > 0 {
      PopCountTopBit(z / 2, m - 1);
      PopCountStep(z + Pow2(m), z / 2 + Pow2(m - 1), z % 2);
      PopCountStep(z, z / 2, z % 2);
    } else {
      PopCountStep(z + Pow2(m), 0, 1);
    }
  }

  /** The count of `2 * h + r` is the low bit `r` plus the count of `h`. */
  lemma PopCountStep(v: nat, h: nat, r: nat)
    requires r < 2 && v == 2 * h + r
    ensures PopCount(v) == r + PopCount(h)
  {
    DivModUnique(v, 2, h, r);
  }

  /** Sign extension from `b` to `k` bits: adding `2^k - 2^b` above the `b` bits of `y` sets
      `k - b` more bits. */
  lemma {:induction false} PopCountHighOnes(y: nat, b: nat, k: nat)
    requires b <= k && y < Pow2(b) <= Pow2(k)
    ensures PopCount(y + Pow2(k) - Pow2(b)) == PopCount(y) + (k - b)
  {
    if k > b {
      Pow2Monotone(b, k - 1);
      PopCountHighOnes(y, b, k - 1);
      assert Pow2(k) == 2 * Pow2(k - 1);
      var z := y + Pow2(k - 1) - Pow2(b);
      PopCountTopBit(z, k - 1);
      assert z + Pow2(k - 1) == y + Pow2(k) - Pow2(b);
    } else {
      assert y + Pow2(k) - Pow2(b) == y;
    }
  }

  /** `2^m - 1` has its `m` low bits set. */
  lemma {:induction false} PopCountAllOnes(m: nat)
    ensures PopCount(Pow2(m) - 1) == m
  {
    if m > 0 {
      PopCountAllOnes(m - 1);
      assert (Pow2(m) - 1) / 2 == Pow2(m - 1) - 1;
    }
  }

  lemma {:induction false} OrZero(a: nat)
    ensures Or(a, 0) == a
  {
    if a > 0 {
      OrZero(a / 2);
    }
  }

  /** Bit `m` of an or is set exactly when it is set in either operand. */
  lemma {:induction false} OrBit(a: nat, b: nat, m: nat)
    ensures Bit(Or(a, b), m) == (if Bit(a, m) == 1 || Bit(b, m) == 1 then 1 else 0)
  {
    if m > 0 {
      OrBit(a / 2, b / 2, m - 1);
      if a == 0 && b == 0 {
        assert Or(a, b) == 0;
      } else {
        assert Or(a, b) / 2 == Or(a / 2, b / 2);
      }
    }
  }

  /** `2^n` has bit `n` set and no other. */
  lemma {:induction false} Pow2Bit(n: nat, m: nat)
    ensures Bit(Pow2(n), m) == (if m == n then 1 else 0)
  {
    if n > 0 && m > 0 {
      Pow2Bit(n - 1, m - 1);
    } else if n > 0 {
      assert Pow2(n) % 2 == 0;
    } else if m > 0 {
      ShrOfZero(m - 1);
    }
  }

  lemma {:induction false} ShrOfZero(n: nat)
    ensures Shr(0, n) == 0
  {
    if n > 0 {
      ShrOfZero(n - 1);
    }
  }

  /** Or keeps patterns below `2^w` below `2^w`. */
  lemma {:induction false} OrBelow(a: nat, b: nat, w: nat)
    requires a < Pow2(w) && b < Pow2(w)
    ensures Or(a, b) < Pow2(w)
  {
    if w > 0 && (a > 0 || b > 0) {
      OrBelow(a / 2, b / 2, w - 1);
    }
  }

  /** A bit above every set bit of `p` adds its value. */
  lemma {:induction false} OrHighBitAdds(p: nat, n: nat)
    requires p < Pow2(n)
    ensures Or(p, Pow2(n)) == p + Pow2(n)
  {
    if n > 0 {
      OrHighBitAdds(p / 2, n - 1);
    } else {
      assert Or(0, 1) == 2 * Or(0, 0) + 1;
    }
  }

  /** A bit at or above `bits<T>` is discarded by the conversion back to `T`. */
  lemma OrHighBit(p: nat, b: nat, n: nat)
    requires p < Pow2(b) && b <= n
    ensures Or(p, Pow2(n)) % Pow2(b) == p
  {
    Pow2Monotone(b, n);
    OrHighBitAdds(p, n);
    Pow2Add(n - b, b);
    DivModUnique(p + Pow2(n), Pow2(b), Pow2(n - b), p);
  }

  /** The pattern `set_bit_cond` converts back to `T`. */
  lemma OrPatternBelow(p: nat, mask: nat, b: nat, n: nat, condition: bool)
    requires p < Pow2(b) && mask == (if condition then Pow2(n) else 0)
    ensures !condition || n >= b ==> Or(p, mask) % Pow2(b) == p
    ensures condition && n < b ==> Or(p, mask) % Pow2(b) == Or(p, mask) < Pow2(b)
  {
    if !condition {
      OrZero(p);
      DivModUnique(p, Pow2(b), 0, p);
    } else if n >= b {
      OrHighBit(p, b, n);
    } else {
      Pow2Monotone(n + 1, b);
      OrBelow(p, mask, b);
      DivModUnique(Or(p, mask), Pow2(b), 0, Or(p, mask));
    }
  }

  /** `set_bit_cond` on bit patterns: `p | (condition << n)`, reduced modulo `2^b`. */
  lemma SetBitPattern(p: nat, b: nat, n: nat, condition: bool)
    requires p < Pow2(b)
    ensures var q := Or(p, if condition then Pow2(n) else 0) % Pow2(b);
      && q < Pow2(b)
      && (!condition || n >= b ==> q == p)
      && (condition && n < b ==> Bit(q, n) == 1)
      && (forall m :: 0 <= m < b && m != n ==> Bit(q, m) == Bit(p, m))
      && (condition && n < b && Bit(p, n) == 1 ==> q == p)
      && (condition && n < b && Bit(p, n) == 0 ==> PopCount(q) == PopCount(p) + 1)
  {
    var mask := if condition then Pow2(n) else 0;
    OrPatternBelow(p, mask, b, n, condition);
    if condition && n < b {
      forall m | 0 <= m < b && m != n
        ensures Bit(Or(p, mask), m) == Bit(p, m)
      {
        OrBit(p, mask, m);
        Pow2Bit(n, m);
      }
      OrBit(p, mask, n);
      Pow2Bit(n, n);
      if Bit(p, n) == 1 {
        OrSetBitIdempotent(p, n);
      } else {
        PopCountOrNewBit(p, n);
      }
    }
  }

  /** Setting a bit that is already set changes nothing. */
  lemma {:induction false} OrSetBitIdempotent(a: nat, n: nat)
    requires Bit(a, n) == 1
    ensures Or(a, Pow2(n)) == a
  {
    if n > 0 {
      OrSetBitIdempotent(a / 2, n - 1);
      assert Or(a, Pow2(n)) == 2 * Or(a / 2, Pow2(n - 1)) + a % 2;
    } else {
      OrZero(a / 2);
    }
  }

  /** Setting a clear bit adds one set bit. */
  lemma {:induction false} PopCountOrNewBit(a: nat, n: nat)
    requires Bit(a, n) == 0
    ensures PopCount(Or(a, Pow2(n))) == PopCount(a) + 1
  {
    var v := Or(a, Pow2(n));
    if n > 0 {
      PopCountOrNewBit(a / 2, n - 1);
      assert Pow2(n) / 2 == Pow2(n - 1) && Pow2(n) % 2 == 0;
      PopCountStep(v, Or(a / 2, Pow2(n - 1)), a % 2);
      PopCountStep(a, a / 2, a % 2);
    } else {
      OrZero(a / 2);
      PopCountStep(v, a / 2, 1);
      PopCountStep(a, a / 2, 0);
    }
  }

}
