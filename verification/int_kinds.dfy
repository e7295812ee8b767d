/**
 The eight fixed-width integer types the wrapper is instantiated with
 (`i8_t` … `ui64_t`), their value ranges, and the conversion of an
 arbitrary mathematical integer into one of them.

 Platform assumptions, as on every mainstream 64-bit target: `int` is
 32 bits wide, `size_t` and `unsigned long long` are 64 bits wide, and
 signed types use two's complement (guaranteed from C++20 on).
 */
module IntKinds {

  /** One constructor per integer instantiation of `detail::primitive<T>`. */
  datatype IntKind = I8 | U8 | I16 | U16 | I32 | U32 | I64 | U64 {

    /** Width in bits, N. */
    function Bits(): nat {
      match this
      case I8 | U8 => 8
      case I16 | U16 => 16
      case I32 | U32 => 32
      case I64 | U64 => 64
    }

    /** 2^N, the number of distinct values of the type. */
    function Modulus(): nat {
      match this
      case I8 | U8 => 0x100
      case I16 | U16 => 0x1_0000
      case I32 | U32 => 0x1_0000_0000
      case I64 | U64 => 0x1_0000_0000_0000_0000
    }

    predicate Signed() {
      I8? || I16? || I32? || I64?
    }

    function Min(): int {
      if Signed() then -(Modulus() / 2) else 0
    }

    function Max(): int {
      if Signed() then Modulus() / 2 - 1 else Modulus() - 1
    }

    predicate InRange(x: int) {
      Min() <= x <= Max()
    }

    /** The unsigned type of the same width. */
    function Unsigned(): (u: IntKind)
      ensures !u.Signed() && u.Bits() == Bits() && u.Modulus() == Modulus()
    {
      match this
      case I8 | U8 => U8
      case I16 | U16 => U16
      case I32 | U32 => U32
      case I64 | U64 => U64
    }

    /**
     The type in which the built-in arithmetic operators compute for
     operands of this type: the integral promotions turn every type
     narrower than `int` into (32-bit, signed) `int`; the others compute
     in their own type.
     */
    function Promoted(): (p: IntKind)
      ensures p.Bits() >= 32 && p.Bits() >= Bits()
      ensures Bits() >= 32 ==> p == this
    {
      if Bits() < 32 then I32 else this
    }
  }

  /** No instantiation reaches below `int64_t` or above `uint64_t`. */
  lemma WidestRange(k: IntKind)
    ensures I64.Min() <= k.Min() && k.Max() <= U64.Max()
  {
  }

  /** `size_t` on the modelled platform. */
  const SizeT := U64

  /** x and y denote the same N-bit pattern. */
  predicate Congruent(k: IntKind, x: int, y: int) {
    x % k.Modulus() == y % k.Modulus()
  }

  /**
   The integral conversion of x into type k: the unique value of k that
   is congruent to x modulo 2^N. For unsigned k this is the rule of the
   C++ standard in every revision; for signed k it is the rule of C++20
   (earlier revisions leave an out-of-range conversion implementation-
   defined, and every mainstream compiler already behaves this way).
   */
  function Wrap(k: IntKind, x: int): (r: int)
    ensures k.InRange(r)
    ensures Congruent(k, r, x)
    ensures k.InRange(x) ==> r == x
    ensures !k.Signed() ==> r == x % k.Modulus()
  {
    var u := x % k.Modulus();
    if k.Signed() && u > k.Max() then u - k.Modulus() else u
  }

  /** Any in-range value congruent to x is the conversion of x. */
  lemma WrapUnique(k: IntKind, x: int, y: int)
    requires k.InRange(y) && Congruent(k, y, x)
    ensures y == Wrap(k, x)
  {
    var m := k.Modulus();
    if y >= 0 {
      DivModUnique(m, y, 0, y);
    } else {
      DivModUnique(m, y, -1, y + m);
    }
  }

  /** Two integers convert to the same value exactly when they are congruent. */
  lemma WrapEqualIff(k: IntKind, x: int, y: int)
    ensures Wrap(k, x) == Wrap(k, y) <==> Congruent(k, x, y)
  {
    if Congruent(k, x, y) {
      WrapUnique(k, y, Wrap(k, x));
    }
  }

  /** Congruence survives adding the same amount to both sides. */
  lemma CongruentShift(k: IntKind, x: int, y: int, d: int)
    requires Congruent(k, x, y)
    ensures Congruent(k, x + d, y + d)
  {
    var m := k.Modulus();
    var r := (x + d) % m;
    var q := (x + d) / m;
    assert x == m * (x / m) + x % m;
    assert y == m * (y / m) + y % m;
    assert y + d == m * (q + y / m - x / m) + r;
    DivModUnique(m, y + d, q + y / m - x / m, r);
  }

  /** Congruence survives negation. */
  lemma CongruentNeg(k: IntKind, x: int, y: int)
    requires Congruent(k, x, y)
    ensures Congruent(k, -x, -y)
  {
    var m := k.Modulus();
    var r := x % m;
    assert x == m * (x / m) + r;
    assert y == m * (y / m) + r;
    if r == 0 {
      DivModUnique(m, -x, -(x / m), 0);
      DivModUnique(m, -y, -(y / m), 0);
    } else {
      DivModUnique(m, -x, -(x / m) - 1, m - r);
      DivModUnique(m, -y, -(y / m) - 1, m - r);
    }
  }

  /** Congruence is preserved by multiplying both sides by the same factor. */
  lemma CongruentScale(k: IntKind, x: int, y: int, c: int)
    requires Congruent(k, x, y)
    ensures Congruent(k, x * c, y * c)
  {
    var m := k.Modulus();
    var r := x % m;
    assert x == m * (x / m) + r;
    assert y == m * (y / m) + r;
    var s := (r * c) % m;
    var t := (r * c) / m;
    assert r * c == m * t + s;
    assert x * c == m * ((x / m) * c + t) + s by {
      assert x * c == (m * (x / m)) * c + r * c;
    }
    assert y * c == m * ((y / m) * c + t) + s by {
      assert y * c == (m * (y / m)) * c + r * c;
    }
    DivModUnique(m, x * c, (x / m) * c + t, s);
    DivModUnique(m, y * c, (y / m) * c + t, s);
  }

  /** Euclidean division is determined by any quotient/remainder pair. */
  lemma DivModUnique(m: int, x: int, q: int, r: int)
    requires m > 0 && x == m * q + r && 0 <= r < m
    ensures x % m == r && x / m == q
  {
    var q', r' := x / m, x % m;
    assert x == m * q' + r';
    assert m * (q - q') == r' - r;
    if q - q' >= 1 {
      MulAtLeast(m, q - q');
    }
    if q' - q >= 1 {
      MulAtLeast(m, q' - q);
    }
  }

  lemma MulAtLeast(m: int, d: int)
    requires m > 0 && d >= 1
    ensures m * d >= m
  {
  }
}
