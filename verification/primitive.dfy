/**
 Value semantics of `detail::primitive<T>` for the eight integer
 instantiations: construction, raw access, assignment and the arithmetic
 operators `+ - * / %`.

 Every operator computes the built-in result of `T op T`, which the
 integral promotions evaluate in `int` for types narrower than `int`, and
 hands it to `self_t(...)` (or stores it into `_v`), which converts it
 back to `T`. A built-in result that overflows a signed type is
 undefined behaviour; each operator requires that it does not happen.
 */
module Primitive {
  import opened IntKinds

  /** A wrapper value: its instantiation and the stored `_v`. */
  datatype Prim = Prim(kind: IntKind, v: int) {
    /** `_v` is a value of the wrapped type. */
    predicate Valid() {
      kind.InRange(v)
    }
  }

  /** Both operands are values of the same instantiation (the only mix the types allow). */
  predicate SameType(a: Prim, b: Prim) {
    a.Valid() && b.Valid() && a.kind == b.kind
  }

  /* ---------------- construction and raw access ---------------- */

  /** `primitive(const T& n)`: stores n unchanged. */
  function Make(k: IntKind, n: int): (p: Prim)
    requires k.InRange(n)
    ensures p.Valid() && p.kind == k
    ensures Raw(p) == n
  {
    Prim(k, n)
  }

  /** `raw()` and the explicit `operator T`: the stored value. */
  function Raw(p: Prim): (r: int)
    ensures p.Valid() ==> p.kind.InRange(r)
    ensures p == Prim(p.kind, r)
  {
    p.v
  }

  /** `operator=(const T& n)`: replaces the stored value and keeps the type. */
  function Assign(p: Prim, n: int): (r: Prim)
    requires p.Valid() && p.kind.InRange(n)
    ensures r.Valid() && r.kind == p.kind
    ensures Raw(r) == n
  {
    Make(p.kind, n)
  }

  /** Reading a wrapper out and wrapping it again gives the same wrapper. */
  lemma MakeRaw(p: Prim)
    requires p.Valid()
    ensures Make(p.kind, Raw(p)) == p
  {
  }

  /** Assigning twice keeps only the second value. */
  lemma AssignAssign(p: Prim, m: int, n: int)
    requires p.Valid() && p.kind.InRange(m) && p.kind.InRange(n)
    ensures Assign(Assign(p, m), n) == Assign(p, n)
  {
  }

  /* ---------------- the built-in operators ---------------- */

  /**
   The built-in result x is defined: it is computed in the promoted type,
   and a signed promoted type must be able to hold it.
   */
  predicate Representable(k: IntKind, x: int) {
    var w := k.Promoted();
    !w.Signed() || w.InRange(x)
  }

  /** `self_t(x)`: the built-in result converted back to T. */
  function Narrow(k: IntKind, x: int): (r: Prim)
    ensures r.Valid() && r.kind == k
    ensures Congruent(k, r.v, x)
    ensures k.InRange(x) ==> r.v == x
  {
    Prim(k, Wrap(k, x))
  }

  function Abs(x: int): nat {
    if x < 0 then -x else x
  }

  /** The built-in integer `/`: the quotient truncated toward zero. */
  function TruncDiv(a: int, b: int): (q: int)
    requires b != 0
    ensures Abs(q) * Abs(b) <= Abs(a) < (Abs(q) + 1) * Abs(b)
    ensures q > 0 ==> (a < 0) == (b < 0)
    ensures q < 0 ==> (a < 0) != (b < 0)
  {
    var n := Abs(a) / Abs(b);
    FloorDivBounds(Abs(a), Abs(b));
    if (a < 0) == (b < 0) then n else -n
  }

  lemma FloorDivBounds(x: nat, m: nat)
    requires m > 0
    ensures x / m >= 0
    ensures (x / m) * m <= x < (x / m + 1) * m
  {
    var n := x / m;
    assert x == n * m + x % m;
    assert (n + 1) * m == n * m + m;
  }

  /** The built-in integer `%`, tied to `/` by `(a/b)*b + a%b == a`. */
  function TruncRem(a: int, b: int): (r: int)
    requires b != 0
    ensures Abs(r) < Abs(b)
    ensures r != 0 ==> (r < 0) == (a < 0)
  {
    TruncRemBounds(a, b);
    a - TruncDiv(a, b) * b
  }

  lemma TruncRemBounds(a: int, b: int)
    requires b != 0
    ensures Abs(a - TruncDiv(a, b) * b) < Abs(b)
    ensures a - TruncDiv(a, b) * b != 0 ==> (a - TruncDiv(a, b) * b < 0) == (a < 0)
  {
    QuotientTimesDivisor(a, b);
  }

  /** q*b carries the sign of the dividend and the magnitude |q|*|b|. */
  lemma QuotientTimesDivisor(a: int, b: int)
    requires b != 0
    ensures var q := TruncDiv(a, b);
      q * b == if a >= 0 then Abs(q) * Abs(b) else -(Abs(q) * Abs(b))
  {
    var q := TruncDiv(a, b);
    var n := Abs(a) / Abs(b);
    if a >= 0 && b > 0 {
      assert q == n;
    } else if a >= 0 {
      assert q == -n;
      assert q * b == n * (-b);
    } else if b > 0 {
      assert q == -n;
      assert q * b == -(n * b);
    } else {
      assert q == n;
      assert q * b == -(n * (-b));
    }
  }

  /** `operator+`. */
  function Add(a: Prim, b: Prim): (r: Prim)
    requires SameType(a, b) && Representable(a.kind, a.v + b.v)
    ensures r.Valid() && r.kind == a.kind
    ensures Congruent(a.kind, r.v, a.v + b.v)
    ensures a.kind.InRange(a.v + b.v) ==> r.v == a.v + b.v
    ensures !a.kind.Signed() ==> r.v == (a.v + b.v) % a.kind.Modulus()
  {
    Narrow(a.kind, a.v + b.v)
  }

  /** `operator-`. */
  function Sub(a: Prim, b: Prim): (r: Prim)
    requires SameType(a, b) && Representable(a.kind, a.v - b.v)
    ensures r.Valid() && r.kind == a.kind
    ensures Congruent(a.kind, r.v, a.v - b.v)
    ensures a.kind.InRange(a.v - b.v) ==> r.v == a.v - b.v
    ensures !a.kind.Signed() ==> r.v == (a.v - b.v) % a.kind.Modulus()
  {
    Narrow(a.kind, a.v - b.v)
  }

  /** `operator*`. */
  function Mul(a: Prim, b: Prim): (r: Prim)
    requires SameType(a, b) && Representable(a.kind, a.v * b.v)
    ensures r.Valid() && r.kind == a.kind
    ensures Congruent(a.kind, r.v, a.v * b.v)
    ensures a.kind.InRange(a.v * b.v) ==> r.v == a.v * b.v
    ensures !a.kind.Signed() ==> r.v == (a.v * b.v) % a.kind.Modulus()
  {
    Narrow(a.kind, a.v * b.v)
  }

  /** `/` and `%` are defined: a non-zero divisor and a representable quotient. */
  predicate DivDefined(a: Prim, b: Prim) {
    SameType(a, b) && b.v != 0 && Representable(a.kind, TruncDiv(a.v, b.v))
  }

  /** `operator/`. */
  function Div(a: Prim, b: Prim): (r: Prim)
    requires DivDefined(a, b)
    ensures r.Valid() && r.kind == a.kind
    ensures !(a.v == a.kind.Min() && b.v == -1) ==>
              Abs(r.v) * Abs(b.v) <= Abs(a.v) < (Abs(r.v) + 1) * Abs(b.v)
              && (r.v > 0 ==> (a.v < 0) == (b.v < 0))
              && (r.v < 0 ==> (a.v < 0) != (b.v < 0))
    ensures a.v == a.kind.Min() && b.v == -1 ==> r.v == a.kind.Min()
  {
    DivInRange(a, b);
    Narrow(a.kind, TruncDiv(a.v, b.v))
  }

  /** The only quotient of two T values that T cannot hold is `Min / -1`. */
  lemma DivInRange(a: Prim, b: Prim)
    requires SameType(a, b) && b.v != 0
    ensures a.v == a.kind.Min() && b.v == -1 ==> TruncDiv(a.v, b.v) == -a.kind.Min()
    ensures !(a.v == a.kind.Min() && b.v == -1) ==> a.kind.InRange(TruncDiv(a.v, b.v))
  {
    QuotientMagnitude(a.v, b.v);
  }

  /** Dividing by 1 or -1 keeps or negates; any larger divisor at least halves. */
  lemma QuotientMagnitude(a: int, b: int)
    requires b != 0
    ensures b == 1 ==> TruncDiv(a, b) == a
    ensures b == -1 ==> TruncDiv(a, b) == -a
    ensures Abs(b) >= 2 ==> 2 * Abs(TruncDiv(a, b)) <= Abs(a)
    ensures a >= 0 && b > 0 ==> TruncDiv(a, b) >= 0
  {
    var n := Abs(TruncDiv(a, b));
    if Abs(b) >= 2 {
      assert n * 2 <= n * Abs(b);
    }
  }

  /** `operator%`. */
  function Rem(a: Prim, b: Prim): (r: Prim)
    requires DivDefined(a, b)
    ensures r.Valid() && r.kind == a.kind
    ensures Abs(r.v) < Abs(b.v)
    ensures r.v != 0 ==> (r.v < 0) == (a.v < 0)
  {
    RemInRange(a, b);
    Narrow(a.kind, TruncRem(a.v, b.v))
  }

  /** A remainder is smaller in magnitude than a divisor of type T, so T holds it. */
  lemma RemInRange(a: Prim, b: Prim)
    requires SameType(a, b) && b.v != 0
    ensures a.kind.InRange(TruncRem(a.v, b.v))
  {
    var r := TruncRem(a.v, b.v);
    if r < 0 {
      assert r > -(Abs(b.v) as int) && -(Abs(b.v) as int) >= a.kind.Min();
    }
  }

  /** `(a/b)*b + a%b == a`, the law that ties `/` to `%`. */
  lemma DivRemIdentity(a: Prim, b: Prim)
    requires DivDefined(a, b)
    ensures Congruent(a.kind, Div(a, b).v * b.v + Rem(a, b).v, a.v)
    ensures !(a.v == a.kind.Min() && b.v == -1) ==> Div(a, b).v * b.v + Rem(a, b).v == a.v
  {
    var k := a.kind;
    var q := TruncDiv(a.v, b.v);
    var r := TruncRem(a.v, b.v);
    var d := Div(a, b).v;
    assert q * b.v + r == a.v;
    RemInRange(a, b);
    assert Rem(a, b).v == r;
    assert Congruent(k, d, q);
    CongruentScale(k, d, q, b.v);
    CongruentShift(k, d * b.v, q * b.v, r);
    DivInRange(a, b);
  }

  /** Subtracting what was added gives back the original value. */
  lemma {:induction false} AddSub(a: Prim, b: Prim)
    requires SameType(a, b) && Representable(a.kind, a.v + b.v)
    requires Representable(a.kind, Add(a, b).v - b.v)
    ensures Sub(Add(a, b), b) == a
  {
    var k := a.kind;
    var s := Add(a, b).v;
    CongruentShift(k, s, a.v + b.v, -b.v);
    assert Congruent(k, s - b.v, a.v);
    WrapUnique(k, s - b.v, a.v);
  }

  /** Adding what was subtracted gives back the original value. */
  lemma {:induction false} SubAdd(a: Prim, b: Prim)
    requires SameType(a, b) && Representable(a.kind, a.v - b.v)
    requires Representable(a.kind, Sub(a, b).v + b.v)
    ensures Add(Sub(a, b), b) == a
  {
    var k := a.kind;
    var d := Sub(a, b).v;
    CongruentShift(k, d, a.v - b.v, b.v);
    WrapUnique(k, d + b.v, a.v);
  }

  /** Every unsigned `+`, `-` and `*` is defined except a 16-bit product past `INT_MAX`. */
  lemma UnsignedAlwaysDefined(a: Prim, b: Prim)
    requires SameType(a, b) && !a.kind.Signed()
    ensures Representable(a.kind, a.v + b.v) && Representable(a.kind, a.v - b.v)
    ensures a.kind != U16 ==> Representable(a.kind, a.v * b.v)
    ensures a.kind == U16 ==> (Representable(a.kind, a.v * b.v) <==> a.v * b.v <= I32.Max())
  {
    ProductBounds(a.v, b.v, a.kind.Max());
  }

  lemma ProductBounds(x: int, y: int, bound: int)
    requires 0 <= x <= bound && 0 <= y <= bound
    ensures 0 <= x * y <= bound * bound
  {
    assert x * y <= x * bound;
    assert x * bound <= bound * bound;
  }

  /** `ui16_t(65535) * ui16_t(65535)` overflows the promoted `int`. */
  lemma U16ProductOverflowsInt()
    ensures !Representable(U16, 65535 * 65535)
  {
  }

  /** Some concrete results of the unsigned operators. */
  lemma UnsignedExamples()
    ensures Sub(Prim(U8, 3), Prim(U8, 5)).v == 254
    ensures Add(Prim(U8, 255), Prim(U8, 1)).v == 0
    ensures Mul(Prim(U8, 16), Prim(U8, 16)).v == 0
    ensures Sub(Prim(U64, 0), Prim(U64, 1)).v == 0xffff_ffff_ffff_ffff
  {
  }

  /** `/` and `%` truncate toward zero. */
  lemma DivExamples()
    ensures Div(Prim(I32, -7), Prim(I32, 2)).v == -3
    ensures Rem(Prim(I32, -7), Prim(I32, 2)).v == -1
    ensures Div(Prim(I32, 7), Prim(I32, -2)).v == -3
    ensures Rem(Prim(I32, 7), Prim(I32, -2)).v == 1
    ensures Div(Prim(I8, -128), Prim(I8, -1)).v == -128
    ensures !DivDefined(Prim(I32, I32.Min()), Prim(I32, -1))
  {
  }
}
