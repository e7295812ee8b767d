/**
 Conversions out of and into the integer wrappers: `to<U>()` for an
 integer target U, the `std::hash` specialisations built on
 `to<size_t>()`, and the integer literal suffixes `_i8` … `_ui64`.
 */
module Conversion {
  import opened IntKinds
  import opened Primitive

  /** The largest `unsigned long long`, the widest literal the suffix operators accept. */
  const ULongLongMax: nat := 0xffff_ffff_ffff_ffff

  /** `to<U>()`: `static_cast<U>(_v)`, the integral conversion into U. */
  function To(p: Prim, target: IntKind): (r: int)
    requires p.Valid()
    ensures target.InRange(r)
    ensures Congruent(target, r, p.v)
    ensures target.InRange(p.v) ==> r == p.v
  {
    Wrap(target, p.v)
  }

  /** Converting to the unsigned type of the same width and back restores the value. */
  lemma {:induction false} UnsignedRoundTrip(p: Prim)
    requires p.Valid()
    ensures To(Make(p.kind.Unsigned(), To(p, p.kind.Unsigned())), p.kind) == p.v
  {
    var u := To(p, p.kind.Unsigned());
    WrapUnique(p.kind, u, p.v);
  }

  /**
   `std::hash<primitive::…>`: `to<size_t>()`. A non-negative value hashes
   to itself; a negative one to its 64-bit two's-complement pattern.
   */
  function Hash(p: Prim): (h: nat)
    requires p.Valid()
    ensures h <= SizeT.Max()
    ensures p.v >= 0 ==> h == p.v
    ensures p.v < 0 ==> h == p.v + SizeT.Modulus()
  {
    var h := To(p, SizeT);
    assert p.v < 0 ==> h == p.v + SizeT.Modulus() by {
      if p.v < 0 {
        WidestRange(p.kind);
        WrapUnique(SizeT, p.v, p.v + SizeT.Modulus());
      }
    }
    h
  }

  /** Equal hashes mean equal values within one instantiation: no two values collide. */
  lemma HashInjective(a: Prim, b: Prim)
    requires SameType(a, b)
    ensures Hash(a) == Hash(b) <==> a == b
  {
  }

  /** `operator "" _i8` … `_ui64`: `T(v)` from the `unsigned long long` literal v. */
  function Literal(k: IntKind, n: nat): (p: Prim)
    requires n <= ULongLongMax
    ensures p.Valid() && p.kind == k
    ensures Congruent(k, p.v, n)
    ensures !k.Signed() ==> p.v == n % k.Modulus()
    ensures n <= k.Max() ==> p.v == n
  {
    Narrow(k, n)
  }

  /** An unsigned literal hashes to the literal reduced modulo 2^N. */
  lemma LiteralHash(k: IntKind, n: nat)
    requires n <= ULongLongMax && !k.Signed()
    ensures Hash(Literal(k, n)) == n % k.Modulus()
  {
  }

  /** Some concrete literals. */
  lemma LiteralExamples()
    ensures Literal(U8, 300).v == 44
    ensures Literal(I8, 200).v == -56
    ensures Literal(I64, ULongLongMax).v == -1
    ensures Literal(U64, ULongLongMax).v == ULongLongMax
    ensures Hash(Prim(I8, -1)) == ULongLongMax
  {
  }
}
