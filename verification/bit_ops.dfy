/**
 The bitwise operators `^`, `&`, `|` and `~` of the integer wrappers.
 The built-in operators act on the two's-complement bit pattern of the
 (promoted) operands; converting back to T keeps the low N bits, so each
 operator is an N-bit operation on the pattern of `_v`.
 */
module BitOps {
  import opened IntKinds
  import opened BitPatterns
  import opened Primitive

  lemma ModulusIsPow2(k: IntKind)
    ensures k.Modulus() == Pow2(k.Bits())
  {
    assert Pow2(8) == 0x100;
    assert Pow2(16) == 0x1_0000;
    Pow2Add(16, 16);
    Pow2Add(32, 32);
  }

  /** The N-bit two's-complement pattern of a value of type k. */
  function Pattern(k: IntKind, x: int): (u: nat)
    ensures u < Pow2(k.Bits())
    ensures Congruent(k, u, x)
  {
    ModulusIsPow2(k);
    assert x % k.Modulus() % k.Modulus() == x % k.Modulus() by {
      DivModUnique(k.Modulus(), x % k.Modulus(), 0, x % k.Modulus());
    }
    x % k.Modulus()
  }

  /** The value of type k whose pattern is u. */
  function FromPattern(k: IntKind, u: nat): (r: Prim)
    requires u < Pow2(k.Bits())
    ensures r.Valid() && r.kind == k
    ensures Pattern(k, r.v) == u
  {
    ModulusIsPow2(k);
    DivModUnique(k.Modulus(), u, 0, u);
    Narrow(k, u)
  }

  /** A valid value is recovered from its pattern. */
  lemma {:induction false} PatternRoundTrip(p: Prim)
    requires p.Valid()
    ensures FromPattern(p.kind, Pattern(p.kind, p.v)) == p
  {
    WrapUnique(p.kind, Pattern(p.kind, p.v), p.v);
  }

  /** `operator^`, `operator&` and `operator|`. */
  function Bitwise(op: BitOp, a: Prim, b: Prim): (r: Prim)
    requires SameType(a, b)
    ensures r.Valid() && r.kind == a.kind
    ensures forall i :: 0 <= i < a.kind.Bits() ==>
              (Bit(Pattern(r.kind, r.v), i) <==> op.Combine(Bit(Pattern(a.kind, a.v), i), Bit(Pattern(b.kind, b.v), i)))
  {
    var k := a.kind;
    var u := Apply(op, Pattern(k, a.v), Pattern(k, b.v), k.Bits());
    forall i | 0 <= i < k.Bits()
      ensures Bit(u, i) <==> op.Combine(Bit(Pattern(k, a.v), i), Bit(Pattern(k, b.v), i))
    {
      ApplyBits(op, Pattern(k, a.v), Pattern(k, b.v), k.Bits(), i);
    }
    FromPattern(k, u)
  }

  /** `operator~`: the built-in `~x`, which is `-x - 1` in two's complement. */
  function Not(a: Prim): (r: Prim)
    requires a.Valid()
    ensures r.Valid() && r.kind == a.kind
    ensures forall i :: 0 <= i < a.kind.Bits() ==>
              (Bit(Pattern(r.kind, r.v), i) <==> !Bit(Pattern(a.kind, a.v), i))
  {
    var k := a.kind;
    var r := Narrow(k, -a.v - 1);
    NotIsComplement(k, a.v, r.v);
    forall i | 0 <= i < k.Bits()
      ensures Bit(Pattern(k, r.v), i) <==> !Bit(Pattern(k, a.v), i)
    {
      ComplementBits(Pattern(k, a.v), k.Bits(), i);
    }
    r
  }

  lemma NotIsComplement(k: IntKind, x: int, y: int)
    requires Congruent(k, y, -x - 1)
    ensures Pattern(k, y) == Complement(Pattern(k, x), k.Bits())
  {
    ModulusIsPow2(k);
    var m := k.Modulus();
    var u: int := Pattern(k, x);
    var c := m - 1 - u;
    CongruentNeg(k, u, x);
    CongruentShift(k, -u, -x, -1);
    CongruentShift(k, -u - 1, -x - 1, 0);
    DivModUnique(m, -u - 1, -1, c);
    DivModUnique(m, c, 0, c);
  }

  /**
   The per-bit contracts of `Bitwise` and `Not` pin the result down: any
   value of the type whose bits satisfy them is that result.
   */
  lemma {:induction false} BitwiseDetermined(op: BitOp, a: Prim, b: Prim, r: Prim)
    requires SameType(a, b) && r.Valid() && r.kind == a.kind
    requires forall i :: 0 <= i < a.kind.Bits() ==>
               (Bit(Pattern(r.kind, r.v), i) <==> op.Combine(Bit(Pattern(a.kind, a.v), i), Bit(Pattern(b.kind, b.v), i)))
    ensures r == Bitwise(op, a, b)
  {
    var k := a.kind;
    var w := Bitwise(op, a, b);
    BitsDetermineValue(Pattern(k, r.v), Pattern(k, w.v), k.Bits());
    PatternRoundTrip(r);
    PatternRoundTrip(w);
  }

  lemma {:induction false} NotDetermined(a: Prim, r: Prim)
    requires a.Valid() && r.Valid() && r.kind == a.kind
    requires forall i :: 0 <= i < a.kind.Bits() ==>
               (Bit(Pattern(r.kind, r.v), i) <==> !Bit(Pattern(a.kind, a.v), i))
    ensures r == Not(a)
  {
    var k := a.kind;
    var w := Not(a);
    BitsDetermineValue(Pattern(k, r.v), Pattern(k, w.v), k.Bits());
    PatternRoundTrip(r);
    PatternRoundTrip(w);
  }

  /** `x ^ y ^ y == x`. */
  lemma {:induction false} XorTwice(a: Prim, b: Prim)
    requires SameType(a, b)
    ensures Bitwise(Xor, Bitwise(Xor, a, b), b) == a
  {
    var k := a.kind;
    var u := Apply(Xor, Pattern(k, a.v), Pattern(k, b.v), k.Bits());
    ApplyXorTwice(Pattern(k, a.v), Pattern(k, b.v), k.Bits());
    assert Pattern(k, Bitwise(Xor, a, b).v) == u;
    PatternRoundTrip(a);
  }

  /** `x & x == x` and `x | x == x`. */
  lemma {:induction false} AndOrSelf(a: Prim)
    requires a.Valid()
    ensures Bitwise(And, a, a) == a && Bitwise(Or, a, a) == a
  {
    AndOrIdempotent(Pattern(a.kind, a.v), a.kind.Bits());
    PatternRoundTrip(a);
  }

  /** `x op y == y op x` for `^`, `&` and `|`. */
  lemma {:induction false} BitwiseCommutes(op: BitOp, a: Prim, b: Prim)
    requires SameType(a, b)
    ensures Bitwise(op, a, b) == Bitwise(op, b, a)
  {
    ApplyCommutes(op, Pattern(a.kind, a.v), Pattern(a.kind, b.v), a.kind.Bits());
  }

  /** `~~x == x`. */
  lemma {:induction false} NotNot(a: Prim)
    requires a.Valid()
    ensures Not(Not(a)) == a
  {
    var k := a.kind;
    var once := Not(a).v;
    CongruentNeg(k, once, -a.v - 1);
    CongruentShift(k, -once, a.v + 1, -1);
    WrapUnique(k, -once - 1, a.v);
  }

  /** Some concrete results. */
  lemma BitExamples()
    ensures Not(Prim(U8, 0)).v == 255
    ensures Not(Prim(I8, 0)).v == -1
    ensures Not(Prim(I32, 5)).v == -6
  {
  }
}
