/**
 Bitwise operations on N-bit patterns, written as naturals below 2^N.
 `Bit` is the reference reading of "the i-th binary digit"; `Apply`
 computes a bitwise operator digit by digit, and `Complement` is the
 arithmetic form of `~` on an N-bit pattern.
 */
module BitPatterns {

  function Pow2(n: nat): (r: nat)
    ensures r >= 1
  {
    if n == 0 then 1 else 2 * Pow2(n - 1)
  }

  lemma {:induction false} Pow2Add(a: nat, b: nat)
    ensures Pow2(a + b) == Pow2(a) * Pow2(b)
    decreases a
  {
    if a > 0 {
      Pow2Add(a - 1, b);
    }
  }

  /** The i-th binary digit of x, counting from the least significant. */
  predicate Bit(x: nat, i: nat) {
    if i == 0 then x % 2 == 1 else Bit(x / 2, i - 1)
  }

  /** The three binary bitwise operators `&`, `|` and `^`. */
  datatype BitOp = And | Or | Xor {
    predicate Combine(x: bool, y: bool) {
      match this
      case And => x && y
      case Or => x || y
      case Xor => x != y
    }
  }

  /** op applied to the low n digits of a and b, digit by digit. */
  function Apply(op: BitOp, a: nat, b: nat, n: nat): (r: nat)
    ensures r < Pow2(n)
  {
    if n == 0 then 0
    else 2 * Apply(op, a / 2, b / 2, n - 1) + (if op.Combine(a % 2 == 1, b % 2 == 1) then 1 else 0)
  }

  /** Every digit of the result is op of the operands' digits at that position. */
  lemma {:induction false} ApplyBits(op: BitOp, a: nat, b: nat, n: nat, i: nat)
    requires i < n
    ensures Bit(Apply(op, a, b, n), i) <==> op.Combine(Bit(a, i), Bit(b, i))
    decreases i
  {
    var rest := Apply(op, a / 2, b / 2, n - 1);
    var r := Apply(op, a, b, n);
    assert r / 2 == rest;
    if i > 0 {
      ApplyBits(op, a / 2, b / 2, n - 1, i - 1);
    }
  }

  /** Two patterns that agree on every digit are equal. */
  lemma {:induction false} BitsDetermineValue(x: nat, y: nat, n: nat)
    requires x < Pow2(n) && y < Pow2(n)
    requires forall i :: 0 <= i < n ==> (Bit(x, i) <==> Bit(y, i))
    ensures x == y
    decreases n
  {
    if n > 0 {
      assert Bit(x, 0) <==> Bit(y, 0);
      forall i | 0 <= i < n - 1
        ensures Bit(x / 2, i) <==> Bit(y / 2, i)
      {
        assert Bit(x, i + 1) <==> Bit(y, i + 1);
      }
      BitsDetermineValue(x / 2, y / 2, n - 1);
    }
  }

  /** `a ^ b ^ b == a` on n-bit patterns. */
  lemma {:induction false} ApplyXorTwice(a: nat, b: nat, n: nat)
    requires a < Pow2(n)
    ensures Apply(Xor, Apply(Xor, a, b, n), b, n) == a
    decreases n
  {
    if n > 0 {
      var x := Apply(Xor, a, b, n);
      assert x / 2 == Apply(Xor, a / 2, b / 2, n - 1);
      ApplyXorTwice(a / 2, b / 2, n - 1);
    }
  }

  /** `a & a == a` and `a | a == a` on n-bit patterns. */
  lemma {:induction false} AndOrIdempotent(a: nat, n: nat)
    requires a < Pow2(n)
    ensures Apply(And, a, a, n) == a && Apply(Or, a, a, n) == a
    decreases n
  {
    if n > 0 {
      AndOrIdempotent(a / 2, n - 1);
    }
  }

  /** The operands of `&`, `|` and `^` may be swapped. */
  lemma {:induction false} ApplyCommutes(op: BitOp, a: nat, b: nat, n: nat)
    ensures Apply(op, a, b, n) == Apply(op, b, a, n)
    decreases n
  {
    if n > 0 {
      ApplyCommutes(op, a / 2, b / 2, n - 1);
    }
  }

  /** The n-bit complement of a pattern below 2^n. */
  function Complement(x: nat, n: nat): (r: nat)
    requires x < Pow2(n)
    ensures r < Pow2(n)
  {
    Pow2(n) - 1 - x
  }

  /** The complement flips every one of the low n digits. */
  lemma {:induction false} ComplementBits(x: nat, n: nat, i: nat)
    requires x < Pow2(n) && i < n
    ensures Bit(Complement(x, n), i) <==> !Bit(x, i)
    decreases i
  {
    var c := Complement(x, n);
    assert c % 2 == 1 - x % 2;
    if i > 0 {
      assert c / 2 == Complement(x / 2, n - 1);
      ComplementBits(x / 2, n - 1, i - 1);
    }
  }
}
