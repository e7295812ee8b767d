/**
 The mutating operators of the integer wrappers: prefix and postfix
 `++`/`--` and the compound assignments `+=`, `-=`, `*=`, `/=`.
 A mutation is modelled as a pure step from the object's value before to
 the value the operator returns (always a copy, since every one of them
 returns `auto`) and the value the object holds afterwards.
 */
module Mutation {
  import opened IntKinds
  import opened Primitive

  /** The value an operator returns, and the value the object holds afterwards. */
  datatype Step = Step(returned: Prim, after: Prim)

  /** `_v++` on the stored value; at the top of the range it wraps to the bottom. */
  function Incremented(p: Prim): (r: Prim)
    requires p.Valid() && Representable(p.kind, p.v + 1)
    ensures r.Valid() && r.kind == p.kind
    ensures r.v == if p.v == p.kind.Max() then p.kind.Min() else p.v + 1
  {
    var r := Narrow(p.kind, p.v + 1);
    assert p.v == p.kind.Max() ==> r.v == p.kind.Min() by {
      if p.v == p.kind.Max() {
        WrapUnique(p.kind, p.v + 1, p.kind.Min());
      }
    }
    r
  }

  /** `_v--` on the stored value; at the bottom of the range it wraps to the top. */
  function Decremented(p: Prim): (r: Prim)
    requires p.Valid() && Representable(p.kind, p.v - 1)
    ensures r.Valid() && r.kind == p.kind
    ensures r.v == if p.v == p.kind.Min() then p.kind.Max() else p.v - 1
  {
    var r := Narrow(p.kind, p.v - 1);
    assert p.v == p.kind.Min() ==> r.v == p.kind.Max() by {
      if p.v == p.kind.Min() {
        WrapUnique(p.kind, p.v - 1, p.kind.Max());
      }
    }
    r
  }

  /** Prefix `++x`: increments, then returns a copy of the new value. */
  function PreIncrement(p: Prim): (s: Step)
    requires p.Valid() && Representable(p.kind, p.v + 1)
    ensures s.returned == s.after
    ensures s.after.Valid() && s.after.kind == p.kind && Congruent(p.kind, s.after.v, p.v + 1)
    ensures s.after.v == if p.v == p.kind.Max() then p.kind.Min() else p.v + 1
  {
    var n := Incremented(p);
    Step(n, n)
  }

  /** Postfix `x++`: returns a copy of the old value, then increments. */
  function PostIncrement(p: Prim): (s: Step)
    requires p.Valid() && Representable(p.kind, p.v + 1)
    ensures s.returned == p
    ensures s.after.Valid() && s.after.kind == p.kind && Congruent(p.kind, s.after.v, p.v + 1)
    ensures s.after.v == if p.v == p.kind.Max() then p.kind.Min() else p.v + 1
  {
    Step(p, Incremented(p))
  }

  /** Prefix `--x`. */
  function PreDecrement(p: Prim): (s: Step)
    requires p.Valid() && Representable(p.kind, p.v - 1)
    ensures s.returned == s.after
    ensures s.after.Valid() && s.after.kind == p.kind && Congruent(p.kind, s.after.v, p.v - 1)
    ensures s.after.v == if p.v == p.kind.Min() then p.kind.Max() else p.v - 1
  {
    var n := Decremented(p);
    Step(n, n)
  }

  /** Postfix `x--`. */
  function PostDecrement(p: Prim): (s: Step)
    requires p.Valid() && Representable(p.kind, p.v - 1)
    ensures s.returned == p
    ensures s.after.Valid() && s.after.kind == p.kind && Congruent(p.kind, s.after.v, p.v - 1)
    ensures s.after.v == if p.v == p.kind.Min() then p.kind.Max() else p.v - 1
  {
    Step(p, Decremented(p))
  }

  /**
   The two forms of `++` leave the same value behind; the prefix form
   returns that new value, the postfix form the old one. Likewise `--`.
   */
  lemma PrefixPostfixAgree(p: Prim)
    requires p.Valid()
    ensures Representable(p.kind, p.v + 1) ==>
              PreIncrement(p).after == PostIncrement(p).after
              && PreIncrement(p).returned == PostIncrement(p).after
              && PostIncrement(p).returned == p
    ensures Representable(p.kind, p.v - 1) ==>
              PreDecrement(p).after == PostDecrement(p).after
              && PreDecrement(p).returned == PostDecrement(p).after
              && PostDecrement(p).returned == p
  {
  }

  /** `--` undoes `++`. */
  lemma {:induction false} IncrementDecrement(p: Prim)
    requires p.Valid() && Representable(p.kind, p.v + 1)
    requires Representable(p.kind, Incremented(p).v - 1)
    ensures Decremented(Incremented(p)) == p
  {
    var k := p.kind;
    var n := Incremented(p).v;
    CongruentShift(k, n, p.v + 1, -1);
    WrapUnique(k, n - 1, p.v);
  }

  /** `++` undoes `--`. */
  lemma {:induction false} DecrementIncrement(p: Prim)
    requires p.Valid() && Representable(p.kind, p.v - 1)
    requires Representable(p.kind, Decremented(p).v + 1)
    ensures Incremented(Decremented(p)) == p
  {
    var k := p.kind;
    var n := Decremented(p).v;
    CongruentShift(k, n, p.v - 1, 1);
    WrapUnique(k, n + 1, p.v);
  }

  /** Starting from 5: `++x` returns 6 and `x++` returns 5; both leave 6. An 8-bit 255 steps to 0. */
  lemma IncrementExamples()
    ensures PreIncrement(Prim(I32, 5)) == Step(Prim(I32, 6), Prim(I32, 6))
    ensures PostIncrement(Prim(I32, 5)) == Step(Prim(I32, 5), Prim(I32, 6))
    ensures PostIncrement(Prim(U8, 255)).after == Prim(U8, 0)
    ensures PreDecrement(Prim(U16, 0)).returned == Prim(U16, 65535)
    ensures PreIncrement(Prim(I8, 127)).after == Prim(I8, -128)
    ensures !Representable(I32, I32.Max() + 1)
  {
  }

  /* ---------------- compound assignment ---------------- */

  /** The operators that have a well-formed compound assignment. */
  datatype ArithOp = Plus | Minus | Times | Quotient

  /** The built-in `x op y` on the promoted operands. */
  function BuiltIn(op: ArithOp, x: int, y: int): int
    requires op == Quotient ==> y != 0
  {
    match op
    case Plus => x + y
    case Minus => x - y
    case Times => x * y
    case Quotient => TruncDiv(x, y)
  }

  /** Both `x op y` and `x op= y` are free of undefined behaviour. */
  predicate Defined(op: ArithOp, a: Prim, b: Prim) {
    SameType(a, b) && (op == Quotient ==> b.v != 0)
    && Representable(a.kind, BuiltIn(op, a.v, b.v))
  }

  /** The binary operator `a op b`. */
  function Binary(op: ArithOp, a: Prim, b: Prim): Prim
    requires Defined(op, a, b)
  {
    match op
    case Plus => Add(a, b)
    case Minus => Sub(a, b)
    case Times => Mul(a, b)
    case Quotient => Div(a, b)
  }

  /**
   `x op= y`: stores the built-in `_v op y` into `_v` (converted to T)
   and returns a copy of the object. The object ends up holding exactly
   what the binary operator would have produced; y is a value and is
   untouched.
   */
  function CompoundAssign(op: ArithOp, x: Prim, y: Prim): (s: Step)
    requires Defined(op, x, y)
    ensures s.after == Binary(op, x, y)
    ensures s.returned == s.after
  {
    var stored := Assign(x, Wrap(x.kind, BuiltIn(op, x.v, y.v)));
    Step(stored, stored)
  }

  /** `x += y; x -= y` leaves x where it started. */
  lemma {:induction false} AddAssignSubAssign(x: Prim, y: Prim)
    requires Defined(Plus, x, y)
    requires Defined(Minus, CompoundAssign(Plus, x, y).after, y)
    ensures CompoundAssign(Minus, CompoundAssign(Plus, x, y).after, y).after == x
  {
    AddSub(x, y);
  }
}
