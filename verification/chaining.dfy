/**
 Chained comparison. Every relational or equality operator of a wrapper
 returns a `proxy` holding the running result and the operand it last
 compared; a further operator on the proxy ANDs in the comparison of that
 last operand with the new one. So `x0 op1 x1 op2 x2 …`, when C++ parses
 it as `((x0 op1 x1) op2 x2) …`, yields the conjunction of `x(i-1) op_i x(i)`
 over every adjacent pair, as in mathematical notation.

 C++ parses a chain left to right only while no relational operator
 (`<`, `>`, `<=`, `>=`) follows an equality operator (`==`, `!=`): the
 relational operators bind tighter, so `x0 == x1 < x2` is
 `x0 == (x1 < x2)`, which compares a wrapper with a proxy and does not
 compile. `ParsesLeftToRight` states which chains compile.

 The C++ proxy keeps `_last` as a reference to the operand; here it
 is a copy, which has the same value for as long as the reference is valid.
 */
module Chaining {
  import opened IntKinds
  import opened Primitive

  /** The six operators `<`, `>`, `<=`, `>=`, `==`, `!=`. */
  datatype RelOp = Lt | Gt | Le | Ge | Eq | Ne {
    /** The built-in comparison of two raw values. */
    predicate Holds(x: int, y: int) {
      match this
      case Lt => x < y
      case Gt => x > y
      case Le => x <= y
      case Ge => x >= y
      case Eq => x == y
      case Ne => x != y
    }

    /** `==` and `!=`, which bind more loosely than the relational operators. */
    predicate IsEquality() {
      Eq? || Ne?
    }
  }

  /** `proxy<self_t>`: the running `_result` and the last compared operand `_last`. */
  datatype Proxy = Proxy(result: bool, last: Prim)

  /** One further link of a chain: an operator and its right operand. */
  datatype Link = Link(op: RelOp, operand: Prim)

  /** `primitive::operator op(other)`: starts a chain with its first comparison. */
  function Compare(a: Prim, op: RelOp, b: Prim): (p: Proxy)
    requires SameType(a, b)
    ensures p.last == b
    ensures p == Extend(Proxy(true, a), op, b)
  {
    Proxy(op.Holds(a.v, b.v), b)
  }

  /**
   `proxy::operator op(other)`: ANDs in the comparison of `_last` with the
   new operand (never of the running bool) and moves `_last` forward.
   */
  function Extend(p: Proxy, op: RelOp, c: Prim): (r: Proxy)
    requires p.last.kind == c.kind
    ensures r.last == c
    ensures !p.result ==> !r.result
    ensures p.result ==> (r.result <==> op.Holds(p.last.v, c.v))
  {
    Proxy(p.result && op.Holds(p.last.v, c.v), c)
  }

  /** Every operand of the links has type k; operands of mixed instantiations do not compile. */
  predicate LinksOfKind(k: IntKind, links: seq<Link>) {
    forall i :: 0 <= i < |links| ==> links[i].operand.kind == k
  }

  /**
   The links group left to right in C++: no relational operator comes
   after an equality operator.
   */
  predicate ParsesLeftToRight(links: seq<Link>) {
    forall i, j :: 0 <= i < j < |links| && links[i].op.IsEquality() ==> links[j].op.IsEquality()
  }

  /** Applies further links to a proxy from left to right. */
  function Resume(p: Proxy, links: seq<Link>): (r: Proxy)
    requires LinksOfKind(p.last.kind, links)
    ensures r.result ==> p.result
    ensures r.last.kind == p.last.kind
    ensures |links| == 0 ==> r.last == p.last
    ensures |links| > 0 ==> r.last == links[|links| - 1].operand
    decreases |links|
  {
    if |links| == 0 then p
    else Resume(Extend(p, links[0].op, links[0].operand), links[1..])
  }

  /** The chain `first op1 x1 op2 x2 … opk xk`, k >= 1. */
  function Chain(first: Prim, links: seq<Link>): (r: Proxy)
    requires first.Valid() && |links| >= 1
    requires LinksOfKind(first.kind, links)
    requires forall i :: 0 <= i < |links| ==> links[i].operand.Valid()
    requires ParsesLeftToRight(links)
    ensures r.last == links[|links| - 1].operand
    ensures r.result ==> links[0].op.Holds(first.v, links[0].operand.v)
    ensures |links| == 1 ==> (r.result <==> links[0].op.Holds(first.v, links[0].operand.v))
  {
    Resume(Compare(first, links[0].op, links[0].operand), links[1..])
  }

  /** The left operand of link i: the first value, or the previous link's operand. */
  function LeftOf(first: Prim, links: seq<Link>, i: nat): Prim
    requires i < |links|
  {
    if i == 0 then first else links[i - 1].operand
  }

  /** The reference reading of a chain: every adjacent pair satisfies its operator. */
  predicate AllPairsHold(first: Prim, links: seq<Link>) {
    forall i :: 0 <= i < |links| ==> links[i].op.Holds(LeftOf(first, links, i).v, links[i].operand.v)
  }

  /** Peeling the first link off the reference reading. */
  lemma AllPairsHoldCons(first: Prim, links: seq<Link>)
    requires |links| > 0
    ensures AllPairsHold(first, links) <==>
              links[0].op.Holds(first.v, links[0].operand.v) && AllPairsHold(links[0].operand, links[1..])
  {
    var rest := links[1..];
    forall i | 0 <= i < |rest|
      ensures LeftOf(links[0].operand, rest, i) == LeftOf(first, links, i + 1)
    {
    }
    if links[0].op.Holds(first.v, links[0].operand.v) && AllPairsHold(links[0].operand, rest) {
      forall i | 0 <= i < |links|
        ensures links[i].op.Holds(LeftOf(first, links, i).v, links[i].operand.v)
      {
        if i > 0 {
          assert links[i] == rest[i - 1];
        }
      }
    }
  }

  /** Resuming a proxy keeps its result AND the reference reading of the new links. */
  lemma {:induction false} ResumeIsConjunction(p: Proxy, links: seq<Link>)
    requires LinksOfKind(p.last.kind, links)
    ensures Resume(p, links).result <==> p.result && AllPairsHold(p.last, links)
    decreases |links|
  {
    if |links| > 0 {
      var q := Extend(p, links[0].op, links[0].operand);
      ResumeIsConjunction(q, links[1..]);
      AllPairsHoldCons(p.last, links);
    }
  }

  /**
   A chain is true exactly when every adjacent pair satisfies its
   operator, and its proxy ends up holding the last operand.
   */
  lemma {:induction false} ChainIsConjunction(first: Prim, links: seq<Link>)
    requires first.Valid() && |links| >= 1
    requires LinksOfKind(first.kind, links)
    requires forall i :: 0 <= i < |links| ==> links[i].operand.Valid()
    requires ParsesLeftToRight(links)
    ensures Chain(first, links).result <==> AllPairsHold(first, links)
    ensures Chain(first, links).last == links[|links| - 1].operand
  {
    var start := Proxy(true, first);
    var p := Compare(first, links[0].op, links[0].operand);
    assert Resume(start, links) == Resume(p, links[1..]);
    ResumeIsConjunction(start, links);
  }

  /**
   Wrapped `1 < 2 < 3` is true and `1 < 5 < 3` is false, whereas the
   built-in chain compares the bool `1 < 5` (that is, 1) with 3 and is
   true; operators may be mixed, as in `1 < 5 > 3` and `2 <= 7 == 7 != 3`,
   but `1 == 1 < 2` does not group left to right.
   */
  lemma ChainExamples()
    ensures Chain(Prim(I32, 1), [Link(Lt, Prim(I32, 2)), Link(Lt, Prim(I32, 3))]).result
    ensures !Chain(Prim(I32, 1), [Link(Lt, Prim(I32, 5)), Link(Lt, Prim(I32, 3))]).result
    ensures Lt.Holds(if Lt.Holds(1, 5) then 1 else 0, 3)
    ensures Chain(Prim(U8, 1), [Link(Lt, Prim(U8, 5)), Link(Gt, Prim(U8, 3))]).result
    ensures Chain(Prim(I8, 2), [Link(Le, Prim(I8, 7)), Link(Eq, Prim(I8, 7)), Link(Ne, Prim(I8, 3))]).result
    ensures !ParsesLeftToRight([Link(Eq, Prim(I32, 1)), Link(Lt, Prim(I32, 2))])
  {
    var mixed := [Link(Eq, Prim(I32, 1)), Link(Lt, Prim(I32, 2))];
    assert mixed[0].op.IsEquality() && !mixed[1].op.IsEquality();
  }
}
