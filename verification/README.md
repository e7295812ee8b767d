# primitive — a Dafny model of the integer wrappers

`primitive::detail::primitive<T>` wraps one value of a fundamental numeric
type `T` as a distinct nominal type with the same operators. This project
models its eight integer instantiations `i8_t`, `ui8_t`, `i16_t`, `ui16_t`,
`i32_t`, `ui32_t`, `i64_t` and `ui64_t`, and proves what their operators
compute. It also models the chained-comparison `proxy`, which makes
`a < b < c` mean `a < b && b < c`.

Modules:

- `IntKinds` (`int_kinds.dfy`): the eight types, their ranges, and `Wrap`.
  `Wrap` is the integral conversion of a mathematical integer into a type:
  the unique in-range value congruent to it modulo 2^N.
- `BitPatterns` (`bit_patterns.dfy`): N-bit patterns as naturals. It gives a
  digit-by-digit reference definition of `&`, `|`, `^` and the complement.
- `Primitive` (`primitive.dfy`): the wrapper value `Prim`, construction, raw
  access, assignment, and `+ - * / %`.
- `BitOps` (`bit_ops.dfy`): `^ & | ~` on the wrappers.
- `Mutation` (`mutation.dfy`): prefix and postfix `++`/`--` and
  `+= -= *= /=`. Each is a pure step that yields the value returned (always a
  copy, since every one of them returns `auto`) and the value held afterwards.
- `Conversion` (`conversion.dfy`): `to<U>()` for integer `U`, the
  `std::hash` specialisations, and the literal suffixes `_i8` … `_ui64`.
- `Chaining` (`chaining.dfy`): the proxy and chains of comparisons.

Modelling decisions:

- Platform: `int` is 32 bits; `size_t` and `unsigned long long` are 64 bits;
  signed types are two's complement.
- Each operator computes the built-in `T op T` and passes the result to
  `self_t(...)` or stores it into `_v`. The built-in result is computed in
  the promoted type. Types narrower than `int` promote to `int`; the others
  compute in their own type.
- If the promoted type is signed and cannot hold the result, the C++
  behaviour is undefined. Each operator therefore has a `requires`
  (`Representable`) excluding that case. This covers `i32`/`i64` overflow
  of `+ - * ++ --`, and `Min / -1` and `Min % -1` for `i32`/`i64`.
- `ui16_t * ui16_t` with a product above `INT_MAX` is excluded as well. Both
  operands promote to `int`, so `65535 * 65535` overflows `int`, exactly as
  it does for a raw `uint16_t`. `U16ProductOverflowsInt` exhibits it.
  Every other unsigned `+`, `-` and `*` is defined and reduces modulo 2^N.
- Converting a promoted `i8`/`i16` result back (e.g. `127 + 1`, or
  `-128 / -1`) uses the C++20 rule: reduction modulo 2^N. The same rule
  applies to a literal too large for a signed type. Before C++20 this
  conversion is implementation-defined, and mainstream compilers already
  behave this way.
- Integer `/` truncates toward zero and `%` takes the sign of the dividend,
  as section [expr.mul] of ISO/IEC 14882 requires. A zero divisor is
  undefined behaviour and therefore a precondition.
- In C++ the relational operators bind tighter than `==` and `!=`. So a
  chain groups left to right, and compiles, only when no relational operator
  follows an equality operator (`ParsesLeftToRight`).
- The proxy combines links with `_result & (...)`. This evaluates both sides,
  but for `bool` operands without side effects its value equals `&&`, which
  the model uses.
- The model keeps `_last` as a copy, not a reference. The value is the same
  while the reference is valid.
- Mixing instantiations does not compile. The model expresses that as the
  precondition `SameType` (or equal `kind`s).
- The default constructor leaves `_v` uninitialised (see Left out).
- `std::hash` of a wrapper returns `to<size_t>()`, the raw value converted
  to `size_t`, not `std::hash<T>` of the raw value.

## Model

| member | source | states |
|---|---|---|
| IntKinds.Wrap | include/primitive.h:70-74 | The value `self_t(x)` stores is in the range of T. It is congruent to x modulo 2^N, equals x whenever x fits T, and for unsigned T equals x mod 2^N. |
| IntKinds.WrapUnique | include/primitive.h:70-74 | Any in-range value congruent to x is the converted value, so the conversion is the unique representative. |
| IntKinds.WrapEqualIff | include/primitive.h:70-74 | Two integers convert to the same T value exactly when they are congruent modulo 2^N. |
| Primitive.Make | include/primitive.h:49-50 | Constructing from a raw T stores it unchanged: reading back gives exactly that value, and the wrapper is valid. |
| Primitive.Raw | include/primitive.h:89-90 | `raw()` (and the explicit `operator T`, lines 55-56) yields a value in the range of T, and the wrapper is exactly its type plus that value. |
| Primitive.Assign | include/primitive.h:59 | `operator=(T)` replaces the stored value with n and keeps the type. |
| Primitive.MakeRaw | include/primitive.h:55-56 | Reading the value out (`raw()`/`operator T`) and wrapping it again gives back the same wrapper. |
| Primitive.AssignAssign | include/primitive.h:59 | Assigning twice leaves only the second value. |
| Primitive.Narrow | include/primitive.h:70-74 | `self_t(result)` is a valid wrapper congruent to the result, and it is exact when the result fits. |
| Primitive.TruncDiv | include/primitive.h:73 | The built-in quotient truncates toward zero: its magnitude is the floor of abs(a)/abs(b), and its sign is the product of the operands' signs. |
| Primitive.TruncRem | include/primitive.h:74 | The built-in remainder is smaller than the divisor in magnitude and is zero or has the sign of the dividend. |
| Primitive.Add | include/primitive.h:70 | `a + b` is congruent to the true sum and exact when the sum fits. Unsigned sums reduce mod 2^N. i32/i64 overflow is excluded as undefined. |
| Primitive.Sub | include/primitive.h:71 | `a - b` is congruent to the true difference and exact when it fits. Unsigned differences reduce mod 2^N (ui8 3 - 5 = 254). |
| Primitive.Mul | include/primitive.h:72 | `a * b` is congruent to the true product and exact when it fits. Unsigned products reduce mod 2^N. Overflow of the promoted signed type is excluded. |
| Primitive.Div | include/primitive.h:73 | `a / b` needs a non-zero divisor. It truncates toward zero: abs(q)*abs(b) <= abs(a) < (abs(q)+1)*abs(b), with the sign rule. For i8/i16, `Min / -1` wraps to Min; for i32/i64 it is excluded. |
| Primitive.DivInRange | include/primitive.h:73 | The only quotient of two T values that T cannot hold is `Min / -1`, whose true value is -Min. |
| Primitive.Rem | include/primitive.h:74 | `a % b` needs a non-zero divisor. Its magnitude is below abs(b), and it is zero or has the sign of a. |
| Primitive.DivRemIdentity | include/primitive.h:73-74 | `(a/b)*b + a%b == a` exactly, except for the wrapped `Min / -1`, where it holds modulo 2^N. |
| Primitive.AddSub | include/primitive.h:70-71 | `(a + b) - b == a` whenever both operations are defined, including across unsigned wrap-around. |
| Primitive.SubAdd | include/primitive.h:70-71 | `(a - b) + b == a` whenever both operations are defined. |
| Primitive.UnsignedAlwaysDefined | include/primitive.h:70-72 | For unsigned T, `+`, `-` and `*` are always defined. The one exception is ui16 `*`, which is defined exactly when the product fits `int`. |
| Primitive.U16ProductOverflowsInt | include/primitive.h:72 | `ui16_t(65535) * ui16_t(65535)` overflows the promoted `int`. |
| Primitive.UnsignedExamples | include/primitive.h:70-72 | Examples: ui8 3 - 5 = 254, 255 + 1 = 0 and 16 * 16 = 0; ui64 0 - 1 = 2^64 - 1. |
| Primitive.DivExamples | include/primitive.h:73-74 | Examples: -7/2 = -3, -7%2 = -1, 7/-2 = -3, 7%-2 = 1, i8 -128/-1 = -128; i32 `Min / -1` is undefined. |
| BitPatterns.Apply | include/primitive.h:80-82 | A bitwise operation on n-bit patterns yields an n-bit pattern. |
| BitPatterns.ApplyBits | include/primitive.h:80-82 | Digit i of `a op b` is op applied to digit i of a and digit i of b. |
| BitPatterns.ComplementBits | include/primitive.h:83 | The n-bit complement flips every one of the low n digits. |
| BitOps.Bitwise | include/primitive.h:80-82 | Each of the N bits of `a ^ b`, `a & b` and bitwise-or `a OR b` is the XOR, AND or OR of the operands' bits at that position. |
| BitOps.Not | include/primitive.h:83 | Each of the N bits of `~a` is the negation of the corresponding bit of a. |
| BitOps.BitwiseDetermined | include/primitive.h:80-82 | Any valid T value whose N bits are op of the operands' bits is `a op b`, so the per-bit contract of `Bitwise` fixes its result. |
| BitOps.NotDetermined | include/primitive.h:83 | Any valid T value whose N bits are the negation of a's bits is `~a`. |
| BitOps.PatternRoundTrip | include/primitive.h:80-83 | A value is recovered from its N-bit two's-complement pattern. |
| BitOps.XorTwice | include/primitive.h:80 | `(a ^ b) ^ b == a`. |
| BitOps.AndOrSelf | include/primitive.h:81-82 | `a & a == a`, and bitwise-or of a with itself is a. |
| BitOps.BitwiseCommutes | include/primitive.h:80-82 | `^`, `&` and bitwise-or are commutative. |
| BitOps.NotNot | include/primitive.h:83 | `~~a == a`. |
| BitOps.BitExamples | include/primitive.h:83 | Examples: ui8 `~0` = 255, i8 `~0` = -1, i32 `~5` = -6. |
| Mutation.Incremented | include/primitive.h:66-67 | `_v++` adds one; at the type's maximum it wraps to the minimum (ui8 255 becomes 0, i8 127 becomes -128). |
| Mutation.Decremented | include/primitive.h:68-69 | `_v--` subtracts one; at the type's minimum it wraps to the maximum. |
| Mutation.PreIncrement | include/primitive.h:66 | Prefix `++` leaves a valid value: old+1, or Min when old was Max (so congruent to old+1). It returns a copy of that new value. |
| Mutation.PostIncrement | include/primitive.h:67 | Postfix `++` returns the old value and leaves old+1, or Min when old was Max. |
| Mutation.PreDecrement | include/primitive.h:68 | Prefix `--` leaves a valid value: old-1, or Max when old was Min. It returns a copy of that new value. |
| Mutation.PostDecrement | include/primitive.h:69 | Postfix `--` returns the old value and leaves old-1, or Max when old was Min. |
| Mutation.PrefixPostfixAgree | include/primitive.h:66-69 | Both forms of `++` leave the same final state. The prefix form returns that state and the postfix form the prior value. Likewise for `--`. |
| Mutation.IncrementDecrement | include/primitive.h:66-69 | `--` undoes `++`, including across wrap-around. |
| Mutation.DecrementIncrement | include/primitive.h:66-69 | `++` undoes `--`, including across wrap-around. |
| Mutation.IncrementExamples | include/primitive.h:66-69 | Examples: from 5, `++x` returns 6 and `x++` returns 5, and both leave 6. ui8 255 steps to 0, ui16 0 steps down to 65535, and i8 127 steps to -128. |
| Mutation.CompoundAssign | include/primitive.h:75-78 | `x op= y` for `+ - * /` leaves x holding exactly the binary operator's result and returns a copy of it. |
| Mutation.AddAssignSubAssign | include/primitive.h:75-76 | `x += y; x -= y` restores x. |
| Conversion.To | include/primitive.h:87 | `to<U>()` yields the U value congruent to `_v`, and `_v` itself when it fits U. |
| Conversion.UnsignedRoundTrip | include/primitive.h:87 | Converting to the unsigned type of the same width and back restores the value. |
| Conversion.Hash | include/primitive.h:185-192 | The hash is at most `SIZE_MAX` (2^64 - 1). A non-negative value hashes to itself and a negative one to value + 2^64. |
| Conversion.HashInjective | include/primitive.h:185-192 | Within one instantiation, two values have equal hashes exactly when they are equal. |
| Conversion.Literal | include/primitive.h:138-145 | A literal n with a suffix stores n modulo 2^N, and stores n itself when it fits. |
| Conversion.LiteralHash | include/primitive.h:138-145 | An unsigned literal hashes to n mod 2^N. |
| Conversion.LiteralExamples | include/primitive.h:138-145 | Examples: `300_ui8` = 44, `200_i8` = -56, `18446744073709551615_i64` = -1, and `hash(i8_t(-1))` = 2^64 - 1. |
| Chaining.Compare | include/primitive.h:60-65 | A wrapper comparison starts a proxy whose `_last` is the right operand. It equals one proxy link applied to a true start. |
| Chaining.Chain | include/primitive.h:60-65 | For a chain that compiles (same type throughout, no relational operator after an equality operator), the chain `x0 op1 x1 … opk xk` ends with `_last` at xk; it is false unless the first comparison holds, and with one link it is exactly that comparison. |
| Chaining.Extend | include/primitive.h:25-30 | A further link moves `_last` to the new operand. A false proxy stays false. A true one takes the comparison of `_last` (never the bool) with the new operand. |
| Chaining.Resume | include/primitive.h:20-30 | Folding links onto a proxy never turns false into true, and leaves `_last` at the final operand. |
| Chaining.ResumeIsConjunction | include/primitive.h:25-30 | Folding links gives the proxy's result AND every adjacent pairwise comparison. |
| Chaining.ChainIsConjunction | include/primitive.h:24-30 | For every chain C++ groups left to right (no `<`, `>`, `<=`, `>=` after `==` or `!=`), the bool of `x0 op1 x1 … opk xk` is true exactly when every `x(i-1) op_i x(i)` holds, and the proxy ends at xk. |
| Chaining.ChainExamples | include/primitive.h:60-65 | Examples: `1 < 2 < 3` is true and `1 < 5 < 3` is false, while the built-in re-association of the latter is true. Mixed `1 < 5 > 3` and `2 <= 7 == 7 != 3` are true. `1 == 1 < 2` does not group left to right. |

## Left out

- `float_t`/`double_t`, their literals `_f`/`_d` and their hashes: floating-point arithmetic and float-to-`size_t` truncation are not modelled.
- Stream insertion and extraction, `to_s` and `to_ws`: these are I/O and library formatting.
- `cast<U>()`: a `reinterpret_cast` with no value-level meaning.
- The `volatile`-qualified overloads: they have the same value semantics as the plain ones, and a sequential model cannot express volatility.
- The `static_assert` checks on size and fundamental type: these are compile-time constraints.
- `%=`, `^=`, `&=` and `|=`: they are declared `const` yet assign to `_v`, so any instantiation of them fails to compile. No behaviour is modelled for them.
- The default constructor: it leaves `_v` uninitialised, and an indeterminate value has no model.
- `to<U>()` for non-integer `U`: only the eight integer targets are modelled.
- The proxy's reference member and its lifetime hazard: `_last` is modelled as a copy.
- Writes through the `T&` returned by non-const `raw()` (`x.raw() = n`, `x.raw()++`): the reference is not modelled. The effect on `_v` of storing n is `Assign` of n converted to T.
- Chains such as `x0 == x1 < x2`, where a relational operator follows an equality operator: C++ groups them as `x0 == (x1 < x2)`, which does not compile, so `Chain` and `ChainIsConjunction` require `ParsesLeftToRight`.
