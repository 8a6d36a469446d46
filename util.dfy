/** The integer-safety helpers of bit7z's internal utility header: the overflow test
    for adding a signed 64-bit offset to a stream position, and the comparisons of
    integers of possibly different signedness, a backport of std::cmp_less,
    std::cmp_greater and std::cmp_greater_equal (subclause [utility.intcmp] of
    ISO/IEC 14882:2020). */
module Util {
  import opened CppInt

  // ---------------------------------------------------------------------------
  // check_overflow
  // ---------------------------------------------------------------------------

  /** `std::numeric_limits<int64_t>::max()` and `::min()`. */
  const Int64Max: int := 0x7FFF_FFFF_FFFF_FFFF
  const Int64Min: int := -0x8000_0000_0000_0000

  predicate IsInt64(x: int) {
    Int64Min <= x <= Int64Max
  }

  /** A value of type `int64_t`: the range of IsInt64, written out because a subset
      type's constraint is only unfolded for its parameters when it is inline. */
  type Int64 = x: int | Int64Min <= x <= Int64Max

  /** The signed 64-bit types of a data model: `long long`, and `long` on LP64.
      `int64_t` names one of them (`long` on LP64 Linux, `long long` on macOS and
      on LLP64). */
  predicate IsInt64Type(dm: DataModel, t: IntType) {
    t.signed && Modulus(dm, t.rank) == 0x1_0000_0000_0000_0000
  }

  /** The built-in `a - b` on `int64_t`. Signed overflow is undefined behaviour in
      C++, so this may only be applied where the difference is representable: every
      use below is checked against that. */
  function Sub(a: Int64, b: Int64): Int64
    requires IsInt64(a - b)
  {
    a - b
  }

  /** `check_overflow(position, offset)`: whether `position + offset` falls outside
      the range of `int64_t`, decided without computing the sum. Each bound
      subtraction sits behind the sign test of `offset`, so evaluating it never
      overflows (the calls to Sub carry that obligation). */
  function CheckOverflow(position: Int64, offset: Int64): (r: bool)
    ensures r <==> !IsInt64(position + offset)
  {
    (offset > 0 && position > Sub(Int64Max, offset)) ||
    (offset < 0 && position < Sub(Int64Min, offset))
  }

  /** The two limits are those of every signed 64-bit type, whichever one `int64_t`
      names. */
  lemma Int64Limits(dm: DataModel, t: IntType)
    requires IsInt64Type(dm, t)
    ensures MinOf(dm, t) == Int64Min && MaxOf(dm, t) == Int64Max
  {
  }

  /** The comparisons in check_overflow are between two `int64_t` values, or between
      an `int64_t` and the `int` literal `0`; either way the built-in operator is the
      mathematical comparison, which is why CheckOverflow compares plain integers. */
  lemma Int64ComparisonsExact(dm: DataModel, x: Value, y: Value)
    requires IsInt64Type(dm, x.ty) && Valid(dm, x) && Valid(dm, y)
    requires y.ty == x.ty || y == Zero
    ensures Less(dm, x, y) == (x.v < y.v) && Less(dm, y, x) == (y.v < x.v)
  {
    BuiltinComparisonIsExact(dm, x, y);
    BuiltinComparisonIsExact(dm, y, x);
  }

  /** Each guard of check_overflow is exactly what its subtraction needs:
      `INT64_MAX - offset` is representable iff `offset >= 0`, and `INT64_MIN - offset`
      iff `offset <= 0`. So the guards `offset > 0` and `offset < 0` are sufficient,
      and without them one of the two subtractions would overflow for every
      non-zero offset. */
  lemma GuardedBoundsInRange(offset: Int64)
    ensures IsInt64(Int64Max - offset) <==> offset >= 0
    ensures IsInt64(Int64Min - offset) <==> offset <= 0
  {
  }

  /** A zero offset never overflows. */
  lemma CheckOverflowZero(position: Int64)
    ensures !CheckOverflow(position, 0)
  {
  }

  /** What a caller relies on: after a negative answer, `position + offset` is an
      `int64_t` and may be computed. */
  lemma NoOverflowMeansSafeAdd(position: Int64, offset: Int64)
    requires !CheckOverflow(position, offset)
    ensures IsInt64(position + offset)
  {
  }

  // ---------------------------------------------------------------------------
  // cmp_less, the `if constexpr` implementation
  // ---------------------------------------------------------------------------

  /** `cmp_less(first, second)` when the compiler has `if constexpr`: the
      signedness of the two types selects the branch; `UT` and `UU` are
      `std::make_unsigned_t` of the two types, and `0` is an `int` literal. */
  function CmpLessIfConstexpr(dm: DataModel, first: Value, second: Value): bool {
    if first.ty.signed == second.ty.signed then
      Less(dm, first, second)
    else if first.ty.signed then
      Less(dm, first, Zero) || Less(dm, Convert(dm, first, MakeUnsigned(first.ty)), second)
    else
      GreaterEqual(dm, second, Zero) && Less(dm, first, Convert(dm, second, MakeUnsigned(second.ty)))
  }

  /** Each cast in cmp_less is evaluated only after the guard before it has found
      its operand non-negative, and then it keeps the operand's value; each built-in
      comparison it makes is then one of operands of the same signedness or of
      non-negative operands. */
  lemma CastsPreserveValue(dm: DataModel, first: Value, second: Value)
    requires Valid(dm, first) && Valid(dm, second)
    ensures first.ty.signed && !Less(dm, first, Zero) ==>
      Convert(dm, first, MakeUnsigned(first.ty)).v == first.v
    ensures second.ty.signed && GreaterEqual(dm, second, Zero) ==>
      Convert(dm, second, MakeUnsigned(second.ty)).v == second.v
  {
    BuiltinComparisonIsExact(dm, first, Zero);
    BuiltinComparisonIsExact(dm, second, Zero);
    MakeUnsignedValue(dm, first);
    MakeUnsignedValue(dm, second);
  }

  /** The `if constexpr` cmp_less is the mathematical `first < second`, whatever the
      signedness and width of the two types. */
  lemma CmpLessIfConstexprIsExact(dm: DataModel, first: Value, second: Value)
    requires Valid(dm, first) && Valid(dm, second)
    ensures CmpLessIfConstexpr(dm, first, second) == (first.v < second.v)
  {
    CastsPreserveValue(dm, first, second);
    if first.ty.signed == second.ty.signed {
      BuiltinComparisonIsExact(dm, first, second);
    } else if first.ty.signed {
      BuiltinComparisonIsExact(dm, first, Zero);
      if first.v >= 0 {
        BuiltinComparisonIsExact(dm, Convert(dm, first, MakeUnsigned(first.ty)), second);
      }
    } else {
      BuiltinComparisonIsExact(dm, second, Zero);
      if second.v >= 0 {
        BuiltinComparisonIsExact(dm, first, Convert(dm, second, MakeUnsigned(second.ty)));
      }
    }
  }

  // ---------------------------------------------------------------------------
  // cmp_less, the C++14 SFINAE overload set
  // ---------------------------------------------------------------------------

  /** The three overloads of cmp_less, in the order they are declared. */
  datatype Overload = SameSignedness | SignedUnsigned | UnsignedSigned

  /** The `std::enable_if_t` condition in the return type of each overload: when it
      is false, substitution fails and the overload drops out. */
  predicate Enabled(o: Overload, t: IntType, u: IntType) {
    match o
    case SameSignedness => t.signed == u.signed
    case SignedUnsigned => t.signed && !u.signed
    case UnsignedSigned => !t.signed && u.signed
  }

  /** The overloads left viable for a call with operand types `t` and `u`. */
  function Viable(t: IntType, u: IntType): set<Overload> {
    (if Enabled(SameSignedness, t, u) then {SameSignedness} else {}) +
    (if Enabled(SignedUnsigned, t, u) then {SignedUnsigned} else {}) +
    (if Enabled(UnsignedSigned, t, u) then {UnsignedSigned} else {})
  }

  /** Overload resolution: for every pair of operand types exactly one overload is
      viable, so a call is never ambiguous and never without a candidate. */
  function Resolve(t: IntType, u: IntType): (o: Overload)
    ensures Viable(t, u) == {o}
  {
    if t.signed == u.signed then SameSignedness
    else if t.signed then SignedUnsigned
    else UnsignedSigned
  }

  /** The body of overload `o`, which only a call it is enabled for can reach. */
  function Invoke(dm: DataModel, o: Overload, t: Value, u: Value): bool
    requires Enabled(o, t.ty, u.ty)
  {
    match o
    case SameSignedness => Less(dm, t, u)
    case SignedUnsigned => Less(dm, t, Zero) || Less(dm, Convert(dm, t, MakeUnsigned(t.ty)), u)
    case UnsignedSigned => GreaterEqual(dm, u, Zero) && Less(dm, t, Convert(dm, u, MakeUnsigned(u.ty)))
  }

  /** `cmp_less(t, u)` when the compiler has no `if constexpr`. */
  function CmpLessSfinae(dm: DataModel, t: Value, u: Value): bool {
    Invoke(dm, Resolve(t.ty, u.ty), t, u)
  }

  /** The two implementations agree on every pair of operands. */
  lemma CmpLessVariantsAgree(dm: DataModel, t: Value, u: Value)
    ensures CmpLessSfinae(dm, t, u) == CmpLessIfConstexpr(dm, t, u)
  {
  }

  /** The SFINAE cmp_less is the mathematical `t < u`. */
  lemma CmpLessSfinaeIsExact(dm: DataModel, t: Value, u: Value)
    requires Valid(dm, t) && Valid(dm, u)
    ensures CmpLessSfinae(dm, t, u) == (t.v < u.v)
  {
    CmpLessVariantsAgree(dm, t, u);
    CmpLessIfConstexprIsExact(dm, t, u);
  }

  // ---------------------------------------------------------------------------
  // The public comparisons
  // ---------------------------------------------------------------------------

  /** Which implementation of cmp_less the header compiles: the `if constexpr` one
      when `__cpp_if_constexpr` is defined, the overload set otherwise. */
  datatype Dialect = WithIfConstexpr | WithoutIfConstexpr

  /** `cmp_less(first, second)`. */
  function CmpLess(d: Dialect, dm: DataModel, first: Value, second: Value): bool {
    match d
    case WithIfConstexpr => CmpLessIfConstexpr(dm, first, second)
    case WithoutIfConstexpr => CmpLessSfinae(dm, first, second)
  }

  /** `cmp_greater(first, second)`: `cmp_less` with the operands swapped. */
  function CmpGreater(d: Dialect, dm: DataModel, first: Value, second: Value): bool {
    CmpLess(d, dm, second, first)
  }

  /** `cmp_greater_equal(first, second)`: the negation of `cmp_less`. */
  function CmpGreaterEqual(d: Dialect, dm: DataModel, first: Value, second: Value): bool {
    !CmpLess(d, dm, first, second)
  }

  /** cmp_less is the mathematical `<` under either implementation. */
  lemma CmpLessIsExact(d: Dialect, dm: DataModel, first: Value, second: Value)
    requires Valid(dm, first) && Valid(dm, second)
    ensures CmpLess(d, dm, first, second) == (first.v < second.v)
  {
    match d
    case WithIfConstexpr => CmpLessIfConstexprIsExact(dm, first, second);
    case WithoutIfConstexpr => CmpLessSfinaeIsExact(dm, first, second);
  }

  /** A negative signed value is less than every unsigned value, and no unsigned
      value is less than it, although the built-in `<` says otherwise. */
  lemma NegativeBeforeUnsigned(d: Dialect, dm: DataModel, s: Value, u: Value)
    requires Valid(dm, s) && Valid(dm, u)
    requires s.ty.signed && !u.ty.signed && s.v < 0
    ensures CmpLess(d, dm, s, u)
    ensures !CmpLess(d, dm, u, s)
    ensures CmpGreater(d, dm, u, s) && !CmpGreaterEqual(d, dm, s, u)
  {
    CmpLessIsExact(d, dm, s, u);
    CmpLessIsExact(d, dm, u, s);
  }

  /** cmp_greater is the mathematical `>`. */
  lemma CmpGreaterIsExact(d: Dialect, dm: DataModel, first: Value, second: Value)
    requires Valid(dm, first) && Valid(dm, second)
    ensures CmpGreater(d, dm, first, second) == (first.v > second.v)
  {
    CmpLessIsExact(d, dm, second, first);
  }

  /** cmp_greater_equal is the mathematical `>=`. */
  lemma CmpGreaterEqualIsExact(d: Dialect, dm: DataModel, first: Value, second: Value)
    requires Valid(dm, first) && Valid(dm, second)
    ensures CmpGreaterEqual(d, dm, first, second) == (first.v >= second.v)
  {
    CmpLessIsExact(d, dm, first, second);
  }

  /** Across types of any signedness, exactly one of `cmp_less(a, b)`,
      `cmp_greater(a, b)` and equal values holds. */
  lemma Trichotomy(d: Dialect, dm: DataModel, a: Value, b: Value)
    requires Valid(dm, a) && Valid(dm, b)
    ensures CmpLess(d, dm, a, b) || CmpGreater(d, dm, a, b) || a.v == b.v
    ensures !(CmpLess(d, dm, a, b) && CmpGreater(d, dm, a, b))
    ensures a.v == b.v ==> !CmpLess(d, dm, a, b) && !CmpGreater(d, dm, a, b)
  {
    CmpLessIsExact(d, dm, a, b);
    CmpGreaterIsExact(d, dm, a, b);
  }
}
