/** The standard integer types of C++ and what the built-in relational operators do
    with their operands: integral promotion, the usual arithmetic conversions and
    the integral conversions they apply ([conv.prom], [expr.arith.conv],
    [conv.integral] of ISO/IEC 14882:2020). The helpers of util.hpp exist because
    `a < b` on operands of different signedness converts a negative operand to a
    huge unsigned value; this module states that behaviour so that the helpers can
    be proved against it. */
module CppInt {

  /** The integer conversion ranks of the standard integer types, lowest first
      ([conv.rank]); a rank stands for its signed and its unsigned type. */
  datatype Rank = Char | Short | Int | Long | LongLong

  /** The data models the library is built for: `long` is 64 bits wide on LP64
      (Linux, macOS) and 32 bits wide on LLP64 (Windows). Which type `int64_t`
      names is a property of the platform, not of the data model. */
  datatype DataModel = LP64 | LLP64

  /** A standard integer type: `signed char` is IntType(Char, true), `unsigned long`
      is IntType(Long, false), and so on. */
  datatype IntType = IntType(rank: Rank, signed: bool)

  /** A prvalue of integer type: its type and its mathematical value. */
  datatype Value = Value(ty: IntType, v: int)

  /** The position of a rank in the order of [conv.rank]. */
  function Order(r: Rank): (n: nat) {
    match r
    case Char => 0
    case Short => 1
    case Int => 2
    case Long => 3
    case LongLong => 4
  }

  /** 2 to the power of the width in bits of the types of rank `r`. */
  function Modulus(dm: DataModel, r: Rank): (m: nat) {
    match r
    case Char => 0x100
    case Short => 0x1_0000
    case Int => 0x1_0000_0000
    case Long => if dm == LP64 then 0x1_0000_0000_0000_0000 else 0x1_0000_0000
    case LongLong => 0x1_0000_0000_0000_0000
  }

  /** `std::numeric_limits<T>::min()`: two's complement for the signed types. */
  function MinOf(dm: DataModel, t: IntType): (lo: int) {
    if t.signed then -(Modulus(dm, t.rank) / 2) else 0
  }

  /** `std::numeric_limits<T>::max()`. */
  function MaxOf(dm: DataModel, t: IntType): (hi: int) {
    if t.signed then Modulus(dm, t.rank) / 2 - 1 else Modulus(dm, t.rank) - 1
  }

  predicate InRange(dm: DataModel, t: IntType, v: int) {
    MinOf(dm, t) <= v <= MaxOf(dm, t)
  }

  /** The value is one its type can hold; the type system of C++ guarantees it. */
  predicate Valid(dm: DataModel, x: Value) {
    InRange(dm, x.ty, x.v)
  }

  /** Type `u` can represent every value of type `t`. */
  predicate Represents(dm: DataModel, t: IntType, u: IntType) {
    MinOf(dm, u) <= MinOf(dm, t) && MaxOf(dm, t) <= MaxOf(dm, u)
  }

  const IntT := IntType(Int, true)

  /** The literal `0`, of type `int`. */
  const Zero := Value(IntT, 0)

  /** `std::make_unsigned_t<T>`: the unsigned type of the same rank. */
  function MakeUnsigned(t: IntType): (u: IntType) {
    IntType(t.rank, false)
  }

  /** An integral conversion of `x` to type `t` ([conv.integral]): the value of `t`
      congruent to `x.v` modulo 2^N, N the width of `t` (for a signed target this is
      the rule of C++20; earlier standards leave it implementation-defined only
      when the value does not fit, which is never the case below). */
  function Convert(dm: DataModel, x: Value, t: IntType): (r: Value)
    ensures r.ty == t && Valid(dm, r)
    ensures r.v % Modulus(dm, t.rank) == x.v % Modulus(dm, t.rank)
    ensures InRange(dm, t, x.v) ==> r.v == x.v
  {
    var m := Modulus(dm, t.rank);
    var w := x.v % m;
    ModFacts(x.v, m);
    if t.signed && w >= m / 2 then Value(t, w - m) else Value(t, w)
  }

  /** Facts about Euclidean remainder that the integral conversions rest on. */
  lemma ModFacts(a: int, m: int)
    requires m > 0
    ensures (a % m) % m == a % m
    ensures (a % m - m) % m == a % m
    ensures 0 <= a < m ==> a % m == a
    ensures -m <= a < 0 ==> a % m == a + m
  {
  }

  /** Integral promotion ([conv.prom]): a type of rank below `int` becomes `int` when
      `int` can represent all its values, `unsigned int` otherwise; other types are
      left alone. */
  function Promote(dm: DataModel, t: IntType): (p: IntType)
    ensures Represents(dm, t, p)
    ensures Order(p.rank) >= Order(Int)
    ensures Order(t.rank) >= Order(Int) ==> p == t
  {
    if Order(t.rank) < Order(Int) then
      if Represents(dm, t, IntT) then IntT else IntType(Int, false)
    else t
  }

  /** The type both operands of a relational operator are converted to, by the usual
      arithmetic conversions ([expr.arith.conv]): the operand types are promoted,
      then balanced. */
  function CommonType(dm: DataModel, t: IntType, u: IntType): (c: IntType) {
    Balance(dm, Promote(dm, t), Promote(dm, u))
  }

  /** The usual arithmetic conversions on two promoted types: the same type stays;
      of two types of the same signedness the one of greater rank wins; otherwise
      the unsigned type wins if its rank is not lower, the signed type wins if it
      can represent every value of the unsigned one, and else both become the
      unsigned type of the signed one's rank. */
  function Balance(dm: DataModel, p: IntType, q: IntType): (c: IntType) {
    if p == q then p
    else if p.signed == q.signed then
      (if Order(p.rank) >= Order(q.rank) then p else q)
    else
      var (s, un) := if p.signed then (p, q) else (q, p);
      if Order(un.rank) >= Order(s.rank) then un
      else if Represents(dm, un, s) then s
      else MakeUnsigned(s)
  }

  /** The built-in `x < y` on integer operands. */
  function Less(dm: DataModel, x: Value, y: Value): (b: bool) {
    var c := CommonType(dm, x.ty, y.ty);
    Convert(dm, x, c).v < Convert(dm, y, c).v
  }

  /** The built-in `x >= y` on integer operands. */
  function GreaterEqual(dm: DataModel, x: Value, y: Value): (b: bool) {
    var c := CommonType(dm, x.ty, y.ty);
    Convert(dm, x, c).v >= Convert(dm, y, c).v
  }

  /** A wider rank never has a narrower type. */
  lemma ModulusMonotone(dm: DataModel, r: Rank, s: Rank)
    requires Order(r) <= Order(s)
    ensures Modulus(dm, r) <= Modulus(dm, s)
  {
  }

  /** Of two types of the same signedness, the one of higher rank represents every
      value of the other; an unsigned type of higher or equal rank has the larger
      maximum. */
  lemma RankOrder(dm: DataModel, t: IntType, u: IntType)
    requires Order(t.rank) <= Order(u.rank)
    ensures t.signed == u.signed ==> Represents(dm, t, u)
    ensures !u.signed ==> MaxOf(dm, t) <= MaxOf(dm, u)
  {
    ModulusMonotone(dm, t.rank, u.rank);
  }

  /** The balanced type holds every non-negative value of either promoted type,
      and, when the two have the same signedness, every value of both. */
  lemma BalanceRepresents(dm: DataModel, p: IntType, q: IntType)
    ensures var c := Balance(dm, p, q);
      && MaxOf(dm, p) <= MaxOf(dm, c) && MaxOf(dm, q) <= MaxOf(dm, c)
      && (p.signed == q.signed ==> Represents(dm, p, c) && Represents(dm, q, c))
  {
    if p.signed == q.signed {
      if Order(p.rank) >= Order(q.rank) {
        RankOrder(dm, q, p);
      } else {
        RankOrder(dm, p, q);
      }
    } else {
      var (s, un) := if p.signed then (p, q) else (q, p);
      if Order(un.rank) >= Order(s.rank) {
        RankOrder(dm, s, un);
      } else {
        RankOrder(dm, un, s);
        RankOrder(dm, s, MakeUnsigned(s));
        RankOrder(dm, un, MakeUnsigned(s));
      }
    }
  }

  /** The common type holds every non-negative value of either operand type, and,
      when the operand types have the same signedness, every value of both. */
  lemma CommonTypeRepresents(dm: DataModel, t: IntType, u: IntType)
    ensures var c := CommonType(dm, t, u);
      && MaxOf(dm, t) <= MaxOf(dm, c) && MaxOf(dm, u) <= MaxOf(dm, c)
      && (t.signed == u.signed ==> Represents(dm, t, c) && Represents(dm, u, c))
  {
    var p, q := Promote(dm, t), Promote(dm, u);
    BalanceRepresents(dm, p, q);
    // Promotion may turn an unsigned operand into `int`, but only one whose values
    // are all non-negative, so the maxima decide for two unsigned operands.
    if t.signed && u.signed {
      assert p.signed && q.signed;
    }
  }

  /** The built-in relational operators compare by mathematical value when the
      operand types have the same signedness or neither operand is negative. */
  lemma BuiltinComparisonIsExact(dm: DataModel, x: Value, y: Value)
    requires Valid(dm, x) && Valid(dm, y)
    requires x.ty.signed == y.ty.signed || (x.v >= 0 && y.v >= 0)
    ensures Less(dm, x, y) == (x.v < y.v)
    ensures GreaterEqual(dm, x, y) == (x.v >= y.v)
  {
    CommonTypeRepresents(dm, x.ty, y.ty);
  }

  /** `std::make_unsigned_t<T>(x)` keeps a non-negative value and adds 2^N to a
      negative one. */
  lemma MakeUnsignedValue(dm: DataModel, x: Value)
    requires Valid(dm, x)
    ensures var r := Convert(dm, x, MakeUnsigned(x.ty));
      r.v == if x.v >= 0 then x.v else x.v + Modulus(dm, x.ty.rank)
  {
    ModFacts(x.v, Modulus(dm, x.ty.rank));
  }

  /** On operands of different signedness the built-in `<` is not the mathematical
      comparison: `-1 < 1u` is false. */
  lemma BuiltinLessIsNotExact(dm: DataModel)
    ensures exists x: Value, y: Value :: Valid(dm, x) && Valid(dm, y) && Less(dm, x, y) != (x.v < y.v)
  {
    var x, y := Value(IntT, -1), Value(IntType(Int, false), 1);
    assert Convert(dm, x, IntType(Int, false)).v == 0xFFFF_FFFF;
    assert Less(dm, x, y) != (x.v < y.v);
  }
}
