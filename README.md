# bit7z integer-safety helpers, in Dafny

bit7z is a C++ wrapper around the 7-zip shared library. Its internal utility
header `src/internal/util.hpp` holds the only self-contained logic of the files
modelled here:

- `check_overflow(position, offset)` tells a stream adapter whether moving a signed
  64-bit position by a signed 64-bit offset would leave the range of `int64_t`. It
  decides this without computing the sum.
- `cmp_less`, `cmp_greater` and `cmp_greater_equal` compare two integers of
  possibly different signedness by their mathematical value. They backport the
  integer comparison functions of subclause [utility.intcmp] of ISO/IEC 14882:2020
  (C++20). `cmp_less` has two implementations. One uses `if constexpr`. The other
  is a C++14 overload set selected by SFINAE (substitution failure on
  `std::enable_if_t`). The header compiles one or the other depending on
  `__cpp_if_constexpr`.

The model has two modules.

- `CppInt` (`cpp_int.dfy`) models the C++ integer types that matter here. A type is
  a conversion rank plus a signedness. The width of `long` depends on the data
  model: LP64 on Linux and macOS, LLP64 on Windows. The module also models what a
  built-in `<` or `>=` does to its operands: integral promotion, the usual
  arithmetic conversions, and integral conversion by reduction modulo 2^N. This is
  the behaviour the helpers work around. The lemma `BuiltinLessIsNotExact` shows
  that `-1 < 1u` is false.
- `Util` (`util.dfy`) models the helpers themselves. There is one function per
  helper and one per `cmp_less` implementation. The SFINAE overloads are modelled
  as three bodies, each with its `enable_if` condition, plus an overload
  resolution step. A `Dialect` value stands for whether `__cpp_if_constexpr` is
  defined.

`check_overflow` works on `Int64`, a subset type of `int`. The C++ subtraction is
`Sub`, whose precondition is that the difference is representable, because signed
overflow is undefined behaviour. Dafny discharges that precondition at each
guarded subtraction inside `CheckOverflow`. So the model checks that evaluating
`check_overflow` never overflows.

## Model

| member | source | states |
|---|---|---|
| `Util.CheckOverflow` | src/internal/util.hpp:86-89 | true exactly when the mathematical `position + offset` is above INT64_MAX or below INT64_MIN; each bound subtraction is evaluated only under its sign guard, and there it is in range |
| `Util.GuardedBoundsInRange` | src/internal/util.hpp:87-88 | `INT64_MAX - offset` is representable iff `offset >= 0`, and `INT64_MIN - offset` iff `offset <= 0`: the guards are sufficient, and each subtraction would overflow without its guard |
| `Util.CheckOverflowZero` | src/internal/util.hpp:86-89 | a zero offset never reports overflow |
| `Util.NoOverflowMeansSafeAdd` | src/internal/util.hpp:86-89 | when `check_overflow` is false, `position + offset` is an `int64_t`, so a caller may add them |
| `Util.Int64Limits` | src/internal/util.hpp:87-88 | the two constants are `numeric_limits<int64_t>::min()` and `::max()`: the limits of every signed 64-bit type, whichever one `int64_t` names (`long` on LP64 Linux, `long long` on macOS and on LLP64) |
| `Util.Int64ComparisonsExact` | src/internal/util.hpp:87-88 | comparisons between two `int64_t` values, or between an `int64_t` and the literal `0`, are the mathematical comparisons, so `CheckOverflow` may compare plain integers |
| `Util.CastsPreserveValue` | src/internal/util.hpp:100-103 | `UT(first)` and `UU(second)` are evaluated only after their guard found the operand non-negative, and then they keep its value; the overloads at lines 118 and 124 make the same casts after the same guards |
| `Util.CmpLessIfConstexprIsExact` | src/internal/util.hpp:94-105 | the `if constexpr` `cmp_less` equals the mathematical `first < second` for every pair of standard integer types of any signedness and width |
| `Util.Resolve` | src/internal/util.hpp:109-125 | for every pair of operand types exactly one of the three SFINAE overloads is viable: the call is never ambiguous and never without a candidate |
| `Util.CmpLessVariantsAgree` | src/internal/util.hpp:94-125 | the SFINAE overload set returns the same result as the `if constexpr` version for every pair of operands |
| `Util.CmpLessSfinaeIsExact` | src/internal/util.hpp:109-125 | the SFINAE `cmp_less` equals the mathematical `t < u` |
| `Util.CmpLessIsExact` | src/internal/util.hpp:91-127 | `cmp_less` is the mathematical `<` whichever implementation the header compiles |
| `Util.NegativeBeforeUnsigned` | src/internal/util.hpp:98-104 | a negative signed value is less than every unsigned value; an unsigned value is never less than it; `cmp_greater` and `cmp_greater_equal` agree |
| `Util.CmpGreaterIsExact` | src/internal/util.hpp:129-132 | `cmp_greater(a, b)` is the mathematical `a > b` |
| `Util.CmpGreaterEqualIsExact` | src/internal/util.hpp:134-137 | `cmp_greater_equal(a, b)` is the mathematical `a >= b` |
| `Util.Trichotomy` | src/internal/util.hpp:129-137 | for any two operands exactly one of `cmp_less(a, b)`, `cmp_greater(a, b)` and equality holds |
| `CppInt.Convert` | src/internal/util.hpp:101-103 | the casts `UT(first)` and `UU(second)`: the result lies in the target type, is congruent to the operand modulo 2^N, and equals it when the operand fits |
| `CppInt.MakeUnsignedValue` | src/internal/util.hpp:96-97 | converting to `std::make_unsigned_t<T>` keeps a non-negative value and adds 2^N to a negative one |
| `CppInt.Promote` | src/internal/util.hpp:99 | integral promotion of an operand of a built-in comparison keeps every value of its type and yields a type of rank `int` or above |
| `CppInt.BuiltinComparisonIsExact` | src/internal/util.hpp:98-99 | a built-in `<` or `>=` compares by mathematical value when the operand types have the same signedness or neither operand is negative |
| `CppInt.BuiltinLessIsNotExact` | src/internal/util.hpp:91 | on operands of different signedness the built-in `<` is not the mathematical comparison (`-1 < 1u` is false), which is why the helpers exist |

## Left out

- `path_to_tstring`, `tstring_to_path`, `path_to_wide_string` and the `WIDEN` and `PATH_FROM_TSTRING` macros (src/internal/util.hpp:27-84): they are platform and preprocessor dependent, and they delegate to `fs::path`, `narrow`, `widen` and `fsutil::format_long_path`, which are not part of this model.
- `bool_constant`, `is_com_type` and `make_com` (src/internal/util.hpp:139-148): compile-time traits and COM-style heap allocation behind reference-counted smart pointers, which is foreign ABI plumbing.
- tests/src/test_bitarchivereader.cpp: an integration suite whose every assertion depends on the native 7-zip library, sample archives on disk and the current directory.
- Codecs, archive format parsing and CRC checking live in the native 7-zip engine, which is not part of this model.
- Integer types other than the standard signed and unsigned integer types are not modelled, by choice: plain `char`, `wchar_t`, `char8_t`, `char16_t`, `char32_t` and extended integer types. The backport in util.hpp has no check against them, and the character types behave as their underlying integer types.
- `Util.CmpLessVariantsAgree`: covers operands of the standard integer types only. With `bool` or floating-point operands the two variants do not even agree on whether a call compiles: the overload set applies `make_unsigned_t` only to the signed operand of a mixed call (util.hpp:118, 124), so `cmp_less(bool, int)` and `cmp_less(double, int)` compile with it, while the `if constexpr` variant forms `make_unsigned_t` of both operand types (util.hpp:96-97) and rejects them.
- Only the LP64 and LLP64 data models are modelled, with 8-bit `char`, 16-bit `short` and 32-bit `int`. Which signed 64-bit type `int64_t` names is not modelled; the lemmas about it hold for either.
