# BigInt in Dafny

A model of the `BigInt` struct of `bigint.hpp`: an arbitrary-precision signed
integer stored as little-endian base-2^32 limbs, a sign flag `minus` and an
invalid-result flag `nan`. The model covers the whole arithmetic core:

- normalisation, `zeroize` and the canonical NaN;
- the construction from native integers and from decimal strings;
- the magnitude kernels `abs_add`, `abs_sub`, `abs_mul` and `abs_div`;
- the signed `+`, `-`, `*`, `/` and `%`, with `/` and `%` rounding like Python;
- the six comparisons, which are all false when an operand is NaN;
- `to_string`.

Each value is an immutable `BigInt(digits, minus, nan)`. Its meaning is
`IntVal`, the integer the limbs spell, negated when `minus` is set. Each
operator is a pure function that follows the source's loops limb by limb: the
carry and borrow loops, the row buffer of the schoolbook product, and the
32-step binary search for each quotient limb. Its contract states what it
computes as integer arithmetic on `IntVal`. The algebraic laws
(`laws.dfy`) and the decimal round trip follow from those contracts.

The modules follow the structure of the struct:

| file | module | what |
|---|---|---|
| `arith.dfy` | `Arith` | powers, floor division and modulo like Python's, and small facts about products |
| `limbs.dfy` | `Limbs` | limb sequences and their value `Val` |
| `value.dfy` | `Value` | the `BigInt` datatype, normalisation, NaN, sign operations and native constructors |
| `compare.dfy` | `Compare` | `==`, `!=`, `>`, `>=`, `<` and `<=` |
| `addsub.dfy` | `AddSub` | `abs_add`, `abs_sub`, `+` and `-` |
| `multiply.dfy` | `Multiply` | `abs_mul` and `*` |
| `divide.dfy` | `Divide` | `abs_div`, `/` and `%` |
| `decimal.dfy` | `Decimal` | digit strings, read as numbers and written from them |
| `render.dfy` | `Render` | `to_string` |
| `parse.dfy` | `Parse` | the string constructor |
| `laws.dfy` | `Laws` | ring laws, NaN absorption, the division identity and the decimal round trip |

The string constructor follows its comment at `bigint.hpp:79`: a sign is
allowed as the first character, and a comma anywhere after it is ignored.
Every other character goes to `std::stoul` (`bigint.hpp:89`), which throws on
anything but a digit. So `"1_000"` is a parse error in the model
(`Parse.FromString`).

## Model

| member | source | states |
|---|---|---|
| Value.Zeroize | bigint.hpp:98-105 | zeroize() leaves the normalised value 0, not NaN |
| Value.NaN | bigint.hpp:352-358 | NaN() is the single normalised invalid value |
| Value.Normalize | bigint.hpp:107-122 | normalize() keeps NaN-ness and the integer value, leaves canonical limbs, turns a negative zero into zero and keeps the sign of a nonzero value |
| Value.NormalizeFixpoints | bigint.hpp:107-130 | normalize() changes exactly the non-normalised values, so normalized() is idempotent |
| Value.NormalizedSign | bigint.hpp:107-122 | after normalisation the minus flag is set exactly for negative integers |
| Value.NormalizedUnique | bigint.hpp:107-122 | two normalised values are equal exactly when they stand for the same integer |
| Limbs.Trim | bigint.hpp:116-120 | popping zero top limbs keeps a prefix of the limbs and their value, and ends at a nonzero top limb or at no limbs |
| Limbs.CanonicalUnique | bigint.hpp:116-121 | each number has exactly one canonical limb sequence |
| Value.Neg | bigint.hpp:177-184 | unary minus negates the integer, keeps the magnitude and keeps NaN; it flips only the sign flag and leaves the limbs untouched, so -BigInt(0) is a negative zero |
| Value.NegInvolution | bigint.hpp:132-137 | flipping the sign twice gives the value back |
| Value.Abs | bigint.hpp:139-151 | abs() is the magnitude with a clear sign, NaN kept |
| Value.SplitValue | bigint.hpp:26-45 | the low and high 32-bit halves of a 64-bit word, as two limbs, spell the word |
| Value.FromU32 | bigint.hpp:53-56 | BigInt(uint32_t) stands for its argument |
| Value.FromU64 | bigint.hpp:58-64 | BigInt(uint64_t) stands for its argument, normalised |
| Value.FromI32 | bigint.hpp:66-69 | BigInt(int32_t) stands for its argument, sign included |
| Value.FromI64 | bigint.hpp:71-77 | BigInt(int64_t) stands for its argument, sign included |
| Compare.GreaterFrom | bigint.hpp:226-231 | the top-down limb scan answers exactly whether the left limbs are the larger number |
| Compare.MagGreater | bigint.hpp:223-231 | on canonical limbs, more limbs means larger, and otherwise the scan decides; together this is the order of the values |
| Compare.SameSignGreater | bigint.hpp:221-231 | swapping two negative operands before comparing magnitudes gives the integer order |
| Compare.Eq | bigint.hpp:186-201 | == is false on NaN and otherwise is equality of the integers, a negative zero equal to zero |
| Compare.EqIsIdentity | bigint.hpp:186-201 | on normalised values == is structural equality |
| Compare.Ne | bigint.hpp:203-209 | != is false on NaN and otherwise is inequality of the integers |
| Compare.Gt | bigint.hpp:211-232 | > with the sign test reading the normalised operand is false on NaN and otherwise is the integer order |
| Compare.GtAsWritten | bigint.hpp:211-232 | > as written is the integer order whenever the left operand is not a negative zero, and is false when it is one |
| Compare.GtAsWrittenAgrees | bigint.hpp:219 | the written and corrected > differ only when the left operand is a negative zero |
| Compare.GtAsWrittenNegZero | bigint.hpp:219 | -BigInt(0) > BigInt(-3) is false as written though 0 > -3 |
| Compare.GeAsWritten | bigint.hpp:234-240 | >= as written is the integer order when the left operand is not a negative zero; a negative zero on the left is >= only a zero |
| Compare.LtAsWritten | bigint.hpp:242-248 | < as written is the integer order when the left operand is not a negative zero; a negative zero on the left is < every nonzero value |
| Compare.LeAsWritten | bigint.hpp:250-256 | <= as written is the integer order when the left operand is not a negative zero; a negative zero on the left is <= everything |
| Compare.OrderAsWrittenAgrees | bigint.hpp:234-256 | the written and corrected >=, < and <= differ only when the left operand is a negative zero |
| Compare.OrderAsWrittenNegZero | bigint.hpp:234-256 | as written, -BigInt(0) < BigInt(-3) and -BigInt(0) <= BigInt(-3) hold and -BigInt(0) >= BigInt(-3) does not |
| Compare.Ge | bigint.hpp:234-240 | >= is false on NaN and otherwise is the integer order |
| Compare.Lt | bigint.hpp:242-248 | < is false on NaN and otherwise is the integer order, not the negation of >= |
| Compare.Le | bigint.hpp:250-256 | <= is false on NaN and otherwise is the integer order |
| Compare.NaNIncomparable | bigint.hpp:186-256 | NaN is neither equal nor unequal to anything, itself included, and no ordering holds for it |
| Laws.Trichotomy | bigint.hpp:186-256 | on non-NaN values exactly one of <, ==, > holds, <= and >= are their unions, and < is > swapped |
| AddSub.AddLimbs | bigint.hpp:372-385 | the carry loop's limbs spell the sum of the operands and carry; the result has max(len) limbs, or one more ending in limb 1 |
| AddSub.AddLimbsLength | bigint.hpp:370-385 | abs_add grows by one limb exactly when the sum reaches BASE^max(len) |
| AddSub.AbsAdd | bigint.hpp:360-389 | abs_add is NaN exactly on a NaN operand and otherwise is the sum of the magnitudes |
| AddSub.SubLimbs | bigint.hpp:405-422 | the borrow loop, with the test the code intends, has max(len) limbs that spell l - r - borrow, plus BASE^max(len) when a borrow is left |
| AddSub.SubLimbsExact | bigint.hpp:403-426 | with the larger magnitude first, no borrow is left and the limbs spell the difference, so the carry error is unreachable |
| AddSub.AbsSub | bigint.hpp:391-430 | abs_sub never fails, is NaN exactly on a NaN operand, and otherwise is the distance of the magnitudes |
| AddSub.SubLimbsAsWritten | bigint.hpp:405-422 | the loop as written, with the uint64_t test at line 411, keeps max(len) limbs |
| AddSub.AbsSubAsWritten | bigint.hpp:391-430 | abs_sub as written never throws, and gives a normalised result with the right NaN-ness |
| AddSub.AsWrittenNoFinalBorrow | bigint.hpp:405-426 | as written, a minuend at least the subtrahend plus the incoming borrow leaves no borrow after the last limb, so the throw at line 425 is unreachable |
| AddSub.SubLimbsAsWrittenDropsBorrow | bigint.hpp:411-419 | on limbs [0,0,1] minus [1] the written test drops the borrow at limb 1 |
| AddSub.AbsSubAsWrittenDropsBorrow | bigint.hpp:411-426 | the written abs_sub computes (2^64) - 1 as 2^65 - 1 |
| AddSub.Add | bigint.hpp:258-275 | + is NaN exactly on a NaN operand and otherwise is the integer sum, normalised |
| AddSub.Sub | bigint.hpp:284-288 | binary - is NaN exactly on a NaN operand and otherwise is the integer difference, normalised |
| Laws.AddCommutes | bigint.hpp:258-275 | a + b == b + a |
| Laws.AddAssociates | bigint.hpp:258-275 | (a + b) + c == a + (b + c) |
| Laws.SubSelf | bigint.hpp:284-288 | a - a is the normalised zero, also for a negative zero a |
| Multiply.MulStep | bigint.hpp:452-455 | the stored low word plus BASE times the carried high word is ld * rd + carry |
| Multiply.ScaleLimbs | bigint.hpp:450-458 | the limbs of one row spell L * rd + carry and number one more than L |
| Multiply.RowPass | bigint.hpp:450-456 | the inner loop writes the limbs of L * rd at positions i.. of the buffer, leaves the rest alone and returns the top limb as carry |
| Multiply.Row | bigint.hpp:444-458 | after row i, including the stale-limb clear at line 448 and the carry write at line 458, the buffer holds exactly L * R[i] shifted by i limbs and zeros elsewhere |
| Multiply.MulRows | bigint.hpp:444-460 | adding the rows for i = 0 .. |R| - 1 into the result gives L * R |
| Multiply.RowAccumulates | bigint.hpp:459 | adding row i to L * R[..i] gives L * R[..i + 1] |
| Multiply.AbsMul | bigint.hpp:432-464 | abs_mul is NaN exactly on a NaN operand and otherwise is the product of the magnitudes |
| Multiply.Mul | bigint.hpp:297-304 | * is NaN exactly on a NaN operand and otherwise is the integer product, normalised |
| Multiply.SignedProduct | bigint.hpp:300-301 | signing the magnitude product by minus != rhs.minus gives the integer product |
| Laws.MulCommutes | bigint.hpp:297-304 | a * b == b * a |
| Laws.MulAssociates | bigint.hpp:297-304 | (a * b) * c == a * (b * c) |
| Laws.MulDistributes | bigint.hpp:258-304 | a * (b + c) == a * b + a * c |
| Divide.Accepts | bigint.hpp:509-515 | the acceptance test holds exactly when the candidate is the floor of tmp / R |
| Divide.Narrow | bigint.hpp:516-517 | a rejected candidate moved by half the range, with uint32_t wrap-around, keeps the answer inside the halved bracket |
| Divide.SearchDigit | bigint.hpp:504-518 | the 32-step binary search always accepts, and what it accepts is the floor of tmp / R |
| Divide.QuotientDigit | bigint.hpp:495-519 | with the == and < shortcuts, every quotient limb is the floor of tmp / R |
| Divide.StartRemainder | bigint.hpp:487-491 | the top |R| - 1 limbs the remainder starts from are below R |
| Divide.BringDown | bigint.hpp:496-497 | shifting the remainder one limb up and adding L[i] gives tmp * BASE + L[i], below R * BASE |
| Divide.TakeAway | bigint.hpp:522 | subtracting R times the floor digit leaves a remainder in [0, R) |
| Divide.DivSteps | bigint.hpp:493-523 | the digit loop keeps consumed limbs == quotient limbs * R + remainder with the remainder in [0, R), and ends with all of L |
| Divide.QuotientLimbs | bigint.hpp:483-526 | the gathered quotient limbs, reversed, spell floor(|L| / |R|) |
| Divide.LongQuotient | bigint.hpp:483-529 | the long-division branch is the normalised floor of the magnitudes' quotient |
| Divide.AbsDiv | bigint.hpp:466-530 | abs_div is NaN exactly on a NaN operand or a zero divisor and otherwise is floor(|a| / |b|) |
| Divide.Rounding | bigint.hpp:320-324 | subtracting 1 when the raw signs differ and b * q misses a gives the floor quotient |
| Divide.Div | bigint.hpp:313-327 | / is NaN exactly on a NaN operand or a zero divisor and otherwise rounds towards negative infinity like Python's // |
| Divide.Mod | bigint.hpp:336-343 | % is NaN in the same cases as / and otherwise is Python's remainder, with the divisor's sign and below it in magnitude |
| Laws.DivModIdentity | bigint.hpp:313-343 | b * (a / b) + a % b == a, normalised |
| Laws.FloorNegativeDividend | bigint.hpp:320-343 | -7 / 2 == -4 and -7 % 2 == 1 |
| Laws.FloorNegativeDivisor | bigint.hpp:320-343 | 7 / -2 == -4 and 7 % -2 == -1 |
| Laws.NaNAbsorbs | bigint.hpp:258-343 | NaN in either operand of + - * / % gives NaN, and so does a zero divisor |
| Decimal.PadDigits | bigint.hpp:567-571 | setw(9) with setfill('0') prints exactly nine digits that spell any value below 10^9 |
| Decimal.StripZeros | bigint.hpp:578-581 | stripping leading zeros keeps the value and leaves no superfluous leading zero |
| Decimal.CanonicalDecimal | bigint.hpp:578-581 | a digit string without superfluous leading zeros is the canonical decimal of its value |
| Render.GroupSplit | bigint.hpp:569-571 | one turn of the loop splits tmp into tmp / 10^9 and a one-limb remainder below 10^9 |
| Render.Groups | bigint.hpp:563-574 | the group loop's text spells tmp, and is empty exactly when tmp is 0 |
| Render.MagnitudeText | bigint.hpp:559-581 | the unsigned text is the canonical decimal of the magnitude |
| Render.ToString | bigint.hpp:555-585 | to_string is "NaN" for NaN, and otherwise the canonical decimal with '-' exactly for negative values |
| Render.ToStringAsWritten | bigint.hpp:555-585 | to_string as written puts '-' in front whenever the raw minus flag is set |
| Render.ToStringAsWrittenAgrees | bigint.hpp:583 | the written and corrected to_string differ only on a negative zero |
| Render.ToStringAsWrittenNegZero | bigint.hpp:583 | (-BigInt(0)).to_string() is "-0" as written and "0" corrected |
| Parse.ParseLoop | bigint.hpp:83-90 | the character loop fails at the first character that is neither a skipped sign or comma nor a digit, and otherwise yields the value of all the digits |
| Parse.PushDigit | bigint.hpp:88-89 | multiplying by BigInt(10) and adding the digit gives ten times the value plus the digit |
| Parse.FirstBadIsFirst | bigint.hpp:83-90 | the reported position is the first rejected character, and every earlier character is accepted |
| Parse.FromString | bigint.hpp:79-94 | the constructor succeeds exactly when every character is allowed where it stands; then it gives the digits' value, negated after a leading '-', normalised; otherwise the error names the first character not allowed |
| Laws.ParseRejectsLetter | bigint.hpp:83-90 | "12a4" fails at index 2 |
| Laws.ParseSkipsComma | bigint.hpp:83-93 | "-1,000" gives -1000 |
| Laws.DecimalRoundTrip | bigint.hpp:79-94 | parsing the to_string text of any non-NaN value gives back that value, normalised |
| Laws.PrintParse | bigint.hpp:79-94 | a canonical decimal text, with a '-' in front of any but "0", parses, and to_string prints it back unchanged |

## Left out

- `print_bits` (`bigint.hpp:532-553`) is console output.
- The compound assignments `+=`, `-=`, `*=`, `/=` and `%=` are left out. Each
  only assigns the binary operator's result, which is modelled.
- The accessors `size()`, `operator[]`, `isMinus()` and `isNaN()` are left
  out. The model reads the datatype's fields directly.
- `low`/`high` take the halves of a 64-bit word through `reinterpret_cast`. That
  reads the halves in the order of a little-endian machine. The model takes
  `% 2^32` and `/ 2^32`, which is what the code means on such a machine.
- The two throws become error values. A `std::stoul` failure is
  `ParseError(index)`. The `abs_sub` carry error is `CarryError`. Neither
  the corrected nor the as-written `abs_sub` reaches it, because both order
  their operands first.
- `std::string` holds bytes; the model reads strings as sequences of `char`.
  Every character outside '0'..'9', '+', '-' and ',' is rejected either way.
- Value.FromI32: requires the argument to be above -2^31, because
  `std::abs(INT32_MIN)` is undefined behaviour in C++.
- Value.FromI64: requires the argument to be above -2^63, for the same reason
  with `INT64_MIN`.
- Divide.AbsDiv: requires canonical divisor limbs. Every constructor and
  operator leaves them canonical. With a non-canonical zero divisor such as
  `[0, 0]`, the zero test at `bigint.hpp:470` is missed and
  `L.size() - R.size()` can wrap around.
- Divide.Div: requires canonical divisor limbs, as `AbsDiv` does.
- Divide.Mod: requires canonical divisor limbs, as `AbsDiv` does.
- AddSub.AbsSubAsWritten: states that it never fails, and normalisation and
  NaN-ness of its result, but not its value. The value is wrong for some
  inputs (see Findings), and the counterexample lemmas pin that down.
- AddSub.SubLimbsAsWritten: states only the length of the limbs. Its value
  is wrong whenever the borrow is dropped (see Findings).
- Compare.GtAsWritten: states the integer order only when the left operand
  is not a negative zero. On a negative zero the written code is wrong (see
  Findings).
- AddSub.Add, AddSub.Sub, Divide.Accepts, Divide.SearchDigit,
  Divide.QuotientDigit, Divide.TakeAway, Divide.DivSteps,
  Divide.QuotientLimbs, Divide.LongQuotient, Divide.AbsDiv, Divide.Div,
  Divide.Mod, Render.GroupSplit:
  use the corrected `abs_sub` (`AddSub.AbsSub`), not the as-written one. The
  source's `+` and `-` call the as-written `abs_sub` (`bigint.hpp:270`), and
  `abs_div` and `to_string` call `-`. So these members state what the code
  evidently intends, not what the bug at `bigint.hpp:411` makes it compute
  (see Findings). A dropped borrow only makes a difference larger. So once
  the test `(tmp - p) < R` at `bigint.hpp:510` rejects the true quotient
  digit, it rejects every candidate, and that digit of the quotient stays 0.
  For `abs_div(2^96, 2^64 + 1)`, tmp - p for the true digit 2^32 - 1 comes
  out as 2^65 - 2^32 + 1, which is not below R. `%` (`bigint.hpp:341`)
  calls `-` as well, so `BigInt(2^64) % BigInt(3)` is 2^64 + 1.
- Divide.TakeAway: states that the remainder after line 522 is below R. As
  written, 2^64 - (2^64 - 1) comes out as 2^64 + 1, which is not (see
  Findings).
- Divide.DivSteps: its invariant holds only with the corrected `abs_sub`.
  The invariant is that the consumed limbs equal the quotient limbs times R
  plus the remainder, with the remainder in [0, R). As written it fails on `abs_div(2^96, 2^64 + 1)`.
- Divide.QuotientLimbs: states the floor quotient, which the written code
  misses on `abs_div(2^96, 2^64 + 1)` (it gives 0, not 2^32 - 1).
- Divide.LongQuotient: states the floor quotient, which the written code
  misses on the same input.
- Render.GroupSplit: states that the remainder r at lines 569-570 has one
  limb. As written, the dropped borrow can leave extra limbs: for tmp = 2^64,
  r is [709551616, 0, 1]. Limb 0 is still right, because a dropped borrow
  only changes limbs above the one where it arises. Line 572 prints only
  `r[0]`, so `Render.Groups` and `Render.ToString` match the written code.
- Laws.DivModIdentity: holds of the corrected `/` and `%`. As written,
  `BigInt(2^64) / BigInt(3)` is exact, 6148914691236517205, and so is its
  product with 3, 2^64 - 1. But `%` then subtracts 2^64 - (2^64 - 1) with
  the borrow dropped at `bigint.hpp:411` and gets 2^64 + 1, so
  b * (a / b) + a % b is 2^65, not 2^64.
- Laws.AddAssociates: holds of the corrected `+`. As written,
  (2^64 + -1) + 1 is 2^65, while 2^64 + (-1 + 1) is 2^64.
- Laws.MulDistributes: holds over the corrected `+`. As written,
  2 * (2^64 + -1) is 2^66 - 2, while 2 * 2^64 + 2 * -1 is 2^65 + 2^64 - 2.
- Laws.Trichotomy: states the corrected order. As written,
  `-BigInt(0) < BigInt(-3)` holds but `BigInt(-3) > -BigInt(0)` does not
  (`Compare.OrderAsWrittenNegZero`), so the clause that < is > with the
  operands swapped fails on a negative-zero left operand.
- Compare.Ge, Compare.Lt, Compare.Le: follow the corrected `>`. As written,
  `>=`, `<` and `<=` are built on the written `>` and inherit its
  negative-zero bug (`Compare.GeAsWritten`, `Compare.LtAsWritten`,
  `Compare.LeAsWritten`). Wherever the library itself uses `>`, `>=`, `<` or
  `<=`, the left operand is not a negative zero. It is an absolute value, the
  normalised result of an operator, or `tmp` in `to_string`. There the two
  versions agree (`Compare.GtAsWrittenAgrees`, `Compare.OrderAsWrittenAgrees`).

## Findings

| source | as written | input that shows it | evidently intended | confidence | as-written member | corrected member |
|---|---|---|---|---|---|---|
| bigint.hpp:411 | The borrow test `ld - (carry?1:0) >= rd` is done in `uint64_t`. When ld is 0 and a borrow is pending, it wraps to 2^64 - 1, the test passes, and the borrow is dropped. | abs_sub of [0, 0, 1] (2^64) and [1] gives 2^65 - 1, not 2^64 - 1. So `BigInt(2^64) % BigInt(3)` is 2^64 + 1, `BigInt(2^64) + BigInt(-1)` (lines 268-274) is 2^65 - 1, and `abs_div(2^96, 2^64 + 1)` is 0, not 2^32 - 1. | Borrow exactly when ld < rd + borrow, so that abs_sub returns the distance of the magnitudes and never throws. | not executed | AddSub.AbsSubAsWrittenDropsBorrow | AddSub.AbsSub |
| bigint.hpp:219 | When the signs differ, `operator>` returns `!minus`, the raw flag of the unnormalised left operand, not `!L.minus`. | `-BigInt(0) > BigInt(-3)` is false, although 0 > -3. `>=`, `<` and `<=` (lines 234-256) are built on `>` and inherit the bug: `-BigInt(0) < BigInt(-3)` and `-BigInt(0) <= BigInt(-3)` are true, and `-BigInt(0) >= BigInt(-3)` is false. | Return `!L.minus`, so that > is the integer order. | not executed | Compare.GtAsWrittenNegZero, Compare.OrderAsWrittenNegZero | Compare.Gt, Compare.Ge, Compare.Lt, Compare.Le |
| bigint.hpp:583 | `to_string` prepends '-' when the raw `minus` flag is set, also for a negative zero. | `(-BigInt(0)).to_string()` gives "-0". | Print '-' only for negative nonzero values, as the normalised sign does. | not executed | Render.ToStringAsWrittenNegZero | Render.ToString |
