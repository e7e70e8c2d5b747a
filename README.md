# matiq: a verified model of the exact-value core

`matiq.py` is a helper library for generating mathematics exercises. This
project models its computational core in Dafny: number theory (primality,
the n-th prime, divisors, a variadic gcd), exact fractions, radical
simplification, the median and interquartile range, metric, imperial and
time-unit conversion, clock texts, and the answer key of a multiple-choice
question.

Each Python exception becomes an `Err` value of a `Result`, named after the
exception that Python raises (`ValueError`, `NameError`, `TypeError`,
`IndexError`, `ZeroDivisionError`). Python floats become Dafny `real`s, so
conversions are exact. Python integers become `int`s.

The Python code that changes variables step by step is modelled as methods
with loops, each proved against a specification:

- `is_prime`, `nth_prime`, `factors` and `prime_factors` (module `Primes`);
- `sqrt_simplify` (module `Radicals`);
- the branch logic of `time_unit_converter` and its `unit_reader` (module
  `TimeUnits`);
- the in-place shuffle and the key of `multiple_choice` (module `Choice`).

Expression-only code is modelled as functions with lemmas:

- `gcd` (module `Euclid`);
- the fraction functions (module `Fractions`);
- `median` and `interquartile_range` (module `Statistics`);
- `valid_metric`, `convert_measurement` and `convert_imperial` (module
  `Metric`);
- `time_to_words` and `minutes_to_time` (module `Clock`).

Every floor division and remainder in the modelled code has a positive
divisor. For a positive divisor, Dafny's `/` and `%` agree with Python's
`//` and `%`.

Behaviour of the code worth noting:

- `frac_simplify(a, 0)` with `a != 0` returns `(±1, 0)`: the gcd is `|a|`.
  Only `(0, 0)` raises `ZeroDivisionError`.
- Each simplified part keeps the sign of the part it came from, so a
  negative denominator stays negative (`Fractions.FracSimplify`).
- For an odd count, `interquartile_range` leaves out the middle element and
  the one just below it, so the lower part is one element shorter than the
  upper part (`Statistics.PartSizes`).
- Python's default arguments are kept: `convert_imperial` converts one unit
  unless told otherwise (`number := 1.0`), and `multiple_choice` shuffles
  unless told otherwise (`reorder := true`).

## Model

| member | source | states |
|---|---|---|
| Primes.IsPrime | src/matiq.py:56-65 | the result is true exactly when `n >= 2` and no `d` in `2..n-1` divides `n`; so `n <= 1` gives false, and trial division stopping at `i * i > n` decides primality |
| Primes.TrialDivisionSuffices | src/matiq.py:61-65 | once no `d` with `2 <= d < i` divides `n` and `n < i * i`, `n` is prime (why the loop may stop at the square root) |
| Primes.NthPrime | src/matiq.py:68-74 | for `k <= 0` the result is 1; for `k >= 1` it is a prime with exactly `k - 1` primes below it, i.e. the k-th prime |
| Primes.PrimeCountDetermines | src/matiq.py:68-74 | two primes with the same number of smaller primes are equal, so the k-th prime in `NthPrime`'s contract is unique |
| Primes.FirstPrime | src/matiq.py:68-74 | the only prime with no prime below it is 2, i.e. `nth_prime(1) == 2` |
| Primes.PrimeAbove | src/matiq.py:70-73 | above every bound there is a prime, so the inner `while` of `nth_prime` stops |
| Primes.Factors | src/matiq.py:77-82 | the list is strictly ascending and holds exactly the `x` in `1..n` with `n % x == 0` |
| Primes.PrimeDivisor | src/matiq.py:85-86 | every `n >= 2` has a prime divisor `p <= n`, so `prime_factors(n)` is not empty from 2 on |
| Primes.PrimeFactors | src/matiq.py:85-86 | the list is strictly ascending and holds exactly the prime divisors of `n` in `1..n`: the prime elements of `factors(n)`, in its order |
| Euclid.Gcd | src/matiq.py:92-100 | the pairwise gcd is non-negative and divides both arguments; it is 0 only when both are 0; `gcd(m, 0) == abs(m)` |
| Euclid.GcdGreatest | src/matiq.py:92-100 | every common divisor of `m` and `n` divides `gcd(m, n)`, so it is the greatest one |
| Euclid.GcdCommutative | src/matiq.py:92-94 | the argument order does not matter |
| Euclid.GcdAll | src/matiq.py:89-91 | the variadic gcd divides every argument |
| Euclid.GcdAllGreatest | src/matiq.py:89-91 | every common divisor of all the arguments divides the variadic gcd |
| Euclid.GcdAllIsFold | src/matiq.py:89-91 | the variadic gcd is the pairwise gcd folded left to right over all arguments |
| Fractions.FracSimplify | src/matiq.py:134-135 | ZeroDivisionError exactly when both parts are 0; otherwise `p * b == a * q`, `gcd(p, q) == 1`, and each part keeps the sign (and zeroness) of the part it came from |
| Fractions.ReducedCoprime | src/matiq.py:135 | the two parts divided by their gcd have gcd 1 |
| Fractions.FracSimplifyValue | src/matiq.py:134-135 | for `b != 0` the simplified pair denotes the same rational number `a / b` |
| Fractions.FracSimplifyIdempotent | src/matiq.py:134-135 | a pair already in lowest terms is returned unchanged |
| Fractions.FractionAddition | src/matiq.py:146-149 | ZeroDivisionError exactly when both cross-multiplied parts `a*d + b*c` and `b*d` are 0; otherwise the result is in lowest terms, has the same cross product as that pair, and each part has the sign (and zeroness) of the corresponding cross-multiplied part; for `b, d != 0` it denotes `a/b + c/d` |
| Fractions.SumOfRatios | src/matiq.py:147-148 | the cross-multiplied pair `(a*d + b*c, b*d)` denotes `a/b + c/d` |
| Fractions.FractionSubtraction | src/matiq.py:152-155 | ZeroDivisionError exactly when both cross-multiplied parts `a*d - b*c` and `b*d` are 0; otherwise the result is in lowest terms, has the same cross product as that pair, and each part has the sign (and zeroness) of the corresponding cross-multiplied part; for `b, d != 0` it denotes `a/b - c/d` |
| Fractions.DifferenceOfRatios | src/matiq.py:153-154 | the cross-multiplied pair `(a*d - b*c, b*d)` denotes `a/b - c/d` |
| Radicals.SqrtSimplify | src/matiq.py:158-176 | ValueError exactly for negative `n`; otherwise `a >= 1` and `a * a * m == n`; for `n > 0` the radicand `m` has no square factor; the rendering is "0" exactly for `n == 0`, the coefficient alone exactly for `m == 1`, the bare root exactly for `m >= 2` and `a == 1`, the scaled root otherwise |
| Radicals.StripSquare | src/matiq.py:164-166 | dividing out `i * i` makes the radicand strictly smaller and keeps it free of the squares already ruled out |
| Radicals.NoLargeSquare | src/matiq.py:163 | when the loop stops (`i * i > m`) and no smaller square divides `m`, `m` is square-free |
| Radicals.SquareFreeFixed | src/matiq.py:158-176 | a square-free radicand cannot be simplified further: `a * a * r == m` forces `a == 1` and `r == m` |
| Statistics.Sort | src/matiq.py:109 | `sorted` gives an ascending permutation of the sample |
| Statistics.SortedUnique | src/matiq.py:109 | two ascending sequences with the same elements are equal, so `sorted` depends only on the multiset of elements |
| Statistics.MiddleOf | src/matiq.py:110-113 | on a sorted list: IndexError exactly for the empty list |
| Statistics.Median | src/matiq.py:107-113 | IndexError exactly for an empty sample |
| Statistics.MedianBalances | src/matiq.py:107-113 | at most half of the sample lies strictly below the median, and at most half strictly above |
| Statistics.MedianWithin | src/matiq.py:107-113 | the median lies between two elements of the sample, and for an odd count it is an element |
| Statistics.MedianPermutationInvariant | src/matiq.py:107-109 | reordering the sample does not change the median |
| Statistics.Parts | src/matiq.py:119-124 | the Python slices resolve, from four elements on, to a proper non-empty prefix ending at `(n-3)//2` (odd) or `n//2-1` (even) and a disjoint suffix starting at `(n+1)//2` or `n//2+1`; below four elements the lower part is empty |
| Statistics.PartSizes | src/matiq.py:119-124 | for an odd count the lower part has `(n-3)/2` elements and the upper part `(n-1)/2`; for an even count both have `n/2 - 1` |
| Statistics.SpreadOf | src/matiq.py:125 | on a sorted list: IndexError exactly when there are fewer than four elements |
| Statistics.InterquartileRange | src/matiq.py:116-125 | IndexError exactly for samples of fewer than four elements |
| Statistics.SpreadNonNegative | src/matiq.py:119-125 | on a sorted list, the upper part's median is not below the lower part's |
| Statistics.InterquartileNonNegative | src/matiq.py:116-125 | the interquartile range of four or more values is never negative |
| Statistics.InterquartilePermutationInvariant | src/matiq.py:116-118 | reordering the sample does not change the interquartile range |
| Metric.ValidMetric | src/matiq.py:186-189 | IndexError exactly for the empty token; otherwise true when the last character is m, g or l and the rest is one of the seven prefixes |
| Metric.ValidMetricTokens | src/matiq.py:186-189 | exactly the 21 prefix-unit tokens are valid (e.g. "m" is the metre and "mm" the millimetre) |
| Metric.ConvertMeasurement | src/matiq.py:192-201 | `unit_in` is checked before `unit_out` (IndexError for an empty token, NameError for an invalid one); between valid tokens, TypeError exactly when the base letters differ; a result measures the same quantity: `r * scale(out) == number * scale(in)` |
| Metric.ConvertRoundTrip | src/matiq.py:192-201 | converting back recovers the original number |
| Metric.ConvertCompose | src/matiq.py:192-201 | converting in two steps gives the same as converting in one |
| Metric.BridgeIsMetric | src/matiq.py:205-220 | the four bridge units (cm, kg, ml, km) are valid tokens, and each rate agrees with the size of its imperial unit |
| Metric.ImperialNotMetric | src/matiq.py:205-220 | no imperial spelling is a valid metric token |
| Metric.Inward | src/matiq.py:205-212 | the input-side factors (×2.5, ÷2.2, ×568, ×1.6) turn an imperial amount into the same quantity in the bridge unit |
| Metric.Outward | src/matiq.py:213-220 | the output-side factors (÷2.5, ×2.2, ÷568, ÷1.6) turn an amount in the bridge unit into the same quantity in the imperial unit |
| Metric.FromImperialConserves | src/matiq.py:205-212 | a conversion from an imperial unit targets a metric unit and keeps the quantity in base units |
| Metric.ToImperialConserves | src/matiq.py:213-220 | a conversion to an imperial unit starts from a metric unit and keeps the quantity in base units |
| Metric.ConvertImperial | src/matiq.py:204-222 | NameError when neither side is an imperial spelling; an imperial input is handled first, and then the output side decides as in `convert_measurement`: IndexError for an empty token, NameError for an invalid one, success exactly when it measures the same quantity as the imperial unit, TypeError otherwise; with a metric input and an imperial output the input side decides the same way; a result always has a metric unit on the other side |
| Metric.ImperialConserves | src/matiq.py:204-222 | every successful conversion keeps the quantity in base units, whichever side is imperial |
| Metric.ImperialToImperial | src/matiq.py:205-212 | converting between two imperial units is refused with NameError |
| Metric.BridgeRoundTrip | src/matiq.py:205-220 | going through a bridge unit and back recovers the number |
| Metric.ImperialRoundTrip | src/matiq.py:204-222 | converting from an imperial unit and back recovers the number |
| TimeUnits.OccursAtSomePosition | src/matiq.py:229 | the substring test holds exactly when the word occurs at some position of the argument |
| TimeUnits.UnitReader | src/matiq.py:226-232 | a result is a unit whose word occurs in the lower-cased argument while no unit tried earlier does; ValueError only when no unit word occurs |
| TimeUnits.ResolvesUnique | src/matiq.py:226-232 | an argument resolves to at most one unit |
| TimeUnits.Rescaled | src/matiq.py:237-261 | the branches compute exactly the conversion table: ×12, ×52 and ×365 from a year, ÷12, ÷52 and ÷365 to a year, the seconds ratio between clocked units, and none otherwise |
| TimeUnits.ConvertSameUnit | src/matiq.py:237-261 | a clocked unit converts to itself unchanged; month to month and year to year are refused |
| TimeUnits.ConvertRoundTrip | src/matiq.py:237-261 | convertibility is symmetric, and converting back recovers the number |
| TimeUnits.ConvertCompose | src/matiq.py:259-261 | between clocked units, converting through a third unit is converting directly |
| TimeUnits.TimeUnitConverter | src/matiq.py:225-264 | ValueError when the input unit or the output unit cannot be read (the input first); otherwise the table's value with the unit word, pluralised unless the value is 1, or ValueError for a pair the table refuses |
| Clock.Phrasing | src/matiq.py:268-287 | ValueError exactly for an hour outside 0..12 or a minute outside 0..59; otherwise a phrase with a word for every number that names the same position on a twelve-hour dial; "o'clock" exactly for minute 0, "past" exactly for minutes 1..30 |
| Clock.ToDial | src/matiq.py:284-285 | "60 - m to h % 12 + 1" names the same dial position as h:m |
| Clock.PhrasingDeterminesTime | src/matiq.py:280-285 | two accepted times with the same phrase have the same minute and the same hour on a twelve-hour dial |
| Clock.TimeToWords | src/matiq.py:267-287 | ValueError exactly for an hour outside 0..12 or a minute outside 0..59; "nums[h] o'clock" for minute 0, "nums[m] past nums[h]" for minutes 1..30, "nums[60-m] to nums[h%12+1]" for minutes 31..59 |
| Clock.MidnightIsTwelve | src/matiq.py:268-285 | hour 0 and hour 12 give the same text |
| Clock.Decimal | src/matiq.py:293-294 | `str(n)` is a non-empty string of decimal digits that spells `n`, without a leading zero unless it is the single digit 0 |
| Clock.PaddedField | src/matiq.py:295 | a number below 100, zero-padded, is two digits that read back as the number |
| Clock.MinutesToTime | src/matiq.py:290-295 | ValueError exactly outside `0 <= minutes < 1440`; otherwise five characters with ':' in the middle, two digits for `minutes // 60` and two for `minutes % 60` |
| Clock.MinutesToTimeRoundTrip | src/matiq.py:290-295 | reading "HH:MM" back gives the number of minutes |
| Clock.MinutesToTimeInjective | src/matiq.py:290-295 | different numbers of minutes give different texts |
| Choice.IndexOf | src/matiq.py:38 | `list.index`: none exactly when the value is absent; otherwise the first position holding it |
| Choice.KeyLetter | src/matiq.py:38 | ValueError exactly when `correct` is absent; IndexError past the 26th position; otherwise a letter A..Z whose position in the alphabet is the first position of `correct` |
| Choice.KeyLetterDefined | src/matiq.py:38 | an answer among the first 26 choices always gets a letter |
| Choice.SwappedPermutation | src/matiq.py:37 | one exchange of two positions keeps the same elements |
| Choice.ShuffledPermutation | src/matiq.py:37 | the whole shuffle keeps the same elements, each as often as before |
| Choice.Shuffle | src/matiq.py:37 | the array becomes its old contents with positions `n-1` down to 1 exchanged with the supplied draws |
| Choice.MultipleChoice | src/matiq.py:28-44 | the choices are shuffled in place only when `reorder` is set (only then are the random draws needed), and keep their elements; ValueError exactly when `correct` was absent, IndexError when it is present but past the 26th position of the shuffled list; the key is "L. correct", where L is the letter of the first position of `correct` in the list after the shuffle |

## Left out

- `round_sig` and `cast_int` are not modelled. They depend on float formatting with `%g` and a `1e-15` epsilon, which has no meaning over exact reals.
- `triangle_area` is not modelled. It is float arithmetic unrelated to the rest of the core.
- `dollar`, `latex_frac`, `latex_frac_simplify` and `ordinal` are not modelled. They only format text.
- The TikZ and LaTeX builders (`analogue_clock`, `num_line`, `draw_angle`, `draw_table`, `draw_triangle`, `draw_square`, `draw_circle`, `draw_semi_circle`, `draw_regular_polygon`, `ruler`) are not modelled. They are presentation strings.
- Float rounding is not modelled. Conversions use exact reals, so the round trips proved here hold exactly, whereas Python floats may be off in the last digits.
- Choice.MultipleChoice: the question block (`\choice` lines, `onepar` layout and the surrounding environment) is not modelled, only the shuffle and the answer key. The randomness of `random.shuffle` is replaced by draws supplied by the caller, one per position, each at most that position, as in Python's Fisher–Yates loop.
- TimeUnits.TimeUnitConverter: returns the converted number and the unit word, not the formatted text. How the f-string renders the number (an integer or a decimal) is not modelled.
- TimeUnits.UnitReader: lower-cases ASCII letters only. Python's `str.lower` also folds other Unicode letters.
- Radicals.SqrtSimplify: returns the coefficient, the radicand and which of the four renderings applies, not the LaTeX text.
- Values are unbounded integers and exact reals. Python integers are unbounded too, so only the float side differs.
- Dynamic typing is not modelled. Arguments of the wrong type (a float hour, a non-string unit) are not modelled.
