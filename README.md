# fracdex in Dafny

A model of `fracdex.go` from rocicorp/fracdex, a fractional-indexing key
generator. `KeyBetween(a, b)` returns a string that sorts strictly between
two order keys under plain byte-wise comparison. `""` stands for the open end
on either side.

An order key has two parts:

- an **integer part**: a head letter, then base62 digits. The head fixes how
  many digits follow. `a`..`z` give 1..26 digits and `Z`..`A` give 1..26
  digits.
- a **fractional part**: base62 digits that must not end in `'0'`.

`smallestInt`, which is `A` followed by 26 zeros, is a sentinel and never a
valid key.

The project has one Dafny module per layer of the Go file:

| file | module | models |
|---|---|---|
| `base62.dfy` | `Base62` | the alphabet `0-9A-Za-z`, digit ↔ index |
| `lex_order.dfy` | `LexOrder` | Go's `<` on strings (`Less`) |
| `errors.dfy` | `Errors` | the error kinds, `Result`, `Outcome` |
| `int_codec.dfy` | `IntCodec` | `getIntLen`, `getIntPart`, `validateInt`, `validateOrderKey` |
| `int_arith.dfy` | `IntArith` | `incrementInt`, `decrementInt` (methods with their carry/borrow loops) |
| `midpoint.dfy` | `Midpoints` | `midpoint` (prefix-walk loop plus recursion) |
| `key_between.dfy` | `Fracdex` | `KeyBetween`, the corrected version with its correctness theorem and the code as written with the ordering it keeps |
| `key_between_examples.dfy` | `FracdexExamples` | the expected outputs of `TestKeys`, for both versions |

How the proofs work:

- **Integer parts.** They are numbered by `Rank`, an injective,
  order-preserving map into `0 .. Total()-1` (`RankInjective`, `RankOrder`,
  `RankRange`).
  `incrementInt` is then proved to be "rank plus one" and `decrementInt`
  "rank minus one".
- **Midpoint.** `midpoint` is specified by the function `MidpointBy`. That
  function is proved to lie strictly between its bounds.
- **KeyBetween.** The Go code is modelled twice: as written
  (`KeyBetweenAsWritten`) and with the two corrections listed under
  "Findings" (`KeyBetween`). The corrected version is proved to succeed
  exactly on valid bounds, and then to return a valid key strictly between
  them (`KeyBetweenCorrect`). The version as written succeeds on the same
  bounds and its result is also strictly between them (`AsWrittenOrdered`),
  but it is not always a valid key (`AsWrittenTrailingZero`,
  `AsWrittenReturnsSentinel`, `AsWrittenSentinelTrailingZero`).

## Model

`Fracdex.KeyBetween` is the corrected function (both fixes listed under
"Findings" applied); the code of fracdex.go:18-100 exactly as written is
`Fracdex.KeyBetweenAsWritten`. Rows whose lemma is about the corrected
function start with "corrected"; rows about the code as written start with
"as written".

| member | source | states |
|---|---|---|
| Base62.AlphabetSpelledOut | fracdex.go:10 | the alphabet is the 62 characters `0-9A-Za-z` in that order |
| Base62.Digit | fracdex.go:10 | `base62Digits[i]` for an index below 62 is one of the base62 digits |
| Base62.IndexOf | fracdex.go:128 | the index of a digit in the alphabet is below 62 and the alphabet has that digit there |
| Base62.DigitRoundTrip | fracdex.go:136 | `base62Digits[i]` looked up again gives back `i` |
| Base62.DigitOrder | fracdex.go:10 | for two indices, index order is character order, both ways |
| Base62.IndexOrder | fracdex.go:128-132 | for two digits, character order is index order, both ways |
| LexOrder.Less | fracdex.go:31 | Go's string order: a proper prefix sorts before the longer string and never after it |
| LexOrder.LessIrreflexive | fracdex.go:31 | no string sorts before itself |
| LexOrder.LessTransitive | fracdex.go:31 | string order is transitive |
| LexOrder.LessTrichotomy | fracdex.go:31 | exactly one of `a < b`, `a == b`, `b < a` holds |
| LexOrder.LessProperPrefix | fracdex.go:47 | a proper prefix sorts first |
| LexOrder.LessCommonPrefix | fracdex.go:86-88 | a common prefix does not change the order |
| LexOrder.LessBeyondDivergence | fracdex.go:96 | when neither string is a prefix of the other, suffixes appended to them do not change the order |
| IntCodec.IntLen | fracdex.go:168-176 | succeeds exactly on a letter head, returns a length in 2..27, and otherwise fails with the bad head |
| IntCodec.IntLenByHead | fracdex.go:168-176 | lower-case heads add one character per letter, upper-case heads remove one; `a`/`Z` give 2 and `z`/`A` give 27 |
| IntCodec.GetIntPart | fracdex.go:178-187 | succeeds exactly when the head is a letter and the key is long enough; the result is a well-formed integer part and a prefix of the key; a bad head and a short key give their errors |
| IntCodec.ValidateInt | fracdex.go:157-166 | passes exactly when `x` is one whole integer part, that is when getIntPart returns all of `x`; otherwise names the bad head or the bad integer part |
| IntCodec.FracPart | fracdex.go:200 | the key is its integer part followed by its fractional part |
| IntCodec.ValidateOrderKey | fracdex.go:189-205 | passes exactly when the key is not smallestInt, has a letter head, is long enough for it, and its fractional part does not end in '0'; smallestInt and the other cases give their errors |
| IntCodec.IntPartUnique | fracdex.go:178-187 | an integer part that is a prefix of a key is the one getIntPart returns |
| IntCodec.DistinctIntPartsDiverge | fracdex.go:178-187 | two different integer parts are never prefixes of one another |
| IntCodec.OrderKeyFromParts | fracdex.go:189-205 | an integer part and an allowed fractional part make a valid key that splits back into them |
| IntCodec.OrderKeyParts | fracdex.go:189-205 | a valid key splits into an integer part and a fractional part without a trailing '0', and is not smallestInt |
| IntArith.AddOne | fracdex.go:216-225 | the carry loop keeps the number of digits and leaves only base62 digits |
| IntArith.SubOne | fracdex.go:252-261 | the borrow loop keeps the number of digits and leaves only base62 digits |
| IntArith.AddOneValue | fracdex.go:216-225 | the carry loop adds one in base 62; it carries out exactly when every digit is 'z' |
| IntArith.SubOneValue | fracdex.go:252-261 | the borrow loop subtracts one in base 62; it borrows out exactly when every digit is '0' |
| IntArith.AddOneKeepsPrefix | fracdex.go:217 | once the carry stops, the digits to its left are unchanged |
| IntArith.SubOneKeepsPrefix | fracdex.go:253 | once the borrow stops, the digits to its left are unchanged |
| IntArith.CarryDigits | fracdex.go:213-225 | the loop over `digs` computes AddOne |
| IntArith.BorrowDigits | fracdex.go:249-261 | the loop over `digs` computes SubOne |
| IntArith.RankOrder | fracdex.go:168-187 | integer parts sort as their ranks do, both ways |
| IntArith.RankInjective | fracdex.go:168-187 | different integer parts have different ranks |
| IntArith.RankRange | fracdex.go:168-187 | every integer part has a rank below `Total()` |
| IntArith.ExtremeRanks | fracdex.go:11 | smallestInt has rank 0, the next integer part rank 1, and 'z' followed by 26 'z's the last rank |
| IntArith.ExtremeIntParts | fracdex.go:11 | no integer part sorts below smallestInt or above the all-'z' part; the extreme ranks belong to exactly those parts |
| IntArith.NextInt | fracdex.go:208-212 | fails exactly on a malformed integer part, with validateInt's error |
| IntArith.PrevInt | fracdex.go:244-248 | fails exactly on a malformed integer part, with validateInt's error |
| IntArith.NextIntSuccessor | fracdex.go:208-242 | incrementInt returns "" exactly for the all-'z' part; otherwise a valid integer part of rank one more, which sorts after `x` |
| IntArith.PrevIntPredecessor | fracdex.go:244-280 | decrementInt returns "" exactly for smallestInt; otherwise a valid integer part of rank one less, which sorts before `x` |
| IntArith.IncrementInt | fracdex.go:208-242 | the method computes NextInt: an error exactly on an invalid `x`, "" exactly at the largest part, otherwise the successor in sort order |
| IntArith.DecrementInt | fracdex.go:244-280 | the method computes PrevInt: an error exactly on an invalid `x`, "" exactly at smallestInt, otherwise the predecessor in sort order |
| Midpoints.StripLen | fracdex.go:110-119 | the prefix walk never passes the end of `b`, and without padding never the end of `a` |
| Midpoints.StripLenFacts | fracdex.go:110-119 | the walk strips exactly the longest prefix on which `b` agrees with `a` (zero-padded when padding is on) |
| Midpoints.PrefixWalk | fracdex.go:110-119 | the loop stops at StripLen without padding; `a` and `b` agree up to there |
| Midpoints.MidpointBy | fracdex.go:105-155 | the midpoint is a non-empty base62 string |
| Midpoints.Midpoint | fracdex.go:105-155 | the corrected (padded) midpoint is a non-empty base62 string |
| Midpoints.MidpointAsWritten | fracdex.go:105-155 | the method computes the unpadded MidpointBy; under midpoint's precondition its result lies strictly between `a` and `b` |
| Midpoints.FirstDigitsDiffer | fracdex.go:125-154 | the part after the walk computes the unpadded MidpointBy |
| Midpoints.MidpointBetween | fracdex.go:102-104 | when `b` has no trailing '0' and `a < b` (if `b` is given), both variants return a string strictly between `a` and `b` |
| Midpoints.MidpointNoTrailingZero | fracdex.go:105-155 | under the same precondition, the padded midpoint does not end in '0', so it can end a key |
| Midpoints.MidpointAsWrittenTrailingZero | fracdex.go:111-121 | as written, midpoint("1", "101") is "10", which ends in '0' |
| Midpoints.MidpointPaddedExample | fracdex.go:107-109 | padded, midpoint("1", "101") is "100V" |
| Midpoints.MidpointBelowOne | fracdex.go:144-154 | midpoint("", "1") is "0V", as written and corrected |
| Fracdex.KeyBetweenBy | fracdex.go:18-100 | in both versions a successful result is never the empty string, which would stand for an open bound |
| Fracdex.KeyBetween | fracdex.go:18-100 | corrected, KeyBetween succeeds exactly on valid bounds and then returns a valid key strictly between them |
| Fracdex.KeyBetweenAsWritten | fracdex.go:18-100 | as written, KeyBetween succeeds exactly on valid bounds and then returns a string strictly between them |
| Fracdex.KeyBetweenErrors | fracdex.go:19-33 | an invalid `a`, then an invalid `b`, then `a >= b` give exactly their errors, in that order |
| Fracdex.KeyBetweenCorrect | fracdex.go:14-100 | corrected, KeyBetween succeeds exactly when each bound is open or a valid key and `a < b` when both are given; its result is then a valid key strictly between the bounds |
| Fracdex.AsWrittenSameOutcome | fracdex.go:18-100 | the code as written fails on the same bounds, with the same error, as the corrected version |
| Fracdex.NoRangeErrors | fracdex.go:53-55 | neither version ever returns "range underflow" or "range overflow" |
| Fracdex.BothOpen | fracdex.go:34-37 | two open bounds give "a0", which is a valid key |
| Fracdex.KeyFromParts | fracdex.go:189-205 | an integer part and a fractional part without a trailing '0' make a valid key, unless they form smallestInt |
| Fracdex.BelowUpper | fracdex.go:34-57 | corrected, with only an upper bound the result is a valid key below it |
| Fracdex.BelowSentinel | fracdex.go:43-45 | corrected, when b's integer part is smallestInt the result is smallestInt followed by a midpoint below b's fraction, a valid key below `b` |
| Fracdex.BelowIntPart | fracdex.go:46-48 | when `b` has a fractional part, the result is b's integer part, a valid key below `b` |
| Fracdex.BelowDecrement | fracdex.go:49-57 | when `b` is a bare integer part, the decremented part (corrected at smallestInt) is a valid key below `b` |
| Fracdex.BelowDecrementToSentinel | fracdex.go:49-57 | the corrected branch: smallestInt followed by "V" is a valid key below `b` |
| Fracdex.AboveLower | fracdex.go:60-75 | with only a lower bound, the result is a valid key above it |
| Fracdex.AboveLargest | fracdex.go:70-72 | at the largest integer part, the result is it followed by a midpoint above a's fraction, a valid key above `a` |
| Fracdex.MidpointAbove | fracdex.go:70-71 | an integer part followed by a midpoint above its fraction is a valid key above the original key |
| Fracdex.AboveNext | fracdex.go:66-74 | otherwise the result is the incremented integer part, a valid key above `a` |
| Fracdex.NextAbove | fracdex.go:66-74 | the integer part after a's is a valid key above `a` |
| Fracdex.InsideBounds | fracdex.go:77-99 | corrected, with both bounds the result is a valid key strictly between them |
| Fracdex.InsideSameIntPart | fracdex.go:86-88 | corrected, with equal integer parts the integer part followed by the padded midpoint of the fractions is strictly between the bounds |
| Fracdex.InsideDistinctIntParts | fracdex.go:89-99 | with different integer parts, the next integer part (if below `b`) or a's integer part followed by a midpoint above a's fraction is strictly between the bounds |
| Fracdex.AsWrittenOrdered | fracdex.go:14-100 | as written, KeyBetween succeeds on valid bounds and returns a string that sorts after `a` (if given) and before `b` (if given) |
| Fracdex.AsWrittenBelow | fracdex.go:38-57 | as written, with only an upper bound the result sorts before it |
| Fracdex.AsWrittenAbove | fracdex.go:60-75 | as written, with only a lower bound the result sorts after it |
| Fracdex.AsWrittenInsideSameIntPart | fracdex.go:86-88 | as written, with equal integer parts the result sorts strictly between the bounds |
| Fracdex.AsWrittenInsideDistinctIntParts | fracdex.go:89-99 | as written, with different integer parts the result sorts strictly between the bounds |
| Fracdex.BelowBareIntPart | fracdex.go:46-57 | an open lower bound and a bare integer part above smallestInt give the previous integer part; corrected, smallestInt followed by "V" when that is where the decrement lands |
| Fracdex.SentinelIsNotKey | fracdex.go:190-192 | smallestInt is not a valid key |
| Fracdex.AsWrittenReturnsSentinel | fracdex.go:49-57 | as written, KeyBetween("", "A0…01") returns smallestInt, which is not a valid key; corrected, smallestInt + "V" |
| Fracdex.OpenMidpoint | fracdex.go:125-137 | midpoint("", "") is "V", as written and corrected |
| Fracdex.SameIntPartResult | fracdex.go:86-88 | with equal integer parts (and a lower fraction that is not empty when the integer part is smallestInt) both versions return the integer part followed by their midpoint of the fractions |
| Fracdex.AsWrittenTrailingZero | fracdex.go:86-88 | as written, KeyBetween("a01", "a0101") returns "a010", which is not a valid key; corrected, "a0100V" |
| Fracdex.TrailingZeroResult | fracdex.go:86-88 | both versions keep the common integer part "a0" of "a01" and "a0101" and append their midpoint of "1" and "101" |
| Fracdex.AsWrittenSentinelTrailingZero | fracdex.go:43-45 | as written, KeyBetween("", smallestInt + "01") returns smallestInt + "0", which is not a valid key; corrected, smallestInt + "00V" |
| Fracdex.SentinelFractionMidpoints | fracdex.go:111-121 | below "01" the unpadded midpoint stops at "0"; the padded one walks past the '0' and returns "00V" |
| Fracdex.ZeroEndedFraction | fracdex.go:200-203 | an integer part followed by a fraction ending in '0' is not a valid key |
| FracdexExamples.BothOpenExample | fracdex_test.go:24 | KeyBetween("", "") is "a0", as written and corrected |
| FracdexExamples.BelowZeroExample | fracdex_test.go:25 | KeyBetween("", "a0") is "Zz", as written and corrected |
| FracdexExamples.BelowZzExample | fracdex_test.go:26 | KeyBetween("", "Zz") is "Zy", as written and corrected |
| FracdexExamples.AboveZeroExample | fracdex_test.go:27 | KeyBetween("a0", "") is "a1", as written and corrected |
| FracdexExamples.AboveOneExample | fracdex_test.go:28 | KeyBetween("a1", "") is "a2", as written and corrected |
| FracdexExamples.ZeroOneExample | fracdex_test.go:29 | KeyBetween("a0", "a1") is "a0V", as written and corrected |
| FracdexExamples.OneTwoExample | fracdex_test.go:30 | KeyBetween("a1", "a2") is "a1V", as written and corrected |
| FracdexExamples.HalfOneExample | fracdex_test.go:31 | KeyBetween("a0V", "a1") is "a0l", as written and corrected |
| FracdexExamples.AcrossHeadsExample | fracdex_test.go:32 | KeyBetween("Zz", "a0") is "ZzV", as written and corrected |
| FracdexExamples.ZeroBetweenExample | fracdex_test.go:33 | KeyBetween("Zz", "a1") is "a0", as written and corrected |
| FracdexExamples.BelowY00Example | fracdex_test.go:34 | KeyBetween("", "Y00") is "Xzzz", as written and corrected |
| FracdexExamples.AboveBzzExample | fracdex_test.go:35 | KeyBetween("bzz", "") is "c000", as written and corrected |
| FracdexExamples.BelowHalfExample | fracdex_test.go:36 | KeyBetween("a0", "a0V") is "a0G", as written and corrected |
| FracdexExamples.BelowQuarterExample | fracdex_test.go:37 | KeyBetween("a0", "a0G") is "a08", as written and corrected |
| FracdexExamples.SameIntPartExample | fracdex_test.go:38 | KeyBetween("b125", "b129") is "b127", as written and corrected |
| FracdexExamples.NextIntBelowExample | fracdex_test.go:39 | KeyBetween("a0", "a1V") is "a1", as written and corrected |
| FracdexExamples.NextIntAcrossExample | fracdex_test.go:40 | KeyBetween("Zz", "a01") is "a0", as written and corrected |
| FracdexExamples.IntPartBelowExample | fracdex_test.go:41 | KeyBetween("", "a0V") is "a0", as written and corrected |
| FracdexExamples.LongIntPartBelowExample | fracdex_test.go:42 | KeyBetween("", "b999") is "b99", as written and corrected |
| FracdexExamples.SentinelBoundExample | fracdex_test.go:43-47 | KeyBetween("", smallestInt) fails with "invalid order key", as written and corrected |
| FracdexExamples.BelowSentinelExample | fracdex_test.go:48 | KeyBetween("", "A000000000000000000000000001") is "A000000000000000000000000000V", as written and corrected |
| FracdexExamples.BelowLargestExample | fracdex_test.go:49 | KeyBetween("zz…zy", "") is "zz…zz", as written and corrected |
| FracdexExamples.AboveLargestExample | fracdex_test.go:50 | KeyBetween("zz…zz", "") is "zz…zzV", as written and corrected |
| FracdexExamples.TrailingZeroExample | fracdex_test.go:51-52 | a lower bound "a00" fails with "invalid order key" with upper bound "" or "a1" (for every upper bound: KeyBetweenErrors), as written and corrected |
| FracdexExamples.InvalidHeadExample | fracdex_test.go:53 | KeyBetween("0", "1") fails with "invalid order key head", as written and corrected |
| FracdexExamples.OutOfOrderExample | fracdex_test.go:54 | KeyBetween("a1", "a0") fails with "a1 >= a0", as written and corrected |
| FracdexExamples.NextOfSecondLargest | fracdex.go:217-225 | incrementInt turns 'z' followed by 25 'z's and a final 'y' into the largest integer part |

## Left out

- `NKeysBetween` is called by the tests (fracdex_test.go:57-80), but its body is not part of this model.
- The text of the error messages. Each message is one `Errors.Error` variant. The format string at fracdex.go:163 concatenates instead of formatting, so Go would print a mangled message; that is not modelled.
- Floating point: `math.Round(0.5*float64(digitA+digitB))` at fracdex.go:135 is the integer `(digitA + digitB + 1) / 2`. The operands are 0..62, so the two agree exactly.
- Characters outside the base62 alphabet: the Go code never checks non-head characters, and `strings.Index` would return -1 for them. Every operation here requires `AllDigits` of its strings instead.
- Go's handling of the empty string where it would panic: `getIntLen(key[0])` on `""` is never reached from KeyBetween, and the model's `GetIntPart`, `ValidateInt` and `ValidateOrderKey` require a non-empty argument.
- `strings.Split`, `strings.Join` and byte/string conversions are modelled as operations on `seq<char>`. The `digs` slice of incrementInt and decrementInt is a `string` value that the loop rebuilds one position at a time; the Go slice is local to the function, so no aliasing is lost.
- The testify assertions of the Go tests are not modelled. Each test case is one lemma about the model.

## Findings

| source | as written | input that shows it | evidently intended | confidence | as-written member | corrected member |
|---|---|---|---|---|---|---|
| fracdex.go:111-119 | the prefix loop runs only while `i < len(a)`, so the padding of `a` described at fracdex.go:107-109 never happens (and the padding value at fracdex.go:112 is `byte(0)`, not the digit '0'); midpoint can then return a string ending in '0' | `KeyBetween("a01", "a0101")`: midpoint("1", "101") is "10", so the result is "a010", which validateOrderKey rejects; likewise `KeyBetween("", smallestInt + "01")` returns smallestInt + "0" | walk on past the end of `a` as if it were followed by '0's: midpoint("1", "101") is "100V" and the result is "a0100V"; below smallestInt + "01" the result is smallestInt + "00V" | not executed | Fracdex.AsWrittenTrailingZero, Fracdex.AsWrittenSentinelTrailingZero | Fracdex.KeyBetweenCorrect |
| fracdex.go:49-57 | with only an upper bound, a bare integer part is decremented and returned as is, even when the decrement lands on smallestInt | `KeyBetween("", "A00000000000000000000000001")` returns "A00000000000000000000000000" (smallestInt), which validateOrderKey rejects | append a midpoint, as the smallestInt branch at fracdex.go:43-45 does: the result is "A00000000000000000000000000V" | not executed | Fracdex.AsWrittenReturnsSentinel | Fracdex.KeyBetweenCorrect |
