# Verified models of the numeric, text and stream cores

This project models the algorithmic core of the repository in Dafny and proves it correct: the
exact floating-point printer of {fmt}, its format-string language in three implementations, its
Unicode conversions, the generated tables of unprintable code points, a few smaller algorithms,
and the stream codecs of Poco. `dafny verify dfyconfig.toml` checks all of it.

## How it is organised

| files | what they model |
|---|---|
| `Common`, `Powers`, `Digits`, `Bigint` | `bigint`: little-endian bigits and an exponent, updated in place; every operation against the number it stands for |
| `Decimal`, `Dragon`, `Boundaries`, `FormatDragon`, `Estimates` | `format_dragon` and its caller's estimate of the decimal exponent: shortest and fixed-digit printing over that `bigint`; real numbers p * 10^x and f * 2^e are compared through integer cross products |
| `FormatSpec`, `FormatUnits`, `FormatGrammar` | the parser of format specifications, its classes of units, and the documented grammar it accepts, with tables of its own |
| `FormatRun`, `FormatMeaning` | the run-time formatter, and what a format string means piece by piece, independently of it |
| `FormatSkip`, `FormatFields`, `FormatCompile`, `FormatCheck` | skipped specifiers, the references of a string's fields, the format-string compiler with its programs, and the compile-time checker |
| `Utf8`, `Utf16` | the branchless UTF-8 decoder, iteration over code points, conversion between UTF-8 and UTF-16 or UTF-32, on machine words |
| `Printable`, `PrintableTables` | the lookup of unprintable code points, and the generator of its tables |
| `TrailingZeros`, `Buffers` | division by modular inverses; output buffers that truncate |
| `Docopt`, `IsoWeek` | expansion of usage patterns; ISO 8601 week dates |
| `Octets`, `Base64`, `Base32`, `BinaryStream` | the encoder and decoder stream buffers, and binary readers and writers |

Classes whose methods update their fields in the original are classes here, with the same loops;
their contracts tie the new state to a function of the old one, and the theorems are about those
functions. Compile-time recursion in `compile.h` is recursion here. How a single argument is
rendered, and how a float is split into f and e, is left open.

## Findings

Where a promise does not hold of the code, the code is modelled as it is and the condition under which
the promise holds is proved in both directions; where the code can receive a failing input that the
condition does not show, a lemma names one.

- `divmod_assign` misses a dividend that equals the divisor but is stored with a larger exponent:
  the remainder is in range if and only if that is not the case (`DivmodAssign`). No significand of a
  supported float leads `format_dragon` there (`SignificandsSafe`).
- Shortest printing tests the lower boundary with a comparison that falls back on the exponents for
  equal values. The decimal printed is the shortest that reads back if and only if `NotShortest` is
  false of significand, exponent and estimate (`ShortestExactly`), which fails in three ways. An odd
  significand's end point is taken and printed, and reads back as the predecessor
  (`EndPointExample`, a binary128 value). A value that is a multiple of the estimated power of ten
  gets a superfluous zero; the caller's estimate excludes it (`EstimateWide`). An even
  significand's end point is passed over, and more digits than necessary follow
  (`EndPointMissedExample`, the x87 extended value next to 4.8e28). The first two take more than 64
  bits of significand (`EstimateNarrow`, `ShortestFails`).
- `parse_nonnegative_int` reports more than ten digits as too big even if they are leading zeros
  (`LeadingZeros`; the exact condition is in `ParseNonnegativeInt`).
- `doc/syntax.md` has `#` for integers and floats only, `s` for strings and `p` for pointers. The code
  takes `#`, `0` and `L` for bool and char too, `s` for bool and `p` for C strings; the grammar's
  tables are those of the code (`LetterTable`, `TypeTable`).
- The compile-time checker does not switch to manual indexing at a field name. So it accepts `{a}{}`,
  which the run time rejects (`MixedUnsound`), and rejects `{}{a}{0}`, which formats
  (`MixedIncomplete`). `CheckExactly` says for which strings it errs either way.
- For an argument whose name it does not know the checker counts brackets to find the end of the
  specifiers. An ill-formed fill such as the units `\xC3}` puts a brace in its way, and it rejects
  `{a:\xC3}<}`, which formats (`FillMisread`); it finds the end if and only if the braces in the fill
  are balanced and never close first (`SkipEnds`), which in UTF-8 is always so (`PlainFill`).
- The compiler rejects `{:{w}}` and `{a}{0}`, which the run time accepts (`NamedWidthRejected`,
  `IndexAfterNameRejected`), and leaves specifiers of a name it does not know to the run time;
  `CompiledExactly` says exactly when it does either. It also yields programs for strings the run time rejects
  (`ProgramExactly`): those with a lone `}`, which it reads as an escaped one with the character
  behind it lost (`LoneBraceCompiled`), or with an automatic reference that it does not see follow a
  name or an index, as in `{a}{}` (`AutomaticAfterNameCompiled`).
- `printable.py` puts a run of one or two code points at 0x20000 among the singletons of plane 0,
  where no lookup finds it and its page number does not fit a byte (`Plane2Example`); the tables are
  right if and only if there is no such run (`FaithfulExactly`).
- The 64-bit `remove_trailing_zeros` casts a quotient by 10^8 to 32 bits: right if and only if it fits
  (`RemoveTrailingZeros64`, `CastExample`); a multiple of 2^32 runs into the assertion on 0.
- The week-date functions divide with truncation: before year 0 dates in a week 53 come out wrong,
  and only those (`IsoWeekExact`, `EarlyYear`).
- The URL-safe Base64 decoder does not skip the line breaks its encoder can be told to write
  (`Base64.RoundTrip`). Both alphabets' decoders drop a single character left at the end, and filler
  bits that are not zero, without an error (`SingleDropped`, `GroupDigits`).

## Model

| member | source | states |
|---|---|---|
| Bigints.Bigint.Assign | Emulator/fmt/include/fmt/format.h:2738-2746 | splitting a positive machine integer of up to 128 bits into 32-bit bigits keeps its value, leaves no leading zero bigit and sets the exponent to 0 |
| Bigints.Bigint.AssignFrom | Emulator/fmt/include/fmt/format.h:2755-2761 | the copy has the other number's bigits and exponent |
| Bigints.Bigint.ShiftLeft | Emulator/fmt/include/fmt/format.h:2772-2785 | the value is multiplied by exactly 2^shift for every shift, whole bigits moving only the exponent; no carry is lost and no leading zero appears |
| Bigints.Bigint.Multiply32 | Emulator/fmt/include/fmt/format.h:2704-2713 | the value is multiplied exactly by a 32-bit factor, in place; the exponent stays |
| Bigints.Bigint.MultiplyWide | Emulator/fmt/include/fmt/format.h:2715-2734 | the value is multiplied exactly by a 64- or 128-bit factor through two half-width products, for every factor up to 2^width - 1 |
| Bigints.Bigint.WideRound | Emulator/fmt/include/fmt/format.h:2724-2729 | one round of the wide multiplication makes an exact bigit and a carry of at most the factor, so that neither its sums nor the carry leave a word of that width |
| Bigints.Bigint.SubtractBigits | Emulator/fmt/include/fmt/format.h:2679-2683 | one bigit is subtracted in 64-bit wrap-around arithmetic, and the new borrow is 0 or 1 and makes the difference exact |
| Bigints.Bigint.RemoveLeadingZeros | Emulator/fmt/include/fmt/format.h:2685-2689 | leading zero bigits go, at least one bigit stays, value and exponent do not change |
| Bigints.Bigint.SubtractAligned | Emulator/fmt/include/fmt/format.h:2691-2702 | an aligned number that is not larger and at most one bigit shorter is subtracted exactly; the single step of borrow past its end suffices |
| Bigints.Bigint.Align | Emulator/fmt/include/fmt/format.h:2874-2885 | the trailing zero bigits written in front bring the exponent down to the other's and keep value and bigit count, with the in-place move from the top |
| Bigints.Compare | Emulator/fmt/include/fmt/format.h:2793-2806 | compare is the order on bigit count, then bigits from the top, then exponent |
| Bigints.CompareExact | Emulator/fmt/include/fmt/format.h:2793-2806 | on normalised operands compare returns the sign of the difference if and only if neither operand is the other one written out with zero bigits below |
| Bigints.CompareSound | Emulator/fmt/include/fmt/format.h:2793-2806 | compare never reports the wrong strict order, even if one operand is an unnormalised remainder that is not longer, and for equal values it reports which exponent is smaller |
| Bigints.AddCompare | Emulator/fmt/include/fmt/format.h:2808-2826 | add_compare returns exactly the sign of lhs1 + lhs2 - rhs, for normalised operands and remainders that fit, although it stops early |
| Bigints.CompareFromTop | Emulator/fmt/include/fmt/format.h:2815-2825 | the loop from the top with a borrow of at most 1 decides the sign of the whole sum |
| Bigints.Bigint.DivmodAssign | Emulator/fmt/include/fmt/format.h:2887-2900 | old value = quotient * divisor + remainder always; the remainder is below the divisor if and only if the dividend was not the divisor itself stored with a larger exponent, in which case the quotient is 0; the remainder's exponent is the smaller of the two |
| Bigints.ColumnsAreProduct | Emulator/fmt/include/fmt/format.h:2846-2872 | the columns of cross products that the squaring loop adds up are together the product of the two numbers |
| Bigints.Bigint.Square | Emulator/fmt/include/fmt/format.h:2846-2872 | the value is squared exactly; the 128-bit column sum never overflows |
| Bigints.Bigint.SquareAndMultiply | Emulator/fmt/include/fmt/format.h:2838-2842 | one bit of the exponent takes 5^q to 5^(2q + bit) |
| Bigints.Bigint.AssignPow5 | Emulator/fmt/include/fmt/format.h:2832-2842 | following the bits of e below the highest one gives exactly 5^e |
| Bigints.BitsFromIsDiv | Emulator/fmt/include/fmt/format.h:2832-2842 | the value of the exponent's bits from a mask up is the exponent divided by the mask, for the mask as it is halved |
| Bigints.Bigint.AssignPow10 | Emulator/fmt/include/fmt/format.h:2828-2844 | the result is exactly 10^e for every e an int can hold |
| Dragon.Prepare | Emulator/fmt/include/fmt/format.h:2923-2957 | numerator, denominator, lower and upper have exactly the values and exponents of the Steele and White set-up in all three exponent cases, upper being lower itself unless the predecessor is closer |
| Boundaries.BoundariesScaled | Emulator/fmt/include/fmt/format.h:2923-2957 | these integers are the value, the distance to the lower and the distance to the upper rounding boundary as fractions of one denominator and one power of ten |
| Boundaries.BoundariesAreMidpoints | Emulator/fmt/include/fmt/format.h:2923-2957 | the lower boundary is half way to the predecessor, which is one unit below or half a unit if it is closer, and the upper one half way to the successor |
| FormatDragon.Fixup | Emulator/fmt/include/fmt/format.h:2958-2973 | the fix-up multiplies by ten exactly if the upper boundary is below the estimated power of ten (or meets it and does not belong to the interval) |
| FormatDragon.FixupMeaning | Emulator/fmt/include/fmt/format.h:2958-2968 | the fix-up test is the comparison of the real upper boundary with 10^exp10 |
| FormatDragon.StartNeverEqual | Emulator/fmt/include/fmt/format.h:2889-2891 | for a safe start the dividend of a digit step is never the divisor stored with a larger exponent, before or after scaling |
| FormatDragon.Start | Emulator/fmt/include/fmt/format.h:2913-2975 | after set-up and fix-up, for every positive f below 2^128, value and boundaries are numerator, lower and upper over denominator * 10^exp10, with numerator below ten denominators, and in shortest mode numerator + upper within ten denominators, unless the start is not safe |
| Dragon.NextDigit | Emulator/fmt/include/fmt/format.h:2981-3022 | a division yields a digit 0 to 9 with old numerator = digit * denominator + numerator and a remainder below the denominator |
| Dragon.Decide | Emulator/fmt/include/fmt/format.h:2982-2996 | high is exactly the test against the upper boundary, end point included for an even significand; low is the test against the lower one with the answer of every tie and of a zero remainder told by the exponents; the round-up flag chooses by nearness, ties to even digit |
| Dragon.LowTest | Emulator/fmt/include/fmt/format.h:2982-2982 | what comparing remainder and lower tells: the order of their values, ties falling to the smaller exponent, and a zero remainder below lower unless its exponent lies above all of lower's bigits |
| Dragon.Generate | Emulator/fmt/include/fmt/format.h:2976-3004 | the shortest loop terminates because lower grows tenfold; every digit stays 0 to 9 even after the increment, and the first one is not 0 where the upper boundary reaches its unit; the recorded last step satisfies the exact stopping tests against the scaled numbers, no earlier step having met them |
| Dragon.Shortest | Emulator/fmt/include/fmt/format.h:2976-3004 | the digits lie within the closed scaled interval; they are inside it, no multiple of ten units is, and no other multiple of the unit inside is nearer, if and only if the last step did not stray: an end point taken, a zero remainder passed, or an end point missed |
| Dragon.Chosen | Emulator/fmt/include/fmt/format.h:2982-3004 | the same for every last step that satisfies the stopping tests |
| FormatDragon.PrintShortest | Emulator/fmt/include/fmt/format.h:2976-3004 | the printed decimal reads back as f * 2^e if and only if no end point of an odd significand is taken, and is then exactly that end point; it is the shortest and nearest decimal that reads back if and only if the input is not one of NotShortest |
| Boundaries.ShortestMeaning | Emulator/fmt/include/fmt/format.h:2976-3004 | best among the scaled integers is, if and only if, the shortest decimal between the real boundaries f * 2^e with half a unit (or a quarter below a power of two), end points included for even f |
| FormatDragon.ReadsBackExactly | Emulator/fmt/include/fmt/format.h:2982-2996 | whatever step the loop stops at, what is printed reads back if and only if it is not the case that f is odd, the remainder is stored above lower, and some multiple of a power of ten is the lower boundary while none strictly inside exists |
| FormatDragon.ShortestExactly | Emulator/fmt/include/fmt/format.h:2982-2996 | and it is the shortest decimal if and only if NotShortest is false of significand, exponent and estimate |
| Boundaries.TakenStrays | Emulator/fmt/include/fmt/format.h:2982-2982 | an odd significand's end point, where there is one and the remainder is stored above lower, makes the loop stray at whatever step it stops |
| Boundaries.MissedStrays | Emulator/fmt/include/fmt/format.h:2982-2982 | an even significand's lower end point that would be the shortest is passed over where the remainder is stored below lower |
| Boundaries.WholeStrays | Emulator/fmt/include/fmt/format.h:2982-2982 | a value that is a multiple of the estimated power of ten makes the loop stray where the remainder is stored above lower |
| Dragon.LeadingDigits | Emulator/fmt/include/fmt/format.h:3017-3022 | after count digits, value * 10^count = digits * 10 * denominator + numerator: nothing is lost |
| Dragon.PropagateCarry | Emulator/fmt/include/fmt/format.h:3029-3033 | the overflow of the last digit ripples through the nines and keeps the decimal value; only the first character may stay above '9' |
| Dragon.AppendCarry | Emulator/fmt/include/fmt/format.h:3026-3041 | a carry through all nines gives 1 with zeros, one digit longer in fixed mode, else with the exponent raised |
| Dragon.RoundedDigits | Emulator/fmt/include/fmt/format.h:3015-3044 | the digits are the value rounded to nearest, ties to even, in the unit of the last digit, also when the carry changed their number |
| FormatDragon.NoDigits | Emulator/fmt/include/fmt/format.h:3006-3014 | with no digit position left the single digit is the value rounded to nearest, ties to even, in a unit above it |
| FormatDragon.RoundedMeaning | Emulator/fmt/include/fmt/format.h:3005-3044 | rounding the scaled numerator is rounding f * 2^e to a multiple of a power of ten |
| Decimal.NearestEvenUnique | Emulator/fmt/include/fmt/format.h:3005-3044 | rounding to nearest with ties to even has one answer, so the contract determines the digits |
| FormatDragon.PrintDigits | Emulator/fmt/include/fmt/format.h:3005-3044 | digits, their number and the exponent are the correctly rounded value in every branch, one digit for each place from the first down to the unit: carry, all nines in fixed and other modes, no digits |
| FormatDragon.FormatDragon | Emulator/fmt/include/fmt/format.h:2910-3045 | the whole function for every significand of a supported float. Shortest mode prints the shortest decimal that reads back as f * 2^e except exactly where NotShortest says so, without a leading zero if the upper boundary reaches the first digit's place. With fixup and fixed set the value is rounded to a multiple of 10^-numDigits, so to that many digits after the point, else to numDigits digits in all. It fails only where the adjusted precision does not fit an int |
| FormatDragon.NarrowSafe | Emulator/fmt/include/fmt/format.h:2889-2891 | every significand below 2^64 starts safely whatever the exponent estimate |
| FormatDragon.WideSafe | Emulator/fmt/include/fmt/format.h:2889-2891 | so does every normalised 113-bit significand: 5^48 is the only power of five that could meet one, and the exponents exclude it |
| FormatDragon.SignificandsSafe | Emulator/fmt/include/fmt/format.h:2889-2891 | so the unguarded case of the division is never reached from format_dragon |
| FormatDragon.NarrowBelow | Emulator/fmt/include/fmt/format.h:2982-2982 | up to 64 bits and with an estimate not more than one too high, the remainder is never stored above lower, so everything printed reads back |
| FormatDragon.WideNotWhole | Emulator/fmt/include/fmt/format.h:2982-2982 | for 113 bits and an estimate whose power of ten is not below the value's power of two (or a closer predecessor), no multiple of 10^exp10 is stored that way, so no superfluous zero is printed |
| Estimates.EstimateSuits | Emulator/fmt/include/fmt/format.h:3168-3178 | the decimal exponent estimated from the leading bit's exponent suits format_dragon in every mode, for every significand and exponent of a supported float: the value and its upper boundary stay below the next power of ten |
| Estimates.EstimateTight | Emulator/fmt/include/fmt/format.h:3168-3178 | nor is that estimate more than one too high: the value is not below the power of ten before the estimated one, which takes 2^15437 > 10^4647 and 2^13301 < 10^4004 |
| Estimates.FixupEnough | Emulator/fmt/include/fmt/format.h:2958-2975 | so after the fix-up the upper boundary lies between the estimated power of ten and the next one, and shortest output never starts with a zero |
| Estimates.EstimateNarrow | Emulator/fmt/include/fmt/format.h:3168-3178 | with up to 64 bits that estimate never leads to a remainder stored above lower |
| Estimates.EstimateWide | Emulator/fmt/include/fmt/format.h:3168-3178 | with 113 bits it does so only where the value is no multiple of the estimated power of ten |
| Estimates.ShortestFails | Emulator/fmt/include/fmt/format.h:2976-3004 | so with that estimate the printed decimal is not the shortest if and only if an odd binary128 significand's end point is taken, or an even significand's is passed over |
| Estimates.EndPointExample | Emulator/fmt/include/fmt/format.h:2982-2982 | the odd binary128 significand 8187018133491651638405761625976563 with exponent 31 and the caller's estimate 44: its excluded lower end point is 1758148756755280303798878188077056 * 10^10, is taken, and reads back as the predecessor |
| Estimates.EndPointMissedExample | Emulator/fmt/include/fmt/format.h:2982-2982 | the even significand 11175870895385742188 with exponent 32 and the caller's estimate 29: 48 * 10^27 is its shortest decimal, and is not printed |
| FormatSpec.ParseNonnegativeInt | Emulator/fmt/include/fmt/base.h:1319-1342 | the wrapping 32-bit loop with its check on the last step returns the decimal number if it fits an int and has at most ten digits, else the error value |
| FormatSpec.NoLeadingZero | Emulator/fmt/include/fmt/base.h:1334-1341 | without a leading zero the digit count does not matter: the value alone decides |
| FormatSpec.ParseFormatSpecs | Emulator/fmt/include/fmt/base.h:1471-1606 | the loop that moves begin through the states computes the recursive parser that the documented grammar characterises in SentenceParsed and ParsedIsSentence |
| FormatGrammar.LetterTable | Emulator/fmt/include/fmt/base.h:1557-1581 | for every unit and argument type, the parser takes the unit for a presentation type exactly if it is in the grammar's own list of letters for that type, and for the one that the letter means |
| FormatGrammar.TypeTable | Emulator/fmt/include/fmt/base.h:1520-1554 | signs, the flags #, 0 and L, and a precision are taken for exactly the types that the grammar lists |
| FormatUnits.DigitTable | Emulator/fmt/include/fmt/base.h:1322-1332 | the digits are 0 to 9 and each stands for its place in that row |
| FormatUnits.NameTable | Emulator/fmt/include/fmt/base.h:1353-1355 | names start with one of the 52 letters or an underscore |
| FormatUnits.CodePointLengthIs | Emulator/fmt/include/fmt/base.h:1311-1317 | the length of a code point by its first byte is the one that the two bits of the constant 0x3a55000000000000 say, for all 256 bytes |
| FormatUnits.WholeCodePoint | Emulator/fmt/include/fmt/base.h:1585-1586 | a well-formed UTF-8 sequence is taken as one code point, whole |
| FormatGrammar.SentenceParsed | Emulator/fmt/doc/syntax.md:71-85 | every sentence [[fill]align][sign][#][0][width][.precision][L][type] that suits the argument type, by the grammar's own tables of letters and flags, with numbers of any length, automatic, indexed or named sizes, is parsed up to the brace to exactly its meaning and numbering, or reported as too big a number if one of its numbers is |
| FormatGrammar.ParsedIsSentence | Emulator/fmt/include/fmt/base.h:1471-1606 | conversely, whatever the parser accepts up to a closing brace is the text of a sentence of the grammar that suits the type by those tables, and the specifiers and numbering are that sentence's |
| FormatGrammar.LeadingZeros | Emulator/fmt/include/fmt/base.h:1334-1341 | the precision .00000000001 is the number 1 and is rejected as too big |
| FormatGrammar.SizeRead | Emulator/fmt/include/fmt/base.h:1408-1440 | a written width or precision is read as its number or reference, and moves the numbering accordingly |
| FormatGrammar.FillStart | Emulator/fmt/include/fmt/base.h:1476-1481 | a code point followed by an alignment character is taken as fill and alignment, whatever the code point is, a brace excepted |
| FormatSpec.SpecsInStep | Emulator/fmt/include/fmt/base.h:1471-1606 | parsing the same specifiers with a checking and with a run-time context: if both accept they collect the same and stay in step; if the counters agree the run time accepts what checking accepts; otherwise it can only object to the switch back to automatic indexing |
| FormatSpec.NativeInStep | Emulator/fmt/include/fmt/base.h:2416-2421 | the same for specifiers parsed ahead by a formatter, including its check of char specifiers |
| FormatSpec.SpecsLevel | Emulator/fmt/include/fmt/base.h:1471-1606 | conversely, where the run time accepts, checking does too unless a size refers to a missing or non-integral argument, and such a reference stays in the specifiers |
| FormatSpec.SpecsGood | Emulator/fmt/include/fmt/base.h:1394-1440 | and in specifiers that checking accepts no size refers to an index that does not exist or to an argument that is not integral |
| FormatSpec.SpecsCounted | Emulator/fmt/include/fmt/base.h:885-910 | automatic numbering grows by less than the text read |
| FormatRun.EscapedText | Emulator/fmt/include/fmt/base.h:1659-1673 | text with its braces doubled formats to itself |
| FormatMeaning.SentenceFormatted | Emulator/fmt/include/fmt/format.h:3784-3801 | for every sentence that suits the first argument, {:...} renders the argument with the sentence's settings, its width the number written or the value of the argument the width refers to, its precision likewise; it fails exactly on a number that is too big, a size that is missing, no integer or out of range, or flags that a char does not take |
| FormatMeaning.FieldFormatted | Emulator/fmt/include/fmt/base.h:1608-1657 | a replacement field with any reference, by number in turn, by index or by name, and any sentence that suits its argument outputs what it means, numbers on and ends behind its brace, or fails with the error that its meaning has |
| FormatMeaning.PiecesFormatted | Emulator/fmt/include/fmt/base.h:1659-1673 | every string of literal text and replacement fields of the grammar formats to the concatenation of what its pieces mean, or fails with the first error among them |
| FormatMeaning.FormatsExactly | Emulator/fmt/include/fmt/base.h:1659-1673 | a format string formats to a given output if and only if it is written as some such pieces that mean that output |
| FormatMeaning.BraceFails | Emulator/fmt/include/fmt/base.h:1659-1673 | behind pieces that mean something, a closing brace that is not doubled and an opening brace at the end are reported as what they are |
| FormatRun.FormatHandler.OnText | Emulator/fmt/include/fmt/format.h:3764-3766 | literal text is appended to the output and the counter stays |
| FormatRun.FormatHandler.ParseReplacementField | Emulator/fmt/include/fmt/base.h:1608-1657 | a replacement field or escaped brace outputs and advances as the recursive definition of formatting does, which FormatMeaning characterises piece by piece, or reports its error |
| FormatRun.FormatHandler.ParseFormatString | Emulator/fmt/include/fmt/base.h:1659-1673 | the callback-driven loop that passes literal text on in runs computes the output or error of every string that FormatMeaning.FormatsExactly characterises |
| FormatRun.LostFails | Emulator/fmt/include/fmt/format.h:3712-3723 | a size taken from a missing or non-integral argument makes formatting fail, by index or by name |
| FormatRun.StaticIsFirst | Emulator/fmt/include/fmt/compile.h:86-113 | with distinct names the static lookup finds the argument that the run-time lookup finds |
| FormatFields.SpecsFree | Emulator/fmt/include/fmt/base.h:1471-1606 | with the numbering set apart, parsing specifiers reads the same text to the same settings in every context, and succeeds if and only if its references can be counted in their order |
| FormatFields.SpecsTwin | Emulator/fmt/include/fmt/base.h:1471-1606 | without an automatic size, the numbering a context has got to does not change what is parsed |
| FormatFields.FieldShaped | Emulator/fmt/include/fmt/base.h:1608-1657 | a field that formats has the references read off the string, ends where they say, and moves the numbering as they count |
| FormatCompile.RunText | Emulator/fmt/include/fmt/compile.h:262-269 | text without braces is output as it stands, so the compiler may take it in one piece |
| FormatCompile.CompiledSpecs | Emulator/fmt/include/fmt/compile.h:295-305 | specifiers compiled ahead equal those parsed at run time and the next index stays in step |
| FormatCompile.FieldCorrect | Emulator/fmt/include/fmt/compile.h:349-373 | a compiled replacement field yields the run time's output and continues in step, or fails with its dynamic error |
| FormatCompile.CompileCorrect | Emulator/fmt/include/fmt/compile.h:375-438 | from every position and numbering in step, the program yields what the run time outputs from there on |
| FormatCompile.FormatCorrect | Emulator/fmt/include/fmt/compile.h:375-450 | compiler correctness: for every string, arguments and program the compiler produces, wherever the run time parses the string, running the program gives the same output or the same dynamic error |
| FormatCompile.CompileExact | Emulator/fmt/include/fmt/compile.h:375-438 | the rest of a string from any field on, after the fields before, compiles if none of its fields is refused; else the first one that is decides between leaving it to the run time, for specifiers of a name not known ahead, and an error |
| FormatCompile.CompiledExactly | Emulator/fmt/include/fmt/compile.h:375-450 | for every string that formats, names included: the compiler yields a program if and only if no field is refused (specifiers of a name it does not know; an index after a counted field, or a size by index or name in one, while no field was by index), and the program has the run time's output; it leaves the string to the run time if and only if the first refused field has specifiers of a name it does not know, and reports an error otherwise |
| FormatCompile.ProgramExactly | Emulator/fmt/include/fmt/compile.h:375-450 | for every string the compiler yields a program for: without a lone closing brace, an unknown name and an automatic reference after a manual one the run time parses it and the outcomes agree; with any of these the run time rejects it |
| FormatCompile.PositionalCompiled | Emulator/fmt/include/fmt/compile.h:375-450 | without named arguments every format string that the run time formats has a program, and the program has its output |
| FormatCompile.NamedWidthRejected | Emulator/fmt/include/fmt/compile.h:293-305 | {:{w}} with a named width formats and is rejected by the compiler, which asks the now manual context for the next automatic index |
| FormatCompile.IndexAfterNameRejected | Emulator/fmt/include/fmt/compile.h:391-413 | {a}{0} with a static name formats and is rejected by the compiler, which counts the name as an automatic field |
| FormatCompile.LoneBraceCompiled | Emulator/fmt/include/fmt/compile.h:425-429 | a}b is rejected at run time, and compiled to a program that prints the brace and drops what follows it |
| FormatCompile.AutomaticAfterNameCompiled | Emulator/fmt/include/fmt/compile.h:391-419 | {a}{} with a static name is rejected at run time, and compiled |
| FormatCheck.FormatStringChecker.OnFormatSpecs | Emulator/fmt/include/fmt/base.h:1747-1762 | the checker's specifiers: parsed for the argument's type, or skipped by counting brackets |
| FormatCheck.FormatStringChecker.ParseField | Emulator/fmt/include/fmt/base.h:1608-1657 | one field on behalf of the checker |
| FormatCheck.FormatStringChecker.ParseReplacementField | Emulator/fmt/include/fmt/base.h:1608-1657 | one field or escaped brace on behalf of the checker |
| FormatCheck.FormatStringChecker.ParseFormatString | Emulator/fmt/include/fmt/base.h:1659-1673 | the checker's loop computes the recursively defined verdict of every string |
| FormatCheck.FieldSound | Emulator/fmt/include/fmt/base.h:1731-1762 | a field the checker accepts has the references read off the string and ends at the same place at run time, where it fails on its dynamic values or, if its references cannot be counted there, on those; only an argument whose name it does not know is left to the run time |
| FormatCheck.CheckSound | Emulator/fmt/include/fmt/base.h:1704-1769 | from every position, an accepted rest of a string is read to its end when formatted, or to the first field whose argument the checker does not know, failing before that at most on a dynamic value, if the run time can count the references up to there, and is rejected if not |
| FormatCheck.CheckComplete | Emulator/fmt/include/fmt/base.h:1704-1769 | from every position, a rest of a string that formats is accepted if and only if the checker can count its references, with names all known ahead, or left to the run time as long as the braces in the fills of their fields close |
| FormatCheck.CheckExactly | Emulator/fmt/include/fmt/base.h:1704-1769 | names included: formatting a string the checker accepts fails if an automatic reference, of a field or a size, follows a field name before the first field the checker does not know, and else comes to that field or to the end, or fails on a dynamic value before; a string that formats is rejected by the checker if and only if an index follows an automatic reference with only names of fields between them, as long as the braces in the fills of the fields it does not know close |
| FormatSkip.SkipEnds | Emulator/fmt/include/fmt/base.h:1752-1761 | skipping the specifiers of an argument left to the run time, by counting brackets, ends where parsing them ends if and only if the braces among the further units of the fill are balanced and never close first |
| FormatSkip.PlainFill | Emulator/fmt/include/fmt/base.h:1752-1761 | a fill without braces among its further units, as every one in UTF-8, has them balanced |
| FormatCheck.FillMisread | Emulator/fmt/include/fmt/base.h:1752-1761 | {a:\xC3}<} with a name left to the run time formats and is rejected by the checker: the second unit of the ill-formed fill is a brace |
| FormatCheck.PositionalExact | Emulator/fmt/include/fmt/base.h:1704-1769 | without named arguments: what formats is accepted, and what is accepted formats, or fails on a width or precision that is negative or too large, that is a bool or a char, or that is looked up by name |
| FormatCheck.AcceptedFails | Emulator/fmt/include/fmt/base.h:1704-1769 | the same from every position and numbering on |
| FormatCheck.MixedUnsound | Emulator/fmt/include/fmt/base.h:1736-1742 | {a}{} with a static name is accepted by the checker and rejected at run time |
| FormatCheck.MixedIncomplete | Emulator/fmt/include/fmt/base.h:1736-1742 | {}{a}{0} with a static name formats and is rejected by the checker |
| Utf8.DecodeExact | Emulator/fmt/include/fmt/format.h:594-629 | for all four bytes the branchless decoder's error bits are zero if and only if a well-formed sequence of section 4 of RFC 3629 starts there, and then its code point and length are right |
| Utf8.Partition | Emulator/fmt/include/fmt/format.h:633-668 | the reported views, one after the other, are the input, and each has one to four bytes; which ones they are is Utf16.VisitsExactly |
| Utf8.PaddingHarmless | Emulator/fmt/include/fmt/format.h:657-660 | zero padding behind the end never completes a sequence |
| Utf8.DecodeStep | Emulator/fmt/include/fmt/format.h:637-644 | one step reads four bytes inside the block and reports the visit at the current position that Utf16.VisitsExactly characterises: the sequence there, or one invalid byte, and moves behind it |
| Utf8.PaddedTail | Emulator/fmt/include/fmt/format.h:652-660 | the last one to three bytes are copied to the front of seven zero bytes |
| Utf8.VisitTail | Emulator/fmt/include/fmt/format.h:652-667 | the tail loop reports the rest of those visits and reads nothing outside the buffer |
| Utf8.ForEachCodepoint | Emulator/fmt/include/fmt/format.h:633-668 | the two phases report exactly the visits that Utf16.VisitsExactly characterises, up to the one the callback stops at |
| Utf16.VisitsExactly | Emulator/fmt/include/fmt/format.h:633-668 | the visits of a string are the only ones that report all of it in order, each either a code point with exactly the bytes of its UTF-8 sequence, or a single byte at a place where no code point's sequence starts |
| Utf16.Digits2 | Emulator/fmt/include/fmt/format.h:594-618 | the code point of two bytes is the number with their digits to the base 64, the lead mark 0xC0 and the tail mark 0x80 taken off |
| Utf16.Digits3 | Emulator/fmt/include/fmt/format.h:594-618 | the same of three bytes and 0xE0 |
| Utf16.Digits4 | Emulator/fmt/include/fmt/format.h:594-618 | the same of four bytes and 0xF0 |
| Utf16.BytesRead | Emulator/fmt/include/fmt/format.h:1364-1379 | the bytes written for a scalar value are a well-formed sequence that stands for it, whatever follows |
| Utf16.BytesOf | Emulator/fmt/include/fmt/format.h:1364-1379 | a well-formed sequence is what its scalar value is written as |
| Utf16.PairSum | Emulator/fmt/include/fmt/format.h:1362-1362 | the wrapping 32-bit expression for a surrogate pair is the code point of section 2.2 of RFC 2781 |
| Utf16.PairTest | Emulator/fmt/include/fmt/format.h:1352-1356 | the mask tests find exactly the surrogate pairs |
| Utf16.ToUtf8.Put | Emulator/fmt/include/fmt/format.h:1364-1381 | every scalar value is appended as its bytes and everything else is refused |
| Utf16.ToUtf8.Convert | Emulator/fmt/include/fmt/format.h:1347-1382 | UTF-16 and UTF-32 conversion under both policies appends the bytes of the code points read, up to the first unit that cannot be read |
| Utf16.Reads16 | Emulator/fmt/include/fmt/format.h:1352-1360 | with the replace policy all of every 16-bit string is read; where nothing needs replacing the policies agree |
| Utf16.ReplacedExactly | Emulator/fmt/include/fmt/format.h:1352-1360 | with the replace policy the code points read are the only ones such that each stands for its units, or is U+FFFD for a single unit at which no code point's units start |
| Utf16.AbortStops | Emulator/fmt/include/fmt/format.h:1352-1360 | with the abort policy they stand for a prefix of the string, behind which no code point's units start |
| Utf16.BytesOfRead | Emulator/fmt/include/fmt/format-inl.h:1410-1412 | reading UTF-8 yields code points whose bytes are a prefix of the string, behind which no code point's sequence starts |
| Utf16.Reads32 | Emulator/fmt/include/fmt/format.h:1364-1381 | a UTF-32 string is converted if and only if all its units are scalar values, and else up to the first that is not |
| Utf16.VisitsRead | Emulator/fmt/include/fmt/format-inl.h:1410-1412 | stopping at the first invalid visit reads exactly the string's well-formed prefix |
| Utf16.Utf8ToUtf16.Put | Emulator/fmt/include/fmt/format-inl.h:1413-1419 | a code point is appended as one unit or as its surrogate pair |
| Utf16.Utf8ToUtf16.Convert | Emulator/fmt/include/fmt/format-inl.h:1410-1423 | the conversion succeeds if and only if the string is well-formed UTF-8 and then yields its units and a final zero |
| Utf16.RoundTrip16 | Emulator/fmt/include/fmt/format.h:1347-1382 | UTF-16 to UTF-8 and back is the identity on every well-formed UTF-16 string |
| Utf16.RoundTrip8 | Emulator/fmt/include/fmt/format-inl.h:1410-1423 | UTF-8 to UTF-16 and back is the identity on every well-formed UTF-8 string |
| Printable.FindSingleton | Emulator/fmt/include/fmt/format-inl.h:1766-1778 | the search through the pages, ending at the first one beyond x, finds x if and only if it is listed on its page |
| Printable.WalkStretches | Emulator/fmt/include/fmt/format-inl.h:1780-1790 | the walk along the run lengths answers by the parity of the stretch x lies in, for one- and two-byte lengths |
| Printable.IsPrintable | Emulator/fmt/include/fmt/format-inl.h:1762-1791 | the whole lookup: tables of planes 0 and 1, and above them exactly the code points outside the extra ranges and within 17 planes |
| Printable.FirstStretches | Emulator/fmt/include/fmt/format-inl.h:1857-1858 | the first bytes of the generated table hide the control characters and the no-break space, and nothing else below U+0380 |
| PrintableTables.ToRanges | Emulator/fmt/support/printable.py:18-28 | the ranges cover exactly the members, are as long as possible and never straddle the start of planes 1 and 2 |
| PrintableTables.CompressSingletons | Emulator/fmt/support/printable.py:73-87 | the pages in strict order share out the low bytes, and page and byte give back every element |
| PrintableTables.EncodedListed | Emulator/fmt/support/printable.py:73-87 | exactly the encoded elements are found in the pages |
| PrintableTables.CountFits | Emulator/fmt/support/printable.py:73-87 | a page of runs of at most two never holds more than 172 elements, so the count fits a byte |
| PrintableTables.CompressNormal | Emulator/fmt/support/printable.py:89-115 | it succeeds if and only if every gap and run is below 0x8000, and then the bytes decode to the gaps and runs in turn |
| PrintableTables.EncodedHidden | Emulator/fmt/support/printable.py:89-115 | exactly the encoded runs are hidden by the walk |
| PrintableTables.PlaceStep | Emulator/fmt/support/printable.py:145-171 | placing one more range keeps the lists sorted, sparse and apart, and what they hold is what is covered |
| PrintableTables.Classify | Emulator/fmt/support/printable.py:138-171 | the loop over all ranges classifies what they cover, with short ranges at the start of plane 2 as the one exception |
| PrintableTables.FaithfulExactly | Emulator/fmt/support/printable.py:145-171 | the tables show exactly the non-members if and only if no run of one or two members starts plane 2 |
| PrintableTables.FitExactly | Emulator/fmt/support/printable.py:89-115 | every gap and run of a list is below 0x8000 if and only if no 0x8000 numbers in a row lie inside one run or in the gap before one |
| PrintableTables.PlaneFits | Emulator/fmt/support/printable.py:89-115 | the same of a plane's list of runs and the set of members it was built from |
| PrintableTables.Plane2Example | Emulator/fmt/support/printable.py:146-150 | for the one member 0x20000, tables come out and show it as printable |
| PrintableTables.Generate | Emulator/fmt/support/printable.py:133-177 | tables come out if and only if in planes 0 and 1 no 0x8000 code points in a row lie in runs of three or more, or before one and in none; looked up in them exactly the members are unprintable, for every sorted set of code points, if and only if no run of one or two starts plane 2; then every entry is an unsigned char |
| TrailingZeros.HundredthExact | Emulator/fmt/include/fmt/format-inl.h:1162-1165 | for every 32-bit n the rotated product with the inverse of 25 is small if and only if 100 divides n, and then it is the quotient |
| TrailingZeros.TenthExact | Emulator/fmt/include/fmt/format-inl.h:1169-1170 | the same for 10 and the inverse of 5 |
| TrailingZeros.LongHundredthExact | Emulator/fmt/include/fmt/format-inl.h:1192-1196 | the same for 100 and every 64-bit n |
| TrailingZeros.LongTenthExact | Emulator/fmt/include/fmt/format-inl.h:1200-1201 | the same for 10 and every 64-bit n |
| TrailingZeros.RemoveTrailingZeros32 | Emulator/fmt/include/fmt/format-inl.h:1155-1175 | n = result * 10^zeros and the result does not end in zero, for every n but 0 and every even initial count |
| TrailingZeros.RemoveLong | Emulator/fmt/include/fmt/format-inl.h:1186-1207 | the same for the 64-bit loop |
| TrailingZeros.RemoveTrailingZeros64 | Emulator/fmt/include/fmt/format-inl.h:1175-1208 | for every positive 64-bit n the variant is right if and only if a quotient by 10^8, if there is one, fits into 32 bits; it reaches the assertion on 0 if and only if that quotient is a multiple of 2^32 |
| TrailingZeros.CastExample | Emulator/fmt/include/fmt/format-inl.h:1175-1208 | 10^8 * (2^32 + 1) loses its upper half in the cast and comes out as 1 with eight zeros |
| TrailingZeros.StrippedUnique | Emulator/fmt/include/fmt/format-inl.h:1155-1208 | a number's zeros and what is left of it are determined, so two right answers agree |
| Buffers.FixedBufferTraits.Limit | Emulator/fmt/include/fmt/base.h:1889-1902 | everything is counted, and what may pass is what truncation still allows after what came before |
| Buffers.IteratorBuffer.Flush | Emulator/fmt/include/fmt/base.h:1916-1922 | flushing moves the buffered elements to the output up to the limit and keeps the total |
| Buffers.IteratorBuffer.PushBack | Emulator/fmt/include/fmt/base.h:1842-1845 | one element is appended to the total, with room made where there was none |
| Buffers.IteratorBuffer.Append | Emulator/fmt/include/fmt/base.h:1847-1872 | a whole range is appended to the total, in chunks, each round making progress |
| Buffers.IteratorBuffer.Out | Emulator/fmt/include/fmt/base.h:1937-1940 | the output is the total truncated to the limit |
| Buffers.IteratorBuffer.Count | Emulator/fmt/include/fmt/base.h:1941-1941 | the count is the untruncated total, flushed or not |
| Buffers.PointerBuffer.Flush | Emulator/fmt/include/fmt/base.h:1952-1964 | the in-place buffer, when full, has filled the destination to its limit and goes on in its internal array |
| Buffers.PointerBuffer.PushBack | Emulator/fmt/include/fmt/base.h:1842-1845 | one element is appended to the total and nothing behind the limit in the destination changes |
| Buffers.PointerBuffer.Append | Emulator/fmt/include/fmt/base.h:1847-1872 | a whole range is appended to the total and nothing behind the limit changes |
| Buffers.PointerBuffer.Out | Emulator/fmt/include/fmt/base.h:1980-1983 | the destination starts with the total truncated to the limit, and its length is returned; the total can still be counted |
| Buffers.PointerBuffer.Count | Emulator/fmt/include/fmt/base.h:1984-1986 | the count is the untruncated total, before and after the output is taken |
| Buffers.FormatToN | Emulator/fmt/include/fmt/base.h:2886-2895 | writing through the buffer leaves the text truncated to the limit in the destination, nothing behind the limit changed, and returns the end and the untruncated size |
| Docopt.Examples | Emulator/fmt/support/docopt.py:72-78 | the documented examples: (-a | -b) (-c | -d) stands for -a -c, -a -d, -b -c or -b -d, [-a] for -a, and -a... for -a -a |
| Docopt.AllMoved | Emulator/fmt/support/docopt.py:84-86 | taking any one pattern of a group to the front does not change the group's alternatives as a multiset |
| Docopt.ExpandCorrect | Emulator/fmt/support/docopt.py:84-93 | the groups that replace a group have together its alternatives, and weigh less |
| Docopt.AllLeaves | Emulator/fmt/support/docopt.py:94-95 | a group of leaves stands for one alternative, its leaves |
| Docopt.Transform | Emulator/fmt/support/docopt.py:72-96 | the worklist terminates on every pattern tree; the result is an Either of Requireds of leaves, and its alternatives, as a multiset of leaf multisets, are the pattern's disjunctive normal form |
| IsoWeek.YearWeeks | Emulator/fmt/include/fmt/chrono.h:1104-1113 | the computed number of weeks is 53 exactly for years that start or end on a Thursday, from year -1 on; before that it is always 52 |
| IsoWeek.WeekDate | Emulator/fmt/include/fmt/chrono.h:1118-1131 | the three cases of the week computation are the week date of the Thursday of the date's week, given the true number of weeks |
| IsoWeek.WeekDateUnique | Emulator/fmt/include/fmt/chrono.h:1118-1131 | a day has one week date |
| IsoWeek.IsoWeekExact | Emulator/fmt/include/fmt/chrono.h:1104-1131 | week-year and week are those of section 4.1.4 of ISO 8601:2004 for every date from year 0 on, and before that exactly for the dates that lie in no week 53 |
| IsoWeek.EarlyYear | Emulator/fmt/include/fmt/chrono.h:1104-1113 | January 1 of year -1 lies in week 53 but comes out as week 52 |
| Base64.LetterTable | Emulator/poco/Foundation/src/Base64Encoder.cpp:21-45 | the letters are those of the standard and the URL-safe alphabet, in their order |
| Base64.SpaceTable | Emulator/poco/Foundation/src/Base64Decoder.cpp:144-146 | white space is blank, tab, carriage return and line feed |
| Base64.EncodeSpells | Emulator/poco/Foundation/src/Base64Encoder.cpp:82-147 | for every byte string, line length and options: the letters of the complete output are the bytes' number to the base 256, with two or four zero bits behind it for an incomplete group, as a numeral to the base 64 of the shortest sufficient length; lines of whole groups are broken as soon as they reach the line length, and padding completes the last group unless the options leave it out |
| Base64.InEncoding | Emulator/poco/Foundation/src/Base64Decoder.cpp:44-74 | the loops fill the reverse table: each letter its index, the padding 0, everything else invalid |
| Base64.Base64Encoder.WriteToDevice | Emulator/poco/Foundation/src/Base64Encoder.cpp:82-106 | one more byte of input: a full group is written as four letters, and a line break where the line is long enough |
| Base64.Base64Encoder.Close | Emulator/poco/Foundation/src/Base64Encoder.cpp:111-147 | the output is the complete encoding of all bytes written, which EncodeSpells pins down to its filler bits, with or without padding |
| Base64.Base64Decoder.ReadOne | Emulator/poco/Foundation/src/Base64Decoder.cpp:139-148 | the next character, white space skipped in the standard alphabet only |
| Base64.Base64Decoder.ReadGroup | Emulator/poco/Foundation/src/Base64Decoder.cpp:92-118 | four characters, with padding supplied where the options allow; end of input and malformed groups as the original tells them apart |
| Base64.Base64Decoder.ReadFromDevice | Emulator/poco/Foundation/src/Base64Decoder.cpp:84-136 | a byte, the end or an exception: always the next one of the input's decoding |
| Base64.GroupsDecoded | Emulator/poco/Foundation/src/Base64Encoder.cpp:82-106 | whole groups decode to their bytes with whatever follows, unless the URL alphabet meets a line break |
| Base64.TailDecoded | Emulator/poco/Foundation/src/Base64Encoder.cpp:111-147 | the last group decodes to its one or two bytes if and only if padding was written or the decoder does not need it |
| Base64.RoundTrip | Emulator/poco/Foundation/src/Base64Encoder.cpp:82-147 | decoding the complete output gives back every byte string, if and only if the padding options match (or none was needed) and no line break was written in the URL alphabet |
| Base64.GroupDigits | Emulator/poco/Foundation/src/Base64Decoder.cpp:119-131 | whatever four valid characters are read, the bytes are the highest ones of the number they stand for, as many as the padding says; leftover bits are dropped |
| Base64.SpacesIgnored | Emulator/poco/Foundation/src/Base64Decoder.cpp:139-148 | in the standard alphabet white space makes no difference, wherever it is, for any input |
| Base64.SingleDropped | Emulator/poco/Foundation/src/Base64Decoder.cpp:92-118 | a single valid character left at the end is dropped without an error |
| Base32.LetterTable | Emulator/poco/Foundation/src/Base32Encoder.cpp:21-27 | the letters are those of the Base32 alphabet, in their order |
| Base32.EncodeSpells | Emulator/poco/Foundation/src/Base32Encoder.cpp:51-164 | for every byte string: the output is the bytes' number to the base 256, with zero bits up to a whole letter, as a numeral to the base 32 of the shortest sufficient length, followed by the padding |
| Base32.InEncoding | Emulator/poco/Foundation/src/Base32Decoder.cpp:40-53 | the loops fill the reverse table |
| Base32.Base32Encoder.WriteToDevice | Emulator/poco/Foundation/src/Base32Encoder.cpp:51-78 | one more byte of input: a full group is written as eight letters |
| Base32.Base32Encoder.Close | Emulator/poco/Foundation/src/Base32Encoder.cpp:81-164 | the output is the complete encoding of all bytes written, which EncodeSpells pins down to its filler bits, in each of the five residue cases, with or without padding |
| Base32.Base32Decoder.ReadGroup | Emulator/poco/Foundation/src/Base32Decoder.cpp:68-102 | eight characters filled up with padding where the input may end: after two, four, five or seven |
| Base32.Base32Decoder.ReadFromDevice | Emulator/poco/Foundation/src/Base32Decoder.cpp:62-123 | a byte, the end or an exception: always the next one of the input's decoding |
| Base32.TailBytes | Emulator/poco/Foundation/src/Base32Decoder.cpp:104-121 | the first two, four, five or seven characters of a group stand for its first one, two, three or four bytes |
| Base32.RoundTrip | Emulator/poco/Foundation/src/Base32Encoder.cpp:51-164 | decoding the complete output gives back every byte string, padded or not |
| Base32.GroupValue | Emulator/poco/Foundation/src/Base32Decoder.cpp:104-121 | whatever eight valid characters are read, the bytes are the first ones of the number they stand for, as many as the padding says |
| Base32.Malformed | Emulator/poco/Foundation/src/Base32Decoder.cpp:68-102 | a character outside the alphabet is an error, and so is an end of the input after one, three or six characters of a group |
| BinaryStream.FlipReverses | Emulator/poco/Foundation/include/Poco/ByteOrder.h:135-194 | flipping two, four or eight bytes reverses the number's bytes |
| BinaryStream.BinaryWriter.WriteFixed | Emulator/poco/Foundation/src/BinaryWriter.cpp:98-140 | a fixed-size number is written in the stream's byte order on hosts of either order |
| BinaryStream.BinaryWriter.Write7BitEncoded | Emulator/poco/Foundation/src/BinaryWriter.cpp:293-319 | the do-while loop writes seven bits to a byte, lowest first, the top bit set on all but the last |
| BinaryStream.BinaryWriter.WriteString | Emulator/poco/Foundation/src/BinaryWriter.cpp:251-268 | length cut to 32 bits, then that many bytes |
| BinaryStream.BinaryWriter.WriteBOM | Emulator/poco/Foundation/src/BinaryWriter.cpp:337-342 | the byte order mark in the stream's order |
| BinaryStream.BinaryReader.ReadBytes | Emulator/poco/Foundation/src/BinaryReader.cpp:91-98 | as many of the next bytes as there are, none after a failure; the stream stays good exactly if all were there |
| BinaryStream.BinaryReader.ReadFixed | Emulator/poco/Foundation/src/BinaryReader.cpp:91-112 | a fixed-size number is read in the order host and flip flag say, on hosts of either order; where the input ends early the bytes that came overwrite the first ones of the old value |
| BinaryStream.BinaryReader.Read7BitEncoded | Emulator/poco/Foundation/src/BinaryReader.cpp:217-254 | the loop adds up shifted words with wrap-around as the recursive definition does, and stops at the end of the input |
| BinaryStream.BinaryReader.ReadString | Emulator/poco/Foundation/src/BinaryReader.cpp:195-214 | as many bytes as the length says, or what is left of the input, or none if the length itself cannot be read |
| BinaryStream.BinaryReader.ReadBOM | Emulator/poco/Foundation/src/BinaryReader.cpp:279-284 | the flip flag is set exactly if the mark reads differently, also when the input is too short to hold one |
| BinaryStream.PackedBack | Emulator/poco/Foundation/src/BinaryReader.cpp:217-254 | a packed number that fits its word is read back whole and exactly its bytes are consumed |
| BinaryStream.AllBack | Emulator/poco/Foundation/src/BinaryReader.cpp:195-254 | reading the concatenated output with the same types gives back all items, strings cut to their length modulo 2^32, and leaves exactly what follows |
| BinaryStream.RoundTrip | Emulator/poco/Foundation/src/BinaryReader.cpp:195-254 | the items come back unchanged if and only if every string is shorter than 2^32 |
| BinaryStream.MarkSetsOrder | Emulator/poco/Foundation/src/BinaryReader.cpp:279-284 | after the mark a reader of any host and setting reads the writer's byte order |
| BinaryStream.FixedMeans | Emulator/poco/Foundation/src/BinaryWriter.cpp:98-140 | with the big end first the bytes are the number's digits to the base 256; in the other order they are mirrored |
| BinaryStream.FromFixedMeans | Emulator/poco/Foundation/src/BinaryReader.cpp:91-112 | and so they are read |
| BinaryStream.MarkBytes | Emulator/poco/Foundation/src/BinaryWriter.cpp:337-342 | the byte order mark is FE FF with the big end first, else FF FE |
| BinaryStream.PackedMeans | Emulator/poco/Foundation/src/BinaryWriter.cpp:293-319 | a packed number is its digits to the base 128, lowest first, every byte but the last marked, without leading zeros |
| BinaryStream.UnpackMeans | Emulator/poco/Foundation/src/BinaryReader.cpp:217-254 | for any input, well-formed or not, reading takes the bytes up to and with the first unmarked one, and yields their number to the base 128 modulo the word, or fails at the end of the input |

## Left out

- Estimates.Estimate: the product of the leading bit's exponent and 0.3010299956639812 is not rounded to a double here; FormatDragon.FormatDragon takes from its caller, as the original does, that the estimate is not too low.
- FormatDragon.PrintShortest: says what is printed for a closer predecessor only with an even significand; the predecessor is closer only for powers of two.
- Bigints.Bigint.Square: bounds the number of bigits by 2^30, where the 128-bit column sum and the int indices still hold; the inline storage and capacity of the bigit buffer are not modelled.
- Base64.Base64Encoder.SetLineLength: only before the first byte is written, since the output of a changed line length has no closed form worth stating.
- BinaryStream.BinaryReader.Read7BitEncoded: a shift by the word's width or more, undefined in C++ and reachable only with malformed input, contributes nothing here.
- Buffers.PointerBuffer.Out: ends the use of the buffer; what is appended after it is lost in the original, and not promised anything here.
- FormatMeaning.FormatsExactly: does not say which error is reported for a string whose specifications are not of the grammar or do not suit their argument.
- FormatCheck.CheckSound: says nothing of what follows the first field whose argument the checker does not know, since its specifiers are skipped unparsed.
- FormatCheck.CheckComplete: does not say what becomes of the verdict once a fill in ill-formed UTF-8 has led the skipping to another end.
- Dragonbox, its power-of-ten caches and the hexadecimal and locale-dependent output rest on tables and types outside this model.
- Splitting a float into significand, exponent and exponent estimate, and the choice between Dragonbox and `format_dragon`.
- Rendering of a single argument, custom formatters, chrono and wide-character formats, and the template machinery that maps argument types.
- Argument stores report duplicate names when they are built; the theorems with names assume that names are distinct.
- Reallocation of growing memory buffers, stream buffer devices that fail, and text converters in the binary streams.
- Reading UnicodeData.txt and printing the generated tables as C++.
- docopt's text splitting and `match`, which shares and mutates option values.
- The proxy server, its dialog, sockets and threads: thin input and output over libraries that are not part of this model.
