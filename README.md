# Roman numeral converter

A Dafny model of the converter behind the Roman numeral service. It converts
one integer, or every integer of an inclusive range, to classical subtractive
Roman notation. The model has four modules:

- `JavaInteger` (`java_integer.dfy`) models Java's 32-bit `int` and the two
  `java.lang.Integer` conversions the response type depends on.
  `Integer.toString` is `ToString` and `Integer.parseInt` is `ParseInt`.
  A `NumberFormatException` is modelled as `None`.
- `Responses` (`responses.dfy`) holds the mutable `RomanNumeralResponse`
  class. It keeps an input as decimal text and its numeral as the output. The
  constructor goes through the two setters, as the source's does. The getters
  `GetInput` and `GetOutput` are plain reads of the fields.
- `Roman` (`roman.dfy`) holds the following:
  - the supported bounds `MinSupported = 1` and `MaxSupported = 3999`;
  - the 13-entry value/symbol table;
  - the two validations (`ValidateInput`, `ValidateRange`);
  - the imperative greedy encoder `IntegerToRoman`, a nested `for`/`while`
    loop appending to a string;
  - `Convert` and `RangeConvert`.

  A refusal (`InvalidInputException` in the source) is the `Err` case of a
  `Result`. Its payload says which check failed. The encoder is proved
  against `Greedy`, a recursive function of the scan that gives the table
  entries it appends. It is also proved against `Decode`, an independent
  reader of numerals by the subtractive rule.
- `RomanProperties` (`roman_properties.dfy`) holds what the scan guarantees:
  - the round trip through `Decode`, and injectivity;
  - the output alphabet and order;
  - that the scan writes the thousands as repeated M and then one table
    digit per decimal digit, so it agrees with `Classical`, a digit-table
    reference notation;
  - the per-entry repeat bounds;
  - the expected values of the converter's unit tests.

## Model

| member | source | states |
|---|---|---|
| JavaInteger.ToString | src/main/java/com/adobe/responses/RomanNumeralResponse.java:24 | `Integer.toString` yields a non-empty text that starts with `-` exactly when the value is negative |
| JavaInteger.ParseInt | src/main/java/com/adobe/roman/RomanNumeralConverter.java:60 | `Integer.parseInt` accepts a text only if it is non-empty, and a negative result only if the text starts with `-` |
| JavaInteger.ParseToStringRoundTrip | src/main/java/com/adobe/responses/RomanNumeralResponse.java:19-25 | parsing the stored decimal text of any `int` gives that `int` back |
| JavaInteger.DigitsRoundTrip | src/main/java/com/adobe/responses/RomanNumeralResponse.java:24 | the decimal digits of a natural number read back to that number |
| Responses.RomanNumeralResponse.constructor | src/main/java/com/adobe/responses/RomanNumeralResponse.java:14-17 | stores the decimal text of the input and the output verbatim; the stored input parses back to the input |
| Responses.RomanNumeralResponse.SetInput | src/main/java/com/adobe/responses/RomanNumeralResponse.java:19-25 | replaces the input by the decimal text of `n`, which `getInput` then returns and which parses back to `n`; the output is unchanged |
| Responses.RomanNumeralResponse.SetOutput | src/main/java/com/adobe/responses/RomanNumeralResponse.java:27-33 | `getOutput` then returns the value set; the input is unchanged |
| Roman.ValidateInput | src/main/java/com/adobe/roman/RomanNumeralConverter.java:92-102 | passes exactly when `MIN <= n <= MAX`; otherwise fails with the out-of-range error |
| Roman.ValidateRange | src/main/java/com/adobe/roman/RomanNumeralConverter.java:111-123 | passes exactly when both bounds are supported and `min <= max`; fails out-of-range exactly when a bound is unsupported (checked first); fails min-above-max exactly when both are supported and `min > max` |
| Roman.IntegerToRoman | src/main/java/com/adobe/roman/RomanNumeralConverter.java:70-84 | the nested scan writes the greedy numeral of `n`, and that numeral reads back to `n` by the subtractive rule |
| Roman.TakeEntry | src/main/java/com/adobe/roman/RomanNumeralConverter.java:77-80 | one inner-loop step keeps the invariant: the original input is the remainder plus the values appended, and the scan continues as the greedy choice |
| Roman.GreedyInTableOrder | src/main/java/com/adobe/roman/RomanNumeralConverter.java:76-80 | the scan appends entries in table order only and never returns to an earlier entry |
| Roman.SymbolDecodes | src/main/java/com/adobe/roman/RomanNumeralConverter.java:18-23 | every table symbol is one or two letters, and read by the subtractive rule it is worth its paired value |
| Roman.SymbolsChain | src/main/java/com/adobe/roman/RomanNumeralConverter.java:18-23 | a later table symbol never starts with a letter larger than the one an earlier symbol ends with |
| Roman.DecodeSpell | src/main/java/com/adobe/roman/RomanNumeralConverter.java:18-23 | table symbols concatenated in table order read back to the sum of their values |
| Roman.Convert | src/main/java/com/adobe/roman/RomanNumeralConverter.java:33-37 | refused, with the out-of-range error, exactly when `n < MIN` or `n > MAX`; otherwise the greedy numeral of `n`, which reads back to `n` |
| Roman.ConsecutiveInputsAscend | src/main/java/com/adobe/roman/RomanNumeralConverter.java:58-60 | responses holding the decimal texts of consecutive integers all parse, and strictly ascend by parsed value |
| Roman.ConvertEach | src/main/java/com/adobe/roman/RomanNumeralConverter.java:55-61 | one fresh response per integer of `[first, last]`; entry `i` holds `first + i` and its numeral; the list strictly ascends by parsed input |
| Roman.RangeConvert | src/main/java/com/adobe/roman/RomanNumeralConverter.java:49-62 | refused exactly when a bound is unsupported or `min > max`, with `validateRange`'s error and no list; otherwise `max - min + 1` fresh responses, entry `i` holding `min + i` and its numeral, strictly ascending by parsed input |
| RomanProperties.GreedySum | src/main/java/com/adobe/roman/RomanNumeralConverter.java:18-20 | the appended values sum to the input: the scan ends with nothing left because the last entry is worth 1 |
| RomanProperties.NumeralRoundTrip | src/main/java/com/adobe/roman/RomanNumeralConverter.java:70-84 | every numeral reads back to its input by the subtractive rule |
| RomanProperties.NumeralInjective | src/main/java/com/adobe/roman/RomanNumeralConverter.java:70-84 | different inputs get different numerals |
| RomanProperties.NumeralLetters | src/main/java/com/adobe/roman/RomanNumeralConverter.java:21-23 | a numeral uses only the letters M, D, C, L, X, V and I |
| RomanProperties.NumeralShape | src/main/java/com/adobe/roman/RomanNumeralConverter.java:76-80 | a numeral is table symbols concatenated by non-increasing value |
| RomanProperties.TakeRepeatedly | src/main/java/com/adobe/roman/RomanNumeralConverter.java:77-80 | while an entry fits, the inner loop appends it as many times as it fits, then moves on with the rest |
| RomanProperties.NumeralByDigits | src/main/java/com/adobe/roman/RomanNumeralConverter.java:76-80 | the scan appends M once per thousand, then the entries of the hundreds, tens and units digits |
| RomanProperties.NumeralIsClassical | src/main/java/com/adobe/roman/RomanNumeralConverter.java:11-23 | the numeral equals the classical digit-by-digit notation: repeated M, then a fixed spelling per decimal digit |
| RomanProperties.DigitRepeats | src/main/java/com/adobe/roman/RomanNumeralConverter.java:76-80 | one decimal digit appends its decade's unit at most three times and each other entry of that decade at most once |
| RomanProperties.EntryRepeatBounds | src/main/java/com/adobe/roman/RomanNumeralConverter.java:76-80 | for inputs up to MAX, M, C, X and I are appended at most three times; D, L, V and the two-letter entries at most once |
| RomanProperties.ConvertExamples | src/test/java/com/adobe/roman/RomanNumeralConverterTest.java:15-21 | 8, 39, 789, 1009 and 2024 convert to VIII, XXXIX, DCCLXXXIX, MIX and MMXXIV |
| RomanProperties.ConvertBoundaryExamples | src/test/java/com/adobe/roman/RomanNumeralConverterTest.java:24-27 | MIN converts to I and MAX to MMMCMXCIX |
| RomanProperties.RangeOneToTenExample | src/test/java/com/adobe/roman/RomanNumeralConverterTest.java:41-56 | 1 to 10 convert to I, II, III, IV, V, VI, VII, VIII, IX, X |
| RomanProperties.RangeRefusalExamples | src/test/java/com/adobe/roman/RomanNumeralConverterTest.java:29-66 | the ranges (-1, 10) and (1, 10000) are refused as out of range, (20, 10) as min above max; MIN - 1 and MAX + 1 are refused singly |

## Left out

- The parallel stream and its sort (RomanNumeralConverter.java:56-60) are modelled as a sequential loop in input order (`ConvertEach`). No sort runs. Instead, the list is proved strictly ascending by the parsed input, so sorting it by that key would leave it unchanged.
- `ConvertEach` is a loop because every response is a freshly allocated object. The source builds the same list with a stream pipeline.
- Logging through slf4j is a side effect only. It is not modelled.
- The exact message text of the exceptions is not modelled. The error value records which check failed: `OutOfSupportedRange`, or `MinAboveMax` with both bounds.
- `Constants` is not part of this model. `MinSupported = 1` and `MaxSupported = 3999` are the values the tests and the service documentation fix.
- `InvalidInputException` is the `Err` case of the result. The controller, `RangeRomanNumeralResponse` and `ErrorResponse` belong to the web layer and are not modelled.
- ParseInt: accepts ASCII digits only. Java's `Integer.parseInt` also accepts other Unicode decimal digits. The model never stores such text.
- IntegerToRoman: takes a non-negative input. The source's private method is only reached with validated inputs, in 1 to 3999. For a negative `int` it would return the empty string.
