# Elbonian–Arabic converter in Dafny

This project models `ElbonianArabicConverter`, a Java class that converts between decimal ("Arabic") numbers and Elbonian numerals, and proves properties of the model.

Elbonian numerals are written with eight symbols. Their weights are N = 3000, M = 1000, D = 300, C = 100, Y = 30, X = 10, J = 3 and I = 1. N, D, Y and J may appear at most three times; M, C, X and I at most twice. Within each place pair (N,M), (D,C), (Y,X) and (J,I), three of the larger symbol exclude the smaller one. Every value from 1 to 9999 therefore has exactly one numeral written in canonical order.

The class has four parts, and each is modelled in the form the Java takes:

- **Construction.** The constructor trims its argument. It rejects the argument as malformed when the trimmed text is empty or holds a space. It parses the *untrimmed* text with `Integer.parseInt` and rejects a parsed value outside 1..9999 as out of bounds. When the text does not parse, it runs the validator and drops its verdict. It stores the untrimmed text in a final field.
  - A Dafny constructor cannot fail, so construction is the static method `Create`. It returns a `Result` whose two error variants are the two exceptions the class declares.
  - `Construct` is the pure specification of what construction does.
- **Validator** `isElbonian`. A loop counts the eight symbols and stops at the first other character. It then checks the limits and the place pairs.
- **Decoder** `toArabic`. It returns the parsed integer when the validator rejects the text. Otherwise it counts the symbols and forms the weighted sum.
- **Encoder** `toElbonian`. It returns the text unchanged when the validator accepts it. Otherwise it runs eight loops, N down to I, subtracting weights and appending symbols.

The modules:

- `JavaLang` (java_lang.dfy) models the pieces of the Java platform the class uses:
  - `String.trim`;
  - `Integer.parseInt` in radix 10: ASCII digits, an optional sign, and the 32-bit range;
  - the decimal text of a number.
- `Numerals` (numerals.dfy) holds the symbol table and the specification functions:
  - `Count`; `Tally`, the decoder's sum; `Value`, the character-by-character value;
  - the validator's rule `ValidElbonian`, and the intended canonical order `Ordered`;
  - the greedy encoder `Encode`;
  - the lemmas about them.
- `Converter` (converter.dfy) holds:
  - the class `ElbonianArabicConverter`, whose methods keep the Java loops;
  - the specification functions `Construct`, `ArabicOf` and `ElbonianOf`;
  - the lemmas that relate construction and the two conversions.

Each method is proved against a specification function:
- `IsElbonian` against `ValidElbonian`;
- `Decode` against `Tally`;
- `Spell` against `Encode`;
- `ToArabic` and `ToElbonian` against `ArabicOf` and `ElbonianOf`.

Those functions are in turn related by lemmas:
- `Tally` agrees with `Value`.
- `Encode` of v decodes back to v.
- `Encode` of 1..9999 passes the validator and is in canonical order.
- A valid numeral in canonical order is the encoding of its value.

**Where the code differs from its documentation, the model follows the code:**

- The constructor's Javadoc (ElbonianArabicConverter.java:18-30) says an Elbonian argument must be a valid numeral. The code drops the validator's verdict (:42). So "MMM" or "ABC" is stored, and the conversions then fail with `NumberFormatException`.
- The Javadoc says leading and trailing spaces are allowed. Only the empty and space checks use the trimmed text. The number is parsed and stored untrimmed (:40, :46). So " 99 " is stored, and both conversions then fail.
- The ordering conditions in `isElbonian` (:200-220) compare `String` objects with `==`, which is reference equality, so they never hold.
  - The validator looks only at counts. "IX" is accepted, and it is worth 11.
  - The intended order is stated separately as `Ordered`. It is used only in the lemmas.
- `isElbonian("")` is true. Construction rejects the empty text before the validator runs.

## Model

| member | source | states |
|---|---|---|
| JavaLang.TrimStart | src/converter/ElbonianArabicConverter.java:35 | the result is a suffix of the input, everything it drops is a blank (≤ U+0020), and it does not start with a blank |
| JavaLang.TrimEnd | src/converter/ElbonianArabicConverter.java:35 | the result is a prefix of the input, everything it drops is a blank, and it does not end with a blank |
| JavaLang.Trim | src/converter/ElbonianArabicConverter.java:35 | the trimmed text is no longer than the input; if non-empty, it starts and ends with a non-blank; text whose ends are already non-blank is unchanged |
| JavaLang.TrimEmpty | src/converter/ElbonianArabicConverter.java:35-36 | trimming leaves the empty text exactly when every character is a blank (both directions) |
| JavaLang.ParseInt | src/converter/ElbonianArabicConverter.java:236 | a parsed value lies in the 32-bit range; parsed text is non-empty, starts with a sign or digit, is digits after that, and ends with a digit (a bare sign does not parse) |
| JavaLang.ParseDigits | src/converter/ElbonianArabicConverter.java:236 | any non-empty run of ASCII digits whose value fits in an `int` parses to that value, leading zeros included |
| JavaLang.ParseLeadingZeros | src/converter/ElbonianArabicConverter.java:236 | "0042" parses to 42 |
| JavaLang.ParseDecimalText | src/converter/ElbonianArabicConverter.java:236 | `Integer.parseInt` reads back the decimal text of every non-negative `int` |
| Numerals.Tally | src/converter/ElbonianArabicConverter.java:100-107 | definition: the decoder's sum, each symbol's count times its weight, in Java's order |
| Numerals.ValidElbonian | src/converter/ElbonianArabicConverter.java:161-233 | definition: the validator's verdict with the inert ordering conditions dropped; true exactly when every character is a symbol, N, D, Y and J occur at most three times, M, C, X and I at most twice, and no place pair has three of its larger symbol with any of its smaller |
| Numerals.Greedy | src/converter/ElbonianArabicConverter.java:124-155 | definition: the encoder loops from rank k on; take the symbol of rank k while its weight fits, then move to the next rank |
| Numerals.Encode | src/converter/ElbonianArabicConverter.java:124-155 | definition: all eight encoder loops, N down to I |
| Numerals.TallyIsValue | src/converter/ElbonianArabicConverter.java:100-107 | the decoder's weighted sum of counts equals the value read symbol by symbol |
| Numerals.TallyRange | src/converter/ElbonianArabicConverter.java:224-232 | a numeral the validator accepts is worth 0..9999, and at least 1 when non-empty |
| Numerals.GreedyInAlphabet | src/converter/ElbonianArabicConverter.java:124-155 | the encoder emits only Elbonian symbols, none ranked above the loop it starts from |
| Numerals.GreedyOrdered | src/converter/ElbonianArabicConverter.java:124-155 | the encoder's output is in canonical order N, M, D, C, Y, X, J, I |
| Numerals.GreedyValue | src/converter/ElbonianArabicConverter.java:124-155 | what the encoder emits from a loop on is worth exactly the value left at that loop |
| Numerals.GreedyRun | src/converter/ElbonianArabicConverter.java:124-127 | one encoder loop takes q symbols from q·weight + r when r is below the weight, then hands r to the next loop |
| Numerals.EncodeDecodes | src/converter/ElbonianArabicConverter.java:122-156 | round trip: the decoder's sum of the encoder's output for any v ≥ 0 is v |
| Numerals.EncodeDigits | src/converter/ElbonianArabicConverter.java:124-155 | the encoder spells a four-digit number place by place: digit d of a place becomes d/3 of the larger symbol and d%3 of the smaller |
| Numerals.EncodeValid | src/converter/ElbonianArabicConverter.java:224-232 | for every v in 1..9999 the encoder's output is non-empty, in canonical order, and accepted by the validator |
| Numerals.CanonicalUnique | src/converter/ElbonianArabicConverter.java:124-155 | a numeral the validator accepts that is in canonical order is exactly the encoder's output for its value |
| Numerals.OrderNotChecked | src/converter/ElbonianArabicConverter.java:200-220 | the validator's rule accepts "IX", which is out of canonical order |
| Converter.InBounds | src/converter/ElbonianArabicConverter.java:237 | definition: the bounds test of `isArabic`, strictly between 0 and 10000 |
| Converter.Construct | src/converter/ElbonianArabicConverter.java:31-47 | malformed exactly when the trimmed text is empty or holds a space; out of bounds exactly when it is not malformed and the untrimmed text parses outside 1..9999; otherwise accepted and stored verbatim |
| Converter.ArabicOf | src/converter/ElbonianArabicConverter.java:56-110 | a numeral the validator accepts yields its value; otherwise the parsed integer; only a `NumberFormatException` can escape |
| Converter.ElbonianOf | src/converter/ElbonianArabicConverter.java:118-159 | an accepted text is returned unchanged; otherwise the greedy numeral of the parsed integer; succeeds exactly when `toArabic` does; a result for a non-negative input decodes to the same value; only a `NumberFormatException` can escape |
| Converter.ElbonianArabicConverter.constructor | src/converter/ElbonianArabicConverter.java:46 | the field holds the argument, which passed construction |
| Converter.ElbonianArabicConverter.Create | src/converter/ElbonianArabicConverter.java:31-47 | succeeds exactly when `Construct` accepts the text, with a fresh converter holding it verbatim; otherwise returns the error `Construct` names |
| Converter.ElbonianArabicConverter.IllegalSpace | src/converter/ElbonianArabicConverter.java:247-253 | reports a space exactly when the text contains ' ' |
| Converter.ElbonianArabicConverter.IsElbonian | src/converter/ElbonianArabicConverter.java:161-233 | the counting loop and the three checks return exactly `ValidElbonian`: only symbols, within the limits, place pairs respected |
| Converter.ElbonianArabicConverter.ToArabic | src/converter/ElbonianArabicConverter.java:56-110 | returns `ArabicOf` of the stored text; a success lies in 1..9999; a failure means the text is neither a numeral nor an integer |
| Converter.ElbonianArabicConverter.Decode | src/converter/ElbonianArabicConverter.java:60-108 | the counting loop, which skips other characters, and the sums in Java order compute the weighted count sum |
| Converter.ElbonianArabicConverter.ToElbonian | src/converter/ElbonianArabicConverter.java:118-159 | returns `ElbonianOf` of the stored text; a success is a non-empty numeral the validator accepts, worth what `toArabic` returns |
| Converter.ElbonianArabicConverter.Spell | src/converter/ElbonianArabicConverter.java:122-156 | the eight loops build exactly the greedy numeral |
| Converter.ElbonianArabicConverter.AppendRun | src/converter/ElbonianArabicConverter.java:124-127 | one loop leaves less than its weight, and what it appended plus the later loops' output is the greedy numeral from that loop on |
| Converter.ConstructAcceptsSymbols | src/converter/ElbonianArabicConverter.java:38-43 | any non-empty text of Elbonian symbols is accepted, valid or not |
| Converter.ConstructAcceptsDecimal | src/converter/ElbonianArabicConverter.java:235-241 | the decimal text of 1..9999 is accepted, parses to its value, and is not a numeral |
| Converter.ConstructRejectsOutOfBounds | src/converter/ElbonianArabicConverter.java:235-241 | the decimal text of 0 or of 10000..2³¹-1 is refused as out of bounds |
| Converter.SignedDecimal | src/converter/ElbonianArabicConverter.java:235-241 | "+" before the decimal text of 1..9999 is accepted and read as the value; "-" before it is out of bounds |
| Converter.OverflowAccepted | src/converter/ElbonianArabicConverter.java:38-43 | digits beyond the `int` range do not parse, so they are accepted, and both conversions then fail |
| Converter.EmptyText | src/converter/ElbonianArabicConverter.java:35-36 | the validator accepts "", but construction refuses it as malformed |
| Converter.PaddedDecimalUnusable | src/converter/ElbonianArabicConverter.java:35-46 | a blank before a decimal number is accepted, and both conversions then fail |
| Converter.VerdictIgnored | src/converter/ElbonianArabicConverter.java:42 | "MMM" fails the validator yet is stored, and both conversions then fail |
| Converter.ConversionsAgree | src/converter/ElbonianArabicConverter.java:56-159 | on a stored text, the two conversions succeed together; they fail exactly when the text is neither a numeral nor an integer; a success is in 1..9999, and the Elbonian result is a valid numeral that converts back to the same value |
| Converter.ArabicRoundTrip | src/converter/ElbonianArabicConverter.java:118-156 | for v in 1..9999, decimal text converts to the greedy numeral, which is accepted and converts back to v |
| Converter.CanonicalRoundTrip | src/converter/ElbonianArabicConverter.java:56-159 | a valid numeral in canonical order converts to a value in 1..9999 whose decimal text converts back to the same numeral |
| Converter.ElbonianIdempotent | src/converter/ElbonianArabicConverter.java:119-120 | converting a result of `toElbonian` again returns it unchanged |
| Converter.OutOfOrderKept | src/converter/ElbonianArabicConverter.java:200-220 | "IX" is accepted, converts to 11 and to itself, and is the encoder's output for no integer |
| Converter.DecoderSampleTwo | src/converter/tests/ConverterTests.java:14-18 | "II" converts to 2 |
| Converter.DecoderSampleMixed | src/converter/tests/ConverterTests.java:118-121 | "NI" converts to 3001 |
| Converter.InteriorSpaceRejected | src/converter/ElbonianArabicConverter.java:247-253 | a space between non-blank ends ("9 9", "I I") makes the text malformed |

## Left out

- Trim: the contract gives the ends of the result and the fixed point; that the result is the middle part of the input is stated by `TrimStart` and `TrimEnd`, of which it is the composition.
- ParseInt: only ASCII digits are read; `Integer.parseInt` also accepts the other Unicode decimal digits, which this model treats as non-digits.
- Exceptions are the `Exception` variants of a `Result`. Their message texts and the way they propagate are not modelled.
- Java's `String ==` compares references. Only its outcome is modelled: the ordering conditions never hold. Heap identity and interning are not modelled.
- Characters are Unicode scalar values. Surrogate code units are not modelled. They would behave as any other character that is not a symbol, a digit or a blank, and no outcome of the converter depends on a string's length.
- Java `int` overflow is not modelled in the sums and loops. The decoder's sum is at most 9999 for text the validator accepts, and the encoder only subtracts from a parsed `int`.
- The cost of repeated string concatenation in the encoder is not modelled.
- Most JUnit samples (src/converter/tests/ConverterTests.java:14-122) are not restated one by one. The general lemmas cover them: `TallyIsValue` and `ArabicOf` cover the decoder samples; `EncodeDigits` and `ArabicRoundTrip` cover the encoder samples; `ConstructRejectsOutOfBounds` covers "0"; `InteriorSpaceRejected` covers "9 9" and "I I"; `TrimEmpty` and `Construct` cover the blank text. The tests at :124-132 exercise no converter behaviour.
