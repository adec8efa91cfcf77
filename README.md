# readable-times in Dafny

A model of readable-times, a small JavaScript library that converts between
a number of milliseconds and a human-readable duration such as
`"1y 2mo 3w 4d 5h 6m 7s 8ms"`. The model covers the following pieces:

- **Unit table** (`Times`). The unit lengths of lib/_times.js: a second
  is 1000 ms, a minute 60 s, an hour 60 min, a day 24 h, a week 7 days, a
  month 30 days and a year 365 days. It also holds the identifiers the
  formatter writes: `y mo w d h m s ms`.
- **Parser** (`Parser`, lib/toMilliseconds.js). It works in these steps:
  - An argument that `Number` can read is returned as is.
  - Any other argument that is not a string throws.
  - A string is trimmed and split on runs of whitespace. Each token is
    lower-cased and cut into a numeric prefix and a unit identifier; `mo`
    and `ms` are told apart from `o` and `s`.
  - The token values are summed. The first bad token throws.
- **Formatter** (`Formatter`, lib/toReadable.js). It is an imperative
  method, `Format`. One guarded block per unit, year down to second, pushes
  `<quotient><identifier>` onto a result list and reduces the remainder. A
  non-zero leftover becomes a millisecond token, and the list is joined
  with single spaces. `Format` is proved equal to a recursive
  specification, `Greedy`. Lemmas prove properties of `Greedy`:
  - the token values add back up to the input;
  - the units come in strictly descending order;
  - every quantity stays within its unit's limit;
  - the output is the unique canonical decomposition.
- **Round trip** (`RoundTrip`). Parsing the formatter's output gives back
  the number, for every integer.
- **Three earlier versions** at the top of the repository, each related to
  the library by lemmas:
  - `LegacyIndex` (index.js) splits on single spaces, matches case variants
    in its switch, has no millisecond unit and returns `null` instead of
    throwing.
  - `LegacyParser` (toMilliseconds.js) trims and lower-cases, tells apart
    only `mo`, and returns `null`.
  - `LegacyFormatter` (toReadable.js) is the library formatter, but it
    returns `null` for a value that is not numeric.

Supporting modules:

- `Strings` models the JavaScript string operations the code relies on:
  - `trim`;
  - `split(' ')`;
  - `split(/\s+/)`;
  - `join(' ')`;
  - ASCII `toLowerCase`;
  - `Number` on strings;
  - `${n}` rendering of integers.
- `Values` models the argument kinds: a number, a string, or any other
  value.
- `Folds` models the two `reduce` folds: one that throws, one that absorbs
  `null`.
- `Tokens` models a token as a quantity and a unit.

Errors the source throws are `Result.Err` values that carry what the
message names. `null` results are `Option.None`.

Where the code and the library's own tests and documentation disagree, the
model follows the code:

- **Option arguments.** The tests pass a separator, custom identifiers and
  an array result to `toReadable` (test/toReadable.specs.js:50-87). The
  code ignores all three.
- **Bad-token message.** The tests expect the message
  `Unexpected value pattern: "..."` for a bad token. The code throws
  `Unexpected value: ... is not a supported value` or
  `... is not a supported time identifier`.
- **Negative numbers.** Both functions accept them. For example, `"-5s"`
  parses to -5000, and -5 is formatted as `"-5ms"`.

## Model

| member | source | states |
|---|---|---|
| Times.UnitValues | lib/_times.js:1-8 | The unit lengths are 1, 1000, 60000, 3600000, 86400000, 604800000, 2592000000 and 31536000000 ms |
| Times.LengthsIncrease | lib/toReadable.js:24-65 | The formatter's block order is strictly descending unit length: a unit comes earlier exactly when it is longer |
| Times.DayMultiples | lib/_times.js:5-8 | Week, month and year are whole days, but a month is not a whole number of weeks and a year not of months, so every block matters |
| Times.SymbolsDistinct | lib/toReadable.js:26-68 | Two units share an identifier only if they are the same unit, so a written token names one unit |
| Strings.LowerChar | lib/toMilliseconds.js:35 | Lower-casing leaves no upper-case letter, keeps digits and whitespace as they are, and changes nothing else |
| Strings.LowerIdempotent | lib/toMilliseconds.js:35 | Lower-casing an already lower-cased token changes nothing |
| Strings.TrimStart | lib/toMilliseconds.js:26 | The result is the longest suffix that does not start with whitespace, and everything dropped is whitespace |
| Strings.TrimEnd | lib/toMilliseconds.js:26 | The result is the longest prefix that does not end in whitespace, and everything dropped is whitespace |
| Strings.TrimMeaning | lib/toMilliseconds.js:26 | `trim` leaves a middle part of the string that neither starts nor ends with whitespace, cutting only whitespace off either side; the result is empty exactly when the string is all whitespace |
| Strings.TrimPadding | lib/toMilliseconds.js:26 | Whitespace added on either side of a string does not change its trimmed form |
| Strings.SplitWhitespace | lib/toMilliseconds.js:26 | The split has at least one piece, and no piece contains whitespace |
| Strings.SplitJoin | lib/toMilliseconds.js:26 | Splitting on whitespace undoes joining non-empty, whitespace-free words with single spaces |
| Strings.SplitRun | lib/toMilliseconds.js:26 | A word followed by a run of whitespace of any length is one piece, and the rest splits on its own |
| Strings.SplitOn | index.js:12 | The split on a character has at least one piece, and no piece contains that character |
| Strings.JoinSplitOn | index.js:12 | Joining the pieces of a split with the same character gives back the original string |
| Strings.SplitOnJoin | index.js:12 | Splitting on a character undoes joining pieces that do not contain it |
| Strings.IntToString | lib/toReadable.js:26 | A rendered integer is non-empty, ends in a digit and contains no whitespace and no upper-case letter |
| Strings.DigitsRoundTrip | lib/toReadable.js:26 | Reading the digits written for a natural number gives back the number |
| Strings.ToNumberOfInt | lib/toMilliseconds.js:42 | `Number` reads back every integer that template rendering writes, sign included |
| Strings.ToNumberNaN | lib/toMilliseconds.js:42-44 | A string that ends in a character that is neither whitespace nor a digit is not a number |
| Strings.ToNumberMeaning | lib/toMilliseconds.js:22 | `Number` reads a blank string as 0, and a string it reads as a number ends, once trimmed, in a digit |
| Strings.ToNumberLower | toMilliseconds.js:15-22 | Lower-casing a token's text does not change the number it reads as |
| Folds.SumOrThrowAll | lib/toMilliseconds.js:27-31 | When every token has a value, the fold returns the start value plus the sum of the token values |
| Folds.SumOrThrowOk | lib/toMilliseconds.js:27-31 | When no token throws, the fold does not throw |
| Folds.SumOrThrowFirstError | lib/toMilliseconds.js:27-31 | The fold throws the error of the first bad token, whatever follows it |
| Folds.SumOrThrowErr | lib/toMilliseconds.js:27-31 | The fold throws exactly when some token throws, and what it throws is the error of one of the tokens |
| Folds.SumOrThrowConcat | lib/toMilliseconds.js:27-31 | Folding two runs of tokens is folding the second from where the first ended, unless the first threw |
| Folds.SumOrThrowShift | lib/toMilliseconds.js:27-31 | The start value only shifts a successful result, and does not change whether or what the fold throws |
| Folds.SumOrNullAbsorbs | index.js:13-17 | Once the running sum is `null` it stays `null` |
| Folds.SumOrNullHasNull | index.js:13-17 | A single token without a value makes the whole sum `null`, wherever it stands |
| Folds.SumOrNullAllValues | index.js:13-17 | When every token has a value the sum is not `null`, and the start value only shifts it |
| Folds.SumOrNullNone | index.js:13-17 | Started from a number, the sum is `null` exactly when some token has no value |
| Folds.SumOrNullSum | index.js:13-17 | When every token has a value, the sum is the start value plus the sum of the token values |
| Folds.NullMatchesThrow | toMilliseconds.js:7-11 | When each token's nullable value mirrors its throwing value, the null-absorbing fold gives `null` exactly when the throwing fold throws, and otherwise the same sum |
| Tokens.Render | lib/toReadable.js:26 | A written token is non-empty, has no whitespace, and ends in neither a digit nor whitespace, so `Number` cannot read it |
| Tokens.TotalIsSum | lib/toReadable.js:24-69 | The value of a token list is the sum of the values of its tokens |
| Tokens.SplitPhrase | lib/toReadable.js:71 | Splitting the joined phrase on whitespace gives back the written tokens one by one |
| Parser.Factor | lib/toMilliseconds.js:36-40 | The identifier is a suffix of the token: two characters exactly when the token ends in "ms" or "mo", one for any other non-empty token |
| Parser.UnitOf | lib/toMilliseconds.js:46-65 | A recognised identifier is the identifier of the unit it names; an unrecognised one is the identifier of no unit |
| Parser.UnitOfSymbol | lib/toMilliseconds.js:46-65 | Every unit's identifier is recognised as that unit |
| Parser.TokenValue | lib/toMilliseconds.js:34-66 | A token never fails with the type error; a value error names the lower-cased token, an identifier error names a text that is no unit's identifier, and a token with a value ends in some unit's identifier |
| Parser.ToMilliseconds | lib/toMilliseconds.js:21-32 | A number is returned as it is; the type error is thrown exactly for an argument that is neither a number nor a string, and it names that argument's type |
| Parser.FailsExactly | lib/toMilliseconds.js:26-31 | A string that is not a number fails exactly when one of its whitespace-separated tokens fails on its own |
| Parser.NumericString | lib/toMilliseconds.js:22 | A string holding an integer is read as that integer |
| Parser.BlankIsZero | lib/toMilliseconds.js:22 | An empty or all-whitespace string is not NaN to `isNaN` and converts to 0, so it returns 0 before any token is split off |
| Parser.FactorOfToken | lib/toMilliseconds.js:36-40 | The identifier found in a written token is the identifier of its unit |
| Parser.TokenOfInt | lib/toMilliseconds.js:34-66 | A token made of an integer and a unit identifier has the integer times the unit length as its value |
| Parser.TokenWithoutNumber | lib/toMilliseconds.js:42 | A bare identifier with no number in front has the value 0 |
| Parser.CaseInsensitive | lib/toMilliseconds.js:35 | A token's value does not depend on the case of its letters |
| Parser.PaddingIgnored | lib/toMilliseconds.js:26 | Leading and trailing whitespace do not change the result |
| Parser.RunsSeparate | lib/toMilliseconds.js:26 | Any run of whitespace between two tokens parses like a single space |
| Parser.TokenOfRender | lib/toMilliseconds.js:34-66 | Every token the formatter writes has its own value in milliseconds |
| Parser.SumRendered | lib/toMilliseconds.js:27-31 | The written tokens sum to the total of the token list |
| Parser.ParsePhrase | lib/toMilliseconds.js:21-32 | Any non-empty list of tokens, written and joined with spaces, parses to its total |
| Parser.FailsAt | lib/toMilliseconds.js:27-31 | A bad token after good ones makes the parse fail with that token's error |
| Parser.FailFast | lib/toMilliseconds.js:27-31 | A bad token between written tokens and any further words fails the whole phrase with that token's error |
| Parser.OneDay | lib/toMilliseconds.js:12-13 | "1d" is 86400000 |
| Parser.AllUnits | lib/toMilliseconds.js:15-16 | "1y 2mo 3w 4d 5h 6m 7s 8ms" is 38898367008 |
| Parser.OneWeek | test/toMilliseconds.specs.js:5-12 | "1w" is a week in milliseconds |
| Parser.YearAndWeek | test/toMilliseconds.specs.js:15-22 | "1y 1w" is a year plus a week |
| Parser.RepeatedTokensAdd | test/toMilliseconds.specs.js:25-32 | Repeated tokens add: "1y 1y 1y 2w 2w 2w" is 3 years plus 6 weeks |
| Parser.NumericStrings | test/toMilliseconds.specs.js:34-51 | "" is 0 and "100" is 100 |
| Parser.FoobarToken | lib/toMilliseconds.js:42-44 | "foobar" fails because its prefix is not a number, and the error names the token |
| Parser.UnknownIdentifierToken | lib/toMilliseconds.js:63-64 | "1f" fails because "f" is not an identifier, and the error names the identifier |
| Parser.FoobarPhrase | test/toMilliseconds.specs.js:74-78 | "1y foobar 2h" fails on "foobar" |
| Parser.UnknownIdentifierPhrase | test/toMilliseconds.specs.js:80-84 | "1y 1f 2h" fails on the identifier "f" |
| Formatter.Format | lib/toReadable.js:20-71 | The phrase the blocks build is the join of the specification's greedy tokens for the input |
| Formatter.Readable | lib/toReadable.js:24-71 | The phrase is empty exactly when the number is 0 |
| Formatter.Take | lib/toReadable.js:24-28 | One block: the words written so far, followed by the greedy tokens still due, stay the final phrase. Below the unit's length nothing changes; otherwise the remainder drops below the unit's length |
| Formatter.ToReadable | lib/toReadable.js:18-20 | A value that is not numeric throws an error that shows it; a numeric one is formatted |
| Formatter.Leftover | lib/toReadable.js:67-69 | After the seconds block, a non-zero remainder is one millisecond token and zero writes nothing |
| Formatter.GreedyTotal | lib/toReadable.js:24-69 | From any block on, the tokens still to be written add up to the remainder |
| Formatter.Conservation | lib/toReadable.js:24-69 | The written tokens add up to the input, for every integer input |
| Formatter.GreedyOrdered | lib/toReadable.js:24-69 | Tokens come in strictly descending unit order |
| Formatter.GreedyPositive | lib/toReadable.js:24-69 | For non-negative input, every written quantity is at least 1 |
| Formatter.GreedyBounded | lib/toReadable.js:24-65 | No token's value reaches the length of the next larger unit |
| Formatter.LimitExact | lib/toReadable.js:24-65 | A quantity stays below the next larger unit exactly when it is at most that unit's limit: 12 months, 4 weeks, 6 days, 23 hours, 59 minutes, 59 seconds, 999 ms |
| Formatter.QuantityLimits | lib/toReadable.js:24-69 | For non-negative input, each quantity is between 1 and its unit's limit, and units strictly descend |
| Formatter.GreedyCanonical | lib/toReadable.js:24-71 | For non-negative input, the tokens form a canonical decomposition |
| Formatter.CanonicalUnique | lib/toReadable.js:24-71 | Every canonical decomposition is the one the formatter writes for its total, so the output is unique |
| Formatter.ZeroIsEmpty | test/toReadable.specs.js:5-12 | 0 is formatted as the empty string |
| Formatter.NegativeIsMilliseconds | lib/toReadable.js:24-69 | A negative input fails every block and is written as a single negative millisecond token |
| Formatter.ExactMultiple | lib/toReadable.js:24-65 | A whole number of one unit, below the next larger unit, is written as that single token |
| Formatter.OneMinute | test/toReadable.specs.js:14-21 | 60000 is "1m" |
| Formatter.TwoYears | test/toReadable.specs.js:23-30 | Two years is "2y" |
| Formatter.AllUnitsReadable | test/toReadable.specs.js:32-39 | 38898367008 is "1y 2mo 3w 4d 5h 6m 7s 8ms" |
| Formatter.NumericStringInput | test/toReadable.specs.js:41-48 | The string "38898367008" is converted to a number and formatted like the number |
| RoundTrip.RoundTrip | lib/toMilliseconds.js:21-32 | Parsing the formatter's output gives back the input, for every integer, negative ones included |
| RoundTrip.ValueRoundTrip | lib/toMilliseconds.js:22 | For any numeric argument, parsing its formatted phrase agrees with parsing the argument itself |
| RoundTrip.CanonicalRoundTrip | lib/toReadable.js:24-71 | A canonical token list, written out, parses to its total, and is exactly what the formatter writes for that total |
| LegacyIndex.SameConstants | index.js:1-7 | index.js's unit constants equal the library's |
| LegacyIndex.Factor | index.js:21-25 | The identifier is the last one or two characters of the token, and at least one for a non-empty token |
| LegacyIndex.FactorCases | index.js:21-25 | The identifier is nothing for the empty token, the last two characters when they are an "m" and an "o" in any case, and otherwise the last character |
| LegacyIndex.ToMilliseconds | index.js:9-11 | A number is returned as it is, and any other value that is not a string is `null` |
| LegacyIndex.NumericString | index.js:10 | The rendering of an integer is returned as that integer |
| LegacyIndex.MultiplierNames | index.js:31-57 | The switch gives a length exactly for an identifier that lower-cases to the identifier of a unit other than the millisecond, and the length is that unit's |
| LegacyIndex.EmptyTokenIsNull | index.js:27-57 | An empty token has no identifier and so has no value |
| LegacyIndex.TokenOfInt | index.js:20-58 | Integer and identifier tokens for every unit but the millisecond read as the library reads them |
| LegacyIndex.NoMilliseconds | index.js:21-34 | A millisecond token has no value: its identifier is "s" and "…m" is not a number |
| LegacyIndex.UnknownLetter | index.js:55-56 | A token whose last letter is no unit's letter in either case has no value |
| LegacyIndex.MonthInAnyCase | index.js:47-51 | "2MO" and "2mO" are two months |
| LegacyIndex.LoneO | index.js:22-24 | A final "o" or "O" not preceded by an "m" or "M" makes the token have no value |
| LegacyIndex.NullAbsorbs | index.js:13-17 | For a non-numeric string, one piece without a value makes the result `null`; when every piece has a value, the result is their sum |
| LegacyIndex.EmptyPieceIsNull | index.js:12-17 | An empty piece from the split makes the whole string `null` |
| LegacyIndex.LeadingSpace | index.js:12 | A leading space gives an empty first piece, so the string is `null` |
| LegacyIndex.TrailingSpace | index.js:12 | A trailing space gives an empty last piece, so the string is `null` |
| LegacyIndex.DoubledSpace | index.js:12 | Two spaces in a row give an empty piece, so the string is `null` |
| LegacyIndex.ParsesSpell | index.js:9-18 | A phrase the formatter writes without a millisecond token parses to its total |
| LegacyIndex.RejectsMilliseconds | index.js:9-18 | A phrase with a millisecond token anywhere is `null` |
| LegacyParser.Factor | toMilliseconds.js:16-20 | The identifier is a suffix of the lower-cased token: two characters exactly when it ends in "mo" |
| LegacyParser.UnitOf | toMilliseconds.js:26-43 | A recognised identifier is the identifier of a unit other than the millisecond; an unrecognised one is no such unit's identifier |
| LegacyParser.ToMilliseconds | toMilliseconds.js:3-5 | A number is returned as it is, and any other value that is not a string is `null` |
| LegacyParser.NumericString | toMilliseconds.js:4 | The rendering of an integer is returned as that integer |
| LegacyParser.TokenValue | toMilliseconds.js:14-44 | A token with a value ends in the identifier of a unit other than the millisecond |
| LegacyParser.TokenAgrees | toMilliseconds.js:14-44 | Every token whose lower-cased form does not end in "ms" has the library's value, with `null` in place of an error |
| LegacyParser.CaseInsensitive | toMilliseconds.js:15 | A token's value does not depend on the case of its letters |
| LegacyParser.NoMilliseconds | toMilliseconds.js:16-24 | A millisecond token has no value |
| LegacyParser.MsIsNull | toMilliseconds.js:16-24 | Every token whose lower-cased form ends in "ms" is `null`: its identifier is "s" and the text before it ends in "m" |
| LegacyParser.TokenOfInt | toMilliseconds.js:14-44 | Integer and identifier tokens for every unit but the millisecond read as integer times unit length |
| LegacyParser.MonthInAnyCase | toMilliseconds.js:15-19 | "2MO" is two months |
| LegacyParser.SameAsIndex | toMilliseconds.js:14-44 | Every token has the same value here as in index.js, whose switch lists the case variants instead of lower-casing; this holds for the modelled `Number` only (see `Infinity` under "## Left out") |
| LegacyParser.PaddingIgnored | toMilliseconds.js:6 | Leading and trailing whitespace do not change the result |
| LegacyParser.RunsSeparate | toMilliseconds.js:6 | Any run of whitespace between two tokens parses like a single space |
| LegacyParser.NullAbsorbs | toMilliseconds.js:7-11 | For a trimmed non-numeric string, one token without a value makes the result `null`; when every token has a value, the result is their sum |
| LegacyParser.AgreesWithLibrary | toMilliseconds.js:3-12 | For any argument without a millisecond token, the result is the library's, with `null` where the library throws |
| LegacyParser.ParsesSpell | toMilliseconds.js:3-12 | A phrase the formatter writes without a millisecond token parses to its total |
| LegacyParser.RejectsMilliseconds | toMilliseconds.js:3-12 | A phrase with a millisecond token anywhere is `null` |
| LegacyFormatter.ToReadableOrNull | toReadable.js:3-56 | A non-numeric value is `null`; a numeric one gives the library formatter's phrase |
| LegacyFormatter.GreedyMilliseconds | toReadable.js:52-54 | For a non-negative input, a millisecond token is written exactly when the input is not a whole number of seconds |
| LegacyFormatter.LegacyRoundTrip | toMilliseconds.js:3-12 | The parser reads back the formatter's phrase exactly for non-negative whole seconds, and gives `null` for every other integer |
| LegacyFormatter.OneMillisecond | toReadable.js:52-54 | 1 is written "1ms", and the parser reads that as `null` |

## Left out

- Fractional and non-finite numbers: arguments and token prefixes are integers. `Number`'s reading of fractions, exponents, hexadecimal, `Infinity`, booleans, `null` and arrays is not modelled. A value `Number` cannot read is `Values.Other`. Because of this, LegacyParser.SameAsIndex does not extend to such prefixes: for "Infinityd", index.js reads the original-case prefix as `Infinity`, while toMilliseconds.js lower-cases it to "infinity", which is NaN, and returns `null`.
- Floating point: integers are unbounded, so results beyond 2^53, where JavaScript loses precision, are exact in the model.
- Strings.LowerChar, Parser.TokenValue, Parser.Factor: strings are sequences of whole characters, and only the ASCII letters A-Z are lower-cased. JavaScript slices UTF-16 code units, and `toLowerCase` also maps letters of other scripts, some of them to two code units. For a token holding such letters, or characters outside the Basic Multilingual Plane, the library's parser may throw a different error or name a different text: "1İ" (U+0130, which lower-cases to two code units) is a value error in JavaScript and an identifier error in the model, and "1K" (U+212A, the Kelvin sign) names "k" in JavaScript and "K" in the model. The earlier parsers return `null` for such tokens either way.
- Error message wording: an error carries the type name, token or identifier that its message names, not the text itself. The `catch` at lib/toMilliseconds.js:29-31 wraps the error in a new `Error`, whose message prefixes the original with "Error: "; the model keeps the same payload (the token or identifier named).
- Option arguments (separator, identifiers, array result): the code takes no options, so there is nothing to model. lib/_identifiers.js is not used by any modelled function.
- The `_times.js` that the root toMilliseconds.js and toReadable.js require is not part of this model. The library's constants from lib/_times.js are used in its place.
- Calling the functions with no argument is the `Values.Other` case with type name "undefined".

## Findings

| source | as written | input that shows it | evidently intended | confidence | as-written member | corrected member |
|---|---|---|---|---|---|---|
| toReadable.js:52-54 | The earlier formatter writes a millisecond token, and the earlier parser beside it has no `ms` case (toMilliseconds.js:26-43), so it cannot read the formatter's output | `toReadable(1)` gives "1ms", which `toMilliseconds` reads as `null`; any count that is not whole seconds fails the same way | Formatting and then parsing gives back the number, as lib/toMilliseconds.js:47-48 makes possible with its `ms` case | not executed | LegacyFormatter.LegacyRoundTrip | RoundTrip.RoundTrip |
