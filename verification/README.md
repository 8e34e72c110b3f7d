# crusty-json in Dafny

crusty-json reads JSON in two stages.

1. The lexer (`src/lexer.rs`) turns the text into a flat list of tokens:
   - the six structural characters;
   - strings, read verbatim up to the next double quote;
   - the literals `true`, `false` and `null`;
   - numbers.
2. The parser (`src/parser.rs`) turns the tokens into a tree of JSON values.
   - It is recursive descent over one shared iterator.
   - The root must be an object or an array.
   - It stops as soon as the root closes.

`parse_json` (`src/utils.rs`) chains the two stages.

Data model: the modules follow the source files.

| Module | Models |
|---|---|
| `Wrappers` | `Option` and `Result` |
| `Lexer` | `JsonToken`, `JsonTokenError` and `lexer` |
| `Float64` | what `str::parse::<f64>` accepts, and the value it denotes |
| `Parser` | `JsonValue`, `JsonParseError`, `parse_value`, `parse_object`, `parse_array` and `parser` |
| `Pipeline` | `parse_json` |

How the code is modelled:

- **Iterators become positions.** `chars()` becomes recursion on the rest of the text. The token iterator becomes a position `pos` that every parsing function takes and returns.
- **The peeked token.** `parse_array` has already pulled the first token of an element when it calls `parse_value`. Here that token is passed as `peeked`, just as the source passes `Some(token)`.

The properties are proved in five modules:

| Module | Proves |
|---|---|
| `LexerProperties` | what each kind of character produces, and that rendering tokens back to text and lexing again gives the same tokens |
| `ParserProperties` | the parser reads nothing outside the span it consumes; everything in that span passed validation; tokens after the root are ignored |
| `ParserErrors` | which error each malformed input produces; a sequence cut short fails with a running-out error; the partial results are kept |
| `Serializer` | a reference printer from values to tokens; the parser reads every printed value back, and every value it produces can be printed |
| `Pipeline` | the text-level round trip through both stages |

`LexerExamples` and `ParserExamples` state every unit test of the two source files as a lemma.

Behaviours of the code that the model keeps:

- **Numbers.** A number is the longest run of `-`, `.` and digits.
  - It must be followed by the end of the input or by `,`, `}` or `]`.
  - A run that reaches the end of the input is emitted as the last token, with no error (src/lexer.rs:137-152; the test at lines 278-287 lexes `360` to one number token).
  - Anything else right after it is an `InvalidToken`, even a space: `[1 ]` fails to lex.
  - Whether the run is a number at all is decided by the parser, through `f64` parsing.
- **Literals.** A literal takes its fixed number of characters (4 for `true` and `null`, 5 for `false`), whatever they are. A misspelling is reported by the parser as `InvalidBooleanValue` or `InvalidNullValue`.
- **Strings.** There are no escapes. A string ends at the first double quote.
- **Duplicate keys.** A later duplicate key replaces the earlier value.

## Model

| member | source | states |
|---|---|---|
| Lexer.EndOfTokenValue | src/lexer.rs:32-39 | exactly `,` `}` `]` end a number, and each yields the delimiter token whose text is that character |
| Lexer.IsNumberChar | src/lexer.rs:25-30 | a number character is never a structural character, a skipped one, a quote or the first letter of a literal, so the lexer's choice of branch does not depend on the order of its match arms |
| Lexer.StructuralToken | src/lexer.rs:48-65 | exactly the six characters `{}[]:,` are one-character tokens; each renders as its character and none carries text |
| Lexer.IsSkipped | src/lexer.rs:153-155 | a skipped character never starts a token and never ends a number run |
| Lexer.SplitString | src/lexer.rs:66-84 | the string payload is everything up to the first closing quote, and it holds no quote; without a closing quote there is none at all |
| Lexer.SplitNumberRun | src/lexer.rs:133-146 | the number run is the longest prefix of number characters |
| Lexer.Capture | src/lexer.rs:85-132 | a literal takes its fixed count of characters, or all that remain when the input is shorter |
| Lexer.Lex | src/lexer.rs:41-163 | every successful lex has the lexer's output shape: tokens well formed; a short literal only last; a number not at the end followed by `,` `}` or `]` |
| Lexer.LexAfter | src/lexer.rs:46-65 | a token pushed before the rest keeps the output shape and comes first |
| Lexer.LexString | src/lexer.rs:66-84 | a lexed string keeps the output shape |
| Lexer.LexLiteral | src/lexer.rs:85-132 | a lexed literal keeps the output shape |
| Lexer.LexNumber | src/lexer.rs:133-152 | a lexed number, with the delimiter that stopped it, keeps the output shape |
| LexerProperties.SplitStringAt | src/lexer.rs:70-77 | the payload before the first quote is split off exactly |
| LexerProperties.SplitNumberRunAt | src/lexer.rs:137-146 | the run of number characters stops at the first other character |
| LexerProperties.StartsNumber | src/lexer.rs:133 | a number character starts the number branch |
| LexerProperties.StartsLiteral | src/lexer.rs:85-132 | `f`, `t` and `n` start the literal branch |
| LexerProperties.StructuralCharacters | src/lexer.rs:48-65 | a structural character yields its token followed by the tokens of the rest |
| LexerProperties.SkippedCharacters | src/lexer.rs:153-155 | spaces, newlines and tabs yield nothing however many there are |
| LexerProperties.UnrecognisedCharacter | src/lexer.rs:156-158 | any other character fails with `InvalidToken` of that character |
| LexerProperties.StringToken | src/lexer.rs:66-84 | a quoted text without inner quotes is one `String` token with its payload verbatim, then the rest |
| LexerProperties.StringTokenThen | src/lexer.rs:66-84 | after a string the lexer goes on with the text after the closing quote |
| LexerProperties.UnterminatedString | src/lexer.rs:79-81 | an opening quote with no closing quote fails with `ExpectedEndOfString` |
| LexerProperties.LiteralCapture | src/lexer.rs:85-132 | a literal of full length becomes one token holding exactly those characters, then the rest |
| LexerProperties.TruncatedLiteral | src/lexer.rs:89-97 | a literal cut short by the end of the input is still one token holding what was there |
| LexerProperties.NumberThenDelimiter | src/lexer.rs:133-152 | a number followed by `,` `}` or `]` yields the number token and the delimiter token |
| LexerProperties.NumberAtEnd | src/lexer.rs:137-148 | a number at the end of the input is the last token |
| LexerProperties.NumberStoppedByOther | src/lexer.rs:143-145 | a number followed by any other character fails with `InvalidToken` of that character |
| LexerProperties.LexRenderedToken | src/lexer.rs:41-163 | the text of a well-formed token that is not a number lexes back to that token, then the tokens of whatever text follows, provided a literal followed by more text has its full length |
| LexerProperties.LexUnlex | src/lexer.rs:41-163 | any token list of the lexer's output shape, rendered to text, lexes back to itself |
| LexerProperties.LexIdempotent | src/lexer.rs:41-163 | lexing the rendered output of a successful lex gives the same tokens again |
| LexerExamples.EmptyInput | src/lexer.rs:170-180 | the empty text has no tokens |
| LexerExamples.CurlyBracketTokens | src/lexer.rs:182-192 | `{}` gives the two braces |
| LexerExamples.SquareBracketTokens | src/lexer.rs:194-204 | `[]` gives the two brackets |
| LexerExamples.NameString | src/lexer.rs:206-216 | `"name"` gives one string token |
| LexerExamples.MissingStringEnd | src/lexer.rs:218-222 | `"name` fails with `ExpectedEndOfString` |
| LexerExamples.LiteralTokens | src/lexer.rs:224-270 | `true`, `false` and `null` each give one literal token |
| LexerExamples.InvalidTrue | src/lexer.rs:236-240 | `truea` fails on the `a` after the four captured letters |
| LexerExamples.InvalidFalse | src/lexer.rs:254-258 | `falseo` fails on the `o` after the five captured letters |
| LexerExamples.InvalidNull | src/lexer.rs:272-276 | `Null` fails on the upper-case `N` |
| LexerExamples.NumberToken | src/lexer.rs:278-288 | `360` gives one number token |
| LexerExamples.InvalidNumber | src/lexer.rs:290-294 | `360f` fails on the `f` |
| LexerExamples.CommaAndColonTokens | src/lexer.rs:296-318 | `,` and `:` each give their token |
| LexerExamples.JsonTokens | src/lexer.rs:320-345 | the test document gives exactly the fifteen expected tokens |
| Float64.LowerAscii | src/parser.rs:58 | lower-casing keeps the length and changes each ASCII upper-case letter to its lower-case form, every other character unchanged |
| Float64.ParseF64 | src/parser.rs:58-65 | a conversion that succeeds had a non-empty text, and an infinity is negative exactly when the text starts with `-` |
| Float64.SplitAtFirst | src/parser.rs:58 | the float text splits at the first occurrence of a separator, and the part before holds none |
| Float64.NatText | src/parser.rs:58 | the decimal text of a natural number is a non-empty digit run that denotes that number |
| Float64.DigitsConvert | src/parser.rs:58-61 | a run of digits converts to the integer it denotes |
| Float64.NegativeDigitsConvert | src/parser.rs:58-61 | a minus sign and digits convert to the negated integer |
| Float64.IntTextRoundTrip | src/parser.rs:58-61 | the decimal text of any integer converts back to that integer |
| Float64.DecimalTextRoundTrip | src/parser.rs:58-61 | the text of any integer over any power of ten, written with a point, converts back to exactly that value |
| Float64.ConvertedTerminating | src/parser.rs:58-61 | every finite value a number text converts to is an integer over a power of ten |
| Float64.NumberTextExamples | src/parser.rs:58-64 | `20` converts to 20.0 and `4-.5` is not a float |
| Parser.ParseValue | src/parser.rs:45-97 | a value that parses uses at least one token and ends within the sequence |
| Parser.ParseObject | src/parser.rs:99-165 | an object that parses is an `Object` and ends after its opening position |
| Parser.ParseMembers | src/parser.rs:105-164 | the object loop succeeds only with an `Object` ending after where it started |
| Parser.ParseArray | src/parser.rs:167-213 | an array that parses is an `Array` and ends after its opening position |
| Parser.ParseElements | src/parser.rs:173-212 | the array loop succeeds only with an `Array` ending after where it started |
| Parser.ParseRoot | src/parser.rs:215-235 | no tokens fail with `NoTokens`; another first token fails with `ExpectedObjectOrArrayAsRoot` of it; a result is an object exactly when the first token is `{` and an array exactly when it is `[` |
| Parser.Parse | src/parser.rs:215-235 | the parser only ever returns an array or an object |
| ParserProperties.ValueAgrees | src/parser.rs:45-97 | a value's parse depends only on the tokens it consumed |
| ParserProperties.MembersAgrees | src/parser.rs:99-165 | an object's parse depends only on the tokens it consumed |
| ParserProperties.ElementsAgrees | src/parser.rs:167-213 | an array's parse depends only on the tokens it consumed |
| ParserProperties.TrailingTokensIgnored | src/parser.rs:215-235 | tokens after the root change nothing, whether appended or cut off |
| ParserProperties.PeekedValue | src/parser.rs:49-52 | pulling the value's token early, as `parse_array` does, gives the same result |
| ParserProperties.ValueConsumed | src/parser.rs:45-97 | every token a value consumed passed validation, and a comma is always followed by the start of a value |
| ParserProperties.MembersConsumed | src/parser.rs:99-165 | every token an object consumed passed validation |
| ParserProperties.ElementsConsumed | src/parser.rs:167-213 | every token an array consumed passed validation |
| ParserProperties.RootConsumed | src/parser.rs:215-235 | in an accepted document no comma comes right before a closing bracket or brace |
| ParserProperties.ElementsStep | src/parser.rs:183-205 | after an element: end of input, a comma, the closer or another token decide the array's outcome |
| ParserProperties.MembersStep | src/parser.rs:135-157 | after a member: end of input, a comma, the closer or another token decide the object's outcome, and the key is stored |
| ParserProperties.MembersContinue | src/parser.rs:136-142 | after a member and a comma the object goes on with the key stored and the comma remembered |
| ParserProperties.ElementsContinue | src/parser.rs:184-190 | after an element and a comma the array goes on with the element appended and the comma remembered |
| ParserErrors.ValueTruncated | src/parser.rs:49-52 | a value cut short fails with an error that says the tokens ran out |
| ParserErrors.MembersTruncated | src/parser.rs:105-164 | an object cut short fails with an error that says the tokens ran out |
| ParserErrors.ElementsTruncated | src/parser.rs:173-212 | an array cut short fails with an error that says the tokens ran out |
| ParserErrors.RootPrefix | src/parser.rs:215-235 | a prefix of an accepted sequence is accepted exactly when it holds the whole root, and then gives the same value; a shorter non-empty prefix fails because the tokens ran out |
| ParserErrors.KeyExpected | src/parser.rs:115-120 | where a member should start, any token other than a key or `}` fails with `ExpectedObjectKey` of that token, after a comma or not |
| ParserErrors.ColonExpected | src/parser.rs:122-129 | a key followed by anything but a colon fails with `ExpectedColonAfterKey` of the token found |
| ParserErrors.KeyAtEnd | src/parser.rs:130-132 | a key as the last token fails with `ExpectedColonAfterKey(None)` |
| ParserErrors.LoopRanOut | src/parser.rs:160-211 | running out of tokens where a member is due fails with `ExpectedEndOfObject`, where an element is due with `ExpectedEndOfArray`, and where a value is due with `InvalidValue(None)` (line 51) |
| ParserErrors.MemberValueFails | src/parser.rs:135 | a member value's error is the object's error |
| ParserErrors.ElementValueFails | src/parser.rs:183 | an element's error is the array's error |
| ParserErrors.CommaBeforeArrayCloser | src/parser.rs:173-191 | inside an array, a comma and then `]` is `TrailingComma`, and a comma and then `}` is an invalid value |
| ParserErrors.CommaBeforeObjectCloser | src/parser.rs:105-142 | inside an object, a comma and then `}` is `TrailingComma`, and a comma and then `]` is a missing key |
| ParserErrors.ScalarValidated | src/parser.rs:54-95 | a scalar token is a value exactly when its text is valid, and otherwise the error carries that text; `:`, `,` and the closers are never values |
| ParserErrors.ElementsKeepOrder | src/parser.rs:184 | elements read earlier stay first and in order in the returned array |
| ParserErrors.MembersKeepKeys | src/parser.rs:115-136 | no key read earlier is lost, and every key of the result was read earlier or appears in the consumed tokens |
| ParserExamples.EmptyTokens | src/parser.rs:246-249 | no tokens fail with `NoTokens` |
| ParserExamples.InvalidRoot | src/parser.rs:252-260 | a string as root fails with `ExpectedObjectOrArrayAsRoot` |
| ParserExamples.MissingObjectClose | src/parser.rs:263-266 | a lone `{` fails with `ExpectedEndOfObject` |
| ParserExamples.MissingArrayClose | src/parser.rs:269-272 | a lone `[` fails with `ExpectedEndOfArray` |
| ParserExamples.MissingObjectKey | src/parser.rs:275-288 | a number where a key belongs fails with `ExpectedObjectKey` of it |
| ParserExamples.MissingColonAfterKey | src/parser.rs:291-301 | a key at the end fails with `ExpectedColonAfterKey(None)` |
| ParserExamples.MissingValueAfterColon | src/parser.rs:304-312 | a colon at the end fails with `InvalidValue(None)` |
| ParserExamples.InvalidValueAfterColon | src/parser.rs:315-329 | a `}` after a colon fails with `InvalidValue` of it |
| ParserExamples.InvalidArrayValue | src/parser.rs:332-341 | a colon as an element fails with `InvalidValue` of it |
| ParserExamples.MissingEndAfterObjectValue | src/parser.rs:344-356 | a member value at the end fails with `ExpectedCommaOrEndOfObject(None)` |
| ParserExamples.MissingEndAfterArrayValue | src/parser.rs:359-369 | an element at the end fails with `ExpectedCommaOrEndOfArray(None)` |
| ParserExamples.InvalidNumber | src/parser.rs:372-384 | the number text `4-.5` fails with `InvalidNumberValue` |
| ParserExamples.InvalidTrue | src/parser.rs:387-399 | `trua` fails with `InvalidBooleanValue` |
| ParserExamples.InvalidFalse | src/parser.rs:402-414 | `falso` fails with `InvalidBooleanValue` |
| ParserExamples.InvalidNull | src/parser.rs:417-429 | `nulo` fails with `InvalidNullValue` |
| ParserExamples.TrailingCommaInArray | src/parser.rs:432-441 | `[null,]` fails with `TrailingComma` |
| ParserExamples.TrailingCommaInObject | src/parser.rs:444-455 | `{"name":"fulano",}` fails with `TrailingComma` |
| ParserExamples.DocumentParses | src/parser.rs:458-494 | the test document's tokens parse to the expected array holding the object, `true` and `false` |
| Serializer.NumberTextRoundTrip | src/parser.rs:58-61 | the printer's text for any terminating decimal, infinity or not-a-number converts back to it |
| Serializer.ValueRoundTrip | src/parser.rs:45-97 | the parser reads any printed value back whole, wherever it sits |
| Serializer.ArrayRoundTrip | src/parser.rs:167-213 | a printed array is read back whole |
| Serializer.ObjectRoundTrip | src/parser.rs:99-165 | a printed object is read back whole |
| Serializer.ElementsRoundTrip | src/parser.rs:173-206 | printed elements are appended in order and the array closes after them |
| Serializer.MembersRoundTrip | src/parser.rs:105-158 | printed members are all stored and the object closes after them |
| Serializer.RootRoundTrip | src/parser.rs:215-235 | a printed array or object parses back to itself, whatever follows it |
| Serializer.ParsedPrintable | src/parser.rs:45-97 | every value the parser produces is printable: its finite numbers are terminating decimals |
| Serializer.MembersPrintable | src/parser.rs:99-165 | an object the parser produces from printable members read so far is printable |
| Serializer.ElementsPrintable | src/parser.rs:167-213 | an array the parser produces from printable elements read so far is printable |
| Serializer.ReparseRoundTrip | src/parser.rs:215-235 | printing any parsed document and parsing the printed tokens gives the same document |
| Serializer.DuplicateKeyOverwrites | src/parser.rs:136 | an object holding the same key twice, with any two values, parses to the second value alone under that key |
| Pipeline.ParseJson | src/utils.rs:6-10 | a result carries the lexer's tokens and the parser's value; a lex error is returned as is, and a parse error only after a successful lex |
| Pipeline.BlankText | src/utils.rs:6-10 | text of only spaces, newlines and tabs fails with `NoTokens` |
| Pipeline.LeadingBlanks | src/lexer.rs:153-155 | blanks before a document change nothing |
| Pipeline.DocumentEndToEnd | src/lexer.rs:320-345 | the test document goes through both stages to the expected tokens and value |
| Pipeline.TextRoundTrip | src/utils.rs:6-10 | printing a lexable array or object as text and running both stages gives back the printed tokens and the value; lexable means finite terminating-decimal numbers and no double quote in any string or key |
| Pipeline.SerializeClean | src/lexer.rs:41-163 | printed tokens of a lexable value have the shape the lexer produces |

## Left out

- `src/main.rs` is not part of this model. It handles command-line arguments, reads files and fetches URLs, which are I/O.
- `parse_json_and_print` in `src/utils.rs` is left out. It only prints to the console.
- `parse_json` also wraps errors in `anyhow`. `Pipeline.ParseJson` keeps which stage failed instead.
- The `Display` messages of both error enums are left out. They are text formatting with no logic.
- **Float rounding.** A number is kept as its exact decimal value, not rounded to the nearest `f64`. Overflow to infinity, underflow to zero, the sign of zero and the fact that `NaN` is not equal to itself are not modelled.
- Float64.ParseF64: is stated for the grammar Rust documents for `f64::from_str`. Its lemmas cover integer texts, decimal texts with a point, their negations, the rejected text of the unit tests, and the fact that every finite result is a terminating decimal; texts with an exponent are modelled but no lemma characterises them one by one.
- Serializer.ValueRoundTrip: requires a printable value, whose finite numbers are terminating decimals. That is every value the parser produces (`Serializer.ParsedPrintable`), but not every value of the type: a finite number such as one third has no decimal text.
- Serializer.ArrayRoundTrip: requires a printable value, whose finite numbers are terminating decimals. That is every value the parser produces (`Serializer.ParsedPrintable`), but not every value of the type: a finite number such as one third has no decimal text.
- Serializer.ObjectRoundTrip: requires a printable value, whose finite numbers are terminating decimals. That is every value the parser produces (`Serializer.ParsedPrintable`), but not every value of the type: a finite number such as one third has no decimal text.
- Serializer.ElementsRoundTrip: requires a printable value, whose finite numbers are terminating decimals. That is every value the parser produces (`Serializer.ParsedPrintable`), but not every value of the type: a finite number such as one third has no decimal text.
- Serializer.MembersRoundTrip: requires a printable value, whose finite numbers are terminating decimals. That is every value the parser produces (`Serializer.ParsedPrintable`), but not every value of the type: a finite number such as one third has no decimal text.
- Serializer.RootRoundTrip: requires a printable value, whose finite numbers are terminating decimals. That is every value the parser produces (`Serializer.ParsedPrintable`), but not every value of the type: a finite number such as one third has no decimal text.
- **Key order.** Objects are maps, so the unspecified iteration order of `HashMap` does not appear. The printer in `Serializer` picks any key first.
- **Recursion depth.** The source can overflow the stack on deeply nested input. The model has no stack limit.
- **Test names.** Two parser tests have swapped names. `test_trailing_comma_in_object` uses array tokens and `test_trailing_comma_in_array` uses object tokens. The lemmas are named by their content.
