/** The second stage: a recursive-descent parser over the token sequence
    (src/parser.rs). The source shares one forward-only iterator among
    `parse_value`, `parse_object` and `parse_array`; here the iterator is the
    position `pos` of the next unread token, and every routine returns the
    position it leaves the iterator at. */
module Parser {
  import opened Wrappers
  import opened Float64
  import Lexer

  type Token = Lexer.Token

  /** A parsed JSON value. Objects map keys to values; a later duplicate key
      replaces the earlier one. */
  datatype JsonValue =
    | String(text: string)
    | Number(number: Float)
    | Boolean(truth: bool)
    | Null
    | Array(elements: seq<JsonValue>)
    | Object(members: map<string, JsonValue>)

  datatype ParseError =
    | NoTokens
    | ExpectedObjectOrArrayAsRoot(token: Token)
    | ExpectedEndOfObject
    | ExpectedEndOfArray
    | ExpectedObjectKey(token: Token)
    | ExpectedColonAfterKey(found: Option<Token>)
    | ExpectedCommaOrEndOfObject(found: Option<Token>)
    | ExpectedCommaOrEndOfArray(found: Option<Token>)
    | InvalidValue(found: Option<Token>)
    | InvalidNumberValue(text: string)
    | InvalidBooleanValue(text: string)
    | InvalidNullValue(text: string)
    | TrailingComma

  /** A value and the position of the first token after it. */
  type Parsed = Result<(JsonValue, nat), ParseError>

  /** One value: the already pulled `peeked` token if there is one, else the
      token at `pos`. Scalars are validated here; brackets recurse. */
  function ParseValue(ts: seq<Token>, pos: nat, peeked: Option<Token>): (r: Parsed)
    requires pos <= |ts|
    ensures r.Success? ==> r.value.1 <= |ts|
    ensures r.Success? && peeked.None? ==> pos < r.value.1
    ensures r.Success? && peeked.Some? ==> pos <= r.value.1
    decreases |ts| - pos, 2
  {
    if peeked.None? && pos == |ts| then Failure(InvalidValue(None))
    else
      var tok := if peeked.Some? then peeked.value else ts[pos];
      var next := if peeked.Some? then pos else pos + 1;
      match tok
      case String(text) => Success((String(text), next))
      case Number(text) =>
        (match ParseF64(text)
         case Some(f) => Success((Number(f), next))
         case None => Failure(InvalidNumberValue(text)))
      case Boolean(text) =>
        if text == "true" then Success((Boolean(true), next))
        else if text == "false" then Success((Boolean(false), next))
        else Failure(InvalidBooleanValue(text))
      case Null(text) =>
        if text == "null" then Success((Null, next))
        else Failure(InvalidNullValue(text))
      case OpenCurlyBracket => ParseObject(ts, next)
      case OpenSquareBracket => ParseArray(ts, next)
      case _ => Failure(InvalidValue(Some(tok)))
  }

  /** The members of an object whose opening brace was already pulled, up to
      and including the closing brace. */
  function ParseObject(ts: seq<Token>, pos: nat): (r: Parsed)
    requires pos <= |ts|
    ensures r.Success? ==> pos < r.value.1 <= |ts| && r.value.0.Object?
    decreases |ts| - pos, 1
  {
    ParseMembers(ts, pos, map[], false)
  }

  /** The loop of `parse_object`: `members` holds what was read so far and
      `commaAfterValue` whether the last separator was a comma. */
  function ParseMembers(ts: seq<Token>, pos: nat, members: map<string, JsonValue>, commaAfterValue: bool): (r: Parsed)
    requires pos <= |ts|
    ensures r.Success? ==> pos < r.value.1 <= |ts| && r.value.0.Object?
    decreases |ts| - pos, 0
  {
    if pos == |ts| then Failure(ExpectedEndOfObject)
    else if ts[pos] == Lexer.CloseCurlyBracket then
      if commaAfterValue then Failure(TrailingComma) else Success((Object(members), pos + 1))
    else if !ts[pos].String? then Failure(ExpectedObjectKey(ts[pos]))
    else if pos + 1 == |ts| then Failure(ExpectedColonAfterKey(None))
    else if ts[pos + 1] != Lexer.Colon then Failure(ExpectedColonAfterKey(Some(ts[pos + 1])))
    else
      match ParseValue(ts, pos + 2, None)
      case Failure(e) => Failure(e)
      case Success((value, after)) =>
        var members' := members[ts[pos].text := value];
        if after == |ts| then Failure(ExpectedCommaOrEndOfObject(None))
        else if ts[after] == Lexer.Comma then ParseMembers(ts, after + 1, members', true)
        else if ts[after] == Lexer.CloseCurlyBracket then Success((Object(members'), after + 1))
        else Failure(ExpectedCommaOrEndOfObject(Some(ts[after])))
  }

  /** The elements of an array whose opening bracket was already pulled, up to
      and including the closing bracket. */
  function ParseArray(ts: seq<Token>, pos: nat): (r: Parsed)
    requires pos <= |ts|
    ensures r.Success? ==> pos < r.value.1 <= |ts| && r.value.0.Array?
    decreases |ts| - pos, 1
  {
    ParseElements(ts, pos, [], false)
  }

  /** The loop of `parse_array`: `elements` holds what was read so far, in order. */
  function ParseElements(ts: seq<Token>, pos: nat, elements: seq<JsonValue>, commaAfterValue: bool): (r: Parsed)
    requires pos <= |ts|
    ensures r.Success? ==> pos < r.value.1 <= |ts| && r.value.0.Array?
    decreases |ts| - pos, 0
  {
    if pos == |ts| then Failure(ExpectedEndOfArray)
    else if ts[pos] == Lexer.CloseSquareBracket then
      if commaAfterValue then Failure(TrailingComma) else Success((Array(elements), pos + 1))
    else
      match ParseValue(ts, pos + 1, Some(ts[pos]))
      case Failure(e) => Failure(e)
      case Success((value, after)) =>
        var elements' := elements + [value];
        if after == |ts| then Failure(ExpectedCommaOrEndOfArray(None))
        else if ts[after] == Lexer.Comma then ParseElements(ts, after + 1, elements', true)
        else if ts[after] == Lexer.CloseSquareBracket then Success((Array(elements'), after + 1))
        else Failure(ExpectedCommaOrEndOfArray(Some(ts[after])))
  }

  /** The root: an object or an array, and the position just after it closes. */
  function ParseRoot(ts: seq<Token>): (r: Parsed)
    ensures ts == [] ==> r == Failure(NoTokens)
    ensures ts != [] && ts[0] != Lexer.OpenCurlyBracket && ts[0] != Lexer.OpenSquareBracket ==>
              r == Failure(ExpectedObjectOrArrayAsRoot(ts[0]))
    ensures r.Success? ==> 0 < r.value.1 <= |ts|
    ensures r.Success? ==> (r.value.0.Object? <==> ts[0] == Lexer.OpenCurlyBracket)
    ensures r.Success? ==> (r.value.0.Array? <==> ts[0] == Lexer.OpenSquareBracket)
  {
    if ts == [] then Failure(NoTokens)
    else if ts[0] == Lexer.OpenCurlyBracket then ParseObject(ts, 1)
    else if ts[0] == Lexer.OpenSquareBracket then ParseArray(ts, 1)
    else Failure(ExpectedObjectOrArrayAsRoot(ts[0]))
  }

  /** The parser: it returns as soon as the root closes and does not look at
      any tokens after it. */
  function Parse(ts: seq<Token>): (r: Result<JsonValue, ParseError>)
    ensures r.Success? ==> r.value.Array? || r.value.Object?
  {
    match ParseRoot(ts)
    case Success((value, _)) => Success(value)
    case Failure(e) => Failure(e)
  }
}
