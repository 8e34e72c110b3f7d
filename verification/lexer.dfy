/** The first stage: a single left-to-right pass turning JSON text into tokens
    (src/lexer.rs). The lexer recurses over the unread rest of the input, which
    is exactly what the source's `Chars` iterator holds at each step. */
module Lexer {
  import opened Wrappers

  /** One lexical unit. Payloads are the raw captured text: string contents
      without escape processing, and number and literal text not yet validated. */
  datatype Token =
    | String(text: string)
    | Number(text: string)
    | Boolean(text: string)
    | Null(text: string)
    | OpenCurlyBracket
    | CloseCurlyBracket
    | OpenSquareBracket
    | CloseSquareBracket
    | Colon
    | Comma

  datatype TokenError =
    | ExpectedEndOfString
    | InvalidToken(c: char)

  /** Number of characters a literal captures, counting its first letter. */
  const TrueLength: nat := 4
  const FalseLength: nat := 5
  const NullLength: nat := 4

  /** The characters a number run is made of: digits, the minus sign and
      the point. None of them starts any other kind of token or is skipped. */
  function IsNumberChar(c: char): (r: bool)
    ensures r ==> StructuralToken(c).None? && !IsSkipped(c) && c != '"' && c != 'f' && c != 't' && c != 'n'
  {
    c == '-' || c == '.' || '0' <= c <= '9'
  }

  /** The characters that may end a number run and are emitted right after it. */
  function EndOfTokenValue(c: char): (r: Option<Token>)
    ensures r.Some? <==> c in ",}]"
    ensures r.Some? ==> IsTerminator(r.value) && Render(r.value) == [c]
  {
    match c
    case ',' => Some(Comma)
    case '}' => Some(CloseCurlyBracket)
    case ']' => Some(CloseSquareBracket)
    case _ => None
  }

  /** The six one-character structural tokens; none of them carries text. */
  function StructuralToken(c: char): (r: Option<Token>)
    ensures r.Some? <==> c in "{}[]:,"
    ensures r.Some? ==> Render(r.value) == [c]
    ensures r.Some? ==> !(r.value.String? || r.value.Number? || r.value.Boolean? || r.value.Null?)
  {
    match c
    case '{' => Some(OpenCurlyBracket)
    case '}' => Some(CloseCurlyBracket)
    case '[' => Some(OpenSquareBracket)
    case ']' => Some(CloseSquareBracket)
    case ':' => Some(Colon)
    case ',' => Some(Comma)
    case _ => None
  }

  /** Characters skipped between tokens; carriage return is not among them.
      None of them starts a token or ends a number run. */
  function IsSkipped(c: char): (r: bool)
    ensures r ==> StructuralToken(c).None? && EndOfTokenValue(c).None? && c != '"' && c != 'f' && c != 't' && c != 'n'
  {
    c == ' ' || c == '\n' || c == '\t'
  }

  predicate IsTerminator(t: Token) {
    t == Comma || t == CloseCurlyBracket || t == CloseSquareBracket
  }

  /** Splits the text after an opening quote at the first closing quote:
      the verbatim payload and the rest after the quote, or None if no quote follows. */
  function SplitString(s: string): (r: Option<(string, string)>)
    ensures r.Some? ==> s == r.value.0 + ['"'] + r.value.1 && '"' !in r.value.0
    ensures r.None? ==> '"' !in s
  {
    if s == [] then None
    else if s[0] == '"' then Some(([], s[1..]))
    else
      match SplitString(s[1..])
      case None => None
      case Some((text, rest)) => Some(([s[0]] + text, rest))
  }

  /** Splits off the longest prefix made of number characters. */
  function SplitNumberRun(s: string): (r: (string, string))
    ensures s == r.0 + r.1
    ensures forall k :: 0 <= k < |r.0| ==> IsNumberChar(r.0[k])
    ensures r.1 == [] || !IsNumberChar(r.1[0])
  {
    if s == [] || !IsNumberChar(s[0]) then ([], s)
    else
      var (run, rest) := SplitNumberRun(s[1..]);
      ([s[0]] + run, rest)
  }

  /** Takes `n` characters regardless of their content, or all of `s` if it is shorter. */
  function Capture(s: string, n: nat): (r: (string, string))
    ensures s == r.0 + r.1
    ensures |r.0| <= n
    ensures |r.0| < n ==> r.1 == []
  {
    if |s| <= n then (s, []) else (s[..n], s[n..])
  }

  /** What every token of a successful lex looks like on its own. */
  predicate WellShaped(t: Token) {
    match t
    case String(p) => '"' !in p
    case Number(p) => |p| > 0 && forall k :: 0 <= k < |p| ==> IsNumberChar(p[k])
    case Boolean(p) => |p| > 0 && ((p[0] == 't' && |p| <= TrueLength) || (p[0] == 'f' && |p| <= FalseLength))
    case Null(p) => 0 < |p| <= NullLength && p[0] == 'n'
    case _ => true
  }

  /** A literal captured to its full fixed length (always true of other tokens). */
  predicate FullLength(t: Token) {
    match t
    case Boolean(p) => (|p| > 0 && p[0] == 't' ==> |p| == TrueLength) && (|p| > 0 && p[0] == 'f' ==> |p| == FalseLength)
    case Null(p) => |p| == NullLength
    case _ => true
  }

  /** The shape of a token sequence the lexer produces: each token well shaped,
      a literal shorter than its fixed length only as the final token (the input
      ran out), and a number not at the end followed by the delimiter that stopped it. */
  predicate LexerOutput(ts: seq<Token>) {
    && (forall i :: 0 <= i < |ts| ==> WellShaped(ts[i]))
    && (forall i :: 0 <= i < |ts| - 1 ==> FullLength(ts[i]))
    && (forall i :: 0 <= i < |ts| - 1 && ts[i].Number? ==> IsTerminator(ts[i + 1]))
  }

  /** The text a token was read from, without surrounding whitespace. */
  function Render(t: Token): string {
    match t
    case String(p) => ['"'] + p + ['"']
    case Number(p) => p
    case Boolean(p) => p
    case Null(p) => p
    case OpenCurlyBracket => "{"
    case CloseCurlyBracket => "}"
    case OpenSquareBracket => "["
    case CloseSquareBracket => "]"
    case Colon => ":"
    case Comma => ","
  }

  /** Puts `ts` in front of the tokens of a successful rest; passes a failure on. */
  function Prepend(ts: seq<Token>, r: Result<seq<Token>, TokenError>): Result<seq<Token>, TokenError> {
    match r
    case Success(rest) => Success(ts + rest)
    case Failure(e) => Failure(e)
  }

  lemma LexerOutputPrepend(t: Token, ts: seq<Token>)
    requires WellShaped(t) && LexerOutput(ts)
    requires ts != [] ==> FullLength(t)
    requires t.Number? && ts != [] ==> IsTerminator(ts[0])
    ensures LexerOutput([t] + ts)
  {
    var ts' := [t] + ts;
    forall i | 0 < i < |ts'|
      ensures ts'[i] == ts[i - 1]
    {
    }
  }

  /** The lexer: tokens of the whole input, or the first error met. Each
      character starts a token by its kind; the helpers below read the rest
      of that token and then go on with the text after it. */
  function Lex(s: string): (r: Result<seq<Token>, TokenError>)
    ensures r.Success? ==> LexerOutput(r.value)
    decreases |s|, 1
  {
    if s == [] then Success([])
    else
      var c := s[0];
      if StructuralToken(c).Some? then LexAfter(StructuralToken(c).value, s[1..])
      else if c == '"' then LexString(s[1..])
      else if c == 'f' || c == 't' || c == 'n' then LexLiteral(s)
      else if IsNumberChar(c) then LexNumber(s)
      else if IsSkipped(c) then Lex(s[1..])
      else Failure(InvalidToken(c))
  }

  /** The token `t`, then the tokens of the text after it. */
  function LexAfter(t: Token, after: string): (r: Result<seq<Token>, TokenError>)
    requires WellShaped(t) && !t.Number? && (after != [] ==> FullLength(t))
    ensures r.Success? ==> LexerOutput(r.value) && r.value != [] && r.value[0] == t
    decreases |after|, 2
  {
    var rest := Lex(after);
    if rest.Success? then
      LexerOutputPrepend(t, rest.value);
      Success([t] + rest.value)
    else Failure(rest.error)
  }

  /** A string: the text after the opening quote up to the next quote, verbatim. */
  function LexString(s: string): (r: Result<seq<Token>, TokenError>)
    ensures r.Success? ==> LexerOutput(r.value)
    decreases |s|, 2
  {
    match SplitString(s)
    case None => Failure(ExpectedEndOfString)
    case Some((text, after)) => LexAfter(String(text), after)
  }

  /** A literal: its fixed number of characters, whatever they are. */
  function LexLiteral(s: string): (r: Result<seq<Token>, TokenError>)
    requires s != [] && (s[0] == 'f' || s[0] == 't' || s[0] == 'n')
    ensures r.Success? ==> LexerOutput(r.value)
    decreases |s|, 0
  {
    var c := s[0];
    var (text, after) := Capture(s, if c == 'f' then FalseLength else if c == 't' then TrueLength else NullLength);
    LexAfter(if c == 'n' then Null(text) else Boolean(text), after)
  }

  /** A number: the run of number characters, which must end the input or be
      followed by `,`, `}` or `]`, emitted right after it. */
  function LexNumber(s: string): (r: Result<seq<Token>, TokenError>)
    requires s != [] && IsNumberChar(s[0])
    ensures r.Success? ==> LexerOutput(r.value)
    decreases |s|, 0
  {
    var (run, after) := SplitNumberRun(s[1..]);
    var number := Number([s[0]] + run);
    if after == [] then Success([number])
    else
      match EndOfTokenValue(after[0])
      case None => Failure(InvalidToken(after[0]))
      case Some(t) =>
        var rest := LexAfter(t, after[1..]);
        if rest.Success? then
          LexerOutputPrepend(number, rest.value);
          Success([number] + rest.value)
        else Failure(rest.error)
  }
}
