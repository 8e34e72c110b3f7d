/** The lexer's unit tests (src/lexer.rs:165-346), each stated as a lemma and
    derived from the general properties of the lexer rather than by unfolding it. */
module LexerExamples {
  import opened Wrappers
  import opened Lexer
  import opened LexerProperties

  lemma EmptyInput()
    ensures Lex("") == Success([])
  {
  }

  lemma CurlyBracketTokens()
    ensures Lex("{}") == Success([OpenCurlyBracket, CloseCurlyBracket])
  {
    StructuralCharacters('{', "}");
    StructuralCharacters('}', "");
    assert "{}" == ['{'] + "}";
    assert StructuralToken('{').value == OpenCurlyBracket;
    assert Lex("}") == Success([CloseCurlyBracket]);
    assert [OpenCurlyBracket] + [CloseCurlyBracket] == [OpenCurlyBracket, CloseCurlyBracket];
  }

  lemma SquareBracketTokens()
    ensures Lex("[]") == Success([OpenSquareBracket, CloseSquareBracket])
  {
    StructuralCharacters('[', "]");
    StructuralCharacters(']', "");
    assert "[]" == ['['] + "]";
    assert StructuralToken('[').value == OpenSquareBracket;
    assert Lex("]") == Success([CloseSquareBracket]);
    assert [OpenSquareBracket] + [CloseSquareBracket] == [OpenSquareBracket, CloseSquareBracket];
  }

  lemma CommaAndColonTokens()
    ensures Lex(",") == Success([Comma])
    ensures Lex(":") == Success([Colon])
  {
    StructuralCharacters(',', "");
    StructuralCharacters(':', "");
  }

  lemma NameString()
    ensures Lex("\"name\"") == Success([String("name")])
  {
    StringToken("name", "");
    assert ['"'] + "name" + ['"'] == "\"name\"";
  }

  lemma MissingStringEnd()
    ensures Lex("\"name") == Failure(ExpectedEndOfString)
  {
    UnterminatedString("name");
    assert ['"'] + "name" == "\"name";
  }

  lemma LiteralTokens()
    ensures Lex("true") == Success([Boolean("true")])
    ensures Lex("false") == Success([Boolean("false")])
    ensures Lex("null") == Success([Null("null")])
  {
    TruncatedLiteral("true");
    TruncatedLiteral("false");
    TruncatedLiteral("null");
  }

  /** The fixed-length capture stops before the extra letter, which starts no token. */
  lemma InvalidTrue()
    ensures Lex("truea") == Failure(InvalidToken('a'))
  {
    LiteralCapture("true", "a");
    UnrecognisedCharacter('a', "");
    assert "true" + "a" == "truea";
  }

  lemma InvalidFalse()
    ensures Lex("falseo") == Failure(InvalidToken('o'))
  {
    LiteralCapture("false", "o");
    UnrecognisedCharacter('o', "");
    assert "false" + "o" == "falseo";
  }

  /** Literal spelling is left to the parser, but an upper-case letter starts no token. */
  lemma InvalidNull()
    ensures Lex("Null") == Failure(InvalidToken('N'))
  {
    UnrecognisedCharacter('N', "ull");
    assert ['N'] + "ull" == "Null";
  }

  lemma NumberToken()
    ensures Lex("360") == Success([Number("360")])
  {
    NumberAtEnd("360");
  }

  lemma InvalidNumber()
    ensures Lex("360f") == Failure(InvalidToken('f'))
  {
    NumberStoppedByOther("360", 'f', "");
    assert "360" + ['f'] + "" == "360f";
  }

  /** The fifteen tokens of the test document `[{"money": null, "age": 20}, true, false]`. */
  function DocumentTokens(): seq<Token> {
    [OpenSquareBracket, OpenCurlyBracket, String("money"), Colon, Null("null"), Comma,
     String("age"), Colon, Number("20"), CloseCurlyBracket, Comma,
     Boolean("true"), Comma, Boolean("false"), CloseSquareBracket]
  }

  /** The test document lexes to exactly the tokens the test expects. */
  lemma JsonTokens(s: string)
    requires s == "[{\"money\": null, \"age\": 20}, true, false]"
    ensures Lex(s) == Success(DocumentTokens())
    ensures LexerOutput(DocumentTokens())
  {
    DocumentCharsHold(s);
    DocumentFrom0(s);
    assert s[0..] == s && DocumentTokens()[0..] == DocumentTokens();
  }

  /** The characters of the test document, one token or space per line. Reading
      single characters of a long literal is costly for the verifier, so the
      steps below use these facts instead of the literal. */
  predicate DocumentChars(s: string) {
    && |s| == 41
    && s[0] == '['
    && s[1] == '{'
    && s[2] == '"' && s[3] == 'm' && s[4] == 'o' && s[5] == 'n' && s[6] == 'e' && s[7] == 'y' && s[8] == '"'
    && s[9] == ':'
    && s[10] == ' '
    && s[11] == 'n' && s[12] == 'u' && s[13] == 'l' && s[14] == 'l'
    && s[15] == ','
    && s[16] == ' '
    && s[17] == '"' && s[18] == 'a' && s[19] == 'g' && s[20] == 'e' && s[21] == '"'
    && s[22] == ':'
    && s[23] == ' '
    && s[24] == '2' && s[25] == '0'
    && s[26] == '}'
    && s[27] == ','
    && s[28] == ' '
    && s[29] == 't' && s[30] == 'r' && s[31] == 'u' && s[32] == 'e'
    && s[33] == ','
    && s[34] == ' '
    && s[35] == 'f' && s[36] == 'a' && s[37] == 'l' && s[38] == 's' && s[39] == 'e'
    && s[40] == ']'
  }

  lemma DocumentCharsHold(s: string)
    requires s == "[{\"money\": null, \"age\": 20}, true, false]"
    ensures DocumentChars(s)
  {
    CharsFrom0(s);
    CharsFrom3(s);
    CharsFrom6(s);
    CharsFrom9(s);
    CharsFrom12(s);
    CharsFrom16(s);
    CharsFrom20(s);
    CharsFrom26(s);
    CharsFrom33(s);
  }

  /* A few characters per lemma: many deep reads of one literal in a single
     proof are what make it costly. */

  lemma CharsFrom0(s: string)
    requires s == "[{\"money\": null, \"age\": 20}, true, false]"
    ensures |s| == 41 && s[0] == '[' && s[1] == '{' && s[2] == '"'
  {
  }

  lemma CharsFrom3(s: string)
    requires s == "[{\"money\": null, \"age\": 20}, true, false]"
    ensures s[3] == 'm' && s[4] == 'o' && s[5] == 'n'
  {
  }

  lemma CharsFrom6(s: string)
    requires s == "[{\"money\": null, \"age\": 20}, true, false]"
    ensures s[6] == 'e' && s[7] == 'y' && s[8] == '"'
  {
  }

  lemma CharsFrom9(s: string)
    requires s == "[{\"money\": null, \"age\": 20}, true, false]"
    ensures s[9] == ':' && s[10] == ' ' && s[11] == 'n'
  {
  }

  lemma CharsFrom12(s: string)
    requires s == "[{\"money\": null, \"age\": 20}, true, false]"
    ensures s[12] == 'u' && s[13] == 'l' && s[14] == 'l' && s[15] == ','
  {
  }

  lemma CharsFrom16(s: string)
    requires s == "[{\"money\": null, \"age\": 20}, true, false]"
    ensures s[16] == ' ' && s[17] == '"' && s[18] == 'a' && s[19] == 'g'
  {
  }

  lemma CharsFrom20(s: string)
    requires s == "[{\"money\": null, \"age\": 20}, true, false]"
    ensures s[20] == 'e' && s[21] == '"' && s[22] == ':' && s[23] == ' ' && s[24] == '2' && s[25] == '0'
  {
  }

  lemma CharsFrom26(s: string)
    requires s == "[{\"money\": null, \"age\": 20}, true, false]"
    ensures s[26] == '}' && s[27] == ',' && s[28] == ' ' && s[29] == 't' && s[30] == 'r' && s[31] == 'u' && s[32] == 'e'
  {
  }

  lemma CharsFrom33(s: string)
    requires s == "[{\"money\": null, \"age\": 20}, true, false]"
    ensures s[33] == ',' && s[34] == ' ' && s[35] == 'f' && s[36] == 'a' && s[37] == 'l' && s[38] == 's' && s[39] == 'e' && s[40] == ']'
  {
  }

  /** One token step of the lexer, read on the suffixes of the text and of the
      expected tokens: a structural character, ... */
  lemma StructuralStep(s: string, i: nat, e: seq<Token>, k: nat)
    requires i < |s| && s[i] in "{}[]:," && k < |e| && e[k] == StructuralToken(s[i]).value
    requires Lex(s[i + 1..]) == Success(e[k + 1..])
    ensures Lex(s[i..]) == Success(e[k..])
  {
    assert s[i..] == [s[i]] + s[i + 1..];
    StructuralCharacters(s[i], s[i + 1..]);
    ConsDrop(e, k);
  }

  /** ... a skipped character, ... */
  lemma SpaceStep(s: string, i: nat, e: seq<Token>, k: nat)
    requires i < |s| && IsSkipped(s[i]) && k <= |e|
    requires Lex(s[i + 1..]) == Success(e[k..])
    ensures Lex(s[i..]) == Success(e[k..])
  {
    assert s[i..] == [s[i]] + s[i + 1..];
    SkippedCharacters([s[i]], s[i + 1..]);
  }

  /** ... a literal of its fixed length, ... */
  lemma LiteralStep(s: string, i: nat, n: nat, e: seq<Token>, k: nat)
    requires i + n <= |s| && n > 0 && s[i] in "tfn"
    requires n == (if s[i] == 't' then TrueLength else if s[i] == 'f' then FalseLength else NullLength)
    requires k < |e| && e[k] == (if s[i] == 'n' then Null(s[i..i + n]) else Boolean(s[i..i + n]))
    requires Lex(s[i + n..]) == Success(e[k + 1..])
    ensures Lex(s[i..]) == Success(e[k..])
  {
    assert s[i..] == s[i..i + n] + s[i + n..];
    LiteralCapture(s[i..i + n], s[i + n..]);
    ConsDrop(e, k);
  }

  /** ... a string between the quotes at `i` and `j`, ... */
  lemma StringStep(s: string, i: nat, j: nat, e: seq<Token>, k: nat)
    requires i < j < |s| && s[i] == '"' && s[j] == '"' && '"' !in s[i + 1..j]
    requires k < |e| && e[k] == String(s[i + 1..j])
    requires Lex(s[j + 1..]) == Success(e[k + 1..])
    ensures Lex(s[i..]) == Success(e[k..])
  {
    assert s[i..] == ['"'] + s[i + 1..j] + ['"'] + s[j + 1..];
    StringToken(s[i + 1..j], s[j + 1..]);
    ConsDrop(e, k);
  }

  /** ... or a number run in [i, j) and the delimiter at `j` that stopped it. */
  lemma NumberStep(s: string, i: nat, j: nat, e: seq<Token>, k: nat)
    requires i < j < |s| && (forall m :: i <= m < j ==> IsNumberChar(s[m])) && s[j] in ",}]"
    requires k + 1 < |e| && e[k] == Number(s[i..j]) && e[k + 1] == EndOfTokenValue(s[j]).value
    requires Lex(s[j + 1..]) == Success(e[k + 2..])
    ensures Lex(s[i..]) == Success(e[k..])
  {
    var p := s[i..j];
    SplitAround(s, i, j);
    NumberThenDelimiter(p, s[j], s[j + 1..]);
    PairDrop(e, k);
  }

  lemma SplitAround(s: string, i: nat, j: nat)
    requires i <= j < |s|
    ensures s[i..] == s[i..j] + [s[j]] + s[j + 1..]
  {
  }

  lemma PairDrop<T>(e: seq<T>, k: nat)
    requires k + 1 < |e|
    ensures [e[k], e[k + 1]] + e[k + 2..] == e[k..]
  {
  }

  lemma ConsDrop<T>(e: seq<T>, k: nat)
    requires k < |e|
    ensures [e[k]] + e[k + 1..] == e[k..]
  {
  }

  /* The test document read from its end back to its start, one step per
     lemma: Lex(s[i..]) is the tokens from the k-th on. Each step is its own
     lemma so that every proof stays small. */

  lemma DocumentFrom40(s: string)
    requires DocumentChars(s)
    ensures Lex(s[40..]) == Success(DocumentTokens()[14..])
  {
    var e := DocumentTokens();
    assert s[41..] == [] && e[15..] == [];
    StructuralStep(s, 40, e, 14);
  }

  lemma DocumentFrom35(s: string)
    requires DocumentChars(s)
    ensures Lex(s[35..]) == Success(DocumentTokens()[13..])
  {
    var e := DocumentTokens();
    DocumentFrom40(s);
    LiteralStep(s, 35, 5, e, 13);
  }

  lemma DocumentFrom34(s: string)
    requires DocumentChars(s)
    ensures Lex(s[34..]) == Success(DocumentTokens()[13..])
  {
    var e := DocumentTokens();
    DocumentFrom35(s);
    SpaceStep(s, 34, e, 13);
  }

  lemma DocumentFrom33(s: string)
    requires DocumentChars(s)
    ensures Lex(s[33..]) == Success(DocumentTokens()[12..])
  {
    var e := DocumentTokens();
    DocumentFrom34(s);
    StructuralStep(s, 33, e, 12);
  }

  lemma DocumentFrom29(s: string)
    requires DocumentChars(s)
    ensures Lex(s[29..]) == Success(DocumentTokens()[11..])
  {
    var e := DocumentTokens();
    DocumentFrom33(s);
    LiteralStep(s, 29, 4, e, 11);
  }

  lemma DocumentFrom28(s: string)
    requires DocumentChars(s)
    ensures Lex(s[28..]) == Success(DocumentTokens()[11..])
  {
    var e := DocumentTokens();
    DocumentFrom29(s);
    SpaceStep(s, 28, e, 11);
  }

  lemma DocumentFrom27(s: string)
    requires DocumentChars(s)
    ensures Lex(s[27..]) == Success(DocumentTokens()[10..])
  {
    var e := DocumentTokens();
    DocumentFrom28(s);
    StructuralStep(s, 27, e, 10);
  }

  lemma DocumentFrom24(s: string)
    requires DocumentChars(s)
    ensures Lex(s[24..]) == Success(DocumentTokens()[8..])
  {
    var e := DocumentTokens();
    DocumentFrom27(s);
    NumberStep(s, 24, 26, e, 8);
  }

  lemma DocumentFrom23(s: string)
    requires DocumentChars(s)
    ensures Lex(s[23..]) == Success(DocumentTokens()[8..])
  {
    var e := DocumentTokens();
    DocumentFrom24(s);
    SpaceStep(s, 23, e, 8);
  }

  lemma DocumentFrom22(s: string)
    requires DocumentChars(s)
    ensures Lex(s[22..]) == Success(DocumentTokens()[7..])
  {
    var e := DocumentTokens();
    DocumentFrom23(s);
    StructuralStep(s, 22, e, 7);
  }

  lemma DocumentFrom17(s: string)
    requires DocumentChars(s)
    ensures Lex(s[17..]) == Success(DocumentTokens()[6..])
  {
    var e := DocumentTokens();
    DocumentFrom22(s);
    StringStep(s, 17, 21, e, 6);
  }

  lemma DocumentFrom16(s: string)
    requires DocumentChars(s)
    ensures Lex(s[16..]) == Success(DocumentTokens()[6..])
  {
    var e := DocumentTokens();
    DocumentFrom17(s);
    SpaceStep(s, 16, e, 6);
  }

  lemma DocumentFrom15(s: string)
    requires DocumentChars(s)
    ensures Lex(s[15..]) == Success(DocumentTokens()[5..])
  {
    var e := DocumentTokens();
    DocumentFrom16(s);
    StructuralStep(s, 15, e, 5);
  }

  lemma DocumentFrom11(s: string)
    requires DocumentChars(s)
    ensures Lex(s[11..]) == Success(DocumentTokens()[4..])
  {
    var e := DocumentTokens();
    DocumentFrom15(s);
    LiteralStep(s, 11, 4, e, 4);
  }

  lemma DocumentFrom10(s: string)
    requires DocumentChars(s)
    ensures Lex(s[10..]) == Success(DocumentTokens()[4..])
  {
    var e := DocumentTokens();
    DocumentFrom11(s);
    SpaceStep(s, 10, e, 4);
  }

  lemma DocumentFrom9(s: string)
    requires DocumentChars(s)
    ensures Lex(s[9..]) == Success(DocumentTokens()[3..])
  {
    var e := DocumentTokens();
    DocumentFrom10(s);
    StructuralStep(s, 9, e, 3);
  }

  lemma DocumentFrom2(s: string)
    requires DocumentChars(s)
    ensures Lex(s[2..]) == Success(DocumentTokens()[2..])
  {
    var e := DocumentTokens();
    DocumentFrom9(s);
    StringStep(s, 2, 8, e, 2);
  }

  lemma DocumentFrom1(s: string)
    requires DocumentChars(s)
    ensures Lex(s[1..]) == Success(DocumentTokens()[1..])
  {
    var e := DocumentTokens();
    DocumentFrom2(s);
    StructuralStep(s, 1, e, 1);
  }

  lemma DocumentFrom0(s: string)
    requires DocumentChars(s)
    ensures Lex(s[0..]) == Success(DocumentTokens()[0..])
  {
    var e := DocumentTokens();
    DocumentFrom1(s);
    StructuralStep(s, 0, e, 0);
  }
}
