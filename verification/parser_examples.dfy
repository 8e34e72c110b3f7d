/** The parser's behaviour on the token sequences its own unit tests use
    (src/parser.rs, lines 237-494): each malformed sequence fails with the
    error the test expects, and the test document parses to the expected
    value. */
module ParserExamples {
  import opened Wrappers
  import opened Float64
  import Lexer
  import opened Parser
  import opened ParserProperties
  import opened ParserErrors
  import opened LexerExamples

  lemma EmptyTokens()
    ensures Parse([]) == Failure(NoTokens)
  {
  }

  lemma InvalidRoot()
    ensures Parse([Lexer.String("fulano")]) == Failure(ExpectedObjectOrArrayAsRoot(Lexer.String("fulano")))
  {
  }

  lemma MissingObjectClose()
    ensures Parse([Lexer.OpenCurlyBracket]) == Failure(ExpectedEndOfObject)
  {
  }

  lemma MissingArrayClose()
    ensures Parse([Lexer.OpenSquareBracket]) == Failure(ExpectedEndOfArray)
  {
  }

  lemma MissingObjectKey()
    ensures Parse([Lexer.OpenCurlyBracket, Lexer.Number("360"), Lexer.CloseCurlyBracket])
            == Failure(ExpectedObjectKey(Lexer.Number("360")))
  {
  }

  lemma MissingColonAfterKey()
    ensures Parse([Lexer.OpenCurlyBracket, Lexer.String("name")]) == Failure(ExpectedColonAfterKey(None))
  {
  }

  lemma MissingValueAfterColon()
    ensures Parse([Lexer.OpenCurlyBracket, Lexer.String("name"), Lexer.Colon]) == Failure(InvalidValue(None))
  {
  }

  lemma InvalidValueAfterColon()
    ensures Parse([Lexer.OpenCurlyBracket, Lexer.String("name"), Lexer.Colon, Lexer.CloseCurlyBracket])
            == Failure(InvalidValue(Some(Lexer.CloseCurlyBracket)))
  {
  }

  lemma InvalidArrayValue()
    ensures Parse([Lexer.OpenSquareBracket, Lexer.Colon]) == Failure(InvalidValue(Some(Lexer.Colon)))
  {
  }

  lemma MissingEndAfterObjectValue()
    ensures Parse([Lexer.OpenCurlyBracket, Lexer.String("name"), Lexer.Colon, Lexer.String("fulano")])
            == Failure(ExpectedCommaOrEndOfObject(None))
  {
  }

  lemma MissingEndAfterArrayValue()
    ensures Parse([Lexer.OpenSquareBracket, Lexer.String("name")]) == Failure(ExpectedCommaOrEndOfArray(None))
  {
  }

  lemma InvalidNumber()
    ensures Parse([Lexer.OpenSquareBracket, Lexer.Number("4-.5")]) == Failure(InvalidNumberValue("4-.5"))
  {
    var ts := [Lexer.OpenSquareBracket, Lexer.Number("4-.5")];
    assert ts[1] == Lexer.Number("4-.5");
    BadNumberText();
    ScalarValidated(ts, 2, ts[1]);
    ElementValueFails(ts, 1, [], false);
  }

  lemma InvalidTrue()
    ensures Parse([Lexer.OpenSquareBracket, Lexer.Boolean("trua")]) == Failure(InvalidBooleanValue("trua"))
  {
  }

  lemma InvalidFalse()
    ensures Parse([Lexer.OpenSquareBracket, Lexer.Boolean("falso")]) == Failure(InvalidBooleanValue("falso"))
  {
  }

  lemma InvalidNull()
    ensures Parse([Lexer.OpenSquareBracket, Lexer.Null("nulo")]) == Failure(InvalidNullValue("nulo"))
  {
  }

  lemma TrailingCommaInArray()
    ensures Parse([Lexer.OpenSquareBracket, Lexer.Null("null"), Lexer.Comma, Lexer.CloseSquareBracket])
            == Failure(TrailingComma)
  {
  }

  lemma TrailingCommaInObject()
    ensures Parse([Lexer.OpenCurlyBracket, Lexer.String("name"), Lexer.Colon, Lexer.String("fulano"),
                   Lexer.Comma, Lexer.CloseCurlyBracket])
            == Failure(TrailingComma)
  {
  }

  /** The value the test expects from the tokens of
      `[{"money": null, "age": 20}, true, false]`. */
  function DocumentValue(): JsonValue {
    Array([Object(Inner()), Boolean(true), Boolean(false)])
  }

  function Inner(): map<string, JsonValue> {
    map["money" := Null, "age" := Number(Finite(20.0))]
  }

  /** The test document's tokens parse to the value the test expects. */
  lemma DocumentParses(ts: seq<Token>)
    requires ts == DocumentTokens()
    ensures Parse(ts) == Success(DocumentValue())
  {
    ObjectParses(ts);
    ArrayTail(ts);
    ElementsContinue(ts, 1, [], false, Object(Inner()), 10);
    assert [] + [Object(Inner())] == [Object(Inner())];
  }

  /** Tokens 1 to 9 are the inner object. */
  lemma ObjectParses(ts: seq<Token>)
    requires ts == DocumentTokens()
    ensures ParseValue(ts, 2, Some(ts[1])) == Success((Object(Inner()), 10))
  {
    assert ts[1] == Lexer.OpenCurlyBracket;
    MoneyMember(ts);
    AgeMember(ts);
  }

  /** The first member, `"money": null`, is followed by a comma. */
  lemma MoneyMember(ts: seq<Token>)
    requires ts == DocumentTokens()
    ensures ParseMembers(ts, 2, map[], false) == ParseMembers(ts, 6, map["money" := Null], true)
  {
    assert ts[2] == Lexer.String("money") && ts[3] == Lexer.Colon;
    assert ts[4] == Lexer.Null("null") && ts[5] == Lexer.Comma;
    assert ParseValue(ts, 4, None) == Success((Null, 5));
    MembersContinue(ts, 2, map[], false, Null, 5);
  }

  /** The second member, `"age": 20`, closes the object. */
  lemma AgeMember(ts: seq<Token>)
    requires ts == DocumentTokens()
    ensures ParseMembers(ts, 6, map["money" := Null], true) == Success((Object(Inner()), 10))
  {
    assert ts[6] == Lexer.String("age") && ts[7] == Lexer.Colon;
    assert ts[9] == Lexer.CloseCurlyBracket;
    AgeValue(ts);
    MembersStep(ts, 6, map["money" := Null], true, Number(Finite(20.0)), 9);
    assert map["money" := Null]["age" := Number(Finite(20.0))] == Inner();
  }

  lemma AgeValue(ts: seq<Token>)
    requires ts == DocumentTokens()
    ensures ParseValue(ts, 8, None) == Success((Number(Finite(20.0)), 9))
  {
    assert ts[8] == Lexer.Number("20");
    NumberTextExamples();
    assert ParseF64("20") == Some(Finite(20.0));
    NumberAt(ts, 8, "20", Finite(20.0));
  }

  /** A number token whose text converts parses to that number. */
  lemma NumberAt(ts: seq<Token>, pos: nat, text: string, f: Float)
    requires pos < |ts| && ts[pos] == Lexer.Number(text) && ParseF64(text) == Some(f)
    ensures ParseValue(ts, pos, None) == Success((Number(f), pos + 1))
  {
  }

  /** After the object and its comma come `true`, `false` and the closer. */
  lemma ArrayTail(ts: seq<Token>)
    requires ts == DocumentTokens()
    ensures ParseElements(ts, 11, [Object(Inner())], true) == Success((DocumentValue(), 15))
  {
    ElementsStep(ts, 13, [Object(Inner()), Boolean(true)], true, Boolean(false), 14);
    assert [Object(Inner()), Boolean(true)] + [Boolean(false)] == DocumentValue().elements;
    ElementsContinue(ts, 11, [Object(Inner())], true, Boolean(true), 12);
    assert [Object(Inner())] + [Boolean(true)] == [Object(Inner()), Boolean(true)];
  }
}
