/** The two stages chained (src/utils.rs): text is lexed, the tokens are
    parsed, and either both are returned or the first stage's error is. */
module Pipeline {
  import opened Wrappers
  import opened Float64
  import Lexer
  import opened LexerProperties
  import opened Parser
  import opened Serializer
  import LexerExamples
  import ParserExamples

  /** Which stage failed, and why. */
  datatype JsonError =
    | LexFailure(lexError: Lexer.TokenError)
    | ParseFailure(parseError: ParseError)

  /** `parse_json`: the tokens and the value, or the error of the first stage
      that failed; the parser runs only on a successful lex. */
  function ParseJson(text: string): (r: Result<(seq<Token>, JsonValue), JsonError>)
    ensures r.Success? ==> Lexer.Lex(text) == Success(r.value.0) && Parse(r.value.0) == Success(r.value.1)
    ensures r.Success? ==> r.value.1.Array? || r.value.1.Object?
    ensures Lexer.Lex(text).Failure? ==> r == Failure(LexFailure(Lexer.Lex(text).error))
    ensures Lexer.Lex(text).Success? && Parse(Lexer.Lex(text).value).Failure? ==>
              r == Failure(ParseFailure(Parse(Lexer.Lex(text).value).error))
  {
    match Lexer.Lex(text)
    case Failure(e) => Failure(LexFailure(e))
    case Success(tokens) =>
      match Parse(tokens)
      case Failure(e) => Failure(ParseFailure(e))
      case Success(json) => Success((tokens, json))
  }

  /** Text holding nothing but spaces, newlines and tabs has no tokens. */
  lemma BlankText(w: string)
    requires forall k :: 0 <= k < |w| ==> Lexer.IsSkipped(w[k])
    ensures ParseJson(w) == Failure(ParseFailure(NoTokens))
  {
    SkippedCharacters(w, []);
    assert w + [] == w;
  }

  /** Spaces, newlines and tabs before a document change nothing. */
  lemma LeadingBlanks(w: string, text: string)
    requires forall k :: 0 <= k < |w| ==> Lexer.IsSkipped(w[k])
    ensures ParseJson(w + text) == ParseJson(text)
  {
    SkippedCharacters(w, text);
  }

  /** The document of the unit tests goes through both stages. */
  lemma DocumentEndToEnd(s: string)
    requires s == "[{\"money\": null, \"age\": 20}, true, false]"
    ensures ParseJson(s) == Success((LexerExamples.DocumentTokens(), ParserExamples.DocumentValue()))
  {
    LexerExamples.JsonTokens(s);
    ParserExamples.DocumentParses(LexerExamples.DocumentTokens());
  }

  /** A value whose text the lexer reads back: numbers are finite terminating
      decimals (the lexer has no letters for `inf` or `nan`) and no string or
      key holds a double quote (there are no escapes). */
  ghost predicate Lexable(v: JsonValue) {
    match v
    case String(s) => '"' !in s
    case Number(f) => f.Finite? && Terminating(f.r)
    case Array(es) => forall i :: 0 <= i < |es| ==> Lexable(es[i])
    case Object(m) => forall k :: k in m ==> '"' !in k && Lexable(m[k])
    case _ => true
  }

  lemma {:induction false} LexablePrintable(v: JsonValue)
    requires Lexable(v)
    ensures Printable(v)
    decreases v
  {
    match v
    case Array(es) =>
      forall i | 0 <= i < |es| ensures Printable(es[i]) {
        LexablePrintable(es[i]);
      }
    case Object(m) =>
      forall k | k in m ensures Printable(m[k]) {
        LexablePrintable(m[k]);
      }
    case _ =>
  }

  /** Printing a lexable array or object, lexing the text and parsing the
      tokens gives back the printed tokens and the value itself. */
  lemma TextRoundTrip(v: JsonValue)
    requires Lexable(v) && (v.Array? || v.Object?)
    ensures ParseJson(Unlex(Serialize(v))) == Success((Serialize(v), v))
  {
    SerializeClean(v);
    LexUnlex(Serialize(v));
    LexablePrintable(v);
    RootRoundTrip(v, []);
  }

  /** Tokens the lexer could have produced in the middle of a longer text:
      each well shaped and full length, and each number followed by a
      delimiter unless it is last. */
  predicate Clean(ts: seq<Token>) {
    && (forall i :: 0 <= i < |ts| ==> Lexer.WellShaped(ts[i]) && Lexer.FullLength(ts[i]))
    && (forall i :: 0 <= i < |ts| - 1 && ts[i].Number? ==> Lexer.IsTerminator(ts[i + 1]))
  }

  lemma CleanJoin(a: seq<Token>, b: seq<Token>)
    requires Clean(a) && Clean(b)
    requires a != [] && a[|a| - 1].Number? ==> b != [] && Lexer.IsTerminator(b[0])
    ensures Clean(a + b)
  {
    var ab := a + b;
    forall i | 0 <= i < |ab| - 1 && ab[i].Number? ensures Lexer.IsTerminator(ab[i + 1]) {
      if i < |a| - 1 {
        assert ab[i] == a[i] && ab[i + 1] == a[i + 1];
      } else if i == |a| - 1 {
        assert ab[i] == a[i] && ab[i + 1] == b[0];
      } else {
        assert ab[i] == b[i - |a|] && ab[i + 1] == b[i - |a| + 1];
      }
    }
  }

  /** Opening and closing brackets around clean tokens stay clean. */
  lemma CleanBracketed(open: Token, ts: seq<Token>, close: Token)
    requires Clean(ts)
    requires open == Lexer.OpenCurlyBracket || open == Lexer.OpenSquareBracket
    requires Lexer.IsTerminator(close)
    ensures Clean([open] + (ts + [close]))
  {
    CleanJoin(ts, [close]);
    CleanJoin([open], ts + [close]);
  }

  /** A clean sequence, a comma, and another clean sequence. */
  lemma CleanSeparated(a: seq<Token>, b: seq<Token>)
    requires Clean(a) && Clean(b)
    ensures Clean(a + ([Lexer.Comma] + b))
  {
    CleanJoin([Lexer.Comma], b);
    CleanJoin(a, [Lexer.Comma] + b);
  }

  /** The text of an integer is a non-empty run of number characters. */
  lemma IntTextNumberChars(i: int)
    ensures Lexer.WellShaped(Lexer.Number(IntText(i)))
  {
    var digits := NatText(if i < 0 then -i else i);
    if i < 0 {
      var t := "-" + digits;
      forall k | 0 <= k < |t| ensures Lexer.IsNumberChar(t[k]) {
        if k > 0 {
          assert t[k] == digits[k - 1];
        }
      }
    }
  }

  lemma {:induction false} SerializeClean(v: JsonValue)
    requires Lexable(v)
    ensures Clean(Serialize(v))
    decreases v, 1
  {
    match v
    case Number(f) =>
      if !IsIntegral(f.r) && Terminating(f.r) {
        assert NumberText(f) == DecimalText(DecimalOf(f.r).0, DecimalOf(f.r).1);
      } else {
        IntTextNumberChars(f.r.Floor);
      }
    case Array(es) =>
      ElementsClean(es);
      CleanBracketed(Lexer.OpenSquareBracket, SerializeElements(es), Lexer.CloseSquareBracket);
    case Object(m) =>
      AllSubObject(v, m);
      MembersClean(v, m);
      CleanBracketed(Lexer.OpenCurlyBracket, SerializeObject(v), Lexer.CloseCurlyBracket);
    case _ =>
  }

  lemma {:induction false} ElementsClean(es: seq<JsonValue>)
    requires forall i :: 0 <= i < |es| ==> Lexable(es[i])
    ensures Clean(SerializeElements(es))
    decreases es, 0
  {
    if es != [] {
      SerializeClean(es[0]);
      if |es| > 1 {
        ElementsClean(es[1..]);
        CleanSeparated(Serialize(es[0]), SerializeElements(es[1..]));
      }
    }
  }

  lemma {:induction false} MembersClean(parent: JsonValue, m: map<string, JsonValue>)
    requires SubObject(parent, m) && Lexable(parent)
    ensures Clean(SerializeMembers(parent, m))
    decreases parent, 0, |m|
  {
    if m != map[] {
      var k := PickKey(m);
      var rest := m - {k};
      RemoveKey(m, k);
      assert k in parent.members && parent.members[k] == m[k];
      SerializeClean(m[k]);
      CleanJoin([Lexer.String(k), Lexer.Colon], Serialize(m[k]));
      if rest != map[] {
        MembersClean(parent, rest);
        CleanSeparated(SerializeMember(k, m[k]), SerializeMembers(parent, rest));
      }
    }
  }
}
