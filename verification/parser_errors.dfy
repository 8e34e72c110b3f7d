/** How the parser fails: which error each kind of malformed token sequence
    produces, and how the partial results it accumulates relate to the value
    it finally returns. */
module ParserErrors {
  import opened Wrappers
  import opened Float64
  import Lexer
  import opened Parser
  import opened ParserProperties

  /** The errors that report running out of tokens rather than meeting a
      wrong one. */
  predicate RanOut(e: ParseError) {
    || e == ExpectedEndOfObject
    || e == ExpectedEndOfArray
    || e == ExpectedColonAfterKey(None)
    || e == ExpectedCommaOrEndOfObject(None)
    || e == ExpectedCommaOrEndOfArray(None)
    || e == InvalidValue(None)
  }

  /** Cutting the tokens of a value short makes its parse fail, and the error
      says the tokens ran out: `cut` holds the tokens of `ts` up to its own
      length, and that length falls before the value ends. */
  lemma {:induction false} ValueTruncated(ts: seq<Token>, cut: seq<Token>, pos: nat, peeked: Option<Token>)
    requires pos <= |cut| <= |ts| && Agree(ts, cut, pos, |cut|)
    requires ParseValue(ts, pos, peeked).Success?
    requires |cut| < ParseValue(ts, pos, peeked).value.1
    ensures ParseValue(cut, pos, peeked).Failure?
    ensures RanOut(ParseValue(cut, pos, peeked).error)
    decreases |ts| - pos, 1, 0
  {
    var tok := if peeked.Some? then peeked.value else ts[pos];
    var next := if peeked.Some? then pos else pos + 1;
    if peeked.None? && pos == |cut| {
    } else if tok == Lexer.OpenCurlyBracket {
      assert peeked.None? ==> cut[pos] == ts[pos];
      MembersTruncated(ts, cut, next, map[], false);
    } else if tok == Lexer.OpenSquareBracket {
      assert peeked.None? ==> cut[pos] == ts[pos];
      ElementsTruncated(ts, cut, next, [], false);
    }
  }

  lemma {:induction false} MembersTruncated(ts: seq<Token>, cut: seq<Token>, pos: nat, members: map<string, JsonValue>, commaAfterValue: bool)
    requires pos <= |cut| <= |ts| && Agree(ts, cut, pos, |cut|)
    requires ParseMembers(ts, pos, members, commaAfterValue).Success?
    requires |cut| < ParseMembers(ts, pos, members, commaAfterValue).value.1
    ensures ParseMembers(cut, pos, members, commaAfterValue).Failure?
    ensures RanOut(ParseMembers(cut, pos, members, commaAfterValue).error)
    decreases |ts| - pos, 0, 2
  {
    var n := |cut|;
    if pos < n {
      MemberShape(ts, pos, members, commaAfterValue);
      assert cut[pos] == ts[pos];
      if pos + 1 < n {
        assert cut[pos + 1] == ts[pos + 1];
        MemberTruncated(ts, cut, pos, members, commaAfterValue);
      } else {
        KeyAtEnd(cut, pos, members, commaAfterValue);
      }
    }
  }

  /** The case of `MembersTruncated` where the cut falls after the colon. */
  lemma {:induction false} MemberTruncated(ts: seq<Token>, cut: seq<Token>, pos: nat, members: map<string, JsonValue>, commaAfterValue: bool)
    requires pos + 1 < |cut| <= |ts| && Agree(ts, cut, pos, |cut|)
    requires ts[pos].String? && ts[pos + 1] == Lexer.Colon
    requires ParseMembers(ts, pos, members, commaAfterValue).Success?
    requires |cut| < ParseMembers(ts, pos, members, commaAfterValue).value.1
    ensures ParseMembers(cut, pos, members, commaAfterValue).Failure?
    ensures RanOut(ParseMembers(cut, pos, members, commaAfterValue).error)
    decreases |ts| - pos, 0, 1
  {
    var n := |cut|;
    assert cut[pos] == ts[pos] && cut[pos + 1] == ts[pos + 1];
    if n < ParseValue(ts, pos + 2, None).value.1 {
      MemberValueTruncated(ts, cut, pos, members, commaAfterValue);
    } else {
      MemberValueWhole(ts, cut, pos, members, commaAfterValue);
    }
  }

  /** The cut falls inside the member's value. */
  lemma {:induction false} MemberValueTruncated(ts: seq<Token>, cut: seq<Token>, pos: nat, members: map<string, JsonValue>, commaAfterValue: bool)
    requires pos + 1 < |cut| <= |ts| && Agree(ts, cut, pos, |cut|)
    requires ts[pos].String? && ts[pos + 1] == Lexer.Colon
    requires ParseMembers(ts, pos, members, commaAfterValue).Success?
    requires |cut| < ParseMembers(ts, pos, members, commaAfterValue).value.1
    requires cut[pos] == ts[pos] && cut[pos + 1] == ts[pos + 1]
    requires |cut| < ParseValue(ts, pos + 2, None).value.1
    ensures ParseMembers(cut, pos, members, commaAfterValue).Failure?
    ensures RanOut(ParseMembers(cut, pos, members, commaAfterValue).error)
    decreases |ts| - pos, 0, 0
  {
    ValueTruncated(ts, cut, pos + 2, None);
    MemberValueFails(cut, pos, members, commaAfterValue);
  }

  /** The member's value is whole before the cut. */
  lemma {:induction false} MemberValueWhole(ts: seq<Token>, cut: seq<Token>, pos: nat, members: map<string, JsonValue>, commaAfterValue: bool)
    requires pos + 1 < |cut| <= |ts| && Agree(ts, cut, pos, |cut|)
    requires ts[pos].String? && ts[pos + 1] == Lexer.Colon
    requires ParseMembers(ts, pos, members, commaAfterValue).Success?
    requires |cut| < ParseMembers(ts, pos, members, commaAfterValue).value.1
    requires cut[pos] == ts[pos] && cut[pos + 1] == ts[pos + 1]
    requires ParseValue(ts, pos + 2, None).value.1 <= |cut|
    ensures ParseMembers(cut, pos, members, commaAfterValue).Failure?
    ensures RanOut(ParseMembers(cut, pos, members, commaAfterValue).error)
    decreases |ts| - pos, 0, 0
  {
    var n := |cut|;
    var (value, after) := ParseValue(ts, pos + 2, None).value;
    ValueAgrees(ts, cut, pos + 2, None);
    if after < n {
      MemberNotLast(ts, pos, members, commaAfterValue, value, after);
      assert cut[after] == ts[after];
      MembersContinue(ts, pos, members, commaAfterValue, value, after);
      MembersContinue(cut, pos, members, commaAfterValue, value, after);
      MembersTruncated(ts, cut, after + 1, members[ts[pos].text := value], true);
    } else {
      MembersStep(cut, pos, members, commaAfterValue, value, after);
    }
  }

  lemma {:induction false} ElementsTruncated(ts: seq<Token>, cut: seq<Token>, pos: nat, elements: seq<JsonValue>, commaAfterValue: bool)
    requires pos <= |cut| <= |ts| && Agree(ts, cut, pos, |cut|)
    requires ParseElements(ts, pos, elements, commaAfterValue).Success?
    requires |cut| < ParseElements(ts, pos, elements, commaAfterValue).value.1
    ensures ParseElements(cut, pos, elements, commaAfterValue).Failure?
    ensures RanOut(ParseElements(cut, pos, elements, commaAfterValue).error)
    decreases |ts| - pos, 0, 0
  {
    var n := |cut|;
    if pos < n {
      ElementShape(ts, pos, elements, commaAfterValue);
      assert cut[pos] == ts[pos];
      var (value, after) := ParseValue(ts, pos + 1, Some(ts[pos])).value;
      if n < after {
        ValueTruncated(ts, cut, pos + 1, Some(ts[pos]));
        ElementValueFails(cut, pos, elements, commaAfterValue);
      } else {
        ValueAgrees(ts, cut, pos + 1, Some(ts[pos]));
        if after < n {
          ElementNotLast(ts, pos, elements, commaAfterValue, value, after);
          assert cut[after] == ts[after];
          ElementsContinue(ts, pos, elements, commaAfterValue, value, after);
          ElementsContinue(cut, pos, elements, commaAfterValue, value, after);
          ElementsTruncated(ts, cut, after + 1, elements + [value], true);
        } else {
          ElementsStep(cut, pos, elements, commaAfterValue, value, after);
        }
      }
    }
  }

  /** An element that the array does not end right after is followed by a comma. */
  lemma ElementNotLast(ts: seq<Token>, pos: nat, elements: seq<JsonValue>, commaAfterValue: bool, value: JsonValue, after: nat)
    requires pos < |ts| && ts[pos] != Lexer.CloseSquareBracket
    requires ParseValue(ts, pos + 1, Some(ts[pos])) == Success((value, after))
    requires ParseElements(ts, pos, elements, commaAfterValue).Success?
    requires after + 1 < ParseElements(ts, pos, elements, commaAfterValue).value.1
    ensures after < |ts| && ts[after] == Lexer.Comma
  {
    ElementsStep(ts, pos, elements, commaAfterValue, value, after);
  }

  /** An object that goes on past its first token starts with a key and a colon. */
  lemma MemberShape(ts: seq<Token>, pos: nat, members: map<string, JsonValue>, commaAfterValue: bool)
    requires pos <= |ts|
    requires ParseMembers(ts, pos, members, commaAfterValue).Success?
    requires pos + 1 < ParseMembers(ts, pos, members, commaAfterValue).value.1
    ensures pos + 1 < |ts| && ts[pos].String? && ts[pos + 1] == Lexer.Colon
  {
  }

  /** An array that goes on past its first token does not start with its closer. */
  lemma ElementShape(ts: seq<Token>, pos: nat, elements: seq<JsonValue>, commaAfterValue: bool)
    requires pos <= |ts|
    requires ParseElements(ts, pos, elements, commaAfterValue).Success?
    requires pos + 1 < ParseElements(ts, pos, elements, commaAfterValue).value.1
    ensures pos < |ts| && ts[pos] != Lexer.CloseSquareBracket
  {
  }

  /** A key that is the last token is missing its colon. */
  lemma KeyAtEnd(ts: seq<Token>, pos: nat, members: map<string, JsonValue>, commaAfterValue: bool)
    requires pos + 1 == |ts| && ts[pos].String?
    ensures ParseMembers(ts, pos, members, commaAfterValue) == Failure(ExpectedColonAfterKey(None))
  {
  }

  /** Where a member should start, a token that is neither a key nor the
      closing brace is reported as the bad key, after a comma or not. */
  lemma KeyExpected(ts: seq<Token>, pos: nat, members: map<string, JsonValue>, commaAfterValue: bool)
    requires pos < |ts| && !ts[pos].String? && ts[pos] != Lexer.CloseCurlyBracket
    ensures ParseMembers(ts, pos, members, commaAfterValue) == Failure(ExpectedObjectKey(ts[pos]))
  {
  }

  /** A key followed by anything but a colon is reported with the token found. */
  lemma ColonExpected(ts: seq<Token>, pos: nat, members: map<string, JsonValue>, commaAfterValue: bool)
    requires pos + 1 < |ts| && ts[pos].String? && ts[pos + 1] != Lexer.Colon
    ensures ParseMembers(ts, pos, members, commaAfterValue) == Failure(ExpectedColonAfterKey(Some(ts[pos + 1])))
  {
  }

  /** Running out of tokens where the next member, element or value should
      start gives each loop its own error. */
  lemma LoopRanOut(ts: seq<Token>, members: map<string, JsonValue>, elements: seq<JsonValue>, commaAfterValue: bool)
    ensures ParseMembers(ts, |ts|, members, commaAfterValue) == Failure(ExpectedEndOfObject)
    ensures ParseElements(ts, |ts|, elements, commaAfterValue) == Failure(ExpectedEndOfArray)
    ensures ParseValue(ts, |ts|, None) == Failure(InvalidValue(None))
  {
  }

  /** A member that the object does not end right after is followed by a comma. */
  lemma MemberNotLast(ts: seq<Token>, pos: nat, members: map<string, JsonValue>, commaAfterValue: bool, value: JsonValue, after: nat)
    requires pos + 1 < |ts| && ts[pos].String? && ts[pos + 1] == Lexer.Colon
    requires ParseValue(ts, pos + 2, None) == Success((value, after))
    requires ParseMembers(ts, pos, members, commaAfterValue).Success?
    requires after + 1 < ParseMembers(ts, pos, members, commaAfterValue).value.1
    ensures after < |ts| && ts[after] == Lexer.Comma
  {
    MembersStep(ts, pos, members, commaAfterValue, value, after);
  }

  /** A member whose value fails to parse makes the object fail the same way. */
  lemma MemberValueFails(ts: seq<Token>, pos: nat, members: map<string, JsonValue>, commaAfterValue: bool)
    requires pos + 1 < |ts| && ts[pos].String? && ts[pos + 1] == Lexer.Colon
    requires ParseValue(ts, pos + 2, None).Failure?
    ensures ParseMembers(ts, pos, members, commaAfterValue) == Failure(ParseValue(ts, pos + 2, None).error)
  {
  }

  /** An element that fails to parse makes the array fail the same way. */
  lemma ElementValueFails(ts: seq<Token>, pos: nat, elements: seq<JsonValue>, commaAfterValue: bool)
    requires pos < |ts| && ts[pos] != Lexer.CloseSquareBracket
    requires ParseValue(ts, pos + 1, Some(ts[pos])).Failure?
    ensures ParseElements(ts, pos, elements, commaAfterValue) == Failure(ParseValue(ts, pos + 1, Some(ts[pos])).error)
  {
  }

  /** A prefix of a token sequence that parses is itself accepted exactly when
      it still holds the whole root, and then it gives the same value; a prefix
      that stops inside the root fails because the tokens ran out. */
  lemma RootPrefix(ts: seq<Token>, n: nat)
    requires ParseRoot(ts).Success? && n <= |ts|
    ensures Parse(ts[..n]).Success? <==> ParseRoot(ts).value.1 <= n
    ensures ParseRoot(ts).value.1 <= n ==> Parse(ts[..n]) == Parse(ts)
    ensures n == 0 ==> Parse(ts[..n]) == Failure(NoTokens)
    ensures 0 < n < ParseRoot(ts).value.1 ==> RanOut(Parse(ts[..n]).error)
  {
    var end := ParseRoot(ts).value.1;
    var cut := ts[..n];
    if n > 0 {
      assert cut[0] == ts[0];
      if end <= n {
        assert Agree(ts, cut, 1, end);
        if ts[0] == Lexer.OpenCurlyBracket {
          MembersAgrees(ts, cut, 1, map[], false);
        } else {
          ElementsAgrees(ts, cut, 1, [], false);
        }
      } else if ts[0] == Lexer.OpenCurlyBracket {
        assert Agree(ts, cut, 1, n);
        MembersTruncated(ts, cut, 1, map[], false);
      } else {
        assert Agree(ts, cut, 1, n);
        ElementsTruncated(ts, cut, 1, [], false);
      }
    }
  }

  /** After a comma inside an array, the array's own closing bracket is a
      trailing comma and a closing brace is a value that is not one. */
  lemma CommaBeforeArrayCloser(ts: seq<Token>, pos: nat, elements: seq<JsonValue>, commaAfterValue: bool, value: JsonValue, after: nat)
    requires pos < |ts| && ts[pos] != Lexer.CloseSquareBracket
    requires ParseValue(ts, pos + 1, Some(ts[pos])) == Success((value, after))
    requires after + 1 < |ts| && ts[after] == Lexer.Comma && IsCloser(ts[after + 1])
    ensures ts[after + 1] == Lexer.CloseSquareBracket ==>
              ParseElements(ts, pos, elements, commaAfterValue) == Failure(TrailingComma)
    ensures ts[after + 1] == Lexer.CloseCurlyBracket ==>
              ParseElements(ts, pos, elements, commaAfterValue) == Failure(InvalidValue(Some(Lexer.CloseCurlyBracket)))
  {
    ElementsStep(ts, pos, elements, commaAfterValue, value, after);
  }

  /** After a comma inside an object, the object's own closing brace is a
      trailing comma and a closing bracket is a key that is not one. */
  lemma CommaBeforeObjectCloser(ts: seq<Token>, pos: nat, members: map<string, JsonValue>, commaAfterValue: bool, value: JsonValue, after: nat)
    requires pos + 1 < |ts| && ts[pos].String? && ts[pos + 1] == Lexer.Colon
    requires ParseValue(ts, pos + 2, None) == Success((value, after))
    requires after + 1 < |ts| && ts[after] == Lexer.Comma && IsCloser(ts[after + 1])
    ensures ts[after + 1] == Lexer.CloseCurlyBracket ==>
              ParseMembers(ts, pos, members, commaAfterValue) == Failure(TrailingComma)
    ensures ts[after + 1] == Lexer.CloseSquareBracket ==>
              ParseMembers(ts, pos, members, commaAfterValue) == Failure(ExpectedObjectKey(Lexer.CloseSquareBracket))
  {
    MembersStep(ts, pos, members, commaAfterValue, value, after);
  }

  /** A scalar token becomes a value only when its text is exactly valid, and
      otherwise the error carries the offending text; a structural token other
      than an opening bracket is never a value. */
  lemma ScalarValidated(ts: seq<Token>, pos: nat, tok: Token)
    requires pos <= |ts|
    ensures var r := ParseValue(ts, pos, Some(tok));
      && (tok.String? ==> r == Success((String(tok.text), pos)))
      && (tok.Number? ==> (r.Success? <==> ParseF64(tok.text).Some?))
      && (tok.Number? && r.Success? ==> r.value == (Number(ParseF64(tok.text).value), pos))
      && (tok.Number? && r.Failure? ==> r.error == InvalidNumberValue(tok.text))
      && (tok.Boolean? ==> (r.Success? <==> tok.text == "true" || tok.text == "false"))
      && (tok.Boolean? && r.Success? ==> r.value == (Boolean(tok.text == "true"), pos))
      && (tok.Boolean? && r.Failure? ==> r.error == InvalidBooleanValue(tok.text))
      && (tok.Null? ==> (r.Success? <==> tok.text == "null"))
      && (tok.Null? && r.Success? ==> r.value == (Null, pos))
      && (tok.Null? && r.Failure? ==> r.error == InvalidNullValue(tok.text))
      && (tok.Colon? || tok.Comma? || IsCloser(tok) ==> r == Failure(InvalidValue(Some(tok))))
  {
  }

  /** The array loop only appends: the elements read before it was entered
      stay first, in order, in the array it returns. */
  lemma {:induction false} ElementsKeepOrder(ts: seq<Token>, pos: nat, elements: seq<JsonValue>, commaAfterValue: bool)
    requires pos <= |ts|
    requires ParseElements(ts, pos, elements, commaAfterValue).Success?
    ensures |elements| <= |ParseElements(ts, pos, elements, commaAfterValue).value.0.elements|
    ensures ParseElements(ts, pos, elements, commaAfterValue).value.0.elements[..|elements|] == elements
    decreases |ts| - pos
  {
    if ts[pos] != Lexer.CloseSquareBracket {
      var (value, after) := ParseValue(ts, pos + 1, Some(ts[pos])).value;
      ElementsStep(ts, pos, elements, commaAfterValue, value, after);
      if ts[after] == Lexer.Comma {
        ElementsKeepOrder(ts, after + 1, elements + [value], true);
        var result := ParseElements(ts, after + 1, elements + [value], true).value.0.elements;
        assert result[..|elements|] == (elements + [value])[..|elements|];
      }
    }
  }

  /** The object loop only adds keys: every member read before it was entered
      is still there unless a later member reuses its key, and every key of
      the result was either read before or stands in the tokens. */
  lemma {:induction false} MembersKeepKeys(ts: seq<Token>, pos: nat, members: map<string, JsonValue>, commaAfterValue: bool)
    requires pos <= |ts|
    requires ParseMembers(ts, pos, members, commaAfterValue).Success?
    ensures members.Keys <= ParseMembers(ts, pos, members, commaAfterValue).value.0.members.Keys
    ensures forall k :: k in ParseMembers(ts, pos, members, commaAfterValue).value.0.members ==>
              k in members || exists i :: pos <= i < ParseMembers(ts, pos, members, commaAfterValue).value.1 && ts[i] == Lexer.String(k)
    decreases |ts| - pos
  {
    if ts[pos] != Lexer.CloseCurlyBracket {
      var (value, after) := ParseValue(ts, pos + 2, None).value;
      var members' := members[ts[pos].text := value];
      MembersStep(ts, pos, members, commaAfterValue, value, after);
      assert ts[pos] == Lexer.String(ts[pos].text);
      if ts[after] == Lexer.Comma {
        MembersKeepKeys(ts, after + 1, members', true);
      }
    }
  }
}
