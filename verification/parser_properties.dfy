/** Properties of the parser that hold for every token sequence: a successful
    parse reads no token past the point where it stops, pulling a token early
    changes nothing, and everything it consumed passed validation. */
module ParserProperties {
  import opened Wrappers
  import opened Float64
  import Lexer
  import opened Parser

  /** `ts'` holds the same tokens as `ts` at the positions in [lo, hi). */
  predicate Agree(ts: seq<Token>, ts': seq<Token>, lo: nat, hi: nat) {
    hi <= |ts| && hi <= |ts'| && forall i :: lo <= i < hi ==> ts'[i] == ts[i]
  }

  /** A successful parse reads only the tokens between where it starts and
      where it stops: any sequence holding the same tokens there parses alike. */
  lemma {:induction false} ValueAgrees(ts: seq<Token>, ts': seq<Token>, pos: nat, peeked: Option<Token>)
    requires pos <= |ts| && pos <= |ts'|
    requires ParseValue(ts, pos, peeked).Success?
    requires Agree(ts, ts', pos, ParseValue(ts, pos, peeked).value.1)
    ensures ParseValue(ts', pos, peeked) == ParseValue(ts, pos, peeked)
    decreases |ts| - pos, 1
  {
    var tok := if peeked.Some? then peeked.value else ts[pos];
    var next := if peeked.Some? then pos else pos + 1;
    assert peeked.None? ==> ts'[pos] == ts[pos];
    if tok == Lexer.OpenCurlyBracket {
      MembersAgrees(ts, ts', next, map[], false);
    } else if tok == Lexer.OpenSquareBracket {
      ElementsAgrees(ts, ts', next, [], false);
    }
  }

  lemma {:induction false} MembersAgrees(ts: seq<Token>, ts': seq<Token>, pos: nat, members: map<string, JsonValue>, commaAfterValue: bool)
    requires pos <= |ts| && pos <= |ts'|
    requires ParseMembers(ts, pos, members, commaAfterValue).Success?
    requires Agree(ts, ts', pos, ParseMembers(ts, pos, members, commaAfterValue).value.1)
    ensures ParseMembers(ts', pos, members, commaAfterValue) == ParseMembers(ts, pos, members, commaAfterValue)
    decreases |ts| - pos, 0
  {
    var end := ParseMembers(ts, pos, members, commaAfterValue).value.1;
    assert ts'[pos] == ts[pos];
    if ts[pos] != Lexer.CloseCurlyBracket {
      assert ts'[pos + 1] == ts[pos + 1];
      var (value, after) := ParseValue(ts, pos + 2, None).value;
      var members' := members[ts[pos].text := value];
      MembersStep(ts, pos, members, commaAfterValue, value, after);
      assert after < end by {
        if ts[after] == Lexer.Comma {
          assert end == ParseMembers(ts, after + 1, members', true).value.1;
        }
      }
      ValueAgrees(ts, ts', pos + 2, None);
      MembersStep(ts', pos, members, commaAfterValue, value, after);
      assert ts'[after] == ts[after];
      if ts[after] == Lexer.Comma {
        MembersAgrees(ts, ts', after + 1, members', true);
      }
    }
  }

  lemma {:induction false} ElementsAgrees(ts: seq<Token>, ts': seq<Token>, pos: nat, elements: seq<JsonValue>, commaAfterValue: bool)
    requires pos <= |ts| && pos <= |ts'|
    requires ParseElements(ts, pos, elements, commaAfterValue).Success?
    requires Agree(ts, ts', pos, ParseElements(ts, pos, elements, commaAfterValue).value.1)
    ensures ParseElements(ts', pos, elements, commaAfterValue) == ParseElements(ts, pos, elements, commaAfterValue)
    decreases |ts| - pos, 0
  {
    var end := ParseElements(ts, pos, elements, commaAfterValue).value.1;
    assert ts'[pos] == ts[pos];
    if ts[pos] != Lexer.CloseSquareBracket {
      var (value, after) := ParseValue(ts, pos + 1, Some(ts[pos])).value;
      ElementsStep(ts, pos, elements, commaAfterValue, value, after);
      assert after < end by {
        if ts[after] == Lexer.Comma {
          assert end == ParseElements(ts, after + 1, elements + [value], true).value.1;
        }
      }
      ValueAgrees(ts, ts', pos + 1, Some(ts[pos]));
      ElementsStep(ts', pos, elements, commaAfterValue, value, after);
      assert ts'[after] == ts[after];
      if ts[after] == Lexer.Comma {
        ElementsAgrees(ts, ts', after + 1, elements + [value], true);
      }
    }
  }

  /** Tokens after the root are ignored: appending anything to a sequence that
      parses leaves the result unchanged, and so does cutting the sequence just
      after the root. */
  lemma TrailingTokensIgnored(ts: seq<Token>, extra: seq<Token>)
    requires ParseRoot(ts).Success?
    ensures Parse(ts + extra) == Parse(ts)
    ensures Parse(ts[..ParseRoot(ts).value.1]) == Parse(ts)
  {
    var end := ParseRoot(ts).value.1;
    var longer := ts + extra;
    var cut := ts[..end];
    assert longer[0] == ts[0] && cut[0] == ts[0];
    assert Agree(ts, longer, 1, end);
    assert Agree(ts, cut, 1, end);
    if ts[0] == Lexer.OpenCurlyBracket {
      MembersAgrees(ts, longer, 1, map[], false);
      MembersAgrees(ts, cut, 1, map[], false);
    } else {
      ElementsAgrees(ts, longer, 1, [], false);
      ElementsAgrees(ts, cut, 1, [], false);
    }
  }

  /** Handing `parse_value` the token at the cursor as already pulled, as
      `parse_array` does, is the same as letting it pull that token itself. */
  lemma PeekedValue(ts: seq<Token>, pos: nat)
    requires pos < |ts|
    ensures ParseValue(ts, pos + 1, Some(ts[pos])) == ParseValue(ts, pos, None)
  {
  }

  /** The token texts the parser accepts as values. */
  predicate ScalarAccepted(t: Token) {
    match t
    case Number(p) => ParseF64(p).Some?
    case Boolean(p) => p == "true" || p == "false"
    case Null(p) => p == "null"
    case _ => true
  }

  /** Tokens that may start a value. */
  predicate StartsValue(t: Token) {
    t.String? || t.Number? || t.Boolean? || t.Null? || t == Lexer.OpenCurlyBracket || t == Lexer.OpenSquareBracket
  }

  predicate IsCloser(t: Token) {
    t == Lexer.CloseCurlyBracket || t == Lexer.CloseSquareBracket
  }

  /** What the tokens in [lo, hi) look like once a parse consumed them: every
      literal passed validation and every comma is followed by the start of a
      value (so never by a closing bracket or brace). */
  predicate Consumed(ts: seq<Token>, lo: nat, hi: nat)
    requires lo <= hi <= |ts|
  {
    && (forall i :: lo <= i < hi ==> ScalarAccepted(ts[i]))
    && (forall i :: lo <= i < hi && ts[i] == Lexer.Comma ==> i + 1 < hi && StartsValue(ts[i + 1]))
  }

  lemma {:induction false} ValueConsumed(ts: seq<Token>, pos: nat, peeked: Option<Token>)
    requires pos <= |ts|
    requires ParseValue(ts, pos, peeked).Success?
    ensures Consumed(ts, pos, ParseValue(ts, pos, peeked).value.1)
    ensures peeked.Some? ==> ScalarAccepted(peeked.value) && StartsValue(peeked.value)
    ensures peeked.None? ==> StartsValue(ts[pos])
    decreases |ts| - pos, 1
  {
    var tok := if peeked.Some? then peeked.value else ts[pos];
    var next := if peeked.Some? then pos else pos + 1;
    if tok == Lexer.OpenCurlyBracket {
      MembersConsumed(ts, next, map[], false);
    } else if tok == Lexer.OpenSquareBracket {
      ElementsConsumed(ts, next, [], false);
    }
  }

  lemma {:induction false} MembersConsumed(ts: seq<Token>, pos: nat, members: map<string, JsonValue>, commaAfterValue: bool)
    requires pos <= |ts|
    requires ParseMembers(ts, pos, members, commaAfterValue).Success?
    ensures Consumed(ts, pos, ParseMembers(ts, pos, members, commaAfterValue).value.1)
    ensures commaAfterValue ==> StartsValue(ts[pos])
    decreases |ts| - pos, 0
  {
    var end := ParseMembers(ts, pos, members, commaAfterValue).value.1;
    if ts[pos] != Lexer.CloseCurlyBracket {
      var (value, after) := ParseValue(ts, pos + 2, None).value;
      MembersStep(ts, pos, members, commaAfterValue, value, after);
      ValueConsumed(ts, pos + 2, None);
      if ts[after] == Lexer.Comma {
        var members' := members[ts[pos].text := value];
        MembersConsumed(ts, after + 1, members', true);
      }
      MemberConsumed(ts, pos, after, end);
    }
  }

  /** One member `key : value` in [pos, after), then either a comma and the
      consumed rest up to `end`, or the closing token just before `end`. */
  lemma MemberConsumed(ts: seq<Token>, pos: nat, after: nat, end: nat)
    requires pos + 2 <= after < end <= |ts|
    requires ts[pos].String? && ts[pos + 1] == Lexer.Colon
    requires Consumed(ts, pos + 2, after)
    requires ts[after] == Lexer.Comma ==> after + 1 < end && StartsValue(ts[after + 1]) && Consumed(ts, after + 1, end)
    requires ts[after] != Lexer.Comma ==> end == after + 1 && IsCloser(ts[after])
    ensures Consumed(ts, pos, end)
  {
    ConsumedCons(ts, pos + 1, after);
    ConsumedCons(ts, pos, after);
    ItemConsumed(ts, pos, after, end);
  }

  lemma {:induction false} ElementsConsumed(ts: seq<Token>, pos: nat, elements: seq<JsonValue>, commaAfterValue: bool)
    requires pos <= |ts|
    requires ParseElements(ts, pos, elements, commaAfterValue).Success?
    ensures Consumed(ts, pos, ParseElements(ts, pos, elements, commaAfterValue).value.1)
    ensures commaAfterValue ==> StartsValue(ts[pos])
    decreases |ts| - pos, 0
  {
    var end := ParseElements(ts, pos, elements, commaAfterValue).value.1;
    if ts[pos] != Lexer.CloseSquareBracket {
      var (value, after) := ParseValue(ts, pos + 1, Some(ts[pos])).value;
      ElementsStep(ts, pos, elements, commaAfterValue, value, after);
      ValueConsumed(ts, pos + 1, Some(ts[pos]));
      if ts[after] == Lexer.Comma {
        ElementsConsumed(ts, after + 1, elements + [value], true);
      }
      ConsumedCons(ts, pos, after);
      ItemConsumed(ts, pos, after, end);
    }
  }

  /** An item in [pos, after), then either a comma and the consumed rest up to
      `end`, or the closing token just before `end`. */
  lemma ItemConsumed(ts: seq<Token>, pos: nat, after: nat, end: nat)
    requires pos <= after < end <= |ts|
    requires Consumed(ts, pos, after)
    requires ts[after] == Lexer.Comma ==> after + 1 < end && StartsValue(ts[after + 1]) && Consumed(ts, after + 1, end)
    requires ts[after] != Lexer.Comma ==> end == after + 1 && IsCloser(ts[after])
    ensures Consumed(ts, pos, end)
  {
    if ts[after] == Lexer.Comma {
      ConsumedCons(ts, after, end);
    }
    ConsumedAppend(ts, pos, after, end);
  }

  lemma ConsumedCons(ts: seq<Token>, lo: nat, hi: nat)
    requires lo < hi <= |ts|
    requires ScalarAccepted(ts[lo])
    requires ts[lo] == Lexer.Comma ==> lo + 1 < hi && StartsValue(ts[lo + 1])
    requires Consumed(ts, lo + 1, hi)
    ensures Consumed(ts, lo, hi)
  {
  }

  lemma ConsumedAppend(ts: seq<Token>, lo: nat, mid: nat, hi: nat)
    requires lo <= mid <= hi <= |ts|
    requires Consumed(ts, lo, mid)
    requires forall i :: mid <= i < hi ==> ScalarAccepted(ts[i])
    requires forall i :: mid <= i < hi && ts[i] == Lexer.Comma ==> i + 1 < hi && StartsValue(ts[i + 1])
    ensures Consumed(ts, lo, hi)
  {
  }

  /** Everything up to the end of a successfully parsed root passed validation:
      every Boolean text is "true" or "false", every Null text is "null", every
      Number text converts, and no comma stands right before a closing bracket
      or brace. */
  lemma RootConsumed(ts: seq<Token>)
    requires ParseRoot(ts).Success?
    ensures Consumed(ts, 0, ParseRoot(ts).value.1)
    ensures forall i :: 0 <= i < ParseRoot(ts).value.1 - 1 && ts[i] == Lexer.Comma ==> !IsCloser(ts[i + 1])
  {
    if ts[0] == Lexer.OpenCurlyBracket {
      assert ParseRoot(ts) == ParseMembers(ts, 1, map[], false);
      MembersConsumed(ts, 1, map[], false);
    } else {
      assert ParseRoot(ts) == ParseElements(ts, 1, [], false);
      ElementsConsumed(ts, 1, [], false);
    }
    NoCommaBeforeCloser(ts, 0, ParseRoot(ts).value.1);
  }

  lemma NoCommaBeforeCloser(ts: seq<Token>, lo: nat, hi: nat)
    requires lo <= hi <= |ts| && Consumed(ts, lo, hi)
    ensures forall i :: lo <= i < hi - 1 && ts[i] == Lexer.Comma ==> !IsCloser(ts[i + 1])
  {
  }

  /** One iteration of each parsing loop, stated on its own so that longer
      proofs can take the parser one step at a time. */
  lemma ValueOpensArray(ts: seq<Token>, pos: nat)
    requires pos < |ts| && ts[pos] == Lexer.OpenSquareBracket
    ensures ParseValue(ts, pos, None) == ParseElements(ts, pos + 1, [], false)
  {
  }

  lemma ValueOpensObject(ts: seq<Token>, pos: nat)
    requires pos < |ts| && ts[pos] == Lexer.OpenCurlyBracket
    ensures ParseValue(ts, pos, None) == ParseMembers(ts, pos + 1, map[], false)
  {
  }

  lemma ElementsStep(ts: seq<Token>, pos: nat, elements: seq<JsonValue>, commaAfterValue: bool, value: JsonValue, after: nat)
    requires pos < |ts| && ts[pos] != Lexer.CloseSquareBracket
    requires ParseValue(ts, pos + 1, Some(ts[pos])) == Success((value, after))
    ensures after == |ts| ==> ParseElements(ts, pos, elements, commaAfterValue) == Failure(ExpectedCommaOrEndOfArray(None))
    ensures after < |ts| && ts[after] == Lexer.Comma ==>
              ParseElements(ts, pos, elements, commaAfterValue) == ParseElements(ts, after + 1, elements + [value], true)
    ensures after < |ts| && ts[after] == Lexer.CloseSquareBracket ==>
              ParseElements(ts, pos, elements, commaAfterValue) == Success((Array(elements + [value]), after + 1))
    ensures after < |ts| && ts[after] != Lexer.Comma && ts[after] != Lexer.CloseSquareBracket ==>
              ParseElements(ts, pos, elements, commaAfterValue) == Failure(ExpectedCommaOrEndOfArray(Some(ts[after])))
  {
  }

  lemma MembersStep(ts: seq<Token>, pos: nat, members: map<string, JsonValue>, commaAfterValue: bool, value: JsonValue, after: nat)
    requires pos + 1 < |ts| && ts[pos].String? && ts[pos + 1] == Lexer.Colon
    requires ParseValue(ts, pos + 2, None) == Success((value, after))
    ensures after == |ts| ==> ParseMembers(ts, pos, members, commaAfterValue) == Failure(ExpectedCommaOrEndOfObject(None))
    ensures after < |ts| && ts[after] == Lexer.Comma ==>
              ParseMembers(ts, pos, members, commaAfterValue) == ParseMembers(ts, after + 1, members[ts[pos].text := value], true)
    ensures after < |ts| && ts[after] == Lexer.CloseCurlyBracket ==>
              ParseMembers(ts, pos, members, commaAfterValue) == Success((Object(members[ts[pos].text := value]), after + 1))
    ensures after < |ts| && ts[after] != Lexer.Comma && ts[after] != Lexer.CloseCurlyBracket ==>
              ParseMembers(ts, pos, members, commaAfterValue) == Failure(ExpectedCommaOrEndOfObject(Some(ts[after])))
  {
  }

  /** An object member followed by a comma hands the rest to the next round. */
  lemma MembersContinue(ts: seq<Token>, pos: nat, members: map<string, JsonValue>, commaAfterValue: bool, value: JsonValue, after: nat)
    requires pos + 1 < |ts| && ts[pos].String? && ts[pos + 1] == Lexer.Colon
    requires ParseValue(ts, pos + 2, None) == Success((value, after))
    requires after < |ts| && ts[after] == Lexer.Comma
    ensures ParseMembers(ts, pos, members, commaAfterValue) == ParseMembers(ts, after + 1, members[ts[pos].text := value], true)
  {
    MembersStep(ts, pos, members, commaAfterValue, value, after);
  }

  /** After an element and a comma the array goes on with the next element. */
  lemma ElementsContinue(ts: seq<Token>, pos: nat, elements: seq<JsonValue>, commaAfterValue: bool, value: JsonValue, after: nat)
    requires pos < |ts| && ts[pos] != Lexer.CloseSquareBracket
    requires ParseValue(ts, pos + 1, Some(ts[pos])) == Success((value, after))
    requires after < |ts| && ts[after] == Lexer.Comma
    ensures ParseElements(ts, pos, elements, commaAfterValue) == ParseElements(ts, after + 1, elements + [value], true)
  {
    ElementsStep(ts, pos, elements, commaAfterValue, value, after);
  }
}
