/** A reference printer from values back to tokens, and the proof that the
    parser reads every printed value back. Every value the parser produces is
    printable, so reading a document, printing the value and reading the
    printed tokens gives the same value again. */
module Serializer {
  import opened Wrappers
  import opened Float64
  import Lexer
  import opened Parser
  import opened ParserProperties

  /** A number the printer writes so that it converts back: a terminating
      decimal, an infinity or not-a-number. Every finite number the
      conversion yields is a terminating decimal (`ConvertedTerminating`). */
  ghost predicate PrintableNumber(f: Float) {
    f.Finite? ==> Terminating(f.r)
  }

  ghost predicate Printable(v: JsonValue) {
    match v
    case Number(f) => PrintableNumber(f)
    case Array(es) => forall i :: 0 <= i < |es| ==> Printable(es[i])
    case Object(m) => forall k :: k in m ==> Printable(m[k])
    case _ => true
  }

  ghost predicate PrintableElements(es: seq<JsonValue>) {
    forall i :: 0 <= i < |es| ==> Printable(es[i])
  }

  lemma PrintableTail(es: seq<JsonValue>)
    requires es != [] && PrintableElements(es)
    ensures Printable(es[0]) && PrintableElements(es[1..])
  {
    assert forall i :: 0 <= i < |es[1..]| ==> es[1..][i] == es[i + 1];
  }

  /** Reading the first element and then the rest appends the whole list. */
  lemma AppendFirst(elements: seq<JsonValue>, es: seq<JsonValue>)
    requires es != []
    ensures elements + [es[0]] + es[1..] == elements + es
    ensures |es| == 1 ==> elements + [es[0]] == elements + es
  {
  }

  /** An integer and a power of ten whose quotient is `x`. */
  ghost function DecimalOf(x: real): (p: (int, nat))
    requires Terminating(x)
    ensures x == Decimal(p.0, p.1)
  {
    var n, k :| x == Decimal(n, k); (n, k)
  }

  /** Integers print without a point, other terminating decimals with one;
      a finite number of neither kind is not printable and prints as its
      integer part. */
  ghost function NumberText(f: Float): string {
    match f
    case Finite(r) =>
      if !IsIntegral(r) && Terminating(r) then DecimalText(DecimalOf(r).0, DecimalOf(r).1)
      else IntText(r.Floor)
    case Infinite(negative) => if negative then "-inf" else "inf"
    case NaN => "nan"
  }

  lemma NumberTextRoundTrip(f: Float)
    requires PrintableNumber(f)
    ensures ParseF64(NumberText(f)) == Some(f)
  {
    match f
    case Finite(r) =>
      if !IsIntegral(r) && Terminating(r) {
        var (n, k) := DecimalOf(r);
        DecimalTextRoundTrip(n, k);
      } else {
        IntTextRoundTrip(r.Floor);
      }
    case Infinite(negative) =>
      var body := "inf";
      assert LowerAscii(body) == body;
      if negative {
        assert NumberText(f)[1..] == body;
      }
    case NaN =>
      assert LowerAscii("nan") == "nan";
  }

  /** `s` occurs in `ts` starting at `pos`. */
  predicate At(ts: seq<Token>, pos: nat, s: seq<Token>)
    decreases |s|
  {
    if s == [] then pos <= |ts|
    else pos < |ts| && ts[pos] == s[0] && At(ts, pos + 1, s[1..])
  }

  lemma {:induction false} AtBound(ts: seq<Token>, pos: nat, s: seq<Token>)
    requires At(ts, pos, s)
    ensures pos + |s| <= |ts|
    decreases |s|
  {
    if s != [] {
      AtBound(ts, pos + 1, s[1..]);
    }
  }

  lemma {:induction false} AtConcat(ts: seq<Token>, pos: nat, a: seq<Token>, b: seq<Token>)
    requires At(ts, pos, a + b)
    ensures At(ts, pos, a) && At(ts, pos + |a|, b)
    decreases |a|
  {
    if a != [] {
      assert (a + b)[0] == a[0];
      assert (a + b)[1..] == a[1..] + b;
      AtConcat(ts, pos + 1, a[1..], b);
    } else {
      assert a + b == b;
      AtBound(ts, pos, b);
    }
  }

  lemma {:induction false} AtSuffix(ts: seq<Token>, pos: nat)
    requires pos <= |ts|
    ensures At(ts, pos, ts[pos..])
    decreases |ts| - pos
  {
    if pos < |ts| {
      assert ts[pos..][1..] == ts[pos + 1..];
      AtSuffix(ts, pos + 1);
    }
  }

  lemma {:induction false} AtIndex(ts: seq<Token>, pos: nat, s: seq<Token>, i: nat)
    requires At(ts, pos, s) && i < |s|
    ensures pos + i < |ts| && ts[pos + i] == s[i]
    decreases i
  {
    if i > 0 {
      AtIndex(ts, pos + 1, s[1..], i - 1);
    }
  }

  /** The tokens of a value: scalars as one token with their canonical text,
      arrays and objects bracketed with comma-separated contents. */
  ghost function Serialize(v: JsonValue): (ts: seq<Token>)
    ensures |ts| > 0 && StartsValue(ts[0])
    decreases v, 1
  {
    match v
    case String(s) => [Lexer.String(s)]
    case Number(f) => [Lexer.Number(NumberText(f))]
    case Boolean(b) => [Lexer.Boolean(if b then "true" else "false")]
    case Null => [Lexer.Null("null")]
    case Array(es) => [Lexer.OpenSquareBracket] + (SerializeElements(es) + [Lexer.CloseSquareBracket])
    case Object(_) => [Lexer.OpenCurlyBracket] + (SerializeObject(v) + [Lexer.CloseCurlyBracket])
  }

  /** The members of an object between its braces. */
  ghost function SerializeObject(v: JsonValue): seq<Token>
    requires v.Object?
    decreases v, 0
  {
    AllSubObject(v, v.members);
    SerializeMembers(v, v.members)
  }

  ghost function SerializeElements(es: seq<JsonValue>): (ts: seq<Token>)
    decreases es, 0
  {
    if es == [] then []
    else if |es| == 1 then Serialize(es[0])
    else Serialize(es[0]) + ([Lexer.Comma] + SerializeElements(es[1..]))
  }

  /** The key the printer writes first; any key will do, as objects are unordered. */
  ghost function PickKey(m: map<string, JsonValue>): (k: string)
    requires m != map[]
    ensures k in m
  {
    var k :| k in m; k
  }

  lemma RemoveKey(m: map<string, JsonValue>, k: string)
    requires k in m
    ensures |m - {k}| < |m|
  {
    assert (m - {k}).Keys == m.Keys - {k};
  }

  /** Every value in `m` is printable, walked in the printer's key order. */
  ghost predicate PrintableMembers(m: map<string, JsonValue>)
    decreases |m|
  {
    m != map[] ==>
      var k := PickKey(m);
      RemoveKey(m, k);
      Printable(m[k]) && PrintableMembers(m - {k})
  }

  lemma {:induction false} AllPrintableMembers(m: map<string, JsonValue>)
    requires forall k :: k in m ==> Printable(m[k])
    ensures PrintableMembers(m)
    decreases |m|
  {
    if m != map[] {
      var k := PickKey(m);
      RemoveKey(m, k);
      AllPrintableMembers(m - {k});
    }
  }

  /** `m` is a part of the members of the object `parent`, walked in the
      printer's key order. */
  ghost predicate SubObject(parent: JsonValue, m: map<string, JsonValue>)
    decreases |m|
  {
    parent.Object? &&
    (m != map[] ==>
      var k := PickKey(m);
      RemoveKey(m, k);
      k in parent.members && parent.members[k] == m[k] && SubObject(parent, m - {k}))
  }

  lemma {:induction false} AllSubObject(parent: JsonValue, m: map<string, JsonValue>)
    requires parent.Object? && forall k :: k in m ==> k in parent.members && parent.members[k] == m[k]
    ensures SubObject(parent, m)
    decreases |m|
  {
    if m != map[] {
      var k := PickKey(m);
      RemoveKey(m, k);
      AllSubObject(parent, m - {k});
    }
  }

  /** One member: its key, a colon and its value. */
  ghost function SerializeMember(k: string, v: JsonValue): seq<Token>
    decreases v, 2
  {
    [Lexer.String(k), Lexer.Colon] + Serialize(v)
  }

  ghost function SerializeMembers(parent: JsonValue, m: map<string, JsonValue>): (ts: seq<Token>)
    requires SubObject(parent, m)
    decreases parent, 0, |m|
  {
    if m == map[] then []
    else
      var k := PickKey(m);
      var rest := m - {k};
      RemoveKey(m, k);
      if rest == map[] then SerializeMember(k, m[k])
      else SerializeMember(k, m[k]) + ([Lexer.Comma] + SerializeMembers(parent, rest))
  }

  /** Where the tokens of a printed array or object sit, taken apart once so
      that the round-trip proofs need not unfold the printer. */
  lemma ArrayFrame(ts: seq<Token>, pos: nat, v: JsonValue)
    requires v.Array? && At(ts, pos, Serialize(v))
    ensures ts[pos] == Lexer.OpenSquareBracket
    ensures |Serialize(v)| == |SerializeElements(v.elements)| + 2
    ensures At(ts, pos + 1, SerializeElements(v.elements))
    ensures pos + 1 + |SerializeElements(v.elements)| < |ts|
    ensures ts[pos + 1 + |SerializeElements(v.elements)|] == Lexer.CloseSquareBracket
  {
    var inner := SerializeElements(v.elements);
    AtConcat(ts, pos, [Lexer.OpenSquareBracket], inner + [Lexer.CloseSquareBracket]);
    AtIndex(ts, pos, [Lexer.OpenSquareBracket], 0);
    AtConcat(ts, pos + 1, inner, [Lexer.CloseSquareBracket]);
    AtIndex(ts, pos + 1 + |inner|, [Lexer.CloseSquareBracket], 0);
  }

  lemma ObjectFrame(ts: seq<Token>, pos: nat, v: JsonValue)
    requires v.Object? && At(ts, pos, Serialize(v))
    ensures ts[pos] == Lexer.OpenCurlyBracket
    ensures |Serialize(v)| == |SerializeObject(v)| + 2
    ensures At(ts, pos + 1, SerializeObject(v))
    ensures pos + 1 + |SerializeObject(v)| < |ts|
    ensures ts[pos + 1 + |SerializeObject(v)|] == Lexer.CloseCurlyBracket
  {
    var inner := SerializeObject(v);
    AtConcat(ts, pos, [Lexer.OpenCurlyBracket], inner + [Lexer.CloseCurlyBracket]);
    AtIndex(ts, pos, [Lexer.OpenCurlyBracket], 0);
    AtConcat(ts, pos + 1, inner, [Lexer.CloseCurlyBracket]);
    AtIndex(ts, pos + 1 + |inner|, [Lexer.CloseCurlyBracket], 0);
  }

  /** A separator followed by the rest of a printed list. */
  lemma SeparatorFrame(ts: seq<Token>, pos: nat, first: seq<Token>, rest: seq<Token>)
    requires At(ts, pos, first + ([Lexer.Comma] + rest))
    ensures At(ts, pos, first)
    ensures pos + |first| < |ts| && ts[pos + |first|] == Lexer.Comma
    ensures At(ts, pos + |first| + 1, rest)
  {
    AtConcat(ts, pos, first, [Lexer.Comma] + rest);
    AtConcat(ts, pos + |first|, [Lexer.Comma], rest);
    AtIndex(ts, pos + |first|, [Lexer.Comma], 0);
  }

  lemma ElementsFrame(ts: seq<Token>, pos: nat, es: seq<JsonValue>)
    requires |es| > 1 && At(ts, pos, SerializeElements(es))
    ensures At(ts, pos, Serialize(es[0]))
    ensures |SerializeElements(es)| == |Serialize(es[0])| + 1 + |SerializeElements(es[1..])|
    ensures pos + |Serialize(es[0])| < |ts| && ts[pos + |Serialize(es[0])|] == Lexer.Comma
    ensures At(ts, pos + |Serialize(es[0])| + 1, SerializeElements(es[1..]))
  {
    assert SerializeElements(es) == Serialize(es[0]) + ([Lexer.Comma] + SerializeElements(es[1..]));
    SeparatorFrame(ts, pos, Serialize(es[0]), SerializeElements(es[1..]));
  }

  lemma MemberFrame(ts: seq<Token>, pos: nat, k: string, v: JsonValue)
    requires At(ts, pos, SerializeMember(k, v))
    ensures pos + 1 < |ts| && ts[pos] == Lexer.String(k) && ts[pos + 1] == Lexer.Colon
    ensures |SerializeMember(k, v)| == 2 + |Serialize(v)|
    ensures At(ts, pos + 2, Serialize(v))
  {
    AtConcat(ts, pos, [Lexer.String(k), Lexer.Colon], Serialize(v));
    AtIndex(ts, pos, [Lexer.String(k), Lexer.Colon], 0);
    AtIndex(ts, pos, [Lexer.String(k), Lexer.Colon], 1);
  }

  lemma LastMemberFrame(parent: JsonValue, m: map<string, JsonValue>)
    requires SubObject(parent, m) && m != map[] && m - {PickKey(m)} == map[]
    ensures SerializeMembers(parent, m) == SerializeMember(PickKey(m), m[PickKey(m)])
  {
  }

  lemma MembersFrame(ts: seq<Token>, pos: nat, parent: JsonValue, m: map<string, JsonValue>)
    requires SubObject(parent, m)
    requires m != map[] && m - {PickKey(m)} != map[] && At(ts, pos, SerializeMembers(parent, m))
    ensures var k := PickKey(m);
            var item := SerializeMember(k, m[k]);
            && At(ts, pos, item)
            && |SerializeMembers(parent, m)| == |item| + 1 + |SerializeMembers(parent, m - {k})|
            && pos + |item| < |ts| && ts[pos + |item|] == Lexer.Comma
            && At(ts, pos + |item| + 1, SerializeMembers(parent, m - {k}))
  {
    var k := PickKey(m);
    assert SerializeMembers(parent, m) == SerializeMember(k, m[k]) + ([Lexer.Comma] + SerializeMembers(parent, m - {k}));
    SeparatorFrame(ts, pos, SerializeMember(k, m[k]), SerializeMembers(parent, m - {k}));
  }

  /** The parser reads a printed value back whole, wherever it sits in the sequence. */
  lemma {:induction false} ValueRoundTrip(ts: seq<Token>, pos: nat, v: JsonValue)
    requires Printable(v) && At(ts, pos, Serialize(v))
    ensures ParseValue(ts, pos, None) == Success((v, pos + |Serialize(v)|))
    decreases |ts| - pos, 2
  {
    AtIndex(ts, pos, Serialize(v), 0);
    if v.Number? {
      NumberTextRoundTrip(v.number);
    } else if v.Array? {
      ArrayRoundTrip(ts, pos, v);
    } else if v.Object? {
      ObjectRoundTrip(ts, pos, v);
    }
  }

  lemma {:induction false} ArrayRoundTrip(ts: seq<Token>, pos: nat, v: JsonValue)
    requires v.Array? && Printable(v) && At(ts, pos, Serialize(v))
    ensures ParseValue(ts, pos, None) == Success((v, pos + |Serialize(v)|))
    decreases |ts| - pos, 1
  {
    ArrayFrame(ts, pos, v);
    ValueOpensArray(ts, pos);
    ArrayBodyRoundTrip(ts, pos + 1, v);
  }

  /** The elements of a printed array and its closing bracket. */
  lemma {:induction false} ArrayBodyRoundTrip(ts: seq<Token>, pos: nat, v: JsonValue)
    requires v.Array? && Printable(v) && At(ts, pos, SerializeElements(v.elements))
    requires pos + |SerializeElements(v.elements)| < |ts| && ts[pos + |SerializeElements(v.elements)|] == Lexer.CloseSquareBracket
    ensures ParseElements(ts, pos, [], false) == Success((v, pos + |SerializeElements(v.elements)| + 1))
    decreases |ts| - pos, 6
  {
    assert v == Array(v.elements);
    if v.elements == [] {
      ClosedAtOnce(ts, pos);
    } else {
      assert PrintableElements(v.elements);
      ElementsRoundTrip(ts, pos, v.elements, [], false);
      assert [] + v.elements == v.elements;
    }
  }

  lemma {:induction false} ObjectRoundTrip(ts: seq<Token>, pos: nat, v: JsonValue)
    requires v.Object? && Printable(v) && At(ts, pos, Serialize(v))
    ensures ParseValue(ts, pos, None) == Success((v, pos + |Serialize(v)|))
    decreases |ts| - pos, 1
  {
    ObjectFrame(ts, pos, v);
    ValueOpensObject(ts, pos);
    ObjectBodyRoundTrip(ts, pos + 1, v);
  }

  /** The members of a printed object and its closing brace. */
  lemma {:induction false} ObjectBodyRoundTrip(ts: seq<Token>, pos: nat, v: JsonValue)
    requires v.Object? && Printable(v) && At(ts, pos, SerializeObject(v))
    requires pos + |SerializeObject(v)| < |ts| && ts[pos + |SerializeObject(v)|] == Lexer.CloseCurlyBracket
    ensures ParseMembers(ts, pos, map[], false) == Success((v, pos + |SerializeObject(v)| + 1))
    decreases |ts| - pos, 6
  {
    assert v == Object(v.members);
    AllSubObject(v, v.members);
    assert SerializeObject(v) == SerializeMembers(v, v.members);
    if v.members == map[] {
      ClosedAtOnce(ts, pos);
    } else {
      AllPrintableMembers(v.members);
      MembersRoundTrip(ts, pos, v, v.members, map[], false);
      MergeEmpty(v.members);
    }
  }

  /** An object or array that closes straight away. */
  lemma ClosedAtOnce(ts: seq<Token>, pos: nat)
    requires pos < |ts|
    ensures ts[pos] == Lexer.CloseCurlyBracket ==> ParseMembers(ts, pos, map[], false) == Success((Object(map[]), pos + 1))
    ensures ts[pos] == Lexer.CloseSquareBracket ==> ParseElements(ts, pos, [], false) == Success((Array([]), pos + 1))
  {
  }

  /** A printed value inside an array is read back through the peeked token. */
  lemma ElementRoundTrip(ts: seq<Token>, pos: nat, v: JsonValue)
    requires Printable(v) && At(ts, pos, Serialize(v))
    ensures ts[pos] != Lexer.CloseSquareBracket
    ensures ParseValue(ts, pos + 1, Some(ts[pos])) == Success((v, pos + |Serialize(v)|))
    decreases |ts| - pos, 3
  {
    AtIndex(ts, pos, Serialize(v), 0);
    PeekedValue(ts, pos);
    ValueRoundTrip(ts, pos, v);
  }

  lemma {:induction false} ElementsRoundTrip(ts: seq<Token>, pos: nat, es: seq<JsonValue>,
                                             elements: seq<JsonValue>, commaAfterValue: bool)
    requires es != [] && PrintableElements(es)
    requires At(ts, pos, SerializeElements(es))
    requires pos + |SerializeElements(es)| < |ts| && ts[pos + |SerializeElements(es)|] == Lexer.CloseSquareBracket
    ensures ParseElements(ts, pos, elements, commaAfterValue)
            == Success((Array(elements + es), pos + |SerializeElements(es)| + 1))
    decreases |ts| - pos, 5
  {
    if |es| == 1 {
      LastElementRoundTrip(ts, pos, es, elements, commaAfterValue);
    } else {
      NextElementRoundTrip(ts, pos, es, elements, commaAfterValue);
    }
  }

  lemma LastElementRoundTrip(ts: seq<Token>, pos: nat, es: seq<JsonValue>,
                             elements: seq<JsonValue>, commaAfterValue: bool)
    requires |es| == 1 && PrintableElements(es)
    requires At(ts, pos, SerializeElements(es))
    requires pos + |SerializeElements(es)| < |ts| && ts[pos + |SerializeElements(es)|] == Lexer.CloseSquareBracket
    ensures ParseElements(ts, pos, elements, commaAfterValue)
            == Success((Array(elements + es), pos + |SerializeElements(es)| + 1))
    decreases |ts| - pos, 4
  {
    PrintableTail(es);
    assert SerializeElements(es) == Serialize(es[0]);
    ElementRoundTrip(ts, pos, es[0]);
    ElementsStep(ts, pos, elements, commaAfterValue, es[0], pos + |Serialize(es[0])|);
    AppendFirst(elements, es);
  }

  lemma {:induction false} NextElementRoundTrip(ts: seq<Token>, pos: nat, es: seq<JsonValue>,
                                                elements: seq<JsonValue>, commaAfterValue: bool)
    requires |es| > 1 && PrintableElements(es)
    requires At(ts, pos, SerializeElements(es))
    requires pos + |SerializeElements(es)| < |ts| && ts[pos + |SerializeElements(es)|] == Lexer.CloseSquareBracket
    ensures ParseElements(ts, pos, elements, commaAfterValue)
            == Success((Array(elements + es), pos + |SerializeElements(es)| + 1))
    decreases |ts| - pos, 4
  {
    var itemLength := |Serialize(es[0])|;
    var restLength := |SerializeElements(es[1..])|;
    ElementsFrame(ts, pos, es);
    ElementRoundTrip(ts, pos, es[0]);
    PrintableTail(es);
    ElementsRoundTrip(ts, pos + itemLength + 1, es[1..], elements + [es[0]], true);
    ElementsMore(ts, pos, elements, commaAfterValue, es[0], itemLength, es[1..], restLength);
    AppendFirst(elements, es);
  }

  /** The parser's view of one element followed by a comma and the rest. */
  lemma ElementsMore(ts: seq<Token>, pos: nat, elements: seq<JsonValue>, commaAfterValue: bool,
                     value: JsonValue, itemLength: nat, rest: seq<JsonValue>, restLength: nat)
    requires pos < |ts| && ts[pos] != Lexer.CloseSquareBracket
    requires ParseValue(ts, pos + 1, Some(ts[pos])) == Success((value, pos + itemLength))
    requires pos + itemLength < |ts| && ts[pos + itemLength] == Lexer.Comma
    requires ParseElements(ts, pos + itemLength + 1, elements + [value], true)
             == Success((Array(elements + [value] + rest), pos + itemLength + 1 + restLength + 1))
    ensures ParseElements(ts, pos, elements, commaAfterValue)
            == Success((Array(elements + [value] + rest), pos + itemLength + 1 + restLength + 1))
  {
    ElementsStep(ts, pos, elements, commaAfterValue, value, pos + itemLength);
  }

  /** Reading the first printed member and then the rest adds the whole map. */
  lemma MergeFirst(members: map<string, JsonValue>, m: map<string, JsonValue>, k: string)
    requires k in m
    ensures members[k := m[k]] + (m - {k}) == members + m
    ensures m - {k} == map[] ==> members[k := m[k]] == members + m
  {
  }

  lemma MergeEmpty(m: map<string, JsonValue>)
    ensures map[] + m == m
  {
  }

  /** A printed member is read back: key, colon and value. */
  lemma MemberRoundTrip(ts: seq<Token>, pos: nat, k: string, v: JsonValue)
    requires Printable(v) && At(ts, pos, SerializeMember(k, v))
    ensures pos + 1 < |ts| && ts[pos] == Lexer.String(k) && ts[pos + 1] == Lexer.Colon
    ensures ParseValue(ts, pos + 2, None) == Success((v, pos + |SerializeMember(k, v)|))
    decreases |ts| - pos, 3
  {
    MemberFrame(ts, pos, k, v);
    ValueRoundTrip(ts, pos + 2, v);
  }

  lemma {:induction false} MembersRoundTrip(ts: seq<Token>, pos: nat, parent: JsonValue, m: map<string, JsonValue>,
                                            members: map<string, JsonValue>, commaAfterValue: bool)
    requires SubObject(parent, m)
    requires m != map[] && PrintableMembers(m)
    requires At(ts, pos, SerializeMembers(parent, m))
    requires pos + |SerializeMembers(parent, m)| < |ts| && ts[pos + |SerializeMembers(parent, m)|] == Lexer.CloseCurlyBracket
    ensures ParseMembers(ts, pos, members, commaAfterValue)
            == Success((Object(members + m), pos + |SerializeMembers(parent, m)| + 1))
    decreases |ts| - pos, 5
  {
    if m - {PickKey(m)} == map[] {
      LastMemberRoundTrip(ts, pos, parent, m, members, commaAfterValue);
    } else {
      NextMemberRoundTrip(ts, pos, parent, m, members, commaAfterValue);
    }
  }

  lemma LastMemberRoundTrip(ts: seq<Token>, pos: nat, parent: JsonValue, m: map<string, JsonValue>,
                            members: map<string, JsonValue>, commaAfterValue: bool)
    requires SubObject(parent, m)
    requires m != map[] && m - {PickKey(m)} == map[] && PrintableMembers(m)
    requires At(ts, pos, SerializeMembers(parent, m))
    requires pos + |SerializeMembers(parent, m)| < |ts| && ts[pos + |SerializeMembers(parent, m)|] == Lexer.CloseCurlyBracket
    ensures ParseMembers(ts, pos, members, commaAfterValue)
            == Success((Object(members + m), pos + |SerializeMembers(parent, m)| + 1))
    decreases |ts| - pos, 4
  {
    var k := PickKey(m);
    MergeFirst(members, m, k);
    LastMemberFrame(parent, m);
    MemberRoundTrip(ts, pos, k, m[k]);
    MembersStep(ts, pos, members, commaAfterValue, m[k], pos + |SerializeMember(k, m[k])|);
  }

  lemma {:induction false} NextMemberRoundTrip(ts: seq<Token>, pos: nat, parent: JsonValue, m: map<string, JsonValue>,
                                               members: map<string, JsonValue>, commaAfterValue: bool)
    requires SubObject(parent, m)
    requires m != map[] && m - {PickKey(m)} != map[] && PrintableMembers(m)
    requires At(ts, pos, SerializeMembers(parent, m))
    requires pos + |SerializeMembers(parent, m)| < |ts| && ts[pos + |SerializeMembers(parent, m)|] == Lexer.CloseCurlyBracket
    ensures ParseMembers(ts, pos, members, commaAfterValue)
            == Success((Object(members + m), pos + |SerializeMembers(parent, m)| + 1))
    decreases |ts| - pos, 4
  {
    var k := PickKey(m);
    var rest := m - {k};
    MergeFirst(members, m, k);
    MembersFrame(ts, pos, parent, m);
    var itemLength := |SerializeMember(k, m[k])|;
    var restLength := |SerializeMembers(parent, rest)|;
    MemberRoundTrip(ts, pos, k, m[k]);
    MembersRoundTrip(ts, pos + itemLength + 1, parent, rest, members[k := m[k]], true);
    MembersMore(ts, pos, members, commaAfterValue, k, m[k], itemLength, rest, restLength);
  }

  /** The parser's view of one member followed by a comma and the rest. */
  lemma MembersMore(ts: seq<Token>, pos: nat, members: map<string, JsonValue>, commaAfterValue: bool,
                    k: string, value: JsonValue, itemLength: nat, rest: map<string, JsonValue>, restLength: nat)
    requires pos + 1 < |ts| && ts[pos] == Lexer.String(k) && ts[pos + 1] == Lexer.Colon
    requires ParseValue(ts, pos + 2, None) == Success((value, pos + itemLength))
    requires pos + itemLength < |ts| && ts[pos + itemLength] == Lexer.Comma
    requires ParseMembers(ts, pos + itemLength + 1, members[k := value], true)
             == Success((Object(members[k := value] + rest), pos + itemLength + 1 + restLength + 1))
    ensures ParseMembers(ts, pos, members, commaAfterValue)
            == Success((Object(members[k := value] + rest), pos + itemLength + 1 + restLength + 1))
  {
    MembersContinue(ts, pos, members, commaAfterValue, value, pos + itemLength);
  }

  /** Every printed object or array parses back to itself, and appending tokens
      after it changes nothing. */
  lemma RootRoundTrip(v: JsonValue, extra: seq<Token>)
    requires Printable(v) && (v.Array? || v.Object?)
    ensures Parse(Serialize(v)) == Success(v)
    ensures Parse(Serialize(v) + extra) == Success(v)
  {
    var s := Serialize(v);
    AtSuffix(s, 0);
    assert s[0..] == s;
    ValueRoundTrip(s, 0, v);
    assert ParseRoot(s) == ParseValue(s, 0, None);
    TrailingTokensIgnored(s, extra);
  }

  /** A key written twice in one object keeps the second value, whatever the
      two values are. */
  lemma DuplicateKeyOverwrites(k: string, a: JsonValue, b: JsonValue)
    requires Printable(a) && Printable(b)
    ensures Parse([Lexer.OpenCurlyBracket, Lexer.String(k), Lexer.Colon] + Serialize(a)
                  + [Lexer.Comma, Lexer.String(k), Lexer.Colon] + Serialize(b)
                  + [Lexer.CloseCurlyBracket])
            == Success(Object(map[k := b]))
  {
    var sa, sb := Serialize(a), Serialize(b);
    var ts := [Lexer.OpenCurlyBracket, Lexer.String(k), Lexer.Colon] + sa
              + [Lexer.Comma, Lexer.String(k), Lexer.Colon] + sb
              + [Lexer.CloseCurlyBracket];
    var comma := 3 + |sa|;
    var end := comma + 3 + |sb|;
    DuplicateLayout(ts, k, sa, sb, comma, end);
    ValueRoundTrip(ts, 3, a);
    ValueRoundTrip(ts, comma + 3, b);
    TwoMembers(ts, k, a, b, comma, end);
  }

  /** Where the tokens of the two members sit. */
  lemma DuplicateLayout(ts: seq<Token>, k: string, sa: seq<Token>, sb: seq<Token>, comma: nat, end: nat)
    requires ts == [Lexer.OpenCurlyBracket, Lexer.String(k), Lexer.Colon] + sa
                   + [Lexer.Comma, Lexer.String(k), Lexer.Colon] + sb
                   + [Lexer.CloseCurlyBracket]
    requires comma == 3 + |sa| && end == comma + 3 + |sb|
    ensures 3 <= comma && comma + 3 <= end < |ts|
    ensures ts[0] == Lexer.OpenCurlyBracket && ts[1] == Lexer.String(k) && ts[2] == Lexer.Colon
    ensures ts[comma] == Lexer.Comma && ts[comma + 1] == Lexer.String(k) && ts[comma + 2] == Lexer.Colon
    ensures ts[end] == Lexer.CloseCurlyBracket
    ensures At(ts, 3, sa) && At(ts, comma + 3, sb)
  {
    AtSlice(ts, 3, sa);
    AtSlice(ts, comma + 3, sb);
  }

  /** The parser's view of an object holding two members with the same key. */
  lemma TwoMembers(ts: seq<Token>, k: string, a: JsonValue, b: JsonValue, comma: nat, end: nat)
    requires 3 <= comma && comma + 3 <= end < |ts|
    requires ts[0] == Lexer.OpenCurlyBracket && ts[1] == Lexer.String(k) && ts[2] == Lexer.Colon
    requires ParseValue(ts, 3, None) == Success((a, comma))
    requires ts[comma] == Lexer.Comma && ts[comma + 1] == Lexer.String(k) && ts[comma + 2] == Lexer.Colon
    requires ParseValue(ts, comma + 3, None) == Success((b, end))
    requires ts[end] == Lexer.CloseCurlyBracket
    ensures Parse(ts) == Success(Object(map[k := b]))
  {
    MembersContinue(ts, 1, map[], false, a, comma);
    MembersStep(ts, comma + 1, map[k := a], true, b, end);
    assert map[k := a][k := b] == map[k := b];
  }

  lemma AtSlice(ts: seq<Token>, pos: nat, s: seq<Token>)
    requires pos + |s| <= |ts| && ts[pos..pos + |s|] == s
    ensures At(ts, pos, s)
  {
    AtSuffix(ts, pos);
    assert ts[pos..] == s + ts[pos + |s|..];
    AtConcat(ts, pos, s, ts[pos + |s|..]);
  }

  /** Every value the parser produces is printable. */
  lemma {:induction false} ParsedPrintable(ts: seq<Token>, pos: nat, peeked: Option<Token>)
    requires pos <= |ts|
    ensures ParseValue(ts, pos, peeked).Success? ==> Printable(ParseValue(ts, pos, peeked).value.0)
    decreases |ts| - pos, 1
  {
    if peeked.Some? || pos < |ts| {
      var tok := if peeked.Some? then peeked.value else ts[pos];
      var next := if peeked.Some? then pos else pos + 1;
      match tok
      case Number(text) =>
        if ParseF64(text).Some? && ParseF64(text).value.Finite? {
          ConvertedTerminating(text);
        }
      case OpenCurlyBracket => MembersPrintable(ts, next, map[], false);
      case OpenSquareBracket => ElementsPrintable(ts, next, [], false);
      case _ =>
    }
  }

  lemma {:induction false} MembersPrintable(ts: seq<Token>, pos: nat, members: map<string, JsonValue>, commaAfterValue: bool)
    requires pos <= |ts| && forall k :: k in members ==> Printable(members[k])
    ensures ParseMembers(ts, pos, members, commaAfterValue).Success? ==>
              Printable(ParseMembers(ts, pos, members, commaAfterValue).value.0)
    decreases |ts| - pos, 0
  {
    if pos + 1 < |ts| && ts[pos].String? && ts[pos + 1] == Lexer.Colon {
      ParsedPrintable(ts, pos + 2, None);
      var r := ParseValue(ts, pos + 2, None);
      if r.Success? {
        var (value, after) := r.value;
        var members' := members[ts[pos].text := value];
        MembersStep(ts, pos, members, commaAfterValue, value, after);
        if after < |ts| && ts[after] == Lexer.Comma {
          MembersPrintable(ts, after + 1, members', true);
        }
      }
    }
  }

  lemma {:induction false} ElementsPrintable(ts: seq<Token>, pos: nat, elements: seq<JsonValue>, commaAfterValue: bool)
    requires pos <= |ts| && forall i :: 0 <= i < |elements| ==> Printable(elements[i])
    ensures ParseElements(ts, pos, elements, commaAfterValue).Success? ==>
              Printable(ParseElements(ts, pos, elements, commaAfterValue).value.0)
    decreases |ts| - pos, 0
  {
    if pos < |ts| && ts[pos] != Lexer.CloseSquareBracket {
      ParsedPrintable(ts, pos + 1, Some(ts[pos]));
      var r := ParseValue(ts, pos + 1, Some(ts[pos]));
      if r.Success? {
        var (value, after) := r.value;
        var elements' := elements + [value];
        assert forall i :: 0 <= i < |elements'| ==> Printable(elements'[i]);
        ElementsStep(ts, pos, elements, commaAfterValue, value, after);
        if after < |ts| && ts[after] == Lexer.Comma {
          ElementsPrintable(ts, after + 1, elements', true);
        }
      }
    }
  }

  /** Printing any parsed document and parsing the printed tokens gives the
      same document back. */
  lemma ReparseRoundTrip(ts: seq<Token>)
    requires Parse(ts).Success?
    ensures Parse(Serialize(Parse(ts).value)) == Parse(ts)
  {
    var v := Parse(ts).value;
    assert ts != [] && (ts[0] == Lexer.OpenCurlyBracket || ts[0] == Lexer.OpenSquareBracket);
    ParsedPrintable(ts, 0, None);
    assert ParseRoot(ts) == ParseValue(ts, 0, None);
    RootRoundTrip(v, []);
  }
}
