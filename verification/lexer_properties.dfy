/** Properties of the lexer: what each kind of character yields, the fixed-length
    literal capture, the number-run rule, and the round trip through `Unlex`. */
module LexerProperties {
  import opened Wrappers
  import opened Lexer

  /** Renders a token sequence back to text, token after token, with no separators. */
  function Unlex(ts: seq<Token>): (s: string)
    ensures ts == [] ==> s == []
  {
    if ts == [] then [] else Render(ts[0]) + Unlex(ts[1..])
  }

  /** The first quote of `p + "\"" + rest` is the one after `p` when `p` has none. */
  lemma {:induction false} SplitStringAt(p: string, rest: string)
    requires '"' !in p
    ensures SplitString(p + ['"'] + rest) == Some((p, rest))
    decreases |p|
  {
    var s := p + ['"'] + rest;
    if p == [] {
      assert s[1..] == rest;
    } else {
      assert s[0] == p[0] && s[1..] == p[1..] + ['"'] + rest;
      SplitStringAt(p[1..], rest);
      assert [p[0]] + p[1..] == p;
    }
  }

  /** A run of number characters followed by something else splits exactly there. */
  lemma {:induction false} SplitNumberRunAt(p: string, rest: string)
    requires forall k :: 0 <= k < |p| ==> IsNumberChar(p[k])
    requires rest == [] || !IsNumberChar(rest[0])
    ensures SplitNumberRun(p + rest) == (p, rest)
    decreases |p|
  {
    var s := p + rest;
    if p == [] {
      assert s == rest;
    } else {
      assert s[0] == p[0] && s[1..] == p[1..] + rest;
      SplitNumberRunAt(p[1..], rest);
      assert [p[0]] + p[1..] == p;
    }
  }

  /** A token followed by more text: the token, then whatever that text lexes to. */
  lemma LexAfterPrepends(t: Token, after: string)
    requires WellShaped(t) && !t.Number? && (after != [] ==> FullLength(t))
    ensures LexAfter(t, after) == Prepend([t], Lex(after))
    ensures after == [] ==> LexAfter(t, after) == Success([t])
  {
    assert Lex([]) == Success([]);
    assert [t] + [] == [t];
  }

  /** A text starting with a number character is read as a number. */
  lemma StartsNumber(s: string)
    requires s != [] && IsNumberChar(s[0])
    ensures Lex(s) == LexNumber(s)
  {
    var c := s[0];
    assert StructuralToken(c).None? && c != '"' && c != 'f' && c != 't' && c != 'n';
  }

  /** A text starting with `f`, `t` or `n` is read as a literal. */
  lemma StartsLiteral(s: string)
    requires s != [] && (s[0] == 'f' || s[0] == 't' || s[0] == 'n')
    ensures Lex(s) == LexLiteral(s)
  {
    var c := s[0];
    assert StructuralToken(c).None? && c != '"';
  }

  /** Each structural character yields exactly its token. */
  lemma StructuralCharacters(c: char, rest: string)
    requires c in "{}[]:,"
    ensures Lex([c] + rest) == Prepend([StructuralToken(c).value], Lex(rest))
    ensures Lex([c]) == Success([StructuralToken(c).value])
  {
    var t := StructuralToken(c).value;
    assert ([c] + rest)[1..] == rest;
    assert [c][1..] == [];
    assert Lex([c] + rest) == LexAfter(t, rest);
    assert Lex([c]) == LexAfter(t, []);
    LexAfterPrepends(t, rest);
    LexAfterPrepends(t, []);
  }

  /** Space, newline and tab yield no token, however many there are. */
  lemma {:induction false} SkippedCharacters(w: string, rest: string)
    requires forall k :: 0 <= k < |w| ==> IsSkipped(w[k])
    ensures Lex(w + rest) == Lex(rest)
    decreases |w|
  {
    if w == [] {
      assert w + rest == rest;
    } else {
      var c := w[0];
      assert IsSkipped(c);
      assert StructuralToken(c).None? && c != '"' && c != 'f' && c != 't' && c != 'n' && !IsNumberChar(c);
      assert (w + rest)[0] == c && (w + rest)[1..] == w[1..] + rest;
      SkippedCharacters(w[1..], rest);
    }
  }

  /** A character that starts no token fails with `InvalidToken` of that character;
      carriage return and upper-case letters are among them. */
  lemma UnrecognisedCharacter(c: char, rest: string)
    requires c !in "{}[]:,\"ftn" && !IsNumberChar(c) && !IsSkipped(c)
    ensures Lex([c] + rest) == Failure(InvalidToken(c))
  {
  }

  /** A quoted text without quotes yields one `String` token holding it verbatim. */
  lemma StringToken(p: string, rest: string)
    requires '"' !in p
    ensures Lex(['"'] + p + ['"'] + rest) == Prepend([String(p)], Lex(rest))
    ensures Lex(['"'] + p + ['"']) == Success([String(p)])
  {
    StringTokenThen(p, rest);
    StringTokenThen(p, []);
    assert ['"'] + p + ['"'] + [] == ['"'] + p + ['"'];
    LexAfterPrepends(String(p), []);
  }

  lemma StringTokenThen(p: string, rest: string)
    requires '"' !in p
    ensures Lex(['"'] + p + ['"'] + rest) == LexAfter(String(p), rest)
    ensures LexAfter(String(p), rest) == Prepend([String(p)], Lex(rest))
  {
    var s := ['"'] + p + ['"'] + rest;
    SplitStringAt(p, rest);
    assert s[1..] == p + ['"'] + rest;
    assert Lex(s) == LexString(s[1..]);
    LexAfterPrepends(String(p), rest);
  }

  /** A string with no closing quote fails with `ExpectedEndOfString`. */
  lemma UnterminatedString(p: string)
    requires '"' !in p
    ensures Lex(['"'] + p) == Failure(ExpectedEndOfString)
  {
    assert (['"'] + p)[1..] == p;
  }

  /** A literal takes its fixed number of characters whatever they are: the
      token holds exactly those and lexing resumes right after them. */
  lemma LiteralCapture(p: string, rest: string)
    requires |p| > 0 && p[0] in "tfn"
    requires |p| == (if p[0] == 't' then TrueLength else if p[0] == 'f' then FalseLength else NullLength)
    ensures var tok := if p[0] == 'n' then Null(p) else Boolean(p);
            Lex(p + rest) == Prepend([tok], Lex(rest))
  {
    var s := p + rest;
    assert s[0] == p[0];
    assert s[..|p|] == p;
    assert s[|p|..] == rest;
    var tok := if p[0] == 'n' then Null(p) else Boolean(p);
    StartsLiteral(s);
    assert LexLiteral(s) == LexAfter(tok, rest);
    LexAfterPrepends(tok, rest);
  }

  /** A literal cut short by the end of the input is emitted as captured, with no error. */
  lemma TruncatedLiteral(p: string)
    requires |p| > 0 && p[0] in "tfn"
    requires |p| <= (if p[0] == 't' then TrueLength else if p[0] == 'f' then FalseLength else NullLength)
    ensures Lex(p) == Success([if p[0] == 'n' then Null(p) else Boolean(p)])
  {
    var c := p[0];
    var n := if c == 'f' then FalseLength else if c == 't' then TrueLength else NullLength;
    assert Capture(p, n) == (p, []);
    var tok := if c == 'n' then Null(p) else Boolean(p);
    StartsLiteral(p);
    assert LexLiteral(p) == LexAfter(tok, []);
    LexAfterPrepends(tok, []);
  }

  /** A number run stopped by `,`, `}` or `]` yields the number and then that delimiter. */
  lemma NumberThenDelimiter(p: string, c: char, rest: string)
    requires |p| > 0 && forall k :: 0 <= k < |p| ==> IsNumberChar(p[k])
    requires c in ",}]"
    ensures Lex(p + [c] + rest) == Prepend([Number(p), EndOfTokenValue(c).value], Lex(rest))
  {
    var s := p + [c] + rest;
    var t := EndOfTokenValue(c).value;
    assert s[0] == p[0] && s[1..] == p[1..] + ([c] + rest);
    StartsNumber(s);
    SplitNumberRunAt(p[1..], [c] + rest);
    assert [p[0]] + p[1..] == p;
    assert ([c] + rest)[1..] == rest;
    LexAfterPrepends(t, rest);
    NumberThenDelimiterJoin(Number(p), t, Lex(rest));
  }

  /** Prepending the number and then its delimiter is prepending both at once. */
  lemma NumberThenDelimiterJoin(number: Token, t: Token, r: Result<seq<Token>, TokenError>)
    ensures (match Prepend([t], r)
             case Success(ts) => Success([number] + ts)
             case Failure(e) => Failure(e))
            == Prepend([number, t], r)
  {
    if r.Success? {
      assert [number] + ([t] + r.value) == [number, t] + r.value;
    }
  }

  /** A number run that reaches the end of the input is the final token, with no error. */
  lemma NumberAtEnd(p: string)
    requires |p| > 0 && forall k :: 0 <= k < |p| ==> IsNumberChar(p[k])
    ensures Lex(p) == Success([Number(p)])
  {
    assert p[1..] + [] == p[1..];
    SplitNumberRunAt(p[1..], []);
    assert [p[0]] + p[1..] == p;
    assert LexNumber(p) == Success([Number(p)]);
    StartsNumber(p);
  }

  /** A number run stopped by anything but `,`, `}` or `]` (a space or a colon
      included) fails with `InvalidToken` of the stopping character. */
  lemma NumberStoppedByOther(p: string, c: char, rest: string)
    requires |p| > 0 && forall k :: 0 <= k < |p| ==> IsNumberChar(p[k])
    requires !IsNumberChar(c) && c !in ",}]"
    ensures Lex(p + [c] + rest) == Failure(InvalidToken(c))
  {
    var s := p + [c] + rest;
    assert s[0] == p[0] && s[1..] == p[1..] + ([c] + rest);
    StartsNumber(s);
    SplitNumberRunAt(p[1..], [c] + rest);
  }

  lemma LexerOutputTail(ts: seq<Token>)
    requires ts != [] && LexerOutput(ts)
    ensures LexerOutput(ts[1..])
  {
    var tail := ts[1..];
    forall i | 0 <= i < |tail| ensures WellShaped(tail[i]) { assert tail[i] == ts[i + 1]; }
    forall i | 0 <= i < |tail| - 1 ensures FullLength(tail[i]) { assert tail[i] == ts[i + 1]; }
    forall i | 0 <= i < |tail| - 1 && tail[i].Number? ensures IsTerminator(tail[i + 1]) {
      assert tail[i] == ts[i + 1] && tail[i + 1] == ts[i + 2];
    }
  }

  /** Any token other than a number lexes back from its rendering, whatever text follows
      it, as long as a short literal comes last. */
  lemma LexRenderedToken(t: Token, rest: string)
    requires WellShaped(t) && !t.Number?
    requires rest != [] ==> FullLength(t)
    ensures Lex(Render(t) + rest) == Prepend([t], Lex(rest))
  {
    if t.String? {
      StringToken(t.text, rest);
    } else if t.Boolean? || t.Null? {
      if rest == [] {
        TruncatedLiteral(t.text);
        assert Render(t) + rest == t.text;
        assert (if t.text[0] == 'n' then Null(t.text) else Boolean(t.text)) == t;
        assert Lex(rest) == Success([]) && [t] + [] == [t];
      } else {
        LiteralCapture(t.text, rest);
      }
    } else {
      var c := Render(t)[0];
      assert Render(t) == [c] && StructuralToken(c) == Some(t);
      StructuralCharacters(c, rest);
    }
  }

  /** Lexing the rendering of any sequence shaped like lexer output gives that
      sequence back: the lexer loses nothing but skipped whitespace. */
  lemma {:induction false} LexUnlex(ts: seq<Token>)
    requires LexerOutput(ts)
    ensures Lex(Unlex(ts)) == Success(ts)
    decreases |ts|
  {
    if ts != [] {
      var t := ts[0];
      var tail := ts[1..];
      LexerOutputTail(ts);
      assert WellShaped(t);
      if t.Number? && tail != [] {
        var d := tail[0];
        var tail2 := tail[1..];
        assert IsTerminator(d);
        LexerOutputTail(tail);
        LexUnlex(tail2);
        var c := Render(d)[0];
        assert Render(d) == [c] && c in ",}]" && EndOfTokenValue(c).value == d;
        assert Unlex(tail) == [c] + Unlex(tail2);
        assert Unlex(ts) == t.text + [c] + Unlex(tail2);
        NumberThenDelimiter(t.text, c, Unlex(tail2));
        assert [t, d] + tail2 == ts;
      } else if t.Number? {
        NumberAtEnd(t.text);
        assert Unlex(tail) == [];
        assert Unlex(ts) == t.text + [] == t.text;
        assert ts == [Number(t.text)];
      } else {
        LexUnlex(tail);
        assert tail != [] ==> FullLength(ts[0]);
        LexRenderedToken(t, Unlex(tail));
        assert Unlex(ts) == Render(t) + Unlex(tail);
        assert [t] + tail == ts;
      }
    }
  }

  /** Lexing, rendering and lexing again gives the same tokens. */
  lemma LexIdempotent(s: string)
    requires Lex(s).Success?
    ensures Lex(Unlex(Lex(s).value)) == Lex(s)
  {
    LexUnlex(Lex(s).value);
  }
}
