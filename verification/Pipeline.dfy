/** From values to text and back: which values survive printing, scanning and parsing. */
module Pipeline {
  import opened Bytes
  import opened Numerals
  import opened Escapes
  import opened RealText
  import opened ScannerTables
  import opened ScannerRules
  import opened ScannerSpec
  import opened ScannerInput
  import opened Values
  import opened Grammar
  import opened Lexemes
  import opened Encoder
  import opened Scanner
  import opened Parser
  import Base64

  // --- Scalars -------------------------------------------------------------------------------------------

  /** A real's text is one that streams print; nothing is asked of other scalars. */
  ghost predicate Printable(lib: Library, x: Scalar) {
    x.Real? ==> IsRealText(lib.realText(x.r))
  }

  ghost predicate AllPrintable(lib: Library, xs: seq<Scalar>) {
    forall i :: 0 <= i < |xs| ==> Printable(lib, xs[i])
  }

  /**
   * The scalars whose text is one token that converts back to them: integers as far as the flag allows, and
   * reals that are printed with a point and without a plus sign, if their digits are read as the same number.
   */
  predicate Survives(lib: Library, x: Scalar, hex: bool) {
    match x
    case Integer(i) => if hex then 0 <= i < 10 else IsInt32(i)
    case Real(r) => var s := lib.realText(r); HasPoint(s) && !HasPlus(s) && lib.stod(s) == Some(r)
    case _ => true
  }

  /** The token a scalar's text makes, if it makes one; a real without a point looks like an integer. */
  function CodeOfScalar(lib: Library, x: Scalar): int {
    match x
    case Boolean(_) => BOOLEAN
    case Integer(_) => INTEGER
    case Real(r) => if HasPoint(lib.realText(r)) then REAL else INTEGER
    case String(_) => STRING
    case Binary(_) => BINARY
  }

  /** Whether the text of a scalar is a single token. */
  predicate OneToken(lib: Library, x: Scalar, hex: bool) {
    match x
    case Integer(i) => hex ==> AllDigits(Numeral(16, if i < 0 then i + TWO_64 else i))
    case Real(r) => var s := lib.realText(r); if HasPoint(s) then !HasPlus(s) else !HasMark(s)
    case _ => true
  }

  /** States that are accepting, for the rule of the token, and read no delimiter. */
  predicate Ends(q: int, code: int) {
    && 0 <= q < 16 && Final(q) == code - BOOLEAN
    && Step(q, COMMA) == Step(q, RBRACKET) == Step(q, RBRACE) == -1
  }

  lemma EndStates()
    ensures Ends(12, BOOLEAN) && Ends(8, INTEGER) && Ends(7, REAL) && Ends(15, REAL) && Ends(10, STRING)
    ensures Ends(5, BINARY)
  {
  }

  lemma RunRealText(s: seq<byte>)
    requires IsRealText(s) && if HasPoint(s) then !HasPlus(s) else !HasMark(s)
    ensures s != [] && if HasPoint(s) then Run(0, s) == 7 || Run(0, s) == 15 else Run(0, s) == 8
  {
    hide Run, HasPoint, HasPlus, HasMark;
    var t :| Proper(t) && TextOf(t) == s;
    NotationIs(t);
    RunWhole(t);
    if t.fraction != [] {
      RunReal(t);
    } else {
      assert TextOf(t) == WholeText(t);
    }
  }

  lemma RunScalar(lib: Library, x: Scalar, hex: bool)
    requires Printable(lib, x) && OneToken(lib, x, hex)
    ensures Ends(Run(0, ScalarText(lib, x, hex)), CodeOfScalar(lib, x)) && ScalarText(lib, x, hex) != []
  {
    hide Run, Base64.Encode, EscapeText, Ends, HasPoint, HasPlus, HasMark, IntegerText, IsRealText;
    EndStates();
    match x
    case Boolean(b) => RunBoolean(b);
    case Integer(i) =>
      IntegerIsLexeme(i, hex);
      RunInteger(IntegerText(i, hex));
    case Real(r) => RunRealText(lib.realText(r));
    case String(s) => RunString(s);
    case Binary(bytes) => RunBinary(bytes);
  }

  lemma IntegerIsLexeme(i: int, hex: bool)
    requires IsLongLong(i)
    requires hex ==> AllDigits(Numeral(16, if i < 0 then i + TWO_64 else i))
    ensures IsIntegerLexeme(IntegerText(i, hex))
  {
    DecimalTextRoundTrip(i);
    HexIsUnsigned(if i < 0 then i + TWO_64 else i);
  }

  lemma ScalarIsToken(lib: Library, x: Scalar, hex: bool, rest: seq<byte>)
    requires Printable(lib, x) && OneToken(lib, x, hex) && Delimited(rest)
    ensures var text := ScalarText(lib, x, hex);
            Tokens(text + rest) == [Token(CodeOfScalar(lib, x), text)] + Tokens(rest)
  {
    hide ScalarText, Run, Tokens;
    RunScalar(lib, x, hex);
    LexemeIsToken(ScalarText(lib, x, hex), rest);
  }

  lemma ScalarConverts(lib: Library, x: Scalar, hex: bool)
    requires Printable(lib, x) && OneToken(lib, x, hex)
    ensures Convert(lib, Token(CodeOfScalar(lib, x), ScalarText(lib, x, hex))) == Ok(x) <==> Survives(lib, x, hex)
  {
    hide EscapeText, Unescape, Base64.Encode, Base64.Decode, StoI, IntegerText, HasPoint, HasPlus, HasMark, IsRealText;
    var text := ScalarText(lib, x, hex);
    match x
    case Boolean(_) =>
    case Integer(i) => IntegerRoundTrip(i, hex);
    case Real(_) =>
    case String(s) =>
      assert text[1..|text| - 1] == EscapeText(s);
      EscapeRoundTrip(s);
    case Binary(bytes) =>
      assert text[1..] == Base64.Encode(bytes);
      Base64.RoundTrip(bytes);
  }

  /** The text of a scalar that is not one token has a letter among its first two. */
  lemma LettersFirst(lib: Library, x: Scalar, hex: bool, rest: seq<byte>)
    requires Printable(lib, x) && !OneToken(lib, x, hex)
    ensures Spoiled(Tokens(ScalarText(lib, x, hex) + rest))
  {
    hide Tokens;
    if x.Real? {
      var t :| Proper(t) && TextOf(t) == lib.realText(x.r);
      NotationIs(t);
      MarkTokens(t, rest);
    } else {
      NumeralIsHexText(if x.i < 0 then x.i + TWO_64 else x.i);
      HexTokens(ScalarText(lib, x, hex), rest);
    }
  }

  // --- Series ----------------------------------------------------------------------------------------------

  predicate AllSurvive(lib: Library, xs: seq<Scalar>, hex: bool) {
    xs == [] || (Survives(lib, xs[0], hex) && AllSurvive(lib, xs[1..], HexAfter(xs[0], hex)))
  }

  /** What is accepted after some elements starts with them. */
  lemma {:induction false} AcceptedExtends(lib: Library, open: int, done: seq<Scalar>, ts: seq<Token>)
    returns (all: seq<Scalar>)
    requires SeriesRest(lib, open, done, ts).Accepted?
    ensures done <= all && SeriesRest(lib, open, done, ts) == Accepted(Wrap(open, all))
    decreases |ts|
  {
    all := done;
    if ts[0].code == COMMA {
      all := AcceptedExtends(lib, open, done + [Convert(lib, ts[1]).value], ts[1..][1..]);
    }
  }

  lemma DifferentElement(done: seq<Scalar>, x: Scalar, all: seq<Scalar>, xs: seq<Scalar>)
    requires done + [x] <= all && xs != [] && x != xs[0]
    ensures all != done + xs
  {
    assert all[|done|] == x && (done + xs)[|done|] == xs[0];
  }

  /** A scalar that does not survive keeps the series from being read back. */
  lemma LostScalar(lib: Library, open: int, done: seq<Scalar>, xs: seq<Scalar>, hex: bool, rest: seq<byte>)
    requires xs != [] && Printable(lib, xs[0]) && !Survives(lib, xs[0], hex) && Delimited(rest)
    ensures NextScalar(lib, open, done, Tokens(ScalarText(lib, xs[0], hex) + rest)) != Accepted(Wrap(open, done + xs))
  {
    var x := xs[0];
    var text := ScalarText(lib, x, hex);
    var ts := Tokens(text + rest);
    if OneToken(lib, x, hex) {
      ScalarIsToken(lib, x, hex, rest);
      ScalarConverts(lib, x, hex);
      var c := Convert(lib, ts[0]);
      if NextScalar(lib, open, done, ts).Accepted? {
        var all := AcceptedExtends(lib, open, done + [c.value], ts[1..]);
        DifferentElement(done, c.value, all, xs);
      }
    } else {
      LettersFirst(lib, x, hex, rest);
    }
  }

  lemma LaterElements(lib: Library, xs: seq<Scalar>, hex: bool)
    ensures xs != [] ==> ElementsText(lib, xs, false, hex) == [44] + ElementsText(lib, xs, true, hex)
  {
  }

  /** A series is read back exactly if every element of it survives. */
  lemma {:induction false} SeriesReadBack(lib: Library, open: int, done: seq<Scalar>, xs: seq<Scalar>, hex: bool)
    requires open == LBRACKET || open == LBRACE
    requires xs != [] && AllPrintable(lib, xs)
    ensures var text := ElementsText(lib, xs, true, hex) + [Closer(open)];
            NextScalar(lib, open, done, Tokens(text)) == Accepted(Wrap(open, done + xs)) <==> AllSurvive(lib, xs, hex)
    decreases |xs|
  {
    hide ScalarText, Tokens, Convert, Wrap;
    var x, close, hex' := xs[0], [Closer(open)], HexAfter(xs[0], hex);
    var text := ScalarText(lib, x, hex);
    var rest := ElementsText(lib, xs[1..], false, hex') + close;
    assert ElementsText(lib, xs, true, hex) + close == text + rest;
    LaterElements(lib, xs[1..], hex');
    if !Survives(lib, x, hex) {
      LostScalar(lib, open, done, xs, hex, rest);
    } else {
      SurvivorIsOneToken(lib, x, hex);
      ScalarIsToken(lib, x, hex, rest);
      ScalarConverts(lib, x, hex);
      if |xs| == 1 {
        assert rest == close + [] && done + xs == done + [x];
        PunctuationIsToken(Closer(open), []);
        NoTokens();
      } else {
        var more := ElementsText(lib, xs[1..], true, hex') + close;
        assert rest == [44] + more && done + [x] + xs[1..] == done + xs;
        PunctuationIsToken(44, more);
        SeriesReadBack(lib, open, done + [x], xs[1..], hex');
      }
    }
  }

  lemma SurvivorIsOneToken(lib: Library, x: Scalar, hex: bool)
    requires Survives(lib, x, hex)
    ensures OneToken(lib, x, hex)
  {
  }

  // --- Whole values ------------------------------------------------------------------------------------------

  ghost predicate ValuePrintable(lib: Library, v: Value) {
    match v
    case Single(x) => Printable(lib, x)
    case Sequence(xs) => AllPrintable(lib, xs)
    case Tuple(xs) => AllPrintable(lib, xs)
  }

  predicate ValueSurvives(lib: Library, v: Value, hex: bool) {
    match v
    case Single(x) => Survives(lib, x, hex)
    case Sequence(xs) => AllSurvive(lib, xs, hex)
    case Tuple(xs) => AllSurvive(lib, xs, hex)
  }

  lemma SeriesRoundTrip(lib: Library, open: int, xs: seq<Scalar>, hex: bool)
    requires open == LBRACKET || open == LBRACE
    requires AllPrintable(lib, xs)
    ensures var ts := Tokens([open] + ElementsText(lib, xs, true, hex) + [Closer(open)]);
            ParseTokens(lib, ts) == Accepted(Wrap(open, xs)) <==> AllSurvive(lib, xs, hex)
  {
    hide Tokens, ScalarText, Convert, Survives, Wrap;
    var text := ElementsText(lib, xs, true, hex) + [Closer(open)];
    assert [open] + ElementsText(lib, xs, true, hex) + [Closer(open)] == [open] + text;
    PunctuationIsToken(open, text);
    if xs == [] {
      assert text == [Closer(open)] + [];
      PunctuationIsToken(Closer(open), []);
      NoTokens();
    } else {
      SeriesReadBack(lib, open, [], xs, hex);
      assert [] + xs == xs;
      FirstElement(lib, xs, hex, [Closer(open)]);
    }
  }

  /** Whatever a series starts with, it is not the closing character. */
  lemma FirstElement(lib: Library, xs: seq<Scalar>, hex: bool, close: seq<byte>)
    requires xs != [] && Printable(lib, xs[0]) && Delimited(close)
    ensures var ts := Tokens(ElementsText(lib, xs, true, hex) + close);
            ts != [] && (IsScalarCode(ts[0].code) || (IsLetter(ts[0].code) && !AllSurvive(lib, xs, hex)))
  {
    hide Tokens, ScalarText;
    var x := xs[0];
    var rest := ElementsText(lib, xs[1..], false, HexAfter(x, hex)) + close;
    assert ElementsText(lib, xs, true, hex) + close == ScalarText(lib, x, hex) + rest;
    LaterElements(lib, xs[1..], HexAfter(x, hex));
    if OneToken(lib, x, hex) {
      ScalarIsToken(lib, x, hex, rest);
    } else {
      LettersFirst(lib, x, hex, rest);
      if Survives(lib, x, hex) {
        SurvivorIsOneToken(lib, x, hex);
      }
    }
  }

  lemma ScalarRoundTrip(lib: Library, x: Scalar, hex: bool)
    requires Printable(lib, x)
    ensures ParseTokens(lib, Tokens(ScalarText(lib, x, hex))) == Accepted(Single(x)) <==> Survives(lib, x, hex)
  {
    hide Tokens, ScalarText, Convert, Survives, OneToken;
    var text := ScalarText(lib, x, hex);
    assert text + [] == text;
    NoTokens();
    if OneToken(lib, x, hex) {
      ScalarIsToken(lib, x, hex, []);
      ScalarConverts(lib, x, hex);
    } else {
      LettersFirst(lib, x, hex, []);
      if Survives(lib, x, hex) {
        SurvivorIsOneToken(lib, x, hex);
      }
    }
  }

  /**
   * A value is read back from its text exactly if every integer in it fits 32 bits and, where it follows a
   * string that needed a hexadecimal escape, has a single decimal digit; and every real in it is printed with
   * a point and without a plus sign, and its digits are read as the same number.
   */
  lemma RoundTrip(lib: Library, v: Value, hex: bool)
    requires ValuePrintable(lib, v)
    ensures ParseTokens(lib, Tokens(ValueText(lib, v, hex))) == Accepted(v) <==> ValueSurvives(lib, v, hex)
  {
    hide Tokens, ElementsText, ScalarText, ParseTokens;
    match v
    case Single(x) => ScalarRoundTrip(lib, x, hex);
    case Sequence(xs) => SeriesRoundTrip(lib, LBRACKET, xs, hex);
    case Tuple(xs) => SeriesRoundTrip(lib, LBRACE, xs, hex);
  }

  /** Whether an element is printed in hexadecimal: a string before it needed a hexadecimal escape. */
  predicate HexAt(xs: seq<Scalar>, i: nat, hex: bool)
    requires i <= |xs|
  {
    hex || exists j :: 0 <= j < i && xs[j].String? && AnyHex(xs[j].s)
  }

  lemma HexAtTail(xs: seq<Scalar>, i: nat, hex: bool)
    requires i < |xs|
    ensures HexAt(xs[1..], i, HexAfter(xs[0], hex)) == HexAt(xs, i + 1, hex)
  {
    if j :| 0 <= j < i && xs[1..][j].String? && AnyHex(xs[1..][j].s) {
      assert xs[j + 1].String? && AnyHex(xs[j + 1].s);
    }
    if j :| 0 < j < i + 1 && xs[j].String? && AnyHex(xs[j].s) {
      assert xs[1..][j - 1].String? && AnyHex(xs[1..][j - 1].s);
    }
  }

  /** The condition of the round trip, element by element. */
  lemma {:induction false} AllSurviveMeans(lib: Library, xs: seq<Scalar>, hex: bool)
    ensures AllSurvive(lib, xs, hex) <==> forall i :: 0 <= i < |xs| ==> Survives(lib, xs[i], HexAt(xs, i, hex))
    decreases |xs|
  {
    hide AnyHex;
    if xs != [] {
      var hex' := HexAfter(xs[0], hex);
      AllSurviveMeans(lib, xs[1..], hex');
      assert HexAt(xs, 0, hex) == hex;
      forall i | 0 <= i < |xs[1..]|
        ensures Survives(lib, xs[1..][i], HexAt(xs[1..], i, hex')) == Survives(lib, xs[i + 1], HexAt(xs, i + 1, hex))
      {
        HexAtTail(xs, i, hex);
      }
      if AllSurvive(lib, xs, hex) {
        forall i | 0 <= i < |xs| ensures Survives(lib, xs[i], HexAt(xs, i, hex)) {
          if i > 0 {
            assert Survives(lib, xs[1..][i - 1], HexAt(xs[1..], i - 1, hex'));
          }
        }
      } else if Survives(lib, xs[0], hex) {
        var i :| 0 <= i < |xs[1..]| && !Survives(lib, xs[1..][i], HexAt(xs[1..], i, hex'));
        assert !Survives(lib, xs[i + 1], HexAt(xs, i + 1, hex));
      }
    }
  }

  // --- Accepted texts and what stands behind them ------------------------------------------------------

  /** Whether the value is accepted, and the whole text was read for it. */
  predicate AcceptedWhole(lib: Library, text: seq<byte>, v: Value) {
    ParseTokens(lib, Tokens(text)) == Accepted(v) && ReadToEnd(text)
  }

  /** A text is accepted as a whole exactly if it is accepted and no byte from 128 on stands outside a string. */
  lemma WholeIffClean(lib: Library, text: seq<byte>, v: Value)
    requires ParseTokens(lib, Tokens(text)) == Accepted(v)
    ensures AcceptedWhole(lib, text, v) <==> Clean(text)
  {
    hide ParseTokens, Tokens, Clean, ReadToEnd;
    ReadToEndIffClean(text);
  }

  /** The digit five, the byte 128 and a closing bracket: 5 is accepted, and the bracket is never looked at. */
  lemma HighByteEndsInput(lib: Library)
    ensures ParseTokens(lib, Tokens([53, 128, 93])) == Accepted(Single(Integer(5))) && !Clean([53, 128, 93])
  {
    var rest: seq<byte> := [128, 93];
    assert [53, 128, 93] == [53 as byte] + rest;
    IntegerIsToken([53], rest);
    HighByte(rest);
    TokensUnfold(rest);
    assert Convert(lib, Token(INTEGER, [53])) == Ok(Integer(5)) by {
      IntegerRoundTrip(5, false);
    }
    assert ([53 as byte] + rest)[1..] == rest;
  }

  /** The digit five and a closing bracket: 1 is returned, and the result is already 5. */
  lemma BracketBehindInteger(lib: Library)
    ensures ParseTokens(lib, Tokens([53, 93])) == Rejected(Some(Single(Integer(5))))
  {
    hide Tokens;
    IntegerIsToken([53], [93]);
    PunctuationIsToken(93, []);
    assert [53, 93] == [53 as byte] + [93] && [93] + [] == [93 as byte];
    assert Convert(lib, Token(INTEGER, [53])) == Ok(Integer(5)) by {
      IntegerRoundTrip(5, false);
    }
  }

  /** The whole pipeline on the imperative printer, scanner and parser. */
  method PrintAndParse(lib: Library, v: Value) returns (end: Ending, result: Value)
    requires ValuePrintable(lib, v)
    ensures end == Returned(0) && result == v <==> ValueSurvives(lib, v, false)
  {
    var out := new Stream();
    var encoder := new Encoder(out, lib);
    encoder.EncodeValue(v);
    assert out.text == ValueText(lib, v, false);
    RoundTrip(lib, v, false);
    var scanner := new Scanner(out.text);
    var parser := new Parser(lib, scanner);
    end := parser.Parse();
    result := parser.result;
  }
}
