/** Which inputs make a conversion of the parser fail, and which make the parse undefined. */
module Conversions {
  import opened Bytes
  import opened Numerals
  import opened Escapes
  import opened Regex
  import opened ScannerRules
  import opened ScannerSpec
  import opened Values
  import opened Grammar
  import opened Encoder
  import opened Parser
  import opened RealText
  import opened Lexemes
  import opened Pipeline
  import Base64

  // --- Which conversion a parse fails in --------------------------------------------------------------

  predicate IsConverted(lib: Library, t: Token) {
    IsScalarCode(t.code) && Convert(lib, t).Ok?
  }

  predicate FailsAt(lib: Library, ts: seq<Token>, k: nat, f: Failure) {
    k < |ts| && IsScalarCode(ts[k].code) && Convert(lib, ts[k]) == Err(f)
  }

  /** The first `k` tokens are scalars that convert, each followed by a comma. */
  predicate Elements(lib: Library, ts: seq<Token>, k: nat) {
    && k <= |ts| && k % 2 == 0
    && forall i :: 0 <= i < k ==> if i % 2 == 0 then IsConverted(lib, ts[i]) else ts[i].code == COMMA
  }

  /** A scalar may stand at `k`, and all before it are converted. */
  predicate Reaches(lib: Library, ts: seq<Token>, k: nat) {
    && k < |ts|
    && (k > 0 ==> (ts[0].code == LBRACKET || ts[0].code == LBRACE) && Elements(lib, ts[1..], k - 1))
  }

  lemma ElementsTail(lib: Library, ts: seq<Token>, k: nat)
    requires 2 <= k <= |ts|
    ensures Elements(lib, ts, k)
       <==> IsConverted(lib, ts[0]) && ts[1].code == COMMA && Elements(lib, ts[1..][1..], k - 2)
  {
    hide IsConverted;
    var us := ts[1..][1..];
    assert forall i :: 0 <= i < |us| ==> us[i] == ts[i + 2];
    if Elements(lib, us, k - 2) && IsConverted(lib, ts[0]) && ts[1].code == COMMA {
      forall i | 0 <= i < k ensures if i % 2 == 0 then IsConverted(lib, ts[i]) else ts[i].code == COMMA {
        if i >= 2 {
          assert us[i - 2] == ts[i];
        }
      }
    }
  }

  lemma {:induction false} SeriesFailsIff(lib: Library, open: int, xs: seq<Scalar>, ts: seq<Token>, f: Failure)
    ensures NextScalar(lib, open, xs, ts) == Failed(f)
       <==> exists k: nat :: Elements(lib, ts, k) && FailsAt(lib, ts, k, f)
    decreases |ts|
  {
    hide Convert;
    if ts != [] && IsConverted(lib, ts[0]) {
      var x, us := Convert(lib, ts[0]).value, ts[1..];
      if us != [] && us[0].code == COMMA {
        SeriesFailsIff(lib, open, xs + [x], us[1..], f);
        assert forall i :: 0 <= i < |us[1..]| ==> us[1..][i] == ts[i + 2];
        if k: nat :| Elements(lib, us[1..], k) && FailsAt(lib, us[1..], k, f) {
          ElementsTail(lib, ts, k + 2);
          assert FailsAt(lib, ts, k + 2, f);
        }
        if k: nat :| Elements(lib, ts, k) && FailsAt(lib, ts, k, f) {
          ElementsTail(lib, ts, k);
          assert FailsAt(lib, us[1..], k - 2, f);
        }
      } else if k: nat :| Elements(lib, ts, k) && FailsAt(lib, ts, k, f) {
        ElementsTail(lib, ts, k);
      }
    } else {
      if k: nat :| Elements(lib, ts, k) && FailsAt(lib, ts, k, f) && k > 0 {
        ElementsTail(lib, ts, k);
      }
      assert ts != [] ==> Elements(lib, ts, 0);
    }
  }

  /** A parse fails in the way the first conversion fails that it reaches before it would reject. */
  lemma FailsIff(lib: Library, ts: seq<Token>, f: Failure)
    ensures ParseTokens(lib, ts) == Failed(f)
       <==> exists k: nat :: Reaches(lib, ts, k) && FailsAt(lib, ts, k, f)
  {
    hide Convert, NextScalar, Elements;
    if ts != [] && (ts[0].code == LBRACKET || ts[0].code == LBRACE) {
      var us := ts[1..];
      SeriesFailsIff(lib, ts[0].code, [], us, f);
      NextNeedsScalar(lib, ts[0].code, us);
      assert forall i :: 0 <= i < |us| ==> us[i] == ts[i + 1];
      if k: nat :| Elements(lib, us, k) && FailsAt(lib, us, k, f) {
        assert Reaches(lib, ts, k + 1) && FailsAt(lib, ts, k + 1, f);
      }
      if k: nat :| Reaches(lib, ts, k) && FailsAt(lib, ts, k, f) {
        assert Elements(lib, us, k - 1) && FailsAt(lib, us, k - 1, f);
      }
    } else if ts != [] && IsScalarCode(ts[0].code) {
      assert Reaches(lib, ts, 0);
    }
  }

  lemma NextNeedsScalar(lib: Library, open: int, ts: seq<Token>)
    ensures ts == [] || !IsScalarCode(ts[0].code) ==> NextScalar(lib, open, [], ts) == Rejected(None)
  {
  }

  // --- Which scanned text is undefined -----------------------------------------------------------------

  lemma {:induction false} StarIsAlphabet(w: seq<byte>)
    requires In(Star(Base64Char()), w)
    ensures Base64.InAlphabet(w)
    decreases |w|
  {
    if w != [] {
      var k :| 0 < k <= |w| && In(Base64Char(), w[..k]) && In(Star(Base64Char()), w[k..]);
      assert w[..k][0] == w[0] && k == 1;
      StarIsAlphabet(w[1..]);
      assert forall i :: 0 < i < |w| ==> w[i] == w[1..][i - 1];
    }
  }

  predicate ScannedBinary(t: Token) {
    t.code == BINARY ==> t.lexeme != [] && Base64.InAlphabet(t.lexeme[1..])
  }

  lemma {:induction false} NextIsBinary(s: seq<byte>)
    ensures ScannedBinary(Token(NextToken(s).code, NextToken(s).lexeme))
    decreases |s|
  {
    hide NextToken, MatchLength, PushBack, AutomatonRule, Base64.InAlphabet, Base64Char;
    TokenUnfold(s);
    var m := MatchLength(s);
    if s != [] && m == 0 {
      NextIsBinary(s[1..]);
    } else if s != [] && AutomatonRule(s[..m]) == 5 {
      NextIsBinary(PushBack(s, m));
    } else if s != [] && AutomatonRule(s[..m]) == 4 {
      AutomatonIsRules(s[..m]);
      CatCls(Chr(38).has, Star(Base64Char()), s[..m]);
      StarIsAlphabet(s[..m][1..]);
    }
  }

  lemma {:induction false} BinariesAreScanned(s: seq<byte>)
    ensures forall i :: 0 <= i < |Tokens(s)| ==> ScannedBinary(Tokens(s)[i])
    decreases |s|
  {
    hide NextToken, ScannedBinary;
    NextIsBinary(s);
    var r := NextToken(s);
    TokensUnfold(s);
    if r.code > 0 {
      BinariesAreScanned(r.rest);
    }
  }

  /** A binary token whose text has a last group of one character, or more pads than it makes bytes. */
  predicate MalformedBinary(t: Token) {
    t.code == BINARY && t.lexeme != [] && Base64.Malformed(t.lexeme[1..])
  }

  lemma ConversionIsUndefinedIff(lib: Library, t: Token)
    requires IsScalarCode(t.code) && ScannedBinary(t) && (t.code == STRING ==> |t.lexeme| >= 2)
    ensures Convert(lib, t) == Err(UndefinedBehaviour) <==> MalformedBinary(t)
    ensures t.code == BINARY ==> Convert(lib, t) != Err(Exception)
  {
    hide Base64.Decode, Base64.Malformed, Base64.InAlphabet;
    if t.code == BINARY {
      Base64.UndefinedIffMalformed(t.lexeme[1..]);
    }
  }

  /**
   * On what the scanner delivers, parsing is undefined exactly if a malformed binary stands where a scalar
   * may stand and everything before it is converted.
   */
  lemma UndefinedIff(lib: Library, text: seq<byte>)
    ensures var ts := Tokens(text);
            ParseTokens(lib, ts) == Failed(UndefinedBehaviour) <==>
              exists k: nat :: Reaches(lib, ts, k) && MalformedBinary(ts[k])
  {
    hide ParseTokens, Convert, Elements, Tokens, ScannedBinary, Base64.Malformed;
    var ts := Tokens(text);
    FailsIff(lib, ts, UndefinedBehaviour);
    BinariesAreScanned(text);
    TokensShaped(text);
    if k: nat :| Reaches(lib, ts, k) && FailsAt(lib, ts, k, UndefinedBehaviour) {
      ConversionIsUndefinedIff(lib, ts[k]);
    }
    if k: nat :| Reaches(lib, ts, k) && MalformedBinary(ts[k]) {
      ConversionIsUndefinedIff(lib, ts[k]);
      assert FailsAt(lib, ts, k, UndefinedBehaviour);
    }
  }

  lemma TwoPads()
    ensures Run(0, [38, 61, 61]) == 5
    ensures Base64.InAlphabet([61, 61]) && Base64.Malformed([61, 61])
  {
    var pads: seq<byte> := [61, 61];
    assert [38, 61, 61][1..] == pads && pads[..1] == [61] && pads[..1][..0] == [];
    assert Base64.PadCount(pads[..1]) == 1 && Base64.PadCount(pads) == 2;
    RunBase64(pads);
  }

  /** An ampersand and two pads: one byte is decoded, and two are to be erased. */
  lemma TwoPadsAreUndefined(lib: Library)
    ensures ParseTokens(lib, Tokens([38, 61, 61])) == Failed(UndefinedBehaviour)
  {
    hide Run, Tokens, Base64.Malformed;
    var w: seq<byte> := [38, 61, 61];
    TwoPads();
    assert AutomatonRule(w) == 4;
    LexemeIsToken(w, []);
    assert w + [] == w && w[1..] == [61, 61];
    var t := Token(BINARY, w);
    assert Tokens(w)[0] == t;
    ConversionIsUndefinedIff(lib, t);
  }

  // --- What the printer writes is defined --------------------------------------------------------------

  lemma PrintedConverts(lib: Library, x: Scalar, hex: bool)
    requires Printable(lib, x) && OneToken(lib, x, hex)
    ensures Convert(lib, Token(CodeOfScalar(lib, x), ScalarText(lib, x, hex))) != Err(UndefinedBehaviour)
  {
    hide EscapeText, Unescape, Base64.Encode, Base64.Decode, StoI, IntegerText;
    if x.Binary? {
      assert ScalarText(lib, x, hex)[1..] == Base64.Encode(x.bytes);
      Base64.RoundTrip(x.bytes);
    }
  }

  predicate Defined(r: Outcome) {
    r != Failed(UndefinedBehaviour)
  }

  lemma LettersAreDefined(lib: Library, open: int, done: seq<Scalar>, ts: seq<Token>)
    requires open == LBRACKET || open == LBRACE
    requires Spoiled(ts)
    ensures Defined(NextScalar(lib, open, done, ts)) && Defined(ParseTokens(lib, ts))
  {
  }

  lemma {:induction false} SeriesIsDefined(lib: Library, open: int, done: seq<Scalar>, xs: seq<Scalar>, hex: bool)
    requires open == LBRACKET || open == LBRACE
    requires xs != [] && AllPrintable(lib, xs)
    ensures Defined(NextScalar(lib, open, done, Tokens(ElementsText(lib, xs, true, hex) + [Closer(open)])))
    decreases |xs|
  {
    hide ScalarText, Tokens, Convert, Wrap;
    var x, close, hex' := xs[0], [Closer(open)], HexAfter(xs[0], hex);
    var text := ScalarText(lib, x, hex);
    var rest := ElementsText(lib, xs[1..], false, hex') + close;
    assert ElementsText(lib, xs, true, hex) + close == text + rest;
    LaterElements(lib, xs[1..], hex');
    if !OneToken(lib, x, hex) {
      LettersFirst(lib, x, hex, rest);
      LettersAreDefined(lib, open, done, Tokens(text + rest));
    } else {
      ScalarIsToken(lib, x, hex, rest);
      PrintedConverts(lib, x, hex);
      if |xs| == 1 {
        assert rest == close + [];
        PunctuationIsToken(Closer(open), []);
      } else {
        var more := ElementsText(lib, xs[1..], true, hex') + close;
        assert rest == [44] + more;
        PunctuationIsToken(44, more);
        var c := Convert(lib, Token(CodeOfScalar(lib, x), text));
        if c.Ok? {
          SeriesIsDefined(lib, open, done + [c.value], xs[1..], hex');
        }
      }
    }
  }

  lemma BracketsAreDefined(lib: Library, open: int, xs: seq<Scalar>, hex: bool)
    requires open == LBRACKET || open == LBRACE
    requires AllPrintable(lib, xs)
    ensures Defined(ParseTokens(lib, Tokens([open] + ElementsText(lib, xs, true, hex) + [Closer(open)])))
  {
    hide Tokens, ScalarText, Convert, Wrap, NextScalar;
    var text := ElementsText(lib, xs, true, hex) + [Closer(open)];
    assert [open] + ElementsText(lib, xs, true, hex) + [Closer(open)] == [open] + text;
    PunctuationIsToken(open, text);
    if xs != [] {
      SeriesIsDefined(lib, open, [], xs, hex);
    } else {
      assert text == [Closer(open)] + [];
      PunctuationIsToken(Closer(open), []);
    }
  }

  /** Whatever value is printed, parsing its text is never undefined. */
  lemma PrintedIsDefined(lib: Library, v: Value, hex: bool)
    requires ValuePrintable(lib, v)
    ensures Defined(ParseTokens(lib, Tokens(ValueText(lib, v, hex))))
  {
    hide Tokens, ElementsText, ScalarText, Convert;
    match v
    case Single(x) =>
      var text := ScalarText(lib, x, hex);
      assert text + [] == text;
      if OneToken(lib, x, hex) {
        ScalarIsToken(lib, x, hex, []);
        PrintedConverts(lib, x, hex);
      } else {
        LettersFirst(lib, x, hex, []);
        LettersAreDefined(lib, LBRACKET, [], Tokens(text));
      }
    case Sequence(xs) => BracketsAreDefined(lib, LBRACKET, xs, hex);
    case Tuple(xs) => BracketsAreDefined(lib, LBRACE, xs, hex);
  }
}
