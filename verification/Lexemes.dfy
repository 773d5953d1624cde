/** What the scanner makes of the texts that scalars are printed as. */
module Lexemes {
  import opened Bytes
  import opened Numerals
  import opened Escapes
  import opened RealText
  import opened ScannerTables
  import opened ScannerRules
  import opened ScannerSpec
  import opened Grammar
  import Base64

  /** The states in which digits are read one after the other: of integers, fractions and exponents. */
  lemma {:induction false} RunDigits(q: nat, s: seq<byte>)
    requires (q == 7 || q == 8 || q == 15) && AllDigits(s)
    ensures Run(q, s) == q
  {
    if s != [] {
      RunDigits(q, s[1..]);
    }
  }

  lemma RunInteger(s: seq<byte>)
    requires IsIntegerLexeme(s)
    ensures Run(0, s) == 8
  {
    if s[0] == 45 {
      assert s[1..][0] == s[1];
      RunDigits(8, s[1..][1..]);
    } else {
      RunDigits(8, s[1..]);
    }
  }

  lemma RunTwo(q: nat, c: byte, d: byte)
    requires q < 16 && Step(q, c) != -1
    ensures Run(q, [c, d]) == Step(Step(q, c), d)
  {
    assert [c][1..] == [] && [c, d] == [c] + [d];
    RunSnoc(q, [c], d);
  }

  lemma RunEscapeChar(q: nat, c: byte)
    requires q == 3 || q == 9
    ensures Run(q, EscapeChar(c)) == 9
  {
    if IsPlain(c) {
      assert [c][1..] == [];
    } else if EscapeLetter(c).Some? {
      RunTwo(q, 92, EscapeLetter(c).value);
    } else {
      var d, e := DigitChar(c / 16), DigitChar(c % 16);
      assert EscapeChar(c) == [92, 120] + [d, e];
      RunTwo(q, 92, 120);
      RunTwo(9, d, e);
      RunSplit(q, [92, 120], [d, e]);
    }
  }

  lemma {:induction false} RunEscapeText(s: seq<byte>)
    ensures Run(3, EscapeText(s)) == if s == [] then 3 else 9
  {
    if s != [] {
      RunEscapeText(s[..|s| - 1]);
      RunSplit(3, EscapeText(s[..|s| - 1]), EscapeChar(s[|s| - 1]));
      RunEscapeChar(Run(3, EscapeText(s[..|s| - 1])), s[|s| - 1]);
    }
  }

  lemma RunString(s: seq<byte>)
    ensures Run(0, [34] + EscapeText(s) + [34]) == 10
  {
    RunEscapeText(s);
    RunSplit(3, EscapeText(s), [34]);
    var t: seq<byte> := [34] + EscapeText(s) + [34];
    assert t[1..] == EscapeText(s) + [34];
    assert [34 as byte][1..] == [];
  }

  lemma {:induction false} RunBase64(s: seq<byte>)
    requires Base64.InAlphabet(s)
    ensures Run(5, s) == 5
  {
    if s != [] {
      RunBase64(s[1..]);
    }
  }

  predicate IsDelimiter(c: byte) {
    c == COMMA || c == RBRACKET || c == RBRACE
  }

  predicate Delimited(rest: seq<byte>) {
    rest == [] || IsDelimiter(rest[0])
  }

  /** An accepted lexeme after which the automaton is stuck is the next token. */
  lemma LexemeIsToken(w: seq<byte>, rest: seq<byte>)
    requires w != [] && AutomatonRule(w) != -1 && AutomatonRule(w) != 5
    requires rest == [] || Step(Run(0, w), rest[0]) == -1
    ensures var code := CodeOf(AutomatonRule(w), w);
            code > 0 ==> Tokens(w + rest) == [Token(code, w)] + Tokens(rest)
  {
    hide Step, NextToken, Reach, Kept, Run;
    var s := w + rest;
    assert s[..|w|] == w && s[|w|..] == rest;
    StuckAfter(s, |w|);
    assert MatchUpTo(s, |w|) == |w|;
    ReachIsHere(s, |w|);
    KeptIffAscii([]);
    assert s[|w|..|w|] == [] && [] + rest == rest;
    TokenUnfold(s);
  }

  lemma PunctuationIsToken(c: byte, rest: seq<byte>)
    requires c == LBRACKET || c == LBRACE || IsDelimiter(c)
    ensures Tokens([c] + rest) == [Token(c, [c])] + Tokens(rest)
  {
    assert [c][1..] == [];
    assert Run(0, [c]) == 2;
    LexemeIsToken([c], rest);
  }

  lemma NoTokens()
    ensures Tokens([]) == []
  {
  }

  lemma RunBinary(bytes: seq<byte>)
    ensures Run(0, [38] + Base64.Encode(bytes)) == 5
  {
    hide Base64.Encode;
    Base64.EncodedShape(bytes);
    var text := [38] + Base64.Encode(bytes);
    assert text[1..] == Base64.Encode(bytes);
    RunBase64(text[1..]);
  }

  lemma RunBoolean(b: bool)
    ensures Run(0, if b then [35, 116] else [35, 102]) == 12
  {
    RunTwo(0, 35, if b then 116 else 102);
  }

  // --- Integers printed in hexadecimal ----------------------------------------------------------------

  predicate IsHexText(h: seq<byte>) {
    h != [] && forall i :: 0 <= i < |h| ==> IsDigit(h[i]) || 97 <= h[i] <= 102
  }

  predicate IsLetter(code: int) {
    97 <= code <= 102
  }

  lemma {:induction false} NumeralIsHexText(n: nat)
    ensures IsHexText(Numeral(16, n))
  {
    if n >= 16 {
      NumeralIsHexText(n / 16);
    }
  }

  lemma LetterIsToken(c: byte, rest: seq<byte>)
    requires IsLetter(c)
    ensures Tokens([c] + rest) == [Token(c, [c])] + Tokens(rest)
  {
    assert [c][1..] == [];
    assert Run(0, [c]) == 2;
    LexemeIsToken([c], rest);
  }

  lemma IntegerIsToken(w: seq<byte>, rest: seq<byte>)
    requires IsIntegerLexeme(w) && (rest == [] || Step(8, rest[0]) == -1)
    ensures Tokens(w + rest) == [Token(INTEGER, w)] + Tokens(rest)
  {
    RunInteger(w);
    LexemeIsToken(w, rest);
  }

  /** Hexadecimal text with a letter in it puts that letter among the first two tokens. */
  lemma HexTokens(h: seq<byte>, rest: seq<byte>)
    requires IsHexText(h) && !AllDigits(h)
    ensures var ts := Tokens(h + rest);
            (|ts| >= 1 && IsLetter(ts[0].code)) || (|ts| >= 2 && ts[0].code == INTEGER && IsLetter(ts[1].code))
  {
    hide Run, Tokens, AutomatonRule;
    var n := LeadingDigits(h);
    assert h[..|h|] == h;
    assert h + rest == h[..n] + ([h[n]] + (h[n + 1..] + rest));
    LetterIsToken(h[n], h[n + 1..] + rest);
    if n > 0 {
      IntegerIsToken(h[..n], [h[n]] + (h[n + 1..] + rest));
    } else {
      assert h[..n] + ([h[n]] + (h[n + 1..] + rest)) == [h[n]] + (h[n + 1..] + rest);
    }
  }

  // --- Real numbers -------------------------------------------------------------------------------------

  lemma RunWhole(t: Notation)
    requires Proper(t)
    ensures IsIntegerLexeme(WholeText(t)) && Run(0, WholeText(t)) == 8
  {
    if t.negative {
      assert WholeText(t)[1..] == t.whole;
    } else {
      assert WholeText(t) == t.whole && IsDigit(t.whole[0]);
    }
    RunInteger(WholeText(t));
  }

  lemma RunFraction(t: Notation)
    requires Proper(t) && t.fraction != []
    ensures Run(0, WholeText(t) + FractionText(t)) == 7
  {
    RunWhole(t);
    RunSplit(0, WholeText(t), FractionText(t));
    assert FractionText(t)[1..] == t.fraction;
    RunDigits(7, t.fraction);
  }

  lemma RunExponent(e: Exponent)
    requires e.Exponent? && e.negative && e.digits != [] && AllDigits(e.digits)
    ensures Run(7, ExponentText(e)) == 15
  {
    var s := ExponentText(e);
    assert s[0] == 101 && s[1..][0] == 45 && s[1..][1..] == e.digits && IsDigit(e.digits[0]);
    RunDigits(15, e.digits[1..]);
    assert Run(14, e.digits) == 15;
    assert Run(13, s[1..]) == 15;
  }

  /** With a point and without a plus sign, the text is one that the rule for reals matches. */
  lemma RunReal(t: Notation)
    requires Proper(t) && t.fraction != [] && (t.exponent.Exponent? ==> t.exponent.negative)
    ensures Run(0, TextOf(t)) == 7 || Run(0, TextOf(t)) == 15
  {
    RunFraction(t);
    var w := WholeText(t) + FractionText(t);
    if t.exponent.Exponent? {
      RunExponent(t.exponent);
      RunSplit(0, w, ExponentText(t.exponent));
    } else {
      assert TextOf(t) == w;
    }
  }

  /** A mark without an exponent the rule knows is read and pushed back. */
  lemma MarkIsPushedBack(w: seq<byte>, c: byte, rest: seq<byte>)
    requires Run(0, w) == 7 && c != 45 && !IsDigit(c)
    ensures Tokens(w + ([101, c] + rest)) == [Token(REAL, w)] + Tokens([101] + ([c] + rest))
  {
    hide Run, NextToken, Reach, Kept, MatchLength;
    var s := w + ([101, c] + rest);
    var n := |w| + 1;
    assert s[..n] == w + [101] && s[..|w|] == w && s[n] == c;
    RunOfNothing();
    RunSnoc(0, w, 101);
    StuckAfter(s, n);
    ReachIsHere(s, n);
    assert MatchUpTo(s, n) == MatchUpTo(s, |w|) == |w|;
    assert s[|w|..n] == [101] && s[n..] == [c] + rest;
    KeptIffAscii([101]);
    TokenUnfold(s);
  }

  lemma RunOfNothing()
    ensures Run(0, []) == 0
  {
  }

  /** Texts that are not read as one token: a letter comes first, or second behind a number. */
  predicate Spoiled(ts: seq<Token>) {
    || (|ts| >= 1 && IsLetter(ts[0].code))
    || (|ts| >= 2 && (ts[0].code == INTEGER || ts[0].code == REAL) && IsLetter(ts[1].code))
  }

  /** An exponent without a point, or with a plus sign, puts the mark among the first two tokens. */
  lemma MarkTokens(t: Notation, rest: seq<byte>)
    requires Proper(t) && t.exponent.Exponent? && (t.fraction == [] || !t.exponent.negative)
    ensures Spoiled(Tokens(TextOf(t) + rest))
  {
    hide Tokens, Run;
    var e := ExponentText(t.exponent);
    if t.fraction == [] {
      var after := e[1..] + rest;
      RunWhole(t);
      assert TextOf(t) + rest == WholeText(t) + ([101] + after);
      IntegerIsToken(WholeText(t), [101] + after);
      LetterIsToken(101, after);
    } else {
      var w, after := WholeText(t) + FractionText(t), t.exponent.digits + rest;
      RunFraction(t);
      assert TextOf(t) + rest == w + ([101, 43] + after);
      MarkIsPushedBack(w, 43, after);
      LetterIsToken(101, [43] + after);
    }
  }
}
