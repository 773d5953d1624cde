/** What the parser makes of a text that one of the lexical rules matches as a whole. */
module Literals {
  import opened Bytes
  import opened Numerals
  import opened Escapes
  import opened Regex
  import opened ScannerTables
  import opened ScannerRules
  import opened ScannerSpec
  import opened ScannerInput
  import opened Values
  import opened Grammar
  import opened Parser
  import opened Lexemes
  import Base64

  lemma {:induction false} StarIsDigits(w: seq<byte>)
    requires In(Star(Digit()), w)
    ensures AllDigits(w)
    decreases |w|
  {
    if w != [] {
      var k :| 0 < k <= |w| && In(Digit(), w[..k]) && In(Star(Digit()), w[k..]);
      assert w[..k][0] == w[0] && k == 1;
      StarIsDigits(w[1..]);
      assert forall i :: 0 < i < |w| ==> w[i] == w[1..][i - 1];
    }
  }

  lemma PlusIsDigits(w: seq<byte>)
    requires In(Plus(Digit()), w)
    ensures w != [] && AllDigits(w)
  {
    hide In;
    CatCls(Digit().has, Star(Digit()), w);
    StarIsDigits(w[1..]);
    assert forall i :: 0 < i < |w| ==> w[i] == w[1..][i - 1];
  }

  /** The words of the second rule are those `std::stoi` takes. */
  lemma IntegerWord(w: seq<byte>)
    requires In(Rule(1), w)
    ensures IsIntegerLexeme(w)
  {
    hide In;
    OptMinus(Plus(Digit()), w);
    if In(Plus(Digit()), w) {
      PlusIsDigits(w);
      assert IsDigit(w[0]);
    } else {
      PlusIsDigits(w[1..]);
    }
  }

  /** A word that rule `i` matches first is one token, and the token numbers count the rules from 257 on. */
  lemma WordIsToken(w: seq<byte>)
    requires !HasLowByte(w) && 0 <= FirstRule(w) < 5 && w != []
    ensures Tokens(w) == [Token(257 + FirstRule(w), w)]
  {
    hide Run, Tokens, FirstRule;
    AutomatonIsRules(w);
    LexemeIsToken(w, []);
    NoTokens();
    assert w + [] == w;
  }

  /** Any other character is a token of its own number, or, from 128 on, the end of the input. */
  lemma CharacterIsToken(w: seq<byte>)
    requires !HasLowByte(w) && FirstRule(w) == 6
    ensures |w| == 1
    ensures Tokens(w) == if w[0] < 128 then [Token(w[0], w)] else []
  {
    hide Tokens, FirstRule, Step;
    CharacterWord(w);
    AutomatonIsRules(w);
    CharacterStops(w);
    if w[0] < 128 {
      LexemeIsToken(w, []);
      NoTokens();
      assert w + [] == w;
    } else {
      HighByte(w);
      TokensUnfold(w);
    }
  }

  lemma CharacterWord(w: seq<byte>)
    requires FirstRule(w) == 6
    ensures |w| == 1
  {
    assert In(Rule(6), w);
  }

  lemma CharacterStops(w: seq<byte>)
    requires |w| == 1
    ensures AutomatonRule(w) == 6 ==> w[0] >= 9
  {
    assert w[1..] == [];
  }

  /** The number an integer word is the text of. */
  function Signed(w: seq<byte>): int
    requires IsIntegerLexeme(w)
  {
    if w[0] == 45 then 0 - DecimalValue(w[1..]) else DecimalValue(w)
  }

  lemma EmptyWord()
    ensures FirstRule([]) == -1
  {
    AutomatonIsRules([]);
    assert Run(0, []) == 0;
  }

  lemma OneScalar(lib: Library, t: Token)
    requires IsScalarCode(t.code)
    ensures ParseTokens(lib, [t])
         == match Convert(lib, t)
            case Ok(x) => Accepted(Single(x))
            case Err(f) => Failed(f)
  {
    hide Convert;
    assert [t][1..] == [];
  }

  ghost predicate IsWord(w: seq<byte>, rule: int) {
    !HasLowByte(w) && FirstRule(w) == rule
  }

  lemma WordMatches(w: seq<byte>, rule: nat)
    requires IsWord(w, rule) && rule < RULES
    ensures In(Rule(rule), w)
  {
  }

  lemma BooleanLiteral(lib: Library, w: seq<byte>)
    requires IsWord(w, 0)
    ensures ParseTokens(lib, Tokens(w)) == Accepted(Single(Boolean(w == [35, 116])))
  {
    hide FirstRule, Tokens;
    EmptyWord();
    WordIsToken(w);
  }

  /** An integer is accepted if it fits 32 bits, with its value; otherwise a `parse_error` is raised. */
  lemma IntegerLiteral(lib: Library, w: seq<byte>)
    requires IsWord(w, 1)
    ensures IsIntegerLexeme(w)
    ensures ParseTokens(lib, Tokens(w))
         == if -0x8000_0000 <= Signed(w) < 0x8000_0000 then Accepted(Single(Integer(Signed(w)))) else Failed(Exception)
  {
    IntegerWord(w);
    hide FirstRule, Tokens;
    EmptyWord();
    WordIsToken(w);
  }

  /** A real is accepted with the number that `std::stod` makes of it. */
  lemma RealLiteral(lib: Library, w: seq<byte>, r: real)
    requires IsWord(w, 2)
    ensures ParseTokens(lib, Tokens(w)) == Accepted(Single(Real(r))) <==> lib.stod(w) == Some(r)
    ensures ParseTokens(lib, Tokens(w)) == Failed(Exception) <==> lib.stod(w) == None
  {
    hide FirstRule, Tokens;
    EmptyWord();
    WordIsToken(w);
  }

  /** A string is accepted with what its text between the quotes stands for. */
  lemma StringLiteral(lib: Library, w: seq<byte>)
    requires IsWord(w, 3)
    ensures |w| >= 2 && w[0] == w[|w| - 1] == 34
    ensures ParseTokens(lib, Tokens(w))
         == match Unescape(w[1..|w| - 1])
            case Some(s) => Accepted(Single(String(s)))
            case None => Failed(Exception)
  {
    hide FirstRule, Tokens, ParseTokens, In, Unescape, Rule;
    WordMatches(w, 3);
    StringWord(w);
    WordIsToken(w);
    OneScalar(lib, Token(STRING, w));
  }

  lemma {:induction false} TailEndsInQuote(w: seq<byte>)
    requires In(StringTail(), w) || In(Cat(Dot(), StringTail()), w)
    ensures w != [] && w[|w| - 1] == 34
    decreases |w|
  {
    hide In;
    if In(StringTail(), w) {
      StringTailUnfold(w);
      if w[0] != 34 {
        TailEndsInQuote(w[1..]);
      }
    } else {
      CatCls(Dot().has, StringTail(), w);
      TailEndsInQuote(w[1..]);
    }
  }

  lemma StringWord(w: seq<byte>)
    requires In(Rule(3), w)
    ensures |w| >= 2 && w[0] == w[|w| - 1] == 34
  {
    hide In;
    CatCls(Chr(34).has, StringTail(), w);
    TailEndsInQuote(w[1..]);
  }

  /** A binary is accepted with the bytes its text behind the ampersand encodes. */
  lemma BinaryLiteral(lib: Library, w: seq<byte>)
    requires IsWord(w, 4)
    ensures w != [] && w[0] == 38
    ensures ParseTokens(lib, Tokens(w))
         == match Base64.Decode(w[1..])
            case Ok(bytes) => Accepted(Single(Binary(bytes)))
            case Err(f) => Failed(f)
  {
    hide FirstRule, Tokens, ParseTokens, In, Base64.Decode;
    WordMatches(w, 4);
    CatCls(Chr(38).has, Star(Base64Char()), w);
    WordIsToken(w);
    OneScalar(lib, Token(BINARY, w));
  }
}
