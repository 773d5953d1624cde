/** The language of escaped text and what it stands for, written down apart from printer and decoder. */
module EscapeSyntax {
  import opened Bytes
  import opened Numerals
  import opened Escapes

  const LETTERS := "abfnrtv\\'\"?"
  const NAMED: seq<byte> := [7, 8, 12, 10, 13, 9, 11, 92, 39, 34, 63]
  const LOWER := "0123456789abcdef"
  const UPPER := "0123456789ABCDEF"

  /** A plain character, an escape by letter, or one by two hexadecimal digits of either case. */
  datatype Unit = Char(c: byte) | Letter(k: nat) | Hex(capital: bool, high: nat, low: nat, ups: (bool, bool))

  predicate Proper(u: Unit) {
    match u
    case Char(c) => 0x20 <= c <= 0x7F && c != 92
    case Letter(k) => k < |LETTERS|
    case Hex(_, high, low, _) => high < 16 && low < 16
  }

  function Digit(v: nat, up: bool): byte
    requires v < 16
  {
    if up then UPPER[v] as int else LOWER[v] as int
  }

  function UnitText(u: Unit): seq<byte>
    requires Proper(u)
  {
    match u
    case Char(c) => [c]
    case Letter(k) => [92, LETTERS[k] as int]
    case Hex(capital, high, low, ups) => [92, if capital then 88 else 120, Digit(high, ups.0), Digit(low, ups.1)]
  }

  function UnitMeaning(u: Unit): byte
    requires Proper(u)
  {
    match u
    case Char(c) => c
    case Letter(k) => NAMED[k]
    case Hex(_, high, low, _) => 16 * high + low
  }

  predicate AllProper(us: seq<Unit>) {
    forall i :: 0 <= i < |us| ==> Proper(us[i])
  }

  function TextOf(us: seq<Unit>): seq<byte>
    requires AllProper(us)
  {
    if us == [] then [] else UnitText(us[0]) + TextOf(us[1..])
  }

  function MeaningOf(us: seq<Unit>): (r: seq<byte>)
    requires AllProper(us)
    ensures |r| == |us|
  {
    seq(|us|, i requires 0 <= i < |us| => UnitMeaning(us[i]))
  }

  lemma DigitsHaveTheirValue(v: nat, up: bool)
    requires v < 16
    ensures IsHexDigit(Digit(v, up)) && HexValue(Digit(v, up)) == v
  {
  }

  lemma LettersAreNamed(k: nat)
    requires k < |LETTERS|
    ensures var l := LETTERS[k] as int; l < 256 && l != 120 && l != 88 && EscapedChar(l) == Some(NAMED[k])
  {
  }

  /** Hexadecimal digits count alike in either case, also mixed, and so does the mark. */
  lemma UnescapeUnit(u: Unit, rest: seq<byte>)
    requires Proper(u)
    ensures Unescape(UnitText(u) + rest) == Cons(UnitMeaning(u), Unescape(rest))
  {
    hide EscapedChar, HexValue, IsHexDigit, Digit;
    var t := UnitText(u) + rest;
    match u
    case Char(_) => assert t[1..] == rest;
    case Letter(k) =>
      LettersAreNamed(k);
      assert t[2..] == rest;
    case Hex(_, high, low, ups) =>
      DigitsHaveTheirValue(high, ups.0);
      DigitsHaveTheirValue(low, ups.1);
      assert t[4..] == rest;
  }

  lemma {:induction false} UnitsAreDecoded(us: seq<Unit>)
    requires AllProper(us)
    ensures Unescape(TextOf(us)) == Some(MeaningOf(us))
  {
    hide Unescape, UnitText, UnitMeaning, Proper;
    if us == [] {
      NothingIsDecoded();
    } else {
      UnitsAreDecoded(us[1..]);
      UnescapeUnit(us[0], TextOf(us[1..]));
      assert MeaningOf(us) == [UnitMeaning(us[0])] + MeaningOf(us[1..]);
    }
  }

  lemma NothingIsDecoded()
    ensures Unescape([]) == Some([])
  {
  }

  lemma DigitAgain(d: byte) returns (up: bool)
    requires IsHexDigit(d)
    ensures Digit(HexValue(d), up) == d
  {
    up := d <= 70;
  }

  lemma LetterAgain(l: byte) returns (k: nat)
    requires EscapedChar(l).Some?
    ensures k < |LETTERS| && LETTERS[k] as int == l && NAMED[k] == EscapedChar(l).value
  {
    k := match l
      case 97 => 0
      case 98 => 1
      case 102 => 2
      case 110 => 3
      case 114 => 4
      case 116 => 5
      case 118 => 6
      case 92 => 7
      case 39 => 8
      case 34 => 9
      case _ => 10;
  }

  /** The first unit of a text that can be decoded. */
  lemma FirstUnit(s: seq<byte>) returns (u: Unit, rest: seq<byte>)
    requires s != [] && Unescape(s).Some?
    ensures Proper(u) && s == UnitText(u) + rest && |rest| < |s|
    ensures Unescape(s) == Cons(UnitMeaning(u), Unescape(rest))
  {
    hide EscapedChar, HexValue, IsHexDigit, Digit;
    if s[0] != 92 {
      u, rest := Char(s[0]), s[1..];
    } else if s[1] == 120 || s[1] == 88 {
      var high := DigitAgain(s[2]);
      var low := DigitAgain(s[3]);
      u, rest := Hex(s[1] == 88, HexValue(s[2]), HexValue(s[3]), (high, low)), s[4..];
    } else {
      var k := LetterAgain(s[1]);
      u, rest := Letter(k), s[2..];
    }
    assert s == UnitText(u) + rest;
  }

  lemma {:induction false} DecodedIsUnits(s: seq<byte>) returns (us: seq<Unit>)
    requires Unescape(s).Some?
    ensures AllProper(us) && TextOf(us) == s && MeaningOf(us) == Unescape(s).value
    decreases |s|
  {
    hide Unescape, UnitText, UnitMeaning, Proper;
    us := [];
    if s == [] {
      NothingIsDecoded();
    } else {
      var u, rest := FirstUnit(s);
      var more := DecodedIsUnits(rest);
      us := [u] + more;
      assert us[1..] == more;
      assert MeaningOf(us) == [UnitMeaning(u)] + MeaningOf(more);
    }
  }

  /**
   * The decoder's language: a text decodes to `r` exactly if it is a sequence of plain characters, the eleven
   * letter escapes and two-digit hexadecimal escapes that stand for `r`. On any other text it throws.
   */
  lemma DecodesIffUnits(s: seq<byte>, r: seq<byte>)
    ensures Unescape(s) == Some(r) <==> exists us :: AllProper(us) && TextOf(us) == s && MeaningOf(us) == r
  {
    hide Unescape, TextOf, MeaningOf;
    if Unescape(s) == Some(r) {
      var us := DecodedIsUnits(s);
    }
    if us :| AllProper(us) && TextOf(us) == s && MeaningOf(us) == r {
      UnitsAreDecoded(us);
    }
  }

  /** Any letter behind a backslash other than those is an error, whatever follows. */
  lemma UnknownEscape(letter: byte, rest: seq<byte>)
    requires letter != 120 && letter != 88 && forall k :: 0 <= k < |LETTERS| ==> LETTERS[k] as int != letter
    ensures Unescape([92, letter] + rest) == None
  {
    if EscapedChar(letter).Some? {
      var k := LetterAgain(letter);
    }
  }

  // --- What the printer leaves as it is ----------------------------------------------------------------

  lemma EscapeCharLength(c: byte)
    ensures if 0x20 <= c <= 0x7F && c != 92 && c != 39 && c != 34 && c != 63 then EscapeChar(c) == [c]
            else |EscapeChar(c)| >= 2
  {
  }

  predicate AsIs(s: seq<byte>) {
    forall i :: 0 <= i < |s| ==> 0x20 <= s[i] <= 0x7F && s[i] != 92 && s[i] != 39 && s[i] != 34 && s[i] != 63
  }

  /**
   * How a single character is printed: as it is, by its letter if it has one, and else by two hexadecimal
   * digits in lower case.
   */
  lemma PrintedUnit(c: byte)
    ensures AsIs([c]) ==> EscapeChar(c) == [c]
    ensures forall k :: 0 <= k < |NAMED| && NAMED[k] == c ==> EscapeChar(c) == [92, LETTERS[k] as int]
    ensures !AsIs([c]) && c !in NAMED ==>
              EscapeChar(c) == [92, 'x' as int, Digit(c / 16, false), Digit(c % 16, false)]
  {
    assert [c][0] == c;
    LowerDigit(c / 16);
    LowerDigit(c % 16);
    forall k | 0 <= k < |NAMED| && NAMED[k] == c ensures EscapeChar(c) == [92, LETTERS[k] as int] {
      LettersOf(k);
    }
    if EscapeLetter(c).Some? {
      var k := NamedAt(c);
    }
  }

  lemma LowerDigit(v: nat)
    requires v < 16
    ensures Digit(v, false) == DigitChar(v)
  {
  }

  lemma LettersOf(k: nat)
    requires k < |NAMED|
    ensures !IsPlain(NAMED[k]) && EscapeLetter(NAMED[k]) == Some(LETTERS[k] as int)
  {
  }

  lemma NamedAt(c: byte) returns (k: nat)
    requires EscapeLetter(c).Some?
    ensures k < |NAMED| && NAMED[k] == c
  {
    k := match c
      case 7 => 0
      case 8 => 1
      case 12 => 2
      case 10 => 3
      case 13 => 4
      case 9 => 5
      case 11 => 6
      case 92 => 7
      case 39 => 8
      case 34 => 9
      case _ => 10;
  }

  lemma AsIsSnoc(front: seq<byte>, c: byte)
    ensures AsIs(front + [c]) <==>
              AsIs(front) && 0x20 <= c <= 0x7F && c != 92 && c != 39 && c != 34 && c != 63
  {
    assert (front + [c])[|front|] == c && forall i :: 0 <= i < |front| ==> (front + [c])[i] == front[i];
  }

  /** A text is printed unchanged exactly if it holds only printable characters other than the four special ones. */
  lemma {:induction false} PrintedAsIs(s: seq<byte>)
    ensures if AsIs(s) then EscapeText(s) == s else |EscapeText(s)| > |s|
  {
    hide EscapeChar, AsIs;
    if s == [] {
      NothingAsIs();
    } else {
      var front, c := s[..|s| - 1], s[|s| - 1];
      PrintedAsIs(front);
      EscapeCharLength(c);
      AsIsSnoc(front, c);
      assert s == front + [c];
    }
  }

  lemma NothingAsIs()
    ensures AsIs([])
  {
  }

  /** Numeric escapes are for bytes from 128 on and for the control characters without a letter. */
  lemma NumericIff(s: seq<byte>)
    ensures AnyHex(s) <==> exists i :: 0 <= i < |s| && (s[i] >= 128 || s[i] < 7 || 13 < s[i] < 32)
  {
    assert forall c: byte :: NeedsHex(c) <==> c >= 128 || c < 7 || 13 < c < 32;
  }
}
