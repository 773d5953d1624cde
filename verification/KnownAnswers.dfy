/** Inputs of the repository's own tests with the answers they expect, written out byte by byte. */
module KnownAnswers {
  import opened Bytes
  import opened Numerals
  import opened Escapes
  import opened Values
  import opened Encoder
  import Base64
  import Base64Standard
  import EscapeSyntax
  import RequestSpec
  import BencodeSpec

  // --- Values --------------------------------------------------------------------------------------------

  /** Sequences are printed in square brackets, tuples in braces, with commas between the elements. */
  lemma TwoElements(lib: Library, x: Scalar, y: Scalar, hex: bool)
    ensures var texts := ScalarText(lib, x, hex) + [','as int] + ScalarText(lib, y, HexAfter(x, hex));
            && ValueText(lib, Sequence([x, y]), hex) == ['[' as int] + texts + [']' as int]
            && ValueText(lib, Tuple([x, y]), hex) == ['{' as int] + texts + ['}' as int]
  {
    hide ScalarText, HexAfter;
    var hex' := HexAfter(x, hex);
    assert [x, y][1..] == [y] && [y][1..] == [];
    assert ElementsText(lib, [y], false, hex') == [44] + ScalarText(lib, y, hex') + [];
    assert ElementsText(lib, [x, y], true, hex)
        == ScalarText(lib, x, hex) + ([44] + ScalarText(lib, y, hex'));
  }

  lemma BooleanTexts(lib: Library, hex: bool)
    ensures ScalarText(lib, Boolean(true), hex) == ['#' as int, 't' as int]
    ensures ScalarText(lib, Boolean(false), hex) == ['#' as int, 'f' as int]
  {
  }

  lemma NegativeInteger()
    ensures IntegerText(-42, false) == ['-' as int, '4' as int, '2' as int]
  {
    TwoDigits(42);
  }

  lemma TwoDigits(n: nat)
    requires 10 <= n < 100
    ensures Numeral(10, n) == [48 + n / 10, 48 + n % 10]
  {
    assert Numeral(10, n) == Numeral(10, n / 10) + [48 + n % 10] && Numeral(10, n / 10) == [48 + n / 10];
  }

  /** The five bytes of "decof" are encoded as `ZGVjb2Y=`. */
  lemma BinaryText()
    ensures Base64.Encode([100, 101, 99, 111, 102]) == [90, 71, 86, 106, 98, 50, 89, 61]
  {
    hide Base64.Encode;
    var bin: seq<byte> := [100, 101, 99, 111, 102];
    Base64Standard.EncodesByGroups(bin);
    assert bin[3..] == [111, 102];
    assert Base64Standard.Group(100, 101, 99) == [90, 71, 86, 106];
    assert Base64Standard.Group(111, 102, 0) == [98, 50, 89, 65];
    assert Base64Standard.ByGroups([111, 102]) == [98, 50, 89] + [61];
  }

  /** A hexadecimal escape in either case, or in both. */
  lemma HexadecimalEscape(c: byte, capital: bool, ups: (bool, bool), rest: seq<byte>)
    ensures var mark := if capital then 'X' as int else 'x' as int;
            var high, low := EscapeSyntax.Digit(c / 16, ups.0), EscapeSyntax.Digit(c % 16, ups.1);
            Unescape([92, mark, high, low] + rest) == Cons(c, Unescape(rest))
  {
    EscapeSyntax.UnescapeUnit(EscapeSyntax.Hex(capital, c / 16, c % 16, ups), rest);
    hide Unescape;
  }

  /** `A0` is 160. */
  lemma UpperCaseEscape()
    ensures Unescape([92, 120, 65, 48]) == Some([160])
  {
    HexadecimalEscape(160, false, (true, true), []);
    EscapeSyntax.NothingIsDecoded();
    hide Unescape;
    assert EscapeSyntax.Digit(10, true) == 65 && EscapeSyntax.Digit(0, true) == 48;
    assert [92, 120, 65, 48] + [] == [92 as byte, 120, 65, 48] && [160] + [] == [160 as byte];
  }

  // --- Requests ------------------------------------------------------------------------------------------

  lemma Assembled(total: seq<byte>, name: seq<byte>, size: seq<byte>, version: seq<byte>, body: seq<byte>)
    ensures total + [58] + (name + size + [0] + version + []) + [44] + body
         == total + [58] + name + size + [0] + version + [44] + body
  {
  }

  lemma RequestBytes(body: seq<byte>, size: seq<byte>, total: seq<byte>)
    requires Numeral(10, |body|) == size && Numeral(10, 23 + |size|) == total
    ensures |RequestSpec.ClientBlock([], body)| == 23 + |size|
    ensures RequestSpec.ClientBytes([], body)
         == total + [58] + [67, 79, 78, 84, 69, 78, 84, 95, 76, 69, 78, 71, 84, 72, 0] + size + [0]
            + [83, 67, 71, 73, 0, 49, 0] + [44] + body
  {
    hide Numeral;
    assert RequestSpec.Block([]) == [];
    var name, version := [67, 79, 78, 84, 69, 78, 84, 95, 76, 69, 78, 71, 84, 72, 0], [83, 67, 71, 73, 0, 49, 0];
    Assembled(total, name, size, version, body);
  }

  /**
   * `24:`, CONTENT_LENGTH and SCGI with their values, and a comma: no byte before the comma has a verdict, and
   * the comma is good.
   */
  lemma MinimalRequest(length: nat, count: nat)
    ensures var s := [50, 52] + [58] + [67, 79, 78, 84, 69, 78, 84, 95, 76, 69, 78, 71, 84, 72, 0] + [48] + [0]
                     + [83, 67, 71, 73, 0, 49, 0] + [44] + [];
            var m := RequestSpec.Fresh(length, count);
            && (forall k :: 0 < k < |s| ==> RequestSpec.Parse(m, s[..k]).1 == RequestSpec.Indeterminate)
            && RequestSpec.Parse(m, s).1 == RequestSpec.Good && RequestSpec.Parse(m, s).0.body == []
  {
    hide RequestSpec.Parse, RequestSpec.ClientBytes, RequestSpec.ClientBlock, RequestSpec.Fresh;
    TwoDigits(24);
    RequestBytes([], [48], [50, 52]);
    RequestSpec.ClientIsUnderstood(length, count, [], []);
  }

  /** The same with a body of ten bytes. */
  lemma RequestWithBody(length: nat, count: nat, body: seq<byte>)
    requires |body| == 10
    ensures var s := [50, 53] + [58] + [67, 79, 78, 84, 69, 78, 84, 95, 76, 69, 78, 71, 84, 72, 0] + [49, 48] + [0]
                     + [83, 67, 71, 73, 0, 49, 0] + [44] + body;
            var m := RequestSpec.Fresh(length, count);
            && (forall k :: 0 < k < |s| ==> RequestSpec.Parse(m, s[..k]).1 == RequestSpec.Indeterminate)
            && RequestSpec.Parse(m, s).1 == RequestSpec.Good && RequestSpec.Parse(m, s).0.body == body
  {
    hide RequestSpec.Parse, RequestSpec.ClientBytes, RequestSpec.ClientBlock, RequestSpec.Fresh;
    TwoDigits(25);
    TwoDigits(10);
    RequestBytes(body, [49, 48], [50, 53]);
    RequestSpec.ClientIsUnderstood(length, count, [], body);
  }

  // --- Bencoded strings ------------------------------------------------------------------------------------

  /** `12:` takes the next twelve bytes, whatever they are. */
  lemma TwelveBytes(d: seq<byte>, rest: seq<byte>)
    requires |d| == 12
    ensures BencodeSpec.Take([49, 50] + [58] + d + rest) == Some(BencodeSpec.Taken(d, rest))
  {
    TwoDigits(12);
    BencodeSpec.TakeElement(d, rest);
  }

  /** A sign is bad at once, and so is a colon without a length. */
  lemma BadStarts(length: nat, rest: seq<byte>)
    ensures BencodeSpec.Parse(BencodeSpec.Fresh(length), ['-' as int] + rest).1 == BencodeSpec.Bad
    ensures BencodeSpec.Parse(BencodeSpec.Fresh(length), [':' as int] + rest).1 == BencodeSpec.Bad
  {
  }

  /** What the encoder writes for a string: its length, a colon, its bytes, a carriage return and a line feed. */
  lemma EncodedString(d: seq<byte>)
    requires |d| == 10
    ensures BencodeSpec.SequenceText([d]) == ['1' as int, '0' as int, ':' as int] + d + ['\r' as int, '\n' as int]
  {
    TwoDigits(10);
    BencodeSpec.SequenceOne(d);
  }
}
