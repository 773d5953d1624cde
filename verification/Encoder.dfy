/** The printer of values: text is appended to a stream whose hexadecimal flag, once set, stays set. */
module Encoder {
  import opened Bytes
  import opened Numerals
  import opened Escapes
  import opened Values
  import Base64

  function ScalarText(lib: Library, x: Scalar, hex: bool): seq<byte> {
    match x
    case Boolean(b) => if b then [35, 116] else [35, 102]
    case Integer(i) => IntegerText(i, hex)
    case Real(r) => lib.realText(r)
    case String(s) => [34] + EscapeText(s) + [34]
    case Binary(bytes) => [38] + Base64.Encode(bytes)
  }

  /** Whether the stream prints integers in hexadecimal after `x`. */
  predicate HexAfter(x: Scalar, hex: bool) {
    hex || (x.String? && AnyHex(x.s))
  }

  /** The elements from some position on, preceded by a comma unless the position is the first. */
  function ElementsText(lib: Library, xs: seq<Scalar>, first: bool, hex: bool): seq<byte> {
    if xs == [] then []
    else
      (if first then [] else [44]) + ScalarText(lib, xs[0], hex)
      + ElementsText(lib, xs[1..], false, HexAfter(xs[0], hex))
  }

  function HexAfterAll(xs: seq<Scalar>, hex: bool): bool {
    if xs == [] then hex else HexAfterAll(xs[1..], HexAfter(xs[0], hex))
  }

  function ValueText(lib: Library, v: Value, hex: bool): seq<byte> {
    match v
    case Single(x) => ScalarText(lib, x, hex)
    case Sequence(xs) => [91] + ElementsText(lib, xs, true, hex) + [93]
    case Tuple(xs) => [123] + ElementsText(lib, xs, true, hex) + [125]
  }

  function HexAfterValue(v: Value, hex: bool): bool {
    match v
    case Single(x) => HexAfter(x, hex)
    case Sequence(xs) => HexAfterAll(xs, hex)
    case Tuple(xs) => HexAfterAll(xs, hex)
  }

  lemma ElementsStep(lib: Library, xs: seq<Scalar>, i: nat, hex: bool, done: seq<byte>)
    requires i < |xs|
    ensures var hex' := HexAfter(xs[i], hex);
            && HexAfterAll(xs[i..], hex) == HexAfterAll(xs[i + 1..], hex')
            && done + ElementsText(lib, xs[i..], i == 0, hex)
            == done + ((if i == 0 then [] else [44]) + ScalarText(lib, xs[i], hex))
               + ElementsText(lib, xs[i + 1..], false, hex')
  {
    assert xs[i..][1..] == xs[i + 1..];
  }

  lemma ElementsEnd(lib: Library, xs: seq<Scalar>, first: bool, hex: bool)
    ensures ElementsText(lib, xs[|xs|..], first, hex) == [] && HexAfterAll(xs[|xs|..], hex) == hex
  {
  }

  /** The output stream the encoder writes to, with its sticky format flag. */
  class Stream {
    var text: seq<byte>
    var hex: bool

    constructor ()
      ensures text == [] && !hex
    {
      text, hex := [], false;
    }

    /** A new stream, with its flags clear, on a buffer that already holds some text. */
    constructor On(buffer: seq<byte>)
      ensures text == buffer && !hex
    {
      text, hex := buffer, false;
    }

    method Put(s: seq<byte>)
      modifies this`text
      ensures text == old(text) + s
    {
      text := text + s;
    }
  }

  class Encoder {
    const out: Stream
    const lib: Library

    constructor (out: Stream, lib: Library)
      ensures this.out == out && this.lib == lib
    {
      this.out, this.lib := out, lib;
    }

    method EncodeChar(ch: byte)
      modifies out
      ensures out.text == old(out.text) + EscapeChar(ch)
      ensures out.hex == (old(out.hex) || NeedsHex(ch))
    {
      if IsPlain(ch) {
        out.Put([ch]);
      } else if EscapeLetter(ch).Some? {
        out.Put([92]);
        out.Put([EscapeLetter(ch).value]);
        assert [92] + [EscapeLetter(ch).value] == EscapeChar(ch);
      } else {
        out.Put([92, 120]);
        out.hex := true;
        out.Put([DigitChar(ch / 16), DigitChar(ch % 16)]);
        assert [92, 120] + [DigitChar(ch / 16), DigitChar(ch % 16)] == EscapeChar(ch);
      }
    }

    method EncodeString(s: seq<byte>)
      modifies out
      ensures out.text == old(out.text) + ([34] + EscapeText(s) + [34])
      ensures out.hex == (old(out.hex) || AnyHex(s))
    {
      hide EscapeChar, NeedsHex;
      out.Put([34]);
      for i := 0 to |s|
        invariant out.text == old(out.text) + ([34] + EscapeText(s[..i]))
        invariant out.hex == (old(out.hex) || AnyHex(s[..i]))
      {
        assert s[..i + 1] == s[..i] + [s[i]];
        assert s[..i + 1][..i] == s[..i];
        AnyHexSnoc(s[..i], s[i]);
        EncodeChar(s[i]);
      }
      assert s[..|s|] == s;
      out.Put([34]);
    }

    method EncodeScalar(x: Scalar)
      modifies out
      ensures out.text == old(out.text) + ScalarText(lib, x, old(out.hex))
      ensures out.hex == HexAfter(x, old(out.hex))
    {
      match x
      case Boolean(b) => out.Put(if b then [35, 116] else [35, 102]);
      case Integer(i) => out.Put(IntegerText(i, out.hex));
      case Real(r) => out.Put(lib.realText(r));
      case String(s) => EncodeString(s);
      case Binary(bytes) => out.Put([38] + Base64.Encode(bytes));
    }

    /** The loop shared by sequences and tuples. */
    method EncodeElements(xs: seq<Scalar>, open: byte, close: byte)
      modifies out
      ensures out.text == old(out.text) + ([open] + ElementsText(lib, xs, true, old(out.hex)) + [close])
      ensures out.hex == HexAfterAll(xs, old(out.hex))
    {
      hide ScalarText, HexAfter, ElementsText, HexAfterAll;
      ghost var done: seq<byte> := [];
      out.Put([open]);
      for i := 0 to |xs|
        invariant out.text == old(out.text) + ([open] + done)
        invariant done + ElementsText(lib, xs[i..], i == 0, out.hex) == ElementsText(lib, xs, true, old(out.hex))
        invariant HexAfterAll(xs[i..], out.hex) == HexAfterAll(xs, old(out.hex))
      {
        ghost var hex := out.hex;
        ElementsStep(lib, xs, i, hex, done);
        if i != 0 {
          out.Put([44]);
        }
        EncodeScalar(xs[i]);
        done := done + ((if i == 0 then [] else [44]) + ScalarText(lib, xs[i], hex));
      }
      ElementsEnd(lib, xs, |xs| == 0, out.hex);
      out.Put([close]);
    }

    method EncodeValue(v: Value)
      modifies out
      ensures out.text == old(out.text) + ValueText(lib, v, old(out.hex))
      ensures out.hex == HexAfterValue(v, old(out.hex))
    {
      match v
      case Single(x) => EncodeScalar(x);
      case Sequence(xs) => EncodeElements(xs, 91, 93);
      case Tuple(xs) => EncodeElements(xs, 123, 125);
    }
  }

  lemma AnyHexSnoc(s: seq<byte>, c: byte)
    ensures AnyHex(s + [c]) == (AnyHex(s) || NeedsHex(c))
  {
    assert (s + [c])[|s|] == c;
    assert forall i :: 0 <= i < |s| ==> (s + [c])[i] == s[i];
  }
}
