/** Backslash escaping of strings: the printer's escapes and the decoder's four-state machine. */
module Escapes {
  import opened Bytes
  import opened Numerals

  /** The letter of a named escape. */
  function EscapeLetter(c: byte): Option<byte> {
    match c
    case 7 => Some(97)
    case 8 => Some(98)
    case 12 => Some(102)
    case 10 => Some(110)
    case 13 => Some(114)
    case 9 => Some(116)
    case 11 => Some(118)
    case 92 => Some(92)
    case 39 => Some(39)
    case 34 => Some(34)
    case 63 => Some(63)
    case _ => None
  }

  /** The decoder's own table, from letters to characters. */
  function EscapedChar(letter: byte): Option<byte> {
    match letter
    case 97 => Some(7)
    case 98 => Some(8)
    case 102 => Some(12)
    case 110 => Some(10)
    case 114 => Some(13)
    case 116 => Some(9)
    case 118 => Some(11)
    case 92 => Some(92)
    case 39 => Some(39)
    case 34 => Some(34)
    case 63 => Some(63)
    case _ => None
  }

  predicate IsPlain(c: byte) {
    0x20 <= c <= 0x7F && c != 92 && c != 39 && c != 34 && c != 63
  }

  /** Whether the printer falls back to a hexadecimal escape. */
  predicate NeedsHex(c: byte) {
    !IsPlain(c) && EscapeLetter(c) == None
  }

  function EscapeChar(c: byte): seq<byte> {
    if IsPlain(c) then [c]
    else match EscapeLetter(c)
         case Some(letter) => [92, letter]
         case None => [92, 120, DigitChar(c / 16), DigitChar(c % 16)]
  }

  function EscapeText(s: seq<byte>): seq<byte> {
    if s == [] then [] else EscapeText(s[..|s| - 1]) + EscapeChar(s[|s| - 1])
  }

  predicate AnyHex(s: seq<byte>) {
    exists i :: 0 <= i < |s| && NeedsHex(s[i])
  }

  predicate IsHexDigit(c: byte) {
    IsDigit(c) || 65 <= c <= 70 || 97 <= c <= 102
  }

  function HexValue(c: byte): (v: nat)
    requires IsHexDigit(c)
    ensures v < 16
  {
    if c <= 57 then c - 48 else if c <= 70 then c - 55 else c - 87
  }

  function Cons(c: byte, r: Option<seq<byte>>): Option<seq<byte>> {
    if r.None? then None else Some([c] + r.value)
  }

  /** What an escaped text stands for, escape by escape; None where the decoder throws. */
  function Unescape(s: seq<byte>): Option<seq<byte>> {
    if s == [] then Some([])
    else if s[0] != 92 then
      if s[0] < 0x20 || s[0] > 0x7F then None else Cons(s[0], Unescape(s[1..]))
    else if |s| == 1 then None
    else if s[1] == 120 || s[1] == 88 then
      if |s| < 4 || !IsHexDigit(s[2]) || !IsHexDigit(s[3]) then None
      else Cons(16 * HexValue(s[2]) + HexValue(s[3]), Unescape(s[4..]))
    else if EscapedChar(s[1]).None? then None
    else Cons(EscapedChar(s[1]).value, Unescape(s[2..]))
  }

  lemma UnescapeChar(c: byte, rest: seq<byte>)
    ensures Unescape(EscapeChar(c) + rest) == Cons(c, Unescape(rest))
  {
    var t := EscapeChar(c) + rest;
    if IsPlain(c) {
      assert t[1..] == rest;
    } else if EscapeLetter(c).Some? {
      assert t[2..] == rest;
    } else {
      assert t[4..] == rest;
    }
  }

  lemma {:induction false} UnescapeEscaped(s: seq<byte>, rest: seq<byte>)
    ensures Unescape(EscapeText(s) + rest)
         == if Unescape(rest).None? then None else Some(s + Unescape(rest).value)
  {
    hide EscapeChar, Unescape;
    if s == [] {
      assert EscapeText(s) + rest == rest;
      assert Unescape(rest).Some? ==> s + Unescape(rest).value == Unescape(rest).value;
    } else {
      var front, c := s[..|s| - 1], s[|s| - 1];
      assert EscapeText(s) + rest == EscapeText(front) + (EscapeChar(c) + rest);
      UnescapeChar(c, rest);
      UnescapeEscaped(front, EscapeChar(c) + rest);
      assert s == front + [c];
      if Unescape(rest).Some? {
        assert front + ([c] + Unescape(rest).value) == s + Unescape(rest).value;
      }
    }
  }

  /** Every byte string survives escaping and unescaping. */
  lemma EscapeRoundTrip(s: seq<byte>)
    ensures Unescape(EscapeText(s)) == Some(s)
  {
    hide EscapeText;
    UnescapeEscaped(s, []);
    assert EscapeText(s) + [] == EscapeText(s);
    assert s + [] == s;
  }

  /** Escaped text holds printable ASCII only, so neither a line feed nor a byte the scanner rejects. */
  lemma {:induction false} EscapedIsPrintable(s: seq<byte>)
    ensures forall i :: 0 <= i < |EscapeText(s)| ==> 0x20 <= EscapeText(s)[i] <= 0x7F
  {
    if s != [] {
      EscapedIsPrintable(s[..|s| - 1]);
    }
  }

  datatype State = Plain | Backslash | HexDigit1 | HexDigit2

  /** The text already read that the state stands for. */
  function Begun(state: State, hex: seq<byte>): seq<byte> {
    match state
    case Plain => []
    case Backslash => [92]
    case HexDigit1 => [92, 120]
    case HexDigit2 => [92, 120] + hex
  }

  /** What is still to come when the machine is in `state` before `rest`. */
  function ToCome(state: State, hex: seq<byte>, rest: seq<byte>): Option<seq<byte>> {
    Unescape(Begun(state, hex) + rest)
  }

  lemma ToComeStep(state: State, hex: seq<byte>, c: byte, rest: seq<byte>)
    requires |hex| == if state == HexDigit2 then 1 else 0
    requires state == HexDigit2 ==> IsHexDigit(hex[0])
    ensures ToCome(state, hex, [c] + rest)
         == match state
            case Plain =>
              if c == 92 then ToCome(Backslash, [], rest)
              else if c < 0x20 || c > 0x7F then None
              else Cons(c, ToCome(Plain, [], rest))
            case Backslash =>
              if c == 120 || c == 88 then ToCome(HexDigit1, [], rest)
              else if EscapedChar(c).None? then None
              else Cons(EscapedChar(c).value, ToCome(Plain, [], rest))
            case HexDigit1 =>
              if IsHexDigit(c) then ToCome(HexDigit2, [c], rest) else None
            case HexDigit2 =>
              if IsHexDigit(c) then Cons(16 * HexValue(hex[0]) + HexValue(c), ToCome(Plain, [], rest)) else None
  {
    hide EscapedChar, HexValue, IsHexDigit;
    assert [] + rest == rest;
    match state
    case Plain => ToComePlain(c, rest);
    case Backslash => ToComeBackslash(c, rest);
    case HexDigit1 =>
      assert Begun(state, hex) + ([c] + rest) == Begun(HexDigit2, [c]) + rest;
      assert (Begun(state, hex) + ([c] + rest))[2] == c;
    case HexDigit2 =>
      assert (Begun(state, hex) + ([c] + rest))[4..] == rest;
  }

  lemma ToComePlain(c: byte, rest: seq<byte>)
    ensures ToCome(Plain, [], [c] + rest)
         == if c == 92 then ToCome(Backslash, [], rest)
            else if c < 0x20 || c > 0x7F then None
            else Cons(c, ToCome(Plain, [], rest))
  {
    var t := [c] + rest;
    assert [] + rest == rest && [] + t == t && t[1..] == rest;
  }

  lemma ToComeBackslash(c: byte, rest: seq<byte>)
    ensures ToCome(Backslash, [], [c] + rest)
         == if c == 120 || c == 88 then ToCome(HexDigit1, [], rest)
            else if EscapedChar(c).None? then None
            else Cons(EscapedChar(c).value, ToCome(Plain, [], rest))
  {
    hide EscapedChar, HexValue, IsHexDigit;
    var t, t' := [92] + ([c] + rest), [92, 120] + rest;
    assert [] + rest == rest && t[2..] == rest;
    assert |t| == |t'| && forall i :: 2 <= i < |t| ==> t[i] == t'[i];
    assert |t| >= 4 ==> t[4..] == t'[4..];
  }

  function Prepend(s: seq<byte>, r: Option<seq<byte>>): Option<seq<byte>> {
    if r.None? then None else Some(s + r.value)
  }

  lemma PrependCons(s: seq<byte>, c: byte, r: Option<seq<byte>>)
    ensures Prepend(s, Cons(c, r)) == Prepend(s + [c], r)
  {
    if r.Some? {
      assert s + ([c] + r.value) == s + [c] + r.value;
    }
  }

  lemma ToComeAtStart(s: seq<byte>)
    ensures Prepend([], ToCome(Plain, [], s)) == Unescape(s)
  {
    assert [] + s == s;
    if Unescape(s).Some? {
      assert [] + Unescape(s).value == Unescape(s).value;
    }
  }

  lemma ToComeAtEnd(state: State, hex: seq<byte>, res: seq<byte>)
    requires |hex| == if state == HexDigit2 then 1 else 0
    ensures Prepend(res, ToCome(state, hex, [])) == if state == Plain then Some(res) else None
  {
    assert Begun(state, hex) + [] == Begun(state, hex);
    assert res + [] == res;
  }

  /** One character: the state after it and the character it completes, if any; `bad` is where the original throws. */
  method DecodeChar(state: State, hex: seq<byte>, ch: byte, ghost rest: seq<byte>)
    returns (bad: bool, state': State, hex': seq<byte>, decoded: Option<byte>)
    requires |hex| == if state == HexDigit2 then 1 else 0
    requires state == HexDigit2 ==> IsHexDigit(hex[0])
    ensures |hex'| == if state' == HexDigit2 then 1 else 0
    ensures state' == HexDigit2 ==> IsHexDigit(hex'[0])
    ensures decoded.Some? ==> state' == Plain
    ensures |Begun(state', hex')| + (if decoded.Some? then 1 else 0) <= |Begun(state, hex)| + 1
    ensures ToCome(state, hex, [ch] + rest)
         == if bad then None
            else if decoded.Some? then Cons(decoded.value, ToCome(state', hex', rest))
            else ToCome(state', hex', rest)
  {
    hide ToCome, EscapedChar, HexValue, IsHexDigit;
    ToComeStep(state, hex, ch, rest);
    assert state != HexDigit2 ==> hex == [] && hex + [ch] == [ch];
    bad, state', hex', decoded := false, state, hex, None;
    match state {
      case Plain =>
        if ch == 92 {
          state' := Backslash;
        } else if ch < 0x20 || ch > 0x7F {
          bad := true;
        } else {
          decoded := Some(ch);
        }
      case Backslash =>
        if ch == 120 || ch == 88 {
          state' := HexDigit1;
        } else if EscapedChar(ch).None? {
          bad := true;
        } else {
          decoded, state' := EscapedChar(ch), Plain;
        }
      case HexDigit1 =>
        if IsHexDigit(ch) {
          hex', state' := hex + [ch], HexDigit2;
        } else {
          bad := true;
        }
      case HexDigit2 =>
        if IsHexDigit(ch) {
          decoded, hex', state' := Some(16 * HexValue(hex[0]) + HexValue(ch)), [], Plain;
        } else {
          bad := true;
        }
    }
  }

  /**
   * Decodes the characters of `buf` from `begin` up to `end` and writes the result to `buf` from `out` on,
   * returning its length, or None where the original throws. The output may overlap the input from the
   * left: no character is overwritten before it is read.
   */
  method DecodeEscapes(buf: array<byte>, begin: nat, end: nat, out: nat) returns (count: Option<nat>)
    requires out <= begin <= end <= buf.Length
    modifies buf
    ensures count.Some? <==> Unescape(old(buf[begin..end])).Some?
    ensures count.Some? ==>
              count.value <= end - begin && Some(buf[out..out + count.value]) == Unescape(old(buf[begin..end]))
    ensures buf[..out] == old(buf[..out]) && buf[end..] == old(buf[end..])
  {
    hide Unescape, ToCome, EscapedChar, HexValue, IsHexDigit;
    ghost var src := buf[..];
    ghost var res: seq<byte> := [];
    var n, state, hex := 0, Plain, [];
    var it := begin;
    ToComeAtStart(src[begin..end]);
    while it < end
      invariant begin <= it <= end
      invariant n + |Begun(state, hex)| <= it - begin
      invariant |hex| == if state == HexDigit2 then 1 else 0
      invariant state == HexDigit2 ==> IsHexDigit(hex[0])
      invariant forall k :: 0 <= k < out || it <= k < buf.Length ==> buf[k] == src[k]
      invariant buf[out..out + n] == res
      invariant Unescape(src[begin..end]) == Prepend(res, ToCome(state, hex, src[it..end]))
    {
      var ch := buf[it];
      assert src[it..end] == [ch] + src[it + 1..end];
      var bad, decoded;
      bad, state, hex, decoded := DecodeChar(state, hex, ch, src[it + 1..end]);
      if bad {
        return None;
      }
      if decoded.Some? {
        buf[out + n] := decoded.value;
        n := n + 1;
        PrependCons(res, decoded.value, ToCome(Plain, [], src[it + 1..end]));
        res := res + [decoded.value];
      }
      it := it + 1;
    }
    ToComeAtEnd(state, hex, res);
    assert src[it..end] == [];
    count := if state != Plain then None else Some(n);
  }
}
