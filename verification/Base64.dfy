/** Base64 (section 4 of RFC 4648), with the iterator adaptors of the original taken as regrouping of bits. */
module Base64 {
  import opened Bytes

  function Pow2(w: nat): (p: nat)
    ensures p > 0
  {
    if w == 0 then 1 else 2 * Pow2(w - 1)
  }

  /** The `w` low bits of `x`, most significant bit first. */
  function BitsOf(w: nat, x: nat): (b: seq<bool>)
    ensures |b| == w
  {
    if w == 0 then [] else BitsOf(w - 1, x / 2) + [x % 2 == 1]
  }

  function NumberOf(b: seq<bool>): (x: nat)
    ensures x < Pow2(|b|)
  {
    if b == [] then 0 else 2 * NumberOf(b[..|b| - 1]) + if b[|b| - 1] then 1 else 0
  }

  /** The bits of a sequence of `w`-bit numbers. */
  function ToBits(w: nat, xs: seq<nat>): (b: seq<bool>)
    ensures |b| == w * |xs|
  {
    if xs == [] then [] else BitsOf(w, xs[0]) + ToBits(w, xs[1..])
  }

  /** Bits cut into `w`-bit numbers; bits left over at the end are dropped. */
  function Regroup(w: nat, b: seq<bool>): (xs: seq<nat>)
    requires w > 0
    ensures forall i :: 0 <= i < |xs| ==> xs[i] < Pow2(w)
    decreases |b|
  {
    if |b| < w then [] else [NumberOf(b[..w])] + Regroup(w, b[w..])
  }

  lemma {:induction false} NumberOfBitsOf(w: nat, x: nat)
    requires x < Pow2(w)
    ensures NumberOf(BitsOf(w, x)) == x
  {
    if w > 0 {
      NumberOfBitsOf(w - 1, x / 2);
      assert BitsOf(w, x)[..w - 1] == BitsOf(w - 1, x / 2);
    }
  }

  lemma {:induction false} BitsOfNumberOf(b: seq<bool>)
    ensures BitsOf(|b|, NumberOf(b)) == b
  {
    if b != [] {
      BitsOfNumberOf(b[..|b| - 1]);
    }
  }

  /** Regrouping the bits of `xs` gives `xs` back, followed by whatever follows those bits. */
  lemma {:induction false} RegroupToBits(w: nat, xs: seq<nat>, tail: seq<bool>)
    requires w > 0 && forall i :: 0 <= i < |xs| ==> xs[i] < Pow2(w)
    ensures Regroup(w, ToBits(w, xs) + tail) == xs + Regroup(w, tail)
  {
    hide BitsOf, NumberOf;
    if xs == [] {
      assert ToBits(w, xs) + tail == tail;
    } else {
      var b := ToBits(w, xs) + tail;
      assert b[..w] == BitsOf(w, xs[0]) && b[w..] == ToBits(w, xs[1..]) + tail;
      NumberOfBitsOf(w, xs[0]);
      RegroupToBits(w, xs[1..], tail);
    }
  }

  lemma {:induction false} ToBitsRegroup(w: nat, b: seq<bool>, n: nat)
    requires w > 0 && |b| == w * n
    ensures |Regroup(w, b)| == n && ToBits(w, Regroup(w, b)) == b
    decreases |b|
  {
    if n > 0 {
      assert w * n == w + w * (n - 1);
      ToBitsRegroup(w, b[w..], n - 1);
      BitsOfNumberOf(b[..w]);
      assert Regroup(w, b)[1..] == Regroup(w, b[w..]);
    }
  }

  function Zeros(n: nat): seq<bool> {
    seq(n, _ => false)
  }

  function SextetChar(v: nat): byte
    requires v < 64
  {
    if v < 26 then 65 + v else if v < 52 then 71 + v else if v < 62 then v - 4 else if v == 62 then 43 else 47
  }

  /** The value of a character of the alphabet; the pad character counts as `A`, as it is replaced first. */
  function CharSextet(c: byte): Option<nat> {
    if c == 61 then Some(0)
    else if 65 <= c <= 90 then Some(c - 65)
    else if 97 <= c <= 122 then Some(c - 71)
    else if IsDigit(c) then Some(c + 4)
    else if c == 43 then Some(62)
    else if c == 47 then Some(63)
    else None
  }

  function Sextets(bin: seq<byte>): (v: seq<nat>)
    ensures forall i :: 0 <= i < |v| ==> v[i] < 64
  {
    var bits := ToBits(8, bin);
    assert Pow2(6) == 64;
    Regroup(6, bits + Zeros((6 - |bits| % 6) % 6))
  }

  function Pads(n: nat): nat {
    (3 - n % 3) % 3
  }

  function Encode(bin: seq<byte>): seq<byte> {
    var v := Sextets(bin);
    seq(|v|, i requires 0 <= i < |v| => SextetChar(v[i])) + seq(Pads(|bin|), _ => 61)
  }

  function PadCount(text: seq<byte>): (n: nat)
    ensures n <= |text|
  {
    if text == [] then 0 else PadCount(text[..|text| - 1]) + if text[|text| - 1] == 61 then 1 else 0
  }

  predicate InAlphabet(text: seq<byte>) {
    forall i :: 0 <= i < |text| ==> CharSextet(text[i]).Some?
  }

  function Values(text: seq<byte>): (v: seq<nat>)
    requires InAlphabet(text)
    ensures |v| == |text|
  {
    seq(|text|, i requires 0 <= i < |text| => CharSextet(text[i]).value)
  }

  /**
   * The decoder: pad characters count as zero bits, the bits are regrouped to bytes, and as many bytes as
   * there were pad characters are erased. A foreign character is an exception. Behind a last group of a
   * single character the text is read past its end, and with more pad characters than bytes the erasure
   * starts before the first byte; both are undefined.
   */
  function Decode(text: seq<byte>): Computed<seq<byte>> {
    if !InAlphabet(text) then Err(Exception)
    else if |text| % 4 == 1 then Err(UndefinedBehaviour)
    else
      assert Pow2(8) == 256;
      var bytes := Regroup(8, ToBits(6, Values(text)));
      var pads := PadCount(text);
      if pads > |bytes| then Err(UndefinedBehaviour) else Ok(bytes[..|bytes| - pads])
  }

  lemma {:induction false} PadCountSplit(a: seq<byte>, n: nat)
    requires forall i :: 0 <= i < |a| ==> a[i] != 61
    ensures PadCount(a + seq(n, _ => 61)) == n
  {
    var t: seq<byte> := a + seq(n, _ => 61);
    if n > 0 {
      assert t[..|t| - 1] == a + seq(n - 1, _ => 61);
      PadCountSplit(a, n - 1);
    } else if a != [] {
      assert t == a && a[..|a| - 1] + seq(0, _ => 61) == a[..|a| - 1];
      PadCountSplit(a[..|a| - 1], 0);
    }
  }

  lemma {:induction false} ToBitsConcat(w: nat, xs: seq<nat>, ys: seq<nat>)
    ensures ToBits(w, xs + ys) == ToBits(w, xs) + ToBits(w, ys)
  {
    if xs == [] {
      assert xs + ys == ys;
    } else {
      assert (xs + ys)[1..] == xs[1..] + ys;
      ToBitsConcat(w, xs[1..], ys);
    }
  }

  lemma {:induction false} ToBitsOfZeros(n: nat)
    ensures ToBits(6, seq(n, _ => 0)) == Zeros(6 * n)
  {
    var z: seq<nat> := seq(n, _ => 0);
    if n > 0 {
      assert z[1..] == seq(n - 1, _ => 0);
      ToBitsOfZeros(n - 1);
      assert BitsOf(6, 0) == Zeros(6);
    }
  }

  lemma {:induction false} RegroupZeros(n: nat)
    ensures Regroup(8, Zeros(8 * n)) == seq(n, _ => 0)
  {
    if n > 0 {
      assert Zeros(8 * n)[8..] == Zeros(8 * (n - 1));
      RegroupZeros(n - 1);
      assert NumberOf(Zeros(8 * n)[..8]) == 0 by {
        assert Zeros(8 * n)[..8] == BitsOf(8, 0);
        NumberOfBitsOf(8, 0);
      }
    }
  }

  lemma Remainder(q: int, r: int, d: int)
    requires 0 <= r < d && (d == 6 || d == 3)
    ensures (d * q + r) / d == q && (d * q + r) % d == r
  {
  }

  lemma PadArithmetic(n: nat)
    ensures (6 - 8 * n % 6) % 6 == 2 * Pads(n)
    ensures 8 * n + 2 * Pads(n) == 6 * ((n + 2) / 3 * 4 - Pads(n))
  {
    var q, r := n / 3, n % 3;
    Remainder(4 * q + r, 2 * r, 6);
    assert 8 * n == 6 * (4 * q + r) + 2 * r;
    if r == 0 {
      Remainder(q, 2, 3);
    } else {
      Remainder(q + 1, r - 1, 3);
    }
  }

  lemma SextetBits(bin: seq<byte>)
    ensures |Sextets(bin)| == (|bin| + 2) / 3 * 4 - Pads(|bin|)
    ensures ToBits(6, Sextets(bin)) == ToBits(8, bin) + Zeros(2 * Pads(|bin|))
  {
    PadArithmetic(|bin|);
    ToBitsRegroup(6, ToBits(8, bin) + Zeros(2 * Pads(|bin|)), (|bin| + 2) / 3 * 4 - Pads(|bin|));
  }

  /** The text consists of whole groups of four alphabet characters, with the pads RFC 4648 asks for. */
  lemma EncodedShape(bin: seq<byte>)
    ensures |Encode(bin)| == (|bin| + 2) / 3 * 4
    ensures PadCount(Encode(bin)) == Pads(|bin|)
    ensures InAlphabet(Encode(bin)) && Values(Encode(bin)) == Sextets(bin) + seq(Pads(|bin|), _ => 0)
  {
    hide Sextets, PadCount;
    SextetBits(bin);
    var v, n := Sextets(bin), Pads(|bin|);
    var chars: seq<byte> := seq(|v|, i requires 0 <= i < |v| => SextetChar(v[i]));
    PadCountSplit(chars, n);
    assert Encode(bin) == chars + seq(n, _ => 61);
    assert forall i :: 0 <= i < |v| ==> CharSextet(chars[i]) == Some(v[i]);
  }

  /** Every byte string of every length survives encoding and decoding. */
  lemma RoundTrip(bin: seq<byte>)
    ensures Decode(Encode(bin)) == Ok(bin)
  {
    hide Encode, Sextets, PadCount, Regroup, ToBits, Values;
    var pads := Pads(|bin|);
    EncodedShape(bin);
    SextetBits(bin);
    ToBitsConcat(6, Sextets(bin), seq(pads, _ => 0));
    ToBitsOfZeros(pads);
    assert ToBits(6, Values(Encode(bin))) == ToBits(8, bin) + Zeros(8 * pads);
    assert Pow2(8) == 256;
    RegroupToBits(8, bin, Zeros(8 * pads));
    RegroupZeros(pads);
  }

  // --- Texts the decoder has no defined result for ----------------------------------------------------

  /** A last group of one character, or more pad characters than the whole text makes bytes. */
  predicate Malformed(text: seq<byte>) {
    |text| % 4 == 1 || PadCount(text) > 3 * |text| / 4
  }

  lemma {:induction false} RegroupLength(b: seq<bool>)
    ensures |Regroup(8, b)| == |b| / 8
    decreases |b|
  {
    hide NumberOf;
    if |b| >= 8 {
      RegroupLength(b[8..]);
    }
  }

  /** Over the alphabet nothing is thrown, and decoding is undefined exactly for the malformed texts. */
  lemma UndefinedIffMalformed(text: seq<byte>)
    requires InAlphabet(text)
    ensures Decode(text) != Err(Exception)
    ensures Decode(text) == Err(UndefinedBehaviour) <==> Malformed(text)
  {
    hide ToBits, Regroup;
    var bits := ToBits(6, Values(text));
    RegroupLength(bits);
    assert |bits| == 6 * |text| && 6 * |text| / 8 == 3 * |text| / 4;
  }

  /** What the encoder writes is well formed. */
  lemma EncodedIsWellFormed(bin: seq<byte>)
    ensures InAlphabet(Encode(bin)) && !Malformed(Encode(bin))
  {
    hide Encode;
    EncodedShape(bin);
  }
}
