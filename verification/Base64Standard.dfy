/** Base64 as section 4 of RFC 4648 describes it: by groups of three bytes and the table of the alphabet. */
module Base64Standard {
  import opened Bytes
  import opened Base64

  /** The table of the alphabet. */
  function Letter(v: nat): byte
    requires v < 64
  {
    if v < 26 then 'A' as int + v
    else if v < 52 then 'a' as int + (v - 26)
    else if v < 62 then '0' as int + (v - 52)
    else if v == 62 then '+' as int else '/' as int
  }

  lemma LetterIsSextetChar(v: nat)
    requires v < 64
    ensures Letter(v) == SextetChar(v)
  {
  }

  /** The four characters of three bytes; a byte that is missing counts as 0. */
  function Group(a: byte, b: byte, c: byte): seq<byte> {
    [Letter(a / 4), Letter(a % 4 * 16 + b / 16), Letter(b % 16 * 4 + c / 64), Letter(c % 64)]
  }

  function ByGroups(bin: seq<byte>): seq<byte> {
    if bin == [] then []
    else if |bin| == 1 then Group(bin[0], 0, 0)[..2] + [61, 61]
    else if |bin| == 2 then Group(bin[0], bin[1], 0)[..3] + [61]
    else Group(bin[0], bin[1], bin[2]) + ByGroups(bin[3..])
  }

  // --- Regrouping three bytes to four characters -------------------------------------------------------

  lemma Halved(z: nat, y: nat)
    ensures (2 * z + y) / 2 == z + y / 2 && (2 * z + y) % 2 == y % 2
  {
  }

  lemma {:induction false} BitsSplit(v: nat, w: nat, x: nat, y: nat)
    requires y < Pow2(w)
    ensures BitsOf(v + w, x * Pow2(w) + y) == BitsOf(v, x) + BitsOf(w, y)
  {
    if w > 0 {
      BitsSplit(v, w - 1, x, y / 2);
      Halved(x * Pow2(w - 1), y);
      assert x * Pow2(w) + y == 2 * (x * Pow2(w - 1)) + y;
      assert BitsOf(v, x) + BitsOf(w - 1, y / 2) + [y % 2 == 1] == BitsOf(v, x) + (BitsOf(w - 1, y / 2) + [y % 2 == 1]);
    } else {
      assert BitsOf(v, x) + [] == BitsOf(v, x);
    }
  }

  function Sextets4(a: byte, b: byte, c: byte): (v: seq<nat>)
    ensures |v| == 4 && forall i :: 0 <= i < 4 ==> v[i] < 64
  {
    [a / 4, a % 4 * 16 + b / 16, b % 16 * 4 + c / 64, c % 64]
  }

  lemma Powers()
    ensures Pow2(2) == 4 && Pow2(4) == 16 && Pow2(6) == 64 && Pow2(8) == 256
  {
    assert Pow2(1) == 2 && Pow2(3) == 8 && Pow2(5) == 32 && Pow2(7) == 128;
  }

  lemma BitsOfNone(w: nat)
    ensures ToBits(w, []) == []
  {
  }

  lemma BitsOfMore(w: nat, x: nat, xs: seq<nat>)
    ensures ToBits(w, [x] + xs) == BitsOf(w, x) + ToBits(w, xs)
  {
    hide BitsOf;
    assert ([x] + xs)[1..] == xs;
  }

  lemma ThreeBytesBits(a: byte, b: byte, c: byte)
    ensures ToBits(8, [a, b, c]) == BitsOf(8, a) + (BitsOf(8, b) + BitsOf(8, c))
  {
    hide BitsOf, ToBits;
    BitsOfNone(8);
    BitsOfMore(8, c, []);
    BitsOfMore(8, b, [c]);
    BitsOfMore(8, a, [b, c]);
    assert [a] + [b, c] == [a, b, c] && [b] + [c] == [b, c] && [c] + [] == [c];
    assert BitsOf(8, c) + [] == BitsOf(8, c);
  }

  lemma FourSextetsBits(v: seq<nat>)
    requires |v| == 4
    ensures ToBits(6, v) == BitsOf(6, v[0]) + (BitsOf(6, v[1]) + (BitsOf(6, v[2]) + BitsOf(6, v[3])))
  {
    hide BitsOf, ToBits;
    BitsOfNone(6);
    BitsOfMore(6, v[3], []);
    BitsOfMore(6, v[2], [v[3]]);
    BitsOfMore(6, v[1], [v[2], v[3]]);
    BitsOfMore(6, v[0], [v[1], v[2], v[3]]);
    assert v == [v[0]] + ([v[1]] + ([v[2]] + ([v[3]] + [])));
    assert [v[1]] + [v[2], v[3]] == [v[1], v[2], v[3]] && [v[2]] + [v[3]] == [v[2], v[3]] && [v[3]] + [] == [v[3]];
    assert v == [v[0]] + [v[1], v[2], v[3]];
    assert BitsOf(6, v[3]) + [] == BitsOf(6, v[3]);
  }

  lemma SameBits(a: byte, b: byte, c: byte)
    ensures ToBits(8, [a, b, c]) == ToBits(6, Sextets4(a, b, c))
  {
    hide BitsOf, Pow2;
    Powers();
    ThreeBytesBits(a, b, c);
    FourSextetsBits(Sextets4(a, b, c));
    BitsSplit(6, 2, a / 4, a % 4);
    BitsSplit(2, 4, a % 4, b / 16);
    BitsSplit(4, 4, b / 16, b % 16);
    BitsSplit(4, 2, b % 16, c / 64);
    BitsSplit(2, 6, c / 64, c % 64);
    assert a == a / 4 * 4 + a % 4 && b == b / 16 * 16 + b % 16 && c == c / 64 * 64 + c % 64;
  }

  function Fill(n: nat): nat {
    (6 - 8 * n % 6) % 6
  }

  lemma FillAgain(n: nat)
    requires n >= 3
    ensures Fill(n) == Fill(n - 3)
  {
    assert 8 * n == 8 * (n - 3) + 6 * 4;
    assert 8 * n % 6 == 8 * (n - 3) % 6;
  }

  lemma SextetsOfThree(a: byte, b: byte, c: byte, rest: seq<byte>)
    ensures Sextets([a, b, c] + rest) == Sextets4(a, b, c) + Sextets(rest)
  {
    hide BitsOf, ToBits, Regroup, Sextets4;
    var bin := [a, b, c] + rest;
    FillAgain(|bin|);
    ToBitsConcat(8, [a, b, c], rest);
    SameBits(a, b, c);
    Powers();
    var tail := ToBits(8, rest) + Zeros(Fill(|rest|));
    RegroupToBits(6, Sextets4(a, b, c), tail);
    assert ToBits(8, bin) + Zeros(Fill(|bin|)) == ToBits(6, Sextets4(a, b, c)) + tail;
  }

  function Letters(v: seq<nat>): (r: seq<byte>)
    requires forall i :: 0 <= i < |v| ==> v[i] < 64
    ensures |r| == |v|
  {
    seq(|v|, i requires 0 <= i < |v| => Letter(v[i]))
  }

  lemma EncodeIs(bin: seq<byte>)
    ensures Encode(bin) == Letters(Sextets(bin)) + seq(Pads(|bin|), _ => 61)
  {
    hide Sextets, Letter, SextetChar;
    forall v: nat | v < 64 ensures Letter(v) == SextetChar(v) {
      LetterIsSextetChar(v);
    }
  }

  lemma GroupIs(a: byte, b: byte, c: byte)
    ensures Group(a, b, c) == Letters(Sextets4(a, b, c))
  {
    hide Letter;
  }

  lemma LettersConcat(u: seq<nat>, v: seq<nat>)
    requires (forall i :: 0 <= i < |u| ==> u[i] < 64) && forall i :: 0 <= i < |v| ==> v[i] < 64
    ensures Letters(u + v) == Letters(u) + Letters(v)
  {
    hide Letter;
  }

  lemma EncodeThree(a: byte, b: byte, c: byte, rest: seq<byte>)
    ensures Encode([a, b, c] + rest) == Group(a, b, c) + Encode(rest)
  {
    hide Sextets, Encode, Letters, Sextets4, Group;
    var bin := [a, b, c] + rest;
    SextetsOfThree(a, b, c, rest);
    EncodeIs(bin);
    EncodeIs(rest);
    GroupIs(a, b, c);
    LettersConcat(Sextets4(a, b, c), Sextets(rest));
    assert Pads(|bin|) == Pads(|rest|);
    var pads: seq<byte> := seq(Pads(|rest|), _ => 61);
    assert Encode(bin) == Group(a, b, c) + (Letters(Sextets(rest)) + pads);
  }

  /** Without the bytes that are missing, the last sextets are those of the bytes filled up with zeros. */
  lemma LastSextets(bin: seq<byte>, a: byte, b: byte)
    requires bin == [a] || bin == [a, b]
    ensures var v := Sextets4(a, if |bin| == 2 then b else 0, 0); Sextets(bin) == v[..|bin| + 1]
  {
    hide BitsOf, Regroup, Sextets4;
    var b' := if |bin| == 2 then b else 0;
    var v, n := Sextets4(a, b', 0), 3 - |bin|;
    var zeros: seq<nat> := seq(n, _ => 0);
    SameBits(a, b', 0);
    assert [a, b', 0] == bin + zeros;
    ToBitsConcat(8, bin, zeros);
    ZeroBytes(n);
    Powers();
    var all := ToBits(8, bin) + Zeros(Fill(|bin|));
    assert v == v[..|bin| + 1] + v[|bin| + 1..];
    ToBitsConcat(6, v[..|bin| + 1], v[|bin| + 1..]);
    assert |all| == 6 * (|bin| + 1);
    assert all == ToBits(6, v)[..|all|];
    assert all == ToBits(6, v[..|bin| + 1]) + [];
    RegroupToBits(6, v[..|bin| + 1], []);
    RegroupNothing();
  }

  lemma RegroupNothing()
    ensures Regroup(6, []) == []
  {
  }

  lemma {:induction false} ZeroBytes(n: nat)
    ensures ToBits(8, seq(n, _ => 0)) == Zeros(8 * n)
  {
    var z: seq<nat> := seq(n, _ => 0);
    if n > 0 {
      assert z[1..] == seq(n - 1, _ => 0);
      ZeroBytes(n - 1);
      assert BitsOf(8, 0) == Zeros(8);
    }
  }

  lemma LettersPrefix(v: seq<nat>, k: nat)
    requires k <= |v| && forall i :: 0 <= i < |v| ==> v[i] < 64
    ensures Letters(v[..k]) == Letters(v)[..k]
  {
    hide Letter;
  }

  lemma PadsAre(n: nat)
    requires n == 1 || n == 2
    ensures seq(Pads(n), _ => 61 as byte) == if n == 1 then [61, 61] else [61]
  {
  }

  lemma EncodeOne(a: byte)
    ensures Encode([a]) == Group(a, 0, 0)[..2] + [61, 61]
  {
    hide Sextets, Encode, Letters, Group, Sextets4;
    LastSextets([a], a, 0);
    EncodeIs([a]);
    GroupIs(a, 0, 0);
    LettersPrefix(Sextets4(a, 0, 0), 2);
    PadsAre(1);
  }

  lemma EncodeTwo(a: byte, b: byte)
    ensures Encode([a, b]) == Group(a, b, 0)[..3] + [61]
  {
    hide Sextets, Encode, Letters, Group, Sextets4;
    LastSextets([a, b], a, b);
    EncodeIs([a, b]);
    GroupIs(a, b, 0);
    LettersPrefix(Sextets4(a, b, 0), 3);
    PadsAre(2);
  }

  /** The bit iterators of the encoder write what the standard's table and groups say. */
  lemma {:induction false} EncodesByGroups(bin: seq<byte>)
    ensures Encode(bin) == ByGroups(bin)
  {
    hide Group, Encode;
    if bin == [] {
      EncodedShape(bin);
    } else if |bin| == 1 {
      EncodeOne(bin[0]);
      assert bin == [bin[0]];
    } else if |bin| == 2 {
      EncodeTwo(bin[0], bin[1]);
      assert bin == [bin[0], bin[1]];
    } else {
      assert bin == [bin[0], bin[1], bin[2]] + bin[3..];
      EncodeThree(bin[0], bin[1], bin[2], bin[3..]);
      EncodesByGroups(bin[3..]);
    }
  }

  // --- Decoding -------------------------------------------------------------------------------------------

  /** A pad counts as a zero, wherever it stands. */
  function Value(c: byte): nat {
    if 'A' as int <= c <= 'Z' as int then c - 'A' as int
    else if 'a' as int <= c <= 'z' as int then c - 'a' as int + 26
    else if '0' as int <= c <= '9' as int then c - '0' as int + 52
    else if c == '+' as int then 62
    else if c == '/' as int then 63
    else 0
  }

  lemma ValueIsSextet(c: byte)
    ensures CharSextet(c).Some? ==> Value(c) == CharSextet(c).value < 64
    ensures CharSextet(c).Some? <==> (c < 128 && (Value(c) != 0 || c == 'A' as int || c == '=' as int))
  {
  }

  function Bytes3(v: nat, w: nat, x: nat, y: nat): (r: seq<nat>)
    requires v < 64 && w < 64 && x < 64 && y < 64
    ensures |r| == 3 && forall i :: 0 <= i < 3 ==> r[i] < 256
  {
    [v * 4 + w / 16, w % 16 * 16 + x / 4, x % 4 * 64 + y]
  }

  /** Three bytes for every four characters; of a shorter last group, the bytes it determines. */
  function ValuesByGroups(v: seq<nat>): seq<nat>
    requires forall i :: 0 <= i < |v| ==> v[i] < 64
  {
    if |v| <= 1 then []
    else if |v| == 2 then Bytes3(v[0], v[1], 0, 0)[..1]
    else if |v| == 3 then Bytes3(v[0], v[1], v[2], 0)[..2]
    else Bytes3(v[0], v[1], v[2], v[3]) + ValuesByGroups(v[4..])
  }

  lemma SextetsOfBytes(v: nat, w: nat, x: nat, y: nat)
    requires v < 64 && w < 64 && x < 64 && y < 64
    ensures var b := Bytes3(v, w, x, y); Sextets4(b[0], b[1], b[2]) == [v, w, x, y]
  {
    var b := Bytes3(v, w, x, y);
    QuotientOf4(v, w / 16);
    QuotientOf16(w % 16, x / 4);
    QuotientOf64(x % 4, y);
    QuotientOf16(w / 16, w % 16);
    QuotientOf4(x / 4, x % 4);
    assert b[0] / 4 == v && b[0] % 4 * 16 + b[1] / 16 == w;
    assert b[1] % 16 * 4 + b[2] / 64 == x && b[2] % 64 == y;
  }

  lemma QuotientOf4(q: nat, r: nat)
    requires r < 4
    ensures (q * 4 + r) / 4 == q && (q * 4 + r) % 4 == r
  {
  }

  lemma QuotientOf16(q: nat, r: nat)
    requires r < 16
    ensures (q * 16 + r) / 16 == q && (q * 16 + r) % 16 == r
  {
  }

  lemma QuotientOf64(q: nat, r: nat)
    requires r < 64
    ensures (q * 64 + r) / 64 == q && (q * 64 + r) % 64 == r
  {
  }

  lemma FourAreThree(v: nat, w: nat, x: nat, y: nat)
    requires v < 64 && w < 64 && x < 64 && y < 64
    ensures ToBits(6, [v, w, x, y]) == ToBits(8, Bytes3(v, w, x, y))
  {
    hide BitsOf, ToBits, Sextets4;
    var b := Bytes3(v, w, x, y);
    SextetsOfBytes(v, w, x, y);
    SameBits(b[0], b[1], b[2]);
    hide Bytes3;
    assert [b[0], b[1], b[2]] == b;
  }

  lemma FirstPart<T>(a: seq<T>, z: seq<T>, p: seq<T>, q: seq<T>)
    requires a + z == p + q && |p| <= |a|
    ensures a == p + a[|p|..]
  {
    assert p == (p + q)[..|p|] == (a + z)[..|p|] == a[..|p|];
  }

  /** Bits that are left over behind the last whole byte are dropped. */
  lemma TailBits(v: seq<nat>, zeros: seq<nat>, b: seq<nat>)
    requires |v| == 2 || |v| == 3
    requires |b| == 3 && (forall i :: 0 <= i < 3 ==> b[i] < 256) && ToBits(6, v + zeros) == ToBits(8, b)
    ensures Regroup(8, ToBits(6, v)) == b[..|v| - 1]
  {
    hide BitsOf, Regroup, ToBits, Pow2;
    Powers();
    var n := |v| - 1;
    ToBitsConcat(6, v, zeros);
    assert b == b[..n] + b[n..];
    ToBitsConcat(8, b[..n], b[n..]);
    FirstPart(ToBits(6, v), ToBits(6, zeros), ToBits(8, b[..n]), ToBits(8, b[n..]));
    var left := ToBits(6, v)[|ToBits(8, b[..n])|..];
    RegroupToBits(8, b[..n], left);
    RegroupRest(left);
  }

  lemma ShortGroup(v: seq<nat>)
    requires (|v| == 2 || |v| == 3) && forall i :: 0 <= i < |v| ==> v[i] < 64
    ensures Regroup(8, ToBits(6, v)) == ValuesByGroups(v)
  {
    hide Bytes3, Regroup, ToBits;
    if |v| == 2 {
      FourAreThree(v[0], v[1], 0, 0);
      assert v + [0, 0] == [v[0], v[1], 0, 0];
      TailBits(v, [0, 0], Bytes3(v[0], v[1], 0, 0));
    } else {
      FourAreThree(v[0], v[1], v[2], 0);
      assert v + [0] == [v[0], v[1], v[2], 0];
      TailBits(v, [0], Bytes3(v[0], v[1], v[2], 0));
    }
  }

  lemma RegroupRest(b: seq<bool>)
    requires |b| < 8
    ensures Regroup(8, b) == []
  {
  }

  lemma {:induction false} ValuesAreGrouped(v: seq<nat>)
    requires forall i :: 0 <= i < |v| ==> v[i] < 64
    ensures Regroup(8, ToBits(6, v)) == ValuesByGroups(v)
    decreases |v|
  {
    hide BitsOf, Regroup, ToBits, Pow2, Bytes3;
    Powers();
    if |v| <= 1 {
      RegroupRest(ToBits(6, v));
    } else if |v| <= 3 {
      ShortGroup(v);
    } else {
      var first, rest := [v[0], v[1], v[2], v[3]], v[4..];
      assert v == first + rest;
      ToBitsConcat(6, first, rest);
      FourAreThree(v[0], v[1], v[2], v[3]);
      RegroupToBits(8, Bytes3(v[0], v[1], v[2], v[3]), ToBits(6, rest));
      ValuesAreGrouped(rest);
    }
  }

  /**
   * The decoder on every text over the alphabet, also with pads in strange places: the bytes of the groups,
   * without as many from the end as there are pads.
   */
  lemma DecodesByGroups(text: seq<byte>)
    requires InAlphabet(text) && !Malformed(text)
    ensures forall i :: 0 <= i < |text| ==> Value(text[i]) < 64
    ensures var bytes := ValuesByGroups(seq(|text|, i requires 0 <= i < |text| => Value(text[i])));
            PadCount(text) <= |bytes| && Decode(text) == Ok(bytes[..|bytes| - PadCount(text)])
  {
    UndefinedIffMalformed(text);
    hide Regroup, ToBits, ValuesByGroups, PadCount;
    forall c: byte ensures CharSextet(c).Some? ==> Value(c) == CharSextet(c).value < 64 {
      ValueIsSextet(c);
    }
    assert seq(|text|, i requires 0 <= i < |text| => Value(text[i])) == Base64.Values(text);
    ValuesAreGrouped(Base64.Values(text));
  }
}
