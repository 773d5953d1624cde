/** Decimal and hexadecimal text of numbers, as C++ streams print it and `std::stoi` reads it. */
module Numerals {
  import opened Bytes

  const TWO_63 := 0x8000_0000_0000_0000
  const TWO_64 := 0x1_0000_0000_0000_0000
  const TWO_31 := 0x8000_0000

  function DigitChar(d: nat): byte
    requires d < 16
  {
    if d < 10 then 48 + d else 87 + d
  }

  function Numeral(base: nat, n: nat): (s: seq<byte>)
    requires base == 10 || base == 16
    ensures s != []
  {
    if n < base then [DigitChar(n)] else Numeral(base, n / base) + [DigitChar(n % base)]
  }

  predicate AllDigits(s: seq<byte>) {
    forall i :: 0 <= i < |s| ==> IsDigit(s[i])
  }

  /** How many digits the text starts with. */
  function LeadingDigits(s: seq<byte>): (n: nat)
    ensures n <= |s| && AllDigits(s[..n])
    ensures n < |s| ==> !IsDigit(s[n])
  {
    if s == [] || !IsDigit(s[0]) then 0
    else
      var n := LeadingDigits(s[1..]);
      assert s[..1 + n] == [s[0]] + s[1..][..n];
      1 + n
  }

  function DecimalValue(s: seq<byte>): nat
    requires AllDigits(s)
  {
    if s == [] then 0 else 10 * DecimalValue(s[..|s| - 1]) + (s[|s| - 1] - 48)
  }

  function PowerOfTen(n: nat): nat {
    if n == 0 then 1 else 10 * PowerOfTen(n - 1)
  }

  /** Digits in front count by their place; a digit alone counts by its distance from the character 0. */
  lemma {:induction false} PlaceValues(s: seq<byte>, t: seq<byte>)
    requires AllDigits(s) && AllDigits(t)
    ensures AllDigits(s + t) && DecimalValue(s + t) == DecimalValue(s) * PowerOfTen(|t|) + DecimalValue(t)
    ensures |t| == 1 ==> DecimalValue(t) == t[0] - '0' as int
    decreases |t|
  {
    if t == [] {
      assert s + t == s;
    } else {
      var front := t[..|t| - 1];
      PlaceValues(s, front);
      assert (s + t)[..|s + t| - 1] == s + front;
      assert DecimalValue(s) * PowerOfTen(|t|) == 10 * (DecimalValue(s) * PowerOfTen(|front|));
    }
  }

  lemma {:induction false} DecimalRoundTrip(n: nat)
    ensures AllDigits(Numeral(10, n)) && DecimalValue(Numeral(10, n)) == n
  {
    if n >= 10 {
      DecimalRoundTrip(n / 10);
      assert Numeral(10, n)[..|Numeral(10, n)| - 1] == Numeral(10, n / 10);
    }
  }

  predicate AllLowerHex(s: seq<byte>) {
    forall i :: 0 <= i < |s| ==> IsDigit(s[i]) || 'a' as int <= s[i] <= 'f' as int
  }

  /** The number a hexadecimal text with lower-case letters stands for. */
  function HexNumber(s: seq<byte>): nat
    requires AllLowerHex(s)
  {
    if s == [] then 0
    else
      var d := s[|s| - 1];
      16 * HexNumber(s[..|s| - 1]) + if IsDigit(d) then d - '0' as int else d - 'a' as int + 10
  }

  lemma {:induction false} HexNumeralMeans(n: nat)
    ensures AllLowerHex(Numeral(16, n)) && HexNumber(Numeral(16, n)) == n
  {
    if n >= 16 {
      HexNumeralMeans(n / 16);
      assert Numeral(16, n)[..|Numeral(16, n)| - 1] == Numeral(16, n / 16);
    } else {
      assert Numeral(16, n)[..0] == [];
    }
  }

  /** With the hexadecimal flag an integer is printed modulo 2 to the power of 64, in lower case. */
  lemma HexTextMeans(i: int)
    requires IsLongLong(i)
    ensures var s := IntegerText(i, true); AllLowerHex(s) && HexNumber(s) == i % TWO_64
  {
    HexNumeralMeans(if i < 0 then i + TWO_64 else i);
    hide Numeral, HexNumber;
  }

  /** Hexadecimal text without letters reads back as the same number only for one-digit numbers. */
  lemma {:induction false} HexReadAsDecimal(n: nat)
    requires AllDigits(Numeral(16, n))
    ensures DecimalValue(Numeral(16, n)) <= n
    ensures DecimalValue(Numeral(16, n)) == n <==> n < 10
  {
    var s := Numeral(16, n);
    if n < 16 {
      assert s[..0] == [];
      assert IsDigit(s[0]);
    } else {
      assert s[..|s| - 1] == Numeral(16, n / 16);
      assert forall i :: 0 <= i < |s| - 1 ==> s[..|s| - 1][i] == s[i];
      assert IsDigit(s[|s| - 1]);
      HexReadAsDecimal(n / 16);
    }
  }

  predicate IsLongLong(i: int) {
    -TWO_63 <= i < TWO_63
  }

  predicate IsInt32(i: int) {
    -TWO_31 <= i < TWO_31
  }

  /** `out << i` for a `long long`: the hex flag prints the two's complement of negative numbers. */
  function IntegerText(i: int, hex: bool): (s: seq<byte>)
    requires IsLongLong(i)
    ensures s != []
  {
    if hex then Numeral(16, if i < 0 then i + TWO_64 else i)
    else if i < 0 then [45] + Numeral(10, -i)
    else Numeral(10, i)
  }

  predicate IsIntegerLexeme(s: seq<byte>) {
    s != [] && if s[0] == 45 then |s| > 1 && AllDigits(s[1..]) else AllDigits(s)
  }

  /** `std::stoi`, which throws outside the 32-bit range. */
  function StoI(s: seq<byte>): Option<int> {
    if !IsIntegerLexeme(s) then None
    else
      var i := if s[0] == 45 then 0 - DecimalValue(s[1..]) else DecimalValue(s);
      if IsInt32(i) then Some(i) else None
  }

  lemma DecimalTextRoundTrip(i: int)
    requires IsLongLong(i)
    ensures IsIntegerLexeme(IntegerText(i, false))
    ensures StoI(IntegerText(i, false)) == if IsInt32(i) then Some(i) else None
  {
    var n := if i < 0 then -i else i;
    DecimalRoundTrip(n);
    if i < 0 {
      assert IntegerText(i, false)[1..] == Numeral(10, n);
    } else {
      assert IsDigit(Numeral(10, n)[0]);
    }
  }

  lemma HexTextRoundTrip(i: int)
    requires IsLongLong(i)
    ensures StoI(IntegerText(i, true)) == Some(i) <==> 0 <= i < 10
  {
    var n := if i < 0 then i + TWO_64 else i;
    HexIsUnsigned(n);
    if AllDigits(Numeral(16, n)) {
      HexReadAsDecimal(n);
    }
  }

  /** An integer survives printing and reading exactly if it fits 32 bits and, in hex, has one decimal digit. */
  lemma IntegerRoundTrip(i: int, hex: bool)
    requires IsLongLong(i)
    ensures StoI(IntegerText(i, hex)) == Some(i) <==> if hex then 0 <= i < 10 else IsInt32(i)
  {
    if hex {
      HexTextRoundTrip(i);
    } else {
      DecimalTextRoundTrip(i);
    }
  }

  lemma {:induction false} HexIsUnsigned(n: nat)
    ensures Numeral(16, n)[0] != 45
  {
    if n >= 16 {
      HexIsUnsigned(n / 16);
    }
  }
}
