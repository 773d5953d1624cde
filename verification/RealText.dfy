/** The text a stream prints for a floating-point number with the default notation. */
module RealText {
  import opened Bytes
  import opened Numerals

  datatype Exponent = NoExponent | Exponent(negative: bool, digits: seq<byte>)

  /** An optional sign, digits, a point with further digits if there are any, and a signed exponent if needed. */
  datatype Notation = Notation(negative: bool, whole: seq<byte>, fraction: seq<byte>, exponent: Exponent)

  predicate Proper(t: Notation) {
    && t.whole != [] && AllDigits(t.whole) && AllDigits(t.fraction)
    && (t.exponent.Exponent? ==> t.exponent.digits != [] && AllDigits(t.exponent.digits))
  }

  function WholeText(t: Notation): seq<byte> {
    (if t.negative then [45] else []) + t.whole
  }

  function FractionText(t: Notation): seq<byte> {
    if t.fraction == [] then [] else [46] + t.fraction
  }

  /** The exponent's sign is always printed. */
  function ExponentText(e: Exponent): seq<byte> {
    match e
    case NoExponent => []
    case Exponent(negative, digits) => [101, if negative then 45 else 43] + digits
  }

  function TextOf(t: Notation): seq<byte> {
    WholeText(t) + FractionText(t) + ExponentText(t.exponent)
  }

  ghost predicate IsRealText(s: seq<byte>) {
    exists t :: Proper(t) && TextOf(t) == s
  }

  predicate HasPoint(s: seq<byte>) { 46 in s }
  predicate HasMark(s: seq<byte>) { 101 in s }
  predicate HasPlus(s: seq<byte>) { 43 in s }

  /** What a text has in it tells its notation. */
  lemma NotationIs(t: Notation)
    requires Proper(t)
    ensures HasPoint(TextOf(t)) <==> t.fraction != []
    ensures HasMark(TextOf(t)) <==> t.exponent.Exponent?
    ensures HasPlus(TextOf(t)) <==> t.exponent.Exponent? && !t.exponent.negative
  {
    var a, b, e := WholeText(t), FractionText(t), ExponentText(t.exponent);
    assert TextOf(t) == a + b + e;
    PartsHold(a, b, e, 46);
    PartsHold(a, b, e, 101);
    PartsHold(a, b, e, 43);
    DigitsHold(t.whole);
    DigitsHold(t.fraction);
    if t.exponent.Exponent? {
      DigitsHold(t.exponent.digits);
      assert e[0] == 101 && e[1] == if t.exponent.negative then 45 else 43;
    }
    assert t.fraction != [] ==> b[0] == 46;
  }

  lemma PartsHold(a: seq<byte>, b: seq<byte>, c: seq<byte>, x: byte)
    ensures x in a + b + c <==> x in a || x in b || x in c
  {
  }

  lemma DigitsHold(s: seq<byte>)
    requires AllDigits(s)
    ensures 43 !in s && 45 !in s && 46 !in s && 101 !in s
  {
  }
}
