/** What the SCGI specification calls a request, compared with what the parser accepts. */
module ScgiStandard {
  import opened Bytes
  import opened Numerals
  import opened RequestSpec

  predicate DistinctNames(hs: seq<Header>) {
    forall i, j :: 0 <= i < j < |hs| ==> hs[i].name != hs[j].name
  }

  predicate NoLeadingZero(s: seq<byte>) {
    |s| > 1 ==> s[0] != 48
  }

  /** A header block is a netstring: its length in decimal without leading zeros. */
  predicate IsNetstring(q: Request) {
    && q.digits != [] && AllDigits(q.digits) && NoLeadingZero(q.digits)
    && DecimalValue(q.digits) == |Block(q.headers)|
  }

  /**
   * Names are not empty, no name occurs twice, CONTENT_LENGTH comes first with the length of the body in
   * decimal, and a header SCGI with the value 1 is somewhere behind it.
   */
  predicate Conforms(q: Request) {
    && IsNetstring(q)
    && (forall i :: 0 <= i < |q.headers| ==>
          q.headers[i].name != [] && NulFree(q.headers[i].name) && NulFree(q.headers[i].value))
    && DistinctNames(q.headers)
    && q.headers != [] && q.headers[0].name == CONTENT_LENGTH
    && q.headers[0].value != [] && AllDigits(q.headers[0].value)
    && DecimalValue(q.headers[0].value) == |q.body|
    && exists i :: 0 <= i < |q.headers| && q.headers[i] == Header(SCGI, [49])
  }

  lemma SizeOfDigits(s: seq<byte>)
    requires AllDigits(s)
    ensures SizeOf(s) == if s == [] || DecimalValue(s) >= TWO_64 then None else Some(DecimalValue(s))
  {
    hide DecimalValue;
  }

  lemma MandatoryNamesDiffer()
    ensures CONTENT_LENGTH != SCGI
  {
    assert |CONTENT_LENGTH| == 14 && |SCGI| == 4;
  }

  /**
   * A request the parser accepts conforms exactly if it has both mandatory headers, a body length without a
   * sign, a block length without leading zeros, and no name twice.
   */
  lemma AcceptedConformsIff(q: Request)
    requires WellFormed(q)
    ensures Conforms(q) <==>
              && |q.headers| >= 2 && AllDigits(q.headers[0].value)
              && NoLeadingZero(q.digits) && DistinctNames(q.headers)
  {
    hide SizeOf, DecimalValue, Block, AllDigits, DistinctNames, NoLeadingZero, Ascii;
    MandatoryNamesDiffer();
    SizeOfDigits(q.digits);
    if q.headers != [] && AllDigits(q.headers[0].value) {
      SizeOfDigits(q.headers[0].value);
    }
  }

  /**
   * A conforming request is accepted exactly if its sizes fit 64 bits, the header SCGI is the second one,
   * and no name holds a comma.
   */
  lemma ConformingIsAcceptedIff(q: Request)
    requires Conforms(q)
    ensures WellFormed(q) <==>
              && |Block(q.headers)| < TWO_64 && |q.body| < TWO_64
              && |q.headers| >= 2 && q.headers[1] == Header(SCGI, [49])
              && forall i :: 0 <= i < |q.headers| ==> PlainName(q.headers[i].name)
  {
    hide SizeOf, DecimalValue, Block, AllDigits, DistinctNames, NoLeadingZero, Ascii;
    MandatoryNamesDiffer();
    SizeOfDigits(q.digits);
    SizeOfDigits(q.headers[0].value);
  }

  /** A block that holds only the length of an empty body is accepted, too. */
  lemma OneHeaderIsAccepted(length: nat, count: nat)
    ensures var q := Request([49, 55], [Header(CONTENT_LENGTH, [48])], []);
            Parse(Fresh(length, count), Text(q)).1 == Good && !Conforms(q)
  {
    var h, digits := Header(CONTENT_LENGTH, [48]), [49, 55];
    var q := Request(digits, [h], []);
    assert [h][..0] == [] && Block([h]) == [] + Line(h) && |Line(h)| == 17;
    assert digits[..1] == [49] && digits[..1][..0] == [] && DecimalValue(digits[..1]) == 1;
    assert DecimalValue(digits) == 17;
    SizeOfDigits(digits);
    assert h.value[..0] == [] && DecimalValue(h.value) == 0;
    SizeOfDigits(h.value);
    PlainContentLength();
    assert WellFormed(q) by {
      hide SizeOf, DecimalValue, Block, Ascii;
    }
    hide Parse, Text, Fresh, WellFormed;
    RequestIsGood(length, count, q);
    TextIsNotEmpty(q);
    AcceptedConformsIff(q);
  }

  lemma TextIsNotEmpty(q: Request)
    ensures Text(q) != []
  {
  }

  lemma PlainContentLength()
    ensures CONTENT_LENGTH != [] && PlainName(CONTENT_LENGTH)
  {
  }
}
