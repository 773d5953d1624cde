/** Bencoded strings: the encoder's text, the byte machine that reads one string, and the decode loop. */
module BencodeSpec {
  import opened Bytes
  import opened Numerals
  import RequestSpec

  datatype Result = Good | Bad | Indeterminate

  datatype Machine = Machine(inString: bool, lengthText: seq<byte>, length: nat, data: seq<byte>)

  /** A reset parser; the length is not initialised before the colon. */
  function Fresh(length: nat): Machine {
    Machine(false, [], length, [])
  }

  function Consume(m: Machine, c: byte): (Machine, Result) {
    if !m.inString then
      if IsDigit(c) then (m.(lengthText := m.lengthText + [c]), Indeterminate)
      else if c == 58 && RequestSpec.SizeOf(m.lengthText).Some? then
        var n := RequestSpec.SizeOf(m.lengthText).value;
        (m.(length := n, inString := true), if n == 0 then Good else Indeterminate)
      else (m, Bad)
    else
      var n := (m.length + TWO_64 - 1) % TWO_64;
      (m.(data := m.data + [c], length := n), if n == 0 then Good else Indeterminate)
  }

  /** Reading until there is a verdict or no byte is left; also yields the bytes that were not read. */
  function Parse(m: Machine, s: seq<byte>): (Machine, Result, seq<byte>)
    decreases |s|
  {
    if s == [] then (m, Indeterminate, [])
    else
      var step := Consume(m, s[0]);
      if step.1 != Indeterminate then (step.0, step.1, s[1..]) else Parse(step.0, s[1..])
  }

  // --- What the machine reads ----------------------------------------------------------------------

  datatype Taken = Taken(data: seq<byte>, rest: seq<byte>)

  /** A string in front of `s`: its length in decimal, a colon, and that many bytes. */
  function Take(s: seq<byte>): Option<Taken> {
    var n := LeadingDigits(s);
    if n == |s| || s[n] != 58 then None
    else match RequestSpec.SizeOf(s[..n])
      case None => None
      case Some(size) =>
        var rest := s[n + 1..];
        if size <= |rest| then Some(Taken(rest[..size], rest[size..])) else None
  }

  lemma {:induction false} ParseData(m: Machine, s: seq<byte>)
    requires m.inString && 0 < m.length < TWO_64
    ensures var r := Parse(m, s);
            if m.length <= |s| then r.1 == Good && r.0.data == m.data + s[..m.length] && r.2 == s[m.length..]
            else r.1 == Indeterminate
    decreases |s|
  {
    if s != [] {
      var next := Consume(m, s[0]).0;
      if m.length == 1 {
        assert s[..1] == [s[0]];
      } else {
        ParseData(next, s[1..]);
        if m.length <= |s| {
          assert s[..m.length] == [s[0]] + s[1..][..m.length - 1];
          assert s[1..][m.length - 1..] == s[m.length..];
        }
      }
    }
  }

  lemma {:induction false} ParseDigits(m: Machine, s: seq<byte>)
    requires !m.inString
    ensures var n := LeadingDigits(s);
            Parse(m, s) == Parse(m.(lengthText := m.lengthText + s[..n]), s[n..])
    decreases |s|
  {
    var n := LeadingDigits(s);
    if n == 0 {
      assert s[..0] == [] && s[0..] == s && m.lengthText + [] == m.lengthText;
    } else {
      ParseDigits(m.(lengthText := m.lengthText + [s[0]]), s[1..]);
      assert s[..n] == [s[0]] + s[1..][..n - 1] && s[1..][n - 1..] == s[n..];
      assert m.lengthText + [s[0]] + s[1..][..n - 1] == m.lengthText + s[..n];
    }
  }

  /** A fresh parser finds a string exactly where there is one, and stops right behind it. */
  lemma ParseIsTake(length: nat, s: seq<byte>)
    ensures Parse(Fresh(length), s).1 == Good <==> Take(s).Some?
    ensures Take(s).Some? ==>
              Take(s) == Some(Taken(Parse(Fresh(length), s).0.data, Parse(Fresh(length), s).2))
  {
    hide RequestSpec.SizeOf;
    var n := LeadingDigits(s);
    ParseDigits(Fresh(length), s);
    var m := Fresh(length).(lengthText := s[..n]);
    assert [] + s[..n] == s[..n];
    var rest := s[n..];
    if rest != [] && rest[0] == 58 && RequestSpec.SizeOf(s[..n]).Some? {
      var size := RequestSpec.SizeOf(s[..n]).value;
      var after := s[n + 1..];
      assert rest[1..] == after;
      if size > 0 {
        ParseData(m.(inString := true, length := size), after);
        if size <= |after| {
          assert [] + after[..size] == after[..size];
        }
      } else {
        assert after[..0] == [] && after[0..] == after;
      }
    }
  }

  // --- The loop that decodes a sequence of strings ---------------------------------------------------

  /** PastEnd is where the loop's iterator would step over the end of the body. */
  datatype Decoded = Strings(ds: seq<seq<byte>>) | Invalid | PastEnd

  function Prepend(done: seq<seq<byte>>, r: Decoded): Decoded {
    if r.Strings? then Strings(done + r.ds) else r
  }

  /** Two bytes are skipped after every string but a last one that ends the body; they are not looked at. */
  function Decode(s: seq<byte>): Decoded
    decreases |s|
  {
    if s == [] then Strings([])
    else match Take(s)
      case None => Invalid
      case Some(t) =>
        if t.rest == [] then Strings([t.data])
        else if |t.rest| == 1 then PastEnd
        else Prepend([t.data], Decode(t.rest[2..]))
  }

  function ElementText(d: seq<byte>): seq<byte> {
    Numeral(10, |d|) + [58] + d + [13, 10]
  }

  function SequenceText(ds: seq<seq<byte>>): seq<byte> {
    if ds == [] then [] else ElementText(ds[0]) + SequenceText(ds[1..])
  }

  lemma {:induction false} LeadingDigitsAre(digits: seq<byte>, rest: seq<byte>)
    requires AllDigits(digits) && rest != [] && !IsDigit(rest[0])
    ensures LeadingDigits(digits + rest) == |digits|
  {
    if digits == [] {
      assert digits + rest == rest;
    } else {
      assert (digits + rest)[1..] == digits[1..] + rest;
      LeadingDigitsAre(digits[1..], rest);
    }
  }

  lemma TakeFramed(digits: seq<byte>, d: seq<byte>, rest: seq<byte>)
    requires AllDigits(digits) && RequestSpec.SizeOf(digits) == Some(|d|)
    ensures Take(digits + [58] + d + rest) == Some(Taken(d, rest))
  {
    hide RequestSpec.SizeOf;
    var s := digits + [58] + d + rest;
    assert s == digits + ([58] + d + rest);
    LeadingDigitsAre(digits, [58] + d + rest);
    assert s[..|digits|] == digits && s[|digits| + 1..] == d + rest;
  }

  predicate Storable(ds: seq<seq<byte>>) {
    forall i :: 0 <= i < |ds| ==> |ds[i]| < TWO_64
  }

  lemma TakeElement(d: seq<byte>, rest: seq<byte>)
    requires |d| < TWO_64
    ensures Take(Numeral(10, |d|) + [58] + d + rest) == Some(Taken(d, rest))
  {
    RequestSpec.SizeRoundTrip(|d|);
    TakeFramed(Numeral(10, |d|), d, rest);
  }

  function Head(d: seq<byte>): seq<byte> {
    Numeral(10, |d|) + [58] + d
  }

  /** The loop works through encoded strings one by one, whatever follows them. */
  lemma {:induction false} DecodePrefix(ds: seq<seq<byte>>, tail: seq<byte>)
    requires Storable(ds)
    ensures Decode(SequenceText(ds) + tail) == Prepend(ds, Decode(tail))
  {
    hide Take, Numeral;
    if ds == [] {
      assert SequenceText(ds) + tail == tail;
      assert Decode(tail).Strings? ==> [] + Decode(tail).ds == Decode(tail).ds;
    } else {
      var rest := SequenceText(ds[1..]) + tail;
      TakeElement(ds[0], [13, 10] + rest);
      assert SequenceText(ds) + tail == Head(ds[0]) + ([13, 10] + rest);
      assert ([13, 10] + rest)[2..] == rest;
      DecodePrefix(ds[1..], tail);
      if Decode(tail).Strings? {
        assert [ds[0]] + (ds[1..] + Decode(tail).ds) == ds + Decode(tail).ds;
      }
    }
  }

  lemma {:induction false} SequenceConcat(a: seq<seq<byte>>, b: seq<seq<byte>>)
    ensures SequenceText(a + b) == SequenceText(a) + SequenceText(b)
  {
    hide ElementText;
    if a == [] {
      assert a + b == b;
    } else {
      assert (a + b)[1..] == a[1..] + b;
      SequenceConcat(a[1..], b);
      assert ElementText(a[0]) + (SequenceText(a[1..]) + SequenceText(b))
          == ElementText(a[0]) + SequenceText(a[1..]) + SequenceText(b);
    }
  }

  /** The text up to the last string, and that string without its line end. */
  lemma SequenceEnd(ds: seq<seq<byte>>)
    requires ds != []
    ensures SequenceText(ds) == SequenceText(ds[..|ds| - 1]) + Head(ds[|ds| - 1]) + [13, 10]
  {
    hide SequenceText, Head;
    var front, d := ds[..|ds| - 1], ds[|ds| - 1];
    assert ds == front + [d];
    SequenceConcat(front, [d]);
    SequenceOne(d);
    assert SequenceText(front) + (Head(d) + [13, 10]) == SequenceText(front) + Head(d) + [13, 10];
  }

  lemma SequenceOne(d: seq<byte>)
    ensures SequenceText([d]) == Head(d) + [13, 10]
  {
    hide Numeral;
    var one, none: seq<seq<byte>> := [d], [];
    assert one[1..] == none;
  }

  lemma LastString(d: seq<byte>)
    requires |d| < TWO_64
    ensures Decode(Head(d)) == Strings([d])
  {
    hide Take, Numeral;
    TakeElement(d, []);
    assert Head(d) + [] == Head(d);
  }

  /** Decoding what was encoded gives back every list of strings, whatever bytes they hold. */
  lemma RoundTrip(ds: seq<seq<byte>>)
    requires Storable(ds)
    ensures Decode(SequenceText(ds)) == Strings(ds)
  {
    hide SequenceText, Take;
    DecodePrefix(ds, []);
    assert SequenceText(ds) + [] == SequenceText(ds) && ds + [] == ds;
  }

  /** The same without the final line end. */
  lemma RoundTripUnterminated(ds: seq<seq<byte>>)
    requires Storable(ds) && ds != []
    ensures |SequenceText(ds)| >= 2
    ensures Decode(SequenceText(ds)[..|SequenceText(ds)| - 2]) == Strings(ds)
  {
    hide SequenceText, Decode, Head;
    var front, d := ds[..|ds| - 1], ds[|ds| - 1];
    SequenceEnd(ds);
    assert SequenceText(ds)[..|SequenceText(ds)| - 2] == SequenceText(front) + Head(d);
    DecodePrefix(front, Head(d));
    LastString(d);
    assert front + [d] == ds;
  }

  /** A single byte behind a string takes the loop's iterator over the end of the body. */
  lemma StrayByte(ds: seq<seq<byte>>, d: seq<byte>, c: byte)
    requires Storable(ds) && |d| < TWO_64
    ensures Decode(SequenceText(ds) + (Head(d) + [c])) == PastEnd
  {
    hide Take, Numeral, SequenceText;
    DecodePrefix(ds, Head(d) + [c]);
    TakeElement(d, [c]);
  }

  // --- The white space that is trimmed from the body first -------------------------------------------

  predicate IsSpace(c: byte) {
    c == 32 || 9 <= c <= 13
  }

  function TrimLeft(s: seq<byte>): seq<byte> {
    if s != [] && IsSpace(s[0]) then TrimLeft(s[1..]) else s
  }

  function TrimRight(s: seq<byte>): seq<byte> {
    if s != [] && IsSpace(s[|s| - 1]) then TrimRight(s[..|s| - 1]) else s
  }

  function Trim(s: seq<byte>): seq<byte> {
    TrimRight(TrimLeft(s))
  }

  lemma {:induction false} TrimRightConcat(a: seq<byte>, b: seq<byte>)
    requires a != [] && !IsSpace(a[|a| - 1])
    ensures TrimRight(a + b) == a + TrimRight(b)
    decreases |b|
  {
    if b == [] {
      assert a + b == a;
    } else if IsSpace(b[|b| - 1]) {
      assert (a + b)[..|a + b| - 1] == a + b[..|b| - 1];
      TrimRightConcat(a, b[..|b| - 1]);
    } else {
      assert (a + b)[|a + b| - 1] == b[|b| - 1];
    }
  }

  lemma {:induction false} TrimRightShape(s: seq<byte>)
    ensures TrimRight(s) <= s
    ensures TrimRight(s) == s <==> s == [] || !IsSpace(s[|s| - 1])
  {
    if s != [] && IsSpace(s[|s| - 1]) {
      TrimRightShape(s[..|s| - 1]);
    }
  }

  lemma TrimLineEnd(d: seq<byte>)
    ensures TrimRight(d + [13, 10]) == TrimRight(d)
  {
    var s := d + [13, 10];
    assert s[..|s| - 1] == d + [13];
    assert (d + [13])[..|d|] == d;
  }

  /** Trimming the encoder's text takes away the line end and the white space at the end of the last string. */
  lemma TrimmedText(ds: seq<seq<byte>>)
    requires ds != []
    ensures var front, d := ds[..|ds| - 1], ds[|ds| - 1];
            Trim(SequenceText(ds)) == SequenceText(front) + (Numeral(10, |d|) + [58] + TrimRight(d))
  {
    var front, d := ds[..|ds| - 1], ds[|ds| - 1];
    StartsWithDigit(ds);
    hide SequenceText, Numeral;
    SequenceEnd(ds);
    var head := SequenceText(front) + (Numeral(10, |d|) + [58]);
    assert SequenceText(ds) == head + (d + [13, 10]);
    TrimRightConcat(head, d + [13, 10]);
    TrimLineEnd(d);
    assert head + TrimRight(d) == SequenceText(front) + (Numeral(10, |d|) + [58] + TrimRight(d));
  }

  lemma StartsWithDigit(ds: seq<seq<byte>>)
    requires ds != []
    ensures SequenceText(ds) != [] && IsDigit(SequenceText(ds)[0])
  {
    hide Numeral;
    DecimalRoundTrip(|ds[0]|);
  }

  lemma ShortString(n: nat, d: seq<byte>)
    requires |d| < n < TWO_64
    ensures Decode(Numeral(10, n) + [58] + d) == Invalid
  {
    var digits := Numeral(10, n);
    RequestSpec.SizeRoundTrip(n);
    hide RequestSpec.SizeOf, Numeral;
    var s := digits + [58] + d;
    assert s == digits + ([58] + d);
    LeadingDigitsAre(digits, [58] + d);
    assert s[..|digits|] == digits && s[|digits| + 1..] == d;
  }

  /** A space or a tab, line feed, vertical tab, form feed or carriage return. */
  predicate White(s: seq<byte>) {
    forall i :: 0 <= i < |s| ==> s[i] in [32, 9, 10, 11, 12, 13]
  }

  predicate EndsInSpace(d: seq<byte>) {
    d != [] && White(d[|d| - 1..])
  }

  lemma SpacesAreWhite(s: seq<byte>)
    ensures White(s) <==> forall i :: 0 <= i < |s| ==> IsSpace(s[i])
    ensures EndsInSpace(s) <==> s != [] && IsSpace(s[|s| - 1])
  {
    assert s != [] ==> s[|s| - 1..][0] == s[|s| - 1];
  }

  lemma {:induction false} TrimLeadingSpace(w: seq<byte>, s: seq<byte>)
    requires White(w)
    ensures TrimLeft(w + s) == TrimLeft(s)
  {
    SpacesAreWhite(w);
    if w == [] {
      assert w + s == s;
    } else {
      assert (w + s)[1..] == w[1..] + s;
      TrimLeadingSpace(w[1..], s);
    }
  }

  /**
   * With the trim, white space in front does no harm, and the round trip fails exactly when the last string
   * ends in white space.
   */
  lemma TrimmedRoundTrip(w: seq<byte>, ds: seq<seq<byte>>)
    requires White(w) && Storable(ds)
    ensures Decode(Trim(w + SequenceText(ds)))
         == if ds != [] && EndsInSpace(ds[|ds| - 1]) then Invalid else Strings(ds)
  {
    hide Decode, SequenceText;
    TrimLeadingSpace(w, SequenceText(ds));
    if ds == [] {
      TrimmedNothing();
    } else {
      TrimmedSome(ds);
    }
  }

  lemma TrimmedSome(ds: seq<seq<byte>>)
    requires Storable(ds) && ds != []
    ensures Decode(Trim(SequenceText(ds))) == if EndsInSpace(ds[|ds| - 1]) then Invalid else Strings(ds)
  {
    hide SequenceText, Decode, Numeral, Trim, TrimRight, EndsInSpace;
    var front, d := ds[..|ds| - 1], ds[|ds| - 1];
    assert front + [d] == ds;
    TrimmedText(ds);
    DecodePrefix(front, Numeral(10, |d|) + [58] + TrimRight(d));
    LastTrimmed(d);
  }

  lemma TrimmedNothing()
    ensures Decode(Trim(SequenceText([]))) == Strings([])
  {
  }

  lemma LastTrimmed(d: seq<byte>)
    requires |d| < TWO_64
    ensures Decode(Numeral(10, |d|) + [58] + TrimRight(d)) == if EndsInSpace(d) then Invalid else Strings([d])
  {
    hide Decode, Numeral, TrimRight;
    TrimRightShape(d);
    SpacesAreWhite(d);
    if EndsInSpace(d) {
      ShortString(|d|, TrimRight(d));
    } else {
      LastString(d);
    }
  }

  // --- Exactly what the loop accepts -----------------------------------------------------------------

  /** One string as it stands in a body: any decimal that reads as its length, and the bytes behind it. */
  datatype Frame = Frame(digits: seq<byte>, data: seq<byte>, gap: seq<byte>)

  predicate FrameOk(f: Frame) {
    Counted(f.digits, |f.data|)
  }

  predicate Counted(digits: seq<byte>, n: nat) {
    AllDigits(digits) && RequestSpec.SizeOf(digits) == Some(n)
  }

  /** Between strings stand two arbitrary bytes; behind the last one there may be none or two. */
  predicate FramesOk(fs: seq<Frame>) {
    && (forall i :: 0 <= i < |fs| ==> FrameOk(fs[i]))
    && (forall i :: 0 <= i < |fs| ==> |fs[i].gap| == 2 || (i == |fs| - 1 && fs[i].gap == []))
  }

  function FramesText(fs: seq<Frame>): seq<byte> {
    if fs == [] then [] else fs[0].digits + [58] + fs[0].data + fs[0].gap + FramesText(fs[1..])
  }

  function DataOf(fs: seq<Frame>): seq<seq<byte>> {
    seq(|fs|, i requires 0 <= i < |fs| => fs[i].data)
  }

  lemma TakeSound(s: seq<byte>)
    requires Take(s).Some?
    ensures var digits, t := s[..LeadingDigits(s)], Take(s).value;
            Counted(digits, |t.data|) && s == digits + [58] + t.data + t.rest
  {
    hide RequestSpec.SizeOf, LeadingDigits;
    var n := LeadingDigits(s);
    assert s == s[..n] + [58] + s[n + 1..];
  }

  lemma {:induction false} FramesAreDecoded(fs: seq<Frame>)
    requires FramesOk(fs)
    ensures Decode(FramesText(fs)) == Strings(DataOf(fs))
  {
    hide Take, FrameOk;
    if fs != [] {
      var f, rest := fs[0], FramesText(fs[1..]);
      assert FrameOk(f);
      TakeFrame(f, rest);
      assert FramesText(fs) == f.digits + [58] + f.data + (f.gap + rest);
      FramesAreDecoded(fs[1..]);
      if f.gap == [] {
        assert fs[1..] == [] && f.gap + rest == [];
      } else {
        assert (f.gap + rest)[2..] == rest;
        assert [f.data] + DataOf(fs[1..]) == DataOf(fs);
      }
    }
  }

  lemma TakeFrame(f: Frame, rest: seq<byte>)
    requires FrameOk(f)
    ensures Take(f.digits + [58] + f.data + (f.gap + rest)) == Some(Taken(f.data, f.gap + rest))
  {
    TakeFramed(f.digits, f.data, f.gap + rest);
  }

  lemma NoFrames()
    ensures FramesOk([]) && FramesText([]) == [] && DataOf([]) == []
  {
  }

  lemma FramesCons(f: Frame, more: seq<Frame>)
    requires FrameOk(f) && FramesOk(more) && (|f.gap| == 2 || (f.gap == [] && more == []))
    ensures FramesOk([f] + more) && DataOf([f] + more) == [f.data] + DataOf(more)
    ensures FramesText([f] + more) == f.digits + [58] + f.data + f.gap + FramesText(more)
  {
    hide FrameOk;
    assert ([f] + more)[1..] == more;
  }

  lemma {:induction false} DecodedIsFramed(s: seq<byte>) returns (fs: seq<Frame>)
    requires Decode(s).Strings?
    ensures FramesOk(fs) && FramesText(fs) == s && DataOf(fs) == Decode(s).ds
    decreases |s|
  {
    hide Take, LeadingDigits, FramesOk, Counted, FramesText;
    if s == [] {
      NoFrames();
      fs := [];
    } else {
      var t, digits := Take(s).value, s[..LeadingDigits(s)];
      TakeSound(s);
      if t.rest == [] {
        var f := Frame(digits, t.data, []);
        NoFrames();
        FramesCons(f, []);
        fs := [f] + [];
        assert s == f.digits + [58] + f.data + f.gap + [];
      } else {
        var more := DecodedIsFramed(t.rest[2..]);
        var f := Frame(digits, t.data, t.rest[..2]);
        FramesCons(f, more);
        fs := [f] + more;
        assert s == f.digits + [58] + f.data + f.gap + t.rest[2..];
      }
    }
  }

  ghost predicate Frames(s: seq<byte>, ds: seq<seq<byte>>) {
    exists fs :: FramesOk(fs) && FramesText(fs) == s && DataOf(fs) == ds
  }

  /** The loop yields a list exactly for the bodies that frame it. */
  lemma DecodeIffFramed(s: seq<byte>, ds: seq<seq<byte>>)
    ensures Decode(s) == Strings(ds) <==> Frames(s, ds)
  {
    hide Decode, FramesOk;
    if Decode(s) == Strings(ds) {
      var fs := DecodedIsFramed(s);
    }
    if fs :| FramesOk(fs) && FramesText(fs) == s && DataOf(fs) == ds {
      FramesAreDecoded(fs);
    }
  }

  // --- Exactly when the loop steps over the end -------------------------------------------------------

  /** Strings with two arbitrary bytes behind each of them, but only one byte behind the last. */
  predicate StrayFrames(fs: seq<Frame>) {
    && fs != [] && FrameOk(fs[0])
    && if |fs| == 1 then |fs[0].gap| == 1 else |fs[0].gap| == 2 && StrayFrames(fs[1..])
  }

  lemma {:induction false} StrayIsPastEnd(fs: seq<Frame>)
    requires StrayFrames(fs)
    ensures Decode(FramesText(fs)) == PastEnd
  {
    hide Take, FrameOk;
    var f, rest := fs[0], FramesText(fs[1..]);
    TakeFrame(f, rest);
    assert FramesText(fs) == f.digits + [58] + f.data + (f.gap + rest);
    if |fs| == 1 {
      assert rest == [];
    } else {
      assert (f.gap + rest)[2..] == rest;
      StrayIsPastEnd(fs[1..]);
    }
  }

  lemma {:induction false} PastEndIsStray(s: seq<byte>) returns (fs: seq<Frame>)
    requires Decode(s) == PastEnd
    ensures StrayFrames(fs) && FramesText(fs) == s
    decreases |s|
  {
    hide Take, LeadingDigits, Counted;
    var t, digits := Take(s).value, s[..LeadingDigits(s)];
    TakeSound(s);
    if |t.rest| == 1 {
      fs := [Frame(digits, t.data, t.rest)];
      assert fs[1..] == [];
      assert FramesText(fs) == digits + [58] + t.data + t.rest + [];
    } else {
      var more := PastEndIsStray(t.rest[2..]);
      var f := Frame(digits, t.data, t.rest[..2]);
      fs := [f] + more;
      assert fs[1..] == more;
      assert t.rest == t.rest[..2] + t.rest[2..];
    }
  }

  /** The loop's iterator steps over the end exactly on such bodies; all others are decoded or rejected. */
  lemma PastEndIffStray(s: seq<byte>)
    ensures Decode(s) == PastEnd <==> exists fs :: StrayFrames(fs) && FramesText(fs) == s
    ensures Decode(s) == Invalid <==>
              !(exists fs :: StrayFrames(fs) && FramesText(fs) == s) && !(exists ds :: Frames(s, ds))
  {
    hide Decode, StrayFrames, FramesText, Frames;
    if Decode(s) == PastEnd {
      var fs := PastEndIsStray(s);
    }
    if fs :| StrayFrames(fs) && FramesText(fs) == s {
      StrayIsPastEnd(fs);
    }
    if Decode(s).Strings? {
      DecodeIffFramed(s, Decode(s).ds);
    }
    if ds :| Frames(s, ds) {
      DecodeIffFramed(s, ds);
    }
  }

  /** The length may have leading zeros: behind `01:a` a single byte is left. */
  lemma LeadingZeroStray()
    ensures Decode([48, 49, 58, 97, 98]) == PastEnd
  {
    var f := Frame([48, 49], [97], [98]);
    assert AllDigits(f.digits) && f.digits[..1] == [48] && f.digits[..1][..0] == [];
    assert DecimalValue(f.digits[..1]) == 0 && DecimalValue(f.digits) == 1;
    assert StrayFrames([f]);
    StrayIsPastEnd([f]);
    assert [f][1..] == [] && FramesText([f]) == [48, 49, 58, 97, 98];
  }
}

module Bencode {
  import opened Bytes
  import opened Numerals
  import opened BencodeSpec
  import opened Encoder
  import RequestSpec

  class BencodeStringParser {
    var data: seq<byte>
    var inString: bool
    var lengthText: seq<byte>
    var length: nat

    ghost function Abs(): Machine
      reads this
    {
      Machine(inString, lengthText, length, data)
    }

    constructor (length: nat)
      ensures Abs() == Fresh(length)
    {
      this.length := length;
      new;
      Reset();
    }

    method Reset()
      modifies this
      ensures Abs() == Fresh(old(length))
    {
      data := [];
      inString := false;
      lengthText := [];
    }

    method Consume(input: byte) returns (result: Result)
      modifies this
      ensures (Abs(), result) == BencodeSpec.Consume(old(Abs()), input)
    {
      hide RequestSpec.SizeOf;
      if !inString {
        if IsDigit(input) {
          lengthText := lengthText + [input];
        } else if input == 58 {
          var size := RequestSpec.SizeOf(lengthText);
          if size.None? {
            return Bad;
          }
          length := size.value;
          inString := true;
          if length == 0 {
            return Good;
          }
        } else {
          return Bad;
        }
      } else {
        data := data + [input];
        length := (length + TWO_64 - 1) % TWO_64;
        if length == 0 {
          return Good;
        }
      }
      result := Indeterminate;
    }

    /** Reads from a position of the body on; also returns the position behind the last byte read. */
    method Parse(body: seq<byte>, begin: nat) returns (result: Result, position: nat)
      requires begin <= |body|
      modifies this
      ensures begin <= position <= |body|
      ensures (Abs(), result, body[position..]) == BencodeSpec.Parse(old(Abs()), body[begin..])
    {
      hide BencodeSpec.Consume;
      result, position := Indeterminate, begin;
      while result == Indeterminate && position != |body|
        invariant begin <= position <= |body|
        invariant if result == Indeterminate
                  then BencodeSpec.Parse(Abs(), body[position..]) == BencodeSpec.Parse(old(Abs()), body[begin..])
                  else (Abs(), result, body[position..]) == BencodeSpec.Parse(old(Abs()), body[begin..])
        decreases |body| - position
      {
        assert body[position..][0] == body[position] && body[position..][1..] == body[position + 1..];
        result := Consume(body[position]);
        position := position + 1;
      }
    }
  }

  /** The branch of `handle_put_request` for sequences of strings, on a body that is already trimmed. */
  method DecodeStrings(body: seq<byte>) returns (r: Decoded)
    ensures r == Decode(body)
  {
    hide BencodeSpec.Parse, Take, Decode;
    var it, strings := 0, [];
    DecodeStep(body);
    assert body[0..] == body;
    while it != |body|
      invariant 0 <= it <= |body|
      invariant Prepend(strings, Decode(body[it..])) == Decode(body)
      decreases |body| - it
    {
      DecodeStep(body[it..]);
      var parser := new BencodeStringParser(0);
      ParseIsTake(0, body[it..]);
      var result, position := parser.Parse(body, it);
      if result != Good {
        return Invalid;
      }
      ghost var before := strings;
      strings := strings + [parser.data];
      it := position;
      if it == |body| {
        return Strings(strings);
      }
      if it + 1 == |body| {
        return PastEnd;
      }
      assert body[it..][2..] == body[it + 2..];
      PrependTwice(before, [parser.data], Decode(body[it + 2..]));
      it := it + 2;
    }
    DecodeStep([]);
    assert body[it..] == [] && strings + [] == strings;
    r := Strings(strings);
  }

  lemma DecodeStep(s: seq<byte>)
    ensures Decode(s)
         == if s == [] then Strings([])
            else if Take(s).None? then Invalid
            else if Take(s).value.rest == [] then Strings([Take(s).value.data])
            else if |Take(s).value.rest| == 1 then PastEnd
            else Prepend([Take(s).value.data], Decode(Take(s).value.rest[2..]))
    ensures Prepend([], Decode(s)) == Decode(s)
  {
    hide Take;
    if Decode(s).Strings? {
      assert [] + Decode(s).ds == Decode(s).ds;
    }
  }

  lemma PrependTwice(a: seq<seq<byte>>, b: seq<seq<byte>>, r: Decoded)
    ensures Prepend(a, Prepend(b, r)) == Prepend(a + b, r)
  {
    if r.Strings? {
      assert a + (b + r.ds) == a + b + r.ds;
    }
  }

  /** The sequence encoder, for sequences of strings. */
  method EncodeStrings(out: Stream, ds: seq<seq<byte>>)
    requires !out.hex
    modifies out
    ensures out.text == old(out.text) + SequenceText(ds) && !out.hex
  {
    hide Numeral;
    for i := 0 to |ds|
      invariant !out.hex
      invariant out.text + SequenceText(ds[i..]) == old(out.text) + SequenceText(ds)
    {
      ghost var before, rest := out.text, SequenceText(ds[i + 1..]);
      assert ds[i..][0] == ds[i] && ds[i..][1..] == ds[i + 1..];
      out.Put(Numeral(10, |ds[i]|));
      out.Put([58]);
      out.Put(ds[i]);
      out.Put([13, 10]);
      assert out.text == before + ElementText(ds[i]);
      assert before + ElementText(ds[i]) + rest == before + (ElementText(ds[i]) + rest);
    }
  }
}
