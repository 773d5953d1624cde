/** SCGI requests, and the byte machine that recognises them, as functions. */
module RequestSpec {
  import opened Bytes
  import opened Numerals
  import opened Sets

  datatype Result = Good | Bad | Indeterminate

  datatype Phase = NetstringLength | HeaderStart | HeaderName | HeaderValue | BodyRange

  datatype Method = Get | Put | Post | Undefined

  datatype Header = Header(name: seq<byte>, value: seq<byte>)

  /** The public results of a parse, but for the body. */
  datatype Document = Document(headers: map<seq<byte>, seq<byte>>, verb: Method, uri: seq<byte>,
                               contentType: seq<byte>, encoding: seq<byte>)

  datatype Machine = Machine(phase: Phase, lengthText: seq<byte>, length: nat, count: nat, name: seq<byte>,
                             value: seq<byte>, contentLength: nat, doc: Document, body: seq<byte>)

  const NO_DOC := Document(map[], Undefined, [], [], [])

  function Ascii(s: string): (r: seq<byte>)
    ensures |r| == |s|
    ensures forall i :: 0 <= i < |s| && s[i] as int < 256 ==> r[i] == s[i] as int
  {
    seq(|s|, i requires 0 <= i < |s| => if s[i] as int < 256 then s[i] as int else 0)
  }

  const CONTENT_LENGTH := Ascii("CONTENT_LENGTH")
  const SCGI := Ascii("SCGI")

  /** `lexical_cast<size_t>`: a sign is allowed and a minus wraps around; None where it throws. */
  function SizeOf(text: seq<byte>): (r: Option<nat>)
    ensures r.Some? ==> r.value < TWO_64
  {
    if text == [] then None
    else
      var digits := if text[0] == 43 || text[0] == 45 then text[1..] else text;
      if digits == [] || !AllDigits(digits) || DecimalValue(digits) >= TWO_64 then None
      else if text[0] == 45 then Some((TWO_64 - DecimalValue(digits)) % TWO_64)
      else Some(DecimalValue(digits))
  }

  predicate IsSeparator(c: byte) {
    c == 59 || c == 32 || c == 9
  }

  function SkipSeparators(s: seq<byte>): (r: seq<byte>)
    ensures |r| <= |s|
    ensures r != [] ==> !IsSeparator(r[0])
  {
    if s == [] || !IsSeparator(s[0]) then s else SkipSeparators(s[1..])
  }

  function TokenLength(s: seq<byte>): (n: nat)
    ensures n <= |s|
    ensures n < |s| ==> IsSeparator(s[n])
  {
    if s == [] || IsSeparator(s[0]) then 0 else 1 + TokenLength(s[1..])
  }

  /** Splitting at runs of separators; there is always at least one token. */
  function Tokens(s: seq<byte>): (t: seq<seq<byte>>)
    ensures t != []
    decreases |s|
  {
    var n := TokenLength(s);
    if n == |s| then [s] else [s[..n]] + Tokens(SkipSeparators(s[n + 1..]))
  }

  /** What the end of a header line records. */
  function Store(d: Document, name: seq<byte>, value: seq<byte>): Document {
    var noted :=
      if name == Ascii("REQUEST_METHOD") then
        if value == Ascii("GET") then d.(verb := Get)
        else if value == Ascii("PUT") then d.(verb := Put)
        else if value == Ascii("POST") then d.(verb := Post)
        else d
      else if name == Ascii("REQUEST_URI") then d.(uri := value)
      else if name == Ascii("CONTENT_TYPE") then
        var parts := Tokens(value);
        d.(contentType := parts[0], encoding := if |parts| > 1 then parts[1] else d.encoding)
      else d;
    noted.(headers := d.headers[name := value])
  }

  function EndHeader(m: Machine): (Machine, Result) {
    var size := if |m.doc.headers| == 0 then SizeOf(m.value) else Some(m.contentLength);
    if |m.doc.headers| == 0 && m.name != CONTENT_LENGTH then (m, Bad)
    else if size == None then (m, Bad)
    else if |m.doc.headers| == 1 && !(m.name == SCGI && m.value == [49]) then (m, Bad)
    else
      (m.(contentLength := size.value, doc := Store(m.doc, m.name, m.value), name := [], value := [],
          phase := HeaderStart), Indeterminate)
  }

  /** One byte. The counter is a 64-bit word and was never initialised before the colon. */
  function Consume(before: Machine, c: byte): (Machine, Result) {
    var m := before.(count := (before.count + 1) % TWO_64);
    match m.phase
    case NetstringLength =>
      if IsDigit(c) then (m.(lengthText := m.lengthText + [c]), Indeterminate)
      else if c == 58 && SizeOf(m.lengthText).Some? then
        (m.(length := SizeOf(m.lengthText).value, count := 0, phase := HeaderStart), Indeterminate)
      else (m, Bad)
    case HeaderStart | HeaderName =>
      if m.phase == HeaderStart && c == 44 then
        if m.length != (m.count + TWO_64 - 1) % TWO_64 then (m, Bad)
        else if m.contentLength > 0 then (m.(phase := BodyRange), Indeterminate)
        else (m, Good)
      else if m.count >= m.length then (m, Bad)
      else if c != 0 then (m.(name := m.name + [c]), Indeterminate)
      else if |m.name| > 0 then (m.(phase := HeaderValue), Indeterminate)
      else (m, Bad)
    case HeaderValue =>
      if m.count > m.length then (m, Bad)
      else if c != 0 then (m.(value := m.value + [c]), Indeterminate)
      else EndHeader(m)
    case BodyRange =>
      if |m.body| > m.contentLength then (m, Bad)
      else (m.(body := m.body + [c]), if |m.body| + 1 == m.contentLength then Good else Indeterminate)
  }

  /** A reset parser: the announced length and the counter hold whatever they held before. */
  function Fresh(length: nat, count: nat): Machine {
    Machine(NetstringLength, [], length, count, [], [], 0, NO_DOC, [])
  }

  /** The bytes of one read: up to the first bad byte, with the result of the last one. */
  function Parse(m: Machine, s: seq<byte>): (Machine, Result)
    requires s != []
    decreases |s|
  {
    var step := Consume(m, s[0]);
    if step.1 == Bad || |s| == 1 then step else Parse(step.0, s[1..])
  }

  // --- The shape of requests ---------------------------------------------------------------------

  datatype Request = Request(digits: seq<byte>, headers: seq<Header>, body: seq<byte>)

  function Line(h: Header): seq<byte> {
    h.name + [0] + h.value + [0]
  }

  function Block(hs: seq<Header>): seq<byte> {
    if hs == [] then [] else Block(hs[..|hs| - 1]) + Line(hs[|hs| - 1])
  }

  function Text(q: Request): seq<byte> {
    q.digits + [58] + Block(q.headers) + [44] + q.body
  }

  predicate PlainName(s: seq<byte>) {
    forall i :: 0 <= i < |s| ==> s[i] != 0 && s[i] != 44
  }

  predicate NulFree(s: seq<byte>) {
    forall i :: 0 <= i < |s| ==> s[i] != 0
  }

  predicate HeadersOk(hs: seq<Header>) {
    && (forall i :: 0 <= i < |hs| ==> hs[i].name != [] && PlainName(hs[i].name) && NulFree(hs[i].value))
    && (hs != [] ==> hs[0].name == CONTENT_LENGTH && SizeOf(hs[0].value).Some?)
    && (|hs| > 1 ==> hs[1] == Header(SCGI, [49]))
  }

  function ContentLength(hs: seq<Header>): nat {
    if hs == [] || SizeOf(hs[0].value).None? then 0 else SizeOf(hs[0].value).value
  }

  /** What the code accepts as a request: the block's length is compared as a 64-bit word. */
  predicate Acceptable(q: Request) {
    && AllDigits(q.digits) && SizeOf(q.digits) == Some(|Block(q.headers)| % TWO_64)
    && HeadersOk(q.headers)
    && |q.body| == ContentLength(q.headers)
  }

  predicate WellFormed(q: Request) {
    Acceptable(q) && |Block(q.headers)| < TWO_64
  }

  function DocOf(hs: seq<Header>): Document {
    if hs == [] then NO_DOC else Store(DocOf(hs[..|hs| - 1]), hs[|hs| - 1].name, hs[|hs| - 1].value)
  }

  predicate Holds(m: Machine, q: Request) {
    m.doc == DocOf(q.headers) && m.body == q.body && m.contentLength == |q.body|
  }

  // --- How far a parse has come ------------------------------------------------------------------

  datatype Progress =
    | InLength(digits: seq<byte>)
    | InName(digits: seq<byte>, hs: seq<Header>, name: seq<byte>)
    | InValue(digits: seq<byte>, hs: seq<Header>, name: seq<byte>, value: seq<byte>)
    | InBody(digits: seq<byte>, hs: seq<Header>, body: seq<byte>)

  function ReadSoFar(p: Progress): seq<byte> {
    match p
    case InLength(d) => d
    case InName(d, hs, n) => d + [58] + Block(hs) + n
    case InValue(d, hs, n, v) => d + [58] + Block(hs) + (n + [0] + v)
    case InBody(d, hs, b) => d + [58] + Block(hs) + [44] + b
  }

  predicate Announced(d: seq<byte>, hs: seq<Header>) {
    AllDigits(d) && SizeOf(d).Some? && HeadersOk(hs)
  }

  predicate Possible(p: Progress) {
    match p
    case InLength(d) => AllDigits(d)
    case InName(d, hs, n) => Announced(d, hs) && PlainName(n)
    case InValue(d, hs, n, v) => Announced(d, hs) && n != [] && PlainName(n) && NulFree(v)
    case InBody(d, hs, b) =>
      Announced(d, hs) && |Block(hs)| % TWO_64 == SizeOf(d).value && |b| < ContentLength(hs)
  }

  /** The machine's registers, the counters included, as a function of the progress. */
  ghost predicate Registers(m: Machine, p: Progress) {
    && m.lengthText == p.digits
    && (!p.InLength? ==>
          && Some(m.length) == SizeOf(p.digits)
          && m.contentLength == ContentLength(p.hs) && m.doc == DocOf(p.hs))
    && match p
       case InLength(d) => m == Fresh(m.length, m.count).(lengthText := d)
       case InName(d, hs, n) =>
         && m.phase == HeaderStart && m.name == n && m.value == [] && m.body == []
         && m.count == (|Block(hs)| + |n|) % TWO_64 && (n != [] ==> m.count < m.length)
       case InValue(d, hs, n, v) =>
         && m.phase == HeaderValue && m.name == n && m.value == v && m.body == []
         && m.count == (|Block(hs)| + |n| + 1 + |v|) % TWO_64
       case InBody(d, hs, b) => m.phase == BodyRange && m.name == [] && m.value == [] && m.body == b
  }

  lemma BlockSnoc(hs: seq<Header>, h: Header)
    ensures Block(hs + [h]) == Block(hs) + Line(h)
    ensures DocOf(hs + [h]) == Store(DocOf(hs), h.name, h.value)
  {
    hide Line, Store;
    assert (hs + [h])[..|hs|] == hs;
  }

  /** The map holds one entry before the second header and more than one afterwards. */
  lemma HeaderCount(hs: seq<Header>)
    requires HeadersOk(hs)
    ensures |DocOf(hs).headers| == 0 <==> hs == []
    ensures |DocOf(hs).headers| == 1 <==> |hs| == 1
  {
    hide SizeOf, DocOf, HeadersOk;
    if hs == [] {
      assert DocOf(hs) == NO_DOC by {
        DocOfNothing();
      }
    } else if |hs| == 1 {
      OneHeader(hs);
    } else {
      TwoHeaders(hs);
      assert {CONTENT_LENGTH, SCGI} <= DocOf(hs).headers.Keys;
      SubsetSize({CONTENT_LENGTH, SCGI}, DocOf(hs).headers.Keys);
    }
  }

  lemma DocOfNothing()
    ensures DocOf([]) == NO_DOC
  {
  }

  lemma OneHeader(hs: seq<Header>)
    requires |hs| == 1
    ensures |DocOf(hs).headers| == 1
  {
    hide Store;
    assert hs[..0] == [];
    assert DocOf(hs) == Store(NO_DOC, hs[0].name, hs[0].value);
    StoreHeaders(NO_DOC, hs[0].name, hs[0].value);
    assert DocOf(hs).headers.Keys == {hs[0].name};
  }

  lemma StoreHeaders(d: Document, name: seq<byte>, value: seq<byte>)
    ensures Store(d, name, value).headers == d.headers[name := value]
  {
  }

  lemma {:induction false} TwoHeaders(hs: seq<Header>)
    requires HeadersOk(hs) && |hs| > 1
    ensures CONTENT_LENGTH in DocOf(hs).headers && SCGI in DocOf(hs).headers
  {
    hide Store, SizeOf;
    var front, last := hs[..|hs| - 1], hs[|hs| - 1];
    StoreHeaders(DocOf(front), last.name, last.value);
    if |hs| > 2 {
      TwoHeaders(front);
    } else {
      StoreHeaders(NO_DOC, front[0].name, front[0].value);
      assert front[..0] == [];
      assert DocOf(front) == Store(NO_DOC, front[0].name, front[0].value);
    }
  }

  /** Where the next byte leads, unless it ends the parse. */
  function Next(p: Progress, c: byte): Progress {
    match p
    case InLength(d) => if IsDigit(c) then InLength(d + [c]) else InName(d, [], [])
    case InName(d, hs, n) =>
      if c == 44 then InBody(d, hs, [])
      else if c == 0 then InValue(d, hs, n, [])
      else InName(d, hs, n + [c])
    case InValue(d, hs, n, v) =>
      if c == 0 then InName(d, hs + [Header(n, v)], []) else InValue(d, hs, n, v + [c])
    case InBody(d, hs, b) => InBody(d, hs, b + [c])
  }

  // --- One byte: the counters do what the shape of the request says --------------------------------

  lemma ConsumeInLength(m: Machine, p: Progress, c: byte)
    requires p.InLength? && Possible(p) && Registers(m, p)
    ensures Consume(m, c).1 != Good
    ensures Consume(m, c).1 == Indeterminate ==>
              && Possible(Next(p, c)) && Registers(Consume(m, c).0, Next(p, c))
              && ReadSoFar(Next(p, c)) == ReadSoFar(p) + [c]
  {
    hide SizeOf;
    assert !IsDigit(c) ==> ReadSoFar(Next(p, c)) == p.digits + [58];
  }

  lemma ConsumeInName(m: Machine, p: Progress, c: byte)
    requires p.InName? && Possible(p) && Registers(m, p)
    ensures Consume(m, c).1 == Indeterminate ==>
              && Possible(Next(p, c)) && Registers(Consume(m, c).0, Next(p, c))
              && ReadSoFar(Next(p, c)) == ReadSoFar(p) + [c]
    ensures Consume(m, c).1 == Good ==>
              && c == 44 && p.name == [] && ContentLength(p.hs) == 0 && |Block(p.hs)| % TWO_64 == m.length
              && Consume(m, c).0 == m.(count := (m.count + 1) % TWO_64)
  {
    hide SizeOf, DocOf, Block, HeadersOk, ContentLength;
    WordCounts(m.count, |Block(p.hs)| + |p.name|);
  }

  lemma WordCounts(count: nat, n: nat)
    requires count == n % TWO_64
    ensures (count + 1) % TWO_64 == (n + 1) % TWO_64
    ensures ((count + 1) % TWO_64 + TWO_64 - 1) % TWO_64 == n % TWO_64
  {
  }

  lemma ConsumeInValue(m: Machine, p: Progress, c: byte)
    requires p.InValue? && Possible(p) && Registers(m, p)
    ensures Consume(m, c).1 != Good
    ensures Consume(m, c).1 == Indeterminate ==>
              && Possible(Next(p, c)) && Registers(Consume(m, c).0, Next(p, c))
              && ReadSoFar(Next(p, c)) == ReadSoFar(p) + [c]
  {
    hide SizeOf, DocOf, Block, Store, ContentLength, HeadersOk, EndHeader;
    if c == 0 {
      EndOfValue(m, p);
    } else {
      WordCounts(m.count, |Block(p.hs)| + |p.name| + 1 + |p.value|);
      assert p.name + [0] + (p.value + [c]) == p.name + [0] + p.value + [c];
    }
  }

  lemma EndOfValue(m: Machine, p: Progress)
    requires p.InValue? && Possible(p) && Registers(m, p)
    ensures Consume(m, 0).1 != Good
    ensures Consume(m, 0).1 == Indeterminate ==>
              && Possible(Next(p, 0)) && Registers(Consume(m, 0).0, Next(p, 0))
              && ReadSoFar(Next(p, 0)) == ReadSoFar(p) + [0]
  {
    hide SizeOf, DocOf, Block, Store, ContentLength, HeadersOk, NulFree, AllDigits;
    WordCounts(m.count, |Block(p.hs)| + |p.name| + 1 + |p.value|);
    var h := Header(p.name, p.value);
    BlockSnoc(p.hs, h);
    HeaderCount(p.hs);
    HeadersSnoc(p.hs, h);
  }

  /** The conditions under which a further header is accepted. */
  predicate MayFollow(hs: seq<Header>, h: Header) {
    && h.name != [] && PlainName(h.name) && NulFree(h.value)
    && (hs == [] ==> h.name == CONTENT_LENGTH && SizeOf(h.value).Some?)
    && (|hs| == 1 ==> h == Header(SCGI, [49]))
  }

  lemma HeadersSnoc(hs: seq<Header>, h: Header)
    ensures HeadersOk(hs + [h]) <==> HeadersOk(hs) && MayFollow(hs, h)
    ensures HeadersOk(hs + [h]) ==>
              ContentLength(hs + [h]) == if hs == [] then SizeOf(h.value).value else ContentLength(hs)
  {
    hide SizeOf, PlainName, NulFree;
    var more := hs + [h];
    assert more[|hs|] == h;
    assert forall i :: 0 <= i < |hs| ==> more[i] == hs[i];
  }

  lemma ConsumeInBody(m: Machine, p: Progress, c: byte)
    requires p.InBody? && Possible(p) && Registers(m, p)
    ensures var p' := Next(p, c);
            && ReadSoFar(p') == ReadSoFar(p) + [c]
            && Consume(m, c) == (m.(count := (m.count + 1) % TWO_64, body := p'.body),
                                 if |p'.body| == ContentLength(p.hs) then Good else Indeterminate)
            && (|p'.body| != ContentLength(p.hs) ==> Possible(p') && Registers(Consume(m, c).0, p'))
  {
    hide SizeOf, DocOf, Block, HeadersOk, ContentLength;
  }

  /** The request that a good last byte completes. */
  function Completed(p: Progress, c: byte): Request {
    match p
    case InBody(d, hs, b) => Request(d, hs, b + [c])
    case InName(d, hs, n) => Request(d, hs, [])
    case _ => Request([], [], [])
  }

  lemma ConsumeAdvances(m: Machine, p: Progress, c: byte)
    requires Possible(p) && Registers(m, p)
    ensures Consume(m, c).1 == Indeterminate ==>
              && Possible(Next(p, c)) && Registers(Consume(m, c).0, Next(p, c))
              && ReadSoFar(Next(p, c)) == ReadSoFar(p) + [c]
    ensures Consume(m, c).1 == Good ==>
              && Acceptable(Completed(p, c)) && Text(Completed(p, c)) == ReadSoFar(p) + [c]
              && Holds(Consume(m, c).0, Completed(p, c))
  {
    hide SizeOf, DocOf, Block, HeadersOk, ContentLength, Consume, Registers, AllDigits;
    match p
    case InLength(_) => ConsumeInLength(m, p, c);
    case InName(_, _, _) =>
      ConsumeInName(m, p, c);
      if Consume(m, c).1 == Good {
        GoodInName(m, p, c);
      }
    case InValue(_, _, _, _) => ConsumeInValue(m, p, c);
    case InBody(_, _, _) =>
      ConsumeInBody(m, p, c);
      if Consume(m, c).1 == Good {
        GoodInBody(m, p, c);
      }
  }

  lemma GoodInName(m: Machine, p: Progress, c: byte)
    requires p.InName? && Possible(p) && Registers(m, p) && Consume(m, c).1 == Good
    ensures Acceptable(Completed(p, c)) && Text(Completed(p, c)) == ReadSoFar(p) + [c]
    ensures Holds(Consume(m, c).0, Completed(p, c))
  {
    hide SizeOf, DocOf, Block, HeadersOk, ContentLength, Consume, AllDigits;
    ConsumeInName(m, p, c);
    assert Text(Completed(p, c)) == ReadSoFar(p) + [c];
  }

  lemma GoodInBody(m: Machine, p: Progress, c: byte)
    requires p.InBody? && Possible(p) && Registers(m, p) && Consume(m, c).1 == Good
    ensures Acceptable(Completed(p, c)) && Text(Completed(p, c)) == ReadSoFar(p) + [c]
    ensures Holds(Consume(m, c).0, Completed(p, c))
  {
    hide SizeOf, DocOf, Block, HeadersOk, ContentLength, Consume, AllDigits;
    ConsumeInBody(m, p, c);
  }

  // --- Byte by byte ------------------------------------------------------------------------------

  /** Reading `s` takes the machine from `m` to `m'` without a verdict. */
  ghost predicate Quiet(m: Machine, s: seq<byte>, m': Machine)
    decreases |s|
  {
    if s == [] then m == m'
    else Consume(m, s[0]).1 == Indeterminate && Quiet(Consume(m, s[0]).0, s[1..], m')
  }

  lemma {:induction false} QuietConcat(m: Machine, a: seq<byte>, m1: Machine, b: seq<byte>, m2: Machine)
    requires Quiet(m, a, m1) && Quiet(m1, b, m2)
    ensures Quiet(m, a + b, m2)
    decreases |a|
  {
    hide Consume;
    if a == [] {
      assert a + b == b;
    } else {
      assert (a + b)[1..] == a[1..] + b;
      QuietConcat(Consume(m, a[0]).0, a[1..], m1, b, m2);
    }
  }

  lemma {:induction false} QuietParse(m: Machine, s: seq<byte>, m': Machine, c: byte)
    requires Quiet(m, s, m')
    ensures Parse(m, s + [c]) == Consume(m', c)
    decreases |s|
  {
    hide Consume;
    if s == [] {
      assert s + [c] == [c];
    } else {
      assert (s + [c])[1..] == s[1..] + [c];
      QuietParse(Consume(m, s[0]).0, s[1..], m', c);
    }
  }

  lemma {:induction false} QuietPrefix(m: Machine, s: seq<byte>, m': Machine, k: nat)
    requires Quiet(m, s, m') && 0 < k <= |s|
    ensures Parse(m, s[..k]).1 == Indeterminate
    decreases |s|
  {
    hide Consume;
    if k == 1 {
      assert s[..1] == [s[0]];
    } else {
      assert s[..k][1..] == s[1..][..k - 1];
      QuietPrefix(Consume(m, s[0]).0, s[1..], m', k - 1);
    }
  }

  /** A parse that ends well without an earlier verdict was quiet up to its last byte. */
  lemma {:induction false} FirstGoodIsQuiet(m: Machine, s: seq<byte>) returns (m': Machine)
    requires FirstGood(m, s)
    ensures Quiet(m, s[..|s| - 1], m') && Parse(m, s) == Consume(m', s[|s| - 1])
    decreases |s|
  {
    hide Consume;
    if |s| == 1 {
      m' := m;
    } else {
      assert s[..1] == [s[0]];
      assert Parse(m, s[..1]).1 == Consume(m, s[0]).1;
      var next, rest := Consume(m, s[0]).0, s[1..];
      forall k | 0 < k < |rest| ensures Parse(next, rest[..k]).1 != Good {
        assert s[..k + 1][1..] == rest[..k];
        assert Parse(m, s[..k + 1]).1 != Good;
      }
      m' := FirstGoodIsQuiet(next, rest);
      assert s[..|s| - 1][1..] == rest[..|rest| - 1];
    }
  }

  ghost predicate FirstGood(m: Machine, s: seq<byte>) {
    s != [] && Parse(m, s).1 == Good && forall k :: 0 < k < |s| ==> Parse(m, s[..k]).1 != Good
  }

  lemma {:induction false} QuietProgress(m: Machine, p: Progress, s: seq<byte>, m': Machine) returns (p': Progress)
    requires Possible(p) && Registers(m, p) && Quiet(m, s, m')
    ensures Possible(p') && Registers(m', p') && ReadSoFar(p') == ReadSoFar(p) + s
    decreases |s|
  {
    hide Consume, Next, Possible, Registers, ReadSoFar;
    if s == [] {
      p' := p;
      assert ReadSoFar(p) + s == ReadSoFar(p);
    } else {
      ConsumeAdvances(m, p, s[0]);
      p' := QuietProgress(Consume(m, s[0]).0, Next(p, s[0]), s[1..], m');
      assert ReadSoFar(p) + [s[0]] + s[1..] == ReadSoFar(p) + s;
    }
  }

  lemma FirstGoodMeans(m: Machine, s: seq<byte>)
    requires FirstGood(m, s)
    ensures s != [] && Parse(m, s).1 == Good
  {
  }

  lemma ReadNothing()
    ensures ReadSoFar(InLength([])) == []
  {
  }

  lemma FreshRegisters(length: nat, count: nat)
    ensures Possible(InLength([])) && Registers(Fresh(length, count), InLength([]))
  {
  }

  /** Soundness: the bytes up to the first good verdict are a request, and the parser holds its parts. */
  lemma GoodIsRequest(length: nat, count: nat, s: seq<byte>) returns (q: Request)
    requires FirstGood(Fresh(length, count), s)
    ensures Acceptable(q) && Text(q) == s && Holds(Parse(Fresh(length, count), s).0, q)
  {
    hide Consume, Possible, Registers, ReadSoFar, Parse, Quiet, FirstGood, Acceptable, Text, Holds;
    var m := Fresh(length, count);
    FirstGoodMeans(m, s);
    var m' := FirstGoodIsQuiet(m, s);
    FreshRegisters(length, count);
    var front, c := s[..|s| - 1], s[|s| - 1];
    var p := QuietProgress(m, InLength([]), front, m');
    ConsumeAdvances(m', p, c);
    q := Completed(p, c);
    ReadNothing();
    assert [] + front == front && front + [c] == s;
  }

  // --- Every well-formed request is accepted, at its last byte --------------------------------------

  /** The byte is one that a request announced with this length may go on with. */
  ghost predicate Fits(p: Progress, c: byte) {
    match p
    case InLength(d) => IsDigit(c) || (c == 58 && SizeOf(d).Some?)
    case InName(d, hs, n) =>
      if c == 44 then n == [] && SizeOf(d) == Some(|Block(hs)|) && ContentLength(hs) > 0
      else (c == 0 ==> n != []) && SizeOf(d).Some? && |Block(hs)| + |n| + 1 < SizeOf(d).value
    case InValue(d, hs, n, v) =>
      && SizeOf(d).Some? && |Block(hs)| + |n| + |v| + 2 <= SizeOf(d).value
      && (c == 0 ==> MayFollow(hs, Header(n, v)))
    case InBody(d, hs, b) => |b| + 1 < ContentLength(hs)
  }

  lemma FitsInName(m: Machine, p: Progress, c: byte)
    requires p.InName? && Possible(p) && Registers(m, p) && Fits(p, c)
    ensures Consume(m, c).1 == Indeterminate
  {
    hide SizeOf, DocOf, Block, ContentLength, HeadersOk;
    WordCounts(m.count, |Block(p.hs)| + |p.name|);
  }

  lemma FitsInValue(m: Machine, p: Progress, c: byte)
    requires p.InValue? && Possible(p) && Registers(m, p) && Fits(p, c)
    ensures Consume(m, c).1 == Indeterminate
  {
    hide SizeOf, DocOf, Block, ContentLength, HeadersOk, Store;
    HeaderCount(p.hs);
    WordCounts(m.count, |Block(p.hs)| + |p.name| + 1 + |p.value|);
  }

  lemma FitsContinues(m: Machine, p: Progress, c: byte)
    requires Possible(p) && Registers(m, p) && Fits(p, c)
    ensures Consume(m, c).1 == Indeterminate
    ensures Possible(Next(p, c)) && Registers(Consume(m, c).0, Next(p, c))
  {
    ConsumeAdvances(m, p, c);
    match p
    case InLength(_) => hide SizeOf;
    case InName(_, _, _) =>
      hide SizeOf, DocOf, Block, ContentLength, HeadersOk, ReadSoFar, Consume, Registers, Possible, Fits;
      FitsInName(m, p, c);
    case InValue(_, _, _, _) =>
      hide SizeOf, DocOf, Block, ContentLength, HeadersOk, ReadSoFar, Consume, Registers, Possible, Fits;
      FitsInValue(m, p, c);
    case InBody(_, _, _) =>
      hide SizeOf, DocOf, Block, ContentLength, HeadersOk, ReadSoFar;
      ConsumeInBody(m, p, c);
  }

  /** The byte is the last one of a request. */
  ghost predicate Completes(p: Progress, c: byte) {
    match p
    case InName(d, hs, n) => c == 44 && n == [] && SizeOf(d) == Some(|Block(hs)|) && ContentLength(hs) == 0
    case InBody(d, hs, b) => |b| + 1 == ContentLength(hs)
    case _ => false
  }

  lemma NameVerdict(m: Machine, p: Progress, c: byte)
    requires p.InName? && Possible(p) && Registers(m, p) && |Block(p.hs)| + |p.name| + 1 < TWO_64
    ensures Consume(m, c).1 == Indeterminate <==> Fits(p, c)
    ensures Consume(m, c).1 == Good <==> Completes(p, c)
  {
    hide SizeOf, DocOf, Block, ContentLength, HeadersOk;
    WordCounts(m.count, |Block(p.hs)| + |p.name|);
  }

  lemma ValueVerdict(m: Machine, p: Progress, c: byte)
    requires p.InValue? && Possible(p) && Registers(m, p) && |Block(p.hs)| + |p.name| + |p.value| + 2 < TWO_64
    ensures Consume(m, c).1 == Indeterminate <==> Fits(p, c)
    ensures Consume(m, c).1 != Good
  {
    hide SizeOf, DocOf, Block, ContentLength, HeadersOk, Store;
    HeaderCount(p.hs);
    WordCounts(m.count, |Block(p.hs)| + |p.name| + 1 + |p.value|);
  }

  /**
   * The verdict on every byte, told from what was read before it: the machine goes on exactly if the byte
   * fits, it is good exactly if it completes a request, and all other bytes are bad.
   */
  lemma VerdictIff(m: Machine, p: Progress, c: byte)
    requires Possible(p) && Registers(m, p) && |ReadSoFar(p)| + 2 < TWO_64
    ensures Consume(m, c).1 == Indeterminate <==> Fits(p, c)
    ensures Consume(m, c).1 == Good <==> Completes(p, c)
  {
    match p
    case InLength(_) => hide SizeOf;
    case InName(_, _, _) =>
      assert |Block(p.hs)| + |p.name| < |ReadSoFar(p)|;
      hide SizeOf, DocOf, Block, ContentLength, HeadersOk, ReadSoFar, Consume, Registers, Possible, Fits, Completes;
      NameVerdict(m, p, c);
    case InValue(_, _, _, _) =>
      assert |Block(p.hs)| + |p.name| + 1 + |p.value| < |ReadSoFar(p)|;
      hide SizeOf, DocOf, Block, ContentLength, HeadersOk, ReadSoFar, Consume, Registers, Possible, Fits;
      ValueVerdict(m, p, c);
    case InBody(_, _, _) =>
      hide SizeOf, DocOf, Block, ContentLength, HeadersOk, ReadSoFar;
      ConsumeInBody(m, p, c);
  }

  /**
   * No byte of the block goes beyond its announced length: when that many bytes have been read behind the
   * colon, anything but a comma is bad.
   */
  lemma OverlongIsBad(length: nat, count: nat, d: seq<byte>, block: seq<byte>, m: Machine, c: byte)
    requires AllDigits(d) && SizeOf(d) == Some(|block|) && |d| + |block| + 4 < TWO_64
    requires Quiet(Fresh(length, count), d + [58] + block, m) && c != 44
    ensures Consume(m, c).1 == Bad
  {
    hide Consume, Registers, SizeOf, Block, HeadersOk, ContentLength, DocOf, Possible, Quiet, Fits, Completes;
    hide AllDigits;
    FreshRegisters(length, count);
    var p := QuietProgress(Fresh(length, count), InLength([]), d + [58] + block, m);
    ReadNothing();
    assert [] + (d + [58] + block) == d + [58] + block;
    hide ReadSoFar;
    VerdictIff(m, p, c);
    FullBlockFitsNothing(p, d, block, c);
  }

  lemma FullBlockFitsNothing(p: Progress, d: seq<byte>, block: seq<byte>, c: byte)
    requires AllDigits(d) && SizeOf(d) == Some(|block|) && |block| < TWO_64 && c != 44
    requires Possible(p) && ReadSoFar(p) == d + [58] + block
    ensures !Fits(p, c) && !Completes(p, c)
  {
    hide SizeOf, Block, HeadersOk, ContentLength;
    ColonIsNoDigit(d, block);
    assert !p.InLength?;
    var rest := BehindColon(p);
    hide ReadSoFar;
    SameDigits(d, block, p.digits, rest);
  }

  lemma ColonIsNoDigit(d: seq<byte>, rest: seq<byte>)
    ensures !AllDigits(d + [58] + rest)
  {
    assert (d + [58] + rest)[|d|] == 58;
  }

  /** What was read of the block, and of the body. */
  lemma BehindColon(p: Progress) returns (rest: seq<byte>)
    requires !p.InLength? && Possible(p)
    ensures AllDigits(p.digits) && ReadSoFar(p) == p.digits + [58] + rest
    ensures |rest| == |Block(p.hs)| + match p
                                      case InName(_, _, n) => |n|
                                      case InValue(_, _, n, v) => |n| + 1 + |v|
                                      case InBody(_, _, b) => 1 + |b|
                                      case InLength(_) => 0
  {
    hide Block, SizeOf, HeadersOk, ContentLength;
    rest := ReadSoFar(p)[|p.digits| + 1..];
  }

  lemma SameDigits(d: seq<byte>, r: seq<byte>, e: seq<byte>, t: seq<byte>)
    requires AllDigits(d) && AllDigits(e) && d + [58] + r == e + [58] + t
    ensures d == e && r == t
  {
    var s, s' := d + [58] + r, e + [58] + t;
    assert s[|d|] == 58 && s'[|e|] == 58;
    assert forall i :: 0 <= i < |d| ==> s[i] == d[i];
    assert forall i :: 0 <= i < |e| ==> s'[i] == e[i];
    assert |d| == |e|;
    assert d == s[..|d|] == s'[..|e|] == e;
    assert r == s[|d| + 1..];
  }

  ghost predicate Follows(p: Progress, s: seq<byte>, p': Progress)
    decreases |s|
  {
    if s == [] then p == p' else Fits(p, s[0]) && Follows(Next(p, s[0]), s[1..], p')
  }

  lemma {:induction false} FollowsConcat(p: Progress, a: seq<byte>, p1: Progress, b: seq<byte>, p2: Progress)
    requires Follows(p, a, p1) && Follows(p1, b, p2)
    ensures Follows(p, a + b, p2)
    decreases |a|
  {
    hide Fits, Next;
    if a == [] {
      assert a + b == b;
    } else {
      assert (a + b)[1..] == a[1..] + b;
      FollowsConcat(Next(p, a[0]), a[1..], p1, b, p2);
    }
  }

  lemma {:induction false} FollowsQuiet(m: Machine, p: Progress, s: seq<byte>, p': Progress) returns (m': Machine)
    requires Possible(p) && Registers(m, p) && Follows(p, s, p')
    ensures Possible(p') && Registers(m', p') && Quiet(m, s, m')
    decreases |s|
  {
    hide Fits, Next, Possible, Registers, Consume;
    if s == [] {
      m' := m;
    } else {
      FitsContinues(m, p, s[0]);
      m' := FollowsQuiet(Consume(m, s[0]).0, Next(p, s[0]), s[1..], p');
    }
  }

  lemma {:induction false} QuietFollows(m: Machine, p: Progress, s: seq<byte>, m': Machine) returns (p': Progress)
    requires Possible(p) && Registers(m, p) && Quiet(m, s, m') && |ReadSoFar(p)| + |s| + 2 < TWO_64
    ensures Follows(p, s, p')
    decreases |s|
  {
    hide Fits, Next, Possible, Registers, Consume, ReadSoFar, Completes;
    if s == [] {
      p' := p;
    } else {
      VerdictIff(m, p, s[0]);
      ConsumeAdvances(m, p, s[0]);
      p' := QuietFollows(Consume(m, s[0]).0, Next(p, s[0]), s[1..], m');
    }
  }

  lemma {:induction false} NoVerdictIsQuiet(m: Machine, s: seq<byte>) returns (m': Machine)
    requires forall k :: 0 < k <= |s| ==> Parse(m, s[..k]).1 == Indeterminate
    ensures Quiet(m, s, m')
    decreases |s|
  {
    hide Consume;
    m' := m;
    if s != [] {
      assert s[..1] == [s[0]];
      assert Parse(m, s[..1]).1 == Consume(m, s[0]).1;
      var next, rest := Consume(m, s[0]).0, s[1..];
      forall k | 0 < k <= |rest| ensures Parse(next, rest[..k]).1 == Indeterminate {
        assert s[..k + 1][1..] == rest[..k];
        assert Parse(m, s[..k + 1]).1 == Indeterminate;
      }
      m' := NoVerdictIsQuiet(next, rest);
    }
  }

  /** A stream has no verdict at any of its bytes exactly if every byte fits what was read before it. */
  lemma NoVerdictIff(length: nat, count: nat, s: seq<byte>)
    requires |s| + 2 < TWO_64
    ensures (forall k :: 0 < k <= |s| ==> Parse(Fresh(length, count), s[..k]).1 == Indeterminate)
       <==> exists p :: Follows(InLength([]), s, p)
  {
    hide Parse, Follows, Quiet, Possible, Registers, Fresh;
    var m := Fresh(length, count);
    FreshRegisters(length, count);
    if forall k :: 0 < k <= |s| ==> Parse(m, s[..k]).1 == Indeterminate {
      var m' := NoVerdictIsQuiet(m, s);
      ReadNothing();
      var p := QuietFollows(m, InLength([]), s, m');
    }
    if p :| Follows(InLength([]), s, p) {
      var m' := FollowsQuiet(m, InLength([]), s, p);
      forall k | 0 < k <= |s| ensures Parse(m, s[..k]).1 == Indeterminate {
        QuietPrefix(m, s, m', k);
      }
    }
  }

  lemma {:induction false} FollowsDigits(d: seq<byte>, rest: seq<byte>)
    requires AllDigits(rest)
    ensures Follows(InLength(d), rest, InLength(d + rest))
    decreases |rest|
  {
    if rest == [] {
      assert d + rest == d;
    } else {
      FollowsDigits(d + [rest[0]], rest[1..]);
      assert d + [rest[0]] + rest[1..] == d + rest;
    }
  }

  lemma {:induction false} FollowsName(d: seq<byte>, hs: seq<Header>, n: seq<byte>, rest: seq<byte>)
    requires PlainName(rest) && SizeOf(d).Some? && |Block(hs)| + |n| + |rest| < SizeOf(d).value
    ensures Follows(InName(d, hs, n), rest, InName(d, hs, n + rest))
    decreases |rest|
  {
    hide SizeOf, Block;
    if rest == [] {
      assert n + rest == n;
    } else {
      FollowsName(d, hs, n + [rest[0]], rest[1..]);
      assert n + [rest[0]] + rest[1..] == n + rest;
    }
  }

  lemma {:induction false} FollowsValue(d: seq<byte>, hs: seq<Header>, n: seq<byte>, v: seq<byte>, rest: seq<byte>)
    requires NulFree(rest) && SizeOf(d).Some? && |Block(hs)| + |n| + |v| + |rest| + 1 <= SizeOf(d).value
    ensures Follows(InValue(d, hs, n, v), rest, InValue(d, hs, n, v + rest))
    decreases |rest|
  {
    hide SizeOf, Block;
    if rest == [] {
      assert v + rest == v;
    } else {
      FollowsValue(d, hs, n, v + [rest[0]], rest[1..]);
      assert v + [rest[0]] + rest[1..] == v + rest;
    }
  }

  lemma {:induction false} FollowsBody(d: seq<byte>, hs: seq<Header>, b: seq<byte>, rest: seq<byte>)
    requires |b| + |rest| < ContentLength(hs)
    ensures Follows(InBody(d, hs, b), rest, InBody(d, hs, b + rest))
    decreases |rest|
  {
    hide ContentLength;
    if rest == [] {
      assert b + rest == b;
    } else {
      FollowsBody(d, hs, b + [rest[0]], rest[1..]);
      assert b + [rest[0]] + rest[1..] == b + rest;
    }
  }

  lemma FollowsByte(p: Progress, c: byte)
    requires Fits(p, c)
    ensures Follows(p, [c], Next(p, c))
  {
  }

  lemma FollowsLine(d: seq<byte>, hs: seq<Header>, h: Header)
    requires MayFollow(hs, h) && SizeOf(d).Some? && |Block(hs + [h])| <= SizeOf(d).value
    ensures Follows(InName(d, hs, []), Line(h), InName(d, hs + [h], []))
  {
    BlockSnoc(hs, h);
    hide SizeOf, Block, Follows;
    var start, named := InName(d, hs, []), InName(d, hs, h.name);
    FollowsName(d, hs, [], h.name);
    assert [] + h.name == h.name;
    FollowsByte(named, 0);
    FollowsConcat(start, h.name, named, [0], InValue(d, hs, h.name, []));
    FollowsValue(d, hs, h.name, [], h.value);
    assert [] + h.value == h.value;
    FollowsByte(InValue(d, hs, h.name, h.value), 0);
    FollowsConcat(start, h.name + [0], InValue(d, hs, h.name, []), h.value, InValue(d, hs, h.name, h.value));
    FollowsConcat(start, h.name + [0] + h.value, InValue(d, hs, h.name, h.value), [0], InName(d, hs + [h], []));
  }

  lemma {:induction false} FollowsBlock(d: seq<byte>, hs: seq<Header>)
    requires HeadersOk(hs) && SizeOf(d).Some? && |Block(hs)| <= SizeOf(d).value
    ensures Follows(InName(d, [], []), Block(hs), InName(d, hs, []))
  {
    hide SizeOf, HeadersOk, MayFollow, Line;
    if hs == [] {
    } else {
      var front, h := hs[..|hs| - 1], hs[|hs| - 1];
      assert hs == front + [h];
      HeadersSnoc(front, h);
      hide Follows;
      FollowsBlock(d, front);
      FollowsLine(d, front, h);
      FollowsConcat(InName(d, [], []), Block(front), InName(d, front, []), Line(h), InName(d, hs, []));
    }
  }

  /** A well-formed request is followed to the end of its header block. */
  lemma FollowsHead(q: Request)
    requires WellFormed(q)
    ensures Follows(InLength([]), q.digits + [58] + Block(q.headers), InName(q.digits, q.headers, []))
  {
    hide SizeOf, Block, Follows, HeadersOk;
    FollowsDigits([], q.digits);
    assert [] + q.digits == q.digits;
    FollowsByte(InLength(q.digits), 58);
    FollowsConcat(InLength([]), q.digits, InLength(q.digits), [58], InName(q.digits, [], []));
    FollowsBlock(q.digits, q.headers);
    FollowsConcat(InLength([]), q.digits + [58], InName(q.digits, [], []),
                  Block(q.headers), InName(q.digits, q.headers, []));
  }

  lemma QuietHead(q: Request, m: Machine) returns (m': Machine, last: byte)
    requires WellFormed(q) && Registers(m, InLength([]))
    ensures Quiet(m, Text(q)[..|Text(q)| - 1], m') && last == Text(q)[|Text(q)| - 1]
    ensures Consume(m', last).1 == Good && Holds(Consume(m', last).0, q)
    ensures q.body != [] ==> m'.phase == BodyRange
    ensures q.body == [] ==> m'.phase == HeaderStart && m'.name == [] && m'.count == m'.length == |Block(q.headers)|
  {
    hide SizeOf, Block, Follows, HeadersOk, Registers, ContentLength, Consume, Quiet, DocOf;
    FollowsHead(q);
    var d, hs, head := q.digits, q.headers, q.digits + [58] + Block(q.headers);
    if q.body == [] {
      assert Text(q) == head + [44];
      m' := FollowsQuiet(m, InLength([]), head, InName(d, hs, []));
      last := 44;
      CommaIsGood(m', q);
    } else {
      var front := q.body[..|q.body| - 1];
      last := q.body[|q.body| - 1];
      assert q.body == front + [last];
      assert Text(q) == head + [44] + front + [last];
      FollowsByte(InName(d, hs, []), 44);
      FollowsConcat(InLength([]), head, InName(d, hs, []), [44], InBody(d, hs, []));
      FollowsBody(d, hs, [], front);
      assert [] + front == front;
      FollowsConcat(InLength([]), head + [44], InBody(d, hs, []), front, InBody(d, hs, front));
      m' := FollowsQuiet(m, InLength([]), head + [44] + front, InBody(d, hs, front));
      FinalByteIsGood(m', q);
    }
  }

  lemma CommaIsGood(m: Machine, q: Request)
    requires WellFormed(q) && q.body == [] && Registers(m, InName(q.digits, q.headers, []))
    ensures Consume(m, 44).1 == Good && Holds(Consume(m, 44).0, q)
    ensures m.phase == HeaderStart && m.name == [] && m.count == m.length == |Block(q.headers)|
  {
    hide SizeOf, Block, HeadersOk, ContentLength, DocOf;
  }

  lemma FinalByteIsGood(m: Machine, q: Request)
    requires WellFormed(q) && q.body != []
    requires var p := InBody(q.digits, q.headers, q.body[..|q.body| - 1]); Possible(p) && Registers(m, p)
    ensures Consume(m, q.body[|q.body| - 1]).1 == Good && Holds(Consume(m, q.body[|q.body| - 1]).0, q)
    ensures m.phase == BodyRange
  {
    hide SizeOf, Block, HeadersOk, ContentLength, DocOf, Consume;
    var front, last := q.body[..|q.body| - 1], q.body[|q.body| - 1];
    assert q.body == front + [last];
    ConsumeInBody(m, InBody(q.digits, q.headers, front), last);
  }

  /** Completeness: no verdict on any proper prefix of a well-formed request, and good at its last byte. */
  lemma RequestIsGood(length: nat, count: nat, q: Request)
    requires WellFormed(q)
    ensures forall k :: 0 < k < |Text(q)| ==> Parse(Fresh(length, count), Text(q)[..k]).1 == Indeterminate
    ensures Parse(Fresh(length, count), Text(q)).1 == Good && Holds(Parse(Fresh(length, count), Text(q)).0, q)
  {
    hide Consume, Parse, Quiet, Registers, WellFormed, Holds;
    var m, s := Fresh(length, count), Text(q);
    FreshRegisters(length, count);
    var m', last := QuietHead(q, m);
    var front := s[..|s| - 1];
    QuietParse(m, front, m', last);
    assert front + [last] == s;
    forall k | 0 < k < |s| ensures Parse(m, s[..k]).1 == Indeterminate {
      QuietPrefix(m, front, m', k);
      assert front[..k] == s[..k];
    }
  }

  ghost predicate IsRequest(s: seq<byte>) {
    exists q :: WellFormed(q) && Text(q) == s
  }

  /** The parser recognises exactly the well-formed requests, on any input its 64-bit counter can count. */
  lemma GoodExactlyOnRequests(length: nat, count: nat, s: seq<byte>)
    requires |s| <= TWO_64
    ensures FirstGood(Fresh(length, count), s) <==> IsRequest(s)
  {
    hide Parse, Fresh, Acceptable, Block;
    if FirstGood(Fresh(length, count), s) {
      var q := GoodIsRequest(length, count, s);
      assert WellFormed(q);
    }
    if q :| WellFormed(q) && Text(q) == s {
      RequestIsGood(length, count, q);
    }
  }

  // --- Serialising and reading back ----------------------------------------------------------------

  /** The headers a client sends: the two mandatory ones, then any others. */
  function ClientHeaders(others: seq<Header>, body: seq<byte>): seq<Header> {
    [Header(CONTENT_LENGTH, Numeral(10, |body|)), Header(SCGI, [49])] + others
  }

  function Serialize(others: seq<Header>, body: seq<byte>): Request {
    var hs := ClientHeaders(others, body);
    Request(Numeral(10, |Block(hs)|), hs, body)
  }

  lemma SizeRoundTrip(n: nat)
    requires n < TWO_64
    ensures AllDigits(Numeral(10, n)) && SizeOf(Numeral(10, n)) == Some(n)
  {
    DecimalRoundTrip(n);
    hide DecimalValue, Numeral;
  }

  /** What a client serialises is read back to the same headers and body, exactly at its last byte. */
  lemma SerializeRoundTrip(length: nat, count: nat, others: seq<Header>, body: seq<byte>)
    requires forall i :: 0 <= i < |others| ==>
               others[i].name != [] && PlainName(others[i].name) && NulFree(others[i].value)
    requires |body| < TWO_64 && |Block(ClientHeaders(others, body))| < TWO_64
    ensures var q := Serialize(others, body);
            var s := Text(q);
            && (forall k :: 0 < k < |s| ==> Parse(Fresh(length, count), s[..k]).1 == Indeterminate)
            && Parse(Fresh(length, count), s).1 == Good
            && Parse(Fresh(length, count), s).0.doc == DocOf(ClientHeaders(others, body))
            && Parse(Fresh(length, count), s).0.body == body
  {
    hide Parse, SizeOf, HeadersOk, Block, DocOf, Numeral, ClientHeaders, ContentLength, Text, PlainName, NulFree;
    ClientHeadersOk(others, body);
    SizeRoundTrip(|Block(ClientHeaders(others, body))|);
    RequestIsGood(length, count, Serialize(others, body));
  }

  /** The block a client sends, its two mandatory headers byte by byte. */
  function ClientBlock(others: seq<Header>, body: seq<byte>): seq<byte> {
    [67, 79, 78, 84, 69, 78, 84, 95, 76, 69, 78, 71, 84, 72, 0] + Numeral(10, |body|) + [0]
    + [83, 67, 71, 73, 0, 49, 0] + Block(others)
  }

  function ClientBytes(others: seq<Header>, body: seq<byte>): seq<byte> {
    var block := ClientBlock(others, body);
    Numeral(10, |block|) + [58] + block + [44] + body
  }

  lemma {:induction false} BlockConcat(a: seq<Header>, b: seq<Header>)
    ensures Block(a + b) == Block(a) + Block(b)
  {
    hide Line;
    if b == [] {
      assert a + b == a;
    } else {
      assert (a + b)[..|a + b| - 1] == a + b[..|b| - 1];
      BlockConcat(a, b[..|b| - 1]);
      assert Block(a) + (Block(b[..|b| - 1]) + Line(b[|b| - 1]))
          == Block(a) + Block(b[..|b| - 1]) + Line(b[|b| - 1]);
    }
  }

  lemma MandatoryNames()
    ensures CONTENT_LENGTH == [67, 79, 78, 84, 69, 78, 84, 95, 76, 69, 78, 71, 84, 72]
    ensures SCGI == [83, 67, 71, 73]
  {
  }

  lemma BlockOfTwo(h1: Header, h2: Header, others: seq<Header>)
    ensures Block([h1, h2] + others) == Line(h1) + Line(h2) + Block(others)
  {
    hide Line;
    BlockConcat([h1, h2], others);
    BlockSnoc([h1], h2);
    BlockSnoc([], h1);
    assert [h1] + [h2] == [h1, h2] && [] + [h1] == [h1] && Block([]) + Line(h1) == Line(h1);
  }

  lemma ClientBlockIs(others: seq<Header>, body: seq<byte>)
    ensures Block(ClientHeaders(others, body)) == ClientBlock(others, body)
  {
    hide Numeral, Ascii, Line, Block;
    BlockOfTwo(Header(CONTENT_LENGTH, Numeral(10, |body|)), Header(SCGI, [49]), others);
    FirstLine(Numeral(10, |body|));
    SecondLine();
  }

  lemma FirstLine(size: seq<byte>)
    ensures Line(Header(CONTENT_LENGTH, size))
         == [67, 79, 78, 84, 69, 78, 84, 95, 76, 69, 78, 71, 84, 72, 0] + size + [0]
  {
    MandatoryNames();
  }

  lemma SecondLine()
    ensures Line(Header(SCGI, [49])) == [83, 67, 71, 73, 0, 49, 0]
  {
    MandatoryNames();
  }

  /**
   * The bytes of a client's request, the mandatory names spelt out, have no verdict up to the last one, and
   * then the parser holds all headers, and the body.
   */
  lemma ClientIsUnderstood(length: nat, count: nat, others: seq<Header>, body: seq<byte>)
    requires forall i :: 0 <= i < |others| ==>
               others[i].name != [] && PlainName(others[i].name) && NulFree(others[i].value)
    requires |body| < TWO_64 && |ClientBlock(others, body)| < TWO_64
    ensures var s := ClientBytes(others, body);
            && s != []
            && (forall k :: 0 < k < |s| ==> Parse(Fresh(length, count), s[..k]).1 == Indeterminate)
            && Parse(Fresh(length, count), s).1 == Good
            && Parse(Fresh(length, count), s).0.doc == DocOf(ClientHeaders(others, body))
            && Parse(Fresh(length, count), s).0.body == body
  {
    hide Parse, Block, DocOf, Numeral, ClientBlock, ClientHeaders, PlainName, NulFree;
    ClientBlockIs(others, body);
    SerializeRoundTrip(length, count, others, body);
    assert Text(Serialize(others, body)) == ClientBytes(others, body);
  }

  lemma ClientHeadersOk(others: seq<Header>, body: seq<byte>)
    requires forall i :: 0 <= i < |others| ==>
               others[i].name != [] && PlainName(others[i].name) && NulFree(others[i].value)
    requires |body| < TWO_64
    ensures HeadersOk(ClientHeaders(others, body)) && ContentLength(ClientHeaders(others, body)) == |body|
  {
    hide Numeral, SizeOf, AllDigits;
    SizeRoundTrip(|body|);
    DigitsNulFree(Numeral(10, |body|));
    var hs := ClientHeaders(others, body);
    assert hs[0] == Header(CONTENT_LENGTH, Numeral(10, |body|)) && hs[1] == Header(SCGI, [49]);
    assert forall i :: 2 <= i < |hs| ==> hs[i] == others[i - 2];
  }

  /** A plus sign changes nothing; with a minus sign the size is the two's complement. */
  lemma SignedSize(n: nat)
    requires n < TWO_64
    ensures SizeOf([43] + Numeral(10, n)) == Some(n)
    ensures SizeOf([45] + Numeral(10, n)) == Some(if n == 0 then 0 else TWO_64 - n)
  {
    DecimalRoundTrip(n);
    hide DecimalValue, Numeral;
    assert ([43] + Numeral(10, n))[1..] == Numeral(10, n);
    assert ([45] + Numeral(10, n))[1..] == Numeral(10, n);
  }

  lemma DigitsNulFree(s: seq<byte>)
    requires AllDigits(s)
    ensures NulFree(s)
  {
  }

  predicate LastNamed(hs: seq<Header>, k: seq<byte>, i: nat) {
    i < |hs| && hs[i].name == k && forall j :: i < j < |hs| ==> hs[j].name != k
  }

  /** The header map holds exactly the names that were sent, each with the value sent last. */
  lemma {:induction false} LastValueWins(hs: seq<Header>, k: seq<byte>)
    ensures k in DocOf(hs).headers <==> exists i: nat :: LastNamed(hs, k, i)
    ensures forall i: nat :: LastNamed(hs, k, i) ==> DocOf(hs).headers[k] == hs[i].value
  {
    hide Store;
    if hs != [] {
      var front, h := hs[..|hs| - 1], hs[|hs| - 1];
      StoreHeaders(DocOf(front), h.name, h.value);
      LastValueWins(front, k);
      if h.name == k {
        assert LastNamed(hs, k, |front|);
      } else {
        assert forall i: nat :: i < |front| ==> (LastNamed(hs, k, i) <==> LastNamed(front, k, i));
      }
    }
  }

  /** The parser's own fields agree with the map. */
  ghost predicate Agrees(d: Document) {
    && (Ascii("REQUEST_URI") in d.headers ==> d.uri == d.headers[Ascii("REQUEST_URI")])
    && (Ascii("CONTENT_TYPE") in d.headers ==>
          var parts := Tokens(d.headers[Ascii("CONTENT_TYPE")]);
          d.contentType == parts[0] && (|parts| > 1 ==> d.encoding == parts[1]))
    && (Ascii("REQUEST_METHOD") in d.headers ==>
          var name := d.headers[Ascii("REQUEST_METHOD")];
          && (name == Ascii("GET") ==> d.verb == Get)
          && (name == Ascii("PUT") ==> d.verb == Put)
          && (name == Ascii("POST") ==> d.verb == Post))
  }

  lemma NamesDiffer()
    ensures Ascii("REQUEST_URI") != Ascii("CONTENT_TYPE")
    ensures Ascii("REQUEST_METHOD") != Ascii("REQUEST_URI")
    ensures Ascii("REQUEST_METHOD") != Ascii("CONTENT_TYPE")
    ensures Ascii("GET") != Ascii("PUT") && Ascii("GET") != Ascii("POST") && Ascii("PUT") != Ascii("POST")
  {
    assert Ascii("GET")[0] == 71 && Ascii("PUT")[0] == 80;
  }

  lemma {:induction false} FieldsAgree(hs: seq<Header>)
    ensures Agrees(DocOf(hs))
  {
    hide Tokens, Ascii;
    NamesDiffer();
    if hs != [] {
      FieldsAgree(hs[..|hs| - 1]);
    }
  }

  predicate LastWith(hs: seq<Header>, p: Header -> bool, i: nat) {
    i < |hs| && p(hs[i]) && forall j :: i < j < |hs| ==> !p(hs[j])
  }

  /** `r` is what `of` takes from the last header with property `p`, or `none` if there is no such header. */
  ghost predicate Latest<T>(hs: seq<Header>, p: Header -> bool, r: T, of: Header -> T, none: T) {
    && (forall i: nat :: LastWith(hs, p, i) ==> r == of(hs[i]))
    && ((forall i :: 0 <= i < |hs| ==> !p(hs[i])) ==> r == none)
  }

  lemma LatestSnoc<T>(hs: seq<Header>, h: Header, p: Header -> bool, r: T, of: Header -> T, none: T)
    requires Latest(hs, p, r, of, none)
    ensures Latest(hs + [h], p, if p(h) then of(h) else r, of, none)
  {
    var more := hs + [h];
    assert more[|hs|] == h;
    assert forall i :: 0 <= i < |hs| ==> more[i] == hs[i];
    if !p(h) {
      forall i: nat | i < |hs| && LastWith(more, p, i) ensures LastWith(hs, p, i) {
        assert forall j :: i < j < |hs| ==> !p(more[j]);
      }
    }
  }

  predicate NamesMethod(h: Header) {
    && h.name == Ascii("REQUEST_METHOD")
    && (h.value == Ascii("GET") || h.value == Ascii("PUT") || h.value == Ascii("POST"))
  }

  function MethodNamed(h: Header): Method {
    if h.value == Ascii("GET") then Get else if h.value == Ascii("PUT") then Put else Post
  }

  predicate NamesUri(h: Header) {
    h.name == Ascii("REQUEST_URI")
  }

  predicate NamesType(h: Header) {
    h.name == Ascii("CONTENT_TYPE")
  }

  predicate NamesEncoding(h: Header) {
    NamesType(h) && |Tokens(h.value)| > 1
  }

  function UriNamed(h: Header): seq<byte> {
    h.value
  }

  function TypeNamed(h: Header): seq<byte> {
    Tokens(h.value)[0]
  }

  function EncodingNamed(h: Header): seq<byte> {
    if |Tokens(h.value)| > 1 then Tokens(h.value)[1] else []
  }

  lemma StoreFields(d: Document, h: Header)
    ensures var e := Store(d, h.name, h.value);
            && e.verb == (if NamesMethod(h) then MethodNamed(h) else d.verb)
            && e.uri == (if NamesUri(h) then UriNamed(h) else d.uri)
            && e.contentType == (if NamesType(h) then TypeNamed(h) else d.contentType)
            && e.encoding == (if NamesEncoding(h) then EncodingNamed(h) else d.encoding)
  {
    hide Tokens, Ascii;
    NamesDiffer();
  }

  /**
   * Each field is what the last header that sets it says: the method is the last of the three known ones,
   * the encoding that of the last content type with a parameter. Without such a header the field is what a
   * fresh parser holds.
   */
  lemma {:induction false} FieldsAreLatest(hs: seq<Header>)
    ensures Latest(hs, NamesMethod, DocOf(hs).verb, MethodNamed, Undefined)
    ensures Latest(hs, NamesUri, DocOf(hs).uri, UriNamed, [])
    ensures Latest(hs, NamesType, DocOf(hs).contentType, TypeNamed, [])
    ensures Latest(hs, NamesEncoding, DocOf(hs).encoding, EncodingNamed, [])
  {
    hide Latest, Tokens, Ascii, Store, NamesMethod, NamesUri, NamesType, NamesEncoding;
    hide MethodNamed, UriNamed, TypeNamed, EncodingNamed;
    if hs == [] {
      LatestOfNone(NamesMethod, MethodNamed, Undefined);
      LatestOfNone(NamesUri, UriNamed, []);
      LatestOfNone(NamesType, TypeNamed, []);
      LatestOfNone(NamesEncoding, EncodingNamed, []);
    } else {
      var front, h := hs[..|hs| - 1], hs[|hs| - 1];
      FieldsAreLatest(front);
      var d := DocOf(front);
      StoreFields(d, h);
      assert hs == front + [h];
      LatestSnoc(front, h, NamesMethod, d.verb, MethodNamed, Undefined);
      LatestSnoc(front, h, NamesUri, d.uri, UriNamed, []);
      LatestSnoc(front, h, NamesType, d.contentType, TypeNamed, []);
      LatestSnoc(front, h, NamesEncoding, d.encoding, EncodingNamed, []);
    }
  }

  lemma LatestOfNone<T>(p: Header -> bool, of: Header -> T, none: T)
    ensures Latest([], p, none, of, none)
  {
  }

  /** Semicolons, spaces and tabs separate, in runs of any length. */
  predicate Separated(a: seq<byte>) {
    forall i :: 0 <= i < |a| ==> a[i] == 59 || a[i] == 32 || a[i] == 9
  }

  predicate Word(a: seq<byte>) {
    forall i :: 0 <= i < |a| ==> a[i] != 59 && a[i] != 32 && a[i] != 9
  }

  /** A text without separators is one token, and behind a first word and separators the rest is split. */
  lemma {:induction false} TokensAre(a: seq<byte>, separators: seq<byte>, rest: seq<byte>)
    requires Word(a) && Separated(separators) && (rest != [] ==> Word(rest[..1]))
    ensures Tokens(a) == [a]
    ensures separators != [] ==> Tokens(a + separators + rest) == [a] + Tokens(rest)
  {
    TokenLengthIs(a, |a|);
    if separators != [] {
      var s := a + separators + rest;
      assert s[|a|] == separators[0] && s[..|a|] == a;
      TokenLengthIs(s, |a|);
      assert s[|a| + 1..] == separators[1..] + rest;
      assert rest != [] ==> rest[..1][0] == rest[0];
      SkipAll(separators[1..], rest);
    }
  }

  /** "type; parameter": the first two tokens are what stands before and after the separators. */
  lemma TokensOfTwo(a: seq<byte>, separators: seq<byte>, b: seq<byte>)
    requires Word(a) && separators != [] && Separated(separators) && Word(b)
    ensures Tokens(a + separators + b) == [a, b]
  {
    TokensAre(a, separators, b);
    TokensAre(b, [], []);
  }

  lemma {:induction false} TokenLengthIs(s: seq<byte>, n: nat)
    requires n <= |s| && (n < |s| ==> IsSeparator(s[n]))
    requires forall i :: 0 <= i < n ==> !IsSeparator(s[i])
    ensures TokenLength(s) == n
    decreases n
  {
    if n > 0 {
      assert !IsSeparator(s[0]);
      TokenLengthIs(s[1..], n - 1);
    }
  }

  lemma {:induction false} SkipAll(separators: seq<byte>, b: seq<byte>)
    requires forall i :: 0 <= i < |separators| ==> IsSeparator(separators[i])
    requires b != [] ==> !IsSeparator(b[0])
    ensures SkipSeparators(separators + b) == b
  {
    if separators == [] {
      assert separators + b == b;
    } else {
      assert (separators + b)[1..] == separators[1..] + b;
      SkipAll(separators[1..], b);
    }
  }

  // --- Reads of any size -------------------------------------------------------------------------

  function Flat(chunks: seq<seq<byte>>): seq<byte> {
    if chunks == [] then [] else chunks[0] + Flat(chunks[1..])
  }

  predicate NonEmptyChunks(chunks: seq<seq<byte>>) {
    chunks != [] && forall i :: 0 <= i < |chunks| ==> chunks[i] != []
  }

  /** Feeding the chunks one after the other, up to the first that is bad. */
  function ParseChunks(m: Machine, chunks: seq<seq<byte>>): (Machine, Result)
    requires NonEmptyChunks(chunks)
    decreases |chunks|
  {
    var step := Parse(m, chunks[0]);
    if step.1 == Bad || |chunks| == 1 then step else ParseChunks(step.0, chunks[1..])
  }

  lemma {:induction false} ParseConcat(m: Machine, a: seq<byte>, b: seq<byte>)
    requires a != [] && b != []
    ensures Parse(m, a + b) == if Parse(m, a).1 == Bad then Parse(m, a) else Parse(Parse(m, a).0, b)
    decreases |a|
  {
    hide Consume;
    if |a| == 1 {
      assert (a + b)[1..] == b;
    } else {
      assert (a + b)[1..] == a[1..] + b;
      if Consume(m, a[0]).1 != Bad {
        ParseConcat(Consume(m, a[0]).0, a[1..], b);
      }
    }
  }

  /** However a stream is split into reads, the parser ends in the same state with the same result. */
  lemma {:induction false} ChunksDoNotMatter(m: Machine, chunks: seq<seq<byte>>)
    requires NonEmptyChunks(chunks)
    ensures Flat(chunks) != [] && ParseChunks(m, chunks) == Parse(m, Flat(chunks))
    decreases |chunks|
  {
    hide Consume, Parse;
    if |chunks| == 1 {
      assert Flat(chunks[1..]) == [];
      assert Flat(chunks) == chunks[0];
    } else {
      ChunksDoNotMatter(Parse(m, chunks[0]).0, chunks[1..]);
      ParseConcat(m, chunks[0], Flat(chunks[1..]));
    }
  }

  /** The read handler: it reads on only as long as there is no verdict. */
  function Reads(m: Machine, chunks: seq<seq<byte>>): (Machine, Result)
    requires NonEmptyChunks(chunks)
    decreases |chunks|
  {
    var step := Parse(m, chunks[0]);
    if step.1 != Indeterminate || |chunks| == 1 then step else Reads(step.0, chunks[1..])
  }

  ghost predicate UndecidedBefore(m: Machine, s: seq<byte>) {
    forall k :: 0 < k < |s| ==> Parse(m, s[..k]).1 == Indeterminate
  }

  lemma {:induction false} ReadsAll(m: Machine, chunks: seq<seq<byte>>)
    requires NonEmptyChunks(chunks) && UndecidedBefore(m, Flat(chunks))
    ensures Flat(chunks) != [] && Reads(m, chunks) == Parse(m, Flat(chunks))
    decreases |chunks|
  {
    hide Consume, Parse;
    var first, rest := chunks[0], Flat(chunks[1..]);
    if |chunks| == 1 {
      assert rest == [] && Flat(chunks) == first;
    } else {
      assert NonEmptyChunks(chunks[1..]) && rest == chunks[1] + Flat(chunks[1..][1..]);
      var m1 := Parse(m, first).0;
      assert Flat(chunks)[..|first|] == first;
      forall k | 0 < k < |rest| ensures Parse(m1, rest[..k]).1 == Indeterminate {
        assert Flat(chunks)[..|first| + k] == first + rest[..k];
        ParseConcat(m, first, rest[..k]);
      }
      ReadsAll(m1, chunks[1..]);
      ParseConcat(m, first, rest);
    }
  }

  /** A well-formed request is accepted by the read handler, however the network cuts it into reads. */
  lemma RequestIsRead(length: nat, count: nat, q: Request, chunks: seq<seq<byte>>)
    requires WellFormed(q) && NonEmptyChunks(chunks) && Flat(chunks) == Text(q)
    ensures Reads(Fresh(length, count), chunks).1 == Good && Holds(Reads(Fresh(length, count), chunks).0, q)
  {
    hide Parse, Reads, WellFormed, Text, Holds, Flat;
    RequestIsGood(length, count, q);
    ReadsAll(Fresh(length, count), chunks);
  }

  /**
   * After a request: with a body, one byte too many is taken into it and the verdict is lost; without,
   * the next byte is bad.
   */
  lemma TrailingByte(length: nat, count: nat, q: Request, c: byte)
    requires WellFormed(q) && |Text(q)| < TWO_64
    ensures Parse(Fresh(length, count), Text(q) + [c]).1 == if q.body == [] then Bad else Indeterminate
    ensures q.body != [] ==> Parse(Fresh(length, count), Text(q) + [c]).0.body == q.body + [c]
  {
    hide Consume, Parse, Quiet, Registers, WellFormed, Holds, Text;
    var m, s := Fresh(length, count), Text(q);
    FreshRegisters(length, count);
    var m', last := QuietHead(q, m);
    TextLength(q);
    var front := s[..|s| - 1];
    QuietParse(m, front, m', last);
    assert front + [last] == s;
    ParseConcat(m, s, [c]);
    AfterLast(q, m', last, c);
    ParseOne(Parse(m, s).0, c);
  }

  lemma TextLength(q: Request)
    requires WellFormed(q)
    ensures |Text(q)| >= |Block(q.headers)| + 2
  {
  }

  lemma ParseOne(m: Machine, c: byte)
    ensures Parse(m, [c]) == Consume(m, c)
  {
  }

  lemma AfterLast(q: Request, m: Machine, last: byte, c: byte)
    requires Consume(m, last).1 == Good && Holds(Consume(m, last).0, q)
    requires q.body != [] ==> m.phase == BodyRange
    requires q.body == [] ==> m.phase == HeaderStart && m.name == [] && m.count == m.length < TWO_64 - 2
    ensures Consume(Consume(m, last).0, c).1 == if q.body == [] then Bad else Indeterminate
    ensures q.body != [] ==> Consume(Consume(m, last).0, c).0.body == q.body + [c]
  {
    hide DocOf;
  }

  /** A second byte behind a body is bad. */
  lemma SecondTrailingByte(m: Machine, q: Request, last: byte, c: byte, d: byte)
    requires Consume(m, last).1 == Good && Holds(Consume(m, last).0, q)
    requires q.body != [] && m.phase == BodyRange
    ensures Consume(Consume(Consume(m, last).0, c).0, d).1 == Bad
  {
    hide DocOf;
  }

  /** Whatever follows a request takes the good verdict away again. */
  lemma NothingMayFollow(length: nat, count: nat, q: Request, t: seq<byte>)
    requires WellFormed(q) && |Text(q)| < TWO_64
    ensures Text(q) + t != []
    ensures Parse(Fresh(length, count), Text(q) + t).1 == Good <==> t == []
  {
    hide Consume, Parse, Quiet, Registers, WellFormed, Holds, Text;
    var m, s := Fresh(length, count), Text(q);
    TextLength(q);
    RequestIsGood(length, count, q);
    if t == [] {
      assert s + t == s;
    } else {
      FreshRegisters(length, count);
      var m', last := QuietHead(q, m);
      var front := s[..|s| - 1];
      QuietParse(m, front, m', last);
      assert front + [last] == s;
      ParseConcat(m, s, t);
      AfterLast(q, m', last, t[0]);
      ParseOne(Parse(m, s).0, t[0]);
      assert t == [t[0]] + t[1..];
      if |t| > 1 {
        ParseConcat(Parse(m, s).0, [t[0]], t[1..]);
        if q.body != [] {
          SecondTrailingByte(m', q, last, t[0], t[1]);
          BadStops(Consume(Parse(m, s).0, t[0]).0, t[1..]);
        }
      } else {
        assert t == [t[0]];
      }
    }
  }

  lemma BadStops(m: Machine, s: seq<byte>)
    requires s != [] && Consume(m, s[0]).1 == Bad
    ensures Parse(m, s).1 == Bad
  {
  }

  /** A request without any header: the three bytes `0:,` are accepted. */
  lemma NoHeaderIsAccepted(length: nat, count: nat)
    ensures Parse(Fresh(length, count), [48, 58, 44]).1 == Good
    ensures Parse(Fresh(length, count), [48, 58, 44]).0.doc == NO_DOC
  {
    var q := Request([48], [], []);
    assert AllDigits(q.digits) && q.digits[..0] == [] && DecimalValue(q.digits) == 0;
    assert WellFormed(q);
    assert Text(q) == [48, 58, 44];
    hide Parse, Text;
    RequestIsGood(length, count, q);
  }

  /** The phase for header names is never entered: names are read in the phase that starts a header. */
  lemma {:induction false} NeverInHeaderName(m: Machine, s: seq<byte>)
    requires m.phase != HeaderName && s != []
    ensures Parse(m, s).0.phase != HeaderName
    decreases |s|
  {
    NeverEntersHeaderName(m, s[0]);
    hide Consume;
    if Consume(m, s[0]).1 != Bad && |s| > 1 {
      NeverInHeaderName(Consume(m, s[0]).0, s[1..]);
    }
  }

  lemma NeverEntersHeaderName(m: Machine, c: byte)
    requires m.phase != HeaderName
    ensures Consume(m, c).0.phase != HeaderName
  {
    hide Store, SizeOf;
  }
}
