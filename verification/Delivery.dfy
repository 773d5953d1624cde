/**
 * What a receiver of published lines gets: which lines are printed in hexadecimal, and which values can be
 * read back from the stream.
 */
module Delivery {
  import opened Bytes
  import opened Numerals
  import opened Escapes
  import opened RealText
  import opened Values
  import opened Encoder
  import opened UpdateQueue
  import opened PublisherSpec
  import opened ScannerSpec
  import opened Grammar
  import opened Pipeline

  // --- Which lines are printed in hexadecimal --------------------------------------------------------

  /** Whether the value holds a string that needs a hexadecimal escape. */
  predicate HoldsHex(v: Value) {
    match v
    case Single(x) => x.String? && AnyHex(x.s)
    case Sequence(xs) => exists i :: 0 <= i < |xs| && xs[i].String? && AnyHex(xs[i].s)
    case Tuple(xs) => exists i :: 0 <= i < |xs| && xs[i].String? && AnyHex(xs[i].s)
  }

  lemma {:induction false} HexAfterAllIs(xs: seq<Scalar>, hex: bool)
    ensures HexAfterAll(xs, hex) <==> hex || exists i :: 0 <= i < |xs| && xs[i].String? && AnyHex(xs[i].s)
  {
    hide AnyHex;
    if xs != [] {
      HexAfterAllIs(xs[1..], HexAfter(xs[0], hex));
      assert forall i :: 0 <= i < |xs[1..]| ==> xs[1..][i] == xs[i + 1];
      if i :| 0 <= i < |xs| && xs[i].String? && AnyHex(xs[i].s) {
        assert i > 0 ==> xs[1..][i - 1] == xs[i];
      }
    }
  }

  lemma HexAfterValueIs(v: Value, hex: bool)
    ensures HexAfterValue(v, hex) <==> hex || HoldsHex(v)
  {
    hide AnyHex, HexAfterAll;
    match v
    case Single(x) =>
    case Sequence(xs) => HexAfterAllIs(xs, hex);
    case Tuple(xs) => HexAfterAllIs(xs, hex);
  }

  /** Whether the flag is set when the `i`-th update of a queue is printed. */
  predicate HexBefore(q: seq<Update>, i: nat, hex: bool)
    requires i <= |q|
  {
    hex || exists j :: 0 <= j < i && HoldsHex(q[j].value)
  }

  lemma HexBeforeTail(q: seq<Update>, i: nat, hex: bool)
    requires i < |q|
    ensures HexBefore(q[1..], i, hex || HoldsHex(q[0].value)) == HexBefore(q, i + 1, hex)
  {
    hide HoldsHex;
    if j :| 0 <= j < i && HoldsHex(q[1..][j].value) {
      assert q[j + 1] == q[1..][j];
    }
    if j :| 0 < j < i + 1 && HoldsHex(q[j].value) {
      assert q[1..][j - 1] == q[j];
    }
  }

  /** `added` are the first updates of the queue, each with the flag that those before it leave. */
  predicate Flagged(added: seq<Line>, q: seq<Update>, hex: bool) {
    |added| <= |q| && forall i :: 0 <= i < |added| ==> added[i] == Published(q[i], HexBefore(q, i, hex))
  }

  lemma FlaggedCons(q: seq<Update>, hex: bool, added: seq<Line>)
    requires q != [] && Flagged(added, q[1..], hex || HoldsHex(q[0].value))
    ensures Flagged([Published(q[0], hex)] + added, q, hex)
  {
    hide HoldsHex, HexBefore;
    var all := [Published(q[0], hex)] + added;
    HexBeforeNothing(q, hex);
    forall i | 0 <= i < |all| ensures all[i] == Published(q[i], HexBefore(q, i, hex)) {
      if i > 0 {
        HexBeforeTail(q, i - 1, hex);
        assert all[i] == added[i - 1] && q[1..][i - 1] == q[i];
      }
    }
  }

  lemma HexBeforeNothing(q: seq<Update>, hex: bool)
    ensures HexBefore(q, 0, hex) == hex
  {
  }

  /**
   * A filling of the buffer publishes the first updates of the queue, and a line is printed in hexadecimal
   * exactly if the value of an earlier one holds a string that needs a hexadecimal escape.
   */
  lemma {:induction false} DrainFlags(c: Config, s: PublisherSpec.State, hex: bool) returns (added: seq<Line>)
    ensures Drain(c, s, hex).lines == s.lines + added && Flagged(added, s.queue, hex)
    ensures Drain(c, s, hex).queue == s.queue[|added|..]
    decreases |s.queue|
  {
    hide HoldsHex, HexBefore, HexAfterValue, LineText;
    if s.queue == [] || |s.outbuf| >= c.size {
      added := [];
      assert s.lines + added == s.lines && s.queue[0..] == s.queue;
    } else {
      var line := Published(s.queue[0], hex);
      var rest := DrainFlags(c, Emit(c, s, hex), HexAfterValue(s.queue[0].value, hex));
      HexAfterValueIs(s.queue[0].value, hex);
      FlaggedCons(s.queue, hex, rest);
      added := [line] + rest;
      assert s.lines + [line] + rest == s.lines + added;
      assert s.queue[1..][|rest|..] == s.queue[|added|..];
    }
  }

  /** The bytes of the first `n` lines of a filling. */
  function FillingSize(c: Config, q: seq<Update>, n: nat, hex: bool): nat
    requires n <= |q|
  {
    if n == 0 then 0
    else |UpdateText(c, q[0], hex)| + FillingSize(c, q[1..], n - 1, HexAfterValue(q[0].value, hex))
  }

  /**
   * A filling goes on as long as there is something queued and the buffer holds less than the socket's
   * buffer size, and not longer: it is full, or the queue empty, at its end and not before.
   */
  lemma {:induction false} DrainStopsWhenFull(c: Config, s: PublisherSpec.State, hex: bool)
    ensures var t := Drain(c, s, hex);
            var n := |s.queue| - |t.queue|;
            && 0 <= n <= |s.queue| && |t.outbuf| == |s.outbuf| + FillingSize(c, s.queue, n, hex)
            && (n < |s.queue| ==> |t.outbuf| >= c.size)
            && forall k :: 0 <= k < n ==> |s.outbuf| + FillingSize(c, s.queue, k, hex) < c.size
    decreases |s.queue|
  {
    hide HexAfterValue, UpdateText;
    if s.queue != [] && |s.outbuf| < c.size {
      var s1, hex1 := Emit(c, s, hex), HexAfterValue(s.queue[0].value, hex);
      DrainStopsWhenFull(c, s1, hex1);
      var n := |s.queue| - |Drain(c, s, hex).queue|;
      forall k | 0 <= k < n ensures |s.outbuf| + FillingSize(c, s.queue, k, hex) < c.size {
        if k > 0 {
          assert |s1.outbuf| + FillingSize(c, s1.queue, k - 1, hex1) < c.size;
        }
      }
    }
  }

  /** The state in which the handler of an event starts to fill the buffer. */
  function Filling(c: Config, s: PublisherSpec.State, e: Event): PublisherSpec.State {
    match e
    case Notify(uri, value, now) => s.(queue := Push(s.queue, Update(Cut(c.root, uri), value, now)))
    case Complain(text) => s.(outbuf := s.outbuf + text, lines := s.lines + [Complaint(text)])
    case Written => if s.inflight == [] then s else Consume(s).(writing := false)
  }

  /** What one handler adds to the lines: a complaint, perhaps, and one filling. */
  lemma StepFlags(c: Config, s: PublisherSpec.State, e: Event) returns (added: seq<Line>)
    ensures Step(c, s, e).lines == Filling(c, s, e).lines + added
    ensures Flagged(added, Filling(c, s, e).queue, false)
    ensures s.lines <= Filling(c, s, e).lines
    ensures forall i :: |s.lines| <= i < |Filling(c, s, e).lines| ==> Filling(c, s, e).lines[i].Complaint?
  {
    hide Drain, Push, Flagged;
    var f := Filling(c, s, e);
    NothingFlagged(f.queue);
    added := [];
    assert f.lines + [] == f.lines;
    if !f.writing && !(e.Written? && s.inflight == []) {
      added := DrainFlags(c, f, false);
    }
  }

  lemma NothingFlagged(q: seq<Update>)
    ensures Flagged([], q, false)
  {
  }

  /** The line at `i` is the `j`-th of a filling from the queue `q`, whose lines stand before it. */
  ghost predicate InFilling(lines: seq<Line>, i: nat, q: seq<Update>, j: nat) {
    && j <= i < |lines| && j < |q|
    && forall l :: 0 <= l <= j ==> lines[i - j + l] == Published(q[l], HexBefore(q, l, false))
  }

  /**
   * Over every run: each published line belongs to the filling of one handler, which begins at `i - j`, and
   * it is printed in hexadecimal exactly if an earlier line of that filling published a string with a
   * hexadecimal escape.
   */
  lemma {:induction false} RunFlags(c: Config, es: seq<Event>, i: nat) returns (k: nat, j: nat)
    requires i < |Run(c, es).lines| && Run(c, es).lines[i].Published?
    ensures k < |es| && InFilling(Run(c, es).lines, i, Filling(c, Run(c, es[..k]), es[k]).queue, j)
    ensures i - j == |Filling(c, Run(c, es[..k]), es[k]).lines| && i < |Run(c, es[..k + 1]).lines|
  {
    hide Step, Filling, HexBefore;
    if es == [] {
      assert false;
    } else {
      var front, e := es[..|es| - 1], es[|es| - 1];
      var s := Run(c, front);
      var added := StepFlags(c, s, e);
      var lines, before := Run(c, es).lines, Filling(c, s, e).lines;
      if i < |s.lines| {
        k, j := RunFlags(c, front, i);
        assert front[..k] == es[..k] && front[..k + 1] == es[..k + 1];
        assert forall l :: 0 <= l <= i ==> lines[l] == s.lines[l];
      } else {
        assert i >= |before|;
        k, j := |front|, i - |before|;
        assert es[..k + 1] == es;
        assert forall l :: 0 <= l <= j ==> lines[i - j + l] == added[l];
      }
    }
  }

  /** A string with the byte 1 is printed as such, and 255 behind it in the same filling as `ff`. */
  lemma DrainOfTwo(c: Config, s: PublisherSpec.State, u1: Uri, u2: Uri, t1: int, t2: int)
    requires s.queue == [Update(u1, Single(String([1])), t1), Update(u2, Single(Integer(255)), t2)]
    requires s.outbuf == [] && |UpdateText(c, s.queue[0], false)| < c.size
    ensures Drain(c, s, false).lines == s.lines + [Published(s.queue[0], false), Published(s.queue[1], true)]
  {
    var s1 := Emit(c, s, false);
    assert NeedsHex(1) && [1 as byte][0] == 1 && AnyHex([1]);
    assert HexAfterValue(s.queue[0].value, false);
    hide UpdateText;
    var s2 := Emit(c, s1, true);
    assert Drain(c, s1, true) == s2;
  }

  lemma FirstLeaves(c: Config, uri: Uri, v: Value, now: int)
    requires c.size > 0
    ensures var u := Update(Cut(c.root, uri), v, now);
            var text := UpdateText(c, u, false);
            && text != []
            && PublisherSpec.Step(c, INITIAL, Notify(uri, v, now))
            == State([], text, true, [|text|], [], [Published(u, false)])
  {
    hide ValueText;
    var u := Update(Cut(c.root, uri), v, now);
    var s := INITIAL.(queue := [u]);
    assert Push([], u) == [u];
    assert Drain(c, Emit(c, s, false), HexAfterValue(v, false)) == Emit(c, s, false);
  }

  /** While a write is in flight, updates of two URIs queue up. */
  lemma OthersWait(c: Config, s: PublisherSpec.State, u1: Uri, v1: Value, t1: int, u2: Uri, v2: Value, t2: int)
    requires s.writing && s.queue == [] && Cut(c.root, u1) != Cut(c.root, u2)
    ensures PublisherSpec.Step(c, PublisherSpec.Step(c, s, Notify(u1, v1, t1)), Notify(u2, v2, t2))
         == s.(queue := [Update(Cut(c.root, u1), v1, t1), Update(Cut(c.root, u2), v2, t2)])
  {
    var a, b := Update(Cut(c.root, u1), v1, t1), Update(Cut(c.root, u2), v2, t2);
    assert [a][1..] == [] && Push([], a) == [a] && Push([], b) == [b];
    assert Push([a], b) == [a, b];
  }

  /**
   * A run in which it happens: while the first write is in flight, a string with the byte 1 and the integer
   * 255 are notified under different URIs. Once the write has completed, the integer leaves as `ff`.
   */
  lemma HexIsCarriedOver(c: Config, u0: Uri, v0: Value, t0: int, u1: Uri, t1: int, u2: Uri, t2: int)
    requires Cut(c.root, u1) != Cut(c.root, u2)
    requires |UpdateText(c, Update(Cut(c.root, u1), Single(String([1])), t1), false)| < c.size
    ensures var es := [Notify(u0, v0, t0), Notify(u1, Single(String([1])), t1), Notify(u2, Single(Integer(255)), t2),
                       Written];
            Run(c, es).lines == [Published(Update(Cut(c.root, u0), v0, t0), false),
                                 Published(Update(Cut(c.root, u1), Single(String([1])), t1), false),
                                 Published(Update(Cut(c.root, u2), Single(Integer(255)), t2), true)]
    ensures ValueText(c.lib, Single(Integer(255)), true) == [102, 102]
  {
    var e0, e1 := Notify(u0, v0, t0), Notify(u1, Single(String([1])), t1);
    var e2 := Notify(u2, Single(Integer(255)), t2);
    RunOfFour(c, e0, e1, e2, Written);
    TextOf255(c.lib);
    hide Run, Drain, UpdateText, Cut, ValueText, PublisherSpec.Step;
    FirstLeaves(c, u0, v0, t0);
    var s1 := PublisherSpec.Step(c, INITIAL, e0);
    OthersWait(c, s1, u1, Single(String([1])), t1, u2, Single(Integer(255)), t2);
    var s3 := PublisherSpec.Step(c, PublisherSpec.Step(c, s1, e1), e2);
    var s := WrittenRefills(c, s3);
    DrainOfTwo(c, s, Cut(c.root, u1), Cut(c.root, u2), t1, t2);
  }

  /** The completion of a write of everything in the buffer starts a new filling. */
  lemma WrittenRefills(c: Config, s: PublisherSpec.State) returns (f: PublisherSpec.State)
    requires s.inflight == [|s.outbuf|]
    ensures f.queue == s.queue && f.outbuf == [] && f.lines == s.lines
    ensures PublisherSpec.Step(c, s, Written).lines == Drain(c, f, false).lines
  {
    hide Drain;
    f := Consume(s).(writing := false);
  }

  lemma RunOfFour(c: Config, e0: Event, e1: Event, e2: Event, e3: Event)
    ensures Run(c, [e0, e1, e2, e3])
         == PublisherSpec.Step(c, PublisherSpec.Step(c, PublisherSpec.Step(c, PublisherSpec.Step(c, INITIAL, e0), e1),
                                                     e2), e3)
  {
    hide PublisherSpec.Step;
    PublisherSpec.RunSnoc(c, [], e0);
    PublisherSpec.RunSnoc(c, [e0], e1);
    PublisherSpec.RunSnoc(c, [e0, e1], e2);
    PublisherSpec.RunSnoc(c, [e0, e1, e2], e3);
    assert [] + [e0] == [e0] && [e0] + [e1] == [e0, e1] && [e0, e1] + [e2] == [e0, e1, e2];
    assert [e0, e1, e2] + [e3] == [e0, e1, e2, e3];
  }

  lemma TextOf255(lib: Library)
    ensures ValueText(lib, Single(Integer(255)), true) == [102, 102]
  {
    assert Numeral(16, 255) == Numeral(16, 15) + [102] && Numeral(16, 15) == [102];
  }

  // --- What a receiver reads -------------------------------------------------------------------------

  /** The receiver takes the value's text out of the line and parses it. */
  function Received(lib: Library, line: seq<byte>): Option<Value> {
    match ReadLine(line)
    case None => None
    case Some(f) =>
      var r := ParseTokens(lib, Tokens(f.value));
      if r.Accepted? then Some(r.v) else None
  }

  /** A published value is received exactly if it survives under the flag of its line. */
  lemma ReceivedIffSurvives(c: Config, u: Update, hex: bool)
    requires Spaceless(c.timeText(u.time)) && Spaceless(u.uri) && ValuePrintable(c.lib, u.value)
    ensures Received(c.lib, UpdateText(c, u, hex)) == Some(u.value) <==> ValueSurvives(c.lib, u.value, hex)
  {
    hide ReadLine, UpdateText, ParseTokens, Tokens, ValueText, ValueSurvives;
    LineIsReadBack(c, u, hex);
    RoundTrip(c.lib, u.value, hex);
  }

  /** Times and URIs hold neither spaces nor newlines, reals are printed as streams print them, complaints are lines. */
  ghost predicate Readable(c: Config, lines: seq<Line>) {
    && (forall r :: IsRealText(c.lib.realText(r)))
    && (forall t :: Unbroken(c.timeText(t)) && Spaceless(c.timeText(t)))
    && (forall i :: 0 <= i < |lines| ==>
          match lines[i]
          case Published(u, _) => Unbroken(u.uri) && Spaceless(u.uri)
          case Complaint(text) => Framed(text))
  }

  lemma RealUnbroken(s: seq<byte>)
    requires IsRealText(s)
    ensures Unbroken(s)
  {
    var t :| Proper(t) && TextOf(t) == s;
    assert Unbroken(WholeText(t)) && Unbroken(FractionText(t)) && Unbroken(ExponentText(t.exponent));
  }

  lemma LinesAreFramed(c: Config, lines: seq<Line>)
    requires Readable(c, lines)
    ensures forall i :: 0 <= i < |lines| ==> Framed(LineText(c, lines[i]))
  {
    hide Framed, Unbroken, Spaceless, UpdateText;
    forall r ensures Unbroken(c.lib.realText(r)) {
      RealUnbroken(c.lib.realText(r));
    }
    forall i | 0 <= i < |lines| ensures Framed(LineText(c, lines[i])) {
      match lines[i]
      case Published(u, hex) => UpdateIsFramed(c, u, hex);
      case Complaint(_) =>
    }
  }

  /**
   * From the wire to the values, over all runs: whenever no write is in flight, a receiver that cuts the
   * stream into lines gets the notified value out of a line exactly if the value survives under the flag of
   * the line, which RunFlags tells from the values published before it.
   */
  lemma WireIsReceived(c: Config, es: seq<Event>, i: nat)
    requires c.size > 0 && Run(c, es).inflight == [] && Readable(c, Run(c, es).lines)
    requires i < |Run(c, es).lines| && Run(c, es).lines[i].Published?
    ensures var line, received := Run(c, es).lines[i], SplitLines(Run(c, es).wire, []);
            && i < |received|
            && (Received(c.lib, received[i]) == Some(line.u.value) <==> ValueSurvives(c.lib, line.u.value, line.hex))
  {
    hide Run, Render, SplitLines, Received, ValueSurvives, UpdateText;
    var lines := Run(c, es).lines;
    IdleMeansCurrent(c, es, []);
    LinesAreFramed(c, lines);
    LinesAreRecovered(c, lines);
    ReceivedIffSurvives(c, lines[i].u, lines[i].hex);
  }
}
