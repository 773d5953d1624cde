/** The publish connection as a step system over its queue, its output buffer and the writes in flight. */
module PublisherSpec {
  import opened Bytes
  import opened Numerals
  import opened Escapes
  import opened Values
  import opened Encoder
  import opened UpdateQueue
  import Base64

  /** What stays fixed in a connection: the root's name, the socket's buffer size, and library texts. */
  datatype Config = Config(root: seq<byte>, size: nat, lib: Library, timeText: int -> seq<byte>)

  datatype Line = Published(u: Update, hex: bool) | Complaint(text: seq<byte>)

  /** `wire` and `lines` record what has left and what was appended to the buffer, from the beginning. */
  datatype State = State(queue: seq<Update>, outbuf: seq<byte>, writing: bool, inflight: seq<nat>,
                         wire: seq<byte>, lines: seq<Line>)

  datatype Event = Notify(uri: Uri, value: Value, now: int) | Complain(text: seq<byte>) | Written

  const INITIAL := State([], [], false, [], [], [])

  /** The name of the root is cut off, together with the separator behind it. */
  function Cut(root: seq<byte>, uri: Uri): Uri {
    if uri == root then uri
    else if |root| + 1 <= |uri| then uri[|root| + 1..]
    else []
  }

  function UpdateText(c: Config, u: Update, hex: bool): seq<byte> {
    [40] + c.timeText(u.time) + [32, 39] + u.uri + [32] + ValueText(c.lib, u.value, hex) + [41, 10]
  }

  function LineText(c: Config, line: Line): seq<byte> {
    match line
    case Published(u, hex) => UpdateText(c, u, hex)
    case Complaint(text) => text
  }

  function Emit(c: Config, s: State, hex: bool): State
    requires s.queue != []
  {
    var line := Published(s.queue[0], hex);
    s.(queue := s.queue[1..], outbuf := s.outbuf + LineText(c, line), lines := s.lines + [line])
  }

  /** The loop of `preload_writing`: lines move from the queue to the buffer until the buffer is full. */
  function Drain(c: Config, s: State, hex: bool): State
    decreases |s.queue|
  {
    if s.queue == [] || |s.outbuf| >= c.size then s
    else Drain(c, Emit(c, s, hex), HexAfterValue(s.queue[0].value, hex))
  }

  function StartWrite(s: State): State {
    if s.outbuf == [] then s else s.(inflight := s.inflight + [|s.outbuf|], writing := true)
  }

  function Preload(c: Config, s: State): State {
    if s.writing then s else StartWrite(Drain(c, s, false))
  }

  /** What the completion of the oldest write does to the buffer before the handler runs. */
  function Consume(s: State): State
    requires s.inflight != []
  {
    var n := if s.inflight[0] <= |s.outbuf| then s.inflight[0] else |s.outbuf|;
    s.(outbuf := s.outbuf[n..], wire := s.wire + s.outbuf[..n], inflight := s.inflight[1..])
  }

  /** One handler run to its end. A completion without a write does not occur; it changes nothing. */
  function Step(c: Config, s: State, e: Event): State {
    match e
    case Notify(uri, value, now) => Preload(c, s.(queue := Push(s.queue, Update(Cut(c.root, uri), value, now))))
    case Complain(text) => Preload(c, s.(outbuf := s.outbuf + text, lines := s.lines + [Complaint(text)]))
    case Written => if s.inflight == [] then s else Preload(c, Consume(s).(writing := false))
  }

  function Run(c: Config, es: seq<Event>): State {
    if es == [] then INITIAL else Step(c, Run(c, es[..|es| - 1]), es[|es| - 1])
  }

  /** The updates that the events notify, with the URIs as the clients see them. */
  function Notified(c: Config, es: seq<Event>): seq<Update> {
    if es == [] then []
    else
      Notified(c, es[..|es| - 1])
      + match es[|es| - 1]
        case Notify(uri, value, now) => [Update(Cut(c.root, uri), value, now)]
        case _ => []
  }

  /** The updates of one URI, in order. */
  function Of(uri: Uri, us: seq<Update>): seq<Update> {
    if us == [] then []
    else (if us[0].uri == uri then [us[0]] else []) + Of(uri, us[1..])
  }

  function PublishedIn(lines: seq<Line>): seq<Update> {
    if lines == [] then []
    else
      PublishedIn(lines[..|lines| - 1])
      + match lines[|lines| - 1] case Published(u, _) => [u] case Complaint(_) => []
  }

  function Render(c: Config, lines: seq<Line>): seq<byte> {
    if lines == [] then [] else Render(c, lines[..|lines| - 1]) + LineText(c, lines[|lines| - 1])
  }

  /** `a` is `b` with some elements left out: `places` says where each element of `a` stands in `b`. */
  ghost predicate Embeds<T>(a: seq<T>, b: seq<T>, places: seq<nat>) {
    && |places| == |a|
    && (forall i :: 0 <= i < |a| ==> places[i] < |b| && a[i] == b[places[i]])
    && (forall i, j :: 0 <= i < j < |a| ==> places[i] < places[j])
  }

  ghost predicate Subsequence<T(!new)>(a: seq<T>, b: seq<T>) {
    exists places :: Embeds(a, b, places)
  }

  ghost predicate SameLast<T>(a: seq<T>, b: seq<T>) {
    (a == [] <==> b == []) && (a != [] ==> a[|a| - 1] == b[|b| - 1])
  }

  /** What was published of a URI, or waits to be, is a selection of what was notified, up to the last. */
  ghost predicate Covers(shown: seq<Update>, notified: seq<Update>, uri: Uri) {
    Subsequence(Of(uri, shown), Of(uri, notified)) && SameLast(Of(uri, shown), Of(uri, notified))
  }

  ghost predicate Inv(c: Config, s: State, notified: seq<Update>) {
    && |s.inflight| == (if s.writing then 1 else 0)
    && (if s.writing then 0 < s.inflight[0] <= |s.outbuf| else s.outbuf == [])
    && (!s.writing && c.size > 0 ==> s.queue == [])
    && Books(c, s, notified)
  }

  /** The part of the invariant that holds between the statements of a handler, too. */
  ghost predicate Books(c: Config, s: State, notified: seq<Update>) {
    && s.wire + s.outbuf == Render(c, s.lines)
    && Distinct(s.queue)
    && forall uri :: Covers(PublishedIn(s.lines) + s.queue, notified, uri)
  }

  // --- Subsequences and selections ---------------------------------------------------------------

  lemma {:induction false} OfConcat(uri: Uri, a: seq<Update>, b: seq<Update>)
    ensures Of(uri, a + b) == Of(uri, a) + Of(uri, b)
  {
    if a == [] {
      assert a + b == b;
    } else {
      assert (a + b)[1..] == a[1..] + b;
      OfConcat(uri, a[1..], b);
    }
  }

  lemma {:induction false} OfAbsent(uri: Uri, q: seq<Update>)
    requires !Holds(q, uri)
    ensures Of(uri, q) == []
  {
    if q != [] {
      assert q[0].uri != uri;
      assert forall i :: 0 <= i < |q[1..]| ==> q[1..][i] == q[i + 1];
      OfAbsent(uri, q[1..]);
    }
  }

  lemma OfSplit(uri: Uri, q: seq<Update>, i: nat)
    requires i < |q|
    ensures Of(uri, q) == Of(uri, q[..i]) + (if q[i].uri == uri then [q[i]] else []) + Of(uri, q[i + 1..])
  {
    assert q == q[..i] + ([q[i]] + q[i + 1..]);
    OfConcat(uri, q[..i], [q[i]] + q[i + 1..]);
    OfConcat(uri, [q[i]], q[i + 1..]);
    assert Of(uri, [q[i]]) == if q[i].uri == uri then [q[i]] else [];
  }

  /** A queue without duplicates selects at most one update for a URI. */
  lemma OfPush(uri: Uri, q: seq<Update>, u: Update)
    requires Distinct(q)
    ensures uri != u.uri ==> Of(uri, Push(q, u)) == Of(uri, q)
    ensures |Of(u.uri, q)| <= 1 && Of(u.uri, Push(q, u)) == [u]
  {
    hide Of;
    if i :| 0 <= i < |q| && q[i].uri == u.uri {
      PushReplaces(q, u, i);
      var p := q[i := u];
      assert p[..i] == q[..i] && p[i + 1..] == q[i + 1..];
      OfSplit(uri, q, i);
      OfSplit(uri, p, i);
      OfSplit(u.uri, q, i);
      OfSplit(u.uri, p, i);
      OfAbsent(u.uri, q[..i]);
      var tail := q[i + 1..];
      assert forall k :: 0 <= k < |tail| ==> tail[k] == q[i + 1 + k];
      OfAbsent(u.uri, tail);
    } else {
      PushAppends(q, u);
      OfAbsent(u.uri, q);
      OfConcat(uri, q, [u]);
      OfConcat(u.uri, q, [u]);
      OfSingle(uri, u);
      OfSingle(u.uri, u);
    }
  }

  lemma OfSingle(uri: Uri, u: Update)
    ensures Of(uri, [u]) == if u.uri == uri then [u] else []
  {
  }

  lemma EmbedsSnoc<T>(a: seq<T>, b: seq<T>, places: seq<nat>, x: T)
    requires Embeds(a, b, places)
    ensures Embeds(a + [x], b + [x], places + [|b|])
  {
  }

  lemma EmbedsInit<T>(a: seq<T>, b: seq<T>, places: seq<nat>, x: T)
    requires Embeds(a + [x], b, places)
    ensures |places| == |a| + 1 && Embeds(a, b, places[..|a|])
  {
    assert forall i :: 0 <= i < |a| ==> (a + [x])[i] == a[i];
  }

  /** The selection follows when the last update is replaced or extended by the newly notified one. */
  lemma CoversPush(published: seq<Update>, q: seq<Update>, notified: seq<Update>, u: Update, uri: Uri)
    requires Distinct(q) && Covers(published + q, notified, uri)
    ensures Covers(published + Push(q, u), notified + [u], uri)
  {
    hide Of, Push, Distinct, Embeds;
    OfConcat(uri, published, q);
    OfConcat(uri, published, Push(q, u));
    OfConcat(uri, notified, [u]);
    OfSingle(uri, u);
    OfPush(uri, q, u);
    var sent, waiting, all := Of(uri, published), Of(uri, q), Of(uri, notified);
    var places :| Embeds(sent + waiting, all, places);
    if uri == u.uri {
      if waiting == [] {
        assert sent + waiting == sent;
        EmbedsSnoc(sent, all, places, u);
      } else {
        assert waiting == [waiting[0]];
        EmbedsInit(sent, all, places, waiting[0]);
        EmbedsSnoc(sent, all, places[..|sent|], u);
      }
    } else {
      assert all + [] == all;
    }
  }

  lemma BooksPush(c: Config, s: State, notified: seq<Update>, u: Update)
    requires Books(c, s, notified)
    ensures Books(c, s.(queue := Push(s.queue, u)), notified + [u])
  {
    hide Covers, Push, Render, PublishedIn, Distinct;
    PushKeepsDistinct(s.queue, u);
    forall uri ensures Covers(PublishedIn(s.lines) + Push(s.queue, u), notified + [u], uri) {
      CoversPush(PublishedIn(s.lines), s.queue, notified, u, uri);
    }
  }

  // --- Every handler keeps the invariant ---------------------------------------------------------

  lemma LinesSnoc(c: Config, lines: seq<Line>, line: Line)
    ensures Render(c, lines + [line]) == Render(c, lines) + LineText(c, line)
    ensures PublishedIn(lines + [line])
            == PublishedIn(lines) + (match line case Published(u, _) => [u] case Complaint(_) => [])
  {
    assert (lines + [line])[..|lines|] == lines;
  }

  /** Moving a line from the queue to the buffer changes nothing in what is shown altogether. */
  lemma EmitKeepsBooks(c: Config, s: State, hex: bool, notified: seq<Update>)
    requires Books(c, s, notified) && s.queue != []
    ensures Books(c, Emit(c, s, hex), notified)
  {
    hide Covers, Render, PublishedIn, LineText;
    var line, t := Published(s.queue[0], hex), Emit(c, s, hex);
    LinesSnoc(c, s.lines, line);
    assert t.wire + t.outbuf == (s.wire + s.outbuf) + LineText(c, line);
    assert PublishedIn(t.lines) + t.queue == PublishedIn(s.lines) + s.queue;
  }

  lemma DrainStep(c: Config, s: State, hex: bool)
    ensures Drain(c, s, hex)
         == if s.queue == [] || |s.outbuf| >= c.size then s
            else Drain(c, Emit(c, s, hex), HexAfterValue(s.queue[0].value, hex))
  {
    hide Emit;
  }

  lemma {:induction false} DrainKeepsBooks(c: Config, s: State, hex: bool, notified: seq<Update>)
    requires Books(c, s, notified)
    ensures var t := Drain(c, s, hex);
            && Books(c, t, notified) && t.writing == s.writing && t.inflight == s.inflight && t.wire == s.wire
            && (t.queue == [] || |t.outbuf| >= c.size)
    decreases |s.queue|
  {
    hide Books;
    if s.queue != [] && |s.outbuf| < c.size {
      EmitKeepsBooks(c, s, hex, notified);
      DrainKeepsBooks(c, Emit(c, s, hex), HexAfterValue(s.queue[0].value, hex), notified);
    }
  }

  lemma PreloadKeeps(c: Config, s: State, notified: seq<Update>)
    requires Books(c, s, notified)
    requires |s.inflight| == (if s.writing then 1 else 0)
    requires s.writing ==> 0 < s.inflight[0] <= |s.outbuf|
    ensures Inv(c, Preload(c, s), notified)
  {
    hide Drain, Covers, Render, PublishedIn, Distinct;
    if !s.writing {
      DrainKeepsBooks(c, s, false, notified);
      assert s.inflight + [|Drain(c, s, false).outbuf|] == [|Drain(c, s, false).outbuf|];
    }
  }

  lemma StepKeeps(c: Config, s: State, e: Event, notified: seq<Update>)
    requires Inv(c, s, notified)
    ensures Inv(c, Step(c, s, e), notified + match e
                                             case Notify(uri, value, now) => [Update(Cut(c.root, uri), value, now)]
                                             case _ => [])
  {
    hide Drain, Covers, Render, PublishedIn, Distinct;
    match e
    case Notify(uri, value, now) =>
      var u := Update(Cut(c.root, uri), value, now);
      BooksPush(c, s, notified, u);
      PreloadKeeps(c, s.(queue := Push(s.queue, u)), notified + [u]);
    case Complain(text) =>
      assert notified + [] == notified;
      LinesSnoc(c, s.lines, Complaint(text));
      var t := s.(outbuf := s.outbuf + text, lines := s.lines + [Complaint(text)]);
      assert t.wire + t.outbuf == (s.wire + s.outbuf) + text;
      assert PublishedIn(s.lines) + [] == PublishedIn(s.lines);
      PreloadKeeps(c, t, notified);
    case Written =>
      assert notified + [] == notified;
      if s.inflight != [] {
        var t := Consume(s).(writing := false);
        assert t.wire + t.outbuf == s.wire + s.outbuf;
        PreloadKeeps(c, t, notified);
      }
  }

  lemma InitialIsFine(c: Config)
    ensures Inv(c, INITIAL, [])
  {
    forall uri ensures Covers(PublishedIn([]) + [], [], uri) {
      var none: seq<Update> := [];
      assert PublishedIn([]) + [] == none && Of(uri, none) == [];
      assert Embeds(none, none, []);
    }
  }

  lemma {:induction false} RunKeeps(c: Config, es: seq<Event>)
    ensures Inv(c, Run(c, es), Notified(c, es))
  {
    hide Inv, Step;
    if es == [] {
      InitialIsFine(c);
    } else {
      RunKeeps(c, es[..|es| - 1]);
      StepKeeps(c, Run(c, es[..|es| - 1]), es[|es| - 1], Notified(c, es[..|es| - 1]));
    }
  }

  // --- What this means over whole runs -----------------------------------------------------------

  /** After every handler at most one write is in flight, and the flag says whether there is one. */
  lemma AtMostOneWrite(c: Config, es: seq<Event>)
    ensures |Run(c, es).inflight| == (if Run(c, es).writing then 1 else 0)
  {
    RunKeeps(c, es);
  }

  ghost predicate NeverStalls(c: Config) {
    forall es :: var s := Run(c, es); s.queue != [] || s.outbuf != [] ==> s.inflight != []
  }

  /** Nothing waits without a write in flight, unless the socket reports a buffer of size zero. */
  lemma StallsOnlyWithoutBuffer(c: Config)
    ensures NeverStalls(c) <==> c.size > 0
  {
    if c.size > 0 {
      forall es ensures var s := Run(c, es); s.queue != [] || s.outbuf != [] ==> s.inflight != [] {
        RunKeeps(c, es);
      }
    } else {
      var es := [Notify([], Single(Boolean(true)), 0)];
      assert es[..0] == [];
      assert Run(c, es) == Step(c, INITIAL, es[0]);
      assert Run(c, es).queue != [] && Run(c, es).inflight == [];
    }
  }

  ghost predicate NeverPublishes(c: Config) {
    forall es :: PublishedIn(Run(c, es).lines) == []
  }

  lemma {:induction false} NothingWithoutBuffer(c: Config, es: seq<Event>)
    requires c.size == 0
    ensures PublishedIn(Run(c, es).lines) == []
  {
    if es != [] {
      NothingWithoutBuffer(c, es[..|es| - 1]);
      var s := Run(c, es[..|es| - 1]);
      if es[|es| - 1].Complain? {
        LinesSnoc(c, s.lines, Complaint(es[|es| - 1].text));
      }
    }
  }

  /** Error lines leave even then, but no update ever does. */
  lemma PublishesIffBuffer(c: Config)
    ensures NeverPublishes(c) <==> c.size == 0
  {
    hide PublishedIn, Run;
    if c.size == 0 {
      forall es ensures PublishedIn(Run(c, es).lines) == [] {
        NothingWithoutBuffer(c, es);
      }
    } else {
      var u, es := Update(Cut(c.root, []), Single(Boolean(true)), 0), [Notify([], Single(Boolean(true)), 0)];
      FirstIsPublished(c, u, es);
    }
  }

  lemma FirstIsPublished(c: Config, u: Update, es: seq<Event>)
    requires c.size > 0 && es == [Notify([], u.value, u.time)] && u.uri == Cut(c.root, [])
    ensures PublishedIn(Run(c, es).lines) == [u]
  {
    hide UpdateText;
    assert es[..0] == [] && Push([], u) == [u];
    assert Run(c, es) == Step(c, INITIAL, es[0]);
    var s := Emit(c, INITIAL.(queue := [u]), false);
    assert Drain(c, s, HexAfterValue(u.value, false)) == s;
    LinesSnoc(c, [], Published(u, false));
  }

  // --- What one handler does ----------------------------------------------------------------------------

  /**
   * A handler that starts a write starts it on the whole buffer; and while a write is in flight, nothing is
   * taken from the queue.
   */
  lemma WholeBufferIsWritten(c: Config, s: State, e: Event)
    requires |s.inflight| == (if s.writing then 1 else 0) && (e.Written? ==> s.writing)
    ensures var t := Step(c, s, e);
            if s.writing && !e.Written? then t.inflight == s.inflight && |t.queue| >= |s.queue|
            else t.inflight == if t.outbuf == [] then [] else [|t.outbuf|]
    ensures s.writing && e.Notify? ==> Step(c, s, e).outbuf == s.outbuf && Step(c, s, e).lines == s.lines
  {
    hide Drain;
    match e
    case Notify(uri, value, now) =>
      var u := Update(Cut(c.root, uri), value, now);
      PushGrows(s.queue, u);
      DrainKeepsWrites(c, s.(queue := Push(s.queue, u)), false);
    case Complain(text) =>
      DrainKeepsWrites(c, s.(outbuf := s.outbuf + text, lines := s.lines + [Complaint(text)]), false);
    case Written =>
      DrainKeepsWrites(c, Consume(s).(writing := false), false);
  }

  lemma {:induction false} PushGrows(q: seq<Update>, u: Update)
    ensures |q| <= |Push(q, u)| <= |q| + 1
  {
    if q != [] && q[0].uri != u.uri {
      PushGrows(q[1..], u);
    }
  }

  lemma {:induction false} DrainKeepsWrites(c: Config, s: State, hex: bool)
    ensures Drain(c, s, hex).inflight == s.inflight && Drain(c, s, hex).writing == s.writing
    decreases |s.queue|
  {
    if s.queue != [] && |s.outbuf| < c.size {
      DrainKeepsWrites(c, Emit(c, s, hex), HexAfterValue(s.queue[0].value, hex));
    }
  }

  /** The URI a client sees: the root's own name, or what stands behind the root's name and the separator. */
  lemma CutIs(root: seq<byte>, separator: byte, name: Uri)
    ensures Cut(root, root) == root && Cut(root, root + [separator] + name) == name
  {
    assert root + [separator] + name != root by {
      assert |root + [separator] + name| > |root|;
    }
  }

  /** No byte is lost, added or reordered: what left and what is buffered is the lines in full, in order. */
  lemma BytesConserved(c: Config, es: seq<Event>)
    ensures Run(c, es).wire + Run(c, es).outbuf == Render(c, Run(c, es).lines)
  {
    hide Render;
    RunKeeps(c, es);
  }

  /** What is published of a URI is a selection, in order, of what was notified for it. */
  lemma PublishedInOrder(c: Config, es: seq<Event>, uri: Uri)
    ensures Subsequence(Of(uri, PublishedIn(Run(c, es).lines)), Of(uri, Notified(c, es)))
  {
    hide Embeds, Of, PublishedIn, Notified, Run;
    RunKeeps(c, es);
    var s, all := Run(c, es), Of(uri, Notified(c, es));
    assert Covers(PublishedIn(s.lines) + s.queue, Notified(c, es), uri);
    OfConcat(uri, PublishedIn(s.lines), s.queue);
    var sent, waiting := Of(uri, PublishedIn(s.lines)), Of(uri, s.queue);
    var places :| Embeds(sent + waiting, all, places);
    EmbedsPrefix(sent, waiting, all, places);
  }

  lemma EmbedsPrefix<T>(a: seq<T>, rest: seq<T>, b: seq<T>, places: seq<nat>)
    requires Embeds(a + rest, b, places)
    ensures |places| == |a| + |rest| && Embeds(a, b, places[..|a|])
  {
    assert forall i :: 0 <= i < |a| ==> (a + rest)[i] == a[i];
  }

  /** Whenever no write is in flight, everything has left, and the last line of each URI is current. */
  lemma IdleMeansCurrent(c: Config, es: seq<Event>, uri: Uri)
    requires c.size > 0 && Run(c, es).inflight == []
    ensures Run(c, es).wire == Render(c, Run(c, es).lines)
    ensures SameLast(Of(uri, PublishedIn(Run(c, es).lines)), Of(uri, Notified(c, es)))
  {
    hide Embeds, Of, PublishedIn, Notified, Run, Render;
    RunKeeps(c, es);
    var s := Run(c, es);
    assert s.wire + [] == s.wire;
    assert PublishedIn(s.lines) + s.queue == PublishedIn(s.lines);
    assert Covers(PublishedIn(s.lines) + s.queue, Notified(c, es), uri);
  }

  // --- Everything is delivered when the writes go on completing -----------------------------------

  function Writes(n: nat): (es: seq<Event>)
    ensures |es| == n
  {
    seq(n, _ => Written)
  }

  lemma {:induction false} DrainShrinks(c: Config, s: State, hex: bool)
    ensures var t := Drain(c, s, hex); |t.queue| < |s.queue| || t == s
    decreases |s.queue|
  {
    if s.queue != [] && |s.outbuf| < c.size {
      DrainShrinks(c, Emit(c, s, hex), HexAfterValue(s.queue[0].value, hex));
    }
  }

  /** A completed write takes a line from the queue or bytes from the buffer. */
  lemma WrittenShrinks(c: Config, s: State, notified: seq<Update>)
    requires Inv(c, s, notified) && s.inflight != []
    ensures var t := Step(c, s, Written);
            |t.queue| < |s.queue| || (t.queue == s.queue && |t.outbuf| < |s.outbuf|)
  {
    hide Books, Drain;
    DrainShrinks(c, Consume(s).(writing := false), false);
  }

  /** From every reachable state, finitely many completions bring the connection to rest. */
  lemma {:induction false} ComesToRest(c: Config, es: seq<Event>) returns (n: nat)
    requires c.size > 0
    ensures Run(c, es + Writes(n)).inflight == [] && Notified(c, es + Writes(n)) == Notified(c, es)
    decreases |Run(c, es).queue|, |Run(c, es).outbuf|
  {
    hide Step, Inv, Run, Notified;
    var s := Run(c, es);
    if s.inflight == [] {
      n := 0;
      assert es + Writes(0) == es;
    } else {
      var more := es + [Written];
      RunSnoc(c, es, Written);
      RunKeeps(c, es);
      WrittenShrinks(c, s, Notified(c, es));
      var m := ComesToRest(c, more);
      n := m + 1;
      assert more + Writes(m) == es + Writes(n);
    }
  }

  lemma RunSnoc(c: Config, es: seq<Event>, e: Event)
    ensures Run(c, es + [e]) == Step(c, Run(c, es), e)
    ensures !e.Notify? ==> Notified(c, es + [e]) == Notified(c, es)
  {
    hide Step;
    assert (es + [e])[..|es|] == es;
  }

  /** Once the writes have completed, the wire ends each URI's lines with its last notified value. */
  lemma EventuallyCurrent(c: Config, es: seq<Event>) returns (n: nat)
    requires c.size > 0
    ensures var s := Run(c, es + Writes(n));
            && s.wire == Render(c, s.lines)
            && forall uri :: SameLast(Of(uri, PublishedIn(s.lines)), Of(uri, Notified(c, es)))
  {
    hide Run, Notified, PublishedIn, Of, Render, SameLast;
    n := ComesToRest(c, es);
    forall uri ensures SameLast(Of(uri, PublishedIn(Run(c, es + Writes(n)).lines)), Of(uri, Notified(c, es))) {
      IdleMeansCurrent(c, es + Writes(n), uri);
    }
    IdleMeansCurrent(c, es + Writes(n), []);
  }

  // --- The receiver can cut the stream into lines again -------------------------------------------

  predicate Unbroken(s: seq<byte>) {
    forall i :: 0 <= i < |s| ==> s[i] != 10
  }

  /** The text of a line: a newline at its end and nowhere else. */
  predicate Framed(s: seq<byte>) {
    s != [] && s[|s| - 1] == 10 && Unbroken(s[..|s| - 1])
  }

  /** The receiver reads up to each newline. */
  function SplitLines(s: seq<byte>, begun: seq<byte>): seq<seq<byte>> {
    if s == [] then []
    else if s[0] == 10 then [begun + [10]] + SplitLines(s[1..], [])
    else SplitLines(s[1..], begun + [s[0]])
  }

  function Texts(c: Config, lines: seq<Line>): seq<seq<byte>> {
    seq(|lines|, i requires 0 <= i < |lines| => LineText(c, lines[i]))
  }

  lemma {:induction false} ScalarUnbroken(lib: Library, x: Scalar, hex: bool)
    requires forall r :: Unbroken(lib.realText(r))
    ensures Unbroken(ScalarText(lib, x, hex))
  {
    match x
    case Boolean(b) =>
    case Integer(i) => IntegerUnbroken(i, hex);
    case Real(r) =>
    case String(s) => EscapedIsPrintable(s);
    case Binary(bytes) => Base64.EncodedShape(bytes);
  }

  lemma IntegerUnbroken(i: int, hex: bool)
    requires IsLongLong(i)
    ensures Unbroken(IntegerText(i, hex))
  {
    NumeralUnbroken(10, if i < 0 then -i else i);
    NumeralUnbroken(16, if i < 0 then i + TWO_64 else i);
  }

  lemma {:induction false} NumeralUnbroken(base: nat, n: nat)
    requires base == 10 || base == 16
    ensures Unbroken(Numeral(base, n))
    decreases n
  {
    if n >= base {
      NumeralUnbroken(base, n / base);
    }
  }

  lemma {:induction false} ElementsUnbroken(lib: Library, xs: seq<Scalar>, first: bool, hex: bool)
    requires forall r :: Unbroken(lib.realText(r))
    ensures Unbroken(ElementsText(lib, xs, first, hex))
  {
    hide ScalarText, HexAfter;
    if xs != [] {
      ScalarUnbroken(lib, xs[0], hex);
      ElementsUnbroken(lib, xs[1..], false, HexAfter(xs[0], hex));
    }
  }

  /** Whatever bytes a value holds, the line that publishes it breaks nowhere but at its end. */
  lemma UpdateIsFramed(c: Config, u: Update, hex: bool)
    requires forall r :: Unbroken(c.lib.realText(r))
    requires Unbroken(c.timeText(u.time)) && Unbroken(u.uri)
    ensures Framed(UpdateText(c, u, hex))
  {
    hide ScalarText, ElementsText;
    match u.value {
      case Single(x) => ScalarUnbroken(c.lib, x, hex);
      case Sequence(xs) => ElementsUnbroken(c.lib, xs, true, hex);
      case Tuple(xs) => ElementsUnbroken(c.lib, xs, true, hex);
    }
    assert Unbroken(ValueText(c.lib, u.value, hex));
  }

  /** What a receiver takes out of a line: the time, the URI and the text of the value. */
  datatype Fields = Fields(time: seq<byte>, uri: Uri, value: seq<byte>)

  function UntilSpace(s: seq<byte>): (n: nat)
    ensures n <= |s|
  {
    if s == [] || s[0] == 32 then 0 else 1 + UntilSpace(s[1..])
  }

  function ReadLine(line: seq<byte>): Option<Fields> {
    var t := UntilSpace(line);
    if t == 0 || t + 2 > |line| || line[0] != 40 || line[t + 1] != 39 then None
    else
      var rest := line[t + 2..];
      var u := UntilSpace(rest);
      if u + 3 > |rest| || rest[|rest| - 2] != 41 || rest[|rest| - 1] != 10 then None
      else Some(Fields(line[1..t], rest[..u], rest[u + 1..|rest| - 2]))
  }

  predicate Spaceless(s: seq<byte>) {
    forall i :: 0 <= i < |s| ==> s[i] != 32
  }

  lemma {:induction false} UntilSpaceIs(word: seq<byte>, rest: seq<byte>)
    requires Spaceless(word)
    ensures UntilSpace(word + [32] + rest) == |word|
  {
    var s := word + [32] + rest;
    if word != [] {
      assert s[0] == word[0] && s[1..] == word[1..] + [32] + rest;
      UntilSpaceIs(word[1..], rest);
    }
  }

  /** A published line tells its time, its URI and the text of its value. */
  lemma LineIsReadBack(c: Config, u: Update, hex: bool)
    requires Spaceless(c.timeText(u.time)) && Spaceless(u.uri)
    ensures ReadLine(UpdateText(c, u, hex)) == Some(Fields(c.timeText(u.time), u.uri, ValueText(c.lib, u.value, hex)))
  {
    hide ValueText, UntilSpace;
    var time, text := [40] + c.timeText(u.time), ValueText(c.lib, u.value, hex);
    var tail := u.uri + [32] + (text + [41, 10]);
    var line := UpdateText(c, u, hex);
    assert line == time + [32] + ([39] + tail);
    UntilSpaceIs(time, [39] + tail);
    UntilSpaceIs(u.uri, text + [41, 10]);
    assert line[|time| + 2..] == tail;
    assert tail[|u.uri| + 1..|tail| - 2] == text && tail[..|u.uri|] == u.uri && line[1..|time|] == c.timeText(u.time);
  }

  lemma {:induction false} SplitFirst(line: seq<byte>, rest: seq<byte>, begun: seq<byte>)
    requires Framed(line)
    ensures SplitLines(line + rest, begun) == [begun + line] + SplitLines(rest, [])
    decreases |line|
  {
    if |line| == 1 {
      assert (line + rest)[1..] == rest && line == [10];
    } else {
      var tail := line[1..];
      assert (line + rest)[1..] == tail + rest && line[0] == line[..|line| - 1][0];
      assert tail[..|tail| - 1] == line[..|line| - 1][1..];
      SplitFirst(tail, rest, begun + [line[0]]);
      assert begun + [line[0]] + tail == begun + line;
    }
  }

  /** Cutting at the newlines gives back the lines, however many there are. */
  lemma {:induction false} LinesAreRecovered(c: Config, lines: seq<Line>)
    requires forall i :: 0 <= i < |lines| ==> Framed(LineText(c, lines[i]))
    ensures SplitLines(Render(c, lines), []) == Texts(c, lines)
  {
    hide SplitLines, LineText;
    RenderSplits(c, lines, []);
    assert Render(c, lines) + [] == Render(c, lines);
    SplitNothing();
  }

  lemma SplitNothing()
    ensures SplitLines([], []) == []
  {
  }

  lemma {:induction false} RenderSplits(c: Config, lines: seq<Line>, rest: seq<byte>)
    requires forall i :: 0 <= i < |lines| ==> Framed(LineText(c, lines[i]))
    ensures SplitLines(Render(c, lines) + rest, []) == Texts(c, lines) + SplitLines(rest, [])
  {
    hide SplitLines, LineText, Framed;
    if lines == [] {
      assert [] + rest == rest;
    } else {
      var front, last := lines[..|lines| - 1], LineText(c, lines[|lines| - 1]);
      RenderSplits(c, front, last + rest);
      SplitFirst(last, rest, []);
      assert Render(c, front) + last + rest == Render(c, front) + (last + rest);
      assert [] + last == last;
      assert Texts(c, lines) == Texts(c, front) + [last];
    }
  }
}

/** The connection object: it holds the update container and writes through a stream. */
module Publisher {
  import opened Bytes
  import opened Values
  import opened Encoder
  import opened UpdateQueue
  import opened PublisherSpec
  import UpdateContainer

  class PubsubContext {
    const config: Config
    const pending: UpdateContainer.UpdateContainer
    var outbuf: seq<byte>
    var writingActive: bool
    var inflight: seq<nat>
    ghost var wire: seq<byte>
    ghost var lines: seq<Line>

    ghost predicate Valid()
      reads this, pending, pending.order
    {
      pending.Valid()
    }

    ghost function Abs(): State
      reads this, pending, pending.order
    {
      State(pending.Contents(), outbuf, writingActive, inflight, wire, lines)
    }

    constructor (config: Config)
      ensures Valid() && Abs() == INITIAL && this.config == config
    {
      this.config := config;
      pending := new UpdateContainer.UpdateContainer();
      outbuf, writingActive, inflight, wire, lines := [], false, [], [], [];
    }

    method Notify(uri: Uri, value: Value, now: int)
      requires Valid()
      modifies this, pending, pending.order
      ensures Valid() && Abs() == Step(config, old(Abs()), Event.Notify(uri, value, now))
    {
      hide Drain, Push, UpdateContainer.UpdateContainer.Valid, UpdateContainer.UpdateContainer.Contents;
      pending.Push(Cut(config.root, uri), value, now);
      PreloadWriting();
    }

    /** The ends of the three error branches of `process_request`. */
    method ReportError(text: seq<byte>)
      requires Valid()
      modifies this, pending
      ensures Valid() && Abs() == Step(config, old(Abs()), Complain(text))
    {
      hide Drain, UpdateContainer.UpdateContainer.Valid, UpdateContainer.UpdateContainer.Contents;
      outbuf := outbuf + text;
      lines := lines + [Complaint(text)];
      PreloadWriting();
    }

    /** Completion of the oldest write: the bytes present at its start leave, then the handler runs. */
    method WriteHandler()
      requires Valid() && inflight != []
      modifies this, pending
      ensures Valid() && Abs() == Step(config, old(Abs()), Written)
    {
      hide Drain, UpdateContainer.UpdateContainer.Valid, UpdateContainer.UpdateContainer.Contents;
      var n := if inflight[0] <= |outbuf| then inflight[0] else |outbuf|;
      wire := wire + outbuf[..n];
      outbuf := outbuf[n..];
      inflight := inflight[1..];
      writingActive := false;
      PreloadWriting();
    }

    /** The stream insertions of one line. */
    method Print(out: Stream, u: Update)
      modifies out
      ensures out.text == old(out.text) + UpdateText(config, u, old(out.hex))
      ensures out.hex == HexAfterValue(u.value, old(out.hex))
    {
      hide ValueText, HexAfterValue;
      out.Put([40] + config.timeText(u.time) + [32, 39] + u.uri + [32]);
      var encoder := new Encoder(out, config.lib);
      encoder.EncodeValue(u.value);
      out.Put([41, 10]);
    }

    method PreloadWriting()
      requires Valid()
      modifies this, pending
      ensures Valid() && Abs() == Preload(config, old(Abs()))
    {
      hide Drain, UpdateText, HexAfterValue;
      hide UpdateContainer.UpdateContainer.Valid, UpdateContainer.UpdateContainer.Contents;
      if writingActive {
        return;
      }
      ghost var start := Abs();
      var out := new Stream.On(outbuf);
      var empty := pending.Empty();
      while !empty && |out.text| < config.size
        invariant Valid() && empty == (pending.Contents() == []) && fresh(out)
        invariant outbuf == start.outbuf && inflight == start.inflight && wire == start.wire && !writingActive
        invariant var now := State(pending.Contents(), out.text, false, start.inflight, start.wire, lines);
                  Drain(config, now, out.hex) == Drain(config, start, false)
        decreases |pending.Contents()|
      {
        ghost var now := State(pending.Contents(), out.text, false, start.inflight, start.wire, lines);
        ghost var hex := out.hex;
        DrainStep(config, now, hex);
        var front := pending.PopFront();
        var u := front.value;
        Print(out, u);
        lines := lines + [Published(u, hex)];
        assert Emit(config, now, hex)
            == State(pending.Contents(), out.text, false, start.inflight, start.wire, lines);
        empty := pending.Empty();
      }
      DrainStep(config, start.(queue := pending.Contents(), outbuf := out.text, lines := lines), out.hex);
      outbuf := out.text;
      if |outbuf| == 0 {
        return;
      }
      inflight := inflight + [|outbuf|];
      writingActive := true;
    }
  }
}
