/** Who observes what, how often a parameter believes to be observed, and who is polled on a tick. */
module SubscriptionSpec {
  import opened Bytes
  import opened Numerals
  import opened Links
  import opened Sets

  type Uri = seq<byte>

  /** External parameters count their observers and are polled; managed ones need neither. */
  datatype Kind = External | Managed | NotObservable

  /** The parts of a fixed tree that matter: `attached` are the objects whose root is the dictionary. */
  datatype Config<P> = Config(kind: map<P, Kind>, uri: map<P, Uri>, readlevel: map<P, int>, attached: set<P>)

  datatype State<C, P> = State(held: map<C, set<Uri>>, count: map<P, nat>, ticks: seq<P>)

  /**
   * `fails` says that reading the current value, or delivering it, throws. The context's map gets its entry
   * only after the parameter's `observe` has returned, as C++17 evaluates the right-hand side first.
   */
  datatype Event<C, P> =
    | Observe(c: C, level: int, p: P, fails: bool)
    | Unobserve(c: C, p: P)

  /** Undefined is where the source dereferences a null pointer. */
  datatype Outcome = Done | InvalidParameter | AccessDenied | NotSubscribed | Threw | Undefined

  predicate Complete<P>(cfg: Config<P>) {
    cfg.kind.Keys == cfg.uri.Keys == cfg.readlevel.Keys && cfg.attached <= cfg.kind.Keys
  }

  function Held<C(==), P>(s: State<C, P>, c: C): set<Uri> {
    if c in s.held then s.held[c] else {}
  }

  function Count<C, P(==)>(s: State<C, P>, p: P): nat {
    if p in s.count then s.count[p] else 0
  }

  /** A read-only user observes like a normal one. */
  function Effective(level: int): int {
    if level == 4 then 3 else level
  }

  /** `observe` of the parameter, up to the emission of its value. */
  function CountUp<C, P(==)>(cfg: Config<P>, s: State<C, P>, p: P): State<C, P>
    requires p in cfg.kind
  {
    if cfg.kind[p] != External || p !in cfg.attached then s
    else
      var n := Count(s, p);
      s.(count := s.count[p := (n + 1) % TWO_64], ticks := if n == 0 then s.ticks + [p] else s.ticks)
  }

  function CountDown<C, P(==)>(cfg: Config<P>, s: State<C, P>, p: P): State<C, P>
    requires p in cfg.kind
  {
    if cfg.kind[p] != External then s
    else
      var n := (Count(s, p) + TWO_64 - 1) % TWO_64;
      s.(count := s.count[p := n], ticks := if n == 0 && p in cfg.attached then Without(s.ticks, p) else s.ticks)
  }

  /** A parameter outside the dictionary's tree hands out an empty connection without a look at its value. */
  predicate ReadsValue<P(==)>(cfg: Config<P>, p: P)
    requires p in cfg.kind
  {
    cfg.kind[p] == Managed || (cfg.kind[p] == External && p in cfg.attached)
  }

  function ObserveStep<C(==), P(==)>(cfg: Config<P>, s: State<C, P>, c: C, level: int, p: P, fails: bool)
      : (State<C, P>, Outcome)
    requires Complete(cfg) && p in cfg.kind
  {
    if cfg.kind[p] == NotObservable then (s, InvalidParameter)
    else if Effective(level) > cfg.readlevel[p] then (s, AccessDenied)
    else if cfg.uri[p] in Held(s, c) then (s, if fails then Threw else Done)
    else
      var s1 := CountUp(cfg, s, p);
      if fails && ReadsValue(cfg, p) then (s1, Threw)
      else (s1.(held := s.held[c := Held(s, c) + {cfg.uri[p]}]), Done)
  }

  function UnobserveStep<C(==), P(==)>(cfg: Config<P>, s: State<C, P>, c: C, p: P): (State<C, P>, Outcome)
    requires Complete(cfg) && p in cfg.kind
  {
    if cfg.uri[p] !in Held(s, c) then (s, NotSubscribed)
    else if cfg.kind[p] == NotObservable then (s, InvalidParameter)
    else (CountDown(cfg, s.(held := s.held[c := Held(s, c) - {cfg.uri[p]}]), p), Done)
  }

  /** `unobserve` asks the object for its name before anything else, so it is undefined without an object. */
  function UnobserveObject<C(==), P(==)>(cfg: Config<P>, s: State<C, P>, c: C, obj: Option<P>): (State<C, P>, Outcome)
    requires Complete(cfg) && (obj.Some? ==> obj.value in cfg.kind)
  {
    match obj
    case Some(p) => UnobserveStep(cfg, s, c, p)
    case None => (s, Undefined)
  }

  predicate Known<C, P(==)>(cfg: Config<P>, e: Event<C, P>) {
    e.p in cfg.kind
  }

  function Step<C(==), P(==)>(cfg: Config<P>, s: State<C, P>, e: Event<C, P>): State<C, P>
    requires Complete(cfg) && Known(cfg, e)
  {
    match e
    case Observe(c, level, p, fails) => ObserveStep(cfg, s, c, level, p, fails).0
    case Unobserve(c, p) => UnobserveStep(cfg, s, c, p).0
  }

  predicate AllKnown<C, P(==)>(cfg: Config<P>, es: seq<Event<C, P>>) {
    forall i :: 0 <= i < |es| ==> Known(cfg, es[i])
  }

  function Run<C(==), P(==)>(cfg: Config<P>, es: seq<Event<C, P>>): State<C, P>
    requires Complete(cfg) && AllKnown(cfg, es)
  {
    if es == [] then State(map[], map[], [])
    else Step(cfg, Run(cfg, es[..|es| - 1]), es[|es| - 1])
  }

  // --- The account ---------------------------------------------------------------------------------

  function Holders<C(==), P>(s: State<C, P>, uri: Uri): set<C> {
    set c | c in s.held && uri in s.held[c]
  }

  /** The event raises the count of `p` without anybody holding its URI for it. */
  predicate Leaks<C(==), P(==)>(cfg: Config<P>, s: State<C, P>, e: Event<C, P>, p: P)
    requires Complete(cfg) && Known(cfg, e)
  {
    && e.Observe? && e.p == p && e.fails
    && cfg.kind[p] == External && p in cfg.attached
    && Effective(e.level) <= cfg.readlevel[p] && cfg.uri[p] !in Held(s, e.c)
  }

  /** How many events of the run leaked. */
  function Leaked<C(==), P(==)>(cfg: Config<P>, es: seq<Event<C, P>>, p: P): (n: nat)
    requires Complete(cfg) && AllKnown(cfg, es)
    ensures n <= |es|
  {
    if es == [] then 0
    else
      var front := es[..|es| - 1];
      Leaked(cfg, front, p) + if Leaks(cfg, Run(cfg, front), es[|es| - 1], p) then 1 else 0
  }

  /** The count is the number of contexts that hold the URI, and the parameter is polled once or not at all. */
  ghost predicate Balanced<C, P>(cfg: Config<P>, s: State<C, P>, p: P, leaked: nat)
    requires p in cfg.uri
  {
    && Count(s, p) == |Holders(s, cfg.uri[p])| + leaked
    && multiset(s.ticks)[p] == if Count(s, p) > 0 then 1 else 0
  }

  /** No other observable object has the URI of an external parameter. */
  ghost predicate DistinctUris<P>(cfg: Config<P>)
    requires Complete(cfg)
  {
    forall p, q :: p in cfg.kind && q in cfg.kind ==> !Clash(cfg, p, q)
  }

  ghost predicate Clash<P>(cfg: Config<P>, p: P, q: P)
    requires Complete(cfg) && p in cfg.kind && q in cfg.kind
  {
    p != q && cfg.kind[p] == External && cfg.kind[q] != NotObservable && cfg.uri[p] == cfg.uri[q]
  }

  ghost predicate AllAttached<P>(cfg: Config<P>) {
    forall p :: p in cfg.kind && cfg.kind[p] == External ==> p in cfg.attached
  }

  lemma HoldersGain<C, P>(s: State<C, P>, t: State<C, P>, c: C, uri: Uri, added: Uri)
    requires added !in Held(s, c) && t.held == s.held[c := Held(s, c) + {added}]
    ensures Holders(t, uri) == if uri == added then Holders(s, uri) + {c} else Holders(s, uri)
    ensures c !in Holders(s, added)
  {
  }

  lemma HoldersLose<C, P>(s: State<C, P>, t: State<C, P>, c: C, uri: Uri, removed: Uri)
    requires removed in Held(s, c) && t.held == s.held[c := Held(s, c) - {removed}]
    ensures Holders(t, uri) == if uri == removed then Holders(s, uri) - {c} else Holders(s, uri)
    ensures c in Holders(s, removed)
  {
  }

  /** Counting up for `q` is right for `p` whether or not they are the same. */
  lemma ObserveBalanced<C, P>(cfg: Config<P>, s: State<C, P>, c: C, level: int, q: P, fails: bool, p: P, leaked: nat)
    requires Complete(cfg) && DistinctUris(cfg) && AllAttached(cfg)
    requires q in cfg.kind && p in cfg.kind && cfg.kind[p] == External
    requires Balanced(cfg, s, p, leaked)
    requires var e := Observe(c, level, q, fails);
             |Holders(Step(cfg, s, e), cfg.uri[p])| + leaked + (if Leaks(cfg, s, e, p) then 1 else 0) < TWO_64
    ensures var e := Observe(c, level, q, fails);
            Balanced(cfg, Step(cfg, s, e), p, leaked + if Leaks(cfg, s, e, p) then 1 else 0)
  {
    hide Holders, CountUp, DistinctUris, AllAttached, Balanced;
    NoClash(cfg, p, q);
    IsAttached(cfg, p);
    var t := ObserveStep(cfg, s, c, level, q, fails).0;
    if cfg.kind[q] != NotObservable && Effective(level) <= cfg.readlevel[q] && cfg.uri[q] !in Held(s, c) {
      CountUpEffect(cfg, s, q, p);
      var counted := if q == p then 1 else 0;
      if fails && ReadsValue(cfg, q) {
        SameHolders(s, t, cfg.uri[p]);
        Rebalance(cfg, s, t, p, leaked, leaked + counted, counted);
      } else {
        HoldersGain(s, t, c, cfg.uri[p], cfg.uri[q]);
        Rebalance(cfg, s, t, p, leaked, leaked, counted);
      }
    }
  }

  lemma IsAttached<P>(cfg: Config<P>, p: P)
    requires AllAttached(cfg) && p in cfg.kind && cfg.kind[p] == External
    ensures p in cfg.attached
  {
  }

  /** One more on both sides of the account, or on neither. */
  lemma Rebalance<C, P>(cfg: Config<P>, s: State<C, P>, t: State<C, P>, p: P, before: nat, after: nat, more: nat)
    requires p in cfg.uri && Balanced(cfg, s, p, before) && more <= 1
    requires |Holders(t, cfg.uri[p])| + after == |Holders(s, cfg.uri[p])| + before + more < TWO_64
    requires Count(t, p) == if more == 0 then Count(s, p) else (Count(s, p) + 1) % TWO_64
    requires multiset(t.ticks)[p] == multiset(s.ticks)[p] + if Count(s, p) == 0 then more else 0
    ensures Balanced(cfg, t, p, after)
  {
    hide Holders;
  }

  lemma NoClash<P>(cfg: Config<P>, p: P, q: P)
    requires Complete(cfg) && DistinctUris(cfg) && p in cfg.kind && q in cfg.kind
    ensures !Clash(cfg, p, q)
  {
  }

  lemma CountUpEffect<C, P>(cfg: Config<P>, s: State<C, P>, q: P, p: P)
    requires Complete(cfg) && q in cfg.kind && p in cfg.kind && cfg.kind[p] == External && p in cfg.attached
    ensures var t := CountUp(cfg, s, q);
            var more := if q == p then 1 else 0;
            && t.held == s.held
            && Count(t, p) == (if q == p then (Count(s, p) + 1) % TWO_64 else Count(s, p))
            && multiset(t.ticks)[p] == multiset(s.ticks)[p] + if Count(s, p) == 0 then more else 0
  {
  }

  lemma SameHolders<C, P>(s: State<C, P>, t: State<C, P>, uri: Uri)
    requires s.held == t.held
    ensures Holders(s, uri) == Holders(t, uri)
  {
  }

  lemma UnobserveBalanced<C, P>(cfg: Config<P>, s: State<C, P>, c: C, q: P, p: P, leaked: nat)
    requires Complete(cfg) && DistinctUris(cfg) && AllAttached(cfg)
    requires q in cfg.kind && p in cfg.kind && cfg.kind[p] == External
    requires Balanced(cfg, s, p, leaked) && Count(s, p) < TWO_64
    ensures Balanced(cfg, Step(cfg, s, Event<C, P>.Unobserve(c, q)), p, leaked)
  {
    hide Holders, Without, DistinctUris;
    NoClash(cfg, p, q);
    var t := UnobserveStep(cfg, s, c, q).0;
    if cfg.kind[q] != NotObservable && cfg.uri[q] in Held(s, c) {
      HoldersLose(s, t, c, cfg.uri[p], cfg.uri[q]);
    }
  }

  lemma {:induction false} CountBound<C, P>(cfg: Config<P>, es: seq<Event<C, P>>, uri: Uri)
    requires Complete(cfg) && AllKnown(cfg, es)
    ensures |Holders(Run(cfg, es), uri)| <= |Contexts(es)|
  {
    hide Run;
    OnlyContexts(cfg, es, uri);
    SubsetSize(Holders(Run(cfg, es), uri), Contexts(es));
  }

  function Contexts<C(==), P>(es: seq<Event<C, P>>): set<C> {
    set i | 0 <= i < |es| :: es[i].c
  }

  lemma {:induction false} OnlyContexts<C, P>(cfg: Config<P>, es: seq<Event<C, P>>, uri: Uri)
    requires Complete(cfg) && AllKnown(cfg, es)
    ensures Run(cfg, es).held.Keys <= Contexts(es)
    ensures Holders(Run(cfg, es), uri) <= Contexts(es)
  {
    if es != [] {
      var front := es[..|es| - 1];
      OnlyContexts(cfg, front, uri);
      assert Contexts(front) <= Contexts(es);
      assert es[|es| - 1].c in Contexts(es);
    }
  }

  /**
   * Over every run of observing and unobserving contexts, each external parameter's count is the number of
   * contexts that hold its URI plus the observations that were lost because reading the value threw.
   */
  lemma {:induction false} RunBalanced<C, P>(cfg: Config<P>, es: seq<Event<C, P>>, p: P)
    requires Complete(cfg) && DistinctUris(cfg) && AllAttached(cfg) && AllKnown(cfg, es)
    requires p in cfg.kind && cfg.kind[p] == External
    requires |Contexts(es)| + Leaked(cfg, es, p) < TWO_64
    ensures Balanced(cfg, Run(cfg, es), p, Leaked(cfg, es, p))
  {
    hide Step, Balanced, DistinctUris, AllAttached, Contexts, Leaks;
    if es == [] {
      StartBalanced<C, P>(cfg, p);
    } else {
      var front, e := es[..|es| - 1], es[|es| - 1];
      FewerContexts(es);
      RunBalanced(cfg, front, p);
      CountBound(cfg, front, cfg.uri[p]);
      CountBound(cfg, es, cfg.uri[p]);
      StepBalanced(cfg, Run(cfg, front), e, p, Leaked(cfg, front, p));
    }
  }

  lemma StepBalanced<C, P>(cfg: Config<P>, s: State<C, P>, e: Event<C, P>, p: P, leaked: nat)
    requires Complete(cfg) && DistinctUris(cfg) && AllAttached(cfg) && Known(cfg, e)
    requires p in cfg.kind && cfg.kind[p] == External
    requires Balanced(cfg, s, p, leaked) && |Holders(s, cfg.uri[p])| + leaked < TWO_64
    requires |Holders(Step(cfg, s, e), cfg.uri[p])| + leaked + (if Leaks(cfg, s, e, p) then 1 else 0) < TWO_64
    ensures Balanced(cfg, Step(cfg, s, e), p, leaked + if Leaks(cfg, s, e, p) then 1 else 0)
  {
    hide DistinctUris, AllAttached, Holders;
    match e
    case Observe(c, level, q, fails) => ObserveBalanced(cfg, s, c, level, q, fails, p, leaked);
    case Unobserve(c, q) => UnobserveBalanced(cfg, s, c, q, p, leaked);
  }

  lemma StartBalanced<C, P>(cfg: Config<P>, p: P)
    requires p in cfg.uri
    ensures Balanced(cfg, State<C, P>.State(map[], map[], []), p, 0)
  {
    var start: State<C, P> := State(map[], map[], []);
    assert Holders(start, cfg.uri[p]) == {};
  }

  lemma FewerContexts<C, P>(es: seq<Event<C, P>>)
    requires es != []
    ensures |Contexts(es[..|es| - 1])| <= |Contexts(es)|
  {
    assert Contexts(es[..|es| - 1]) <= Contexts(es);
    SubsetSize(Contexts(es[..|es| - 1]), Contexts(es));
  }

  /** Without failures the account is exact: the count is the number of holders, and it never underflows. */
  lemma CountsAreExact<C, P>(cfg: Config<P>, es: seq<Event<C, P>>, p: P)
    requires Complete(cfg) && DistinctUris(cfg) && AllAttached(cfg) && AllKnown(cfg, es)
    requires p in cfg.kind && cfg.kind[p] == External
    requires |Contexts(es)| + Leaked(cfg, es, p) < TWO_64
    ensures Balanced(cfg, Run(cfg, es), p, 0) <==> Leaked(cfg, es, p) == 0
  {
    RunBalanced(cfg, es, p);
  }

  /** The level of a user who may read what has the read level: a read-only user (4) counts as a normal one (3). */
  predicate Admitted(level: int, readlevel: int) {
    if level == 4 then 3 <= readlevel else level <= readlevel
  }

  /**
   * Exactly when each outcome occurs: an object that cannot be observed, a user without access, a value that
   * is read or delivered and throws, and success. A read-only user gets what a normal user gets.
   */
  lemma ObserveOutcomeIff<C, P>(cfg: Config<P>, s: State<C, P>, c: C, level: int, p: P, fails: bool)
    requires Complete(cfg) && p in cfg.kind
    ensures var r := ObserveStep(cfg, s, c, level, p, fails).1;
            var admitted := cfg.kind[p] != NotObservable && Admitted(level, cfg.readlevel[p]);
            var read := cfg.uri[p] in Held(s, c) || cfg.kind[p] == Managed || p in cfg.attached;
            && (r == InvalidParameter <==> cfg.kind[p] == NotObservable)
            && (r == AccessDenied <==> cfg.kind[p] != NotObservable && !Admitted(level, cfg.readlevel[p]))
            && (r == Threw <==> admitted && fails && read)
            && (r == Done <==> admitted && !(fails && read))
    ensures var (t, r) := ObserveStep(cfg, s, c, level, p, fails);
            && (r == InvalidParameter || r == AccessDenied ==> t == s)
            && (forall d :: Held(t, d) == if d == c && r == Done then Held(s, d) + {cfg.uri[p]} else Held(s, d))
            && (forall q :: q != p ==> Count(t, q) == Count(s, q))
    ensures ObserveStep(cfg, s, c, 4, p, fails) == ObserveStep(cfg, s, c, 3, p, fails)
  {
    CountUpIsLocal(cfg, s, p);
    hide CountUp;
  }

  lemma CountUpIsLocal<C, P>(cfg: Config<P>, s: State<C, P>, p: P)
    requires p in cfg.kind
    ensures CountUp(cfg, s, p).held == s.held
    ensures forall q :: q != p ==> Count(CountUp(cfg, s, p), q) == Count(s, q)
  {
  }

  lemma UnobserveOutcomeIff<C, P>(cfg: Config<P>, s: State<C, P>, c: C, p: P)
    requires Complete(cfg) && p in cfg.kind
    ensures var r := UnobserveStep(cfg, s, c, p).1;
            && (r == NotSubscribed <==> cfg.uri[p] !in Held(s, c))
            && (r == InvalidParameter <==> cfg.uri[p] in Held(s, c) && cfg.kind[p] == NotObservable)
            && (r == Done <==> cfg.uri[p] in Held(s, c) && cfg.kind[p] != NotObservable)
    ensures var (t, r) := UnobserveStep(cfg, s, c, p);
            && (r != Done ==> t == s)
            && (forall d :: Held(t, d) == if d == c && r == Done then Held(s, d) - {cfg.uri[p]} else Held(s, d))
  {
    hide Without;
  }

  // --- Who holds what, over all runs -----------------------------------------------------------------

  /** The context observes an object with this URI to which it has access, and its value does not throw. */
  predicate Grants<C(==), P(==)>(cfg: Config<P>, e: Event<C, P>, c: C, uri: Uri)
    requires Complete(cfg) && Known(cfg, e)
  {
    && e.Observe? && e.c == c && cfg.uri[e.p] == uri
    && cfg.kind[e.p] != NotObservable && Admitted(e.level, cfg.readlevel[e.p])
    && !(e.fails && (cfg.kind[e.p] == Managed || e.p in cfg.attached))
  }

  predicate Revokes<C(==), P(==)>(cfg: Config<P>, e: Event<C, P>, c: C, uri: Uri)
    requires Complete(cfg) && Known(cfg, e)
  {
    e.Unobserve? && e.c == c && cfg.uri[e.p] == uri && cfg.kind[e.p] != NotObservable
  }

  ghost predicate GrantedAt<C, P>(cfg: Config<P>, es: seq<Event<C, P>>, c: C, uri: Uri, i: nat)
    requires Complete(cfg) && AllKnown(cfg, es)
  {
    i < |es| && Grants(cfg, es[i], c, uri) && forall j :: i < j < |es| ==> !Revokes(cfg, es[j], c, uri)
  }

  lemma StepHolds<C, P>(cfg: Config<P>, s: State<C, P>, e: Event<C, P>, c: C, uri: Uri)
    requires Complete(cfg) && Known(cfg, e)
    ensures uri in Held(Step(cfg, s, e), c) <==>
              Grants(cfg, e, c, uri) || (uri in Held(s, c) && !Revokes(cfg, e, c, uri))
  {
    CountsKeepHeld(cfg, s, e.p);
    hide CountUp, CountDown;
    if e.Unobserve? {
      CountsKeepHeld(cfg, s.(held := s.held[e.c := Held(s, e.c) - {cfg.uri[e.p]}]), e.p);
    }
  }

  lemma CountsKeepHeld<C, P>(cfg: Config<P>, s: State<C, P>, p: P)
    requires p in cfg.kind
    ensures CountUp(cfg, s, p).held == s.held == CountDown(cfg, s, p).held
  {
    hide Without;
  }

  /**
   * Over every run a context holds a URI exactly if it once observed an object of that URI, had access to it
   * and got its value, and has not taken that back since.
   */
  lemma {:induction false} HeldIff<C, P>(cfg: Config<P>, es: seq<Event<C, P>>, c: C, uri: Uri)
    requires Complete(cfg) && AllKnown(cfg, es)
    ensures uri in Held(Run(cfg, es), c) <==> exists i: nat :: GrantedAt(cfg, es, c, uri, i)
  {
    hide Step, Grants, Revokes;
    if es != [] {
      var front, last := es[..|es| - 1], |es| - 1;
      HeldIff(cfg, front, c, uri);
      StepHolds(cfg, Run(cfg, front), es[last], c, uri);
      if Grants(cfg, es[last], c, uri) {
        assert GrantedAt(cfg, es, c, uri, last);
      }
      if i: nat :| GrantedAt(cfg, front, c, uri, i) && !Revokes(cfg, es[last], c, uri) {
        assert GrantedAt(cfg, es, c, uri, i);
      }
      if i: nat :| GrantedAt(cfg, es, c, uri, i) && i < last {
        assert forall j :: i < j < |front| ==> front[j] == es[j];
        assert GrantedAt(cfg, front, c, uri, i);
      }
    }
  }

  /** The polled parameters keep their order; a new one comes last. */
  lemma PolledInOrder<C, P>(cfg: Config<P>, s: State<C, P>, e: Event<C, P>)
    requires Complete(cfg) && Known(cfg, e)
    ensures var t := Step(cfg, s, e).ticks;
            t == s.ticks || t == Without(s.ticks, e.p) || (t == s.ticks + [e.p] && Count(s, e.p) == 0)
  {
    hide Without;
  }

  /** Taking an observation back restores who holds what, the count, and the list of polled parameters. */
  lemma UnobserveUndoesObserve<C, P>(cfg: Config<P>, s: State<C, P>, c: C, level: int, p: P, leaked: nat)
    requires Complete(cfg) && p in cfg.kind && (cfg.kind[p] == External ==> p in cfg.attached)
    requires cfg.kind[p] == External ==> Balanced(cfg, s, p, leaked) && Count(s, p) < TWO_64 - 1
    requires cfg.uri[p] !in Held(s, c) && ObserveStep(cfg, s, c, level, p, false).1 == Done
    ensures var (t, r) := UnobserveStep(cfg, ObserveStep(cfg, s, c, level, p, false).0, c, p);
            && r == Done && t.ticks == s.ticks
            && (forall d :: Held(t, d) == Held(s, d)) && (forall q :: Count(t, q) == Count(s, q))
  {
    hide CountUp, CountDown, Balanced;
    var uri := cfg.uri[p];
    var held := s.held[c := Held(s, c) + {uri}];
    assert Held(s, c) + {uri} - {uri} == Held(s, c);
    CountUpKeepsHeld(cfg, s, p);
    CountDownUndoesUp(cfg, s, held[c := Held(s, c)], p, leaked);
  }

  lemma CountUpKeepsHeld<C, P>(cfg: Config<P>, s: State<C, P>, p: P)
    requires p in cfg.kind
    ensures CountUp(cfg, s, p).held == s.held
  {
  }

  lemma CountDownUndoesUp<C, P>(cfg: Config<P>, s: State<C, P>, held: map<C, set<Uri>>, p: P, leaked: nat)
    requires Complete(cfg) && p in cfg.kind && (cfg.kind[p] == External ==> p in cfg.attached)
    requires cfg.kind[p] == External ==> Balanced(cfg, s, p, leaked) && Count(s, p) < TWO_64 - 1
    ensures var t := CountDown(cfg, CountUp(cfg, s, p).(held := held), p);
            t.held == held && t.ticks == s.ticks && forall q :: Count(t, q) == Count(s, q)
  {
    hide Holders, Without, CountUp, CountDown;
    if cfg.kind[p] == External {
      var n := Count(s, p);
      CountUpIs(cfg, s, p);
      var u := CountUp(cfg, s, p).(held := held);
      CountDownIs(cfg, u, p);
      if n == 0 {
        WithoutLast(s.ticks, p);
      }
      forall q ensures Count(CountDown(cfg, u, p), q) == Count(s, q) {
      }
    } else {
      ManagedUncounted(cfg, s, p);
      ManagedUncounted(cfg, s.(held := held), p);
    }
  }

  lemma CountUpIs<C, P>(cfg: Config<P>, s: State<C, P>, p: P)
    requires p in cfg.kind && cfg.kind[p] == External && p in cfg.attached && Count(s, p) < TWO_64 - 1
    ensures CountUp(cfg, s, p) == s.(count := s.count[p := Count(s, p) + 1],
                                     ticks := if Count(s, p) == 0 then s.ticks + [p] else s.ticks)
  {
  }

  lemma CountDownIs<C, P>(cfg: Config<P>, s: State<C, P>, p: P)
    requires p in cfg.kind && cfg.kind[p] == External && p in cfg.attached && 0 < Count(s, p) < TWO_64
    ensures CountDown(cfg, s, p) == s.(count := s.count[p := Count(s, p) - 1],
                                       ticks := if Count(s, p) == 1 then Without(s.ticks, p) else s.ticks)
  {
  }

  lemma ManagedUncounted<C, P>(cfg: Config<P>, s: State<C, P>, p: P)
    requires p in cfg.kind && cfg.kind[p] != External
    ensures CountUp(cfg, s, p) == s && CountDown(cfg, s, p) == s
  {
  }

  lemma {:induction false} WithoutLast<T>(s: seq<T>, x: T)
    requires multiset(s)[x] == 0
    ensures Without(s + [x], x) == s
  {
    if s == [] {
      assert s + [x] == [x];
    } else {
      assert s == [s[0]] + s[1..];
      assert (s + [x])[1..] == s[1..] + [x];
      WithoutLast(s[1..], x);
    }
  }

  // --- Exactly when the account can be kept ---------------------------------------------------------

  ghost predicate AlwaysBalanced<C(!new), P(!new)>(cfg: Config<P>, c: C)
    requires Complete(cfg)
  {
    forall p, es: seq<Event<C, P>> ::
      p in cfg.kind && cfg.kind[p] == External && AllKnown(cfg, es) && |Contexts(es)| + Leaked(cfg, es, p) < TWO_64
      ==> Balanced(cfg, Run(cfg, es), p, Leaked(cfg, es, p))
  }

  /** Unique URIs and a dictionary at the root are not only enough: without either, some run breaks the account. */
  lemma BalancedIffDistinct<C(!new), P(!new)>(cfg: Config<P>, c: C)
    requires Complete(cfg)
    ensures AlwaysBalanced(cfg, c) <==> DistinctUris(cfg) && AllAttached(cfg)
  {
    hide Balanced, Run, Leaked, Contexts;
    if DistinctUris(cfg) && AllAttached(cfg) {
      forall p, es: seq<Event<C, P>> |
        p in cfg.kind && cfg.kind[p] == External && AllKnown(cfg, es)
        && |Contexts(es)| + Leaked(cfg, es, p) < TWO_64
        ensures Balanced(cfg, Run(cfg, es), p, Leaked(cfg, es, p))
      {
        RunBalanced(cfg, es, p);
      }
    } else if !DistinctUris(cfg) {
      var p, q :| p in cfg.kind && q in cfg.kind && Clash(cfg, p, q);
      OneObserver(cfg, c, q, p);
    } else {
      var p :| p in cfg.kind && cfg.kind[p] == External && p !in cfg.attached;
      OneObserver(cfg, c, p, p);
    }
  }

  lemma RunOne<C, P>(cfg: Config<P>, e: Event<C, P>)
    requires Complete(cfg) && Known(cfg, e)
    ensures Run(cfg, [e]) == Step(cfg, State(map[], map[], []), e)
    ensures Leaked(cfg, [e], e.p) == if Leaks(cfg, State(map[], map[], []), e, e.p) then 1 else 0
  {
    var es := [e];
    var front := es[..|es| - 1];
    assert front == [];
    assert Run(cfg, front) == State(map[], map[], []);
  }

  /** One observation through `q` that `p` does not count although it has the same URI. */
  lemma OneObserver<C, P>(cfg: Config<P>, c: C, q: P, p: P)
    requires Complete(cfg) && p in cfg.kind && q in cfg.kind && cfg.uri[p] == cfg.uri[q]
    requires cfg.kind[q] != NotObservable && (p != q || p !in cfg.attached)
    ensures var es: seq<Event<C, P>> := [Observe(c, cfg.readlevel[q], q, false)];
            && AllKnown(cfg, es) && Leaked(cfg, es, p) == 0 && |Contexts(es)| < TWO_64
            && !Balanced(cfg, Run(cfg, es), p, 0)
  {
    var es: seq<Event<C, P>> := [Observe(c, cfg.readlevel[q], q, false)];
    assert Contexts(es) == {c} by {
      assert es[0].c == c;
    }
    var s := Run(cfg, es);
    RunOne(cfg, es[0]);
    assert c in Holders(s, cfg.uri[p]);
    assert Count(s, p) == 0;
  }
}

/** The classes: parameters and contexts that share a dictionary. */
module Subscriptions {
  import opened Bytes
  import opened Numerals
  import opened Links
  import opened SubscriptionSpec

  class Dictionary {
    var tickTargets: seq<Parameter>

    constructor ()
      ensures tickTargets == []
    {
      tickTargets := [];
    }

    method RegisterForTick(target: Parameter)
      modifies this
      ensures tickTargets == old(tickTargets) + [target]
    {
      tickTargets := tickTargets + [target];
    }

    /** The list's `remove`: every occurrence goes. */
    method UnregisterForTick(target: Parameter)
      modifies this
      ensures tickTargets == Without(old(tickTargets), target)
    {
      tickTargets := Without(tickTargets, target);
    }
  }

  class Parameter {
    const kind: Kind
    const uri: Uri
    const readlevel: int
    const od: Dictionary?
    var observations: nat

    constructor (kind: Kind, uri: Uri, readlevel: int, od: Dictionary?)
      ensures this.kind == kind && this.uri == uri && this.readlevel == readlevel && this.od == od
      ensures observations == 0
    {
      this.kind, this.uri, this.readlevel, this.od, observations := kind, uri, readlevel, od, 0;
    }

    /** The result is false where emitting the current value throws. */
    method Observe(fails: bool, ghost w: World) returns (ok: bool)
      requires w.Valid() && this in w.params && kind != NotObservable
      modifies this, w.od
      ensures w.Snapshot() == CountUp(w.Config(), old(w.Snapshot()), this)
      ensures ok == !(fails && ReadsValue(w.Config(), this))
    {
      if kind == External {
        if od == null {
          return true;
        }
        var before := observations;
        observations := (observations + 1) % TWO_64;
        if before == 0 {
          od.RegisterForTick(this);
        }
      }
      ok := !fails;
    }

    method Unobserve(ghost w: World)
      requires w.Valid() && this in w.params && kind != NotObservable
      modifies this, w.od
      ensures w.Snapshot() == CountDown(w.Config(), old(w.Snapshot()), this)
    {
      hide Without;
      if kind == External {
        observations := (observations + TWO_64 - 1) % TWO_64;
        if observations == 0 {
          if od != null {
            od.UnregisterForTick(this);
          }
        }
      }
    }
  }

  class ClientContext {
    var userlevel: int
    var observables: set<Uri>

    constructor (userlevel: int)
      ensures this.userlevel == userlevel && observables == {}
    {
      this.userlevel, observables := userlevel, {};
    }

    method EffectiveUserlevel() returns (r: int)
      ensures r == Effective(userlevel)
    {
      r := if userlevel == 4 then 3 else userlevel;
    }

    method Observe(obj: Parameter?, fails: bool, ghost w: World) returns (r: Outcome)
      requires w.Valid() && this in w.contexts && (obj != null ==> obj in w.params)
      modifies this`observables, w.params, w.od
      ensures obj == null ==> r == InvalidParameter && w.Snapshot() == old(w.Snapshot())
      ensures obj != null ==>
                (w.Snapshot(), r) == ObserveStep(w.Config(), old(w.Snapshot()), this, old(userlevel), obj, fails)
    {
      if obj == null || obj.kind == NotObservable {
        return InvalidParameter;
      }
      var level := EffectiveUserlevel();
      if level > obj.readlevel {
        return AccessDenied;
      }
      if obj.uri !in observables {
        var ok := obj.Observe(fails, w);
        if !ok {
          return Threw;
        }
        ghost var counted := w.Snapshot();
        observables := observables + {obj.uri};
        assert w.Snapshot() == counted.(held := counted.held[this := observables]);
      } else if fails {
        return Threw;
      }
      r := Done;
    }

    method Unobserve(obj: Parameter?, ghost w: World) returns (r: Outcome)
      requires w.Valid() && this in w.contexts && (obj != null ==> obj in w.params)
      modifies this`observables, w.params, w.od
      ensures var given: Option<Parameter> := if obj == null then None else Some(obj);
              (w.Snapshot(), r) == UnobserveObject(w.Config(), old(w.Snapshot()), this, given)
    {
      if obj == null {
        return Undefined;
      }
      if obj.uri !in observables {
        return NotSubscribed;
      }
      if obj.kind == NotObservable {
        return InvalidParameter;
      }
      ghost var before := w.Snapshot();
      observables := observables - {obj.uri};
      assert w.Snapshot() == before.(held := before.held[this := observables]);
      obj.Unobserve(w);
      r := Done;
    }
  }

  /** The live contexts and the objects of a fixed tree; parameters hang below the dictionary or elsewhere. */
  datatype World = World(contexts: set<ClientContext>, params: set<Parameter>, od: Dictionary) {
    ghost predicate Valid() {
      forall p :: p in params ==> p.od == null || p.od == od
    }

    ghost function Config(): (cfg: SubscriptionSpec.Config<Parameter>)
      ensures Complete(cfg) && cfg.kind.Keys == params
    {
      SubscriptionSpec.Config(map p | p in params :: p.kind, map p | p in params :: p.uri,
                              map p | p in params :: p.readlevel, set p | p in params && p.od == od)
    }

    ghost function Snapshot(): State<ClientContext, Parameter>
      reads contexts, params, od
    {
      State(map c | c in contexts :: c.observables, map p | p in params :: p.observations, od.tickTargets)
    }
  }
}

/** A well-named tree below a dictionary meets the conditions of the account. */
module TreeSubscriptions {
  import opened Bytes
  import opened Links
  import opened Ancestry
  import opened Naming
  import opened SubscriptionSpec

  /** The configuration of a tree: qualified names, and who has the dictionary for a root. */
  ghost predicate Describes<T>(cfg: Config<T>, g: Graph<T>, names: map<T, Name>, root: T)
    requires Complete(cfg) && Acyclic(g.parent) && Named(g, names)
  {
    && cfg.kind.Keys <= g.parent.Keys
    && (forall o :: o in cfg.kind ==> cfg.uri[o] == FqName(g, names, o, 58))
    && (forall o :: o in cfg.kind ==> (o in cfg.attached <==> RootOf(g.parent, o) == root))
  }

  lemma TreeIsDistinct<T>(cfg: Config<T>, g: Graph<T>, names: map<T, Name>, root: T)
    requires Complete(cfg) && WellNamed(g, names, 58) && Describes(cfg, g, names, root)
    requires forall o :: o in cfg.kind ==> RootOf(g.parent, o) == root
    ensures DistinctUris(cfg) && AllAttached(cfg)
  {
    hide FqName, WellNamed, RootOf;
    forall p, q | p in cfg.kind && q in cfg.kind ensures !Clash(cfg, p, q) {
      if p != q {
        FqNamesDiffer(g, names, p, q, 58);
      }
    }
  }

  /** The URI is the name of `o` without the root's name in front. */
  ghost predicate NamesBelow<T>(g: Graph<T>, names: map<T, Name>, root: T, uri: Name, o: T)
    requires Acyclic(g.parent) && Named(g, names) && root in names
  {
    o in g.parent && RootOf(g.parent, o) == root && FqName(g, names, o, 58) == names[root] + [58] + uri
  }

  /**
   * Unsubscribing passes on what the look-up of the URI finds. It is undefined exactly for a URI that is not
   * the name of an object behind the root's name.
   */
  lemma UnsubscribeIsUndefinedIff<C, T>(cfg: Config<T>, g: Graph<T>, names: map<T, Name>, root: T,
                                        s: State<C, T>, c: C, uri: Name)
    requires Complete(cfg) && WellNamed(g, names, 58) && cfg.kind.Keys == g.parent.Keys
    requires root in g.parent && g.parent[root].None?
    ensures var obj := FindDescendant(g, names, root, uri, 58);
            && (obj.Some? ==> obj.value in cfg.kind)
            && (UnobserveObject(cfg, s, c, obj).1 == Undefined <==>
                !exists o :: o in g.parent && NamesBelow(g, names, root, uri, o))
  {
    hide FqName, RootOf, FindDescendant, CountDown;
    var obj := FindDescendant(g, names, root, uri, 58);
    NamedFrom(g, names, 58);
    FqNameStep(g, names, root, 58);
    RootOfRoot(g.parent, root);
    if obj.Some? {
      DescendantSound(g, names, root, uri, 58);
      assert NamesBelow(g, names, root, uri, obj.value);
    }
    if o :| o in g.parent && NamesBelow(g, names, root, uri, o) {
      FqNameStep(g, names, o, 58);
      assert o != root;
      RootOfRoot(g.parent, o);
      RelativeIsRest(g, names, o, 58);
      RelativeIsFound(g, names, o, 58);
      SameTail(names[root] + [58], uri, Relative(g, names, o, 58));
    }
  }

  lemma RootOfRoot<T>(p: map<T, Option<T>>, root: T)
    requires Rooted(p, root) && root in p
    ensures p[root].None? ==> RootOf(p, root) == root
  {
  }

  lemma SameTail(front: seq<byte>, a: seq<byte>, b: seq<byte>)
    requires front + a == front + b
    ensures a == b
  {
    assert (front + a)[|front|..] == a && (front + b)[|front|..] == b;
  }
}
