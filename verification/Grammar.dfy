/** The value grammar, its derivation trees with their semantic values, and a direct reading of token sequences. */
module Grammar {
  import opened Bytes
  import opened Numerals
  import opened Escapes
  import opened ScannerSpec
  import opened Values
  import Base64

  const COMMA := 44
  const LBRACKET := 91
  const RBRACKET := 93
  const LBRACE := 123
  const RBRACE := 125

  const EXPRESSION := 268
  const SCALAR := 269
  const OPT_SERIES := 270
  const SERIES := 271
  const SEQUENCE := 272
  const TUPLE := 273

  const PRODUCTIONS := 14

  /** The left-hand side of each production. */
  function Lhs(p: nat): int
    requires 1 <= p <= PRODUCTIONS
  {
    if p <= 3 then EXPRESSION else if p <= 8 then SCALAR else if p <= 10 then OPT_SERIES
    else if p <= 12 then SERIES else if p == 13 then SEQUENCE else TUPLE
  }

  /** The right-hand side of each production. */
  function Rhs(p: nat): seq<int>
    requires 1 <= p <= PRODUCTIONS
  {
    match p
    case 1 => [SCALAR]
    case 2 => [SEQUENCE]
    case 3 => [TUPLE]
    case 4 => [BOOLEAN]
    case 5 => [INTEGER]
    case 6 => [REAL]
    case 7 => [STRING]
    case 8 => [BINARY]
    case 9 => []
    case 10 => [SERIES]
    case 11 => [SCALAR]
    case 12 => [SERIES, COMMA, SCALAR]
    case 13 => [LBRACKET, OPT_SERIES, RBRACKET]
    case _ => [LBRACE, OPT_SERIES, RBRACE]
  }

  datatype Tree = Leaf(t: Token) | Node(p: nat, kids: seq<Tree>)

  function Root(t: Tree): int {
    match t
    case Leaf(tok) => tok.code
    case Node(p, _) => if 1 <= p <= PRODUCTIONS then Lhs(p) else 0
  }

  /** `t` is a derivation tree: every inner node expands by one of the productions. */
  ghost predicate Derivation(t: Tree) {
    match t
    case Leaf(tok) => 0 < tok.code < EXPRESSION
    case Node(p, kids) =>
      && 1 <= p <= PRODUCTIONS && |kids| == |Rhs(p)|
      && forall i :: 0 <= i < |kids| ==> Derivation(kids[i]) && Root(kids[i]) == Rhs(p)[i]
  }

  /** The tokens a tree derives. */
  function Yield(t: Tree): seq<Token> {
    match t
    case Leaf(tok) => [tok]
    case Node(_, kids) => YieldAll(kids)
  }

  function YieldAll(kids: seq<Tree>): seq<Token> {
    if kids == [] then [] else Yield(kids[0]) + YieldAll(kids[1..])
  }

  predicate IsScalarCode(code: int) {
    BOOLEAN <= code <= BINARY
  }

  /**
   * The conversion of a scalar token's text. A string of fewer than two characters would have its iterators
   * the wrong way round.
   */
  function Convert(lib: Library, t: Token): Computed<Scalar>
    requires IsScalarCode(t.code)
  {
    if t.code == BOOLEAN then Ok(Boolean(t.lexeme == [35, 116]))
    else if t.code == INTEGER then
      match StoI(t.lexeme)
      case Some(i) => Ok(Integer(i))
      case None => Err(Exception)
    else if t.code == REAL then
      match lib.stod(t.lexeme)
      case Some(r) => Ok(Real(r))
      case None => Err(Exception)
    else if t.code == STRING then
      if |t.lexeme| < 2 then Err(UndefinedBehaviour)
      else match Unescape(t.lexeme[1..|t.lexeme| - 1])
           case Some(s) => Ok(String(s))
           case None => Err(Exception)
    else if t.lexeme == [] then Err(Exception)
    else match Base64.Decode(t.lexeme[1..])
         case Ok(bytes) => Ok(Binary(bytes))
         case Err(f) => Err(f)
  }

  /** Elements are converted from left to right; the first failure counts. */
  function Append(xs: Computed<seq<Scalar>>, x: Computed<Scalar>): Computed<seq<Scalar>> {
    if xs.Err? then xs else if x.Err? then Err(x.failure) else Ok(xs.value + [x.value])
  }

  /** The semantic value of a `scalar` tree. */
  ghost function ScalarOf(lib: Library, t: Tree): Computed<Scalar>
    requires Derivation(t) && Root(t) == SCALAR
  {
    Convert(lib, t.kids[0].t)
  }

  /** The semantic value of an `opt_series`, `series`, `sequence` or `tuple` tree. */
  ghost function SeriesOf(lib: Library, t: Tree): Computed<seq<Scalar>>
    requires Derivation(t) && OPT_SERIES <= Root(t) <= TUPLE
  {
    match t.p
    case 9 => Ok([])
    case 10 => SeriesOf(lib, t.kids[0])
    case 11 => Append(Ok([]), ScalarOf(lib, t.kids[0]))
    case 12 => Append(SeriesOf(lib, t.kids[0]), ScalarOf(lib, t.kids[2]))
    case 13 => SeriesOf(lib, t.kids[1])
    case 14 => SeriesOf(lib, t.kids[1])
  }

  /** The semantic value of an `expression` tree. */
  ghost function ValueOf(lib: Library, t: Tree): Computed<Value>
    requires Derivation(t) && Root(t) == EXPRESSION
  {
    if t.p == 1 then
      match ScalarOf(lib, t.kids[0])
      case Ok(x) => Ok(Single(x))
      case Err(f) => Err(f)
    else
      match SeriesOf(lib, t.kids[0])
      case Ok(xs) => Ok(if t.p == 2 then Sequence(xs) else Tuple(xs))
      case Err(f) => Err(f)
  }

  /**
   * How parsing ends: 0 is returned with a value; 1 is returned, with the value already assigned if a whole
   * expression was recognised before the error; or a conversion fails.
   */
  datatype Outcome = Accepted(v: Value) | Rejected(result: Option<Value>) | Failed(failure: Failure)

  function Closer(open: int): int {
    if open == LBRACKET then RBRACKET else RBRACE
  }

  function Wrap(open: int, xs: seq<Scalar>): Value {
    if open == LBRACKET then Sequence(xs) else Tuple(xs)
  }

  function EndOf(v: Value, ts: seq<Token>): Outcome {
    if ts == [] then Accepted(v) else Rejected(Some(v))
  }

  function CloseOf(open: int, xs: seq<Scalar>, ts: seq<Token>): Outcome {
    if ts != [] && ts[0].code == Closer(open) then EndOf(Wrap(open, xs), ts[1..]) else Rejected(None)
  }

  /** After the elements `xs`: a comma and another scalar, or the closing character. */
  function SeriesRest(lib: Library, open: int, xs: seq<Scalar>, ts: seq<Token>): Outcome
    decreases |ts|, 1
  {
    if ts != [] && ts[0].code == COMMA then NextScalar(lib, open, xs, ts[1..]) else CloseOf(open, xs, ts)
  }

  function NextScalar(lib: Library, open: int, xs: seq<Scalar>, ts: seq<Token>): Outcome
    decreases |ts|, 0
  {
    if ts == [] || !IsScalarCode(ts[0].code) then Rejected(None)
    else
      match Convert(lib, ts[0])
      case Err(f) => Failed(f)
      case Ok(x) => SeriesRest(lib, open, xs + [x], ts[1..])
  }

  function OpenOf(lib: Library, open: int, ts: seq<Token>): Outcome {
    if ts != [] && IsScalarCode(ts[0].code) then NextScalar(lib, open, [], ts) else CloseOf(open, [], ts)
  }

  /** The outcome of parsing a token sequence, read from left to right. */
  function ParseTokens(lib: Library, ts: seq<Token>): Outcome {
    if ts == [] then Rejected(None)
    else if IsScalarCode(ts[0].code) then
      match Convert(lib, ts[0])
      case Err(f) => Failed(f)
      case Ok(x) => EndOf(Single(x), ts[1..])
    else if ts[0].code == LBRACKET || ts[0].code == LBRACE then OpenOf(lib, ts[0].code, ts[1..])
    else Rejected(None)
  }

  // Derivation trees and direct reading agree.

  function SeriesOutcome(lib: Library, open: int, xs: seq<Scalar>, more: Computed<seq<Scalar>>,
                         ts: seq<Token>): Outcome
  {
    if more.Err? then Failed(more.failure) else SeriesRest(lib, open, xs + more.value, ts)
  }

  lemma YieldOne(kids: seq<Tree>)
    requires |kids| == 1
    ensures YieldAll(kids) == Yield(kids[0])
  {
    assert YieldAll(kids[1..]) == [];
  }

  lemma YieldThree(kids: seq<Tree>)
    requires |kids| == 3
    ensures YieldAll(kids) == Yield(kids[0]) + Yield(kids[1]) + Yield(kids[2])
  {
    YieldOne(kids[1..][1..]);
  }

  lemma ScalarYield(t: Tree)
    requires Derivation(t) && Root(t) == SCALAR
    ensures t.kids[0].Leaf? && IsScalarCode(t.kids[0].t.code) && Yield(t) == [t.kids[0].t]
  {
    assert Derivation(t.kids[0]) && Root(t.kids[0]) == Rhs(t.p)[0];
    YieldOne(t.kids);
  }

  /** Reading what a series derives leads to its value, or fails as its first failing conversion does. */
  lemma {:induction false} SeriesIsRead(lib: Library, open: int, xs: seq<Scalar>, t: Tree, ts: seq<Token>)
    requires Derivation(t) && Root(t) == SERIES
    ensures Yield(t) != [] && IsScalarCode(Yield(t)[0].code)
    ensures NextScalar(lib, open, xs, Yield(t) + ts) == SeriesOutcome(lib, open, xs, SeriesOf(lib, t), ts)
    decreases t
  {
    if t.p == 11 {
      YieldOne(t.kids);
      ScalarYield(t.kids[0]);
      var tok := t.kids[0].kids[0].t;
      assert Yield(t) + ts == [tok] + ts && ([tok] + ts)[1..] == ts;
      assert Convert(lib, tok).Ok? ==> xs + ([] + [Convert(lib, tok).value]) == xs + [Convert(lib, tok).value];
    } else {
      var front, comma, last := t.kids[0], t.kids[1], t.kids[2];
      ScalarYield(last);
      YieldThree(t.kids);
      var tok := last.kids[0].t;
      var rest := [comma.t] + ([tok] + ts);
      assert Yield(t) + ts == Yield(front) + rest;
      SeriesIsRead(lib, open, xs, front, rest);
      assert rest[0].code == COMMA && rest[1..] == [tok] + ts && rest[1..][1..] == ts;
      assert Root(last) == SCALAR && SeriesOf(lib, t) == Append(SeriesOf(lib, front), Convert(lib, tok));
      if SeriesOf(lib, front).Ok? {
        var ys := xs + SeriesOf(lib, front).value;
        assert SeriesRest(lib, open, ys, rest) == NextScalar(lib, open, ys, rest[1..]);
      }
      if SeriesOf(lib, front).Ok? && Convert(lib, tok).Ok? {
        assert xs + (SeriesOf(lib, front).value + [Convert(lib, tok).value])
            == xs + SeriesOf(lib, front).value + [Convert(lib, tok).value];
      }
    }
  }

  lemma ClosedSeries(lib: Library, open: int, xs: seq<Scalar>, close: Token)
    requires (open == LBRACKET || open == LBRACE) && close.code == Closer(open)
    ensures SeriesRest(lib, open, xs, [close]) == CloseOf(open, xs, [close]) == Accepted(Wrap(open, xs))
  {
    assert [close][1..] == [];
  }

  /** Reading what an optional series derives, up to the closing character. */
  lemma OptionalIsRead(lib: Library, open: int, t: Tree, close: Token)
    requires Derivation(t) && Root(t) == OPT_SERIES
    requires (open == LBRACKET || open == LBRACE) && close.code == Closer(open)
    ensures OpenOf(lib, open, Yield(t) + [close])
         == match SeriesOf(lib, t)
            case Ok(xs) => Accepted(Wrap(open, xs))
            case Err(f) => Failed(f)
  {
    hide Convert, SeriesRest, NextScalar, CloseOf, Wrap;
    if t.p == 9 {
      assert Yield(t) + [close] == [close];
      ClosedSeries(lib, open, [], close);
    } else {
      YieldOne(t.kids);
      SeriesIsRead(lib, open, [], t.kids[0], [close]);
      if SeriesOf(lib, t).Ok? {
        assert [] + SeriesOf(lib, t).value == SeriesOf(lib, t).value;
        ClosedSeries(lib, open, SeriesOf(lib, t).value, close);
      }
    }
  }

  lemma BracketsAreRead(lib: Library, t: Tree)
    requires Derivation(t) && (Root(t) == SEQUENCE || Root(t) == TUPLE)
    ensures ParseTokens(lib, Yield(t))
         == match SeriesOf(lib, t)
            case Ok(xs) => Accepted(if Root(t) == SEQUENCE then Sequence(xs) else Tuple(xs))
            case Err(f) => Failed(f)
  {
    hide Convert, OpenOf;
    var open, inner, close := t.kids[0].t, t.kids[1], t.kids[2].t;
    YieldThree(t.kids);
    assert open.code == Rhs(t.p)[0] && close.code == Closer(open.code);
    var ts := Yield(inner) + [close];
    assert Yield(t) == [open] + ts && Yield(t)[1..] == ts;
    OptionalIsRead(lib, open.code, inner, close);
  }

  /** Completeness: what the grammar derives is accepted with the value the grammar assigns, or a conversion fails. */
  lemma DerivedIsAccepted(lib: Library, t: Tree)
    requires Derivation(t) && Root(t) == EXPRESSION
    ensures ParseTokens(lib, Yield(t))
         == match ValueOf(lib, t)
            case Ok(v) => Accepted(v)
            case Err(f) => Failed(f)
  {
    YieldOne(t.kids);
    if t.p == 1 {
      ScalarYield(t.kids[0]);
      assert Yield(t)[1..] == [];
    } else {
      BracketsAreRead(lib, t.kids[0]);
    }
  }

  lemma ScalarTree(tok: Token) returns (t: Tree)
    requires IsScalarCode(tok.code)
    ensures Derivation(t) && Root(t) == SCALAR && Yield(t) == [tok] && t.kids[0] == Leaf(tok)
  {
    var p := tok.code - BOOLEAN + 4;
    assert Rhs(p) == [tok.code] by {
      assert p == 4 || p == 5 || p == 6 || p == 7 || p == 8;
    }
    t := Node(p, [Leaf(tok)]);
    assert Derivation(t.kids[0]);
    YieldOne(t.kids);
  }

  lemma FirstOfSeries(lib: Library, tok: Token) returns (t: Tree)
    requires IsScalarCode(tok.code) && Convert(lib, tok).Ok?
    ensures Derivation(t) && Root(t) == SERIES && Yield(t) == [tok]
    ensures SeriesOf(lib, t) == Ok([Convert(lib, tok).value])
  {
    var x := ScalarTree(tok);
    t := Node(11, [x]);
    YieldOne(t.kids);
    assert [] + [Convert(lib, tok).value] == [Convert(lib, tok).value];
  }

  lemma LongerSeries(lib: Library, front: Tree, comma: Token, tok: Token) returns (t: Tree)
    requires Derivation(front) && Root(front) == SERIES && SeriesOf(lib, front).Ok?
    requires comma.code == COMMA && IsScalarCode(tok.code) && Convert(lib, tok).Ok?
    ensures Derivation(t) && Root(t) == SERIES && Yield(t) == Yield(front) + [comma, tok]
    ensures SeriesOf(lib, t) == Ok(SeriesOf(lib, front).value + [Convert(lib, tok).value])
  {
    var x := ScalarTree(tok);
    t := Node(12, [front, Leaf(comma), x]);
    var kids := t.kids;
    assert Derivation(kids[0]) && Derivation(kids[1]) && Derivation(kids[2]);
    assert Root(kids[0]) == Rhs(12)[0] && Root(kids[1]) == Rhs(12)[1] && Root(kids[2]) == Rhs(12)[2];
    YieldThree(kids);
  }

  lemma {:induction false} SeriesTree(lib: Library, open: int, front: Tree, ts: seq<Token>) returns (t: Tree)
    requires Derivation(front) && Root(front) == SERIES && SeriesOf(lib, front).Ok?
    requires SeriesRest(lib, open, SeriesOf(lib, front).value, ts).Accepted?
    ensures Derivation(t) && Root(t) == SERIES && SeriesOf(lib, t).Ok?
    ensures SeriesRest(lib, open, SeriesOf(lib, front).value, ts) == Accepted(Wrap(open, SeriesOf(lib, t).value))
    ensures ts != [] && Yield(front) + ts == Yield(t) + [ts[|ts| - 1]] && ts[|ts| - 1].code == Closer(open)
    decreases |ts|
  {
    hide SeriesOf, Convert, Yield, Derivation, Root, Wrap;
    if ts[0].code == COMMA {
      var longer := LongerSeries(lib, front, ts[0], ts[1]);
      assert ts == [ts[0], ts[1]] + ts[2..] && ts[1..][1..] == ts[2..];
      t := SeriesTree(lib, open, longer, ts[2..]);
    } else {
      t := front;
      assert ts == [ts[0]];
    }
  }

  lemma BracketTree(lib: Library, open: Token, inner: Tree, close: Token) returns (t: Tree)
    requires open.code == LBRACKET || open.code == LBRACE
    requires close.code == Closer(open.code) && Derivation(inner) && Root(inner) == OPT_SERIES
    requires SeriesOf(lib, inner).Ok?
    ensures Derivation(t) && Root(t) == EXPRESSION && Yield(t) == [open] + Yield(inner) + [close]
    ensures ValueOf(lib, t) == Ok(Wrap(open.code, SeriesOf(lib, inner).value))
  {
    var p := if open.code == LBRACKET then 13 else 14;
    var brackets := Node(p, [Leaf(open), inner, Leaf(close)]);
    YieldThree(brackets.kids);
    assert Derivation(Leaf(open)) && Derivation(Leaf(close));
    assert Derivation(brackets);
    t := Node(p - 11, [brackets]);
    YieldOne(t.kids);
  }

  lemma OptionalTree(lib: Library, open: int, ts: seq<Token>) returns (t: Tree)
    requires OpenOf(lib, open, ts).Accepted?
    ensures Derivation(t) && Root(t) == OPT_SERIES && SeriesOf(lib, t).Ok?
    ensures OpenOf(lib, open, ts) == Accepted(Wrap(open, SeriesOf(lib, t).value))
    ensures ts != [] && ts == Yield(t) + [ts[|ts| - 1]] && ts[|ts| - 1].code == Closer(open)
  {
    hide Convert, SeriesRest, Wrap;
    if IsScalarCode(ts[0].code) {
      var first := FirstOfSeries(lib, ts[0]);
      assert ts == [ts[0]] + ts[1..] && [] + [Convert(lib, ts[0]).value] == [Convert(lib, ts[0]).value];
      var series := SeriesTree(lib, open, first, ts[1..]);
      t := Node(10, [series]);
      YieldOne(t.kids);
    } else {
      t := Node(9, []);
      assert ts == [ts[0]];
    }
  }

  /** Soundness: an accepted token sequence has a derivation, and the value is the one the grammar assigns. */
  lemma AcceptedIsDerived(lib: Library, ts: seq<Token>) returns (t: Tree)
    requires ParseTokens(lib, ts).Accepted?
    ensures Derivation(t) && Root(t) == EXPRESSION && Yield(t) == ts
    ensures ValueOf(lib, t).Ok? && ParseTokens(lib, ts) == Accepted(ValueOf(lib, t).value)
  {
    if IsScalarCode(ts[0].code) {
      var x := ScalarTree(ts[0]);
      t := Node(1, [x]);
      YieldOne(t.kids);
      assert ts == [ts[0]];
    } else {
      hide SeriesOf, Yield, Derivation, Root, Wrap, OpenOf;
      var inner := OptionalTree(lib, ts[0].code, ts[1..]);
      t := BracketTree(lib, ts[0], inner, ts[|ts| - 1]);
      assert ts == [ts[0]] + ts[1..];
    }
  }

  /**
   * The parser's verdict on a token sequence is the grammar's: it is accepted with value `v` exactly if some
   * derivation of it has value `v`; since the verdict is a function, all its derivations agree.
   */
  lemma AcceptedIffDerived(lib: Library, ts: seq<Token>, v: Value)
    ensures ParseTokens(lib, ts) == Accepted(v)
       <==> exists t :: Derivation(t) && Root(t) == EXPRESSION && Yield(t) == ts && ValueOf(lib, t) == Ok(v)
  {
    if ParseTokens(lib, ts) == Accepted(v) {
      var t := AcceptedIsDerived(lib, ts);
    }
    if t :| Derivation(t) && Root(t) == EXPRESSION && Yield(t) == ts && ValueOf(lib, t) == Ok(v) {
      DerivedIsAccepted(lib, t);
    }
  }

  // --- Something behind an expression --------------------------------------------------------------

  /** What is accepted is followed by: nothing, or anything, and then the value stays assigned. */
  lemma {:induction false} SeriesFollowed(lib: Library, open: int, xs: seq<Scalar>, ts: seq<Token>, more: seq<Token>)
    ensures SeriesRest(lib, open, xs, ts).Accepted? ==>
              SeriesRest(lib, open, xs, ts + more) == EndOf(SeriesRest(lib, open, xs, ts).v, more)
    ensures NextScalar(lib, open, xs, ts).Accepted? ==>
              NextScalar(lib, open, xs, ts + more) == EndOf(NextScalar(lib, open, xs, ts).v, more)
    decreases |ts|
  {
    hide Convert, Wrap;
    if ts != [] {
      assert (ts + more)[0] == ts[0] && (ts + more)[1..] == ts[1..] + more;
      SeriesFollowed(lib, open, xs, ts[1..], more);
      if IsScalarCode(ts[0].code) && Convert(lib, ts[0]).Ok? {
        SeriesFollowed(lib, open, xs + [Convert(lib, ts[0]).value], ts[1..], more);
      }
      if ts[1..] == [] {
        assert [] + more == more;
      }
    }
  }

  lemma Followed(lib: Library, ts: seq<Token>, more: seq<Token>)
    requires ParseTokens(lib, ts).Accepted?
    ensures ParseTokens(lib, ts + more) == EndOf(ParseTokens(lib, ts).v, more)
  {
    hide Convert, Wrap;
    assert (ts + more)[0] == ts[0] && (ts + more)[1..] == ts[1..] + more;
    SeriesFollowed(lib, ts[0].code, [], ts[1..], more);
    if ts[1..] != [] {
      assert (ts[1..] + more)[0] == ts[1..][0] && (ts[1..] + more)[1..] == ts[1..][1..] + more;
      if ts[1..][1..] == [] {
        assert [] + more == more;
      }
    } else {
      assert [] + more == more;
    }
  }

  predicate Assigned(r: Outcome) {
    r.Rejected? && r.result.Some?
  }

  /** Where the value is assigned but something follows, the tokens up to there are accepted with that value. */
  lemma {:induction false} SeriesCut(lib: Library, open: int, xs: seq<Scalar>, ts: seq<Token>) returns (k: nat, l: nat)
    ensures Assigned(SeriesRest(lib, open, xs, ts)) ==>
              k < |ts| && SeriesRest(lib, open, xs, ts[..k]) == Accepted(SeriesRest(lib, open, xs, ts).result.value)
    ensures Assigned(NextScalar(lib, open, xs, ts)) ==>
              l < |ts| && NextScalar(lib, open, xs, ts[..l]) == Accepted(NextScalar(lib, open, xs, ts).result.value)
    decreases |ts|
  {
    hide Convert, Wrap;
    k, l := 0, 0;
    if ts != [] {
      if ts[0].code == COMMA {
        var i, j := SeriesCut(lib, open, xs, ts[1..]);
        k := j + 1;
        CutStep(ts, k);
      } else {
        k := 1;
        CutStep(ts, 1);
      }
      if IsScalarCode(ts[0].code) && Convert(lib, ts[0]).Ok? {
        var i, j := SeriesCut(lib, open, xs + [Convert(lib, ts[0]).value], ts[1..]);
        l := i + 1;
        CutStep(ts, l);
      }
    }
  }

  lemma CutStep(ts: seq<Token>, k: nat)
    requires ts != [] && k > 0
    ensures k <= |ts| ==> ts[..k][0] == ts[0] && ts[..k][1..] == ts[1..][..k - 1]
  {
  }

  lemma ExpressionCut(lib: Library, ts: seq<Token>) returns (k: nat)
    requires Assigned(ParseTokens(lib, ts))
    ensures k < |ts| && ParseTokens(lib, ts[..k]) == Accepted(ParseTokens(lib, ts).result.value)
  {
    hide Convert, Wrap, SeriesRest, NextScalar;
    if IsScalarCode(ts[0].code) {
      k := 1;
      CutStep(ts, 1);
    } else {
      var i, j := SeriesCut(lib, ts[0].code, [], ts[1..]);
      if IsScalarCode(ts[1].code) {
        k := j + 1;
        CutStep(ts, k);
        assert ts[1..][..j] != [] by {
          NoScalar(lib, ts[0].code);
        }
        assert ts[1..][..j][0] == ts[1];
      } else {
        k := 2;
        CutStep(ts, 2);
        CutStep(ts[1..], 1);
      }
    }
  }

  lemma NoScalar(lib: Library, open: int)
    ensures NextScalar(lib, open, [], []) == Rejected(None)
  {
  }

  /**
   * The parser returns 1 with the result already assigned exactly on an expression that is followed by
   * something: a derivation with that value yields the tokens up to some place before their end.
   */
  lemma AssignedIffFollowed(lib: Library, ts: seq<Token>, v: Value)
    ensures ParseTokens(lib, ts) == Rejected(Some(v))
       <==> exists k, t :: 0 <= k < |ts| && Derivation(t) && Root(t) == EXPRESSION && Yield(t) == ts[..k]
                           && ValueOf(lib, t) == Ok(v)
  {
    hide ParseTokens, Derivation, Root, ValueOf, Yield;
    if ParseTokens(lib, ts) == Rejected(Some(v)) {
      var k := ExpressionCut(lib, ts);
      var t := AcceptedIsDerived(lib, ts[..k]);
      assert Yield(t) == ts[..k] && ValueOf(lib, t) == Ok(v);
    }
    if k, t :| 0 <= k < |ts| && Derivation(t) && Root(t) == EXPRESSION && Yield(t) == ts[..k]
               && ValueOf(lib, t) == Ok(v) {
      DerivedIsAccepted(lib, t);
      Followed(lib, ts[..k], ts[k..]);
      assert ts[..k] + ts[k..] == ts;
    }
  }
}
