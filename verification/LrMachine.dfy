/** The parser as a machine on abstract semantic values, and the proof that it follows the grammar. */
module LrMachine {
  import opened Bytes
  import opened ScannerSpec
  import opened Values
  import opened Grammar
  import opened LrTables

  /** A slot of the value stack: a null pointer, or a scalar, or a series of scalars. */
  datatype Sem = Null | Scl(x: Scalar) | Seqn(xs: seq<Scalar>)

  datatype Machine = Machine(
    states: seq<nat>,
    sems: seq<Sem>,
    token: int,             // current token, possibly the nonterminal just reduced to
    val: Sem,               // the value that belongs to it
    next: int,              // the lookahead saved while a nonterminal is current
    lexeme: seq<byte>,      // the text of the token fetched last
    input: seq<Token>,      // tokens not yet fetched
    result: Option<Value>   // what the parser's result has been assigned, if anything
  ) {
    function Top(): int {
      if states == [] then -1 else states[|states| - 1]
    }
  }

  datatype StepResult = Next(m: Machine) | Exit(code: int) | Fail(failure: Failure)

  predicate IsTerminal(code: int) {
    0 < code < EXPRESSION
  }

  /** Whether a token number stands for no token, end of file or a terminal. */
  predicate IsLookahead(code: int) {
    code == UNDETERMINED || code == END_OF_FILE || IsTerminal(code)
  }

  predicate Shaped(t: Token) {
    t.code == STRING ==> |t.lexeme| >= 2
  }

  /** The state after the optional series that follows an opening character, and the one after its closing character. */
  function SeriesState(open: nat): nat { if open == 10 then 12 else 15 }
  function CloseState(open: nat): nat { if open == 10 then 16 else 18 }

  predicate IsScalarState(s: int) {
    5 <= s <= 9
  }

  /** The stacks of states the machine ever has: at most five deep. */
  predicate Viable(st: seq<nat>) {
    && 1 <= |st| <= 5 && st[0] == 0
    && (|st| >= 2 ==> 1 <= st[1] <= 11)
    && (|st| >= 3 ==>
          st[1] >= 10 && (IsScalarState(st[2]) || st[2] == 13 || st[2] == 14 || st[2] == SeriesState(st[1])))
    && (|st| >= 4 ==> (st[2] == 13 && st[3] == 17) || (st[2] == SeriesState(st[1]) && st[3] == CloseState(st[1])))
    && (|st| == 5 ==> st[3] == 17 && (IsScalarState(st[4]) || st[4] == 19))
  }

  /** Terminals are on the stack with a null value, nonterminals with a value of their own kind. */
  predicate SlotOk(s: nat, v: Sem) {
    if s == 2 || s == 14 || s == 19 then v.Scl?
    else if s == 3 || s == 4 || s == 12 || s == 13 || s == 15 then v.Seqn?
    else s == 1 || v.Null?
  }

  predicate ValueFits(nonterminal: int, v: Sem) {
    if nonterminal == SCALAR then v.Scl? else nonterminal == EXPRESSION || v.Seqn?
  }

  predicate Inv(m: Machine) {
    && Viable(m.states) && |m.sems| == |m.states|
    && (forall i :: 0 <= i < |m.states| ==> SlotOk(m.states[i], m.sems[i]))
    && (if IsLookahead(m.token) then m.val == Null && m.next == UNDETERMINED
        else m.token >= EXPRESSION && Goto(m.Top(), m.token) > 0 && ValueFits(m.token, m.val) && IsLookahead(m.next))
    && (IsLookahead(m.token) ==> NeedsToken(m.Top()) || m.token == UNDETERMINED)
    && (!IsLookahead(m.token) ==> NeedsToken(Goto(m.Top(), m.token)) || m.next == UNDETERMINED)
    && (m.token == END_OF_FILE || m.next == END_OF_FILE ==> m.input == [])
    && (forall i :: 0 <= i < |m.input| ==> IsTerminal(m.input[i].code) && Shaped(m.input[i]))
    && Shaped(Token(Lookahead(m), m.lexeme))
    && (IsScalarState(m.Top()) ==> Shaped(Token(ScalarCode(m.Top()), m.lexeme)))
    && (m.result.Some? <==> m.Top() == 1 || m.token == EXPRESSION)
  }

  function Lookahead(m: Machine): int {
    if IsLookahead(m.token) then m.token else m.next
  }

  function ScalarCode(s: int): int { s - 5 + BOOLEAN }

  /** Makes a token current: the saved one, or the next one of the input. */
  function Fetch(m: Machine): Machine {
    if m.token != UNDETERMINED then m
    else if m.next != UNDETERMINED then m.(token := m.next, val := Null, next := UNDETERMINED)
    else if m.input == [] then m.(token := END_OF_FILE, lexeme := [])
    else m.(token := m.input[0].code, lexeme := m.input[0].lexeme, input := m.input[1..])
  }

  predicate KidsFit(p: nat, kids: seq<Sem>)
    requires 1 <= p <= PRODUCTIONS
  {
    && |kids| == |Rhs(p)|
    && match p
       case 1 => kids[0].Scl?
       case 2 => kids[0].Seqn?
       case 3 => kids[0].Seqn?
       case 9 => true
       case 10 => kids[0].Seqn?
       case 11 => kids[0].Scl?
       case 12 => kids[0].Seqn? && kids[2].Scl?
       case 13 => kids[0].Null? && kids[1].Seqn?
       case 14 => kids[0].Null? && kids[1].Seqn?
       case _ => kids[0].Null?
  }

  /** The value a semantic action computes from the values of the right-hand side. */
  function ActionValue(lib: Library, p: nat, kids: seq<Sem>, lexeme: seq<byte>): Computed<Sem>
    requires 1 <= p <= PRODUCTIONS && KidsFit(p, kids)
  {
    if p == 1 || p == 10 then Ok(kids[0])
    else if p <= 3 then Ok(Seqn([]))
    else if p <= 8 then
      match Convert(lib, Token(p - 4 + BOOLEAN, lexeme))
      case Ok(x) => Ok(Scl(x))
      case Err(f) => Err(f)
    else if p == 9 then Ok(Seqn([]))
    else if p == 11 then Ok(Seqn([kids[0].x]))
    else if p == 12 then Ok(Seqn(kids[0].xs + [kids[2].x]))
    else Ok(kids[1])
  }

  function ActionResult(p: nat, kids: seq<Sem>, result: Option<Value>): Option<Value>
    requires 1 <= p <= PRODUCTIONS && KidsFit(p, kids)
  {
    match p
    case 1 => Some(Single(kids[0].x))
    case 2 => Some(Sequence(kids[0].xs))
    case 3 => Some(Tuple(kids[0].xs))
    case _ => result
  }

  /** The values of the right-hand side on top of the stack. */
  function Kids(m: Machine, p: nat): seq<Sem>
    requires 1 <= p <= PRODUCTIONS && |Rhs(p)| <= |m.sems|
  {
    m.sems[|m.sems| - |Rhs(p)|..]
  }

  predicate CanReduce(m: Machine, p: nat) {
    && 1 <= p <= PRODUCTIONS
    && |Rhs(p)| < |m.states| == |m.sems|
    && KidsFit(p, Kids(m, p))
    && (m.token != UNDETERMINED ==> m.next == UNDETERMINED)
  }

  /** Executes the semantic action of a production and replaces its right-hand side by its left-hand side. */
  function Reduce(lib: Library, m: Machine, p: nat): StepResult
    requires CanReduce(m, p)
  {
    match ActionValue(lib, p, Kids(m, p), m.lexeme)
    case Err(f) => Fail(f)
    case Ok(v) => Next(Reduced(m, p, v))
  }

  function Reduced(m: Machine, p: nat, v: Sem): Machine
    requires CanReduce(m, p)
  {
    var n := |m.states| - |Rhs(p)|;
    m.(states := m.states[..n], sems := m.sems[..n], token := Lhs(p), val := v,
       next := if m.token != UNDETERMINED then m.token else m.next,
       result := ActionResult(p, Kids(m, p), m.result))
  }

  function Push(m: Machine, s: nat): Machine {
    m.(states := m.states + [s], sems := m.sems + [m.val], token := m.next, val := Null, next := UNDETERMINED)
  }

  lemma FetchInv(m: Machine)
    requires Inv(m) && NeedsToken(m.Top())
    ensures Inv(Fetch(m)) && Fetch(m).token != UNDETERMINED
  {
  }

  /** The state in which a production is reduced. */
  lemma ReducingState(s: nat, token: int, p: int)
    requires s < STATES && p > 0 && Action(s, token) == Some(-p)
    ensures 1 <= p <= PRODUCTIONS && (p == 9 <==> s == 10 || s == 11)
    ensures if p <= 8 then s == p + 1 else if p == 10 then s == 13 else if p == 11 then s == 14
            else if p == 12 then s == 19 else if p == 13 then s == 16 else p == 14 ==> s == 18
    ensures token >= EXPRESSION ==> Goto(s, token) <= 0
  {
  }

  /** How deep a viable stack is, and what lies below its top, from the top alone. */
  lemma BelowTop(st: seq<nat>)
    requires Viable(st)
    ensures var n, s := |st|, st[|st| - 1];
            && (if s == 0 then n == 1 else if s <= 4 || s == 10 || s == 11 then n == 2
                else if 12 <= s <= 15 then n == 3 else if 16 <= s <= 18 then n == 4
                else if s == 19 then n == 5 else n == 2 || n == 3 || n == 5)
            && s < STATES
            && (n == 5 ==> st[2] == 13 && st[3] == 17)
            && ((s == 16 || s == 18) ==> st[2] == 12 || st[2] == 15)
            && (n >= 2 && s != 1 ==> st[0] == 0)
            && (n >= 3 ==> st[1] == 10 || st[1] == 11)
  {
  }

  lemma SlotAt(m: Machine, i: nat)
    requires Inv(m) && i < |m.states|
    ensures |m.sems| == |m.states| && SlotOk(m.states[i], m.sems[i])
  {
  }

  /** While the table asks for a reduction the current token is a lookahead, with nothing saved behind it. */
  lemma ReducingToken(m: Machine, p: int)
    requires Inv(m) && p > 0 && Action(m.Top(), m.token) == Some(-p)
    ensures IsLookahead(m.token) && m.next == UNDETERMINED && Viable(m.states) && |m.states| == |m.sems|
  {
    hide Action, Viable;
    BelowTop(m.states);
    ReducingState(m.Top(), m.token, p);
  }

  /** The state on top tells which production is due, and so does the value on top fit it. */
  lemma TopFits(p: nat, s: nat, v: Sem)
    requires 1 <= p <= 11 && p != 9 && SlotOk(s, v)
    requires s == if p <= 8 then p + 1 else if p == 10 then 13 else 14
    ensures KidsFit(p, [v])
  {
  }

  lemma OneKid(m: Machine, p: nat)
    requires 1 <= p <= 11 && p != 9 && |m.sems| >= 1
    ensures |Rhs(p)| == 1 && Kids(m, p) == [m.sems[|m.sems| - 1]]
  {
    RhsLength(p);
    hide Rhs;
  }

  /** A production with one symbol on its right-hand side finds its value on top. */
  lemma ShortReducePossible(m: Machine, p: nat)
    requires Inv(m) && Action(m.Top(), m.token) == Some(0 - p) && 1 <= p <= 11 && p != 9
    ensures CanReduce(m, p)
  {
    hide Inv, Action, Viable, Rhs, Kids, KidsFit, SlotOk;
    ReducingToken(m, p);
    BelowTop(m.states);
    ReducingState(m.Top(), m.token, p);
    SlotAt(m, |m.states| - 1);
    OneKid(m, p);
    TopFits(p, m.Top(), m.sems[|m.sems| - 1]);
  }

  lemma EmptyReducePossible(m: Machine)
    requires |m.states| == |m.sems| && |m.states| >= 1 && m.next == UNDETERMINED
    ensures CanReduce(m, 9)
  {
    assert Rhs(9) == [] && Kids(m, 9) == [];
  }

  lemma LongReducePossible(m: Machine, p: int)
    requires Inv(m) && Action(m.Top(), m.token) == Some(-p) && p >= 12
    ensures CanReduce(m, p)
  {
    hide Inv, Action, Viable, Rhs;
    ReducingToken(m, p);
    BelowTop(m.states);
    ReducingState(m.Top(), m.token, p);
    RhsLength(p);
    LongKids(m, p);
  }

  lemma LongKids(m: Machine, p: int)
    requires Inv(m) && |m.states| >= 4 && 12 <= p <= PRODUCTIONS
    requires m.Top() == (if p == 12 then 19 else if p == 13 then 16 else 18)
    ensures |Rhs(p)| == 3 && |m.sems| == |m.states| && KidsFit(p, Kids(m, p))
  {
    hide Inv, Viable, Rhs;
    InvViable(m);
    BelowTop(m.states);
    RhsLength(p);
    var n := |m.states|;
    SlotAt(m, n - 1);
    SlotAt(m, n - 2);
    SlotAt(m, n - 3);
    assert Kids(m, p) == [m.sems[n - 3], m.sems[n - 2], m.sems[n - 1]];
  }

  lemma InvViable(m: Machine)
    requires Inv(m)
    ensures Viable(m.states) && |m.sems| == |m.states|
  {
  }

  lemma RhsLength(p: nat)
    requires 1 <= p <= PRODUCTIONS
    ensures |Rhs(p)| == if p == 9 then 0 else if p >= 12 then 3 else 1
  {
  }

  lemma ReducePossible(m: Machine, p: int)
    requires Inv(m) && Action(m.Top(), m.token) == Some(-p) && p > 0
    ensures CanReduce(m, p)
  {
    hide Inv, Action, CanReduce, Viable;
    if p >= 12 {
      LongReducePossible(m, p);
    } else if p == 9 {
      ReducingToken(m, p);
      BelowTop(m.states);
      EmptyReducePossible(m);
    } else {
      ShortReducePossible(m, p);
    }
  }

  lemma IdleValue(m: Machine)
    requires Inv(m) && IsLookahead(m.token)
    ensures m.val == Null && m.next == UNDETERMINED
  {
  }

  /** The text a conversion reads is that of the scalar token itself, in particular not that of a lookahead. */
  lemma LexemeMatters(m: Machine, p: nat)
    requires Inv(m) && IsLookahead(m.token) && Action(m.Top(), m.token) == Some(0 - p) && 4 <= p <= 8
    ensures m.token == UNDETERMINED && (p == 7 ==> |m.lexeme| >= 2)
  {
    hide Action, Viable;
    BelowTop(m.states);
    ReducingState(m.Top(), m.token, p);
  }

  lemma LexemeIrrelevant(lib: Library, p: nat, kids: seq<Sem>, s: seq<byte>, t: seq<byte>)
    requires 1 <= p <= PRODUCTIONS && KidsFit(p, kids) && !(4 <= p <= 8)
    ensures ActionValue(lib, p, kids, s) == ActionValue(lib, p, kids, t)
  {
  }

  lemma ResultOnce(p: nat, kids: seq<Sem>, result: Option<Value>)
    requires 1 <= p <= PRODUCTIONS && KidsFit(p, kids)
    ensures ActionResult(p, kids, result) == if p <= 3 then ActionResult(p, kids, None) else result
  {
  }

  lemma RhsSize(p: nat)
    requires 1 <= p <= PRODUCTIONS
    ensures |Rhs(p)| > 0 <==> p != 9
  {
  }

  lemma LhsIsNonterminal(p: nat)
    requires 1 <= p <= PRODUCTIONS
    ensures Lhs(p) >= EXPRESSION
  {
  }

  /** Below the right-hand side of a production that moves a series there are null values only. */
  lemma NullBelow(m: Machine, p: nat)
    requires Inv(m) && CanReduce(m, p) && IsLookahead(m.token) && Action(m.Top(), m.token) == Some(0 - p)
    requires p <= 3 || p == 10 || p >= 12
    ensures forall i :: 0 <= i < |m.sems| - |Rhs(p)| ==> m.sems[i] == Null
  {
    assert forall i :: 0 <= i < |m.states| ==> SlotOk(m.states[i], m.sems[i]);
  }

  /** One round of the parse loop. */
  function Step(lib: Library, m: Machine): StepResult
    requires Inv(m)
  {
    if NeedsToken(m.Top()) then
      FetchInv(m);
      Act(lib, Fetch(m))
    else
      Act(lib, m)
  }

  function Act(lib: Library, m: Machine): StepResult
    requires Inv(m)
  {
    match Action(m.Top(), m.token)
    case None => Exit(1)
    case Some(a) =>
      if a > 0 then Next(Push(m, a))
      else if a == 0 then Exit(0)
      else
        ReducePossible(m, -a);
        Reduce(lib, m, -a)
  }

  lemma ActCases(lib: Library, m: Machine)
    requires Inv(m)
    ensures var a := Action(m.Top(), m.token);
            && (a.None? ==> Act(lib, m) == Exit(1))
            && (a.Some? && a.value == 0 ==> Act(lib, m) == Exit(0))
            && (a.Some? && a.value > 0 ==> Act(lib, m) == Next(Push(m, a.value)))
            && (a.Some? && a.value < 0 ==> CanReduce(m, -a.value) && Act(lib, m) == Reduce(lib, m, -a.value))
  {
    InvTop(m);
    hide Inv, Action, CanReduce, Reduce;
    var a := Action(m.Top(), m.token);
    if a.Some? && a.value < 0 {
      ReducePossible(m, -a.value);
    }
  }

  /** The tokens still to be processed: the lookahead, if there is one, and the input. */
  function Remaining(m: Machine): seq<Token> {
    if IsTerminal(Lookahead(m)) then [Token(Lookahead(m), m.lexeme)] + m.input else m.input
  }

  function OpenCode(s: nat): int { if s == 10 then LBRACKET else LBRACE }

  /** How the parse goes on after a nonterminal has been recognised. */
  function AfterNonterminal(lib: Library, m: Machine): Outcome
    requires Inv(m) && !IsLookahead(m.token)
  {
    var ts := Remaining(m);
    if m.Top() == 0 then
      if m.token == SCALAR then EndOf(Single(m.val.x), ts)
      else if m.token == SEQUENCE then EndOf(Sequence(m.val.xs), ts)
      else if m.token == TUPLE then EndOf(Tuple(m.val.xs), ts)
      else EndOf(m.result.value, ts)
    else
      var open := OpenCode(m.states[1]);
      if m.Top() == 17 then SlotsOfSeries(m); SeriesRest(lib, open, m.sems[2].xs + [m.val.x], ts)
      else if m.token == SCALAR then SeriesRest(lib, open, [m.val.x], ts)
      else if m.token == SERIES then SeriesRest(lib, open, m.val.xs, ts)
      else CloseOf(open, m.val.xs, ts)
  }

  lemma SlotsOfSeries(m: Machine)
    requires Inv(m) && |m.states| >= 3
    ensures m.states[2] == 12 || m.states[2] == 13 || m.states[2] == 15 ==> m.sems[2].Seqn?
    ensures m.states[2] == 14 ==> m.sems[2].Scl?
    ensures |m.states| == 5 && m.states[4] == 19 ==> m.sems[4].Scl?
  {
    assert SlotOk(m.states[2], m.sems[2]);
    assert |m.states| == 5 ==> SlotOk(m.states[4], m.sems[4]);
  }

  /** How the parse goes on after a scalar token has been shifted and is about to be converted. */
  function AfterScalarToken(lib: Library, m: Machine): Outcome
    requires Inv(m) && IsScalarState(m.Top())
  {
    match Convert(lib, Token(ScalarCode(m.Top()), m.lexeme))
    case Err(f) => Failed(f)
    case Ok(x) =>
      if |m.states| == 2 then EndOf(Single(x), m.input)
      else if |m.states| == 3 then SeriesRest(lib, OpenCode(m.states[1]), [x], m.input)
      else SlotsOfSeries(m); SeriesRest(lib, OpenCode(m.states[1]), m.sems[2].xs + [x], m.input)
  }

  /** The outcome the machine is heading for. */
  function Meaning(lib: Library, m: Machine): Outcome
    requires Inv(m)
  {
    var s, ts := m.Top(), Remaining(m);
    if !IsLookahead(m.token) then AfterNonterminal(lib, m)
    else if IsScalarState(s) then AfterScalarToken(lib, m)
    else if s == 0 then ParseTokens(lib, ts)
    else if s == 1 then EndOf(m.result.value, ts)
    else if s == 10 || s == 11 then OpenOf(lib, OpenCode(s), ts)
    else if |m.states| == 2 then
      assert SlotOk(m.states[1], m.sems[1]);
      EndOf(if s == 2 then Single(m.sems[1].x) else if s == 3 then Sequence(m.sems[1].xs) else Tuple(m.sems[1].xs), ts)
    else
      SlotsOfSeries(m);
      var open := OpenCode(m.states[1]);
      if s == 14 then SeriesRest(lib, open, [m.sems[2].x], ts)
      else if s == 13 then SeriesRest(lib, open, m.sems[2].xs, ts)
      else if s == 17 then NextScalar(lib, open, m.sems[2].xs, ts)
      else if s == 19 then SeriesRest(lib, open, m.sems[2].xs + [m.sems[4].x], ts)
      else if s == 16 || s == 18 then EndOf(Wrap(open, m.sems[2].xs), ts)
      else CloseOf(open, m.sems[2].xs, ts)
  }

  /** Bounds the number of rounds left: tokens still to be consumed first, then reductions before the next one. */
  function Measure(m: Machine): nat
  {
    var s := m.Top();
    10 * |Remaining(m)|
    + (if m.token == SCALAR || m.token == SEQUENCE || m.token == TUPLE then 8
       else if m.token == EXPRESSION || m.token == SERIES then 6
       else if m.token == OPT_SERIES then 4
       else if 2 <= s <= 4 || s == 14 || s == 19 then 7
       else if s == 1 || s == 13 then 5
       else if s == 12 || s == 15 then 3
       else 9)
  }

  /** What a round must do: keep the outcome and come closer to it, or end with it. */
  ghost predicate Follows(lib: Library, m: Machine, r: StepResult)
    requires Inv(m)
  {
    match r
    case Next(m') => Inv(m') && Meaning(lib, m') == Meaning(lib, m) && Measure(m') < Measure(m)
    case Exit(code) =>
      if code == 0 then m.result.Some? && Meaning(lib, m) == Accepted(m.result.value)
      else code == 1 && Meaning(lib, m) == Rejected(m.result)
    case Fail(f) => Meaning(lib, m) == Failed(f)
  }

  lemma FetchFollows(lib: Library, m: Machine)
    requires Inv(m) && NeedsToken(m.Top())
    ensures Inv(Fetch(m)) && Meaning(lib, Fetch(m)) == Meaning(lib, m) && Measure(Fetch(m)) == Measure(m)
    ensures Fetch(m).result == m.result
  {
    hide Convert, ParseTokens, SeriesRest, NextScalar, OpenOf, CloseOf, EndOf, Viable, Goto, ValueFits;
    FetchInv(m);
    assert m.token == UNDETERMINED && m.input != [] ==> m.input == [m.input[0]] + m.input[1..];
    assert Remaining(Fetch(m)) == Remaining(m);
  }

  lemma ShiftKeepsInv(m: Machine)
    requires Inv(m) && IsTerminal(m.token) && Action(m.Top(), m.token).Some? && Action(m.Top(), m.token).value > 0
    ensures var m' := Push(m, Action(m.Top(), m.token).value);
            && Inv(m') && Remaining(m) == [Token(m.token, m.lexeme)] + Remaining(m')
            && Remaining(m)[1..] == Remaining(m')
            && Measure(m') < Measure(m)
  {
    var m' := Push(m, Action(m.Top(), m.token).value);
    assert Remaining(m) == [Token(m.token, m.lexeme)] + Remaining(m');
  }

  lemma ShiftScalarFollows(lib: Library, m: Machine)
    requires Inv(m) && IsScalarCode(m.token) && Action(m.Top(), m.token).Some? && Action(m.Top(), m.token).value > 0
    ensures Follows(lib, m, Act(lib, m))
  {
    hide Convert, SeriesRest, CloseOf, EndOf, Viable, Measure, SlotOk;
    ShiftKeepsInv(m);
    BelowTop(m.states);
    var x := Convert(lib, Token(m.token, m.lexeme));
    assert x.Ok? ==> [] + [x.value] == [x.value];
  }

  lemma ShiftPunctuationFollows(lib: Library, m: Machine)
    requires Inv(m) && IsTerminal(m.token) && !IsScalarCode(m.token)
    requires Action(m.Top(), m.token).Some? && Action(m.Top(), m.token).value > 0
    ensures Follows(lib, m, Act(lib, m))
  {
    hide Convert, NextScalar, OpenOf, EndOf, Viable, Measure;
    ShiftKeepsInv(m);
    BelowTop(m.states);
    if |m.states| == 3 {
      ViableOpened(m.states);
    }
  }

  /** Which character opened the series that is about to be closed. */
  lemma ViableOpened(st: seq<nat>)
    requires Viable(st) && |st| == 3
    ensures st[2] == 12 ==> st[1] == 10
    ensures st[2] == 15 ==> st[1] == 11
  {
  }

  lemma ShiftFollows(lib: Library, m: Machine)
    requires Inv(m) && IsTerminal(m.token) && Action(m.Top(), m.token).Some? && Action(m.Top(), m.token).value > 0
    ensures Follows(lib, m, Act(lib, m))
  {
    hide Inv, Follows, Act, Action;
    if IsScalarCode(m.token) {
      ShiftScalarFollows(lib, m);
    } else {
      ShiftPunctuationFollows(lib, m);
    }
  }

  lemma GotoFollows(lib: Library, m: Machine)
    requires Inv(m) && !IsLookahead(m.token)
    ensures Follows(lib, m, Act(lib, m))
  {
    var m' := Push(m, Goto(m.Top(), m.token));
    assert Inv(m');
  }

  /** A reduction is due: the machine is not looking at a nonterminal, and the table says so. */
  predicate Reducing(m: Machine, p: int) {
    && Inv(m) && IsLookahead(m.token) && (NeedsToken(m.Top()) ==> m.token != UNDETERMINED)
    && p > 0 && Action(m.Top(), m.token) == Some(-p)
  }

  /** The state after a reduction is in order, nothing has been consumed, and the end is nearer. */
  ghost predicate KeepsInv(m: Machine, r: StepResult) {
    r.Next? ==> Inv(r.m) && Remaining(r.m) == Remaining(m) && Measure(r.m) < Measure(m)
  }

  lemma PrefixViable(st: seq<nat>, n: nat)
    requires Viable(st) && 1 <= n <= |st|
    ensures Viable(st[..n]) && st[..n][n - 1] == st[n - 1]
  {
  }

  /** Below the right-hand side of a production that is due lies a state that goes on with its left-hand side. */
  lemma BelowReduced(m: Machine, p: int)
    requires Reducing(m, p) && CanReduce(m, p)
    ensures var s := m.states[|m.states| - |Rhs(p)| - 1];
            && (if p <= 3 || p >= 13 then s == 0 else if p >= 9 then s == 10 || s == 11
                else s == 0 || s == 10 || s == 11 || s == 17)
            && Goto(s, Lhs(p)) > 0
            && (p == 9 || p == 10 ==> NeedsToken(Goto(s, Lhs(p))))
  {
    hide Action, Inv, KidsFit, Kids, Viable, Rhs;
    InvViable(m);
    BelowTop(m.states);
    ReducingState(m.Top(), m.token, p);
    RhsLength(p);
  }

  /** What the registers hold while a reduction is due. */
  lemma ReducingRegisters(m: Machine, p: int)
    requires Reducing(m, p) && CanReduce(m, p)
    ensures m.next == UNDETERMINED && (p == 9 || p == 10 || m.token == UNDETERMINED)
    ensures p > 3 ==> m.result == None
    ensures Measure(m) == 10 * |Remaining(m)|
                          + if p <= 3 || p == 11 || p == 12 then 7 else if p == 10 then 5 else 9
  {
    hide Action, Viable, SlotOk, KidsFit, Kids, Remaining;
    BelowTop(m.states);
    ReducingState(m.Top(), m.token, p);
  }

  lemma ActionFits(lib: Library, p: nat, kids: seq<Sem>, lexeme: seq<byte>)
    requires 1 <= p <= PRODUCTIONS && KidsFit(p, kids)
    ensures ActionValue(lib, p, kids, lexeme).Ok? ==> ValueFits(Lhs(p), ActionValue(lib, p, kids, lexeme).value)
    ensures ActionResult(p, kids, None).Some? <==> Lhs(p) == EXPRESSION
  {
    hide Convert;
  }

  lemma SlotsBelow(m: Machine, n: nat)
    requires Inv(m) && 1 <= n <= |m.states|
    ensures |m.sems| == |m.states| && Viable(m.states[..n])
    ensures forall i :: 0 <= i < n ==> SlotOk(m.states[..n][i], m.sems[..n][i])
  {
    hide Viable, SlotOk;
    PrefixViable(m.states, n);
  }

  /** The reduced machine is in order as soon as its value and its next state are. */
  lemma ReducedInv(m: Machine, p: int, v: Sem)
    requires Reducing(m, p) && CanReduce(m, p) && ValueFits(Lhs(p), v)
    requires ActionResult(p, Kids(m, p), None).Some? <==> Lhs(p) == EXPRESSION
    ensures Inv(Reduced(m, p, v)) && Remaining(Reduced(m, p, v)) == Remaining(m)
  {
    hide Action, Viable, SlotOk, KidsFit, Kids, Rhs, ActionResult, Goto, NeedsToken;
    BelowReduced(m, p);
    ReducingRegisters(m, p);
    SlotsBelow(m, |m.states| - |Rhs(p)|);
    ResultOnce(p, Kids(m, p), m.result);
  }

  lemma ReduceKeepsInv(lib: Library, m: Machine, p: int)
    requires Reducing(m, p)
    ensures CanReduce(m, p) && KeepsInv(m, Reduce(lib, m, p))
  {
    hide Inv, Action, ActionValue, ActionResult, KidsFit, Kids, Rhs, Remaining;
    ReducePossible(m, p);
    ActionFits(lib, p, Kids(m, p), m.lexeme);
    ReducingRegisters(m, p);
    if Reduce(lib, m, p).Next? {
      ReducedInv(m, p, ActionValue(lib, p, Kids(m, p), m.lexeme).value);
    }
  }

  lemma ReduceExpressionFollows(lib: Library, m: Machine, p: int)
    requires Reducing(m, p) && (p <= 3)
    ensures Follows(lib, m, Act(lib, m))
  {
    hide Convert, ParseTokens, SeriesRest, NextScalar, OpenOf, CloseOf;
    hide EndOf, Viable, Action, Shift, Measure, Remaining;
    ReduceKeepsInv(lib, m, p);
    BelowTop(m.states);
    ReducingState(m.Top(), m.token, p);
    assert Kids(m, p) == [m.sems[1]];
  }

  lemma ReduceScalarFollows(lib: Library, m: Machine, p: int)
    requires Reducing(m, p) && (4 <= p <= 8)
    ensures Follows(lib, m, Act(lib, m))
  {
    hide Convert, ParseTokens, SeriesRest, NextScalar, OpenOf, CloseOf, EndOf, Viable, Action, Shift, SlotOk, Measure;
    hide Meaning, AfterScalarToken, AfterNonterminal, Reduce;
    ReduceKeepsInv(lib, m, p);
    BelowTop(m.states);
    ReducingState(m.Top(), m.token, p);
    var r := Reduce(lib, m, p);
    ScalarMeaning(lib, m, p);
    if r.Next? {
      ScalarReduced(lib, m, p, r.m);
    }
  }

  /** What is left after a scalar token is what its conversion makes of it. */
  lemma ScalarMeaning(lib: Library, m: Machine, p: int)
    requires Reducing(m, p) && CanReduce(m, p) && 4 <= p <= 8
    ensures m.Top() == p + 1 && Meaning(lib, m) == AfterScalarToken(lib, m)
    ensures Reduce(lib, m, p).Fail? || Reduce(lib, m, p).Next?
    ensures Reduce(lib, m, p).Fail? ==> AfterScalarToken(lib, m) == Failed(Reduce(lib, m, p).failure)
  {
    hide Convert, SeriesRest, EndOf, Viable, Action, SlotOk;
    BelowTop(m.states);
    ReducingState(m.Top(), m.token, p);
  }

  lemma ScalarReduced(lib: Library, m: Machine, p: int, m': Machine)
    requires Reducing(m, p) && CanReduce(m, p) && 4 <= p <= 8 && m.Top() == p + 1
    requires Reduce(lib, m, p) == Next(m') && Inv(m') && Remaining(m') == Remaining(m)
    ensures Meaning(lib, m') == AfterScalarToken(lib, m)
  {
    hide Convert, SeriesRest, EndOf, Viable, Action, Shift, SlotOk, KidsFit, ActionResult;
    BelowTop(m.states);
    ReducingState(m.Top(), m.token, p);
    BelowTop(m'.states);
    assert Remaining(m) == m.input;
    var n := |m.states| - 1;
    assert m'.states == m.states[..n] && m'.Top() == m.states[n - 1];
    assert n == 4 ==> m'.sems[2] == m.sems[2];
  }

  lemma ReduceEmptyFollows(lib: Library, m: Machine)
    requires Reducing(m, 9)
    ensures Follows(lib, m, Act(lib, m))
  {
    hide ParseTokens, SeriesRest, NextScalar, Convert, CloseOf;
    ReduceKeepsInv(lib, m, 9);
    var ts := Remaining(m);
    assert m.Top() == 10 || m.Top() == 11;
    assert ts != [] ==> ts[0].code == m.token && Shift(m.Top(), m.token) == 0;
    assert Meaning(lib, m) == OpenOf(lib, OpenCode(m.Top()), ts);
  }

  lemma ReduceOptionalFollows(lib: Library, m: Machine)
    requires Reducing(m, 10)
    ensures Follows(lib, m, Act(lib, m))
  {
    hide ParseTokens, NextScalar, OpenOf, Convert, CloseOf;
    ReduceKeepsInv(lib, m, 10);
    var ts := Remaining(m);
    assert m.Top() == 13 && |m.states| == 3;
    assert ts != [] ==> ts[0].code == m.token && Shift(m.Top(), m.token) == 0;
    assert Meaning(lib, m) == SeriesRest(lib, OpenCode(m.states[1]), m.sems[2].xs, ts);
  }

  lemma ReduceSeriesFollows(lib: Library, m: Machine, p: int)
    requires Reducing(m, p) && (p == 11 || p == 12)
    ensures Follows(lib, m, Act(lib, m))
  {
    hide Convert, ParseTokens, NextScalar, SeriesRest, OpenOf, CloseOf;
    hide EndOf, Viable, Action, Shift, Measure, Remaining;
    ReduceKeepsInv(lib, m, p);
    BelowTop(m.states);
    ReducingState(m.Top(), m.token, p);
    assert Kids(m, p) == if p == 11 then [m.sems[2]] else [m.sems[2], m.sems[3], m.sems[4]];
  }

  /** What stands on the stack when a bracketed series is complete, and what it means. */
  lemma BracketsMeaning(lib: Library, m: Machine, p: int)
    requires Reducing(m, p) && CanReduce(m, p) && p >= 13
    ensures |m.states| == |m.sems| == 4 && m.sems[2].Seqn? && m.states[0] == 0
    ensures Kids(m, p) == [m.sems[1], m.sems[2], m.sems[3]]
    ensures Meaning(lib, m)
         == EndOf(if p == 13 then Sequence(m.sems[2].xs) else Tuple(m.sems[2].xs), Remaining(m))
  {
    hide Convert, ParseTokens, NextScalar, SeriesRest, OpenOf, CloseOf, EndOf, Viable, Action, Remaining;
    BelowTop(m.states);
    ReducingState(m.Top(), m.token, p);
    ViableOpener(m.states);
    SlotsOfSeries(m);
  }

  /** The same, said of the machine that looks at the bracketed series. */
  lemma BracketsReduced(lib: Library, m: Machine)
    requires Inv(m) && m.Top() == 0 && (m.token == SEQUENCE || m.token == TUPLE) && m.val.Seqn?
    ensures Meaning(lib, m)
         == EndOf(if m.token == SEQUENCE then Sequence(m.val.xs) else Tuple(m.val.xs), Remaining(m))
  {
    hide Inv, EndOf, Remaining;
  }

  lemma ReduceBracketsFollows(lib: Library, m: Machine, p: int)
    requires Reducing(m, p) && (p == 13 || p == 14)
    ensures Follows(lib, m, Act(lib, m))
  {
    hide Inv, Meaning, EndOf, Viable, Action, Shift, Measure, Remaining;
    ReduceKeepsInv(lib, m, p);
    BracketsMeaning(lib, m, p);
    ActCases(lib, m);
    BracketsReduced(lib, Reduced(m, p, m.sems[2]));
  }

  /** The opening character below a closing one. */
  lemma ViableOpener(st: seq<nat>)
    requires Viable(st) && |st| == 4 && (st[3] == 16 || st[3] == 18)
    ensures st[1] == if st[3] == 16 then 10 else 11
  {
  }

  lemma EndFollows(lib: Library, m: Machine)
    requires Inv(m) && (NeedsToken(m.Top()) ==> m.token != UNDETERMINED)
    requires Action(m.Top(), m.token).None? || Action(m.Top(), m.token).value == 0
    ensures Follows(lib, m, Act(lib, m))
  {
  }

  lemma InvTop(m: Machine)
    requires Inv(m)
    ensures 0 <= m.Top() < STATES
    ensures IsLookahead(m.token) || m.token >= EXPRESSION
  {
  }

  lemma StatesInRange(m: Machine)
    requires Inv(m)
    ensures m.states != [] && forall i :: 0 <= i < |m.states| ==> m.states[i] < STATES
  {
  }

  lemma ActionKinds(m: Machine)
    requires Inv(m) && (NeedsToken(m.Top()) ==> m.token != UNDETERMINED)
    ensures var a := Action(m.Top(), m.token);
            a.Some? ==> (a.value > 0 ==> m.token != END_OF_FILE) && (a.value < 0 ==> Reducing(m, -a.value))
  {
  }

  /** The machine before the first round, with the initial state pushed. */
  function Start(lexeme: seq<byte>, input: seq<Token>): Machine {
    Machine([0], [Null], UNDETERMINED, Null, UNDETERMINED, lexeme, input, None)
  }

  lemma StartFollows(lib: Library, lexeme: seq<byte>, input: seq<Token>)
    requires forall i :: 0 <= i < |input| ==> IsTerminal(input[i].code) && Shaped(input[i])
    ensures Inv(Start(lexeme, input)) && Meaning(lib, Start(lexeme, input)) == ParseTokens(lib, input)
  {
  }

  /** Every round follows the grammar. */
  lemma StepFollows(lib: Library, m: Machine)
    requires Inv(m)
    ensures Follows(lib, m, Step(lib, m))
  {
    hide Inv, Meaning, Measure, Act, Fetch;
    InvTop(m);
    var f := m;
    if NeedsToken(m.Top()) {
      FetchFollows(lib, m);
      FetchInv(m);
      f := Fetch(m);
      InvTop(f);
    }
    var a := Action(f.Top(), f.token);
    if !IsLookahead(f.token) {
      GotoFollows(lib, f);
    } else if a.None? || a.value == 0 {
      EndFollows(lib, f);
    } else if a.value > 0 {
      ShiftFollows(lib, f);
    } else {
      var p := -a.value;
      if p <= 3 {
        ReduceExpressionFollows(lib, f, p);
      } else if p <= 8 {
        ReduceScalarFollows(lib, f, p);
      } else if p == 9 {
        ReduceEmptyFollows(lib, f);
      } else if p == 10 {
        ReduceOptionalFollows(lib, f);
      } else if p <= 12 {
        ReduceSeriesFollows(lib, f, p);
      } else {
        ReduceBracketsFollows(lib, f, p);
      }
    }
  }

  lemma StepKeepsInv(lib: Library, m: Machine)
    requires Inv(m)
    ensures Step(lib, m).Next? ==> Inv(Step(lib, m).m)
  {
    hide Step, Inv, Meaning, Measure;
    StepFollows(lib, m);
  }

  /** A run of the parse loop: every machine is followed by the one the next round makes of it. */
  ghost predicate IsRun(lib: Library, ms: seq<Machine>) {
    ms != [] && forall i :: 0 <= i < |ms| - 1 && Inv(ms[i]) ==> Step(lib, ms[i]) == Next(ms[i + 1])
  }

  /**
   * On every token sequence, every run from the start keeps the stack at most five deep, keeps null values
   * under terminals and values of the right kind under nonterminals, leaves the outcome what the grammar says
   * it is, and has at most ten rounds per token and ten more.
   */
  lemma {:induction false} RunsAreSafe(lib: Library, lexeme: seq<byte>, input: seq<Token>, ms: seq<Machine>)
    requires forall i :: 0 <= i < |input| ==> IsTerminal(input[i].code) && Shaped(input[i])
    requires IsRun(lib, ms) && ms[0] == Start(lexeme, input)
    ensures forall i :: 0 <= i < |ms| ==>
              Inv(ms[i]) && |ms[i].states| <= 5 && Meaning(lib, ms[i]) == ParseTokens(lib, input)
    ensures Measure(ms[|ms| - 1]) + |ms| <= 10 * |input| + 10
  {
    hide Meaning, ParseTokens, Step;
    var n := |ms| - 1;
    if n == 0 {
      StartFollows(lib, lexeme, input);
    } else {
      var front := ms[..n];
      assert forall i :: 0 <= i < |front| ==> front[i] == ms[i];
      RunsAreSafe(lib, lexeme, input, front);
      StepFollows(lib, ms[n - 1]);
      assert front[n - 1] == ms[n - 1] && Step(lib, ms[n - 1]) == Next(ms[n]);
    }
  }
}
