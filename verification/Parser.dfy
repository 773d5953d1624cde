/** The generated parser: a table-driven loop over a stack of states and a stack of shared values. */
module Parser {
  import opened Bytes
  import opened Numerals
  import opened Escapes
  import opened Regex
  import opened ScannerRules
  import opened ScannerSpec
  import opened Values
  import opened Grammar
  import opened LrTables
  import opened LrMachine
  import opened Scanner
  import Base64

  datatype Tag = SCL | SEQ

  /** A semantic value in the heap; several slots may share one. */
  class Semantic {
    const tag: Tag
    var scl: Scalar
    var elems: seq<Scalar>

    constructor (tag: Tag)
      ensures this.tag == tag && scl == Boolean(false) && elems == []
    {
      this.tag, scl, elems := tag, Boolean(false), [];
    }
  }

  ghost function SemOf(c: Semantic?): Sem
    reads c
  {
    if c == null then Null else if c.tag == SCL then Scl(c.scl) else Seqn(c.elems)
  }

  const STACK_EXPANSION := 5

  /** How a call of `Parse` ends: with a return value, with a `parse_error`, or with nothing that can be said. */
  datatype Ending = Returned(code: int) | ParseError | Undefined

  function EndingOf(f: Failure): Ending {
    match f
    case Exception => ParseError
    case UndefinedBehaviour => Undefined
  }

  function FailureOf<T>(r: Computed<T>): Option<Failure> {
    if r.Ok? then None else Some(r.failure)
  }

  class Parser {
    const lib: Library
    const scanner: Scanner
    var stackIdx: int
    var stateStack: seq<nat>
    var valueStack: seq<Semantic?>
    var acceptedTokens: nat
    var errors: nat
    var token: int
    var nextToken: int
    var state: nat
    var vsp: int             // the index the value stack pointer points to
    var val: Semantic?
    var nextVal: Semantic?
    var result: Value

    ghost var cells: set<Semantic>        // the values allocated so far
    ghost var remaining: seq<Token>       // the tokens the scanner will deliver
    ghost var hasResult: bool             // whether `result` has been assigned

    constructor (lib: Library, scanner: Scanner)
      ensures this.lib == lib && this.scanner == scanner && Fresh() && result == Single(Boolean(false))
    {
      this.lib, this.scanner := lib, scanner;
      stackIdx, stateStack, valueStack, acceptedTokens, errors := -1, [], [], 0, 0;
      token, nextToken, state, vsp, val, nextVal := UNDETERMINED, UNDETERMINED, 0, -1, null, null;
      result := Single(Boolean(false));
      cells, remaining, hasResult := {}, [], false;
    }

    /** A parser that has not parsed yet. */
    ghost predicate Fresh()
      reads this
    {
      stackIdx == -1 && |stateStack| == |valueStack| == 0 && val == null && nextVal == null && !hasResult && cells == {}
    }

    /** The stacks and pointers are in order. */
    ghost predicate Linked()
      reads this`stackIdx, this`stateStack, this`valueStack, this`vsp, this`state, this`cells, this`val, this`nextVal
    {
      && 0 <= stackIdx < |stateStack| == |valueStack|
      && vsp == stackIdx && state == stateStack[stackIdx]
      && (forall i :: 0 <= i < |valueStack| && valueStack[i] != null ==> valueStack[i] in cells)
      && (val != null ==> val in cells) && nextVal == null
    }

    /** The values the lowest `n` slots point to. */
    ghost function Slots(n: nat): (r: seq<Sem>)
      requires n <= |valueStack|
      requires forall i :: 0 <= i < |valueStack| && valueStack[i] != null ==> valueStack[i] in cells
      reads this`valueStack, this`cells, cells
      ensures |r| == n && forall i :: 0 <= i < n ==> r[i] == SemOf(valueStack[i])
    {
      if n == 0 then [] else Slots(n - 1) + [SemOf(valueStack[n - 1])]
    }

    /** Whether the scanner has delivered the end of file. */
    predicate EndPending()
      reads this`token, this`nextToken
    {
      token == END_OF_FILE || nextToken == END_OF_FILE
    }

    /** The abstract machine this parser implements. */
    ghost function Abs(): Machine
      requires Linked()
      reads this, scanner, cells
    {
      Machine(stateStack[..stackIdx + 1], Slots(stackIdx + 1), token, SemOf(val), nextToken,
              if EndPending() then [] else scanner.matched,
              remaining, if hasResult then Some(result) else None)
    }

    ghost predicate Valid()
      reads this, scanner, cells
    {
      && Linked() && Inv(Abs())
      && (!EndPending() ==> remaining == Tokens(scanner.Unread()))
    }

    /** Pushes a state with the current value. */
    method Push(s: nat)
      requires stackIdx >= 0 ==> Linked()
      requires stackIdx < 0 ==> Fresh()
      modifies this`stackIdx, this`stateStack, this`valueStack, this`state, this`vsp
      ensures Linked()
      ensures stackIdx == old(stackIdx) + 1
      ensures stateStack[..stackIdx + 1] == old(stateStack[..stackIdx + 1]) + [s]
      ensures valueStack[..stackIdx + 1] == old(valueStack[..stackIdx + 1]) + [val]
      ensures Slots(stackIdx + 1) == (if old(stackIdx) >= 0 then old(Slots(stackIdx + 1)) else []) + [SemOf(val)]
    {
      hide Slots;
      ghost var n, below := stackIdx + 1, if stackIdx >= 0 then Slots(stackIdx + 1) else [];
      if stackIdx + 1 == |stateStack| {
        var size := stackIdx + STACK_EXPANSION;
        stateStack := stateStack + seq(size - |stateStack|, _ => 0);
        valueStack := valueStack + seq(size - |valueStack|, _ => null);
      }
      stackIdx := stackIdx + 1;
      stateStack, state := stateStack[stackIdx := s], s;
      vsp, valueStack := stackIdx, valueStack[stackIdx := val];
      assert Slots(stackIdx + 1) == below + [SemOf(val)] by {
        assert forall i :: 0 <= i < n ==> below[i] == SemOf(valueStack[i]);
      }
    }

    /** The current token is dealt with: a token pushed back before becomes current. */
    method PopToken()
      modifies this`token, this`val, this`nextVal, this`nextToken
      ensures token == old(nextToken) && val == old(nextVal) && nextVal == null && nextToken == UNDETERMINED
    {
      token := nextToken;
      val := nextVal;
      nextVal := null;
      nextToken := UNDETERMINED;
    }

    method PushToken(t: int)
      modifies this`token, this`val, this`nextVal, this`nextToken
      ensures nextToken == old(token) && nextVal == old(val) && token == t && val == old(val)
    {
      nextToken := token;
      nextVal := val;
      token := t;
    }

    /** Drops states from the stack; returns false where the original aborts. */
    method Pop(count: nat) returns (ok: bool)
      requires Linked()
      modifies this`stackIdx, this`state, this`vsp
      ensures ok <==> count <= old(stackIdx)
      ensures Linked() && stackIdx == old(stackIdx) - if ok then count else 0
      ensures 0 <= stackIdx < |stateStack| && Slots(stackIdx + 1) == old(Slots(stackIdx + 1))[..stackIdx + 1]
    {
      hide Slots;
      if stackIdx < count {
        return false;
      }
      ghost var all := Slots(stackIdx + 1);
      stackIdx := stackIdx - count;
      assert Slots(stackIdx + 1) == all[..stackIdx + 1];
      state := stateStack[stackIdx];
      vsp := stackIdx;
      return true;
    }

    /** Looks the current token up in the current state's table, with the token as its own sentinel. */
    method Lookup() returns (action: Option<int>)
      requires state < STATES
      ensures action == Action(state, token)
    {
      var sr := Table(state);
      var lastIdx := sr[0].field2;
      sr := sr[lastIdx := SR(token, sr[lastIdx].field2)];
      var element := 1;
      while sr[element].field1 != token
        invariant 1 <= element <= lastIdx
        invariant forall j :: 1 <= j < element ==> Table(state)[j].field1 != token
        decreases lastIdx - element
      {
        element := element + 1;
      }
      SearchIsAction(state, token, element);
      if element == lastIdx {
        if sr[element].field2 < 0 {
          return Some(sr[element].field2);
        }
        return None;
      }
      return Some(sr[element].field2);
    }

    /** Has the scanner deliver the next token. */
    method Accept()
      requires remaining == Tokens(scanner.Unread())
      modifies this`token, this`acceptedTokens, this`remaining, scanner
      ensures if old(remaining) == [] then token == END_OF_FILE && remaining == []
              else
                && old(remaining) == [Token(token, scanner.matched)] + remaining
                && token > 0 && remaining == Tokens(scanner.Unread())
    {
      hide Tokens, ScannerSpec.NextToken;
      TokensUnfold(scanner.Unread());
      acceptedTokens := acceptedTokens + 1;
      token := scanner.Lex();
      if token <= 0 {
        token := END_OF_FILE;
      } else {
        remaining := remaining[1..];
      }
    }

    /** Makes a token current; the scanner is asked only if none is pending. */
    method NextToken()
      requires Valid() && NeedsToken(state)
      modifies this`token, this`val, this`nextVal, this`nextToken, this`acceptedTokens, this`remaining, scanner
      ensures Valid() && Abs() == Fetch(old(Abs())) && token != UNDETERMINED
    {
      hide Inv, Tokens, Slots, NeedsToken;
      ghost var before := Abs();
      FetchInv(before);
      if token != UNDETERMINED {
        return;
      }
      if nextToken != UNDETERMINED {
        PopToken();
      } else {
        Accept();
      }
      assert Abs().sems == before.sems;
      assert Abs() == Fetch(before);
    }

    /** `get<tag>()` on the current value: a new default value unless it already has that tag. */
    method GetVal(tag: Tag) returns (c: Semantic)
      requires Linked()
      modifies this`val, this`cells
      ensures Linked() && val == c && c.tag == tag && old(cells) <= cells
      ensures if old(val) != null && old(val).tag == tag then c == old(val) && cells == old(cells)
              else
                && fresh(c) && cells == old(cells) + {c}
                && SemOf(c) == if tag == SCL then Scl(Boolean(false)) else Seqn([])
    {
      if val == null || val.tag != tag {
        val := new Semantic(tag);
        cells := cells + {val};
      }
      c := val;
    }

    /** The scalar conversions of productions 4 to 8, from the text of the token fetched last. */
    method ConvertScalar(p: nat) returns (x: Computed<Scalar>)
      requires 4 <= p <= 8 && (p == 7 ==> |scanner.matched| >= 2)
      ensures x == Convert(lib, Token(p - 4 + BOOLEAN, scanner.matched))
    {
      var text := scanner.matched;
      match p
      case 4 => return Ok(Boolean(text == [35, 116]));
      case 5 =>
        var i := StoI(text);
        return if i.None? then Err(Exception) else Ok(Integer(i.value));
      case 6 =>
        var r := lib.stod(text);
        return if r.None? then Err(Exception) else Ok(Real(r.value));
      case 7 =>
        var res := new byte[|text|](i requires 0 <= i < |text| => text[i]);
        assert res[..] == text;
        assert res[1..|text| - 1] == text[1..|text| - 1];
        var size := DecodeEscapes(res, 1, |text| - 1, 0);
        return if size.None? then Err(Exception) else Ok(String(res[..size.value]));
      case 8 =>
        if text == [] {
          return Err(Exception);
        }
        var bytes := Base64.Decode(text[1..]);
        return if bytes.Err? then Err(bytes.failure) else Ok(Binary(bytes.value));
    }

    /** `kids` are the values of the right-hand side of production `p`, on top of the stack. */
    ghost predicate OnTop(p: nat, kids: seq<Sem>)
      requires Linked()
      reads this`stackIdx, this`stateStack, this`valueStack, this`vsp, this`state, this`cells, this`val,
            this`nextVal, cells
    {
      && 1 <= p <= PRODUCTIONS && KidsFit(p, kids) && |kids| == |Rhs(p)| <= stackIdx
      && forall i :: 0 <= i < |kids| ==> kids[i] == SemOf(valueStack[stackIdx + 1 - |kids| + i])
    }

    /** The actions that only put something new into the current value. */
    method AllocatingAction(p: nat, ghost kids: seq<Sem>) returns (failure: Option<Failure>)
      requires Linked() && OnTop(p, kids) && (4 <= p <= 9 || p == 11) && (p == 7 ==> |scanner.matched| >= 2)
      requires SemOf(val) == if p == 9 then Null else kids[0]
      modifies this`val, this`cells
      ensures Linked() && old(cells) <= cells && fresh(cells - old(cells))
      ensures failure == FailureOf(ActionValue(lib, p, kids, scanner.matched))
      ensures failure == None ==> Ok(SemOf(val)) == ActionValue(lib, p, kids, scanner.matched)
    {
      failure := None;
      if p == 9 {
        var c := GetVal(SEQ);
      } else if p == 11 {
        var x := valueStack[vsp].scl;
        var c := GetVal(SEQ);
        c.elems := c.elems + [x];
        assert c.elems == [x];
      } else {
        var x := ConvertScalar(p);
        if x.Err? {
          return Some(x.failure);
        }
        var c := GetVal(SCL);
        c.scl := x.value;
      }
    }

    /** The actions that move the series of a slot on, emptying the slot or sharing it. */
    method MovingAction(p: nat, ghost kids: seq<Sem>)
      requires Linked() && OnTop(p, kids) && (p <= 3 || p == 10 || p >= 12)
      requires val == valueStack[stackIdx + 1 - |kids|]
      modifies this`val, this`cells, this`result, this`hasResult, cells
      ensures Linked() && old(cells) <= cells && fresh(cells - old(cells))
      ensures Ok(SemOf(val)) == ActionValue(lib, p, kids, scanner.matched)
      ensures if p <= 3 then hasResult && Some(result) == ActionResult(p, kids, None)
              else hasResult == old(hasResult) && result == old(result)
    {
      match p
      case 1 =>
        result, hasResult := Single(valueStack[vsp].scl), true;
      case 2 =>
        var tmp := valueStack[vsp].elems;
        valueStack[vsp].elems := [];
        result, hasResult := Sequence(tmp), true;
      case 3 =>
        var tmp := valueStack[vsp].elems;
        valueStack[vsp].elems := [];
        result, hasResult := Tuple(tmp), true;
      case 10 =>
        var c := GetVal(SEQ);
        c.elems, valueStack[vsp].elems := valueStack[vsp].elems, c.elems;
      case 12 =>
        valueStack[vsp - 2].elems := valueStack[vsp - 2].elems + [valueStack[vsp].scl];
        var c := GetVal(SEQ);
        c.elems, valueStack[vsp - 2].elems := valueStack[vsp - 2].elems, c.elems;
      case _ =>  // 13 and 14
        var c := GetVal(SEQ);
        c.elems, valueStack[vsp - 1].elems := valueStack[vsp - 1].elems, c.elems;
    }

    /** What comes before every action: a current token is saved, and the first value is the default result. */
    method BeforeAction(p: nat, ghost kids: seq<Sem>)
      requires Linked() && OnTop(p, kids) && val == null && nextToken == UNDETERMINED
      modifies this`token, this`val, this`nextVal, this`nextToken
      ensures Linked() && OnTop(p, kids) && token == nextToken == old(token)
      ensures 1 <= p <= PRODUCTIONS && |kids| == |Rhs(p)| <= stackIdx
      ensures val == if kids == [] then null else valueStack[stackIdx + 1 - |kids|]
      ensures SemOf(val) == if kids == [] then Null else kids[0]
    {
      hide KidsFit, Rhs;
      if token != UNDETERMINED {
        PushToken(token);
      }
      var size := |Rhs(p)|;
      if size > 0 {
        val := valueStack[vsp + 1 - size];
        assert kids[0] == SemOf(valueStack[stackIdx + 1 - |kids| + 0]);
      }
    }

    /**
     * The semantic action of production `p`. The values `low` below the right-hand side stay what they are;
     * the current value becomes what the action computes, or the action fails.
     */
    method ExecuteAction(p: nat, ghost low: seq<Sem>, ghost kids: seq<Sem>) returns (failure: Option<Failure>)
      requires Linked() && OnTop(p, kids) && val == null && nextToken == UNDETERMINED
      requires |low| + |kids| == stackIdx + 1 && forall i :: 0 <= i < |low| ==> low[i] == SemOf(valueStack[i])
      requires p == 7 ==> |scanner.matched| >= 2
      requires p <= 3 || p == 10 || p >= 12 ==> forall i :: 0 <= i <= stackIdx - |kids| ==> valueStack[i] == null
      modifies this`token, this`val, this`nextVal, this`nextToken, this`result, this`hasResult, this`cells, cells
      ensures failure == FailureOf(ActionValue(lib, p, kids, scanner.matched))
      ensures Linked() && old(cells) <= cells && fresh(cells - old(cells)) && token == nextToken == old(token)
      ensures failure == None ==> Ok(SemOf(val)) == ActionValue(lib, p, kids, scanner.matched)
      ensures if p <= 3 then hasResult && Some(result) == ActionResult(p, kids, None)
              else hasResult == old(hasResult) && result == old(result)
      ensures forall i :: 0 <= i < |low| ==> low[i] == SemOf(valueStack[i])
    {
      hide ActionValue, KidsFit, ActionResult, Rhs, OnTop;
      BeforeAction(p, kids);
      RhsSize(p);
      failure := None;
      if 4 <= p <= 9 || p == 11 {
        failure := AllocatingAction(p, kids);
      } else {
        ghost var below := stackIdx + 1 - |kids|;
        assert forall i :: 0 <= i < below ==> low[i] == Null;
        MovingAction(p, kids);
        assert forall i :: 0 <= i < below ==> valueStack[i] == null;
      }
    }

    /** The semantic action of a reduction that is due, said of the machine. */
    method ExecuteDue(p: nat, ghost m: Machine) returns (failure: Option<Failure>)
      requires Valid() && m == Abs() && Reducing(m, p)
      modifies this`token, this`val, this`nextVal, this`nextToken, this`result, this`hasResult, this`cells, cells
      ensures fresh(cells - old(cells)) && CanReduce(m, p) && Linked()
      ensures failure == FailureOf(ActionValue(lib, p, Kids(m, p), m.lexeme))
      ensures failure == None ==> Ok(SemOf(val)) == ActionValue(lib, p, Kids(m, p), m.lexeme)
      ensures token == nextToken == m.token == old(token) && m.next == UNDETERMINED == old(nextToken)
      ensures m.lexeme == (if m.token == END_OF_FILE then [] else scanner.matched) && m.input == remaining
      ensures 0 <= stackIdx < |stateStack| && stateStack[..stackIdx + 1] == m.states
      ensures stackIdx + 1 == |m.states| == |m.sems| && Slots(|m.states| - |Rhs(p)|) == m.sems[..|m.states| - |Rhs(p)|]
      ensures (if hasResult then Some(result) else None) == ActionResult(p, Kids(m, p), m.result)
      ensures hasResult || (!old(hasResult) && result == old(result))
    {
      hide Inv, Action, ActionValue, ActionResult, KidsFit, Slots, Rhs;
      ReducePossible(m, p);
      ResultOnce(p, Kids(m, p), m.result);
      IdleValue(m);
      ghost var kids := Kids(m, p);
      TopOfStack(m, p);
      ghost var low := m.sems[..|m.states| - |Rhs(p)|];
      failure := ExecuteAction(p, low, kids);
      assert Slots(|m.states| - |Rhs(p)|) == m.sems[..|m.states| - |Rhs(p)|];
    }

    /** A reduction: the semantic action, and the left-hand side becomes the current token. */
    method ReduceBy(p: nat, ghost m: Machine) returns (failure: Option<Failure>)
      requires Valid() && m == Abs() && Reducing(m, p)
      modifies this`token, this`val, this`nextVal, this`nextToken, this`result, this`hasResult, this`cells, cells,
               this`stackIdx, this`state, this`vsp
      ensures fresh(cells - old(cells)) && CanReduce(m, p)
      ensures if failure == None then Linked() && Reduce(lib, m, p) == Next(Abs()) && EndPending() == old(EndPending())
              else Reduce(lib, m, p) == Fail(failure.value)
      ensures hasResult || (!old(hasResult) && result == old(result))
    {
      hide Inv, Action, ActionValue, ActionResult, KidsFit, Kids, Slots, Rhs, Lhs, Reducing, Valid, Abs, Linked;
      failure := ExecuteDue(p, m);
      LhsIsNonterminal(p);
      if failure == None {
        token := Lhs(p);
        var ok := Pop(|Rhs(p)|);
        assert stateStack[..stackIdx + 1] == m.states[..|m.states| - |Rhs(p)|];
        ReducedHere(m, p);
      }
    }

    /** The registers of a reduction make up the reduced machine. */
    lemma ReducedHere(m: Machine, p: nat)
      requires Linked() && CanReduce(m, p) && stackIdx + 1 == |m.states| - |Rhs(p)|
      requires stateStack[..stackIdx + 1] == m.states[..stackIdx + 1] && Slots(stackIdx + 1) == m.sems[..stackIdx + 1]
      requires token == Lhs(p) && nextToken == m.token && m.next == UNDETERMINED
      requires m.lexeme == (if EndPending() then [] else scanner.matched) && m.input == remaining
      requires (if hasResult then Some(result) else None) == ActionResult(p, Kids(m, p), m.result)
      ensures Abs() == Reduced(m, p, SemOf(val))
    {
      hide Slots, ActionResult, Kids, KidsFit, Rhs, Lhs;
    }

    /** The registers with only the initial state pushed make up the machine before the first round. */
    lemma BegunHere()
      requires Linked() && stackIdx == 0 && stateStack[0] == 0 && val == null && valueStack[0] == null
      requires token == nextToken == UNDETERMINED && !hasResult && remaining == Tokens(scanner.Unread())
      ensures Valid() && Abs() == Start(scanner.matched, remaining)
      ensures Meaning(lib, Abs()) == ParseTokens(lib, Tokens(scanner.Unread()))
    {
      hide Inv, Meaning, ParseTokens, Tokens;
      assert stateStack[..1] == [0] && Abs().sems == [Null];
      TokensShaped(scanner.Unread());
      StartFollows(lib, scanner.matched, remaining);
    }

    /** What the machine says about the top of the stack, said of the pointers. */
    lemma TopOfStack(m: Machine, p: nat)
      requires Valid() && m == Abs() && Reducing(m, p) && CanReduce(m, p)
      ensures OnTop(p, Kids(m, p)) && val == null && nextToken == UNDETERMINED
      ensures p == 7 ==> |scanner.matched| >= 2
      ensures 4 <= p <= 8 ==> m.lexeme == scanner.matched
      ensures p <= 3 || p == 10 || p >= 12 ==> forall i :: 0 <= i <= stackIdx - |Rhs(p)| ==> valueStack[i] == null
      ensures ActionValue(lib, p, Kids(m, p), m.lexeme) == ActionValue(lib, p, Kids(m, p), scanner.matched)
    {
      hide Inv, Action, ActionValue, KidsFit, Slots, Rhs, OnTop, Kids;
      KidsOnTop(m, p);
      IdleValue(m);
      if 4 <= p <= 8 {
        LexemeMatters(m, p);
      } else {
        LexemeIrrelevant(lib, p, Kids(m, p), m.lexeme, scanner.matched);
      }
      if p <= 3 || p == 10 || p >= 12 {
        NullBelow(m, p);
        NullSlots(m, stackIdx + 1 - |Rhs(p)|);
      }
    }

    lemma KidsOnTop(m: Machine, p: nat)
      requires Linked() && m == Abs() && CanReduce(m, p)
      ensures OnTop(p, Kids(m, p))
    {
      hide KidsFit, Slots, Rhs;
      var low := stackIdx + 1 - |Rhs(p)|;
      assert m.sems == Slots(stackIdx + 1);
      assert forall i :: 0 <= i < |Rhs(p)| ==> Kids(m, p)[i] == m.sems[low + i];
    }

    lemma NullSlots(m: Machine, n: nat)
      requires Linked() && m == Abs() && n <= |m.sems| && forall i :: 0 <= i < n ==> m.sems[i] == Null
      ensures forall i :: 0 <= i < n ==> valueStack[i] == null
    {
      hide Slots;
      assert forall i :: 0 <= i < n ==> m.sems[i] == SemOf(valueStack[i]);
    }

    /** A shift: the current token goes on the stack together with its value. */
    method ShiftTo(s: nat, ghost m: Machine)
      requires Valid() && m == Abs() && token != END_OF_FILE
      modifies this`stackIdx, this`stateStack, this`valueStack, this`state, this`vsp,
               this`token, this`val, this`nextVal, this`nextToken
      ensures Linked() && Abs() == LrMachine.Push(m, s) && EndPending() == old(EndPending())
    {
      hide Inv, Slots;
      Push(s);
      PopToken();
    }

    /** Pops states until one can handle an error; no state can, so the parse is aborted. */
    method ErrorRecovery() returns (code: int)
      requires Linked() && forall i :: 0 <= i <= stackIdx ==> stateStack[i] < STATES
      modifies this`errors, this`stackIdx, this`state, this`vsp
      ensures code == 1
    {
      errors := errors + 1;
      while Table(stateStack[stackIdx])[0].field1 % 2 != ERR_ITEM
        invariant Linked() && 0 <= stackIdx <= old(stackIdx) && stateStack == old(stateStack)
        decreases stackIdx
      {
        var ok := Pop(1);
        if !ok {
          return 1;
        }
      }
      TypeMeaning(stateStack[stackIdx]);
      assert false;
    }

    /** What the registers say of the machine. */
    lemma RegistersSay(m: Machine)
      requires Valid() && m == Abs()
      ensures Linked() && Inv(m) && m.Top() == state < STATES && m.token == token
      ensures m.result == (if hasResult then Some(result) else None)
      ensures forall i :: 0 <= i <= stackIdx ==> stateStack[i] < STATES
      ensures !EndPending() ==> remaining == Tokens(scanner.Unread())
    {
      StatesInRange(m);
      assert forall i :: 0 <= i <= stackIdx ==> stateStack[i] == m.states[i];
      hide Inv, Slots;
    }

    lemma ValidIsLinked()
      requires Valid()
      ensures Linked()
    {
    }

    lemma ValidHere()
      requires Linked() && Inv(Abs()) && (!EndPending() ==> remaining == Tokens(scanner.Unread()))
      ensures Valid()
    {
    }

    /** Does what the table says about the current token; returns how the parse ends, if it does. */
    method Perform(ghost m: Machine) returns (end: Option<Ending>)
      requires Valid() && m == Abs() && (NeedsToken(state) ==> token != UNDETERMINED)
      modifies this`token, this`val, this`nextVal, this`nextToken, this`result, this`hasResult, this`cells, cells,
               this`stackIdx, this`state, this`vsp, this`stateStack, this`valueStack, this`errors
      ensures fresh(cells - old(cells)) && (hasResult || (!old(hasResult) && result == old(result)))
      ensures match Act(lib, m)
              case Next(m') => end == None && Linked() && Abs() == m' && EndPending() == old(EndPending())
              case Exit(code) => end == Some(Returned(code)) && result == old(result) && hasResult == old(hasResult)
              case Fail(f) => end == Some(EndingOf(f))
    {
      hide Inv, Action, Table, Slots, Reduce, LrMachine.Push, Act, Reducing, CanReduce, Valid, Abs, Linked;
      RegistersSay(m);
      ActionKinds(m);
      ActCases(lib, m);
      var action := Lookup();
      if action.None? {
        var code := ErrorRecovery();
        return Some(Returned(code));
      }
      if action.value > 0 {
        ShiftTo(action.value, m);
        return None;
      } else if action.value < 0 {
        var failure := ReduceBy(-action.value, m);
        return if failure.None? then None else Some(EndingOf(failure.value));
      } else {
        return Some(Returned(0));
      }
    }

    /** One round of the parse loop. */
    method Round(ghost m: Machine) returns (end: Option<Ending>)
      requires Valid() && m == Abs()
      modifies this, scanner, cells
      ensures fresh(cells - old(cells)) && (hasResult || (!old(hasResult) && result == old(result)))
      ensures match Step(lib, m)
              case Next(m') => end == None && Valid() && Abs() == m'
              case Exit(code) => end == Some(Returned(code)) && (if hasResult then Some(result) else None) == m.result
              case Fail(f) => end == Some(EndingOf(f))
    {
      hide Inv, Action, Table, Slots, Act, Fetch, NeedsToken, Valid, Abs, Linked, Tokens;
      RegistersSay(m);
      StepKeepsInv(lib, m);
      TypeMeaning(state);
      if Table(state)[0].field1 / 2 % 2 == 1 {
        NextToken();
      }
      ValidIsLinked();
      RegistersSay(Abs());
      end := Perform(Abs());
      if end.None? {
        ValidHere();
      }
    }

    /** Pushes the initial state and forgets any token. */
    method Begin()
      requires Fresh()
      modifies this
      ensures Valid() && fresh(cells) && !hasResult && result == old(result)
      ensures Meaning(lib, Abs()) == ParseTokens(lib, Tokens(scanner.Unread()))
    {
      hide Inv, Meaning, ParseTokens, Tokens, Slots, Abs, Valid;
      Push(0);
      assert stateStack[..1][0] == 0 && valueStack[..1][0] == null;
      token, nextToken := UNDETERMINED, UNDETERMINED;
      remaining := Tokens(scanner.Unread());
      BegunHere();
    }

    /**
     * Parses what the scanner delivers. The outcome is the one `ParseTokens` gives for the tokens, which is
     * the grammar's: 0 with the value in `result`; 1 with `result` unchanged or already holding the expression
     * that was followed by something else; a `parse_error` from a conversion; or undefined behaviour in one.
     */
    method Parse() returns (end: Ending)
      requires Fresh()
      modifies this, scanner
      ensures match ParseTokens(lib, Tokens(old(scanner.Unread())))
              case Accepted(v) => end == Returned(0) && result == v
              case Rejected(None) => end == Returned(1) && result == old(result)
              case Rejected(Some(v)) => end == Returned(1) && result == v
              case Failed(Exception) => end == ParseError
              case Failed(UndefinedBehaviour) => end == Undefined
    {
      hide Inv, Meaning, Measure, Step, ParseTokens, Slots, Tokens;
      ghost var outcome := ParseTokens(lib, Tokens(scanner.Unread()));
      Begin();
      while true
        invariant Valid() && fresh(cells) && Meaning(lib, Abs()) == outcome
        invariant hasResult || result == old(result)
        decreases Measure(Abs())
      {
        ghost var m := Abs();
        StepFollows(lib, m);
        var e := Round(m);
        if e.Some? {
          return e.value;
        }
      }
    }
  }

  lemma {:induction false} TokensShaped(s: seq<byte>)
    ensures forall i :: 0 <= i < |Tokens(s)| ==> IsTerminal(Tokens(s)[i].code) && Shaped(Tokens(s)[i])
    decreases |s|
  {
    NextIsShaped(s);
    var r := ScannerSpec.NextToken(s);
    if r.code > 0 {
      TokensShaped(r.rest);
    }
  }

  /** A token is a terminal of the grammar, and a string token has its two quotes. */
  lemma {:induction false} NextIsShaped(s: seq<byte>)
    ensures var r := ScannerSpec.NextToken(s); r.code < EXPRESSION && Shaped(Token(r.code, r.lexeme))
    decreases |s|
  {
    hide NextToken, MatchLength, PushBack, AutomatonRule, StringTail;
    TokenUnfold(s);
    var m := MatchLength(s);
    if s != [] && m == 0 {
      NextIsShaped(s[1..]);
    } else if s != [] && AutomatonRule(s[..m]) == 5 {
      NextIsShaped(PushBack(s, m));
    } else if s != [] && AutomatonRule(s[..m]) == 3 {
      AutomatonIsRules(s[..m]);
      CatCls(Chr(34).has, StringTail(), s[..m]);
      StringTailUnfold(s[..m][1..]);
    }
  }

  lemma TokensUnfold(s: seq<byte>)
    ensures var r := ScannerSpec.NextToken(s);
            Tokens(s) == if r.code <= 0 then [] else [Token(r.code, r.lexeme)] + Tokens(r.rest)
  {
  }
}
