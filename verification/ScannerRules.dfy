/** The seven lexical rules, and the proof that the scanner's automaton decides them. */
module ScannerRules {
  import opened Bytes
  import opened Regex
  import opened ScannerTables

  const RULES := 7

  function Digit(): Re { Cls((c: byte) => IsDigit(c)) }
  function ExponentMark(): Re { Cls(c => c == 101 || c == 69) }
  function Exponent(): Re { Cat(ExponentMark(), Cat(Opt(Chr(45)), Plus(Digit()))) }
  function Fraction(): Re { Cat(Star(Digit()), Opt(Exponent())) }
  function Real(): Re { Cat(Star(Digit()), Cat(Chr(46), Fraction())) }
  function Dot(): Re { Cls(c => c != 10) }
  function Escaped(): Re { Cat(Chr(92), Dot()) }
  function StringTail(): Re { Cat(Star(Alt(Cls(c => c != 34 && c != 92), Escaped())), Chr(34)) }
  function Base64Char(): Re {
    Cls((c: byte) => 65 <= c <= 90 || 97 <= c <= 122 || IsDigit(c) || c == 43 || c == 47 || c == 61)
  }
  function Blank(): Re { Cls(c => c == 32 || c == 9) }

  /** The rules in the order in which they are written; earlier rules win ties. */
  function Rule(i: nat): Re
    requires i < RULES
  {
    match i
    case 0 => Alt(Cat(Chr(35), Chr(116)), Cat(Chr(35), Chr(102)))
    case 1 => Cat(Opt(Chr(45)), Plus(Digit()))
    case 2 => Cat(Opt(Chr(45)), Real())
    case 3 => Cat(Chr(34), StringTail())
    case 4 => Cat(Chr(38), Star(Base64Char()))
    case 5 => Plus(Blank())
    case _ => Dot()
  }

  /** The first rule matching the whole of `w`, or -1. */
  ghost function FirstRule(w: seq<byte>): int {
    FirstRuleFrom(0, w)
  }

  ghost function FirstRuleFrom(i: nat, w: seq<byte>): (r: int)
    requires i <= RULES
    ensures r == -1 || (i <= r < RULES && In(Rule(r), w))
    ensures forall k: nat :: i <= k < RULES && (r == -1 || k < r) ==> !In(Rule(k), w)
    decreases RULES - i
  {
    if i == RULES then -1 else if In(Rule(i), w) then i else FirstRuleFrom(i + 1, w)
  }

  predicate HasLowByte(w: seq<byte>) {
    exists i :: 0 <= i < |w| && w[i] < 9
  }

  /** The state the automaton reaches from `q` on `w`, -1 if it gets stuck. */
  function Run(q: nat, w: seq<byte>): (r: int)
    requires q < 16
    ensures -1 <= r < 16
    decreases |w|
  {
    if w == [] then q
    else
      var next := Step(q, w[0]);
      if next == -1 then -1 else Run(next, w[1..])
  }

  /** The rule the automaton reports for the whole of `w`, or -1. */
  function AutomatonRule(w: seq<byte>): (r: int)
    ensures -1 <= r < RULES
  {
    var q := Run(0, w);
    if q == -1 then -1 else Final(q)
  }

  /** What rule `i` < 6 still accepts in state `q`. */
  function Rest(q: nat, i: nat): Re
    requires q < 16 && i < 6
  {
    match i
    case 0 => if q == 0 then Rule(0)
              else if q == 4 then Alt(Chr(116), Chr(102))
              else if q == 12 then Eps
              else Void()
    case 1 => if q == 0 then Rule(1)
              else if q == 6 then Plus(Digit())
              else if q == 8 then Cat(Star(Digit()), Eps)
              else Void()
    case 2 => if q == 0 then Rule(2)
              else if q == 6 || q == 8 then Real()
              else if q == 7 then Fraction()
              else if q == 13 then Cat(Opt(Chr(45)), Plus(Digit()))
              else if q == 14 then Plus(Digit())
              else if q == 15 then Cat(Star(Digit()), Eps)
              else Void()
    case 3 => if q == 0 then Rule(3)
              else if q == 3 || q == 9 then StringTail()
              else if q == 11 then Cat(Dot(), StringTail())
              else if q == 10 then Eps
              else Void()
    case 4 => if q == 0 then Rule(4) else if q == 5 then Cat(Star(Base64Char()), Eps) else Void()
    case _ => if q == 0 then Rule(5) else if q == 1 then Cat(Star(Blank()), Eps) else Void()
  }

  function Void(): Re { Cls(c => false) }

  lemma InVoid()
    ensures forall w: seq<byte> :: !In(Void(), w)
  {
  }

  lemma InEps()
    ensures forall w: seq<byte> :: In(Eps, w) <==> w == []
  {
  }

  lemma InAlt(a: Re, b: Re)
    ensures forall w: seq<byte> :: In(Alt(a, b), w) <==> In(a, w) || In(b, w)
  {
  }

  lemma InChr(c: byte)
    ensures forall w: seq<byte> :: In(Chr(c), w) <==> w == [c]
  {
  }

  lemma PlusCls(p: byte -> bool, w: seq<byte>)
    ensures In(Plus(Cls(p)), w) <==> w != [] && p(w[0]) && In(Cat(Star(Cls(p)), Eps), w[1..])
  {
    CatCls(p, Star(Cls(p)), w);
    if w != [] {
      CatEps(Star(Cls(p)), w[1..]);
    }
  }

  lemma OptMinus(r: Re, w: seq<byte>)
    ensures In(Cat(Opt(Chr(45)), r), w) <==> In(r, w) || (w != [] && w[0] == 45 && In(r, w[1..]))
  {
    CatOpt(Chr(45), r, w);
    CatCls(Chr(45).has, r, w);
  }

  lemma RealUnfold(w: seq<byte>)
    ensures In(Real(), w)
       <==> w != [] && (if w[0] == 46 then In(Fraction(), w[1..]) else IsDigit(w[0]) && In(Real(), w[1..]))
  {
    CatStarCls(Digit().has, Cat(Chr(46), Fraction()), w);
    CatCls(Chr(46).has, Fraction(), w);
  }

  lemma FractionUnfold(w: seq<byte>)
    ensures In(Fraction(), w)
       <==> w == []
            || (IsDigit(w[0]) && In(Fraction(), w[1..]))
            || ((w[0] == 101 || w[0] == 69) && In(Cat(Opt(Chr(45)), Plus(Digit())), w[1..]))
  {
    CatStarCls(Digit().has, Opt(Exponent()), w);
    CatCls(ExponentMark().has, Cat(Opt(Chr(45)), Plus(Digit())), w);
  }

  lemma StringTailUnfold(w: seq<byte>)
    ensures In(StringTail(), w)
       <==> w != [] && (if w[0] == 34 then w[1..] == []
                        else if w[0] == 92 then In(Cat(Dot(), StringTail()), w[1..])
                        else In(StringTail(), w[1..]))
  {
    var plain := Cls(c => c != 34 && c != 92);
    var a := Alt(plain, Escaped());
    CatStar(a, Chr(34), w);
    if w != [] {
      CatCls(Dot().has, StringTail(), w[1..]);
      forall k | 0 <= k <= |w|
        ensures In(a, w[..k]) <==> (k == 1 && w[0] != 34 && w[0] != 92) || (k == 2 && w[0] == 92 && w[1] != 10)
      {
        CatCls(Chr(92).has, Dot(), w[..k]);
      }
      if w[0] == 92 && |w| >= 2 {
        assert w[2..] == w[1..][1..];
        assert In(StringTail(), w[2..]) && w[1] != 10 ==> In(a, w[..2]);
      }
      if w[0] != 34 && w[0] != 92 {
        assert In(a, w[..1]);
      }
    }
  }

  /**
   * The automaton is right about rule `i` in state `q` one byte ahead: at the end of a word it accepts
   * exactly if nothing is left to match, and reading a byte turns what is left of the rule into what is
   * left of it in the next state.
   */
  ghost predicate Tracks(q: nat, i: nat, w: seq<byte>)
    requires q < 16 && i < 6
  {
    if w == [] then
      In(Rest(q, i), w) <==> Final(q) == i
    else
      w[0] >= 9 ==> (In(Rest(q, i), w) <==> Step(q, w[0]) != -1 && In(Rest(Step(q, w[0]), i), w[1..]))
  }

  lemma TracksBoolean(q: nat, w: seq<byte>)
    requires q < 16
    ensures Tracks(q, 0, w)
  {
    hide In;
    InVoid();
    InEps();
    InAlt(Chr(116), Chr(102));
    InAlt(Cat(Chr(35), Chr(116)), Cat(Chr(35), Chr(102)));
    InChr(116);
    InChr(102);
    assert w != [] ==> w == [w[0]] + w[1..];
    CatCls(Chr(35).has, Chr(116), w);
    CatCls(Chr(35).has, Chr(102), w);
  }

  lemma TracksInteger(q: nat, w: seq<byte>)
    requires q < 16
    ensures Tracks(q, 1, w)
  {
    hide In;
    InVoid();
    InEps();
    match q
    case 0 =>
      OptMinus(Plus(Digit()), w);
      PlusCls(Digit().has, w);
    case 6 => PlusCls(Digit().has, w);
    case 8 => CatStarCls(Digit().has, Eps, w);
    case _ =>
  }

  lemma TracksReal(q: nat, w: seq<byte>)
    requires q < 16
    ensures Tracks(q, 2, w)
  {
    hide In;
    InVoid();
    InEps();
    match q
    case 0 =>
      OptMinus(Real(), w);
      RealUnfold(w);
    case 6 => RealUnfold(w);
    case 8 => RealUnfold(w);
    case 7 => FractionUnfold(w);
    case 13 =>
      OptMinus(Plus(Digit()), w);
      PlusCls(Digit().has, w);
    case 14 => PlusCls(Digit().has, w);
    case 15 => CatStarCls(Digit().has, Eps, w);
    case _ =>
  }

  lemma TracksString(q: nat, w: seq<byte>)
    requires q < 16
    ensures Tracks(q, 3, w)
  {
    hide In;
    InVoid();
    InEps();
    CatCls(Chr(34).has, StringTail(), w);
    StringTailUnfold(w);
    CatCls(Dot().has, StringTail(), w);
  }

  lemma TracksBinary(q: nat, w: seq<byte>)
    requires q < 16
    ensures Tracks(q, 4, w)
  {
    hide In;
    InVoid();
    InEps();
    match q
    case 0 =>
      CatCls(Chr(38).has, Star(Base64Char()), w);
      if w != [] {
        CatEps(Star(Base64Char()), w[1..]);
      }
    case 5 => CatStarCls(Base64Char().has, Eps, w);
    case _ =>
  }

  lemma TracksBlank(q: nat, w: seq<byte>)
    requires q < 16
    ensures Tracks(q, 5, w)
  {
    hide In;
    InVoid();
    InEps();
    PlusCls(Blank().has, w);
    CatStarCls(Blank().has, Eps, w);
  }

  lemma TracksAll(q: nat, i: nat, w: seq<byte>)
    requires q < 16 && i < 6
    ensures Tracks(q, i, w)
  {
    match i
    case 0 => TracksBoolean(q, w);
    case 1 => TracksInteger(q, w);
    case 2 => TracksReal(q, w);
    case 3 => TracksString(q, w);
    case 4 => TracksBinary(q, w);
    case 5 => TracksBlank(q, w);
  }

  /** From any state, on words over the scanner's alphabet, running the automaton decides what is left of a rule. */
  lemma {:induction false} RunDecides(q: nat, i: nat, w: seq<byte>)
    requires q < 16 && i < 6 && !HasLowByte(w)
    ensures In(Rest(q, i), w) <==> Run(q, w) != -1 && Final(Run(q, w)) == i
    decreases |w|
  {
    hide In;
    TracksAll(q, i, w);
    if w != [] && Step(q, w[0]) != -1 {
      assert forall k :: 0 <= k < |w[1..]| ==> w[1..][k] == w[k + 1];
      RunDecides(Step(q, w[0]), i, w[1..]);
    }
  }

  /** The states that accept the catch-all rule are left by no byte, so they are reached by single bytes only. */
  lemma CatchAll(w: seq<byte>)
    requires !HasLowByte(w)
    ensures AutomatonRule(w) == 6 ==> |w| == 1 && w[0] != 10
    ensures |w| == 1 && w[0] != 10 ==> AutomatonRule(w) != -1
  {
    if w != [] && Step(0, w[0]) != -1 {
      LaterStates(Step(0, w[0]), w[1..]);
    }
    if |w| == 1 {
      assert w[0] >= 9 && w[1..] == [];
      assert w[0] != 10 ==> Run(0, w) == Step(0, w[0]);
    }
  }

  lemma {:induction false} LaterStates(q: nat, w: seq<byte>)
    requires 0 < q < 16
    ensures w != [] && Run(q, w) != -1 ==> Final(Run(q, w)) != 6
    decreases |w|
  {
    if w != [] && Step(q, w[0]) != -1 {
      LaterStates(Step(q, w[0]), w[1..]);
    }
  }

  /** A byte below 9 stops the automaton wherever it is. */
  lemma {:induction false} LowByteStops(q: nat, w: seq<byte>)
    requires q < 16 && HasLowByte(w)
    ensures Run(q, w) == -1
    decreases |w|
  {
    var k :| 0 <= k < |w| && w[k] < 9;
    if w[0] >= 9 && Step(q, w[0]) != -1 {
      assert w[1..][k - 1] < 9;
      LowByteStops(Step(q, w[0]), w[1..]);
    }
  }

  /**
   * The automaton reports exactly the first matching rule of a word, for every word: a word with a byte
   * below 9 is never accepted, any other word is accepted with the earliest rule that matches all of it.
   */
  lemma AutomatonIsRules(w: seq<byte>)
    ensures AutomatonRule(w) == if HasLowByte(w) then -1 else FirstRule(w)
  {
    if HasLowByte(w) {
      LowByteStops(0, w);
    } else {
      CatchAll(w);
      forall i: nat | i < 6 ensures In(Rule(i), w) <==> AutomatonRule(w) == i {
        RunDecides(0, i, w);
      }
      assert In(Rule(6), w) <==> |w| == 1 && w[0] != 10;
    }
  }

  /** The two agree on a word exactly if it has no byte below 9 or matches no rule at all. */
  lemma AgreementIsExact(w: seq<byte>)
    ensures AutomatonRule(w) == FirstRule(w) <==> !HasLowByte(w) || FirstRule(w) == -1
  {
    AutomatonIsRules(w);
  }

  /** A word that shows the difference: the catch-all rule matches the byte 0, the automaton does not. */
  lemma NulIsRejected()
    ensures FirstRule([0]) == 6 && AutomatonRule([0]) == -1
  {
    var w: seq<byte> := [0];
    CatCls(Chr(35).has, Chr(116), w);
    CatCls(Chr(35).has, Chr(102), w);
    OptMinus(Plus(Digit()), w);
    PlusCls(Digit().has, w);
    OptMinus(Real(), w);
    RealUnfold(w);
    CatCls(Chr(34).has, StringTail(), w);
    CatCls(Chr(38).has, Star(Base64Char()), w);
    PlusCls(Blank().has, w);
    assert In(Rule(6), w);
  }
}
