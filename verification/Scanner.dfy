/** What one call of the scanner does to the unread input. */
module ScannerSpec {
  import opened Bytes
  import opened ScannerTables
  import opened ScannerRules

  const BOOLEAN := 257
  const INTEGER := 258
  const REAL := 259
  const STRING := 260
  const BINARY := 261

  /** The length of the longest accepted prefix of `s` among those of length at most `k`, 0 if there is none. */
  function MatchUpTo(s: seq<byte>, k: nat): (m: nat)
    requires k <= |s|
    ensures m <= k && (m > 0 ==> AutomatonRule(s[..m]) != -1)
  {
    if k == 0 then 0 else if AutomatonRule(s[..k]) != -1 then k else MatchUpTo(s, k - 1)
  }

  lemma {:induction false} NoLongerMatch(s: seq<byte>, k: nat)
    requires k <= |s|
    ensures forall j :: MatchUpTo(s, k) < j <= k ==> AutomatonRule(s[..j]) == -1
  {
    if k > 0 && AutomatonRule(s[..k]) == -1 {
      NoLongerMatch(s, k - 1);
    }
  }

  function MatchLength(s: seq<byte>): (m: nat)
    ensures m <= Reach(s)
  {
    var m := MatchUpTo(s, |s|);
    RunWithinReach(0, s, m);
    m
  }

  /** How many bytes of `s` the automaton reads from state `q` on before it is stuck. */
  function ReachFrom(q: nat, s: seq<byte>): (n: nat)
    requires q < 16
    ensures n <= |s|
    decreases |s|
  {
    if s == [] || Step(q, s[0]) == -1 then 0 else 1 + ReachFrom(Step(q, s[0]), s[1..])
  }

  /** How many bytes the automaton reads in one cycle; a match may be shorter. */
  function Reach(s: seq<byte>): (n: nat)
    ensures n <= |s|
  {
    ReachFrom(0, s)
  }

  lemma {:induction false} RunWithinReach(q: nat, s: seq<byte>, m: nat)
    requires q < 16 && m <= |s| && (m > 0 ==> Run(q, s[..m]) != -1)
    ensures m <= ReachFrom(q, s)
    decreases m
  {
    if m > 0 {
      assert s[..m][0] == s[0] && s[..m][1..] == s[1..][..m - 1];
      RunWithinReach(Step(q, s[0]), s[1..], m - 1);
    }
  }

  /** The automaton is stuck exactly behind the bytes it reaches. */
  lemma {:induction false} ReachIs(q: nat, s: seq<byte>, n: nat)
    requires q < 16 && n <= |s| && Run(q, s[..n]) != -1
    requires n < |s| ==> Step(Run(q, s[..n]), s[n]) == -1
    ensures ReachFrom(q, s) == n
    decreases n
  {
    if n > 0 {
      assert s[..n][0] == s[0] && s[..n][1..] == s[1..][..n - 1];
      ReachIs(Step(q, s[0]), s[1..], n - 1);
    } else {
      assert s[..0] == [];
    }
  }

  /**
   * What pushing text back puts in front of the input: a character of the matched text is a signed `char`,
   * and a negative one, converted to an unsigned word, is no character any more and dropped.
   */
  function Kept(s: seq<byte>): (r: seq<byte>)
    ensures |r| <= |s|
  {
    if s == [] then [] else (if AsSignedChar(s[0]) >= 0 then [s[0]] else []) + Kept(s[1..])
  }

  predicate IsAscii(s: seq<byte>) {
    forall i :: 0 <= i < |s| ==> s[i] < 128
  }

  lemma {:induction false} KeptIffAscii(s: seq<byte>)
    ensures IsAscii(s) ==> Kept(s) == s
    ensures !IsAscii(s) ==> |Kept(s)| < |s|
  {
    if s != [] {
      KeptIffAscii(s[1..]);
      if IsAscii(s) {
        assert s == [s[0]] + s[1..];
      }
    }
  }

  /** The unread input after a match of `m` bytes: what the automaton read beyond it goes back first. */
  function PushBack(s: seq<byte>, m: nat): (r: seq<byte>)
    requires m <= Reach(s)
    ensures |r| <= |s| - m
  {
    Kept(s[m..Reach(s)]) + s[Reach(s)..]
  }

  /** The match is the longest prefix that a rule matches, reported for the earliest such rule. */
  lemma MaximalMunch(s: seq<byte>)
    ensures var m := MatchLength(s);
            && (m > 0 ==> !HasLowByte(s[..m]) && AutomatonRule(s[..m]) == FirstRule(s[..m]) != -1)
            && forall j :: m < j <= |s| ==> HasLowByte(s[..j]) || FirstRule(s[..j]) == -1
  {
    AutomatonIsRules(s[..MatchLength(s)]);
    NoLongerMatch(s, |s|);
    forall j | MatchLength(s) < j <= |s| ensures HasLowByte(s[..j]) || FirstRule(s[..j]) == -1 {
      AutomatonIsRules(s[..j]);
    }
  }

  /** The token number the action of a rule returns; the last rule returns its character as a signed `char`. */
  function CodeOf(rule: int, lexeme: seq<byte>): int
    requires lexeme != []
  {
    if 0 <= rule < 5 then BOOLEAN + rule else AsSignedChar(lexeme[0])
  }

  /** `overrun` is what was read beyond the lexeme before the automaton was stuck. */
  datatype Lexed = Lexed(code: int, lexeme: seq<byte>, rest: seq<byte>, skipped: seq<byte>, echoed: seq<byte>,
                         overrun: seq<byte>)
  {
    /** Whether this is `later` with `echo` echoed before it. */
    predicate From(later: Lexed, echo: seq<byte>) {
      code == later.code && lexeme == later.lexeme && rest == later.rest && echoed == echo + later.echoed
    }
  }

  lemma FromRefl(a: Lexed)
    ensures a.From(a, [])
  {
  }

  lemma FromEnd(a: Lexed, b: Lexed, x: seq<byte>)
    requires a.From(b, x) && b.echoed == []
    ensures a.code == b.code && a.lexeme == b.lexeme && a.rest == b.rest && a.echoed == x
  {
  }

  lemma FromTrans(a: Lexed, b: Lexed, c: Lexed, x: seq<byte>, y: seq<byte>)
    requires a.From(b, x) && b.From(c, y)
    ensures a.From(c, x + y)
  {
    assert x + (y + c.echoed) == x + y + c.echoed;
  }

  /** One call of the scanner: blanks and characters no rule starts with are skipped, the latter echoed. */
  function NextToken(s: seq<byte>): (r: Lexed)
    ensures r.code == 0 <==> r.lexeme == []
    ensures if r.code == 0 then r.rest == [] else |r.rest| < |s|
    decreases |s|
  {
    if s == [] then
      Lexed(0, [], [], [], [], [])
    else
      var m := MatchLength(s);
      if m == 0 then
        var r := NextToken(s[1..]);
        r.(skipped := s[..1] + r.skipped, echoed := s[..1] + r.echoed)
      else
        var rule := AutomatonRule(s[..m]);
        if rule == 5 then
          var r := NextToken(PushBack(s, m));
          r.(skipped := s[..m] + r.skipped)
        else
          NoNulLexeme(s, m);
          Lexed(CodeOf(rule, s[..m]), s[..m], PushBack(s, m), [], [], s[m..Reach(s)])
  }

  /** The four ways a call can go on, one step at a time. */
  lemma TokenUnfold(s: seq<byte>)
    ensures s == [] ==> NextToken(s) == Lexed(0, [], [], [], [], [])
    ensures s != [] && MatchLength(s) == 0 ==> NextToken(s).From(NextToken(s[1..]), s[..1])
    ensures MatchLength(s) > 0 ==>
              var m := MatchLength(s);
              var rule := AutomatonRule(s[..m]);
              if rule == 5 then NextToken(s).From(NextToken(PushBack(s, m)), [])
              else NextToken(s) == Lexed(CodeOf(rule, s[..m]), s[..m], PushBack(s, m), [], [], s[m..Reach(s)])
  {
  }

  /** A match of blanks never overruns: the automaton accepts as long as it reads blanks. */
  lemma BlanksDoNotOverrun(s: seq<byte>)
    requires MatchLength(s) > 0 && AutomatonRule(s[..MatchLength(s)]) == 5
    ensures Reach(s) == MatchLength(s) && PushBack(s, MatchLength(s)) == s[MatchLength(s)..]
  {
    var m := MatchLength(s);
    assert Run(0, s[..m]) == 1;
    if m < |s| && Step(1, s[m]) != -1 {
      assert s[..m + 1] == s[..m] + [s[m]];
      RunSnoc(0, s[..m], s[m]);
      NoLongerMatch(s, |s|);
      assert false;
    }
    ReachIs(0, s, m);
    assert s[m..m] == [];
  }

  /**
   * The input of a call, in order: what is skipped, the lexeme, what was read beyond it, and what was not
   * read. Of the third part only the characters below 128 are still unread afterwards.
   */
  lemma {:induction false} Accounting(s: seq<byte>)
    ensures var r := NextToken(s);
            var read := |r.skipped| + |r.lexeme| + |r.overrun|;
            && read <= |s|
            && s == r.skipped + r.lexeme + r.overrun + s[read..]
            && r.rest == Kept(r.overrun) + s[read..]
    decreases |s|
  {
    hide MatchLength, AutomatonRule, Reach, Kept;
    if s != [] {
      var m := MatchLength(s);
      if m == 0 {
        Accounting(s[1..]);
        Prefixed(s, 1, NextToken(s[1..]));
      } else if AutomatonRule(s[..m]) == 5 {
        BlanksDoNotOverrun(s);
        Accounting(s[m..]);
        Prefixed(s, m, NextToken(s[m..]));
      } else {
        assert s == s[..m] + s[m..Reach(s)] + s[Reach(s)..];
      }
    } else {
      KeptIffAscii([]);
    }
  }

  lemma Prefixed(s: seq<byte>, m: nat, r: Lexed)
    requires m <= |s| && |r.skipped| + |r.lexeme| + |r.overrun| <= |s| - m
    ensures s[m..][|r.skipped| + |r.lexeme| + |r.overrun|..] == s[m + |r.skipped| + |r.lexeme| + |r.overrun|..]
    ensures var unread := s[m..][|r.skipped| + |r.lexeme| + |r.overrun|..];
            s[m..] == r.skipped + r.lexeme + r.overrun + unread
            ==> s == (s[..m] + r.skipped) + r.lexeme + r.overrun + unread
  {
    assert s == s[..m] + s[m..];
  }

  /** A call conserves its input exactly if what it read beyond the lexeme holds no byte from 128 on. */
  lemma ConservedIffAscii(s: seq<byte>)
    ensures var r := NextToken(s); s == r.skipped + r.lexeme + r.rest <==> IsAscii(r.overrun)
  {
    hide NextToken;
    Accounting(s);
    var r := NextToken(s);
    var unread := s[|r.skipped| + |r.lexeme| + |r.overrun|..];
    KeptIffAscii(r.overrun);
    if IsAscii(r.overrun) {
      assert r.skipped + r.lexeme + (r.overrun + unread) == r.skipped + r.lexeme + r.overrun + unread;
    } else {
      assert |r.skipped + r.lexeme + r.rest| < |s|;
    }
  }

  lemma NoNulLexeme(s: seq<byte>, m: nat)
    requires 0 < m <= |s| && AutomatonRule(s[..m]) != -1
    ensures s[0] >= 9
  {
    assert s[..m][0] == s[0];
  }

  datatype Token = Token(code: int, lexeme: seq<byte>)

  /** The tokens delivered until the parser sees end of file, which is any token number that is not positive. */
  function Tokens(s: seq<byte>): seq<Token>
    decreases |s|
  {
    var r := NextToken(s);
    if r.code <= 0 then [] else [Token(r.code, r.lexeme)] + Tokens(r.rest)
  }

  /** When the automaton cannot continue after `m` bytes, the longest match lies within them. */
  lemma StuckAfter(s: seq<byte>, m: nat)
    requires m <= |s| && Run(0, s[..m]) != -1
    requires m < |s| ==> Step(Run(0, s[..m]), s[m]) == -1
    ensures MatchLength(s) == MatchUpTo(s, m)
  {
    hide Step;
    forall j | m < j <= |s| ensures AutomatonRule(s[..j]) == -1 {
      StuckBeyond(s, m, j);
    }
    MatchShrinks(s, m, |s|);
  }

  lemma ReachIsHere(s: seq<byte>, n: nat)
    requires n <= |s| && Run(0, s[..n]) != -1 && (n < |s| ==> Step(Run(0, s[..n]), s[n]) == -1)
    ensures Reach(s) == n
  {
    ReachIs(0, s, n);
  }

  lemma StuckBeyond(s: seq<byte>, m: nat, j: nat)
    requires m < j <= |s| && Run(0, s[..m]) != -1 && Step(Run(0, s[..m]), s[m]) == -1
    ensures AutomatonRule(s[..j]) == -1
  {
    hide Step;
    assert s[..j] == s[..m] + s[m..j];
    RunSplit(0, s[..m], s[m..j]);
    assert s[m..j][0] == s[m];
  }

  lemma {:induction false} MatchShrinks(s: seq<byte>, m: nat, k: nat)
    requires m <= k <= |s| && forall j :: m < j <= k ==> AutomatonRule(s[..j]) == -1
    ensures MatchUpTo(s, k) == MatchUpTo(s, m)
  {
    if m < k {
      MatchShrinks(s, m, k - 1);
    }
  }

  lemma RunNil(q: nat)
    requires q < 16
    ensures Run(q, []) == q
  {
  }

  lemma RunSnoc(q: nat, u: seq<byte>, c: byte)
    requires q < 16 && Run(q, u) != -1
    ensures Run(q, u + [c]) == Step(Run(q, u), c)
  {
    RunSplit(q, u, [c]);
    assert [c][1..] == [];
  }

  /** Whatever the automaton reads first, it then is in an accepting state: a stuck automaton has a match. */
  lemma FirstStepIsFinal(s: seq<byte>, m: nat)
    requires 0 < m <= |s| && Run(0, s[..m]) != -1
    ensures MatchUpTo(s, m) > 0
  {
    assert s[..m][0] == s[..1][0] && s[..1][1..] == [];
    assert Run(0, s[..1]) == Step(0, s[0]);
    NoLongerMatch(s, m);
  }

  lemma {:induction false} RunSplit(q: nat, u: seq<byte>, w: seq<byte>)
    requires q < 16
    ensures Run(q, u + w) == if Run(q, u) == -1 then -1 else Run(Run(q, u), w)
    decreases |u|
  {
    if u == [] {
      assert u + w == w;
    } else {
      assert (u + w)[1..] == u[1..] + w;
      if Step(q, u[0]) != -1 {
        RunSplit(Step(q, u[0]), u[1..], w);
      }
    }
  }
}

/** The generated scanner: a table-driven loop over an input with push-back. */
module Scanner {
  import opened Bytes
  import opened ScannerTables
  import opened ScannerRules
  import opened ScannerSpec
  import opened Numerals

  const AT_EOF := -1

  datatype ActionType = Continue | EchoCh | EchoFirst | Match | Return

  class Scanner {
    var pending: seq<byte>  // characters pushed back, next one first
    var stream: seq<byte>   // what the input stream still holds
    var open: bool          // whether the scanner still has an input stream
    var output: seq<byte>   // characters echoed
    var state: nat
    var nextState: int
    var finalRule: int      // the last rule seen to match, -1 if unavailable
    var finalLength: nat    // and the length of its match
    var matched: seq<byte>
    var doReturn: bool       // whether the executed action returns a token

    constructor (input: seq<byte>)
      ensures Unread() == input && output == [] && matched == []
    {
      pending, stream, open, output := [], input, true, [];
      state, nextState, finalRule, finalLength, matched, doReturn := 0, 0, -1, 0, [], true;
    }

    ghost function Unread(): seq<byte>
      reads this
    {
      pending + if open then stream else []
    }

    /** Fetches the next character, pushed-back ones first. */
    method Next() returns (ch: int)
      modifies this`pending, this`stream
      ensures old(Unread()) == [] ==> ch == AT_EOF && Unread() == []
      ensures old(Unread()) != [] ==> ch == old(Unread())[0] && Unread() == old(Unread())[1..]
    {
      if pending == [] {
        if !open || stream == [] {
          return AT_EOF;
        }
        ch := stream[0];
        stream := stream[1..];
      } else {
        ch := pending[0];
        pending := pending[1..];
      }
    }

    /** A negative number becomes a huge unsigned word, and nothing from 256 on is pushed back. */
    method ReRead(ch: int)
      requires -256 < ch < 256
      modifies this`pending
      ensures Unread() == (if ch < 0 then [] else [ch]) + old(Unread())
    {
      if (if ch < 0 then ch + TWO_64 else ch) < 0x100 {
        pending := [ch] + pending;
      }
    }

    /**
     * Pushes back the characters of the matched text from index `from` on, last one first. Each is passed on
     * as a signed `char`.
     */
    method ReReadMatched(from: nat)
      requires from <= |matched|
      modifies this`pending
      ensures Unread() == Kept(matched[from..]) + old(Unread())
    {
      var idx := |matched|;
      while idx > from
        invariant from <= idx <= |matched|
        invariant Unread() == Kept(matched[idx..]) + old(Unread())
      {
        idx := idx - 1;
        ReRead(AsSignedChar(matched[idx]));
        assert matched[idx..][0] == matched[idx] && matched[idx..][1..] == matched[idx + 1..];
      }
    }

    method GetRange(ch: int) returns (range: nat)
      requires AT_EOF <= ch < 256
      ensures range == if ch == AT_EOF then EOF_RANGE else RangeOf(ch)
    {
      if ch == AT_EOF {
        range := EOF_RANGE;
      } else {
        range := RangeOf(ch);
      }
    }

    /** Brings the record of the longest match up to the prefix that has just been read. */
    method UpdateFinals(ghost cur: seq<byte>)
      requires InCycle(cur)
      modifies this`finalRule, this`finalLength
      ensures finalLength == MatchUpTo(cur, |matched|)
      ensures finalRule == if finalLength == 0 then -1 else AutomatonRule(cur[..finalLength])
    {
      hide Run;
      RunNil(0);
      assert cur[..|matched|] == matched;
      if Final(state) != -1 {
        finalRule, finalLength := Final(state), |matched|;
      }
    }

    method ClassifyAction(range: nat) returns (a: ActionType)
      requires state < 16 && range <= EOF_RANGE
      modifies this`nextState
      ensures nextState == Entry(state, range)
      ensures a == if nextState != -1 then Continue
                   else if finalRule != -1 then Match
                   else if matched != [] then EchoFirst
                   else if range != EOF_RANGE then EchoCh
                   else Return
    {
      nextState := Entry(state, range);
      if nextState != -1 {
        return Continue;
      }
      if finalRule != -1 {
        return Match;
      }
      if |matched| > 0 {
        return EchoFirst;
      }
      return if range != EOF_RANGE then EchoCh else Return;
    }

    /** Ends a match: what was read past it goes back to the input, as far as it is kept. */
    method EndMatch(ch: int, ghost cur: seq<byte>) returns (rule: int)
      requires AT_EOF <= ch < 256 && finalLength <= |matched| == Reach(cur)
      requires cur == matched + ((if ch == AT_EOF then [] else [ch]) + Unread())
      modifies this`pending, this`matched
      ensures rule == finalRule && matched == cur[..finalLength] && Unread() == PushBack(cur, finalLength)
    {
      hide Reach, Kept;
      assert matched[finalLength..] == cur[finalLength..|matched|];
      ReRead(ch);
      ReReadMatched(finalLength);
      matched := matched[..finalLength];
      rule := finalRule;
    }

    method ExecuteAction(rule: int) returns (token: int)
      requires 0 <= rule < RULES && matched != []
      modifies this`doReturn
      ensures rule == 5 ==> !doReturn
      ensures rule != 5 ==> doReturn == old(doReturn) && token == CodeOf(rule, matched)
    {
      match rule
      case 0 => return BOOLEAN;
      case 1 => return INTEGER;
      case 2 => return REAL;
      case 3 => return STRING;
      case 4 => return BINARY;
      case 6 => return AsSignedChar(matched[0]);
      case _ =>
        doReturn := false;
        return 0;
    }

    method EchoChar(ch: byte)
      modifies this`output
      ensures output == old(output) + [ch]
    {
      output := output + [ch];
    }

    method Reset()
      modifies this`finalRule, this`finalLength, this`state, this`doReturn, this`matched
      ensures finalRule == -1 && finalLength == 0 && state == 0 && doReturn && matched == []
    {
      finalRule, finalLength, state, doReturn, matched := -1, 0, 0, true, [];
    }

    /**
     * What holds inside a cycle that started with `cur` unread: the characters fetched so far are
     * `matched`, the automaton has followed them, and the final data describe the longest match among
     * the prefixes shorter than `matched`.
     */
    ghost predicate InCycle(cur: seq<byte>)
      reads this
    {
      && cur == matched + Unread()
      && state < 16 && state == Run(0, matched)
      && (matched == [] ==> finalRule == -1 && finalLength == 0)
      && (matched != [] ==> finalLength == MatchUpTo(cur, |matched| - 1))
      && finalRule == (if finalLength == 0 then -1 else AutomatonRule(cur[..finalLength]))
    }

    /** The part of a cycle up to the decision: fetch a character and see what the table says about it. */
    method Decide(ghost cur: seq<byte>) returns (ch: int, action: ActionType)
      requires InCycle(cur)
      modifies this`pending, this`stream, this`finalRule, this`finalLength, this`nextState
      ensures AT_EOF <= ch < 256
      ensures if ch == AT_EOF then old(Unread()) == [] == Unread()
              else old(Unread()) == [ch] + Unread()
      ensures finalLength == MatchUpTo(cur, |matched|)
      ensures finalRule == if finalLength == 0 then -1 else AutomatonRule(cur[..finalLength])
      ensures if ch != AT_EOF && Step(state, ch) != -1 then action == Continue && nextState == Step(state, ch)
              else
                && finalLength == MatchLength(cur) && Reach(cur) == |matched|
                && action == (if finalLength > 0 then Match else if ch == AT_EOF then Return else EchoCh)
                && (finalLength == 0 ==> matched == [])
    {
      hide Entry, Step, RangeOf, Run, Reach, MatchLength;
      UpdateFinals(cur);
      RunNil(0);
      assert cur[..|matched|] == matched;
      ch := Next();
      var range := GetRange(ch);
      action := ClassifyAction(range);
      TableMeaning(state, if ch == AT_EOF then 0 else ch);
      if nextState == -1 {
        StuckAfter(cur, |matched|);
        ReachIsHere(cur, |matched|);
        if matched != [] {
          FirstStepIsFinal(cur, |matched|);
        }
      }
    }

    /** The token of a match; a match of blanks reports none and scanning goes on. */
    method ReportMatch(ch: int, ghost cur: seq<byte>) returns (token: int)
      requires AT_EOF <= ch < 256 && 0 < finalLength <= |matched| == Reach(cur)
      requires cur == matched + ((if ch == AT_EOF then [] else [ch]) + Unread())
      requires finalLength == MatchLength(cur) && finalRule == AutomatonRule(cur[..finalLength]) && doReturn
      modifies this`pending, this`matched, this`doReturn
      ensures if doReturn then NextToken(cur) == Lexed(token, matched, Unread(), [], [], NextToken(cur).overrun)
              else |Unread()| < |cur| && NextToken(cur).From(NextToken(Unread()), [])
    {
      TokenUnfold(cur);
      var rule := EndMatch(ch, cur);
      token := ExecuteAction(rule);
    }

    method ContinueWith(ch: byte, ghost cur: seq<byte>)
      requires state < 16 && state == Run(0, matched) && nextState == Step(state, ch) != -1
      requires cur == matched + ([ch] + Unread())
      requires finalLength == MatchUpTo(cur, |matched|)
      requires finalRule == if finalLength == 0 then -1 else AutomatonRule(cur[..finalLength])
      modifies this`state, this`matched
      ensures InCycle(cur)
    {
      RunSnoc(0, matched, ch);
      state := nextState;
      matched := matched + [ch];
    }

    /** Returns the next token, as `NextToken` says. */
    method Lex() returns (token: int)
      modifies this
      ensures token == NextToken(old(Unread())).code
      ensures matched == NextToken(old(Unread())).lexeme
      ensures Unread() == NextToken(old(Unread())).rest
      ensures output == old(output) + NextToken(old(Unread())).echoed
    {
      hide Entry, Step, RangeOf, MatchUpTo, AutomatonRule;
      hide NextToken, Run, MatchLength, Reach, PushBack, Lexed.From;
      ghost var all := NextToken(Unread());
      RunNil(0);
      FromRefl(all);
      ghost var cur, done := Unread(), [];
      Reset();
      while true
        invariant InCycle(cur) && doReturn
        invariant all.From(NextToken(cur), done) && output == old(output) + done
        decreases |cur|, |Unread()|
      {
        var ch, action := Decide(cur);
        TokenUnfold(cur);
        match action
        case Continue =>
          ContinueWith(ch, cur);
        case Match =>
          token := ReportMatch(ch, cur);
          if doReturn {
            FromEnd(all, NextToken(cur), done);
            return;
          }
          FromTrans(all, NextToken(cur), NextToken(Unread()), done, []);
          assert done + [] == done;
          cur := Unread();
          Reset();
        case EchoFirst =>
          assert false;
        case EchoCh =>
          EchoChar(ch);
          assert Unread() == cur[1..];
          FromTrans(all, NextToken(cur), NextToken(Unread()), done, cur[..1]);
          cur, done := Unread(), done + cur[..1];
          Reset();
        case Return =>
          open := false;
          FromEnd(all, NextToken(cur), done);
          return 0;
      }
    }
  }
}
