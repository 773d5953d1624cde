/**
 * What becomes of an input as a whole, told from its text alone: which calls of the scanner lose bytes, and
 * which inputs are read to their end.
 */
module ScannerInput {
  import opened Bytes
  import opened ScannerTables
  import opened ScannerRules
  import opened ScannerSpec

  // --- Text behind an opening quote ----------------------------------------------------------------

  /** How many bytes behind an opening quote belong to the string; `escaped` follows a backslash. */
  function Body(s: seq<byte>, escaped: bool): (n: nat)
    ensures n <= |s|
  {
    if s == [] || s[0] < 9 || (escaped && s[0] == 10) || (!escaped && s[0] == 34) then 0
    else 1 + Body(s[1..], !escaped && s[0] == 92)
  }

  /** Whether the string is closed where its body ends. */
  predicate Closes(s: seq<byte>, escaped: bool) {
    if s == [] || s[0] < 9 || (escaped && s[0] == 10) then false
    else (!escaped && s[0] == 34) || Closes(s[1..], !escaped && s[0] == 92)
  }

  lemma {:induction false} ClosesWithQuote(s: seq<byte>, escaped: bool)
    ensures Closes(s, escaped) ==> Body(s, escaped) < |s| && s[Body(s, escaped)] == 34
  {
    if s != [] && !(s[0] < 9 || (escaped && s[0] == 10) || (!escaped && s[0] == 34)) {
      ClosesWithQuote(s[1..], !escaped && s[0] == 92);
    }
  }

  /** The state inside a string. */
  predicate InString(q: int, escaped: bool) {
    if escaped then q == 11 else q == 3 || q == 9
  }

  /** The automaton reads the body and, if there is one, the closing quote. */
  lemma {:induction false} StringReach(q: nat, s: seq<byte>, escaped: bool)
    requires InString(q, escaped)
    ensures ReachFrom(q, s) == Body(s, escaped) + if Closes(s, escaped) then 1 else 0
    ensures Closes(s, escaped) ==> Body(s, escaped) < |s| && Run(q, s[..Body(s, escaped) + 1]) == 10
    decreases |s|
  {
    if s != [] && Step(q, s[0]) != -1 {
      if !escaped && s[0] == 34 {
        assert s[..1][1..] == [] && s[..1][0] == 34;
        assert Run(10, []) == 10;
      } else {
        var escaped' := !escaped && s[0] == 92;
        StringReach(Step(q, s[0]), s[1..], escaped');
        if Closes(s, escaped) {
          assert s[..Body(s, escaped) + 1][1..] == s[1..][..Body(s[1..], escaped') + 1];
        }
      }
    }
  }

  /** While it reads the body it is in no accepting state. */
  lemma {:induction false} StringStates(q: nat, s: seq<byte>, escaped: bool, j: nat)
    requires InString(q, escaped) && 0 < j <= Body(s, escaped)
    ensures Run(q, s[..j]) == 9 || Run(q, s[..j]) == 11
    decreases j
  {
    assert s[..j][0] == s[0] && s[..j][1..] == s[1..][..j - 1];
    if j > 1 {
      StringStates(Step(q, s[0]), s[1..], !escaped && s[0] == 92, j - 1);
    }
  }

  /** A quote in front is matched together with its string, or alone if the string is not closed. */
  lemma QuoteMatch(s: seq<byte>)
    requires s != [] && s[0] == 34
    ensures var b := Body(s[1..], false);
            if Closes(s[1..], false) then Reach(s) == MatchLength(s) == b + 2 && AutomatonRule(s[..b + 2]) == 3
            else Reach(s) == b + 1 && MatchLength(s) == 1 && AutomatonRule(s[..1]) == 6
  {
    hide Step;
    var t := s[1..];
    var b := Body(t, false);
    QuoteState();
    StringReach(3, t, false);
    assert Reach(s) == 1 + ReachFrom(3, t);
    if Closes(t, false) {
      assert s[..b + 2][1..] == t[..b + 1];
      assert Run(0, s[..b + 2]) == Run(3, t[..b + 1]) == 10;
      AcceptedAt(s, b + 2);
    } else {
      assert s[..1][1..] == [] && s[..1][0] == 34;
      assert Run(0, s[..1]) == 3;
      forall j | 1 < j <= b + 1 ensures AutomatonRule(s[..j]) == -1 {
        assert s[..j][1..] == t[..j - 1];
        StringStates(3, t, false, j - 1);
      }
      NothingBeyondReach(s, b + 1);
      MatchShrinks(s, 1, |s|);
    }
  }

  lemma QuoteState()
    ensures Step(0, 34) == 3
  {
  }

  lemma AcceptedAt(s: seq<byte>, n: nat)
    requires 0 < n == Reach(s) && AutomatonRule(s[..n]) != -1
    ensures MatchLength(s) == n
  {
    NoLongerMatch(s, |s|);
  }

  lemma NothingBeyondReach(s: seq<byte>, n: nat)
    requires n == Reach(s)
    ensures forall j :: n < j <= |s| ==> AutomatonRule(s[..j]) == -1
  {
    forall j | n < j <= |s| ensures AutomatonRule(s[..j]) == -1 {
      if Run(0, s[..j]) != -1 {
        RunWithinReach(0, s, j);
      }
    }
  }

  // --- Text that is not a string ---------------------------------------------------------------------

  /** Outside of strings the automaton goes on with ASCII characters other than quotes. */
  predicate Outside(q: int) {
    q == 1 || q == 2 || 4 <= q <= 8 || 12 <= q <= 15
  }

  predicate PlainAscii(s: seq<byte>) {
    forall i :: 0 <= i < |s| ==> s[i] < 128 && s[i] != 34
  }

  lemma {:induction false} OutsideReach(q: nat, s: seq<byte>)
    requires Outside(q)
    ensures PlainAscii(s[..ReachFrom(q, s)])
    decreases |s|
  {
    if s != [] && Step(q, s[0]) != -1 {
      OutsideReach(Step(q, s[0]), s[1..]);
      var n := ReachFrom(Step(q, s[0]), s[1..]);
      assert s[..n + 1] == [s[0]] + s[1..][..n];
    }
  }

  /** So nothing but a string takes the automaton over a quote or a byte from 128 on. */
  lemma PlainReach(s: seq<byte>)
    requires s != [] && s[0] != 34 && Reach(s) > 0
    ensures PlainAscii(s[1..Reach(s)])
    ensures s[0] >= 128 ==> Reach(s) == 1
  {
    OutsideReach(Step(0, s[0]), s[1..]);
    assert s[1..Reach(s)] == s[1..][..Reach(s) - 1];
    if s[0] >= 128 {
      assert Step(0, s[0]) == 2;
      assert ReachFrom(2, s[1..]) == 0;
    }
  }

  // --- Which calls lose bytes ------------------------------------------------------------------------

  /** The text behind the bytes every call passes over: control characters up to the line feed, and spaces. */
  function Start(s: seq<byte>): seq<byte> {
    if s != [] && (s[0] <= 10 || s[0] == 32) then Start(s[1..]) else s
  }

  /** An opening quote that is not closed before the automaton stops, with a byte from 128 on behind it. */
  predicate Loses(s: seq<byte>) {
    s != [] && s[0] == 34 && !Closes(s[1..], false) && !IsAscii(s[1..][..Body(s[1..], false)])
  }

  lemma {:induction false} StartSkips(s: seq<byte>, m: nat)
    requires m <= |s| && forall i :: 0 <= i < m ==> s[i] <= 10 || s[i] == 32
    ensures Start(s) == Start(s[m..])
    decreases m
  {
    if m > 0 {
      StartSkips(s[1..], m - 1);
      assert s[1..][m - 1..] == s[m..];
    } else {
      assert s[0..] == s;
    }
  }

  lemma {:induction false} BlankRun(q: nat, w: seq<byte>)
    requires q < 16 && (q == 0 || q == 1) && Run(q, w) == 1
    ensures forall i :: 0 <= i < |w| ==> w[i] == 9 || w[i] == 32
    decreases |w|
  {
    if w != [] {
      if Step(q, w[0]) != 1 {
        OnlyBlanksReachOne(Step(q, w[0]), w[1..]);
        assert false;
      }
      BlankRun(1, w[1..]);
    }
  }

  lemma {:induction false} OnlyBlanksReachOne(q: int, w: seq<byte>)
    requires 2 <= q < 16
    ensures Run(q, w) != 1
    decreases |w|
  {
    if w != [] && Step(q, w[0]) != -1 {
      OnlyBlanksReachOne(Step(q, w[0]), w[1..]);
    }
  }

  /** The last cycle of a call begins where the text passed over ends. */
  lemma {:induction false} OverrunIs(s: seq<byte>)
    ensures var r, t := NextToken(s), Start(s);
            r.overrun == if t == [] then [] else t[MatchLength(t)..Reach(t)]
    decreases |s|
  {
    hide MatchLength, Reach;
    if s != [] {
      var m := MatchLength(s);
      if m == 0 {
        NoMatchByte(s);
        OverrunIs(s[1..]);
      } else if AutomatonRule(s[..m]) == 5 {
        BlanksDoNotOverrun(s);
        BlankRun(0, s[..m]);
        assert forall i :: 0 <= i < m ==> s[i] == s[..m][i];
        StartSkips(s, m);
        OverrunIs(s[m..]);
      } else {
        TokenByte(s);
      }
    }
  }

  lemma NoMatchByte(s: seq<byte>)
    requires s != [] && MatchLength(s) == 0
    ensures s[0] <= 10 && s[0] != 9
  {
    if Step(0, s[0]) != -1 {
      assert s[..1][1..] == [] && s[..1][0] == s[0];
      FirstStepIsFinal(s, 1);
      NoLongerMatch(s, |s|);
    }
  }

  lemma TokenByte(s: seq<byte>)
    requires MatchLength(s) > 0 && AutomatonRule(s[..MatchLength(s)]) != 5
    ensures Start(s) == s
  {
    var w := s[..MatchLength(s)];
    assert w[0] == s[0];
    if s[0] == 9 || s[0] == 32 {
      OneStays(w[1..]);
    }
  }

  lemma OneStays(w: seq<byte>)
    ensures Run(1, w) == 1 || Run(1, w) == -1
  {
    if w != [] && Step(1, w[0]) != -1 {
      OneStays(w[1..]);
    }
  }

  /**
   * A call conserves its input exactly if the text it looks at does not begin with an opening quote that is
   * never closed and has a byte from 128 on behind it.
   */
  lemma ConservationIff(s: seq<byte>)
    ensures var r := NextToken(s); s == r.skipped + r.lexeme + r.rest <==> !Loses(Start(s))
  {
    hide NextToken, MatchLength, Reach;
    ConservedIffAscii(s);
    OverrunIs(s);
    var t := Start(s);
    if t != [] {
      var m, n := MatchLength(t), Reach(t);
      if t[0] == 34 {
        QuoteMatch(t);
        assert m == 1 ==> t[1..n] == t[1..][..n - 1];
      } else if n > 0 {
        PlainReach(t);
        if m == 0 {
          NoMatchByte(t);
          StartIsNoControl(s);
        }
        assert forall i :: 0 <= i < |t[m..n]| ==> t[m..n][i] == t[1..n][m - 1 + i];
      }
    }
  }

  lemma {:induction false} StartIsNoControl(s: seq<byte>)
    ensures Start(s) != [] ==> Start(s)[0] > 10 && Start(s)[0] != 32
  {
    if s != [] {
      StartIsNoControl(s[1..]);
    }
  }

  /** An unclosed quote and the byte 128: the quote is the lexeme, and the byte is neither matched nor unread. */
  lemma QuoteLosesByte()
    ensures NextToken([34, 128]) == Lexed(34, [34], [], [], [], [128]) && Loses(Start([34, 128]))
  {
    var s: seq<byte> := [34, 128];
    assert s[1..] == [128] && s[1..][1..] == [];
    assert Body(s[1..], false) == 1 && !Closes(s[1..], false);
    QuoteMatch(s);
    assert s[..1] == [34] && s[1..2] == [128] && s[2..] == [];
    assert [128 as byte][1..] == [];
    assert s[1..][..1][0] == 128;
  }

  // --- What is echoed ------------------------------------------------------------------------------------

  /** The bytes no rule of the scanner starts with. */
  function Unmatched(s: seq<byte>): seq<byte> {
    if s == [] then []
    else (if s[0] < 9 || s[0] == 10 then [s[0]] else []) + Unmatched(s[1..])
  }

  lemma {:induction false} UnmatchedBlanks(s: seq<byte>, rest: seq<byte>)
    requires forall i :: 0 <= i < |s| ==> s[i] == 9 || s[i] == 32
    ensures Unmatched(s + rest) == Unmatched(rest)
  {
    if s == [] {
      assert s + rest == rest;
    } else {
      assert (s + rest)[1..] == s[1..] + rest;
      UnmatchedBlanks(s[1..], rest);
    }
  }

  /** Of the bytes a call passes over, exactly those that no rule matches are written to the output. */
  lemma {:induction false} EchoedIsUnmatched(s: seq<byte>)
    ensures NextToken(s).echoed == Unmatched(NextToken(s).skipped)
    ensures var skipped := NextToken(s).skipped;
            forall i :: 0 <= i < |skipped| ==> skipped[i] <= 10 || skipped[i] == 32
    decreases |s|
  {
    hide MatchLength, AutomatonRule, PushBack;
    if s != [] {
      var m := MatchLength(s);
      if m == 0 {
        NoMatchByte(s);
        EchoedIsUnmatched(s[1..]);
        assert s[..1] == [s[0]] && (s[..1] + NextToken(s[1..]).skipped)[1..] == NextToken(s[1..]).skipped;
      } else if AutomatonRule(s[..m]) == 5 {
        EchoedIsUnmatched(PushBack(s, m));
        BlanksAre(s, m);
        UnmatchedBlanks(s[..m], NextToken(PushBack(s, m)).skipped);
      }
    }
  }

  lemma BlanksAre(s: seq<byte>, m: nat)
    requires 0 < m <= |s| && AutomatonRule(s[..m]) == 5
    ensures forall i :: 0 <= i < m ==> s[..m][i] == 9 || s[..m][i] == 32
  {
    BlankRun(0, s[..m]);
  }

  // --- Which inputs are read to their end --------------------------------------------------------------

  /** Whether the tokens go on until nothing is left; a token number below 0 ends them, too. */
  predicate ReadToEnd(s: seq<byte>)
    decreases |s|
  {
    var r := NextToken(s);
    r.code == 0 || (r.code > 0 && ReadToEnd(r.rest))
  }

  /**
   * No byte from 128 on stands outside a string. Behind an opening quote that is not closed, such bytes are
   * lost up to where the automaton stops, and the text without them is read again.
   */
  predicate Clean(s: seq<byte>)
    decreases |s|
  {
    if s == [] then true
    else if s[0] == 34 then
      var b := Body(s[1..], false);
      if Closes(s[1..], false) then ClosesWithQuote(s[1..], false); Clean(s[b + 2..])
      else Clean(Kept(s[1..b + 1]) + s[b + 1..])
    else s[0] < 128 && Clean(s[1..])
  }

  lemma {:induction false} CleanSkips(s: seq<byte>, m: nat)
    requires m <= |s| && PlainAscii(s[..m])
    ensures Clean(s) == Clean(s[m..])
    decreases m
  {
    if m > 0 {
      assert s[..m][0] == s[0];
      assert s[..m][1..] == s[1..][..m - 1];
      CleanSkips(s[1..], m - 1);
      assert s[1..][m - 1..] == s[m..];
    } else {
      assert s[0..] == s;
    }
  }

  lemma ReadToEndFrom(s: seq<byte>, t: seq<byte>, echo: seq<byte>)
    requires NextToken(s).From(NextToken(t), echo)
    ensures ReadToEnd(s) == ReadToEnd(t)
  {
  }

  lemma ReadToEndStep(s: seq<byte>)
    requires NextToken(s).code > 0
    ensures ReadToEnd(s) == ReadToEnd(NextToken(s).rest)
  {
  }

  lemma CleanQuote(s: seq<byte>)
    requires s != [] && s[0] == 34
    ensures MatchLength(s) > 0 && Clean(s) == Clean(PushBack(s, MatchLength(s)))
  {
    hide Clean, Reach, MatchLength, Kept;
    QuoteMatch(s);
    var b := Body(s[1..], false);
    CleanQuoteUnfold(s);
    if Closes(s[1..], false) {
      KeptIffAscii([]);
      assert s[b + 2..b + 2] == [];
      assert PushBack(s, b + 2) == s[b + 2..];
    }
  }

  lemma CleanQuoteUnfold(s: seq<byte>)
    requires s != [] && s[0] == 34
    ensures var b := Body(s[1..], false);
            if Closes(s[1..], false) then b + 2 <= |s| && Clean(s) == Clean(s[b + 2..])
            else Clean(s) == Clean(Kept(s[1..b + 1]) + s[b + 1..])
  {
    ClosesWithQuote(s[1..], false);
    hide Kept;
  }

  lemma CleanPlain(s: seq<byte>)
    requires s != [] && s[0] != 34 && s[0] < 128 && MatchLength(s) > 0
    ensures PushBack(s, MatchLength(s)) == s[MatchLength(s)..] && Clean(s) == Clean(s[MatchLength(s)..])
  {
    hide Clean, MatchLength, Reach, Kept;
    var m, n := MatchLength(s), Reach(s);
    PlainReach(s);
    assert forall i :: 0 < i < n ==> s[i] == s[1..n][i - 1];
    KeptIffAscii(s[m..n]);
    CleanSkips(s, m);
  }

  lemma HighByte(s: seq<byte>)
    requires s != [] && s[0] >= 128
    ensures NextToken(s).code < 0
  {
    HighByteRuns(s);
    hide Reach, MatchLength, NextToken, Run;
    RunWithinReach(0, s, 1);
    PlainReach(s);
    AcceptedAt(s, 1);
    TokenUnfold(s);
  }

  lemma HighByteRuns(s: seq<byte>)
    requires s != [] && s[0] >= 128
    ensures Run(0, s[..1]) == 2 && AutomatonRule(s[..1]) == 6
    ensures CodeOf(6, s[..1]) < 0
  {
    assert s[..1][1..] == [] && s[..1][0] == s[0];
    assert Step(0, s[0]) == 2;
  }

  lemma MatchCode(s: seq<byte>)
    requires MatchLength(s) > 0 && s[0] < 128
    ensures var rule := AutomatonRule(s[..MatchLength(s)]); rule != 5 ==> CodeOf(rule, s[..MatchLength(s)]) > 0
  {
    NoNulLexeme(s, MatchLength(s));
  }

  /** The tokens account for the whole input exactly if no byte from 128 on stands outside a string. */
  lemma {:induction false} ReadToEndIffClean(s: seq<byte>)
    ensures ReadToEnd(s) <==> Clean(s)
    decreases |s|
  {
    hide ReadToEnd, Clean, NextToken, MatchLength, PushBack, AutomatonRule;
    TokenUnfold(s);
    if s == [] {
      NothingIsClean();
    } else if s[0] >= 128 {
      HighByte(s);
      HighIsNotClean(s);
    } else {
      var m := MatchLength(s);
      if m == 0 {
        NoMatchByte(s);
        ReadToEndFrom(s, s[1..], s[..1]);
        ReadToEndIffClean(s[1..]);
        assert s[..1] == [s[0]];
        CleanSkips(s, 1);
      } else {
        if s[0] == 34 {
          CleanQuote(s);
        } else {
          CleanPlain(s);
        }
        ReadToEndIffClean(PushBack(s, m));
        MatchCode(s);
        if AutomatonRule(s[..m]) == 5 {
          ReadToEndFrom(s, PushBack(s, m), []);
        } else {
          ReadToEndStep(s);
        }
      }
    }
  }

  lemma NothingIsClean()
    ensures Clean([]) && ReadToEnd([])
  {
  }

  lemma HighIsNotClean(s: seq<byte>)
    requires s != [] && s[0] >= 128
    ensures !Clean(s)
    ensures NextToken(s).code < 0 ==> !ReadToEnd(s)
  {
  }
}
