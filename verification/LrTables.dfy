/** The shift/reduce tables of the generated parser. */
module LrTables {
  import opened Bytes
  import opened Grammar
  import opened ScannerSpec

  const UNDETERMINED := -2
  const END_OF_FILE := -1
  const STATES := 20

  const NORMAL := 0
  const ERR_ITEM := 1
  const REQ_TOKEN := 2
  const DEF_RED := 4
  const REQ_DEF := 6

  /** A table entry: in the first one of a state its type and last index, in the others a token and an action. */
  datatype SR = SR(field1: int, field2: int)

  /** The last entry of a state serves as sentinel for the search; a negative action there is the default. */
  function Table(s: nat): (t: seq<SR>)
    requires s < STATES
    ensures |t| > 1 && t[0].field2 == |t| - 1
  {
    match s
    case 0 => [SR(REQ_TOKEN, 12), SR(EXPRESSION, 1), SR(SCALAR, 2), SR(SEQUENCE, 3), SR(TUPLE, 4),
              SR(BOOLEAN, 5), SR(INTEGER, 6), SR(REAL, 7), SR(STRING, 8), SR(BINARY, 9), SR(LBRACKET, 10),
              SR(LBRACE, 11), SR(0, 0)]
    case 1 => [SR(REQ_TOKEN, 2), SR(END_OF_FILE, 0), SR(0, 0)]
    case 2 => [SR(DEF_RED, 1), SR(0, -1)]
    case 3 => [SR(DEF_RED, 1), SR(0, -2)]
    case 4 => [SR(DEF_RED, 1), SR(0, -3)]
    case 5 => [SR(DEF_RED, 1), SR(0, -4)]
    case 6 => [SR(DEF_RED, 1), SR(0, -5)]
    case 7 => [SR(DEF_RED, 1), SR(0, -6)]
    case 8 => [SR(DEF_RED, 1), SR(0, -7)]
    case 9 => [SR(DEF_RED, 1), SR(0, -8)]
    case 10 => [SR(REQ_DEF, 9), SR(OPT_SERIES, 12), SR(SERIES, 13), SR(SCALAR, 14), SR(BOOLEAN, 5),
              SR(INTEGER, 6), SR(REAL, 7), SR(STRING, 8), SR(BINARY, 9), SR(0, -9)]
    case 11 => [SR(REQ_DEF, 9), SR(OPT_SERIES, 15), SR(SERIES, 13), SR(SCALAR, 14), SR(BOOLEAN, 5),
              SR(INTEGER, 6), SR(REAL, 7), SR(STRING, 8), SR(BINARY, 9), SR(0, -9)]
    case 12 => [SR(REQ_TOKEN, 2), SR(RBRACKET, 16), SR(0, 0)]
    case 13 => [SR(REQ_DEF, 2), SR(COMMA, 17), SR(0, -10)]
    case 14 => [SR(DEF_RED, 1), SR(0, -11)]
    case 15 => [SR(REQ_TOKEN, 2), SR(RBRACE, 18), SR(0, 0)]
    case 16 => [SR(DEF_RED, 1), SR(0, -13)]
    case 17 => [SR(REQ_TOKEN, 7), SR(SCALAR, 19), SR(BOOLEAN, 5), SR(INTEGER, 6), SR(REAL, 7), SR(STRING, 8),
              SR(BINARY, 9), SR(0, 0)]
    case 18 => [SR(DEF_RED, 1), SR(0, -14)]
    case _ => [SR(DEF_RED, 1), SR(0, -12)]
  }

  predicate NeedsToken(s: nat)
    requires s < STATES
  {
    s == 0 || s == 1 || 10 <= s <= 13 || s == 15 || s == 17
  }

  /** Where a state goes on a nonterminal, 0 if nowhere. */
  function Goto(s: nat, nonterminal: int): int
    requires s < STATES
  {
    if s == 0 then
      if nonterminal == EXPRESSION then 1 else if nonterminal == SCALAR then 2
      else if nonterminal == SEQUENCE then 3 else if nonterminal == TUPLE then 4 else 0
    else if s == 10 || s == 11 then
      if nonterminal == OPT_SERIES then (if s == 10 then 12 else 15)
      else if nonterminal == SERIES then 13 else if nonterminal == SCALAR then 14 else 0
    else if s == 17 && nonterminal == SCALAR then 19
    else 0
  }

  /** The state after shifting a terminal, 0 if it cannot be shifted. */
  function Shift(s: nat, terminal: int): int
    requires s < STATES
  {
    if BOOLEAN <= terminal <= BINARY then
      if s == 0 || s == 10 || s == 11 || s == 17 then terminal - BOOLEAN + 5 else 0
    else if s == 0 && terminal == LBRACKET then 10
    else if s == 0 && terminal == LBRACE then 11
    else if s == 12 && terminal == RBRACKET then 16
    else if s == 15 && terminal == RBRACE then 18
    else if s == 13 && terminal == COMMA then 17
    else 0
  }

  /** The default reduction of a state, 0 if it has none. */
  function Default(s: nat): int
    requires s < STATES
  {
    [0, 0, 1, 2, 3, 4, 5, 6, 7, 8, 9, 9, 0, 10, 11, 0, 13, 0, 14, 12][s]
  }

  /** What a state does on a token: shift (positive), reduce (negative), accept (0), or an error. */
  function Action(s: nat, token: int): Option<int>
    requires s < STATES
  {
    if token >= EXPRESSION && Goto(s, token) > 0 then Some(Goto(s, token))
    else if token < EXPRESSION && Shift(s, token) > 0 then Some(Shift(s, token))
    else if s == 1 && token == END_OF_FILE then Some(0)
    else if Default(s) > 0 then Some(-Default(s))
    else None
  }

  /** The first entry of the table holding `token`, with `token` put into the sentinel, gives the action. */
  lemma SearchIsAction(s: nat, token: int, i: nat)
    requires s < STATES && 1 <= i < |Table(s)|
    requires i < |Table(s)| - 1 ==> Table(s)[i].field1 == token
    requires forall j :: 1 <= j < i ==> Table(s)[j].field1 != token
    ensures Action(s, token)
         == if i == |Table(s)| - 1 && Table(s)[i].field2 >= 0 then None else Some(Table(s)[i].field2)
  {
    var t := Table(s);
    assert i > 1 ==> t[1].field1 != token;
    assert i > 2 ==> t[2].field1 != token;
    assert i > 3 ==> t[3].field1 != token;
    assert i > 4 ==> t[4].field1 != token;
    assert i > 5 ==> t[5].field1 != token;
    assert i > 6 ==> t[6].field1 != token;
    assert i > 7 ==> t[7].field1 != token;
    assert i > 8 ==> t[8].field1 != token;
    assert i > 9 ==> t[9].field1 != token;
    assert i > 10 ==> t[10].field1 != token;
    assert i > 11 ==> t[11].field1 != token;
  }

  lemma TypeMeaning(s: nat)
    requires s < STATES
    ensures Table(s)[0].field1 in {NORMAL, REQ_TOKEN, DEF_RED, REQ_DEF}
    ensures Table(s)[0].field1 == REQ_TOKEN || Table(s)[0].field1 == REQ_DEF <==> NeedsToken(s)
  {
  }
}
