/** The constant tables of the generated scanner. */
module ScannerTables {
  import opened Bytes

  const EOF_RANGE := 33

  /** The range table, written as its runs of equal entries. */
  function RangeOf(c: byte): (r: nat)
    ensures r < EOF_RANGE
  {
    if c < 9 then 0 else if c < 10 then 1 else if c < 11 then 2 else if c < 32 then 3
    else if c < 33 then 4 else if c < 34 then 5 else if c < 35 then 6 else if c < 36 then 7
    else if c < 38 then 8 else if c < 39 then 9 else if c < 43 then 10 else if c < 44 then 11
    else if c < 45 then 12 else if c < 46 then 13 else if c < 47 then 14 else if c < 48 then 15
    else if c < 58 then 16 else if c < 61 then 17 else if c < 62 then 18 else if c < 65 then 19
    else if c < 69 then 20 else if c < 70 then 21 else if c < 91 then 22 else if c < 92 then 23
    else if c < 93 then 24 else if c < 97 then 25 else if c < 101 then 26 else if c < 102 then 27
    else if c < 103 then 28 else if c < 116 then 29 else if c < 117 then 30 else if c < 123 then 31
    else 32
  }

  /**
   * The transition table by row `q` and column `r`, equal entries of a row grouped. Columns 0 to 32
   * are character ranges, column 33 is end of file.
   */
  function Entry(q: nat, r: nat): int
    requires q < 16
  {
    match q
    case 0 =>
      if r == 0 || r == 2 || r == 33 then -1 else if r == 1 || r == 4 then 1
      else if r == 6 then 3 else if r == 7 then 4 else if r == 9 then 5 else if r == 13 then 6
      else if r == 14 then 7 else if r == 16 then 8 else 2
    case 1 => if r == 1 || r == 4 then 1 else -1
    case 2 => -1
    case 3 => if r == 0 || r == 33 then -1 else if r == 6 then 10 else if r == 24 then 11 else 9
    case 4 => if r == 28 || r == 30 then 12 else -1
    case 5 => if r == 11 || r == 15 || r == 16 || r == 18 || 20 <= r <= 22 || 26 <= r <= 31 then 5 else -1
    case 6 => if r == 14 then 7 else if r == 16 then 8 else -1
    case 7 => if r == 16 then 7 else if r == 21 || r == 27 then 13 else -1
    case 8 => if r == 14 then 7 else if r == 16 then 8 else -1
    case 9 => if r == 0 || r == 33 then -1 else if r == 6 then 10 else if r == 24 then 11 else 9
    case 10 => -1
    case 11 => if r == 0 || r == 2 || r == 33 then -1 else 9
    case 12 => -1
    case 13 => if r == 13 then 14 else if r == 16 then 15 else -1
    case 14 => if r == 16 then 15 else -1
    case _ => if r == 16 then 15 else -1
  }

  /** Column 34, the rule a row accepts (-1 for none); column 35, the begin-of-line rule, is -1 in every row. */
  function Final(q: nat): int
    requires q < 16
  {
    [-1, 5, 6, 6, 6, 4, 6, 2, 1, -1, 3, -1, 0, -1, -1, 2][q]
  }

  /** The transition table read byte by byte. */
  function Step(q: nat, c: byte): int
    requires q < 16
  {
    match q
    case 0 =>
      if c < 9 || c == 10 then -1
      else if c == 9 || c == 32 then 1
      else if c == 34 then 3
      else if c == 35 then 4
      else if c == 38 then 5
      else if c == 45 then 6
      else if c == 46 then 7
      else if IsDigit(c) then 8
      else 2
    case 1 => if c == 9 || c == 32 then 1 else -1
    case 2 => -1
    case 3 => if c < 9 then -1 else if c == 34 then 10 else if c == 92 then 11 else 9
    case 4 => if c == 102 || c == 116 then 12 else -1
    case 5 =>
      if c == 43 || c == 47 || IsDigit(c) || c == 61 || 65 <= c <= 90 || 97 <= c <= 122 then 5 else -1
    case 6 => if c == 46 then 7 else if IsDigit(c) then 8 else -1
    case 7 => if c == 69 || c == 101 then 13 else if IsDigit(c) then 7 else -1
    case 8 => if c == 46 then 7 else if IsDigit(c) then 8 else -1
    case 9 => if c < 9 then -1 else if c == 34 then 10 else if c == 92 then 11 else 9
    case 10 => -1
    case 11 => if c < 9 || c == 10 then -1 else 9
    case 12 => -1
    case 13 => if c == 45 then 14 else if IsDigit(c) then 15 else -1
    case 14 => if IsDigit(c) then 15 else -1
    case _ => if IsDigit(c) then 15 else -1
  }

  /** The table, read through the range table, is the byte-level automaton; no row continues at end of file. */
  lemma TableMeaning(q: nat, c: byte)
    requires q < 16
    ensures Entry(q, RangeOf(c)) == Step(q, c) && Entry(q, EOF_RANGE) == -1
  {
  }
}
