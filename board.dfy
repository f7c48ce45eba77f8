/**
 * Boards as the library takes them: an 81-character string of digits and
 * blanks ('.') in square order. Validation, the two grid conversions and the
 * square-to-value map.
 */
module Board {
  import opened Base
  import opened Topology
  import opened Solutions
  import opened Utility

  const BLANK_CHAR: char := '.'
  const EMPTY_BOARD_MSG: string := "Empty board"
  const SIZE_MSG: string := "Invalid board size. Board must be exactly 81 squares."
  const LENGTH_MISMATCH_MSG: string := "Board/squares length mismatch."
  /** The message JavaScript raises when a row of the grid is missing. */
  const MISSING_ROW_MSG: string := "TypeError: Cannot read properties of undefined"

  function BadCharMsg(i: nat, c: char): string
  {
    "Invalid board character encountered at index " + NatToString(i) + ": " + [c]
  }

  /** `validate_board` returns `true` or the reason as a string. */
  datatype Report = Valid | Invalid(reason: string)

  predicate IsBoardChar(c: char)
  {
    c in DIGITS || c == BLANK_CHAR
  }

  /** A board the library accepts: exactly 81 digits and blanks. */
  predicate ValidBoard(b: string)
  {
    |b| == NR_SQUARES && forall i :: 0 <= i < |b| ==> IsBoardChar(b[i])
  }

  /** Square `q` of board `b` is a given: it holds a digit. */
  predicate IsGiven(b: string, q: nat)
  {
    q < |b| && b[q] != BLANK_CHAR && b[q] in DIGITS
  }

  /** The first position at or after `i` that holds neither a digit nor a blank; |b| if there is none. */
  function FirstBad(b: string, i: nat): nat
    requires i <= |b|
    decreases |b| - i
  {
    if i == |b| then |b| else if !IsBoardChar(b[i]) then i else FirstBad(b, i + 1)
  }

  /** What `validate_board` reports: emptiness first, then the length, then the first bad character. */
  function Validation(b: string): Report
  {
    if |b| == 0 then Invalid(EMPTY_BOARD_MSG)
    else if |b| != NR_SQUARES then Invalid(SIZE_MSG)
    else
      var k := FirstBadIndex(b);
      if k < |b| then Invalid(BadCharMsg(k, b[k])) else Valid
  }

  function FirstBadIndex(b: string): (k: nat)
    ensures k <= |b|
  {
    FirstBadBound(b, 0);
    FirstBad(b, 0)
  }

  lemma {:induction false} FirstBadBound(b: string, i: nat)
    requires i <= |b|
    ensures i <= FirstBad(b, i) <= |b|
    decreases |b| - i
  {
    if i < |b| && IsBoardChar(b[i]) {
      FirstBadBound(b, i + 1);
    }
  }

  /** `FirstBad(b, i)` is the least bad position from `i` on. */
  lemma {:induction false} FirstBadLeast(b: string, i: nat)
    requires i <= |b|
    ensures FirstBad(b, i) <= |b| && forall j :: i <= j < FirstBad(b, i) ==> IsBoardChar(b[j])
    ensures FirstBad(b, i) < |b| ==> !IsBoardChar(b[FirstBad(b, i)])
    decreases |b| - i
  {
    FirstBadBound(b, i);
    if i < |b| && IsBoardChar(b[i]) {
      FirstBadLeast(b, i + 1);
    }
  }

  /** `validate_board(board)`. */
  method ValidateBoard(board: string) returns (r: Report)
    ensures r == Validation(board)
  {
    if |board| == 0 {
      return Invalid(EMPTY_BOARD_MSG);
    }
    if |board| != NR_SQUARES {
      return Invalid(SIZE_MSG);
    }
    for i := 0 to |board|
      invariant FirstBad(board, i) == FirstBad(board, 0)
    {
      if !In(board[i], DIGITS) && board[i] != BLANK_CHAR {
        return Invalid(BadCharMsg(i, board[i]));
      }
    }
    return Valid;
  }

  /**
   * The report is `true` exactly for valid boards, and otherwise names the
   * first problem in the order emptiness, size, first bad character.
   */
  lemma ValidationMeaning(b: string)
    ensures Validation(b) == Valid <==> ValidBoard(b)
    ensures |b| == 0 ==> Validation(b) == Invalid(EMPTY_BOARD_MSG)
    ensures 0 < |b| != NR_SQUARES ==> Validation(b) == Invalid(SIZE_MSG)
    ensures |b| == NR_SQUARES && !ValidBoard(b) ==>
      exists k :: 0 <= k < |b| && !IsBoardChar(b[k]) && (forall j :: 0 <= j < k ==> IsBoardChar(b[j])) &&
        Validation(b) == Invalid(BadCharMsg(k, b[k]))
  {
    FirstBadLeast(b, 0);
    if |b| == NR_SQUARES && !ValidBoard(b) {
      var j :| 0 <= j < |b| && !IsBoardChar(b[j]);
      assert FirstBad(b, 0) <= j;
    }
  }

  // ---------------------------------------------------------------------------
  // Grid conversions
  // ---------------------------------------------------------------------------

  /** An entry of a grid: the blank character, a number, or `NaN` from `parseInt`. */
  datatype Entry = Blank | Num(n: nat) | NaN

  /** `c === '.' ? c : parseInt(c)` on a one-character string. */
  function ParseEntry(c: char): Entry
  {
    if c == BLANK_CHAR then Blank
    else if IsDigitChar(c) then Num(DigitValue(c))
    else NaN
  }

  /** How `+=` renders an entry into a string. */
  function EntryText(e: Entry): string
  {
    match e
    case Blank => [BLANK_CHAR]
    case Num(n) => NatToString(n)
    case NaN => "NaN"
  }

  /** The row of the grid built from row `r` of a board string. */
  function GridRow(b: string, r: nat): (row: seq<Entry>)
    requires 9 * r + 9 <= |b|
    ensures |row| == 9
  {
    seq(9, c requires 0 <= c < 9 => ParseEntry(b[9 * r + c]))
  }

  /** The grid of a board string: one row per complete run of nine characters. */
  function ToGrid(b: string): (g: seq<seq<Entry>>)
    ensures |g| == |b| / 9
  {
    seq(|b| / 9, r requires 0 <= r < |b| / 9 => DivBound(|b|, r); GridRow(b, r))
  }

  lemma DivBound(n: nat, r: nat)
    requires r < n / 9
    ensures 9 * r + 9 <= n
  {
  }

  /** `board_string_to_grid(boardString)`. */
  method BoardStringToGrid(boardString: string) returns (rows: seq<seq<Entry>>)
    ensures rows == ToGrid(boardString)
  {
    rows := [];
    var curRow: seq<Entry> := [];
    for i := 0 to |boardString|
      invariant i == 9 * |rows| + |curRow| && |curRow| < 9
      invariant forall r :: 0 <= r < |rows| ==> 9 * r + 9 <= |boardString| && rows[r] == GridRow(boardString, r)
      invariant forall c :: 0 <= c < |curRow| ==> curRow[c] == ParseEntry(boardString[9 * |rows| + c])
    {
      curRow := curRow + [if boardString[i] == BLANK_CHAR then Blank else ParseEntry(boardString[i])];
      Div9(|rows|, |curRow| - 1);
      if i % 9 == 8 {
        assert curRow == GridRow(boardString, |rows|);
        rows := rows + [curRow];
        curRow := [];
      }
    }
    Div9(|rows|, |curRow|);
  }

  /** What `boardGrid[r][c]` renders as; a missing entry of a present row is `undefined`. */
  function CellText(grid: seq<seq<Entry>>, r: nat, c: nat): string
    requires r < |grid|
  {
    if c < |grid[r]| then EntryText(grid[r][c]) else "undefined"
  }

  /** The texts of the first 9 entries of each of the first 9 rows, row by row. */
  function Cells(grid: seq<seq<Entry>>): (cs: seq<string>)
    requires |grid| >= 9
    ensures |cs| == NR_SQUARES
  {
    seq(NR_SQUARES, q requires 0 <= q < NR_SQUARES => CellText(grid, q / 9, q % 9))
  }

  /** `board_grid_to_string(boardGrid)`: a missing row throws. */
  method BoardGridToString(boardGrid: seq<seq<Entry>>) returns (s: Result<string>)
    ensures |boardGrid| < 9 ==> s == Error(MISSING_ROW_MSG)
    ensures |boardGrid| >= 9 ==> s == Ok(Join(Cells(boardGrid)))
  {
    var boardString := "";
    for r := 0 to 9
      invariant r <= |boardGrid|
      invariant |boardGrid| >= 9 ==> boardString == Join(Cells(boardGrid)[..9 * r])
    {
      if r >= |boardGrid| {
        return Error(MISSING_ROW_MSG);
      }
      for c := 0 to 9
        invariant |boardGrid| >= 9 ==> boardString == Join(Cells(boardGrid)[..9 * r + c])
      {
        boardString := boardString + CellText(boardGrid, r, c);
        if |boardGrid| >= 9 {
          CellsAt(boardGrid, r, c);
          JoinStep(Cells(boardGrid), 9 * r + c);
        }
      }
    }
    assert Cells(boardGrid)[..81] == Cells(boardGrid);
    return Ok(boardString);
  }

  /** Position `9 * r + c` of the rendering is entry `c` of row `r`. */
  lemma CellsAt(grid: seq<seq<Entry>>, r: nat, c: nat)
    requires |grid| >= 9 && r < 9 && c < 9
    ensures 9 * r + c < NR_SQUARES && Cells(grid)[9 * r + c] == CellText(grid, r, c)
  {
    Div9(r, c);
  }

  /** For a valid board the grid has 9 rows of 9 entries, and rendering it gives the board back. */
  lemma GridRoundTrip(b: string)
    requires ValidBoard(b)
    ensures |ToGrid(b)| == 9 && forall r :: 0 <= r < 9 ==> |ToGrid(b)[r]| == 9
    ensures Join(Cells(ToGrid(b))) == b
  {
    var g := ToGrid(b);
    forall q | 0 <= q < NR_SQUARES ensures Cells(g)[q] == [b[q]] {
      CellOfBoard(b, q);
    }
    JoinSingles(Cells(g), b);
  }

  lemma CellOfBoard(b: string, q: nat)
    requires ValidBoard(b) && q < NR_SQUARES
    ensures |ToGrid(b)| == 9 && Cells(ToGrid(b))[q] == [b[q]]
  {
    Decompose(q);
    GridEntry(b, q / 9, q % 9);
    assert Cells(ToGrid(b))[q] == EntryText(ToGrid(b)[q / 9][q % 9]);
    BoardCharText(b[q]);
  }

  /** Entry `c` of row `r` of the grid of a full-size board parses square `9 * r + c`. */
  lemma GridEntry(b: string, r: nat, c: nat)
    requires |b| == NR_SQUARES && r < 9 && c < 9
    ensures |ToGrid(b)| == 9 && |ToGrid(b)[r]| == 9 && ToGrid(b)[r][c] == ParseEntry(b[9 * r + c])
  {
    assert ToGrid(b)[r] == GridRow(b, r);
  }

  /** A digit or blank survives `parseInt` and rendering unchanged. */
  lemma BoardCharText(c: char)
    requires IsBoardChar(c)
    ensures EntryText(ParseEntry(c)) == [c]
  {
    if c != BLANK_CHAR {
      CandInDigitsConverse(c);
      DigitCharValue(c);
    }
  }

  lemma CandInDigitsConverse(c: char)
    requires c in DIGITS
    ensures IsCand(c) && IsDigitChar(c)
  {
  }

  lemma DigitCharValue(c: char)
    requires IsDigitChar(c)
    ensures DigitChar(DigitValue(c)) == c
  {
  }

  /** A grid of nine rows of nine blanks and digits 1..9. */
  predicate BoardLike(grid: seq<seq<Entry>>)
  {
    |grid| == 9 &&
    forall r :: 0 <= r < 9 ==>
      |grid[r]| == 9 && forall c :: 0 <= c < 9 ==> (grid[r][c].Blank? || (grid[r][c].Num? && 1 <= grid[r][c].n <= 9))
  }

  /** Such a grid renders as a valid board, and converting that board gives the grid back. */
  lemma StringRoundTrip(grid: seq<seq<Entry>>)
    requires BoardLike(grid)
    ensures ValidBoard(Join(Cells(grid))) && ToGrid(Join(Cells(grid))) == grid
  {
    var t := Spelled(grid);
    forall q | 0 <= q < NR_SQUARES ensures Cells(grid)[q] == [t[q]] && IsBoardChar(t[q]) {
      SpelledAt(grid, q);
    }
    JoinSingles(Cells(grid), t);
    forall r | 0 <= r < 9 ensures ToGrid(t)[r] == grid[r] {
      forall c | 0 <= c < 9 ensures ToGrid(t)[r][c] == grid[r][c] {
        SpelledEntry(grid, r, c);
      }
    }
  }

  /** The characters a board-like grid renders as, square by square. */
  function Spelled(grid: seq<seq<Entry>>): (t: string)
    requires BoardLike(grid)
    ensures |t| == NR_SQUARES
  {
    seq(NR_SQUARES, q requires 0 <= q < NR_SQUARES => CellChar(grid, q / 9, q % 9))
  }

  lemma SpelledAt(grid: seq<seq<Entry>>, q: nat)
    requires BoardLike(grid) && q < NR_SQUARES
    ensures Cells(grid)[q] == [Spelled(grid)[q]] && IsBoardChar(Spelled(grid)[q])
    ensures ParseEntry(Spelled(grid)[q]) == grid[q / 9][q % 9]
  {
    Decompose(q);
    CellCharFacts(grid, q / 9, q % 9);
  }

  lemma SpelledEntry(grid: seq<seq<Entry>>, r: nat, c: nat)
    requires BoardLike(grid) && r < 9 && c < 9
    ensures ToGrid(Spelled(grid))[r][c] == grid[r][c]
  {
    Div9(r, c);
    GridEntry(Spelled(grid), r, c);
    SpelledAt(grid, 9 * r + c);
  }

  function CellChar(grid: seq<seq<Entry>>, r: nat, c: nat): char
    requires BoardLike(grid) && r < 9 && c < 9
  {
    if grid[r][c].Blank? then BLANK_CHAR else DigitChar(grid[r][c].n)
  }

  lemma CellCharFacts(grid: seq<seq<Entry>>, r: nat, c: nat)
    requires BoardLike(grid) && r < 9 && c < 9
    ensures EntryText(grid[r][c]) == [CellChar(grid, r, c)]
    ensures IsBoardChar(CellChar(grid, r, c)) && ParseEntry(CellChar(grid, r, c)) == grid[r][c]
  {
    if grid[r][c].Num? {
      DigitRoundTrip(grid[r][c].n);
    }
  }

  // ---------------------------------------------------------------------------
  // Square values
  // ---------------------------------------------------------------------------

  /** `_get_square_vals_map(board)`: each square's character, or an error for a board of the wrong length. */
  method GetSquareValsMap(board: string) returns (r: Result<map<nat, char>>)
    ensures r.Error? <==> |board| != NR_SQUARES
    ensures r.Error? ==> r.message == LENGTH_MISMATCH_MSG
    ensures r.Ok? ==> (forall q: nat :: q in r.value <==> q < NR_SQUARES) && forall q :: 0 <= q < NR_SQUARES ==> r.value[q] == board[q]
  {
    if |board| != NR_SQUARES {
      return Error(LENGTH_MISMATCH_MSG);
    }
    var squaresValsMap: map<nat, char> := map[];
    for i := 0 to NR_SQUARES
      invariant forall q: nat :: q in squaresValsMap <==> q < i
      invariant forall q :: 0 <= q < i ==> squaresValsMap[q] == board[q]
    {
      squaresValsMap := squaresValsMap[i := board[i]];
    }
    return Ok(squaresValsMap);
  }
}
