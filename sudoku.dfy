/**
 * The library's entry points for solving: the propagated candidate map of a
 * board, the candidates as a grid, and `solve`.
 */
module Sudoku {
  import opened Base
  import opened Topology
  import opened Solutions
  import opened Candidates
  import opened Search
  import opened Board
  import opened Utility

  const MIN_GIVENS: nat := 17
  const FEW_GIVENS_MSG: string := "Too few givens. Minimum givens is 17"

  /** Solution `s` keeps every given of board `b`. */
  predicate Agrees(s: seq<char>, b: string)
  {
    |s| == NR_SQUARES && |b| == NR_SQUARES && forall q :: 0 <= q < NR_SQUARES && IsGiven(b, q) ==> s[q] == b[q]
  }

  /** The number of givens among the first `n` characters of `b`. */
  function GivensUpTo(b: string, n: nat): nat
    requires n <= |b|
  {
    if n == 0 then 0 else GivensUpTo(b, n - 1) + (if IsGiven(b, n - 1) then 1 else 0)
  }

  function Givens(b: string): nat
  {
    GivensUpTo(b, |b|)
  }

  /** The givens-counting loop of `solve`. */
  method CountGivens(board: string) returns (nrGivens: nat)
    ensures nrGivens == Givens(board)
  {
    nrGivens := 0;
    for i := 0 to |board|
      invariant nrGivens == GivensUpTo(board, i)
    {
      GivenTest(board, i);
      if board[i] != BLANK_CHAR && In(board[i], DIGITS) {
        nrGivens := nrGivens + 1;
      }
    }
  }

  /**
   * What a successful `_get_candidates_map(board)` hands back: a well-formed
   * map reached from the full map by propagation, consistent, with every given
   * square holding exactly its digit.
   */
  predicate CandidatesFor(board: string, m: seq<string>)
  {
    WellFormed(m) && Progress(FullMap(), m) && Consistent(m) &&
    forall q :: 0 <= q < NR_SQUARES && IsGiven(board, q) ==> m[q] == [board[q]]
  }

  /**
   * `_get_candidates_map(board)`: validates, starts every square at all nine
   * digits and assigns each given in square order; `None` on a contradiction.
   */
  method GetCandidatesMap(board: string) returns (r: Result<Option<seq<string>>>)
    ensures r.Error? <==> !ValidBoard(board)
    ensures r.Error? ==> Validation(board).Invalid? && r.message == Validation(board).reason
    ensures r.Ok? && r.value.Some? ==> CandidatesFor(board, r.value.value)
    ensures r.Ok? ==> forall s :: IsSolution(s) && Agrees(s, board) ==> r.value.Some? && Compatible(s, r.value.value)
    ensures ValidBoard(board) && (forall q :: 0 <= q < NR_SQUARES ==> !IsGiven(board, q)) ==> r == Ok(Some(FullMap()))
  {
    var report := ValidateBoard(board);
    ValidationMeaning(board);
    if report != Valid {
      return Error(report.reason);
    }
    var squaresValuesMap := GetSquareValsMap(board);
    var candidateMap := new string[NR_SQUARES];
    for si := 0 to NR_SQUARES
      invariant forall q :: 0 <= q < si ==> candidateMap[q] == DIGITS
    {
      candidateMap[si] := DIGITS;
    }
    assert candidateMap[..] == FullMap();
    FullMapFacts();
    ProgressRefl(FullMap());
    for q := 0 to NR_SQUARES
      invariant AssignedUpTo(board, candidateMap[..], q)
      invariant forall s :: IsSolution(s) && Agrees(s, board) ==> Compatible(s, candidateMap[..])
    {
      var val := squaresValuesMap.value[q];
      var ok := AssignGiven(candidateMap, board, q, val);
      if !ok {
        return Ok(None);
      }
    }
    ConsistentKept(FullMap(), candidateMap[..]);
    return Ok(Some(candidateMap[..]));
  }

  /**
   * The state of `_get_candidates_map` after the givens before square `q`:
   * propagated from the full map, those givens fixed, and nothing done yet
   * if there were none.
   */
  predicate AssignedUpTo(board: string, m: seq<string>, q: nat)
  {
    WellFormed(m) && Progress(FullMap(), m) &&
    (forall p :: 0 <= p < q && p < NR_SQUARES && IsGiven(board, p) ==> m[p] == [board[p]]) &&
    ((forall p :: 0 <= p < q ==> !IsGiven(board, p)) ==> m == FullMap())
  }

  /** One pass of the givens loop of `_get_candidates_map`: assign square `q` if it holds a digit. */
  method AssignGiven(candidateMap: array<string>, board: string, q: nat, val: char) returns (ok: bool)
    requires ValidBoard(board) && q < NR_SQUARES && val == board[q]
    requires candidateMap.Length == NR_SQUARES && AssignedUpTo(board, candidateMap[..], q)
    requires forall s :: IsSolution(s) && Agrees(s, board) ==> Compatible(s, candidateMap[..])
    modifies candidateMap
    ensures ok ==> AssignedUpTo(board, candidateMap[..], q + 1)
    ensures ok ==> forall s :: IsSolution(s) && Agrees(s, board) ==> Compatible(s, candidateMap[..])
    ensures !ok ==> forall s :: IsSolution(s) ==> !Agrees(s, board)
    ensures !ok ==> IsGiven(board, q)
  {
    ghost var before := candidateMap[..];
    GivenTest(board, q);
    if In(val, DIGITS) {
      GivenFixed(board, before, q);
      ok := Assign(candidateMap, q, val);
      ghost var after := candidateMap[..];
      if ok {
        GivenAssigned(board, before, after, q);
      }
    } else {
      ok := true;
      BlankSkipped(board, before, q);
    }
  }

  /** The test of the givens loop picks out exactly the givens. */
  lemma GivenTest(board: string, q: nat)
    requires q < |board|
    ensures In(board[q], DIGITS) <==> IsGiven(board, q)
  {
    assert BLANK_CHAR !in DIGITS;
  }

  /** Every solution that keeps the givens and fits the map has the given digit at a given square. */
  lemma GivenFixed(board: string, m: seq<string>, q: nat)
    requires q < NR_SQUARES && IsGiven(board, q)
    requires forall s :: IsSolution(s) && Agrees(s, board) ==> Compatible(s, m)
    ensures forall s :: IsSolution(s) && Agrees(s, board) ==> Compatible(s, m) && s[q] == board[q]
  {
  }

  /** Assigning a given keeps the earlier givens and fixes this one. */
  lemma GivenAssigned(board: string, before: seq<string>, m: seq<string>, q: nat)
    requires ValidBoard(board) && q < NR_SQUARES && IsGiven(board, q)
    requires AssignedUpTo(board, before, q) && WellFormed(m) && Progress(before, m)
    requires before[q] != [] ==> m[q] == [board[q]]
    ensures AssignedUpTo(board, m, q + 1)
  {
    FullMapFacts();
    ProgressTrans(FullMap(), before, m);
    forall p | 0 <= p < q && IsGiven(board, p) ensures m[p] == [board[p]] {
      SingleKept(before, m, p);
    }
  }

  /** A blank square is skipped without changing the map. */
  lemma BlankSkipped(board: string, m: seq<string>, q: nat)
    requires q < |board| && !IsGiven(board, q) && AssignedUpTo(board, m, q)
    ensures AssignedUpTo(board, m, q + 1)
  {
    if forall p :: 0 <= p < q + 1 ==> !IsGiven(board, p) {
      assert forall p :: 0 <= p < q ==> !IsGiven(board, p);
    }
  }

  /** `m` is a propagated candidate map for `board` that still allows every solution keeping its givens. */
  ghost predicate KeepsAgreeing(board: string, m: seq<string>)
  {
    CandidatesFor(board, m) && forall s :: IsSolution(s) && Agrees(s, board) ==> Compatible(s, m)
  }

  /** `get_candidates(board)`: the propagated candidates as nine rows of nine. */
  method GetCandidates(board: string) returns (r: Result<Option<seq<seq<string>>>>)
    ensures r.Error? <==> !ValidBoard(board)
    ensures r.Error? ==> Validation(board).Invalid? && r.message == Validation(board).reason
    ensures r.Ok? && r.value.Some? ==> exists m :: KeepsAgreeing(board, m) && r.value.value == Rows(m)
    ensures r == Ok(None) ==> forall s :: IsSolution(s) ==> !Agrees(s, board)
  {
    var report := ValidateBoard(board);
    ValidationMeaning(board);
    if report != Valid {
      return Error(report.reason);
    }
    var candidatesMap := GetCandidatesMap(board);
    if candidatesMap.value.None? {
      return Ok(None);
    }
    var m := candidatesMap.value.value;
    var rows := GroupRows(m);
    return Ok(Some(rows));
  }

  /** The row-building loop of `get_candidates`: a row ends at every square with `i % 9 == 8`. */
  method GroupRows<T>(m: seq<T>) returns (rows: seq<seq<T>>)
    requires |m| == NR_SQUARES
    ensures rows == Rows(m)
  {
    rows := [];
    var curRow: seq<T> := [];
    for i := 0 to NR_SQUARES
      invariant i == 9 * |rows| + |curRow| && |curRow| < 9
      invariant forall k :: 0 <= k < |rows| ==> rows[k] == m[9 * k..9 * k + 9]
      invariant curRow == m[9 * |rows|..i]
    {
      curRow := curRow + [m[i]];
      Div9(|rows|, |curRow| - 1);
      if i % 9 == 8 {
        rows := rows + [curRow];
        curRow := [];
      }
    }
  }

  /** Rows of a square-indexed map: row `r` holds squares 9r to 9r + 8. */
  function Rows<T>(m: seq<T>): (rows: seq<seq<T>>)
    requires |m| == NR_SQUARES
    ensures |rows| == 9 && forall r :: 0 <= r < 9 ==> |rows[r]| == 9
  {
    seq(9, r requires 0 <= r < 9 => m[9 * r..9 * r + 9])
  }

  /** Entry `c` of row `r` is square `Square(r, c)`: the rows lose nothing. */
  lemma RowsEntry<T>(m: seq<T>, r: nat, c: nat)
    requires |m| == NR_SQUARES && r < 9 && c < 9
    ensures Rows(m)[r][c] == m[Square(r, c)]
  {
  }

  /** `for (var square in result) solution += result[square]`. */
  method Concatenate(result: seq<string>) returns (solution: string)
    ensures solution == Join(result)
  {
    solution := "";
    for i := 0 to |result|
      invariant solution == Join(result[..i])
    {
      JoinStep(result, i);
      solution := solution + result[i];
    }
    assert result[..|result|] == result;
  }

  /**
   * `solve(board, reverse)`: throws for an invalid board or fewer than 17
   * givens; otherwise a solution that keeps the givens, or `None` when the
   * board has no solution.
   */
  method Solve(board: string, reverse: bool) returns (r: Result<Option<string>>)
    ensures r.Error? <==> !ValidBoard(board) || Givens(board) < MIN_GIVENS
    ensures !ValidBoard(board) ==> Validation(board).Invalid? && r == Error(Validation(board).reason)
    ensures ValidBoard(board) && Givens(board) < MIN_GIVENS ==> r == Error(FEW_GIVENS_MSG)
    ensures r.Ok? && r.value.Some? ==> IsSolution(r.value.value) && Agrees(r.value.value, board)
    ensures r == Ok(None) ==> forall s :: IsSolution(s) ==> !Agrees(s, board)
  {
    var report := ValidateBoard(board);
    ValidationMeaning(board);
    if report != Valid {
      return Error(report.reason);
    }
    var nrGivens := CountGivens(board);
    if nrGivens < MIN_GIVENS {
      return Error(FEW_GIVENS_MSG);
    }
    var candidates := GetCandidatesMap(board);
    if candidates.value.Some? {
      NotAllEmpty(candidates.value.value, 0);
    }
    var result := Search.Search(candidates.value, reverse);
    if result.Ok? && result.value.Some? {
      var solution := Concatenate(result.value.value);
      SolvedBoard(board, candidates.value.value, result.value.value);
      return Ok(Some(solution));
    }
    return Ok(None);
  }

  /** A search outcome from the candidates of a board spells a solution that keeps its givens. */
  lemma SolvedBoard(board: string, m: seq<string>, x: seq<string>)
    requires ValidBoard(board) && CandidatesFor(board, m) && Outcome(m, x)
    ensures Decided(x) && IsSolution(Join(x)) && Agrees(Join(x), board)
  {
    FullMapFacts();
    ProgressTrans(FullMap(), m, x);
    ConsistentKept(m, x);
    DecidedSolution(x);
    var d := DecidedDigits(x);
    JoinSingles(x, d);
    forall q | 0 <= q < NR_SQUARES && IsGiven(board, q) ensures d[q] == board[q] {
      SingleKept(m, x, q);
    }
  }
}
