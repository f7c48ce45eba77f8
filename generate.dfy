/**
 * `generate(difficulty)`: builds a puzzle by assigning random candidates to
 * the squares of a blank board, in random order, until enough squares are
 * decided; then blanks out random givens down to the requested number and
 * keeps the board if it can be solved. `Math.random` is not modelled: every
 * number `_rand_range` would draw is part of a `Draw`.
 */
module Generator {
  import opened Base
  import opened Topology
  import opened Solutions
  import opened Candidates
  import opened Board
  import opened Utility
  import opened Sudoku

  /** The `difficulty` argument: a string, `undefined`, or a number. */
  datatype Difficulty = Named(name: string) | Missing | Number(n: int)

  /**
   * The random numbers one attempt draws: the probes of the square shuffle,
   * the candidate choice at each step, and for each step the probes of the
   * givens shuffle that step would run.
   */
  datatype Draw = Draw(squareProbes: seq<nat>, picks: seq<nat>, givenProbes: seq<seq<nat>>)

  predicate Enough(d: Draw)
  {
    |d.squareProbes| >= NR_SQUARES && |d.picks| >= NR_SQUARES && |d.givenProbes| >= NR_SQUARES
    && forall k :: 0 <= k < |d.givenProbes| ==> |d.givenProbes[k]| >= NR_SQUARES
  }

  const EASY: nat := 62

  /** The `DIFFICULTY` table: the number of givens each named difficulty asks for. */
  function DifficultyTable(name: string): Option<nat>
  {
    if name == "easy" then Some(62)
    else if name == "medium" then Some(53)
    else if name == "hard" then Some(44)
    else if name == "very-hard" then Some(35)
    else if name == "insane" then Some(26)
    else if name == "inhuman" then Some(17)
    else None
  }

  /** `DIFFICULTY[difficulty] || DIFFICULTY.easy` for strings and `undefined`; numbers pass through. */
  function Requested(difficulty: Difficulty): int
  {
    match difficulty
    case Named(name) => if DifficultyTable(name).Some? then DifficultyTable(name).value else EASY
    case Missing => EASY
    case Number(n) => n
  }

  /**
   * `_force_range(difficulty, NR_SQUARES + 1, MIN_GIVENS)`: the number of
   * givens to aim for, pulled into 17..82. A request above 81 becomes 82,
   * one more than a board has squares.
   */
  function Target(difficulty: Difficulty): (t: nat)
    ensures MIN_GIVENS <= t <= NR_SQUARES + 1
    ensures MIN_GIVENS <= Requested(difficulty) <= NR_SQUARES + 1 ==> t == Requested(difficulty)
    ensures Requested(difficulty) < MIN_GIVENS ==> t == MIN_GIVENS
    ensures Requested(difficulty) > NR_SQUARES ==> t == NR_SQUARES + 1
  {
    ForceRange(Some(Requested(difficulty)), NR_SQUARES + 1, Some(MIN_GIVENS))
  }

  /** Each named difficulty asks for its table entry; an unknown name or `undefined` asks for "easy". */
  lemma NamedTargets(name: string)
    ensures DifficultyTable(name).None? ==> Target(Named(name)) == Target(Missing) == EASY
    ensures DifficultyTable(name).Some? ==> Target(Named(name)) == DifficultyTable(name).value
    ensures DifficultyTable(name).Some? ==> MIN_GIVENS <= DifficultyTable(name).value <= EASY
  {
  }

  /** The recursive retry passes the clamped number back in; clamping it again changes nothing. */
  lemma RetryTarget(difficulty: Difficulty)
    ensures Target(Number(Target(difficulty))) == Target(difficulty)
  {
    ForceRangeIdempotent(Some(Requested(difficulty)), NR_SQUARES + 1, Some(MIN_GIVENS));
  }

  // ---------------------------------------------------------------------------
  // The board a candidate map spells
  // ---------------------------------------------------------------------------

  /** The character `generate` writes for square `q`: its single candidate, else a blank. */
  function CellOf(m: seq<string>, q: nat): char
    requires q < |m|
  {
    if |m[q]| == 1 then m[q][0] else BLANK_CHAR
  }

  /** `singleCandidates` after the first `n` squares: the decided squares' candidate strings. */
  function Singles(m: seq<string>, n: nat): seq<string>
    requires n <= |m|
  {
    if n == 0 then [] else Singles(m, n - 1) + (if |m[n - 1]| == 1 then [m[n - 1]] else [])
  }

  /** `givensIdxs` after the first `n` squares: the decided squares, in square order. */
  function DecidedSquares(m: seq<string>, n: nat): seq<nat>
    requires n <= |m|
  {
    if n == 0 then [] else DecidedSquares(m, n - 1) + (if |m[n - 1]| == 1 then [n - 1] else [])
  }

  /** There is one single candidate per decided square, and at most one per square. */
  lemma {:induction false} SinglesCount(m: seq<string>, n: nat)
    requires n <= |m|
    ensures |Singles(m, n)| == |DecidedSquares(m, n)| <= n
  {
    if n > 0 {
      SinglesCount(m, n - 1);
    }
  }

  /** The decided squares are the squares below `n` with one candidate, each listed once. */
  lemma {:induction false} DecidedMembers(m: seq<string>, n: nat)
    requires n <= |m|
    ensures NoDup(DecidedSquares(m, n))
    ensures forall k :: 0 <= k < |DecidedSquares(m, n)| ==> DecidedSquares(m, n)[k] < n && |m[DecidedSquares(m, n)[k]]| == 1
    ensures forall q :: 0 <= q < n && |m[q]| == 1 ==> q in DecidedSquares(m, n)
  {
    if n > 0 {
      DecidedMembers(m, n - 1);
      var d := DecidedSquares(m, n - 1);
      if |m[n - 1]| == 1 {
        assert DecidedSquares(m, n) == d + [n - 1];
        forall k | 0 <= k < |d| ensures d[k] != n - 1 {
        }
      }
    }
  }

  /** On a well-formed map the decided squares are exactly the givens of the board it spells. */
  lemma CellGiven(m: seq<string>, b: string, q: nat)
    requires WellFormed(m) && |b| == NR_SQUARES && q < NR_SQUARES && b[q] == CellOf(m, q)
    ensures IsBoardChar(b[q]) && (IsGiven(b, q) <==> |m[q]| == 1)
  {
    assert WellFormedCands(m[q]);
    if |m[q]| == 1 {
      assert IsCand(m[q][0]);
      CandInDigits(m[q][0]);
    }
  }

  /** The givens of the spelled board among the first `n` squares are the decided ones. */
  lemma {:induction false} SpelledGivens(m: seq<string>, b: string, n: nat)
    requires WellFormed(m) && |b| == NR_SQUARES && n <= NR_SQUARES
    requires forall q :: 0 <= q < NR_SQUARES ==> b[q] == CellOf(m, q)
    ensures GivensUpTo(b, n) == |DecidedSquares(m, n)|
  {
    if n > 0 {
      SpelledGivens(m, b, n - 1);
      CellGiven(m, b, n - 1);
    }
  }

  /** The board spelled by a well-formed map is valid, with one given per decided square. */
  lemma SpelledBoard(m: seq<string>, b: string)
    requires WellFormed(m) && |b| == NR_SQUARES
    requires forall q :: 0 <= q < NR_SQUARES ==> b[q] == CellOf(m, q)
    ensures ValidBoard(b) && Givens(b) == |DecidedSquares(m, NR_SQUARES)|
    ensures forall q :: 0 <= q < NR_SQUARES ==> (IsGiven(b, q) <==> |m[q]| == 1)
  {
    forall q | 0 <= q < NR_SQUARES ensures IsBoardChar(b[q]) && (IsGiven(b, q) <==> |m[q]| == 1) {
      CellGiven(m, b, q);
    }
    SpelledGivens(m, b, NR_SQUARES);
  }

  // ---------------------------------------------------------------------------
  // Blanking out givens
  // ---------------------------------------------------------------------------

  /** `board.substr(0, target) + BLANK_CHAR + board.substr(target + 1)`. */
  function BlankOut(b: string, t: nat): (r: string)
    requires t < |b|
    ensures |r| == |b| && r[t] == BLANK_CHAR && forall q :: 0 <= q < |b| && q != t ==> r[q] == b[q]
  {
    b[..t] + [BLANK_CHAR] + b[t + 1..]
  }

  /** Blanking out a given loses exactly that given. */
  lemma {:induction false} BlankOutGivens(b: string, t: nat, n: nat)
    requires t < |b| && n <= |b| && IsGiven(b, t)
    ensures GivensUpTo(BlankOut(b, t), n) == GivensUpTo(b, n) - (if t < n then 1 else 0)
  {
    if n > 0 {
      BlankOutGivens(b, t, n - 1);
      assert IsGiven(BlankOut(b, t), n - 1) <==> n - 1 != t && IsGiven(b, n - 1);
    }
  }

  /** Blanking out a given keeps the board valid and lowers its givens by one. */
  lemma BlankOutValid(b: string, t: nat)
    requires ValidBoard(b) && t < NR_SQUARES && IsGiven(b, t)
    ensures ValidBoard(BlankOut(b, t)) && Givens(BlankOut(b, t)) == Givens(b) - 1
    ensures forall q :: 0 <= q < NR_SQUARES ==> (IsGiven(BlankOut(b, t), q) <==> q != t && IsGiven(b, q))
  {
    BlankOutGivens(b, t, NR_SQUARES);
  }

  /**
   * The trimming step of `generate`: when there are more givens than
   * `difficulty`, shuffle their positions and blank out the first
   * `nrGivens - difficulty` of them. Afterwards exactly `difficulty` givens
   * are left, each one a given of the original board.
   */
  method TrimGivens(board: string, givensIdxs: seq<nat>, difficulty: nat, probes: seq<nat>) returns (trimmed: string)
    requires ValidBoard(board) && NoDup(givensIdxs) && Givens(board) == |givensIdxs|
    requires forall k :: 0 <= k < |givensIdxs| ==> givensIdxs[k] < NR_SQUARES && IsGiven(board, givensIdxs[k])
    requires difficulty <= |givensIdxs| && |probes| >= |givensIdxs|
    ensures ValidBoard(trimmed) && Givens(trimmed) == difficulty
    ensures forall q :: 0 <= q < NR_SQUARES ==> trimmed[q] == board[q] || trimmed[q] == BLANK_CHAR
    ensures forall q :: 0 <= q < NR_SQUARES && IsGiven(trimmed, q) ==> trimmed[q] == board[q]
  {
    trimmed := board;
    var nrGivens := |givensIdxs|;
    if nrGivens > difficulty {
      var shuffled := Shuffle(givensIdxs, probes);
      NoDupPermutation(shuffled, givensIdxs);
      forall k | 0 <= k < nrGivens ensures shuffled[k] < NR_SQUARES && IsGiven(board, shuffled[k]) {
        assert shuffled[k] in multiset(givensIdxs);
      }
      for i := 0 to nrGivens - difficulty
        invariant ValidBoard(trimmed) && Givens(trimmed) == nrGivens - i
        invariant forall k :: i <= k < nrGivens ==> IsGiven(trimmed, shuffled[k])
        invariant forall q :: 0 <= q < NR_SQUARES ==> trimmed[q] == board[q] || trimmed[q] == BLANK_CHAR
      {
        var target := shuffled[i];
        BlankOutValid(trimmed, target);
        trimmed := BlankOut(trimmed, target);
      }
    }
  }

  /** A given left after trimming the spelled board is a decided square's digit. */
  lemma GivensDecided(m: seq<string>, spelled: string, b: string)
    requires WellFormed(m) && |spelled| == NR_SQUARES && |b| == NR_SQUARES
    requires forall q :: 0 <= q < NR_SQUARES ==> spelled[q] == CellOf(m, q)
    requires forall q :: 0 <= q < NR_SQUARES && IsGiven(b, q) ==> b[q] == spelled[q]
    ensures forall q :: 0 <= q < NR_SQUARES && IsGiven(b, q) ==> m[q] == [b[q]]
  {
    forall q | 0 <= q < NR_SQUARES && IsGiven(b, q) ensures m[q] == [b[q]] {
      CellGiven(m, spelled, q);
    }
  }

  // ---------------------------------------------------------------------------
  // The loops of generate
  // ---------------------------------------------------------------------------

  /** `blankBoard += '.'` 81 times. */
  method BlankBoard() returns (blankBoard: string)
    ensures ValidBoard(blankBoard) && forall q :: 0 <= q < NR_SQUARES ==> !IsGiven(blankBoard, q)
  {
    blankBoard := "";
    for i := 0 to NR_SQUARES
      invariant |blankBoard| == i && forall q :: 0 <= q < i ==> blankBoard[q] == BLANK_CHAR
    {
      blankBoard := blankBoard + [BLANK_CHAR];
    }
  }

  /** The `singleCandidates` loop: the candidate strings of the decided squares, in square order. */
  method SingleCandidates(candidates: array<string>) returns (singleCandidates: seq<string>)
    requires candidates.Length == NR_SQUARES
    ensures singleCandidates == Singles(candidates[..], NR_SQUARES)
  {
    singleCandidates := [];
    for si := 0 to NR_SQUARES
      invariant singleCandidates == Singles(candidates[..], si)
    {
      if |candidates[si]| == 1 {
        singleCandidates := singleCandidates + [candidates[si]];
      }
    }
  }

  /** The board-building loop: each square's single candidate or a blank, and the decided squares. */
  method SpellBoard(candidates: array<string>) returns (board: string, givensIdxs: seq<nat>)
    requires candidates.Length == NR_SQUARES
    ensures |board| == NR_SQUARES && forall q :: 0 <= q < NR_SQUARES ==> board[q] == CellOf(candidates[..], q)
    ensures givensIdxs == DecidedSquares(candidates[..], NR_SQUARES)
  {
    board := "";
    givensIdxs := [];
    for i := 0 to NR_SQUARES
      invariant |board| == i && forall q :: 0 <= q < i ==> board[q] == CellOf(candidates[..], q)
      invariant givensIdxs == DecidedSquares(candidates[..], i)
    {
      if |candidates[i]| == 1 {
        board := board + candidates[i];
        givensIdxs := givensIdxs + [i];
      } else {
        board := board + [BLANK_CHAR];
      }
    }
  }

  /** Every entry of a shuffle of the squares is a square. */
  lemma ShuffledSquares(shuffled: seq<nat>)
    requires multiset(shuffled) == multiset(Range(NR_SQUARES))
    ensures |shuffled| == NR_SQUARES && forall k :: 0 <= k < |shuffled| ==> shuffled[k] < NR_SQUARES
  {
    assert |shuffled| == |multiset(shuffled)| == |Range(NR_SQUARES)|;
    forall k | 0 <= k < |shuffled| ensures shuffled[k] < NR_SQUARES {
      assert shuffled[k] in multiset(Range(NR_SQUARES));
    }
  }

  /**
   * The body of the square loop of `generate` after a successful assignment:
   * with at least `difficulty` decided squares holding at least 8 distinct
   * digits, spell the board, trim it to `difficulty` givens and keep it if
   * `solve` finds a solution.
   */
  method TryBoard(candidates: array<string>, difficulty: nat, givenProbes: seq<nat>) returns (r: Option<string>)
    requires candidates.Length == NR_SQUARES && WellFormed(candidates[..]) && |givenProbes| >= NR_SQUARES
    requires MIN_GIVENS <= difficulty
    ensures difficulty > NR_SQUARES ==> r.None?
    ensures r.Some? ==> |Singles(candidates[..], NR_SQUARES)| >= difficulty && |FirstOccurrences(Singles(candidates[..], NR_SQUARES))| >= 8
    ensures r.Some? ==> ValidBoard(r.value) && Givens(r.value) == difficulty
    ensures r.Some? ==> forall q :: 0 <= q < NR_SQUARES && IsGiven(r.value, q) ==> candidates[q] == [r.value[q]]
    ensures r.Some? ==> exists s :: IsSolution(s) && Agrees(s, r.value)
  {
    var singleCandidates := SingleCandidates(candidates);
    SinglesCount(candidates[..], NR_SQUARES);
    var distinct := StripDups(singleCandidates);
    if |singleCandidates| >= difficulty && |distinct| >= 8 {
      var board, givensIdxs := SpellBoard(candidates);
      SpelledBoard(candidates[..], board);
      DecidedMembers(candidates[..], NR_SQUARES);
      var spelled := board;
      board := TrimGivens(board, givensIdxs, difficulty, givenProbes);
      var solved := Solve(board, false);
      assert solved.Ok?;
      if solved.value.Some? {
        GivensDecided(candidates[..], spelled, board);
        return Some(board);
      }
    }
    return None;
  }

  /**
   * One pass of `generate`, up to the recursive retry: `None` where the
   * source gives up and calls itself again. A board it returns is valid, has
   * exactly `difficulty` givens (at least 17) and a solution that keeps them;
   * a `difficulty` above 81 is never reached.
   */
  method GenerateAttempt(difficulty: nat, draw: Draw) returns (r: Option<string>)
    requires MIN_GIVENS <= difficulty && Enough(draw)
    ensures difficulty > NR_SQUARES ==> r.None?
    ensures r.Some? ==> ValidBoard(r.value) && Givens(r.value) == difficulty
    ensures r.Some? ==> exists s :: IsSolution(s) && Agrees(s, r.value)
  {
    var blankBoard := BlankBoard();
    var start := GetCandidatesMap(blankBoard);
    var m := start.value.value;
    FullMapFacts();
    var candidates := new string[NR_SQUARES](i => if 0 <= i < |m| then m[i] else "");
    assert candidates[..] == m == FullMap();
    ProgressRefl(FullMap());
    var shuffledSquares := Shuffle(Range(NR_SQUARES), draw.squareProbes);
    ShuffledSquares(shuffledSquares);
    for si := 0 to NR_SQUARES
      invariant WellFormed(candidates[..]) && Progress(FullMap(), candidates[..])
    {
      var square := shuffledSquares[si];
      assert candidates[square] != [];
      var randCandidate := candidates[square][draw.picks[si] % |candidates[square]|];
      ghost var before := candidates[..];
      var ok := Assign(candidates, square, randCandidate);
      if !ok {
        return None;
      }
      ProgressTrans(FullMap(), before, candidates[..]);
      r := TryBoard(candidates, difficulty, draw.givenProbes[si]);
      if r.Some? {
        return r;
      }
    }
    return None;
  }

  /**
   * `generate(difficulty)`: tries one attempt per draw until one yields a
   * board; `None` once the draws run out (the source retries without end).
   * A request above 81 givens never yields a board, whatever is drawn.
   */
  method Generate(difficulty: Difficulty, draws: seq<Draw>) returns (r: Option<string>)
    requires forall k :: 0 <= k < |draws| ==> Enough(draws[k])
    ensures Requested(difficulty) > NR_SQUARES ==> r.None?
    ensures r.Some? ==> ValidBoard(r.value) && Givens(r.value) == Target(difficulty)
    ensures r.Some? ==> exists s :: IsSolution(s) && Agrees(s, r.value)
  {
    var target := Target(difficulty);
    r := None;
    for k := 0 to |draws|
      invariant Requested(difficulty) > NR_SQUARES ==> r.None?
    {
      r := GenerateAttempt(target, draws[k]);
      if r.Some? {
        return r;
      }
    }
    return None;
  }
}
