/**
 * `_search`: depth-first search over the candidate map. It picks the undecided
 * square with the fewest candidates, tries each candidate on a copy of the map
 * and propagates, and returns the first fully decided map it reaches.
 */
module Search {
  import opened Base
  import opened Topology
  import opened Solutions
  import opened Candidates

  /** Every square has lost all of its candidates. */
  predicate AllEmpty(m: seq<string>)
  {
    forall q :: 0 <= q < |m| ==> m[q] == []
  }

  /** The maximum loop of `_search`: the largest candidate count, 0 for no candidates at all. */
  method MaxCandidates(m: seq<string>) returns (max: nat)
    ensures forall q :: 0 <= q < |m| ==> |m[q]| <= max
    ensures max == 0 || exists q :: 0 <= q < |m| && |m[q]| == max
  {
    max := 0;
    for si := 0 to |m|
      invariant forall q :: 0 <= q < si ==> |m[q]| <= max
      invariant max == 0 || exists q :: 0 <= q < si && |m[q]| == max
    {
      if |m[si]| > max {
        max := |m[si]|;
      }
    }
  }

  /**
   * `sq` is where `_search` branches: it has the fewest candidates among the
   * squares with more than one (and below the starting bound of ten), and no
   * earlier square has as few.
   */
  predicate FewestSquare(m: seq<string>, sq: nat)
  {
    sq < |m| && 1 < |m[sq]| < 10
    && (forall q :: 0 <= q < |m| && 1 < |m[q]| ==> |m[sq]| <= |m[q]|)
    && (forall q :: 0 <= q < sq && 1 < |m[q]| ==> |m[sq]| < |m[q]|)
  }

  /** There is only one square to branch on. */
  lemma FewestSquareUnique(m: seq<string>, a: nat, b: nat)
    requires FewestSquare(m, a) && FewestSquare(m, b)
    ensures a == b
  {
  }

  /**
   * The minimum loop of `_search`: the first square with the fewest candidates
   * among those with more than one (and fewer than ten); `None` for `null`.
   */
  method FewestCandidates(m: seq<string>) returns (sq: Option<nat>)
    ensures sq.None? ==> forall q :: 0 <= q < |m| ==> !(1 < |m[q]| < 10)
    ensures sq.Some? ==> FewestSquare(m, sq.value)
  {
    var min := 10;
    sq := None;
    for si := 0 to |m|
      invariant sq.None? ==> min == 10 && forall q :: 0 <= q < si ==> !(1 < |m[q]| < 10)
      invariant sq.Some? ==> sq.value < si && min == |m[sq.value]| && 1 < min < 10
      invariant forall q :: 0 <= q < si && 1 < |m[q]| ==> min <= |m[q]|
      invariant sq.Some? ==> forall q :: 0 <= q < sq.value && 1 < |m[q]| ==> min < |m[q]|
    {
      if |m[si]| < min && |m[si]| > 1 {
        min := |m[si]|;
        sq := Some(si);
      }
    }
  }

  /** What the search may return for map `m`: a decided-or-emptied refinement of it. */
  predicate Outcome(m: seq<string>, x: seq<string>)
  {
    WellFormed(x) && Progress(m, x) && forall q :: 0 <= q < NR_SQUARES ==> |x[q]| <= 1
  }

  /** No solution that map `m` allows puts any of `vals` at square `sq`. */
  ghost predicate NoneWith(m: seq<string>, sq: nat, vals: string)
  {
    forall s :: IsSolution(s) && Compatible(s, m) && sq < |s| ==> s[sq] !in vals
  }

  /** The candidates of `cands` tried before the one at index `i`: those before it, or after it in reverse. */
  function TriedBefore(cands: string, i: nat, reverse: bool): (r: string)
    requires i < |cands|
    ensures forall c :: c in r ==> c in cands
  {
    if reverse then cands[i + 1..] else cands[..i]
  }

  /**
   * `x` came from branching at `sq` on candidate `i` of `m[sq]`: `sq` holds
   * exactly that candidate, and every candidate tried before it leads to no
   * solution.
   */
  ghost predicate Branched(m: seq<string>, sq: nat, x: seq<string>, reverse: bool)
  {
    sq < |m| && sq < |x| && exists i :: 0 <= i < |m[sq]| && x[sq] == [m[sq][i]] && NoneWith(m, sq, TriedBefore(m[sq], i, reverse))
  }

  function Measure(c: Option<seq<string>>): nat
  {
    if c.None? then 0 else Total(c.value) + 1
  }

  /**
   * `_search(candidates, reverse)`. `None` stands for the `false` a failed
   * assignment hands on. The list of candidates of an unset minimum square
   * (`candidates[null].length`) makes the reverse search throw when every
   * square is empty; the forward one then returns `false`.
   */
  method Search(c: Option<seq<string>>, reverse: bool) returns (r: Result<Option<seq<string>>>)
    requires c.Some? ==> WellFormed(c.value)
    decreases Measure(c), 1
    ensures r.Error? <==> reverse && c.Some? && AllEmpty(c.value)
    ensures r.Ok? && r.value.Some? ==> c.Some? && Outcome(c.value, r.value.value)
    ensures r.Ok? && r.value.Some? && c.Some? ==> forall sq :: FewestSquare(c.value, sq) ==> Branched(c.value, sq, r.value.value, reverse)
    ensures r == Ok(None) ==> forall s :: IsSolution(s) ==> !(c.Some? && Compatible(s, c.value))
  {
    if c.None? {
      return Ok(None);
    }
    var m := c.value;
    var maxNrCandidates := MaxCandidates(m);
    if maxNrCandidates == 1 {
      ProgressRefl(m);
      return Ok(Some(m));
    }
    var minSquare := FewestCandidates(m);
    if minSquare.None? {
      NoneLeft(m, maxNrCandidates);
      if reverse {
        return Error("TypeError: Cannot read properties of undefined (reading 'length')");
      }
      return Ok(None);
    }
    var sq := minSquare.value;
    var minCandidates := m[sq];
    if !reverse {
      for vi := 0 to |minCandidates|
        invariant forall s :: IsSolution(s) && Compatible(s, m) ==> s[sq] !in minCandidates[..vi]
      {
        var next := TryValue(m, sq, minCandidates[vi], false);
        if next.value.Some? {
          BranchedAt(m, sq, next.value.value, vi, reverse);
          return next;
        }
        assert minCandidates[..vi + 1] == minCandidates[..vi] + [minCandidates[vi]];
      }
      assert minCandidates[..|minCandidates|] == m[sq];
    } else {
      var vi: int := |minCandidates| - 1;
      while vi >= 0
        invariant -1 <= vi < |minCandidates|
        invariant forall s :: IsSolution(s) && Compatible(s, m) ==> s[sq] !in minCandidates[vi + 1..]
      {
        var next := TryValue(m, sq, minCandidates[vi], reverse);
        if next.value.Some? {
          BranchedAt(m, sq, next.value.value, vi, reverse);
          return next;
        }
        assert minCandidates[vi..] == [minCandidates[vi]] + minCandidates[vi + 1..];
        vi := vi - 1;
      }
      assert minCandidates[0..] == m[sq];
    }
    NotAllEmpty(m, sq);
    return Ok(None);
  }

  /** One trial of the search loop: assign `val` at `sq` on a deep copy and search on. */
  method TryValue(m: seq<string>, sq: nat, val: char, reverse: bool) returns (r: Result<Option<seq<string>>>)
    requires WellFormed(m) && sq < NR_SQUARES && 1 < |m[sq]| && val in m[sq]
    decreases Total(m) + 1, 0
    ensures r.Ok?
    ensures r.value.Some? ==> Outcome(m, r.value.value) && r.value.value[sq] == [val]
    ensures forall s :: IsSolution(s) && Compatible(s, m) && s[sq] == val ==> r.value.Some?
  {
    var copy := new string[NR_SQUARES](i => if 0 <= i < |m| then m[i] else "");
    assert copy[..] == m;
    var ok := Assign(copy, sq, val);
    var next: Option<seq<string>> := None;
    if ok {
      ShrinksTotalStrict(m, copy[..], sq);
      next := Some(copy[..]);
    }
    r := Search(next, reverse);
    if r.Ok? && r.value.Some? {
      ProgressTrans(m, copy[..], r.value.value);
      SingleKept(copy[..], r.value.value, sq);
    }
  }

  /** With no square above one candidate and a maximum other than one, every square is empty. */
  lemma NoneLeft(m: seq<string>, max: nat)
    requires WellFormed(m) && max != 1
    requires forall q :: 0 <= q < |m| ==> |m[q]| <= max
    requires max == 0 || exists q :: 0 <= q < |m| && |m[q]| == max
    requires forall q :: 0 <= q < |m| ==> !(1 < |m[q]| < 10)
    ensures AllEmpty(m) && forall s :: IsSolution(s) ==> !Compatible(s, m)
  {
    forall q | 0 <= q < |m| ensures m[q] == [] {
      assert WellFormedCands(m[q]);
    }
    assert m[0] == [];
  }

  /** A result found on candidate `i`, after the earlier tries failed, is a branch at the fewest square. */
  lemma BranchedAt(m: seq<string>, sq: nat, x: seq<string>, i: nat, reverse: bool)
    requires FewestSquare(m, sq) && i < |m[sq]| && sq < |x| && x[sq] == [m[sq][i]]
    requires NoneWith(m, sq, TriedBefore(m[sq], i, reverse))
    ensures forall q :: FewestSquare(m, q) ==> Branched(m, q, x, reverse)
  {
    forall q | FewestSquare(m, q) ensures Branched(m, q, x, reverse) {
      FewestSquareUnique(m, q, sq);
    }
  }

  lemma NotAllEmpty(m: seq<string>, sq: nat)
    requires sq < |m| && m[sq] != []
    ensures !AllEmpty(m)
  {
  }
}
