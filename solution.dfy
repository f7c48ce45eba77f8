/**
 * Completed grids: what a solution of a Sudoku board is, independently of how
 * the solver finds one.
 */
module Solutions {
  import opened Base
  import opened Topology

  const DIGITS: string := "123456789"

  /** A digit a square can hold. */
  predicate IsCand(c: char) { '1' <= c <= '9' }

  /** A filled grid, one digit per square in square order, no digit repeated among peers. */
  predicate IsSolution(s: seq<char>)
  {
    |s| == NR_SQUARES &&
    (forall q :: 0 <= q < NR_SQUARES ==> IsCand(s[q])) &&
    forall p, q :: 0 <= p < NR_SQUARES && 0 <= q < NR_SQUARES && p != q && SharesUnit(p, q) ==> s[p] != s[q]
  }

  /** The digits of a grid along a unit. */
  function UnitDigits(s: seq<char>, u: nat): (t: string)
    requires |s| == NR_SQUARES && u < 27
    ensures |t| == 9
  {
    UnitShape(u);
    seq(9, k requires 0 <= k < 9 => s[Unit(u)[k]])
  }

  /** Every unit of a solution holds every digit: the nine squares have nine different digits. */
  lemma DigitInUnit(s: seq<char>, u: nat, d: char) returns (k: nat)
    requires IsSolution(s) && u < 27 && IsCand(d)
    ensures k < 9 && Unit(u)[k] < NR_SQUARES && s[Unit(u)[k]] == d
  {
    UnitShape(u);
    var t := UnitDigits(s, u);
    forall i, j | 0 <= i < j < 9 ensures t[i] != t[j] {
      var p, q := Unit(u)[i], Unit(u)[j];
      assert SharesUnit(p, q);
    }
    Pigeon(t, d);
    k :| 0 <= k < 9 && t[k] == d;
  }

  lemma CandInDigits(c: char)
    requires IsCand(c)
    ensures c in DIGITS
  {
  }

  /** Nine distinct digits include every digit. */
  lemma Pigeon(t: string, d: char)
    requires |t| == 9 && NoDup(t) && (forall i :: 0 <= i < |t| ==> IsCand(t[i])) && IsCand(d)
    ensures d in t
  {
    forall i | 0 <= i < |t| ensures t[i] in DIGITS {
      CandInDigits(t[i]);
    }
    Pigeonhole(t, DIGITS);
    CandInDigits(d);
  }
}
