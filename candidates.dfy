/**
 * The candidate engine: a map from each of the 81 squares to the string of
 * digits still possible there, narrowed in place by `_eliminate` and
 * `_assign` through two propagation rules:
 *   - a square left with one candidate removes it from all of its peers;
 *   - a digit left with one place in a unit is assigned there.
 *
 * The map is an array of 81 strings, indexed by square. Both operations
 * return `false` on a contradiction, after which every caller discards the
 * (partially updated) map, as the library does.
 */
module Candidates {
  import opened Base
  import opened Topology
  import opened Solutions

  /** A candidate string: distinct digits 1..9, at most nine of them. */
  predicate WellFormedCands(s: string)
  {
    |s| <= 9 && NoDup(s) && forall i :: 0 <= i < |s| ==> IsCand(s[i])
  }

  /** A candidate map: one well-formed candidate string per square. */
  predicate WellFormed(m: seq<string>)
  {
    |m| == NR_SQUARES && forall q :: 0 <= q < |m| ==> WellFormedCands(m[q])
  }

  /** The map every search starts from: all nine digits everywhere. */
  function FullMap(): seq<string>
  {
    seq(NR_SQUARES, q => DIGITS)
  }

  /** `s.replace(c, '')`: the string without the first occurrence of `c`. */
  function RemoveFirst(s: string, c: char): (r: string)
    ensures c !in s ==> r == s
    ensures c in s ==> |r| == |s| - 1
    ensures forall x :: x in r ==> x in s
    ensures NoDup(s) ==> NoDup(r) && c !in r && forall x :: x in s && x != c ==> x in r
  {
    if s == [] then []
    else
      NoDupTail(s);
      if s[0] == c then s[1..] else [s[0]] + RemoveFirst(s[1..], c)
  }

  lemma NoDupTail(s: string)
    requires s != []
    ensures forall x :: x in s <==> x == s[0] || x in s[1..]
    ensures NoDup(s) ==> NoDup(s[1..]) && s[0] !in s[1..]
  {
    assert s == [s[0]] + s[1..];
    if NoDup(s) {
      forall k | 0 <= k < |s| - 1 ensures s[1..][k] != s[0] {
        assert s[1..][k] == s[k + 1];
      }
    }
  }

  /** Total number of candidates left: the measure that every elimination lowers. */
  function Total(m: seq<string>): nat
  {
    if m == [] then 0 else Total(m[..|m| - 1]) + |m[|m| - 1]|
  }

  /** Every candidate of `x` is a candidate of `y`. */
  predicate Within(x: string, y: string)
  {
    forall c :: c in x ==> c in y
  }

  /** `b` arises from `a` by removing candidates only: nothing is ever added. */
  predicate Shrinks(a: seq<string>, b: seq<string>)
  {
    |a| == |b| && forall q :: 0 <= q < |a| ==> |b[q]| <= |a[q]| && Within(b[q], a[q])
  }

  /** No square that had a candidate in `a` has lost all of them in `b`. */
  predicate KeepsNonEmpty(a: seq<string>, b: seq<string>)
  {
    |a| == |b| && forall q :: 0 <= q < |a| && a[q] != [] ==> b[q] != []
  }

  /** A square decided between `a` and `b` has had its digit removed from every peer. */
  predicate Propagated(a: seq<string>, b: seq<string>)
    requires |a| == NR_SQUARES && |b| == NR_SQUARES
  {
    forall q, p :: 0 <= q < NR_SQUARES && 0 <= p < NR_SQUARES && p != q && SharesUnit(p, q) && |b[q]| == 1 && b[q] != a[q] ==> b[q][0] !in b[p]
  }

  /** No decided square shares its digit with a peer. */
  predicate Consistent(m: seq<string>)
    requires |m| == NR_SQUARES
  {
    forall q, p :: 0 <= q < NR_SQUARES && 0 <= p < NR_SQUARES && p != q && SharesUnit(p, q) && |m[q]| == 1 ==> m[q][0] !in m[p]
  }

  /** `valPlaces`: the squares of `unit` (in unit order) whose candidates include `d`. */
  function Places(m: seq<string>, unit: seq<nat>, d: char): seq<nat>
  {
    if unit == [] then []
    else
      var q := unit[|unit| - 1];
      Places(m, unit[..|unit| - 1], d) + (if q < |m| && d in m[q] then [q] else [])
  }

  /** Every digit that had a place in a unit in `a` still has one in `b`. */
  predicate PlacesKept(a: seq<string>, b: seq<string>)
  {
    forall u: nat, d :: u < 27 && Places(a, Unit(u), d) != [] ==> Places(b, Unit(u), d) != []
  }

  /** If `d` has a single place left in `unit`, that square is decided to `d`. */
  predicate SinglePlaced(m: seq<string>, unit: seq<nat>, d: char)
  {
    var places := Places(m, unit, d);
    |places| == 1 ==> places[0] < |m| && m[places[0]] == [d]
  }

  /** Every unit whose place list for a digit changed between `a` and `b` and is down to one place has that digit assigned there. */
  predicate SinglesAssigned(a: seq<string>, b: seq<string>)
  {
    forall u: nat, d :: u < 27 && Places(b, Unit(u), d) != Places(a, Unit(u), d) ==> SinglePlaced(b, Unit(u), d)
  }

  /** The indices of the row, column and box of `s`, in SQUARE_UNITS_MAP order. */
  function UnitIds(s: nat): seq<nat>
    requires s < NR_SQUARES
  {
    [Row(s), 9 + Col(s), 18 + Box(s)]
  }

  /** Solution `s` is still allowed by map `m`: each square's digit is among its candidates. */
  predicate Compatible(s: seq<char>, m: seq<string>)
  {
    |s| == NR_SQUARES && |m| == NR_SQUARES && forall q :: 0 <= q < NR_SQUARES ==> s[q] in m[q]
  }

  /** What one successful propagation step guarantees about the map it leaves. */
  predicate Progress(a: seq<string>, b: seq<string>)
  {
    |a| == NR_SQUARES && Shrinks(a, b) && KeepsNonEmpty(a, b) && Propagated(a, b) && PlacesKept(a, b) && SinglesAssigned(a, b)
  }

  // ---------------------------------------------------------------------------
  // _eliminate and _assign
  // ---------------------------------------------------------------------------

  /**
   * `_eliminate(candidates, sq, v)`: removes `v` from the candidates of `sq`
   * and propagates; `false` on a contradiction.
   */
  method Eliminate(m: array<string>, sq: nat, v: char) returns (ok: bool)
    requires m.Length == NR_SQUARES && sq < NR_SQUARES && WellFormed(m[..])
    modifies m
    decreases Total(m[..]), 0
    ensures WellFormed(m[..]) && Shrinks(old(m[..]), m[..])
    ensures v !in old(m[sq]) ==> ok && m[..] == old(m[..])
    ensures ok ==> v !in m[sq] && Progress(old(m[..]), m[..])
    ensures ok && v in old(m[sq]) ==> forall i :: 0 <= i < 3 ==> Places(m[..], SquareUnits(sq)[i], v) != [] && SinglePlaced(m[..], SquareUnits(sq)[i], v)
    ensures forall s :: IsSolution(s) && Compatible(s, old(m[..])) && s[sq] != v ==> ok && Compatible(s, m[..])
  {
    if v !in m[sq] {
      return true;
    }
    ghost var m0 := m[..];
    m[sq] := RemoveFirst(m[sq], v);
    ghost var m1 := m[..];
    RemoveStep(m0, m1, sq, v);
    var nrCandidates := |m[sq]|;
    if nrCandidates == 1 {
      var targetVal := m[sq][0];
      ok := ClearPeers(m, sq, targetVal);
      DecidedCompatible(m0, m1, m[..], sq, v, ok);
      if !ok {
        ShrinksTrans(m0, m1, m[..]);
        return false;
      }
      SingleSettled(m0, m1, m[..], sq);
    } else if nrCandidates > 1 {
      ProgressRefl(m1);
      SeveralSettled(m0, m1, sq);
    } else {
      EmptyIncompatible(m0, m1, sq, v);
      return false;
    }
    ghost var m2 := m[..];
    ShrinksTotal(m1, m2);
    assert IsCand(v) by {
      var i :| 0 <= i < |m0[sq]| && m0[sq][i] == v;
    }
    ok := CheckUnits(m, sq, v);
    CompatibleChain(m0, m2, m[..], sq, v, ok);
    ShrinksTrans(m0, m2, m[..]);
    if !ok {
      return false;
    }
    EliminateSettled(m0, m1, m2, m[..], sq, v);
    return true;
  }

  /** The peer loop of `_eliminate`: removes the decided digit `t` of `sq` from each peer. */
  method ClearPeers(m: array<string>, sq: nat, t: char) returns (ok: bool)
    requires m.Length == NR_SQUARES && sq < NR_SQUARES && WellFormed(m[..])
    modifies m
    decreases Total(m[..]), 2
    ensures WellFormed(m[..]) && Shrinks(old(m[..]), m[..])
    ensures ok ==> Progress(old(m[..]), m[..])
    ensures ok ==> forall p :: 0 <= p < NR_SQUARES && p != sq && SharesUnit(p, sq) ==> t !in m[p]
    ensures forall s :: IsSolution(s) && Compatible(s, old(m[..])) && s[sq] == t ==> ok && Compatible(s, m[..])
  {
    ghost var m0 := m[..];
    var peers := Peers(sq);
    ProgressRefl(m0);
    PeersBound(sq);
    for pi := 0 to |peers|
      invariant WellFormed(m[..]) && Progress(m0, m[..])
      invariant forall k :: 0 <= k < pi ==> t !in m[peers[k]]
      invariant forall s :: IsSolution(s) && Compatible(s, m0) && s[sq] == t ==> Compatible(s, m[..])
    {
      ShrinksTotal(m0, m[..]);
      ghost var before := m[..];
      PeerDiffers(sq, peers[pi]);
      ok := Eliminate(m, peers[pi], t);
      if !ok {
        ShrinksTrans(m0, before, m[..]);
        return false;
      }
      PeersKeepAbsent(m0, before, m[..], peers, pi, t);
    }
    PeersCleared(m[..], sq, t);
    return true;
  }

  /**
   * The unit loop of `_eliminate`: in each unit of `sq`, `v` must keep a place;
   * if it has exactly one, it is assigned there.
   */
  method CheckUnits(m: array<string>, sq: nat, v: char) returns (ok: bool)
    requires m.Length == NR_SQUARES && sq < NR_SQUARES && WellFormed(m[..]) && IsCand(v)
    modifies m
    decreases Total(m[..]), 2
    ensures WellFormed(m[..]) && Shrinks(old(m[..]), m[..])
    ensures ok ==> Progress(old(m[..]), m[..])
    ensures ok ==> forall i :: 0 <= i < 3 ==> Places(m[..], SquareUnits(sq)[i], v) != []
    ensures ok ==> forall i :: 0 <= i < 3 ==> SinglePlaced(m[..], SquareUnits(sq)[i], v)
    ensures forall s :: IsSolution(s) && Compatible(s, old(m[..])) ==> ok && Compatible(s, m[..])
  {
    ghost var m0 := m[..];
    var units := SquareUnits(sq);
    ProgressRefl(m0);
    for ui := 0 to |units|
      invariant WellFormed(m[..]) && Progress(m0, m[..])
      invariant forall i :: 0 <= i < ui ==> Places(m[..], units[i], v) != []
      invariant forall i :: 0 <= i < ui ==> SinglePlaced(m[..], units[i], v)
      invariant forall s :: IsSolution(s) && Compatible(s, m0) ==> Compatible(s, m[..])
    {
      SquareUnitIds(sq, ui);
      var unit := units[ui];
      var valPlaces := UnitPlaces(m, unit, v);
      SolutionPlaces(m[..], UnitIds(sq)[ui], v);
      if |valPlaces| == 0 {
        return false;
      } else if |valPlaces| == 1 {
        ghost var before := m[..];
        PlacesShape(m[..], unit, v);
        UnitShape(UnitIds(sq)[ui]);
        ShrinksTotal(m0, m[..]);
        ok := Assign(m, valPlaces[0], v);
        if !ok {
          ShrinksTrans(m0, before, m[..]);
          return false;
        }
        UnitAssigned(m0, before, m[..], sq, v, ui, valPlaces[0]);
      }
    }
    return true;
  }

  /** The `valPlaces` loop of `_eliminate`: the squares of `unit` that still allow `v`. */
  method UnitPlaces(m: array<string>, unit: seq<nat>, v: char) returns (valPlaces: seq<nat>)
    ensures valPlaces == Places(m[..], unit, v)
  {
    valPlaces := [];
    for si := 0 to |unit|
      invariant valPlaces == Places(m[..], unit[..si], v)
    {
      assert unit[..si + 1][..si] == unit[..si];
      if unit[si] < m.Length && v in m[unit[si]] {
        valPlaces := valPlaces + [unit[si]];
      }
    }
    assert unit[..|unit|] == unit;
  }

  /**
   * `_assign(candidates, sq, v)`: eliminates every other candidate of `sq`
   * and propagates; `false` on a contradiction.
   */
  method Assign(m: array<string>, sq: nat, v: char) returns (ok: bool)
    requires m.Length == NR_SQUARES && sq < NR_SQUARES && WellFormed(m[..])
    modifies m
    decreases Total(m[..]), 1
    ensures WellFormed(m[..]) && Shrinks(old(m[..]), m[..])
    ensures ok ==> Progress(old(m[..]), m[..])
    ensures ok && old(m[sq]) != [] ==> v in old(m[sq]) && m[sq] == [v]
    ensures forall s :: IsSolution(s) && Compatible(s, old(m[..])) && s[sq] == v ==> ok && Compatible(s, m[..])
  {
    ghost var m0 := m[..];
    var otherVals := RemoveFirst(m[sq], v);
    ProgressRefl(m0);
    for ovi := 0 to |otherVals|
      invariant WellFormed(m[..]) && Progress(m0, m[..])
      invariant forall k :: 0 <= k < ovi ==> otherVals[k] !in m[sq]
      invariant forall s :: IsSolution(s) && Compatible(s, m0) && s[sq] == v ==> Compatible(s, m[..])
    {
      ghost var before := m[..];
      ShrinksTotal(m0, m[..]);
      ok := Eliminate(m, sq, otherVals[ovi]);
      if !ok {
        ShrinksTrans(m0, before, m[..]);
        return false;
      }
      AssignStep(m0, before, m[..], sq, v, otherVals, ovi);
    }
    AssignSettled(m0, m[..], sq, v, otherVals);
    return true;
  }

  // ---------------------------------------------------------------------------
  // Lemmas about the relations
  // ---------------------------------------------------------------------------

  lemma {:induction false} ShrinksTotal(a: seq<string>, b: seq<string>)
    requires Shrinks(a, b)
    ensures Total(b) <= Total(a)
  {
    if a != [] {
      ShrinksTotal(a[..|a| - 1], b[..|b| - 1]);
    }
  }

  /** Removing candidates somewhere strictly lowers the total. */
  lemma {:induction false} ShrinksTotalStrict(a: seq<string>, b: seq<string>, q: nat)
    requires Shrinks(a, b) && q < |a| && |b[q]| < |a[q]|
    ensures Total(b) < Total(a)
  {
    if q < |a| - 1 {
      ShrinksTotalStrict(a[..|a| - 1], b[..|b| - 1], q);
    } else {
      ShrinksTotal(a[..|a| - 1], b[..|b| - 1]);
    }
  }

  lemma ShrinksTrans(a: seq<string>, b: seq<string>, c: seq<string>)
    requires Shrinks(a, b) && Shrinks(b, c)
    ensures Shrinks(a, c)
  {
    forall q | 0 <= q < |a| ensures |c[q]| <= |a[q]| && Within(c[q], a[q]) {
      assert Within(c[q], b[q]) && Within(b[q], a[q]);
    }
  }

  lemma ProgressRefl(a: seq<string>)
    requires |a| == NR_SQUARES
    ensures Progress(a, a)
  {
  }

  /** Successful steps compose: the relation is transitive. */
  lemma ProgressTrans(a: seq<string>, b: seq<string>, c: seq<string>)
    requires Progress(a, b) && Progress(b, c)
    ensures Progress(a, c)
  {
    ShrinksTrans(a, b, c);
    forall q, p | 0 <= q < NR_SQUARES && 0 <= p < NR_SQUARES && p != q && SharesUnit(p, q) && |c[q]| == 1 && c[q] != a[q]
      ensures c[q][0] !in c[p]
    {
      if c[q] == b[q] {
        assert b[q][0] !in b[p];
        assert Within(c[p], b[p]);
      }
    }
    forall u: nat, d | u < 27 && Places(c, Unit(u), d) != Places(a, Unit(u), d) ensures SinglePlaced(c, Unit(u), d) {
      if Places(c, Unit(u), d) == Places(b, Unit(u), d) {
        SinglePlacedKept(b, c, u, d);
      }
    }
  }

  /** A decided square stays decided, with the same digit, through a successful step. */
  lemma SingleKept(a: seq<string>, b: seq<string>, q: nat)
    requires Shrinks(a, b) && KeepsNonEmpty(a, b) && q < |a| && |a[q]| == 1
    ensures b[q] == a[q]
  {
    assert b[q][0] in a[q];
  }

  /** Facts about the map right after `v` is removed from `sq`. */
  lemma RemoveStep(m0: seq<string>, m1: seq<string>, sq: nat, v: char)
    requires WellFormed(m0) && sq < NR_SQUARES && v in m0[sq]
    requires m1 == m0[sq := RemoveFirst(m0[sq], v)]
    ensures WellFormed(m1) && Shrinks(m0, m1) && Total(m1) < Total(m0)
    ensures v !in m1[sq]
    ensures forall u: nat, d :: u < 27 && !(d == v && u in UnitIds(sq)) ==> Places(m1, Unit(u), d) == Places(m0, Unit(u), d)
    ensures forall s :: IsSolution(s) && Compatible(s, m0) && s[sq] != v ==> Compatible(s, m1)
  {
    var r := RemoveFirst(m0[sq], v);
    assert WellFormedCands(r) by {
      forall i | 0 <= i < |r| ensures IsCand(r[i]) {
        assert r[i] in m0[sq];
      }
    }
    ShrinksTotalStrict(m0, m1, sq);
    forall u: nat, d | u < 27 && !(d == v && u in UnitIds(sq))
      ensures Places(m1, Unit(u), d) == Places(m0, Unit(u), d)
    {
      RemoveKeepsPlaces(m0, m1, sq, v, u, d);
    }
  }

  /** Removing `v` from `sq` changes no places but those of `v` in the units of `sq`. */
  lemma RemoveKeepsPlaces(m0: seq<string>, m1: seq<string>, sq: nat, v: char, u: nat, d: char)
    requires WellFormed(m0) && sq < NR_SQUARES && u < 27 && !(d == v && u in UnitIds(sq))
    requires m1 == m0[sq := RemoveFirst(m0[sq], v)]
    ensures Places(m1, Unit(u), d) == Places(m0, Unit(u), d)
  {
    UnitShape(u);
    InUnit(u, sq);
    forall k | 0 <= k < |Unit(u)| ensures (d in m1[Unit(u)[k]] <==> d in m0[Unit(u)[k]]) {
      if Unit(u)[k] == sq {
        assert d != v;
      }
    }
    PlacesSame(m0, m1, Unit(u), d);
  }

  lemma {:induction false} PlacesSame(a: seq<string>, b: seq<string>, unit: seq<nat>, d: char)
    requires |a| == |b|
    requires forall k :: 0 <= k < |unit| && unit[k] < |a| ==> (d in b[unit[k]] <==> d in a[unit[k]])
    ensures Places(b, unit, d) == Places(a, unit, d)
  {
    if unit != [] {
      PlacesSame(a, b, unit[..|unit| - 1], d);
    }
  }

  /** Each place is a square of the unit holding `d`; a single place therefore is a square. */
  lemma {:induction false} PlacesShape(m: seq<string>, unit: seq<nat>, d: char)
    ensures forall k :: 0 <= k < |Places(m, unit, d)| ==> Places(m, unit, d)[k] in unit && Places(m, unit, d)[k] < |m| && d in m[Places(m, unit, d)[k]]
  {
    if unit != [] {
      PlacesShape(m, unit[..|unit| - 1], d);
    }
  }

  lemma PeersBound(s: nat)
    requires s < NR_SQUARES
    ensures forall k :: 0 <= k < |Peers(s)| ==> Peers(s)[k] < NR_SQUARES && Peers(s)[k] != s && SharesUnit(Peers(s)[k], s)
  {
    PeersMembers(s);
    forall k | 0 <= k < |Peers(s)| ensures Peers(s)[k] < NR_SQUARES && Peers(s)[k] != s && SharesUnit(Peers(s)[k], s) {
      assert Peers(s)[k] in Peers(s);
    }
  }

  /** A successful assignment keeps every place established earlier in the unit loop. */
  lemma PlacesStay(m0: seq<string>, before: seq<string>, m: seq<string>, sq: nat, v: char, ui: nat)
    requires sq < NR_SQUARES && ui < 3 && Progress(m0, before) && Progress(before, m)
    requires forall i :: 0 <= i < ui ==> Places(before, SquareUnits(sq)[i], v) != []
    requires Places(before, SquareUnits(sq)[ui], v) != []
    ensures Progress(m0, m)
    ensures forall i :: 0 <= i < ui + 1 ==> Places(m, SquareUnits(sq)[i], v) != []
  {
    ProgressTrans(m0, before, m);
    forall i | 0 <= i < ui + 1 ensures Places(m, SquareUnits(sq)[i], v) != [] {
      SquareUnitIds(sq, i);
    }
  }

  /** A solution the removal kept, the peer loop keeps too. */
  lemma DecidedCompatible(m0: seq<string>, m1: seq<string>, m2: seq<string>, sq: nat, v: char, ok: bool)
    requires sq < NR_SQUARES && |m1| == NR_SQUARES && |m1[sq]| == 1
    requires forall s :: IsSolution(s) && Compatible(s, m0) && s[sq] != v ==> Compatible(s, m1)
    requires forall s :: IsSolution(s) && Compatible(s, m1) && s[sq] == m1[sq][0] ==> ok && Compatible(s, m2)
    ensures forall s :: IsSolution(s) && Compatible(s, m0) && s[sq] != v ==> ok && Compatible(s, m2)
  {
    forall s | IsSolution(s) && Compatible(s, m0) && s[sq] != v ensures ok && Compatible(s, m2) {
      assert s[sq] in m1[sq];
    }
  }

  /** A removal that empties the square leaves no solution. */
  lemma EmptyIncompatible(m0: seq<string>, m1: seq<string>, sq: nat, v: char)
    requires sq < NR_SQUARES && |m1| == NR_SQUARES && m1[sq] == []
    requires forall s :: IsSolution(s) && Compatible(s, m0) && s[sq] != v ==> Compatible(s, m1)
    ensures forall s :: !(IsSolution(s) && Compatible(s, m0) && s[sq] != v)
  {
    forall s | |s| == NR_SQUARES ensures !Compatible(s, m1) {
      assert s[sq] !in m1[sq];
    }
  }

  /** A solution kept up to the unit loop is kept by it. */
  lemma CompatibleChain(m0: seq<string>, m2: seq<string>, m3: seq<string>, sq: nat, v: char, ok: bool)
    requires sq < NR_SQUARES
    requires forall s :: IsSolution(s) && Compatible(s, m0) && s[sq] != v ==> Compatible(s, m2)
    requires forall s :: IsSolution(s) && Compatible(s, m2) ==> ok && Compatible(s, m3)
    ensures forall s :: IsSolution(s) && Compatible(s, m0) && s[sq] != v ==> ok && Compatible(s, m3)
  {
  }

  /** The removal, the peer loop and the unit loop together make one successful step. */
  lemma EliminateSettled(m0: seq<string>, m1: seq<string>, m2: seq<string>, m3: seq<string>, sq: nat, v: char)
    requires |m0| == NR_SQUARES && sq < NR_SQUARES
    requires Shrinks(m0, m2) && KeepsNonEmpty(m0, m2) && Propagated(m0, m2) && PlacesKept(m1, m2) && Progress(m1, m2)
    requires forall u: nat, d :: u < 27 && !(d == v && u in UnitIds(sq)) ==> Places(m1, Unit(u), d) == Places(m0, Unit(u), d)
    requires Progress(m2, m3)
    requires forall i :: 0 <= i < 3 ==> Places(m3, SquareUnits(sq)[i], v) != []
    requires forall i :: 0 <= i < 3 ==> SinglePlaced(m3, SquareUnits(sq)[i], v)
    ensures Progress(m0, m3)
  {
    ShrinksTrans(m0, m2, m3);
    PropagatedTrans(m0, m2, m3);
    ProgressTrans(m1, m2, m3);
    forall u: nat, d | u < 27 && Places(m0, Unit(u), d) != [] ensures Places(m3, Unit(u), d) != [] {
      if d == v && u in UnitIds(sq) {
        var i :| 0 <= i < 3 && UnitIds(sq)[i] == u;
        SquareUnitIds(sq, i);
      }
    }
    forall u: nat, d | u < 27 && Places(m3, Unit(u), d) != Places(m0, Unit(u), d) ensures SinglePlaced(m3, Unit(u), d) {
      if d == v && u in UnitIds(sq) {
        var i :| 0 <= i < 3 && UnitIds(sq)[i] == u;
        SquareUnitIds(sq, i);
      }
    }
  }

  /** A step keeps a single place decided: either the place list changed and the step decided it, or it is the same and stays decided. */
  lemma SinglePlacedKept(a: seq<string>, b: seq<string>, u: nat, d: char)
    requires Progress(a, b) && u < 27 && SinglePlaced(a, Unit(u), d)
    ensures SinglePlaced(b, Unit(u), d)
  {
    if Places(b, Unit(u), d) == Places(a, Unit(u), d) && |Places(b, Unit(u), d)| == 1 {
      SingleKept(a, b, Places(a, Unit(u), d)[0]);
    }
  }

  /** The unit loop after assigning `v` to its only place `p` in unit `ui`: every unit so far keeps a place for `v`, and a single one is decided. */
  lemma UnitAssigned(m0: seq<string>, before: seq<string>, m: seq<string>, sq: nat, v: char, ui: nat, p: nat)
    requires sq < NR_SQUARES && ui < 3 && Progress(m0, before) && Progress(before, m)
    requires forall i :: 0 <= i < ui ==> Places(before, SquareUnits(sq)[i], v) != []
    requires forall i :: 0 <= i < ui ==> SinglePlaced(before, SquareUnits(sq)[i], v)
    requires Places(before, SquareUnits(sq)[ui], v) == [p] && p in SquareUnits(sq)[ui] && p < |m| && m[p] == [v]
    ensures Progress(m0, m)
    ensures forall i :: 0 <= i < ui + 1 ==> Places(m, SquareUnits(sq)[i], v) != []
    ensures forall i :: 0 <= i < ui + 1 ==> SinglePlaced(m, SquareUnits(sq)[i], v)
  {
    PlacesStay(m0, before, m, sq, v, ui);
    forall i | 0 <= i < ui ensures SinglePlaced(m, SquareUnits(sq)[i], v) {
      SquareUnitIds(sq, i);
      SinglePlacedKept(before, m, UnitIds(sq)[i], v);
    }
    AssignedPlace(m, SquareUnits(sq)[ui], p, v);
  }

  /** Once square `p` of `unit` is decided to `d`, a single place of `d` in that unit is `p`. */
  lemma AssignedPlace(m: seq<string>, unit: seq<nat>, p: nat, d: char)
    requires p in unit && p < |m| && m[p] == [d]
    ensures SinglePlaced(m, unit, d)
  {
    var k :| 0 <= k < |unit| && unit[k] == p;
    PlacesMember(m, unit, d, k);
  }

  /** Peers already handled in the peer loop keep the target digit out. */
  lemma PeersKeepAbsent(m0: seq<string>, m1: seq<string>, m: seq<string>, peers: seq<nat>, pi: nat, t: char)
    requires Progress(m0, m1) && Progress(m1, m) && pi < |peers| && forall k :: 0 <= k < |peers| ==> peers[k] < NR_SQUARES
    requires forall k :: 0 <= k < pi ==> t !in m1[peers[k]]
    requires t !in m[peers[pi]]
    ensures Progress(m0, m)
    ensures forall k :: 0 <= k < pi + 1 ==> t !in m[peers[k]]
  {
    ProgressTrans(m0, m1, m);
    forall k | 0 <= k < pi ensures t !in m[peers[k]] {
      assert Within(m[peers[k]], m1[peers[k]]);
    }
  }

  /** After a square is left with one candidate and its peers are cleared, the whole step propagated. */
  lemma SingleSettled(m0: seq<string>, m1: seq<string>, m2: seq<string>, sq: nat)
    requires WellFormed(m0) && sq < NR_SQUARES && Shrinks(m0, m1) && |m1[sq]| == 1 && m0[sq] != m1[sq]
    requires forall q :: 0 <= q < NR_SQUARES && q != sq ==> m1[q] == m0[q]
    requires Progress(m1, m2)
    requires forall p :: 0 <= p < NR_SQUARES && p != sq && SharesUnit(p, sq) ==> m1[sq][0] !in m2[p]
    ensures Shrinks(m0, m2) && KeepsNonEmpty(m0, m2) && Propagated(m0, m2) && PlacesKept(m1, m2)
  {
    ShrinksTrans(m0, m1, m2);
    SingleKept(m1, m2, sq);
  }

  /** A solution never repeats a square's digit at one of its peers. */
  lemma PeerDiffers(sq: nat, p: nat)
    requires sq < NR_SQUARES && p < NR_SQUARES && p != sq && SharesUnit(p, sq)
    ensures forall s :: IsSolution(s) ==> s[p] != s[sq]
  {
  }

  /** Clearing every listed peer clears every square that shares a unit with `sq`. */
  lemma PeersCleared(m: seq<string>, sq: nat, t: char)
    requires |m| == NR_SQUARES && sq < NR_SQUARES
    requires forall k :: 0 <= k < |Peers(sq)| ==> Peers(sq)[k] < NR_SQUARES && t !in m[Peers(sq)[k]]
    ensures forall p :: 0 <= p < NR_SQUARES && p != sq && SharesUnit(p, sq) ==> t !in m[p]
  {
    PeersMembers(sq);
    forall p | 0 <= p < NR_SQUARES && p != sq && SharesUnit(p, sq) ensures t !in m[p] {
      assert p in Peers(sq);
      var k :| 0 <= k < |Peers(sq)| && Peers(sq)[k] == p;
    }
  }

  /** A removal that leaves two or more candidates decides nothing. */
  lemma SeveralSettled(m0: seq<string>, m1: seq<string>, sq: nat)
    requires |m0| == NR_SQUARES && sq < NR_SQUARES && Shrinks(m0, m1) && |m1[sq]| > 1
    requires forall q :: 0 <= q < NR_SQUARES && q != sq ==> m1[q] == m0[q]
    ensures KeepsNonEmpty(m0, m1) && Propagated(m0, m1)
  {
  }

  lemma SquareUnitIds(s: nat, i: nat)
    requires s < NR_SQUARES && i < 3
    ensures |SquareUnits(s)| == 3 && UnitIds(s)[i] < 27 && SquareUnits(s)[i] == Unit(UnitIds(s)[i])
  {
    Decompose(s);
    BoxBound(s);
  }

  lemma PropagatedTrans(a: seq<string>, b: seq<string>, c: seq<string>)
    requires |a| == NR_SQUARES && Shrinks(a, b) && Shrinks(b, c) && Propagated(a, b) && Propagated(b, c)
    ensures Propagated(a, c)
  {
    forall q, p | 0 <= q < NR_SQUARES && 0 <= p < NR_SQUARES && p != q && SharesUnit(p, q) && |c[q]| == 1 && c[q] != a[q]
      ensures c[q][0] !in c[p]
    {
      if c[q] == b[q] {
        assert b[q][0] !in b[p];
        assert Within(c[p], b[p]);
      }
    }
  }

  /** One successful elimination of the loop of `_assign` keeps the loop's invariant. */
  lemma AssignStep(m0: seq<string>, before: seq<string>, after: seq<string>, sq: nat, v: char, otherVals: string, ovi: nat)
    requires WellFormed(m0) && sq < NR_SQUARES && otherVals == RemoveFirst(m0[sq], v) && ovi < |otherVals|
    requires Progress(m0, before) && Progress(before, after)
    requires forall k :: 0 <= k < ovi ==> otherVals[k] !in before[sq]
    requires otherVals[ovi] !in after[sq]
    requires forall s :: IsSolution(s) && Compatible(s, m0) && s[sq] == v ==> Compatible(s, before)
    requires forall s :: IsSolution(s) && Compatible(s, before) && s[sq] != otherVals[ovi] ==> Compatible(s, after)
    ensures Progress(m0, after)
    ensures forall k :: 0 <= k < ovi + 1 ==> otherVals[k] !in after[sq]
    ensures forall s :: IsSolution(s) && Compatible(s, m0) && s[sq] == v ==> Compatible(s, after)
  {
    ProgressTrans(m0, before, after);
    assert Within(after[sq], before[sq]);
    assert v !in otherVals;
  }

  /** Once every other candidate is eliminated, the square holds exactly `v`. */
  lemma AssignSettled(m0: seq<string>, m: seq<string>, sq: nat, v: char, otherVals: string)
    requires WellFormed(m0) && sq < NR_SQUARES && Progress(m0, m) && WellFormed(m)
    requires otherVals == RemoveFirst(m0[sq], v)
    requires forall k :: 0 <= k < |otherVals| ==> otherVals[k] !in m[sq]
    ensures m0[sq] != [] ==> v in m0[sq] && m[sq] == [v]
  {
    if m0[sq] != [] {
      assert m[sq] != [];
      assert Within(m[sq], m0[sq]);
      forall i | 0 <= i < |m[sq]| ensures m[sq][i] == v {
        var c := m[sq][i];
        assert c in m0[sq];
        assert c != v ==> c in otherVals;
      }
      Singleton(m[sq], v);
      assert m[sq] == [v];
    }
  }

  /** A duplicate-free string all of whose characters are `v` is `[v]`. */
  lemma Singleton(s: string, v: char)
    requires NoDup(s) && s != [] && forall i :: 0 <= i < |s| ==> s[i] == v
    ensures s == [v]
  {
    CountAtMostOne(s, v);
    CountAll(s, v);
  }

  lemma {:induction false} CountAll(s: string, v: char)
    requires forall i :: 0 <= i < |s| ==> s[i] == v
    ensures multiset(s)[v] == |s|
  {
    if s != [] {
      assert s == [s[0]] + s[1..];
      CountAll(s[1..], v);
    }
  }

  /**
   * In a map that still allows solution `s`, digit `d` has a place in every
   * unit, and a single place is where `s` puts `d`.
   */
  lemma SolutionPlaces(m: seq<string>, u: nat, d: char)
    requires |m| == NR_SQUARES && u < 27 && IsCand(d)
    ensures forall s :: IsSolution(s) && Compatible(s, m) ==> SolutionPlaced(m, Unit(u), d, s)
  {
    forall s | IsSolution(s) && Compatible(s, m) ensures SolutionPlaced(m, Unit(u), d, s) {
      SolutionPlace(m, u, d, s);
    }
  }

  /** `d` has a place in `unit`, and if only one, `s` puts `d` there. */
  predicate SolutionPlaced(m: seq<string>, unit: seq<nat>, d: char, s: seq<char>)
  {
    var places := Places(m, unit, d);
    places != [] && (|places| == 1 ==> places[0] < |s| && s[places[0]] == d)
  }

  lemma SolutionPlace(m: seq<string>, u: nat, d: char, s: seq<char>)
    requires |m| == NR_SQUARES && u < 27 && IsCand(d) && IsSolution(s) && Compatible(s, m)
    ensures SolutionPlaced(m, Unit(u), d, s)
  {
    var k := DigitInUnit(s, u, d);
    UnitShape(u);
    PlacesMember(m, Unit(u), d, k);
    PlacesShape(m, Unit(u), d);
  }

  /** A square of the unit that allows `d` appears among the places of `d`. */
  lemma {:induction false} PlacesMember(m: seq<string>, unit: seq<nat>, d: char, k: nat)
    requires k < |unit| && unit[k] < |m| && d in m[unit[k]]
    ensures unit[k] in Places(m, unit, d)
  {
    if k < |unit| - 1 {
      PlacesMember(m, unit[..|unit| - 1], d, k);
    }
  }

  // ---------------------------------------------------------------------------
  // What the relations give the solver
  // ---------------------------------------------------------------------------

  /** The starting map is well formed, consistent and allows every solution. */
  lemma FullMapFacts()
    ensures WellFormed(FullMap()) && Consistent(FullMap())
    ensures forall q :: 0 <= q < NR_SQUARES ==> FullMap()[q] != []
    ensures forall s :: IsSolution(s) ==> Compatible(s, FullMap())
  {
    assert WellFormedCands(DIGITS);
    forall s | IsSolution(s) ensures Compatible(s, FullMap()) {
      forall q | 0 <= q < NR_SQUARES ensures s[q] in FullMap()[q] {
        CandInDigits(s[q]);
      }
    }
  }

  /** A successful step never breaks consistency. */
  lemma ConsistentKept(a: seq<string>, b: seq<string>)
    requires Progress(a, b) && Consistent(a)
    ensures Consistent(b)
  {
    forall q, p | 0 <= q < NR_SQUARES && 0 <= p < NR_SQUARES && p != q && SharesUnit(p, q) && |b[q]| == 1
      ensures b[q][0] !in b[p]
    {
      if b[q] == a[q] {
        assert a[q][0] !in a[p];
        assert Within(b[p], a[p]);
      }
    }
  }

  /** Every square is down to exactly one candidate. */
  predicate Decided(m: seq<string>)
  {
    forall q :: 0 <= q < |m| ==> |m[q]| == 1
  }

  /** The digits of a decided map, square by square. */
  function DecidedDigits(m: seq<string>): (s: seq<char>)
    requires Decided(m)
    ensures |s| == |m| && forall q :: 0 <= q < |m| ==> s[q] == m[q][0]
  {
    seq(|m|, q requires 0 <= q < |m| => m[q][0])
  }

  /** A decided, consistent map spells a solution, and the only one it allows. */
  lemma DecidedSolution(m: seq<string>)
    requires WellFormed(m) && Decided(m) && Consistent(m)
    ensures IsSolution(DecidedDigits(m)) && Compatible(DecidedDigits(m), m)
    ensures forall s :: Compatible(s, m) ==> s == DecidedDigits(m)
  {
    var d := DecidedDigits(m);
    forall p, q | 0 <= p < NR_SQUARES && 0 <= q < NR_SQUARES && p != q && SharesUnit(p, q) ensures d[p] != d[q] {
      assert m[q][0] !in m[p];
    }
    forall s | Compatible(s, m) ensures s == d {
      forall q | 0 <= q < NR_SQUARES ensures s[q] == d[q] {
        assert s[q] in m[q];
      }
    }
  }
}
