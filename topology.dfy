/**
 * The fixed structure of a 9x9 board, built once when the library loads:
 * the 81 squares, the 27 units (9 rows, then 9 columns, then 9 boxes), the
 * three units of each square and its 20 peers.
 *
 * A square is identified by its row-major index 0..80: row `r` (label letter
 * ROWS[r]) and column `c` (label digit COLS[c]) give index 9 * r + c, and
 * `Label` renders the two-character ID such as "A1".
 */
module Topology {
  import opened Base

  const ROWS: string := "ABCDEFGHI"
  const COLS: string := "123456789"
  const NR_SQUARES: nat := 81

  function Square(r: nat, c: nat): nat { 9 * r + c }
  function Row(s: nat): nat { s / 9 }
  function Col(s: nat): nat { s % 9 }
  function Box(s: nat): nat { 3 * (Row(s) / 3) + Col(s) / 3 }

  /** The square ID the library uses as a map key: row letter then column digit. */
  function Label(s: nat): string
    requires s < NR_SQUARES
  {
    Decompose(s);
    [ROWS[Row(s)], COLS[Col(s)]]
  }

  function Range(n: nat): seq<nat> { seq(n, i requires 0 <= i => i as nat) }

  /** Unit `u` as a list of squares: rows 0..8, columns 9..17, boxes 18..26. */
  function Unit(u: nat): seq<nat>
    requires u < 27
  {
    if u < 9 then seq(9, k requires 0 <= k < 9 => Square(u, k))
    else if u < 18 then seq(9, k requires 0 <= k < 9 => Square(k, u - 9))
    else seq(9, k requires 0 <= k < 9 => Square(3 * ((u - 18) / 3) + k / 3, 3 * ((u - 18) % 3) + k % 3))
  }

  /** All units in the order the library builds them. */
  function AllUnits(): seq<seq<nat>>
  {
    seq(27, u requires 0 <= u < 27 => Unit(u))
  }

  /** The three units that contain square `s`: its row, its column, its box. */
  function SquareUnits(s: nat): seq<seq<nat>>
    requires s < NR_SQUARES
  {
    Decompose(s);
    BoxBound(s);
    [Unit(Row(s)), Unit(9 + Col(s)), Unit(18 + Box(s))]
  }

  /** Concatenation of a list of lists. */
  function Flatten(us: seq<seq<nat>>): seq<nat>
  {
    if us == [] then [] else Flatten(us[..|us| - 1]) + us[|us| - 1]
  }

  /** Row `i` of the product holds row `rs[i]` combined with each column of `cs`. */
  function ProductRows(rs: seq<nat>, cs: seq<nat>): seq<seq<nat>>
  {
    seq(|rs|, i requires 0 <= i < |rs| => seq(|cs|, j requires 0 <= j < |cs| => Square(rs[i], cs[j])))
  }

  /**
   * Walks `xs` left to right and keeps each element that differs from `s`
   * and has not been kept before: the peer-list construction.
   */
  function Collect(xs: seq<nat>, s: nat): seq<nat>
  {
    if xs == [] then []
    else
      var kept := Collect(xs[..|xs| - 1], s);
      var x := xs[|xs| - 1];
      if x != s && x !in kept then kept + [x] else kept
  }

  /** The units of `units` that contain square `x`, in their original order. */
  function UnitsContaining(units: seq<seq<nat>>, x: nat): seq<seq<nat>>
  {
    if units == [] then []
    else
      var before := UnitsContaining(units[..|units| - 1], x);
      var u := units[|units| - 1];
      if x in u then before + [u] else before
  }

  /** The peers of `s`: every other square of its units, each once, in unit order. */
  function Peers(s: nat): seq<nat>
    requires s < NR_SQUARES
  {
    Collect(Flatten(SquareUnits(s)), s)
  }

  /** Two squares are peers when they are different and share a row, column or box. */
  predicate SharesUnit(x: nat, s: nat)
  {
    Row(x) == Row(s) || Col(x) == Col(s) || Box(x) == Box(s)
  }

  // ---------------------------------------------------------------------------
  // Construction, as `initialize` runs it.
  // ---------------------------------------------------------------------------

  /** `_cross`: every combination of a row and a column, row by row. */
  method Cross(rs: seq<nat>, cs: seq<nat>) returns (r: seq<nat>)
    ensures r == Flatten(ProductRows(rs, cs))
  {
    r := [];
    for i := 0 to |rs|
      invariant r == Flatten(ProductRows(rs[..i], cs))
    {
      ghost var before := r;
      for j := 0 to |cs|
        invariant r == before + ProductRows(rs, cs)[i][..j]
      {
        r := r + [Square(rs[i], cs[j])];
      }
      assert ProductRows(rs[..i + 1], cs) == ProductRows(rs[..i], cs) + [ProductRows(rs, cs)[i]];
    }
    assert rs[..|rs|] == rs;
  }

  /** `_get_all_units`: the rows, then the columns, then the boxes. */
  method GetAllUnits(rows: seq<nat>, cols: seq<nat>) returns (units: seq<seq<nat>>)
    ensures |units| == |rows| + |cols| + 9
    ensures rows == Range(9) && cols == Range(9) ==> units == AllUnits()
  {
    ghost var std := rows == Range(9) && cols == Range(9);
    units := [];
    for ri := 0 to |rows|
      invariant |units| == ri
      invariant std ==> forall k :: 0 <= k < ri ==> units[k] == Unit(k)
    {
      var unit := Cross([rows[ri]], cols);
      if std {
        RowUnitIsCross(rows, cols, ri, unit);
        ExtendUnits(units, unit, ri);
      }
      units := units + [unit];
    }
    for ci := 0 to |cols|
      invariant |units| == |rows| + ci
      invariant std ==> forall k :: 0 <= k < 9 + ci ==> units[k] == Unit(k)
    {
      var unit := Cross(rows, [cols[ci]]);
      if std {
        ColUnitIsCross(rows, cols, ci, unit);
        ExtendUnits(units, unit, 9 + ci);
      }
      units := units + [unit];
    }
    var rowSquares: seq<seq<nat>> := [[0, 1, 2], [3, 4, 5], [6, 7, 8]];
    var colSquares: seq<seq<nat>> := [[0, 1, 2], [3, 4, 5], [6, 7, 8]];
    for rsi := 0 to 3
      invariant |units| == |rows| + |cols| + 3 * rsi
      invariant std ==> forall k :: 0 <= k < 18 + 3 * rsi ==> units[k] == Unit(k)
    {
      for csi := 0 to 3
        invariant |units| == |rows| + |cols| + 3 * rsi + csi
        invariant std ==> forall k :: 0 <= k < 18 + 3 * rsi + csi ==> units[k] == Unit(k)
      {
        var unit := Cross(rowSquares[rsi], colSquares[csi]);
        if std {
          BoxUnitIsCross(rowSquares, colSquares, rsi, csi, unit);
          ExtendUnits(units, unit, 18 + 3 * rsi + csi);
        }
        units := units + [unit];
      }
    }
    if std {
      assert units == AllUnits();
    }
  }

  lemma ExtendUnits(units: seq<seq<nat>>, unit: seq<nat>, n: nat)
    requires n < 27 && |units| == n && unit == Unit(n)
    requires forall k :: 0 <= k < n ==> units[k] == Unit(k)
    ensures forall k :: 0 <= k < n + 1 ==> (units + [unit])[k] == Unit(k)
  {
  }

  lemma RowUnitIsCross(rows: seq<nat>, cols: seq<nat>, r: nat, unit: seq<nat>)
    requires rows == Range(9) && cols == Range(9) && r < 9
    requires unit == Flatten(ProductRows([rows[r]], cols))
    ensures unit == Unit(r)
  {
    assert [rows[r]] == [r];
    ProductIndex([r], Range(9), 0, 0);
    forall k | 0 <= k < 9 ensures Flatten(ProductRows([r], Range(9)))[k] == Unit(r)[k] {
      ProductIndex([r], Range(9), 0, k);
    }
  }

  lemma ColUnitIsCross(rows: seq<nat>, cols: seq<nat>, c: nat, unit: seq<nat>)
    requires rows == Range(9) && cols == Range(9) && c < 9
    requires unit == Flatten(ProductRows(rows, [cols[c]]))
    ensures unit == Unit(9 + c)
  {
    assert [cols[c]] == [c];
    ProductIndex(Range(9), [c], 0, 0);
    forall k | 0 <= k < 9 ensures Flatten(ProductRows(Range(9), [c]))[k] == Unit(9 + c)[k] {
      ProductIndex(Range(9), [c], k, 0);
    }
  }

  lemma BoxUnitIsCross(rowSquares: seq<seq<nat>>, colSquares: seq<seq<nat>>, rsi: nat, csi: nat, unit: seq<nat>)
    requires rowSquares == [[0, 1, 2], [3, 4, 5], [6, 7, 8]] && colSquares == rowSquares
    requires rsi < 3 && csi < 3
    requires unit == Flatten(ProductRows(rowSquares[rsi], colSquares[csi]))
    ensures unit == Unit(18 + 3 * rsi + csi)
  {
    var rs: seq<nat> := [3 * rsi, 3 * rsi + 1, 3 * rsi + 2];
    var cs: seq<nat> := [3 * csi, 3 * csi + 1, 3 * csi + 2];
    assert rowSquares[rsi] == rs by {
      if rsi == 0 {} else if rsi == 1 {} else {}
    }
    assert colSquares[csi] == cs by {
      if csi == 0 {} else if csi == 1 {} else {}
    }
    ProductIndex(rs, cs, 0, 0);
    forall k | 0 <= k < 9 ensures Flatten(ProductRows(rs, cs))[k] == Unit(18 + 3 * rsi + csi)[k] {
      Split3(k);
      BoxEntry(rsi, csi, k / 3, k % 3);
    }
  }

  lemma BoxEntry(rsi: nat, csi: nat, i: nat, j: nat)
    requires rsi < 3 && csi < 3 && i < 3 && j < 3
    ensures |Flatten(ProductRows([3 * rsi, 3 * rsi + 1, 3 * rsi + 2], [3 * csi, 3 * csi + 1, 3 * csi + 2]))| == 9
    ensures Flatten(ProductRows([3 * rsi, 3 * rsi + 1, 3 * rsi + 2], [3 * csi, 3 * csi + 1, 3 * csi + 2]))[3 * i + j]
         == Unit(18 + 3 * rsi + csi)[3 * i + j]
  {
    var rs: seq<nat> := [3 * rsi, 3 * rsi + 1, 3 * rsi + 2];
    var cs: seq<nat> := [3 * csi, 3 * csi + 1, 3 * csi + 2];
    ProductIndex(rs, cs, i, j);
    assert i * |cs| + j == 3 * i + j;
    assert rs[i] == 3 * rsi + i && cs[j] == 3 * csi + j;
    BoxUnitAt(rsi, csi, i, j);
  }

  lemma BoxUnitAt(rsi: nat, csi: nat, i: nat, j: nat)
    requires rsi < 3 && csi < 3 && i < 3 && j < 3
    ensures Unit(18 + 3 * rsi + csi)[3 * i + j] == Square(3 * rsi + i, 3 * csi + j)
  {
    var b := 3 * rsi + csi;
    Div3(rsi, csi);
    Div3(i, j);
    assert Unit(18 + b)[3 * i + j] == Square(3 * (b / 3) + (3 * i + j) / 3, 3 * (b % 3) + (3 * i + j) % 3);
  }

  /** `_get_square_units_map`: for each square, the units that contain it. */
  method GetSquareUnitsMap(squares: seq<nat>, units: seq<seq<nat>>) returns (m: seq<seq<seq<nat>>>)
    ensures |m| == |squares|
    ensures forall i :: 0 <= i < |squares| ==> m[i] == UnitsContaining(units, squares[i])
  {
    m := [];
    for si := 0 to |squares|
      invariant |m| == si
      invariant forall i :: 0 <= i < si ==> m[i] == UnitsContaining(units, squares[i])
    {
      var curSquare := squares[si];
      var curSquareUnits := [];
      for ui := 0 to |units|
        invariant curSquareUnits == UnitsContaining(units[..ui], curSquare)
      {
        assert units[..ui + 1][..ui] == units[..ui];
        if curSquare in units[ui] {
          curSquareUnits := curSquareUnits + [units[ui]];
        }
      }
      assert units[..|units|] == units;
      m := m + [curSquareUnits];
    }
  }

  /** `_get_square_peers_map`: for each square, the other squares of its units, without repeats. */
  method GetSquarePeersMap(squares: seq<nat>, unitsMap: seq<seq<seq<nat>>>) returns (m: seq<seq<nat>>)
    requires |unitsMap| == |squares|
    ensures |m| == |squares|
    ensures forall i :: 0 <= i < |squares| ==> m[i] == Collect(Flatten(unitsMap[i]), squares[i])
  {
    m := [];
    for si := 0 to |squares|
      invariant |m| == si
      invariant forall i :: 0 <= i < si ==> m[i] == Collect(Flatten(unitsMap[i]), squares[i])
    {
      var curSquare := squares[si];
      var curSquareUnits := unitsMap[si];
      var curSquarePeers := [];
      for sui := 0 to |curSquareUnits|
        invariant curSquarePeers == Collect(Flatten(curSquareUnits[..sui]), curSquare)
      {
        var curUnit := curSquareUnits[sui];
        assert curSquareUnits[..sui + 1][..sui] == curSquareUnits[..sui];
        ghost var done := Flatten(curSquareUnits[..sui]);
        assert done + curUnit[..0] == done;
        for ui := 0 to |curUnit|
          invariant curSquarePeers == Collect(done + curUnit[..ui], curSquare)
        {
          var curUnitSquare := curUnit[ui];
          assert (done + curUnit[..ui + 1])[..|done| + ui] == done + curUnit[..ui];
          if curUnitSquare !in curSquarePeers && curUnitSquare != curSquare {
            curSquarePeers := curSquarePeers + [curUnitSquare];
          }
        }
        assert curUnit[..|curUnit|] == curUnit;
        assert Flatten(curSquareUnits[..sui + 1]) == done + curUnit;
      }
      assert curSquareUnits[..|curSquareUnits|] == curSquareUnits;
      m := m + [curSquarePeers];
    }
  }

  /** Crossing the row and column indices lists the squares in index order. */
  lemma SquaresInOrder()
    ensures Flatten(ProductRows(Range(9), Range(9))) == Range(NR_SQUARES)
  {
    var squares := Flatten(ProductRows(Range(9), Range(9)));
    ProductIndex(Range(9), Range(9), 0, 0);
    forall s | 0 <= s < NR_SQUARES ensures squares[s] == s {
      Decompose(s);
      ProductIndex(Range(9), Range(9), Row(s), Col(s));
    }
  }

  /** `initialize`: the square list and the three lookup tables every solve shares. */
  method Initialize() returns (squares: seq<nat>, units: seq<seq<nat>>,
                               unitsMap: seq<seq<seq<nat>>>, peersMap: seq<seq<nat>>)
    ensures squares == Range(NR_SQUARES)
    ensures units == AllUnits()
    ensures |unitsMap| == NR_SQUARES && forall s :: 0 <= s < NR_SQUARES ==> unitsMap[s] == SquareUnits(s)
    ensures |peersMap| == NR_SQUARES && forall s :: 0 <= s < NR_SQUARES ==> peersMap[s] == Peers(s)
  {
    squares := Cross(Range(9), Range(9));
    SquaresInOrder();
    units := GetAllUnits(Range(9), Range(9));
    unitsMap := GetSquareUnitsMap(squares, units);
    forall s | 0 <= s < NR_SQUARES ensures unitsMap[s] == SquareUnits(s) {
      UnitsOfSquare(s);
    }
    peersMap := GetSquarePeersMap(squares, unitsMap);
  }

  // ---------------------------------------------------------------------------
  // Arithmetic on coordinates.
  // ---------------------------------------------------------------------------

  lemma Div9(q: nat, r: nat)
    requires r < 9
    ensures (9 * q + r) / 9 == q && (9 * q + r) % 9 == r
  {
  }

  lemma Div3(q: nat, r: nat)
    requires r < 3
    ensures (3 * q + r) / 3 == q && (3 * q + r) % 3 == r
  {
  }

  lemma Split3(n: nat)
    ensures n == 3 * (n / 3) + n % 3 && n % 3 < 3
  {
  }

  lemma MulStep(n: nat, m: nat)
    ensures (n + 1) * m == n * m + m
  {
  }

  lemma {:induction false} FlattenIndex(rows: seq<seq<nat>>, n: nat, i: nat, j: nat)
    requires forall k :: 0 <= k < |rows| ==> |rows[k]| == n
    requires i < |rows| && j < n
    ensures |Flatten(rows)| == |rows| * n
    ensures i * n + j < |Flatten(rows)| && Flatten(rows)[i * n + j] == rows[i][j]
  {
    var init := rows[..|rows| - 1];
    MulStep(|init|, n);
    if i < |init| {
      FlattenIndex(init, n, i, j);
    } else if init != [] {
      FlattenIndex(init, n, 0, 0);
    }
  }

  /** The product has |rs| * |cs| squares, and position i * |cs| + j holds row rs[i], column cs[j]. */
  lemma ProductIndex(rs: seq<nat>, cs: seq<nat>, i: nat, j: nat)
    requires i < |rs| && j < |cs|
    ensures |Flatten(ProductRows(rs, cs))| == |rs| * |cs|
    ensures i * |cs| + j < |Flatten(ProductRows(rs, cs))|
    ensures Flatten(ProductRows(rs, cs))[i * |cs| + j] == Square(rs[i], cs[j])
  {
    FlattenIndex(ProductRows(rs, cs), |cs|, i, j);
  }

  lemma Coords(r: nat, c: nat)
    requires r < 9 && c < 9
    ensures Square(r, c) < NR_SQUARES && Row(Square(r, c)) == r && Col(Square(r, c)) == c
  {
    Div9(r, c);
  }

  lemma Decompose(x: nat)
    requires x < NR_SQUARES
    ensures Row(x) < 9 && Col(x) < 9 && x == Square(Row(x), Col(x))
  {
  }

  lemma BoxBound(x: nat)
    requires x < NR_SQUARES
    ensures Box(x) < 9
  {
    Decompose(x);
  }

  lemma BoxCell(b: nat, k: nat)
    requires b < 9 && k < 9
    ensures Unit(18 + b)[k] < NR_SQUARES
    ensures Row(Unit(18 + b)[k]) == 3 * (b / 3) + k / 3 && Col(Unit(18 + b)[k]) == 3 * (b % 3) + k % 3
    ensures Box(Unit(18 + b)[k]) == b
  {
    var r, c := 3 * (b / 3) + k / 3, 3 * (b % 3) + k % 3;
    CellDigits(b, k);
    assert Unit(18 + b)[k] == Square(r, c);
    Coords(r, c);
  }

  /** Row and column of position `k` in box `b` lie on the board and fall in box `b`. */
  lemma CellDigits(b: nat, k: nat)
    requires b < 9 && k < 9
    ensures 3 * (b / 3) + k / 3 < 9 && 3 * (b % 3) + k % 3 < 9
    ensures 3 * ((3 * (b / 3) + k / 3) / 3) + (3 * (b % 3) + k % 3) / 3 == b
  {
    Split3(b);
    Split3(k);
    Div3(b / 3, k / 3);
    Div3(b % 3, k % 3);
  }

  // ---------------------------------------------------------------------------
  // Units.
  // ---------------------------------------------------------------------------

  lemma InUnitForward(u: nat, x: nat)
    requires u < 27 && x in Unit(u)
    ensures x < NR_SQUARES && (u == Row(x) || u == 9 + Col(x) || u == 18 + Box(x))
  {
    var k :| 0 <= k < 9 && Unit(u)[k] == x;
    if u < 9 {
      Coords(u, k);
    } else if u < 18 {
      Coords(k, u - 9);
    } else {
      BoxCell(u - 18, k);
    }
  }

  /** Square `x` sits at position 3 * (row mod 3) + (column mod 3) of its box. */
  lemma BoxPosition(x: nat)
    requires x < NR_SQUARES
    ensures Box(x) < 9 && Unit(18 + Box(x))[3 * (Row(x) % 3) + Col(x) % 3] == x
  {
    Decompose(x);
    var r, c := Row(x), Col(x);
    var b, k := Box(x), 3 * (r % 3) + c % 3;
    BoxDigits(r, c);
    BoxCell(b, k);
    Decompose(Unit(18 + b)[k]);
  }

  /** Box number and box position of row `r`, column `c` give back the row and column. */
  lemma BoxDigits(r: nat, c: nat)
    requires r < 9 && c < 9
    ensures 3 * (r / 3) + c / 3 < 9 && 3 * (r % 3) + c % 3 < 9
    ensures 3 * ((3 * (r / 3) + c / 3) / 3) + (3 * (r % 3) + c % 3) / 3 == r
    ensures 3 * ((3 * (r / 3) + c / 3) % 3) + (3 * (r % 3) + c % 3) % 3 == c
  {
    Split3(r);
    Split3(c);
    Div3(r / 3, c / 3);
    Div3(r % 3, c % 3);
  }

  lemma InUnitBackward(u: nat, x: nat)
    requires u < 27 && x < NR_SQUARES && (u == Row(x) || u == 9 + Col(x) || u == 18 + Box(x))
    ensures x in Unit(u)
  {
    Decompose(x);
    if u < 9 {
      assert Unit(u)[Col(x)] == x;
    } else if u < 18 {
      assert Unit(u)[Row(x)] == x;
    } else {
      BoxPosition(x);
    }
  }

  /** Square `x` lies in unit `u` exactly when `u` is x's row, column or box. */
  lemma InUnit(u: nat, x: nat)
    requires u < 27
    ensures x in Unit(u) <==> x < NR_SQUARES && (u == Row(x) || u == 9 + Col(x) || u == 18 + Box(x))
  {
    if x in Unit(u) {
      InUnitForward(u, x);
    }
    if x < NR_SQUARES && (u == Row(x) || u == 9 + Col(x) || u == 18 + Box(x)) {
      InUnitBackward(u, x);
    }
  }

  /** Every unit holds 9 distinct squares; the first 9 are rows, the next 9 columns, the last 9 boxes. */
  lemma UnitShape(u: nat)
    requires u < 27
    ensures |Unit(u)| == 9 && NoDup(Unit(u))
    ensures forall k :: 0 <= k < 9 ==> Unit(u)[k] < NR_SQUARES
    ensures u < 9 ==> forall k :: 0 <= k < 9 ==> Row(Unit(u)[k]) == u
    ensures 9 <= u < 18 ==> forall k :: 0 <= k < 9 ==> Col(Unit(u)[k]) == u - 9
    ensures 18 <= u ==> forall k :: 0 <= k < 9 ==> Box(Unit(u)[k]) == u - 18
  {
    forall k | 0 <= k < 9
      ensures Unit(u)[k] < NR_SQUARES
      ensures u < 9 ==> Row(Unit(u)[k]) == u && Col(Unit(u)[k]) == k
      ensures 9 <= u < 18 ==> Col(Unit(u)[k]) == u - 9 && Row(Unit(u)[k]) == k
      ensures 18 <= u ==> Box(Unit(u)[k]) == u - 18
    {
      if u < 9 {
        Coords(u, k);
      } else if u < 18 {
        Coords(k, u - 9);
      } else {
        BoxCell(u - 18, k);
      }
    }
    forall i, j | 0 <= i < j < 9 ensures Unit(u)[i] != Unit(u)[j] {
      if 18 <= u {
        BoxCell(u - 18, i);
        BoxCell(u - 18, j);
        Split3(i);
        Split3(j);
      }
    }
  }

  /** The 81 square IDs are pairwise distinct, and `Label(Square(r, c))` is row letter then column digit. */
  lemma LabelChars(i: nat)
    requires i < 9
    ensures ROWS[i] as int == 'A' as int + i && COLS[i] as int == '1' as int + i
  {
    if i < 3 {
      if i == 0 {} else if i == 1 {} else {}
    } else if i < 6 {
      if i == 3 {} else if i == 4 {} else {}
    } else {
      if i == 6 {} else if i == 7 {} else {}
    }
  }

  lemma LabelInjective(s: nat, t: nat)
    requires s < NR_SQUARES && t < NR_SQUARES
    ensures Label(s) == Label(t) ==> s == t
    ensures Label(s) == [ROWS[Row(s)], COLS[Col(s)]]
  {
    Decompose(s);
    Decompose(t);
    LabelChars(Row(s));
    LabelChars(Row(t));
    LabelChars(Col(s));
    LabelChars(Col(t));
    if Label(s) == Label(t) {
      assert ROWS[Row(s)] == ROWS[Row(t)];
      assert COLS[Col(s)] == COLS[Col(t)];
    }
  }

  lemma UnitsContainingAppend(units: seq<seq<nat>>, u: seq<nat>, x: nat)
    ensures UnitsContaining(units + [u], x) == UnitsContaining(units, x) + (if x in u then [u] else [])
  {
    assert (units + [u])[..|units|] == units;
  }

  /** The units of `s` found by scanning all units are its row, column and box, in that order. */
  lemma UnitsOfSquare(s: nat)
    requires s < NR_SQUARES
    ensures UnitsContaining(AllUnits(), s) == SquareUnits(s)
  {
    for n := 0 to 27
      invariant UnitsContaining(AllUnits()[..n], s) == UnitsBefore(s, n)
    {
      UnitsScanStep(s, n);
    }
    assert AllUnits()[..27] == AllUnits();
    Decompose(s);
    BoxBound(s);
  }

  /** The units of `s` among the first `n` units. */
  function UnitsBefore(s: nat, n: nat): seq<seq<nat>>
    requires n <= 27
  {
    (if Row(s) < n then [Unit(Row(s))] else []) +
    (if 9 + Col(s) < n then [Unit(9 + Col(s))] else []) +
    (if 18 + Box(s) < n then [Unit(18 + Box(s))] else [])
  }

  lemma UnitsScanStep(s: nat, n: nat)
    requires s < NR_SQUARES && n < 27
    requires UnitsContaining(AllUnits()[..n], s) == UnitsBefore(s, n)
    ensures UnitsContaining(AllUnits()[..n + 1], s) == UnitsBefore(s, n + 1)
  {
    assert AllUnits()[..n + 1] == AllUnits()[..n] + [Unit(n)];
    UnitsContainingAppend(AllUnits()[..n], Unit(n), s);
    UnitsBeforeStep(s, n);
  }

  /** Passing unit `n` adds it exactly when it is the row, column or box of `s`. */
  lemma UnitsBeforeStep(s: nat, n: nat)
    requires s < NR_SQUARES && n < 27
    ensures UnitsBefore(s, n + 1) == UnitsBefore(s, n) + (if s in Unit(n) then [Unit(n)] else [])
  {
    InUnit(n, s);
    Decompose(s);
    BoxBound(s);
    var r, c, b := Row(s), 9 + Col(s), 18 + Box(s);
    if n == r {
      assert UnitsBefore(s, n) == [] && UnitsBefore(s, n + 1) == [Unit(r)];
    } else if n == c {
      assert UnitsBefore(s, n) == [Unit(r)] && UnitsBefore(s, n + 1) == [Unit(r), Unit(c)];
    } else if n == b {
      assert UnitsBefore(s, n) == [Unit(r), Unit(c)] && UnitsBefore(s, n + 1) == [Unit(r), Unit(c), Unit(b)];
    } else {
      assert UnitsBefore(s, n + 1) == UnitsBefore(s, n);
    }
  }

  // ---------------------------------------------------------------------------
  // Peers.
  // ---------------------------------------------------------------------------

  lemma CollectAppend(xs: seq<nat>, x: nat, s: nat)
    ensures Collect(xs + [x], s) ==
      (if x != s && x !in Collect(xs, s) then Collect(xs, s) + [x] else Collect(xs, s))
  {
    assert (xs + [x])[..|xs|] == xs;
  }

  /** What `Collect` keeps: exactly the elements other than `s`. */
  lemma {:induction false} CollectMembers(xs: seq<nat>, s: nat)
    ensures forall x :: x in Collect(xs, s) <==> x in xs && x != s
  {
    if xs != [] {
      var init := xs[..|xs| - 1];
      CollectMembers(init, s);
      assert xs == init + [xs[|xs| - 1]];
    }
  }

  /** `Collect` never keeps an element twice. */
  lemma {:induction false} CollectNoDup(xs: seq<nat>, s: nat)
    ensures NoDup(Collect(xs, s))
  {
    if xs != [] {
      CollectNoDup(xs[..|xs| - 1], s);
    }
  }

  /** Elements of `ys` that differ from `s` and do not occur in `seen`. */
  function FreshCount(ys: seq<nat>, seen: seq<nat>, s: nat): nat
  {
    if ys == [] then 0
    else FreshCount(ys[..|ys| - 1], seen, s) + (if ys[|ys| - 1] != s && ys[|ys| - 1] !in seen then 1 else 0)
  }

  /** Indices below `n` other than `c`. */
  function CountNe(n: nat, c: nat): nat
  {
    if n == 0 then 0 else CountNe(n - 1, c) + (if n - 1 != c then 1 else 0)
  }

  /** Box positions below `n` that are neither in box row `a` nor in box column `b`. */
  function CountBox(n: nat, a: nat, b: nat): nat
  {
    if n == 0 then 0 else CountBox(n - 1, a, b) + (if (n - 1) / 3 != a && (n - 1) % 3 != b then 1 else 0)
  }

  lemma {:induction false} CollectLength(xs: seq<nat>, ys: seq<nat>, s: nat)
    requires NoDup(ys)
    ensures |Collect(xs + ys, s)| == |Collect(xs, s)| + FreshCount(ys, xs, s)
  {
    if ys == [] {
      assert xs + ys == xs;
    } else {
      var init, y := ys[..|ys| - 1], ys[|ys| - 1];
      CollectLength(xs, init, s);
      assert xs + ys == (xs + init) + [y];
      CollectAppend(xs + init, y, s);
      CollectMembers(xs + init, s);
      assert y !in init;
    }
  }

  lemma {:induction false} FreshCountNe(ys: seq<nat>, seen: seq<nat>, s: nat, c: nat)
    requires forall k :: 0 <= k < |ys| ==> ((ys[k] != s && ys[k] !in seen) <==> k != c)
    ensures FreshCount(ys, seen, s) == CountNe(|ys|, c)
  {
    if ys != [] {
      FreshCountNe(ys[..|ys| - 1], seen, s, c);
    }
  }

  lemma {:induction false} FreshCountBox(ys: seq<nat>, seen: seq<nat>, s: nat, a: nat, b: nat)
    requires forall k :: 0 <= k < |ys| ==> ((ys[k] != s && ys[k] !in seen) <==> k / 3 != a && k % 3 != b)
    ensures FreshCount(ys, seen, s) == CountBox(|ys|, a, b)
  {
    if ys != [] {
      FreshCountBox(ys[..|ys| - 1], seen, s, a, b);
    }
  }

  lemma {:induction false} CountNeValue(n: nat, c: nat)
    ensures CountNe(n, c) == if c < n then n - 1 else n
  {
    if n > 0 {
      CountNeValue(n - 1, c);
    }
  }

  lemma CountBoxValue(a: nat, b: nat)
    requires a < 3 && b < 3
    ensures CountBox(9, a, b) == 4
  {
    if a == 0 {
      if b == 0 { assert CountBox(9, 0, 0) == 4; }
      else if b == 1 { assert CountBox(9, 0, 1) == 4; }
      else { assert CountBox(9, 0, 2) == 4; }
    } else if a == 1 {
      if b == 0 { assert CountBox(9, 1, 0) == 4; }
      else if b == 1 { assert CountBox(9, 1, 1) == 4; }
      else { assert CountBox(9, 1, 2) == 4; }
    } else {
      if b == 0 { assert CountBox(9, 2, 0) == 4; }
      else if b == 1 { assert CountBox(9, 2, 1) == 4; }
      else { assert CountBox(9, 2, 2) == 4; }
    }
  }

  lemma FlattenUnits(s: nat)
    requires s < NR_SQUARES
    ensures Flatten(SquareUnits(s)) == Unit(Row(s)) + Unit(9 + Col(s)) + Unit(18 + Box(s))
  {
    var us := SquareUnits(s);
    assert us[..1][..0] == us[..0];
    assert Flatten(us[..1]) == us[0];
    assert us[..2][..1] == us[..1];
    assert Flatten(us[..2]) == us[0] + us[1];
    assert us[..3] == us;
  }

  /** A square's peers: duplicate-free, without the square itself, exactly the squares it shares a unit with. */
  lemma PeersMembers(s: nat)
    requires s < NR_SQUARES
    ensures NoDup(Peers(s)) && s !in Peers(s)
    ensures forall x: nat :: x in Peers(s) <==> x < NR_SQUARES && x != s && SharesUnit(x, s)
  {
    CollectNoDup(Flatten(SquareUnits(s)), s);
    CollectMembers(Flatten(SquareUnits(s)), s);
    forall x: nat ensures x in Flatten(SquareUnits(s)) <==> x < NR_SQUARES && SharesUnit(x, s) {
      InSquareUnits(s, x);
    }
  }

  /** The squares listed by the units of `s` are those that share a unit with it. */
  lemma InSquareUnits(s: nat, x: nat)
    requires s < NR_SQUARES
    ensures x in Flatten(SquareUnits(s)) <==> x < NR_SQUARES && SharesUnit(x, s)
  {
    Decompose(s);
    BoxBound(s);
    FlattenUnits(s);
    InUnit(Row(s), x);
    InUnit(9 + Col(s), x);
    InUnit(18 + Box(s), x);
    if x < NR_SQUARES {
      Decompose(x);
      BoxBound(x);
    }
  }

  /** The row of `s` contributes every one of its squares but `s`. */
  lemma RowFresh(s: nat)
    requires s < NR_SQUARES
    ensures FreshCount(Unit(Row(s)), [], s) == 8
  {
    Decompose(s);
    var r, c := Row(s), Col(s);
    var R := Unit(r);
    UnitShape(r);
    forall k | 0 <= k < 9 ensures (R[k] != s && R[k] !in []) <==> k != c {
      Coords(r, k);
    }
    FreshCountNe(R, [], s, c);
    CountNeValue(9, c);
  }

  /** The column of `s` adds every one of its squares but `s`: none of them is in the row. */
  lemma ColFresh(s: nat)
    requires s < NR_SQUARES
    ensures FreshCount(Unit(9 + Col(s)), Unit(Row(s)), s) == 8
  {
    Decompose(s);
    var r, c := Row(s), Col(s);
    var R, C := Unit(r), Unit(9 + c);
    UnitShape(9 + c);
    forall k | 0 <= k < 9 ensures (C[k] != s && C[k] !in R) <==> k != r {
      Coords(k, c);
      InUnit(r, C[k]);
    }
    FreshCountNe(C, R, s, r);
    CountNeValue(9, r);
  }

  /** The box of `s` adds the four squares outside the row and the column of `s`. */
  lemma BoxFresh(s: nat)
    requires s < NR_SQUARES
    ensures FreshCount(Unit(18 + Box(s)), Unit(Row(s)) + Unit(9 + Col(s)), s) == 4
  {
    Decompose(s);
    BoxBound(s);
    var r, c := Row(s), Col(s);
    var R, C, B := Unit(r), Unit(9 + c), Unit(18 + Box(s));
    UnitShape(18 + Box(s));
    forall k | 0 <= k < 9 ensures (B[k] != s && B[k] !in R + C) <==> k / 3 != r % 3 && k % 3 != c % 3 {
      BoxFreshAt(s, k);
    }
    FreshCountBox(B, R + C, s, r % 3, c % 3);
    CountBoxValue(r % 3, c % 3);
  }

  /** Position `k` of the box of `s` is new after its row and column exactly off the row and column of `s`. */
  lemma BoxFreshAt(s: nat, k: nat)
    requires s < NR_SQUARES && k < 9
    ensures Box(s) < 9
    ensures (Unit(18 + Box(s))[k] != s && Unit(18 + Box(s))[k] !in Unit(Row(s)) + Unit(9 + Col(s))) <==>
      k / 3 != Row(s) % 3 && k % 3 != Col(s) % 3
  {
    Decompose(s);
    BoxBound(s);
    var r, c, b := Row(s), Col(s), Box(s);
    var y := Unit(18 + b)[k];
    BoxCell(b, k);
    BoxOf(r, c);
    InUnit(r, y);
    InUnit(9 + c, y);
    Decompose(y);
  }

  /** The box of row `r`, column `c` sits in box row r / 3 and box column c / 3. */
  lemma BoxOf(r: nat, c: nat)
    requires r < 9 && c < 9
    ensures (3 * (r / 3) + c / 3) / 3 == r / 3 && (3 * (r / 3) + c / 3) % 3 == c / 3
    ensures r == 3 * (r / 3) + r % 3 && c == 3 * (c / 3) + c % 3
  {
    Div3(r / 3, c / 3);
  }

  /** Every square has exactly 20 peers (8 in its row, 8 more in its column, 4 more in its box). */
  lemma PeersCount(s: nat)
    requires s < NR_SQUARES
    ensures |Peers(s)| == 20
  {
    Decompose(s);
    BoxBound(s);
    var R, C, B := Unit(Row(s)), Unit(9 + Col(s)), Unit(18 + Box(s));
    UnitShape(Row(s));
    UnitShape(9 + Col(s));
    UnitShape(18 + Box(s));
    FlattenUnits(s);
    CollectLength([], R, s);
    assert [] + R == R;
    assert Collect([], s) == [];
    RowFresh(s);
    CollectLength(R, C, s);
    ColFresh(s);
    CollectLength(R + C, B, s);
    BoxFresh(s);
  }

  /** Being a peer is symmetric. */
  lemma PeersSymmetric(s: nat, t: nat)
    requires s < NR_SQUARES && t < NR_SQUARES
    ensures t in Peers(s) <==> s in Peers(t)
  {
    PeersMembers(s);
    PeersMembers(t);
  }
}
