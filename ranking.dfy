/**
 * Competition ranking of one pivot row's price-per-mg values
 * (`rank(axis=1, method="min", ascending=True)`), the best and second-best
 * markers it yields, and the loop that turns a vendor's column into cells.
 */
module Ranking {
  import opened Wrappers

  /** The number of present values in `row` strictly below `x`. */
  function CountBelow(row: seq<Option<real>>, x: real): (n: nat)
    ensures n <= |row|
  {
    if row == [] then 0
    else
      var last := row[|row| - 1];
      CountBelow(row[..|row| - 1], x) + (if last.Some? && last.value < x then 1 else 0)
  }

  /** The number of present values in `row`. */
  function CountPresent(row: seq<Option<real>>): (n: nat)
    ensures n <= |row|
  {
    if row == [] then 0
    else CountPresent(row[..|row| - 1]) + (if row[|row| - 1].Some? then 1 else 0)
  }

  /**
   * The rank of entry `j`: missing values get no rank; a present value ranks
   * one above the number of present values strictly below it, so ties share
   * the lowest rank and the next value skips the tied places.
   */
  function Rank(row: seq<Option<real>>, j: nat): (r: Option<nat>)
    requires j < |row|
    ensures r.Some? <==> row[j].Some?
    ensures r.Some? ==> r.value >= 1
  {
    if row[j].None? then None else Some(1 + CountBelow(row, row[j].value))
  }

  /** The ranks of a whole row. */
  function Ranks(row: seq<Option<real>>): (r: seq<Option<nat>>)
    ensures |r| == |row|
    ensures forall j :: 0 <= j < |row| ==> r[j] == Rank(row, j)
  {
    seq(|row|, j requires 0 <= j < |row| => Rank(row, j))
  }

  /** No present value below `x` exactly when the count is zero. */
  lemma {:induction false} CountBelowZero(row: seq<Option<real>>, x: real)
    ensures CountBelow(row, x) == 0 <==> forall i :: 0 <= i < |row| && row[i].Some? ==> x <= row[i].value
  {
    if row != [] {
      var init := row[..|row| - 1];
      CountBelowZero(init, x);
      assert forall i :: 0 <= i < |init| ==> init[i] == row[i];
    }
  }

  /** A larger bound counts at least as many values, and strictly more when a present value lies between. */
  lemma {:induction false} CountBelowMonotone(row: seq<Option<real>>, x: real, y: real)
    requires x <= y
    ensures CountBelow(row, x) <= CountBelow(row, y)
    ensures (exists i :: 0 <= i < |row| && row[i].Some? && x <= row[i].value < y) ==> CountBelow(row, x) < CountBelow(row, y)
  {
    if row != [] {
      var init := row[..|row| - 1];
      CountBelowMonotone(init, x, y);
      assert forall i :: 0 <= i < |init| ==> init[i] == row[i];
    }
  }

  /** Two different present entries below `x` make the count at least two. */
  lemma {:induction false} CountBelowTwo(row: seq<Option<real>>, x: real, i: nat, j: nat)
    requires i < j < |row| && row[i].Some? && row[j].Some? && row[i].value < x && row[j].value < x
    ensures CountBelow(row, x) >= 2
  {
    var init := row[..|row| - 1];
    if j < |row| - 1 {
      assert init[i] == row[i] && init[j] == row[j];
      CountBelowTwo(init, x, i, j);
    } else {
      assert init[i] == row[i];
      CountBelowOne(init, x, i);
    }
  }

  lemma {:induction false} CountBelowOne(row: seq<Option<real>>, x: real, i: nat)
    requires i < |row| && row[i].Some? && row[i].value < x
    ensures CountBelow(row, x) >= 1
  {
    var init := row[..|row| - 1];
    if i < |row| - 1 {
      assert init[i] == row[i];
      CountBelowOne(init, x, i);
    }
  }

  /** Values never counted below themselves leave at most the present values to count. */
  lemma {:induction false} CountBelowPresent(row: seq<Option<real>>, x: real)
    ensures CountBelow(row, x) <= CountPresent(row)
  {
    if row != [] {
      CountBelowPresent(row[..|row| - 1], x);
    }
  }

  /** Rank 1 exactly for the present values that are the row's minimum. */
  lemma RankOneIsMinimum(row: seq<Option<real>>, j: nat)
    requires j < |row|
    ensures Rank(row, j) == Some(1) <==> row[j].Some? && forall i :: 0 <= i < |row| && row[i].Some? ==> row[j].value <= row[i].value
  {
    if row[j].Some? {
      CountBelowZero(row, row[j].value);
    }
  }

  /** Equal values share a rank, a smaller value ranks strictly better, and no rank exceeds the number of present values. */
  lemma RankOrder(row: seq<Option<real>>, i: nat, j: nat)
    requires i < |row| && j < |row| && row[i].Some? && row[j].Some?
    ensures row[i].value == row[j].value ==> Rank(row, i) == Rank(row, j)
    ensures row[i].value < row[j].value ==> Rank(row, i).value < Rank(row, j).value
    ensures Rank(row, j).value <= CountPresent(row)
  {
    if row[i].value < row[j].value {
      CountBelowMonotone(row, row[i].value, row[j].value);
    }
    CountBelowPresent(row, row[j].value);
    if CountBelow(row, row[j].value) == CountPresent(row) {
      CountBelowAll(row, row[j].value, j);
    }
  }

  /** A present value is never counted below itself, so not every present value is below it. */
  lemma {:induction false} CountBelowAll(row: seq<Option<real>>, x: real, j: nat)
    requires j < |row| && row[j] == Some(x)
    ensures CountBelow(row, x) < CountPresent(row)
  {
    var init := row[..|row| - 1];
    if j < |row| - 1 {
      assert init[j] == row[j];
      CountBelowAll(init, x, j);
    } else {
      CountBelowPresent(init, x);
    }
  }

  /** When two entries tie for the minimum, no entry ranks second. */
  lemma TiedBestLeavesNoSecond(row: seq<Option<real>>, i: nat, j: nat, k: nat)
    requires i < j < |row| && k < |row|
    requires Rank(row, i) == Some(1) && Rank(row, j) == Some(1)
    ensures Rank(row, k) != Some(2)
  {
    RankOneIsMinimum(row, i);
    RankOneIsMinimum(row, j);
    if row[k].Some? && row[i].value < row[k].value {
      CountBelowTwo(row, row[k].value, i, j);
    }
  }

  /** The ranks of 0.40, 0.40 and 0.82 are 1, 1 and 3. */
  lemma TiedRanksExample(row: seq<Option<real>>)
    requires row == [Some(0.40), Some(0.40), Some(0.82)]
    ensures Ranks(row) == [Some(1), Some(1), Some(3)]
  {
    CountBelowZero(row, 0.40);
    var two := row[..2];
    var one := two[..1];
    assert one[..0] == [];
    assert CountBelow(one, 0.82) == 1;
    assert CountBelow(two, 0.82) == 2;
    assert CountBelow(row, 0.82) == 2;
  }

  // ---------------------------------------------------------------------
  // Cells of a vendor column
  // ---------------------------------------------------------------------

  /** The marker in front of a price: best (rank 1), second (rank 2) or none. */
  datatype Marker = NoMarker | Best | Second

  /** One vendor cell: blank, or a price with its marker and, when known, its price per mg. */
  datatype Cell = Blank | Quote(marker: Marker, price: real, ppm: Option<real>)

  /** The cell for one row; best takes precedence over second. */
  function CellOf(price: Option<real>, ppm: Option<real>, isBest: bool, isSecond: bool): (c: Cell)
    ensures c.Blank? <==> price.None?
    ensures c.Quote? ==> c.price == price.value && c.ppm == ppm
    ensures c.Quote? ==> (c.marker == Best <==> isBest) && (c.marker == Second <==> !isBest && isSecond)
  {
    if price.None? then Blank
    else Quote(if isBest then Best else if isSecond then Second else NoMarker, price.value, ppm)
  }

  function Min(a: nat, b: nat): nat { if a < b then a else b }

  /** The cells of a column: the four columns zipped, stopping at the shortest. */
  function Cells(prices: seq<Option<real>>, ppms: seq<Option<real>>, best: seq<bool>, second: seq<bool>): (r: seq<Cell>)
    ensures |r| == Min(Min(|prices|, |ppms|), Min(|best|, |second|))
    ensures forall i :: 0 <= i < |r| ==> r[i] == CellOf(prices[i], ppms[i], best[i], second[i])
  {
    var n := Min(Min(|prices|, |ppms|), Min(|best|, |second|));
    seq(n, i requires 0 <= i < n => CellOf(prices[i], ppms[i], best[i], second[i]))
  }

  /** The loop that appends one cell per zipped row. */
  method BuildCells(prices: seq<Option<real>>, ppms: seq<Option<real>>, best: seq<bool>, second: seq<bool>)
    returns (cells: seq<Cell>)
    ensures cells == Cells(prices, ppms, best, second)
  {
    var n := Min(Min(|prices|, |ppms|), Min(|best|, |second|));
    cells := [];
    var i := 0;
    while i < n
      invariant 0 <= i <= n
      invariant |cells| == i
      invariant forall k :: 0 <= k < i ==> cells[k] == CellOf(prices[k], ppms[k], best[k], second[k])
    {
      if prices[i].None? {
        cells := cells + [Blank];
        i := i + 1;
        continue;
      }
      var marker := NoMarker;
      if best[i] {
        marker := Best;
      } else if second[i] {
        marker := Second;
      }
      cells := cells + [Quote(marker, prices[i].value, ppms[i])];
      i := i + 1;
    }
  }
}
