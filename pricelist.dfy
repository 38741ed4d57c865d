/**
 * The price list for the selected rows: the selected entries are merged with
 * the grouped minima, pivoted to one line per peptide and dose with one
 * column per vendor that prices any of them, the vendors are ordered by their
 * total over the list, and a TOTAL line closes the table.
 */
module PriceList {
  import opened Wrappers
  import opened Grouping
  import opened Selection
  import Display

  type Groups = map<GroupKey, Mins>

  /** A price-list line: peptide and dose. */
  datatype Line = Line(peptide: string, dose: real)

  /** The line a selected entry belongs to; an entry without a dose has none. */
  function LineOf(s: Selected): Option<Line>
  {
    if s.dose.Some? then Some(Line(s.peptide, s.dose.value)) else None
  }

  /**
   * The price the left merge gives entry `s` for vendor `v`: the group with
   * the entry's peptide, dose and total at that vendor, when it exists. A
   * missing dose or total matches no group.
   */
  function MergedPrice(g: Groups, s: Selected, v: string): (r: Option<real>)
    ensures r.Some? ==> s.dose.Some? && s.total.Some? && GroupKey(s.peptide, s.dose.value, s.total.value, v) in g
    ensures r.Some? ==> r == g[GroupKey(s.peptide, s.dose.value, s.total.value, v)].price
    ensures s.dose.Some? && s.total.Some? && GroupKey(s.peptide, s.dose.value, s.total.value, v) in g ==>
      r == g[GroupKey(s.peptide, s.dose.value, s.total.value, v)].price
  {
    if s.dose.Some? && s.total.Some? && GroupKey(s.peptide, s.dose.value, s.total.value, v) in g then
      g[GroupKey(s.peptide, s.dose.value, s.total.value, v)].price
    else None
  }

  /** Whether entry `s` gives vendor `v` a price on line `l`. */
  predicate PricedAt(g: Groups, s: Selected, l: Line, v: string)
  {
    LineOf(s) == Some(l) && MergedPrice(g, s, v).Some?
  }

  /**
   * The cell of line `l` and vendor `v`: the least merged price over the
   * selected entries of that line (`aggfunc="min"`), missing when none has one.
   */
  function CellPrice(g: Groups, sel: seq<Selected>, l: Line, v: string): (r: Option<real>)
    ensures r.Some? <==> exists i :: 0 <= i < |sel| && PricedAt(g, sel[i], l, v)
    ensures r.Some? ==> forall i :: 0 <= i < |sel| && PricedAt(g, sel[i], l, v) ==> r.value <= MergedPrice(g, sel[i], v).value
    ensures r.Some? ==> exists i :: 0 <= i < |sel| && PricedAt(g, sel[i], l, v) && MergedPrice(g, sel[i], v) == r
  {
    if sel == [] then None
    else
      var init := sel[..|sel| - 1];
      var last := sel[|sel| - 1];
      var rest := CellPrice(g, init, l, v);
      assert forall i :: 0 <= i < |init| ==> init[i] == sel[i];
      MinOpt(rest, if LineOf(last) == Some(l) then MergedPrice(g, last, v) else None)
  }

  /** `has_any`: some selected entry gives vendor `v` a price. */
  predicate HasAny(g: Groups, sel: seq<Selected>, v: string)
  {
    exists i :: 0 <= i < |sel| && LineOf(sel[i]).Some? && MergedPrice(g, sel[i], v).Some?
  }

  /** A vendor keeps its column exactly when one of its cells holds a price. */
  lemma HasAnyCell(g: Groups, sel: seq<Selected>, v: string)
    ensures HasAny(g, sel, v) <==> exists l :: CellPrice(g, sel, l, v).Some?
  {
    if HasAny(g, sel, v) {
      var i :| 0 <= i < |sel| && LineOf(sel[i]).Some? && MergedPrice(g, sel[i], v).Some?;
      assert PricedAt(g, sel[i], LineOf(sel[i]).value, v);
      assert CellPrice(g, sel, LineOf(sel[i]).value, v).Some?;
    }
    if exists l :: CellPrice(g, sel, l, v).Some? {
      var l :| CellPrice(g, sel, l, v).Some?;
      var i :| 0 <= i < |sel| && PricedAt(g, sel[i], l, v);
      assert LineOf(sel[i]).Some?;
    }
  }

  /** The vendor columns of the price list, before they are reordered: the listed vendors that price something. */
  function Columns(g: Groups, sel: seq<Selected>, vendorNames: seq<string>): (cols: seq<string>)
    ensures forall v :: v in cols <==> v in vendorNames && HasAny(g, sel, v)
  {
    Display.Only(vendorNames, v => HasAny(g, sel, v))
  }

  /** Whether entry `s` has a line priced by one of `vendors`. */
  predicate LinePriced(g: Groups, s: Selected, vendors: seq<string>)
  {
    LineOf(s).Some? && exists v :: v in vendors && MergedPrice(g, s, v).Some?
  }

  /** A list without repeated lines. */
  predicate DistinctLines(ls: seq<Line>)
  {
    forall i, j :: 0 <= i < j < |ls| ==> ls[i] != ls[j]
  }

  /**
   * The lines of the price list, each once, in order of first selection: the
   * pivot drops lines none of whose cells holds a price.
   */
  function Lines(g: Groups, sel: seq<Selected>, vendors: seq<string>): (ls: seq<Line>)
    ensures DistinctLines(ls)
    ensures forall l :: l in ls <==> exists i :: 0 <= i < |sel| && LinePriced(g, sel[i], vendors) && LineOf(sel[i]) == Some(l)
  {
    if sel == [] then []
    else
      var init := sel[..|sel| - 1];
      var last := sel[|sel| - 1];
      var rest := Lines(g, init, vendors);
      assert forall i :: 0 <= i < |init| ==> init[i] == sel[i];
      if LinePriced(g, last, vendors) && LineOf(last).value !in rest then rest + [LineOf(last).value] else rest
  }

  /** A line is listed exactly when one of `vendors` has a price in its cell. */
  lemma LinesPriced(g: Groups, sel: seq<Selected>, vendors: seq<string>, l: Line)
    ensures l in Lines(g, sel, vendors) <==> exists v :: v in vendors && CellPrice(g, sel, l, v).Some?
  {
    if l in Lines(g, sel, vendors) {
      var i :| 0 <= i < |sel| && LinePriced(g, sel[i], vendors) && LineOf(sel[i]) == Some(l);
      var v :| v in vendors && MergedPrice(g, sel[i], v).Some?;
      assert PricedAt(g, sel[i], l, v);
    }
    if exists v :: v in vendors && CellPrice(g, sel, l, v).Some? {
      var v :| v in vendors && CellPrice(g, sel, l, v).Some?;
      var i :| 0 <= i < |sel| && PricedAt(g, sel[i], l, v);
      assert LinePriced(g, sel[i], vendors);
    }
  }

  // ---------------------------------------------------------------------
  // Vendor totals
  // ---------------------------------------------------------------------

  /** The sum of `f` over the lines. */
  function SumOver(ls: seq<Line>, f: Line -> real): real
  {
    if ls == [] then 0.0 else SumOver(ls[..|ls| - 1], f) + f(ls[|ls| - 1])
  }

  /** `sum(skipna=True)` of a vendor's column: missing cells count as nothing. */
  function Total(g: Groups, sel: seq<Selected>, ls: seq<Line>, v: string): real
  {
    SumOver(ls, (l: Line) => CellPrice(g, sel, l, v).GetOr(0.0))
  }

  lemma {:induction false} SumAppend(xs: seq<Line>, ys: seq<Line>, f: Line -> real)
    ensures SumOver(xs + ys, f) == SumOver(xs, f) + SumOver(ys, f)
  {
    if ys != [] {
      assert (xs + ys)[..|xs + ys| - 1] == xs + ys[..|ys| - 1];
      SumAppend(xs, ys[..|ys| - 1], f);
    } else {
      assert xs + ys == xs;
    }
  }

  /**
   * The last entry of `xs` sits somewhere in any reordering `ys`; taking it
   * out of both leaves two reorderings of each other.
   */
  lemma PickOut<T>(xs: seq<T>, ys: seq<T>) returns (j: nat)
    requires xs != [] && multiset(xs) == multiset(ys)
    ensures j < |ys| && ys[j] == xs[|xs| - 1]
    ensures ys == ys[..j] + [ys[j]] + ys[j + 1..]
    ensures multiset(xs[..|xs| - 1]) == multiset(ys[..j] + ys[j + 1..])
  {
    var init := xs[..|xs| - 1];
    var x := xs[|xs| - 1];
    assert xs == init + [x];
    assert multiset(xs) == multiset(init) + multiset{x};
    assert x in multiset(ys);
    j :| 0 <= j < |ys| && ys[j] == x;
    var a := ys[..j];
    var b := ys[j + 1..];
    assert ys == a + [x] + b;
    assert multiset(ys) == multiset(a) + multiset{x} + multiset(b);
    assert multiset(a + b) == multiset(a) + multiset(b);
    assert multiset(a + b) == multiset(ys) - multiset{x};
    assert multiset(init) == multiset(xs) - multiset{x};
  }

  /** The sum does not depend on the order of the lines. */
  lemma {:induction false} SumPermutation(xs: seq<Line>, ys: seq<Line>, f: Line -> real)
    requires multiset(xs) == multiset(ys)
    ensures SumOver(xs, f) == SumOver(ys, f)
    decreases |xs|
  {
    if xs == [] {
      assert |ys| == |multiset(ys)| == 0;
    } else {
      var init := xs[..|xs| - 1];
      var x := xs[|xs| - 1];
      var j := PickOut(xs, ys);
      var a := ys[..j];
      var b := ys[j + 1..];
      SumPermutation(init, a + b, f);
      SumAppend(a, b, f);
      SumAppend(a + [x], b, f);
      SumAppend(a, [x], f);
      assert SumOver([x], f) == f(x) by { assert [x][..0] == []; }
    }
  }

  /** A vendor's total is the same whatever order the lines are listed in. */
  lemma TotalOrderFree(g: Groups, sel: seq<Selected>, xs: seq<Line>, ys: seq<Line>, v: string)
    requires multiset(xs) == multiset(ys)
    ensures Total(g, sel, xs, v) == Total(g, sel, ys, v)
  {
    SumPermutation(xs, ys, (l: Line) => CellPrice(g, sel, l, v).GetOr(0.0));
  }

  // ---------------------------------------------------------------------
  // Ordering the vendors by their totals
  // ---------------------------------------------------------------------

  /** Ascending by total. */
  predicate SortedByTotal(xs: seq<(string, real)>)
  {
    forall i, j :: 0 <= i < j < |xs| ==> xs[i].1 <= xs[j].1
  }

  /** `x` placed before the first entry whose total is not smaller. */
  function Insert(x: (string, real), xs: seq<(string, real)>): (r: seq<(string, real)>)
    ensures multiset(r) == multiset(xs) + multiset{x}
    ensures forall k :: 0 <= k < |r| ==> r[k] == x || r[k] in xs
  {
    if xs == [] || x.1 <= xs[0].1 then
      [x] + xs
    else
      assert xs == [xs[0]] + xs[1..];
      [xs[0]] + Insert(x, xs[1..])
  }

  /** Inserting into a sorted list keeps it sorted. */
  lemma {:induction false} InsertSorted(x: (string, real), xs: seq<(string, real)>)
    requires SortedByTotal(xs)
    ensures SortedByTotal(Insert(x, xs))
  {
    if xs != [] && x.1 > xs[0].1 {
      var tail := xs[1..];
      InsertSorted(x, tail);
      var rest := Insert(x, tail);
      forall k | 0 <= k < |rest|
        ensures xs[0].1 <= rest[k].1
      {
        if rest[k] != x {
          var m :| 0 <= m < |tail| && tail[m] == rest[k];
          assert xs[m + 1] == rest[k];
        }
      }
      ConsSorted(xs[0], rest);
    }
  }

  /** An entry no larger than any of a sorted list may go in front of it. */
  lemma ConsSorted(h: (string, real), rest: seq<(string, real)>)
    requires SortedByTotal(rest)
    requires forall k :: 0 <= k < |rest| ==> h.1 <= rest[k].1
    ensures SortedByTotal([h] + rest)
  {
    var r := [h] + rest;
    forall i, j | 0 <= i < j < |r|
      ensures r[i].1 <= r[j].1
    {
      if i == 0 {
        assert r[j] == rest[j - 1];
      } else {
        assert r[i] == rest[i - 1] && r[j] == rest[j - 1];
      }
    }
  }

  /** `sort_values()` on the vendor totals. */
  function SortByTotal(xs: seq<(string, real)>): (r: seq<(string, real)>)
    ensures SortedByTotal(r)
    ensures multiset(r) == multiset(xs)
  {
    if xs == [] then []
    else
      assert xs == [xs[0]] + xs[1..];
      var rest := SortByTotal(xs[1..]);
      InsertSorted(xs[0], rest);
      Insert(xs[0], rest)
  }

  /** Reordering the pairs reorders their vendors the same way. */
  lemma {:induction false} VendorsPermutation(xs: seq<(string, real)>, ys: seq<(string, real)>)
    requires multiset(xs) == multiset(ys)
    ensures multiset(Vendors(xs)) == multiset(Vendors(ys))
    decreases |xs|
  {
    if xs == [] {
      assert |ys| == |multiset(ys)| == 0;
    } else {
      var init := xs[..|xs| - 1];
      var x := xs[|xs| - 1];
      var j := PickOut(xs, ys);
      var a := ys[..j];
      var b := ys[j + 1..];
      VendorsPermutation(init, a + b);
      assert Vendors(xs) == Vendors(init) + [x.0];
      assert Vendors(ys) == Vendors(a) + [x.0] + Vendors(b);
      assert Vendors(a + b) == Vendors(a) + Vendors(b);
    }
  }

  /** The vendors of a list of (vendor, total) pairs, in order. */
  function Vendors(xs: seq<(string, real)>): (r: seq<string>)
    ensures |r| == |xs| && forall j :: 0 <= j < |xs| ==> r[j] == xs[j].0
  {
    seq(|xs|, j requires 0 <= j < |xs| => xs[j].0)
  }

  /** The totals of a list of (vendor, total) pairs, in order. */
  function Totals(xs: seq<(string, real)>): (r: seq<real>)
    ensures |r| == |xs| && forall j :: 0 <= j < |xs| ==> r[j] == xs[j].1
  {
    seq(|xs|, j requires 0 <= j < |xs| => xs[j].1)
  }

  /** Each price column with its total over the lines, in column order. */
  function ColumnTotals(g: Groups, sel: seq<Selected>, vendorNames: seq<string>): (r: seq<(string, real)>)
    ensures Vendors(r) == Columns(g, sel, vendorNames)
    ensures forall j :: 0 <= j < |r| ==> r[j].1 == Total(g, sel, Lines(g, sel, vendorNames), r[j].0)
  {
    var cols := Columns(g, sel, vendorNames);
    var ls := Lines(g, sel, vendorNames);
    seq(|cols|, j requires 0 <= j < |cols| => (cols[j], Total(g, sel, ls, cols[j])))
  }

  /** `ordered_vendors` with their totals. */
  function ByTotal(g: Groups, sel: seq<Selected>, vendorNames: seq<string>): seq<(string, real)>
  {
    SortByTotal(ColumnTotals(g, sel, vendorNames))
  }

  /**
   * The ordered vendors are the price columns reordered, ascending by total,
   * each paired with its own total.
   */
  lemma ByTotalSpec(g: Groups, sel: seq<Selected>, vendorNames: seq<string>)
    ensures multiset(Vendors(ByTotal(g, sel, vendorNames))) == multiset(Columns(g, sel, vendorNames))
    ensures SortedByTotal(ByTotal(g, sel, vendorNames))
    ensures forall j :: 0 <= j < |ByTotal(g, sel, vendorNames)| ==>
      ByTotal(g, sel, vendorNames)[j].1 == Total(g, sel, Lines(g, sel, vendorNames), ByTotal(g, sel, vendorNames)[j].0)
  {
    var pairs := ColumnTotals(g, sel, vendorNames);
    var r := ByTotal(g, sel, vendorNames);
    VendorsPermutation(r, pairs);
    forall j | 0 <= j < |r|
      ensures r[j].1 == Total(g, sel, Lines(g, sel, vendorNames), r[j].0)
    {
      assert r[j] in multiset(pairs);
      var k :| 0 <= k < |pairs| && pairs[k] == r[j];
    }
  }

  // ---------------------------------------------------------------------
  // The price list
  // ---------------------------------------------------------------------

  /**
   * What the price-list section shows: a prompt when nothing is selected, a
   * notice when no vendor prices the selection, or the table, whose last
   * line (TOTAL) holds each vendor's total.
   */
  datatype Outcome =
    | NothingSelected
    | NoPrices
    | Prices(vendors: seq<string>, lines: seq<Line>, cells: seq<seq<Option<real>>>, totals: seq<real>)

  /** The table of cells: one row per line, one entry per vendor. */
  function CellTable(g: Groups, sel: seq<Selected>, ls: seq<Line>, vendors: seq<string>): (t: seq<seq<Option<real>>>)
    ensures |t| == |ls|
    ensures forall i :: 0 <= i < |ls| ==> |t[i]| == |vendors|
  {
    seq(|ls|, i requires 0 <= i < |ls| => seq(|vendors|, j requires 0 <= j < |vendors| => CellPrice(g, sel, ls[i], vendors[j])))
  }

  /** Lines 423-474: the price list of the selected entries. */
  function PriceListOf(g: Groups, sel: seq<Selected>, vendorNames: seq<string>): Outcome
  {
    if sel == [] then NothingSelected
    else
      var cols := Columns(g, sel, vendorNames);
      var ls := Lines(g, sel, vendorNames);
      if cols == [] || ls == [] then NoPrices
      else
        var byTotal := ByTotal(g, sel, vendorNames);
        var vendors := Vendors(byTotal);
        Prices(vendors, ls, CellTable(g, sel, ls, vendors), Totals(byTotal))
  }

  /** There are price columns exactly when there are priced lines. */
  lemma ColumnsIffLines(g: Groups, sel: seq<Selected>, vendorNames: seq<string>)
    ensures Columns(g, sel, vendorNames) == [] <==> Lines(g, sel, vendorNames) == []
  {
    var cols := Columns(g, sel, vendorNames);
    var ls := Lines(g, sel, vendorNames);
    if cols != [] {
      var v := cols[0];
      assert v in cols;
      var i :| 0 <= i < |sel| && LineOf(sel[i]).Some? && MergedPrice(g, sel[i], v).Some?;
      assert LinePriced(g, sel[i], vendorNames);
      assert LineOf(sel[i]).value in ls;
    }
    if ls != [] {
      var l := ls[0];
      assert l in ls;
      var i :| 0 <= i < |sel| && LinePriced(g, sel[i], vendorNames) && LineOf(sel[i]) == Some(l);
      var v :| v in vendorNames && MergedPrice(g, sel[i], v).Some?;
      assert HasAny(g, sel, v);
      assert v in cols;
    }
  }

  /** Nothing selected gives the prompt; a selection no listed vendor prices gives the notice. */
  lemma PriceListShown(g: Groups, sel: seq<Selected>, vendorNames: seq<string>)
    ensures PriceListOf(g, sel, vendorNames).NothingSelected? <==> sel == []
    ensures PriceListOf(g, sel, vendorNames).NoPrices? <==>
      sel != [] && forall v :: v in vendorNames ==> !HasAny(g, sel, v)
  {
    ColumnsIffLines(g, sel, vendorNames);
    var cols := Columns(g, sel, vendorNames);
    if cols != [] {
      assert cols[0] in cols;
    }
  }

  /**
   * The table's vendors are the listed vendors that price something, each as
   * often as listed, ordered by ascending total; each total is that vendor's
   * sum over the lines.
   */
  lemma PriceListOrdered(g: Groups, sel: seq<Selected>, vendorNames: seq<string>)
    requires PriceListOf(g, sel, vendorNames).Prices?
    ensures multiset(PriceListOf(g, sel, vendorNames).vendors) == multiset(Columns(g, sel, vendorNames))
    ensures forall v :: v in PriceListOf(g, sel, vendorNames).vendors <==> v in vendorNames && HasAny(g, sel, v)
    ensures |PriceListOf(g, sel, vendorNames).totals| == |PriceListOf(g, sel, vendorNames).vendors|
    ensures forall j :: 0 <= j < |PriceListOf(g, sel, vendorNames).totals| ==>
      PriceListOf(g, sel, vendorNames).totals[j] ==
        Total(g, sel, PriceListOf(g, sel, vendorNames).lines, PriceListOf(g, sel, vendorNames).vendors[j])
    ensures forall i, j :: 0 <= i < j < |PriceListOf(g, sel, vendorNames).totals| ==>
      PriceListOf(g, sel, vendorNames).totals[i] <= PriceListOf(g, sel, vendorNames).totals[j]
  {
    ByTotalSpec(g, sel, vendorNames);
    var r := PriceListOf(g, sel, vendorNames);
    var cols := Columns(g, sel, vendorNames);
    assert r.vendors == Vendors(ByTotal(g, sel, vendorNames));
    forall v
      ensures v in r.vendors <==> v in cols
    {
      assert v in r.vendors <==> v in multiset(r.vendors);
      assert v in cols <==> v in multiset(cols);
    }
  }

  /** Every cell of the table is the least merged price of its line and vendor. */
  lemma PriceListCells(g: Groups, sel: seq<Selected>, vendorNames: seq<string>)
    requires PriceListOf(g, sel, vendorNames).Prices?
    ensures PriceListOf(g, sel, vendorNames).lines == Lines(g, sel, vendorNames)
    ensures |PriceListOf(g, sel, vendorNames).cells| == |PriceListOf(g, sel, vendorNames).lines|
    ensures forall i, j :: 0 <= i < |PriceListOf(g, sel, vendorNames).lines| && 0 <= j < |PriceListOf(g, sel, vendorNames).vendors| ==>
      |PriceListOf(g, sel, vendorNames).cells[i]| == |PriceListOf(g, sel, vendorNames).vendors| &&
      PriceListOf(g, sel, vendorNames).cells[i][j] ==
        CellPrice(g, sel, PriceListOf(g, sel, vendorNames).lines[i], PriceListOf(g, sel, vendorNames).vendors[j])
  {
  }
}
