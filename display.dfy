/**
 * The comparison table shown to the user: one column of cells per vendor
 * with a price column, built from the pivot, with best and second-best
 * markers from the per-row price-per-mg ranking; and the column layout the
 * table is finally cut to.
 */
module Display {
  import opened Wrappers
  import opened Grouping
  import opened Ranking

  type Table = map<PivotKey, map<string, Mins>>

  /** The vendors of `vendors`, in order, that pass `keep`. */
  function Only(vendors: seq<string>, keep: string -> bool): (r: seq<string>)
    ensures forall v :: v in r <==> v in vendors && keep(v)
    ensures |r| <= |vendors|
  {
    if vendors == [] then []
    else
      var rest := Only(vendors[..|vendors| - 1], keep);
      var last := vendors[|vendors| - 1];
      assert forall v :: v in vendors <==> v in vendors[..|vendors| - 1] || v == last;
      if keep(last) then rest + [last] else rest
  }

  /** The positions of `vendors`, in increasing order, whose vendor passes `keep`. */
  function KeptIndices(vendors: seq<string>, keep: string -> bool): (idx: seq<nat>)
    ensures forall k :: 0 <= k < |idx| ==> idx[k] < |vendors|
  {
    if vendors == [] then []
    else KeptIndices(vendors[..|vendors| - 1], keep) + (if keep(vendors[|vendors| - 1]) then [|vendors| - 1] else [])
  }

  /** One position per kept vendor. */
  lemma {:induction false} KeptIndicesCount(vendors: seq<string>, keep: string -> bool)
    ensures |KeptIndices(vendors, keep)| == |Only(vendors, keep)|
  {
    if vendors != [] {
      KeptIndicesCount(vendors[..|vendors| - 1], keep);
    }
  }

  /** The k-th kept vendor is the vendor at the k-th kept position. */
  lemma {:induction false} OnlyAt(vendors: seq<string>, keep: string -> bool)
    ensures |KeptIndices(vendors, keep)| == |Only(vendors, keep)|
    ensures forall k :: 0 <= k < |Only(vendors, keep)| ==>
      Only(vendors, keep)[k] == vendors[KeptIndices(vendors, keep)[k]]
  {
    KeptIndicesCount(vendors, keep);
    if vendors != [] {
      var init := vendors[..|vendors| - 1];
      OnlyAt(init, keep);
      assert forall i :: 0 <= i < |init| ==> vendors[i] == init[i];
    }
  }

  /** The kept positions increase strictly. */
  lemma {:induction false} KeptIncreasing(vendors: seq<string>, keep: string -> bool)
    ensures forall k, m :: 0 <= k < m < |KeptIndices(vendors, keep)| ==>
      KeptIndices(vendors, keep)[k] < KeptIndices(vendors, keep)[m]
  {
    if vendors != [] {
      KeptIncreasing(vendors[..|vendors| - 1], keep);
    }
  }

  /** A position is kept exactly when its vendor passes. */
  lemma {:induction false} KeptExactly(vendors: seq<string>, keep: string -> bool)
    ensures forall i :: 0 <= i < |vendors| ==> (i in KeptIndices(vendors, keep) <==> keep(vendors[i]))
  {
    if vendors != [] {
      var init := vendors[..|vendors| - 1];
      KeptExactly(init, keep);
      assert forall i :: 0 <= i < |init| ==> vendors[i] == init[i];
    }
  }

  /**
   * `Only` keeps the passing vendors in their order, duplicates included:
   * its entries are the vendors at strictly increasing positions, and those
   * positions are exactly the ones whose vendor passes.
   */
  lemma {:induction false} OnlyInOrder(vendors: seq<string>, keep: string -> bool)
    ensures |KeptIndices(vendors, keep)| == |Only(vendors, keep)|
    ensures forall k :: 0 <= k < |Only(vendors, keep)| ==>
      Only(vendors, keep)[k] == vendors[KeptIndices(vendors, keep)[k]]
    ensures forall k, m :: 0 <= k < m < |KeptIndices(vendors, keep)| ==>
      KeptIndices(vendors, keep)[k] < KeptIndices(vendors, keep)[m]
    ensures forall i :: 0 <= i < |vendors| ==> (i in KeptIndices(vendors, keep) <==> keep(vendors[i]))
  {
    OnlyAt(vendors, keep);
    KeptIncreasing(vendors, keep);
    KeptExactly(vendors, keep);
  }

  /** `ppm_cols`: the vendors, in vendor order, that have a price-per-mg column. */
  function PpmVendors(p: Table, vendorNames: seq<string>): seq<string>
  {
    Only(vendorNames, v => HasPpmColumn(p, v))
  }

  /** One pivot row restricted to the price-per-mg columns: the values the row is ranked on. */
  function RowPpms(p: Table, pk: PivotKey, ppmVendors: seq<string>): (row: seq<Option<real>>)
    ensures |row| == |ppmVendors|
    ensures forall j :: 0 <= j < |row| ==> row[j] == PpmAt(p, pk, ppmVendors[j])
  {
    seq(|ppmVendors|, j requires 0 <= j < |ppmVendors| => PpmAt(p, pk, ppmVendors[j]))
  }

  /**
   * The rank of vendor `v` in row `pk`: missing when the vendor has no
   * price-per-mg column or no value in this row.
   */
  function VendorRank(p: Table, pk: PivotKey, vendorNames: seq<string>, v: string): Option<nat>
  {
    var ppmVendors := PpmVendors(p, vendorNames);
    if v in ppmVendors && PpmAt(p, pk, v).Some? then
      Some(1 + CountBelow(RowPpms(p, pk, ppmVendors), PpmAt(p, pk, v).value))
    else None
  }

  /** The vendor rank is the rank of the vendor's entry in the row of price-per-mg columns. */
  lemma VendorRankIsRank(p: Table, pk: PivotKey, vendorNames: seq<string>, j: nat)
    requires j < |PpmVendors(p, vendorNames)|
    ensures VendorRank(p, pk, vendorNames, PpmVendors(p, vendorNames)[j])
         == Rank(RowPpms(p, pk, PpmVendors(p, vendorNames)), j)
  {
  }

  /** A vendor's column: its price, its price per mg and its two marks in every row. */
  function VendorCells(p: Table, keys: seq<PivotKey>, vendorNames: seq<string>, v: string): (cells: seq<Cell>)
    ensures |cells| == |keys|
  {
    var prices := seq(|keys|, i requires 0 <= i < |keys| => PriceAt(p, keys[i], v));
    var ppms := seq(|keys|, i requires 0 <= i < |keys| => PpmAt(p, keys[i], v));
    var best := seq(|keys|, i requires 0 <= i < |keys| => VendorRank(p, keys[i], vendorNames, v) == Some(1));
    var second := seq(|keys|, i requires 0 <= i < |keys| => VendorRank(p, keys[i], vendorNames, v) == Some(2));
    Cells(prices, ppms, best, second)
  }

  /** Every vendor with an entry in the pivot is one of the listed vendors. */
  predicate Listed(p: Table, vendorNames: seq<string>)
  {
    forall pk, v :: pk in p && v in p[pk] ==> v in vendorNames
  }

  /**
   * A cell is blank exactly when the vendor has no price in that row, and it
   * carries the best marker exactly when the vendor's price per mg is present
   * and no listed vendor's price per mg in that row is lower.
   */
  lemma BestMarksCheapestPerMg(p: Table, keys: seq<PivotKey>, vendorNames: seq<string>, v: string, i: nat)
    requires Listed(p, vendorNames) && i < |keys|
    ensures VendorCells(p, keys, vendorNames, v)[i].Blank? <==> PriceAt(p, keys[i], v).None?
    ensures VendorCells(p, keys, vendorNames, v)[i].Quote? ==>
      (VendorCells(p, keys, vendorNames, v)[i].marker == Best <==>
        PpmAt(p, keys[i], v).Some? && forall w :: w in vendorNames && PpmAt(p, keys[i], w).Some? ==>
          PpmAt(p, keys[i], v).value <= PpmAt(p, keys[i], w).value)
  {
    var pk := keys[i];
    var ppmVendors := PpmVendors(p, vendorNames);
    var row := RowPpms(p, pk, ppmVendors);
    if PpmAt(p, pk, v).Some? {
      var x := PpmAt(p, pk, v).value;
      assert HasPpmColumn(p, v) by { assert pk in p; }
      assert v in vendorNames by { assert pk in p && v in p[pk]; }
      CountBelowZero(row, x);
      forall w | w in vendorNames && PpmAt(p, pk, w).Some?
        ensures (CountBelow(row, x) == 0 ==> x <= PpmAt(p, pk, w).value)
      {
        assert HasPpmColumn(p, w) by { assert pk in p; }
        assert w in ppmVendors;
        var j :| 0 <= j < |ppmVendors| && ppmVendors[j] == w;
        assert row[j] == PpmAt(p, pk, w);
      }
      if forall w :: w in vendorNames && PpmAt(p, pk, w).Some? ==> x <= PpmAt(p, pk, w).value {
        forall j | 0 <= j < |row| && row[j].Some?
          ensures x <= row[j].value
        {
          assert ppmVendors[j] in vendorNames;
        }
      }
    }
  }

  // ---------------------------------------------------------------------
  // Final column layout
  // ---------------------------------------------------------------------

  /** The columns every display table has before its vendor columns. */
  const Leading: seq<string> := ["Include", "Peptide", "Dose (mg/vial)", "Total mg/kit", "row_key"]

  /** The test a vendor passes to get a column: it has a price column. */
  function Priced(p: Table): string -> bool
  {
    v => HasPriceColumn(p, v)
  }

  /** The vendors that get a column: those with a price column, in vendor order. */
  function ShownVendors(p: Table, vendorNames: seq<string>): seq<string>
  {
    Only(vendorNames, Priced(p))
  }

  /** The first requested column that does not exist, if any. */
  function FirstMissing(existing: set<string>, wanted: seq<string>): (r: Option<string>)
    ensures r.None? <==> forall c :: c in wanted ==> c in existing
    ensures r.Some? ==> r.value in wanted && r.value !in existing
  {
    if wanted == [] then None
    else if wanted[0] !in existing then Some(wanted[0])
    else
      var r := FirstMissing(existing, wanted[1..]);
      assert forall c :: c in wanted ==> c == wanted[0] || c in wanted[1..];
      r
  }

  /** `df[cols]`: every requested column must exist, or pandas raises a KeyError naming a missing one. */
  function SelectColumns(existing: set<string>, wanted: seq<string>): (r: Result<seq<string>, string>)
    ensures r.Success? <==> forall c :: c in wanted ==> c in existing
    ensures r.Success? ==> r.value == wanted
    ensures r.Failure? ==> r.error !in existing && r.error in wanted
  {
    match FirstMissing(existing, wanted)
    case None => Success(wanted)
    case Some(c) => Failure(c)
  }

  /** The columns the display table holds when it is cut: the leading ones and one per shown vendor. */
  function Built(p: Table, vendorNames: seq<string>): set<string>
  {
    (set c | c in Leading) + (set v | v in ShownVendors(p, vendorNames))
  }

  /** The layout as written: the leading columns followed by every vendor name, shown or not. */
  function LayoutAsWritten(p: Table, vendorNames: seq<string>): Result<seq<string>, string>
  {
    SelectColumns(Built(p, vendorNames), Leading + vendorNames)
  }

  /**
   * A listed vendor none of whose filtered rows has a dose, a total and a
   * price gets no price column, so the layout as written fails.
   */
  lemma LayoutAsWrittenFails(rows: seq<Offers.Offer>, vendorNames: seq<string>, v: string)
    requires v in vendorNames && v !in Leading
    requires forall i :: 0 <= i < |rows| && rows[i].vendor == v ==> KeyOf(rows[i]).None? || rows[i].price.None?
    ensures LayoutAsWritten(Pivot(Group(rows)), vendorNames).Failure?
  {
    var p := Pivot(Group(rows));
    PriceColumnOf(rows, v);
    assert v !in ShownVendors(p, vendorNames);
    assert v in Leading + vendorNames;
  }

  /** ZJ is not one of the leading columns. */
  lemma ZjNotLeading()
    ensures "ZJ" !in Leading
  {
  }

  /**
   * CN has a priced, dosed row and ZJ only an undosed one: the layout as
   * written fails on ZJ.
   */
  lemma LayoutAsWrittenExample(rows: seq<Offers.Offer>)
    requires rows == [
      Offers.Offer("CN", "BPC 157 5mg", "BPC 157", Some(5.0), Some(50.0), Some(41.0), Some(0.82)),
      Offers.Offer("ZJ", "AOD-9604", "AOD-9604", None, None, Some(40.0), None)]
    ensures LayoutAsWritten(Pivot(Group(rows)), ["CN", "ZJ"]).Failure?
  {
    ZjNotLeading();
    LayoutAsWrittenFails(rows, ["CN", "ZJ"], "ZJ");
  }

  /** The intended layout: the leading columns followed by the vendors that have a column. */
  function Layout(p: Table, vendorNames: seq<string>): (r: seq<string>)
    ensures SelectColumns(Built(p, vendorNames), r) == Success(r)
  {
    Leading + ShownVendors(p, vendorNames)
  }

  /**
   * The intended layout selects only existing columns, and its vendor
   * columns are exactly the vendors with a price column, in vendor order.
   */
  lemma LayoutShowsPricedVendors(p: Table, vendorNames: seq<string>)
    ensures Layout(p, vendorNames)[..|Leading|] == Leading
    ensures forall v :: v in Layout(p, vendorNames)[|Leading|..] <==> v in vendorNames && HasPriceColumn(p, v)
    ensures |Layout(p, vendorNames)| == |Leading| + |KeptIndices(vendorNames, Priced(p))|
    ensures forall k :: 0 <= k < |KeptIndices(vendorNames, Priced(p))| ==>
      Layout(p, vendorNames)[|Leading| + k] == vendorNames[KeptIndices(vendorNames, Priced(p))[k]]
  {
    PrefixThen(Leading, ShownVendors(p, vendorNames));
    OnlyInOrder(vendorNames, Priced(p));
  }

  /** The parts of `front + back`. */
  lemma PrefixThen<T>(front: seq<T>, back: seq<T>)
    ensures (front + back)[..|front|] == front && (front + back)[|front|..] == back
    ensures forall k :: 0 <= k < |back| ==> (front + back)[|front| + k] == back[k]
  {
  }
}
