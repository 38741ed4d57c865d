/**
 * The `grouped` table (the cheapest offer per peptide, dose, kit total and
 * vendor) and the `pivot` table built from it (one row per peptide, dose and
 * kit total, one cell per vendor).
 */
module Grouping {
  import opened Wrappers
  import opened Offers

  /** A `group_cols` value: peptide, dose, kit total, vendor. */
  datatype GroupKey = GroupKey(peptide: string, dose: real, total: real, vendor: string)

  /** The two aggregated columns of a group: the least `price_usd` and the least `price_per_mg`. */
  datatype Mins = Mins(price: Option<real>, ppm: Option<real>)

  /** A pivot row's index: peptide, dose, kit total. */
  datatype PivotKey = PivotKey(peptide: string, dose: real, total: real)

  /**
   * The group a row falls in. Rows without a dose are dropped first; a row
   * without a total has a missing group key, which the group-by drops too.
   */
  function KeyOf(o: Offer): (k: Option<GroupKey>)
    ensures k.Some? <==> o.dose.Some? && o.total.Some?
  {
    if o.dose.Some? && o.total.Some? then Some(GroupKey(o.canonical, o.dose.value, o.total.value, o.vendor)) else None
  }

  /** After the ten-vial override only the dose decides whether a row is grouped. */
  lemma KeyOfOverridden(o: Offer)
    ensures KeyOf(KitOverride(o)).Some? <==> o.dose.Some?
  {
  }

  /** The smaller of two values where a missing value is skipped, as pandas' `min` does. */
  function MinOpt(a: Option<real>, b: Option<real>): (r: Option<real>)
    ensures r.Some? <==> a.Some? || b.Some?
    ensures r.Some? ==> r == a || r == b
    ensures r.Some? && a.Some? ==> r.value <= a.value
    ensures r.Some? && b.Some? ==> r.value <= b.value
  {
    if a.None? then b
    else if b.None? then a
    else if b.value < a.value then b
    else a
  }

  /** Whether row `o` of group `k` has a value in column `f`. */
  predicate Contributes(o: Offer, k: GroupKey, f: Offer -> Option<real>)
  {
    KeyOf(o) == Some(k) && f(o).Some?
  }

  /**
   * The least value of column `f` over the rows of group `k`, skipping
   * missing values; missing when the group has no value at all.
   */
  function MinOf(rows: seq<Offer>, k: GroupKey, f: Offer -> Option<real>): (r: Option<real>)
    ensures r.Some? <==> exists i :: 0 <= i < |rows| && Contributes(rows[i], k, f)
    ensures r.Some? ==> forall i :: 0 <= i < |rows| && Contributes(rows[i], k, f) ==> r.value <= f(rows[i]).value
    ensures r.Some? ==> exists i :: 0 <= i < |rows| && Contributes(rows[i], k, f) && f(rows[i]) == r
  {
    if rows == [] then None
    else
      var init := rows[..|rows| - 1];
      var last := rows[|rows| - 1];
      var rest := MinOf(init, k, f);
      assert forall i :: 0 <= i < |init| ==> init[i] == rows[i];
      MinOpt(rest, if KeyOf(last) == Some(k) then f(last) else None)
  }

  /** The groups the rows fall in. */
  function Keys(rows: seq<Offer>): (ks: set<GroupKey>)
    ensures forall k :: k in ks <==> exists i :: 0 <= i < |rows| && KeyOf(rows[i]) == Some(k)
  {
    set i | 0 <= i < |rows| && KeyOf(rows[i]).Some? :: KeyOf(rows[i]).value
  }

  /** `grouped`: one entry per group, holding the independent minima of price and price per mg. */
  function Group(rows: seq<Offer>): (g: map<GroupKey, Mins>)
    ensures g.Keys == Keys(rows)
  {
    map k | k in Keys(rows) :: Mins(MinOf(rows, k, (o: Offer) => o.price), MinOf(rows, k, (o: Offer) => o.ppm))
  }

  /**
   * The price of a group is the least price of its rows, present exactly when
   * one of them has a price, and it is the price of one of them; the same
   * holds, independently, for the price per mg.
   */
  lemma GroupMinima(rows: seq<Offer>, k: GroupKey)
    requires k in Group(rows)
    ensures Group(rows)[k].price.Some? <==> exists i :: 0 <= i < |rows| && KeyOf(rows[i]) == Some(k) && rows[i].price.Some?
    ensures Group(rows)[k].ppm.Some? <==> exists i :: 0 <= i < |rows| && KeyOf(rows[i]) == Some(k) && rows[i].ppm.Some?
    ensures forall i :: 0 <= i < |rows| && KeyOf(rows[i]) == Some(k) && rows[i].price.Some? ==>
      Group(rows)[k].price.value <= rows[i].price.value
    ensures forall i :: 0 <= i < |rows| && KeyOf(rows[i]) == Some(k) && rows[i].ppm.Some? ==>
      Group(rows)[k].ppm.value <= rows[i].ppm.value
    ensures Group(rows)[k].price.Some? ==> exists i :: 0 <= i < |rows| && KeyOf(rows[i]) == Some(k) && rows[i].price == Group(rows)[k].price
    ensures Group(rows)[k].ppm.Some? ==> exists i :: 0 <= i < |rows| && KeyOf(rows[i]) == Some(k) && rows[i].ppm == Group(rows)[k].ppm
  {
    var price := (o: Offer) => o.price;
    var ppm := (o: Offer) => o.ppm;
    var p := MinOf(rows, k, price);
    var q := MinOf(rows, k, ppm);
    assert Group(rows)[k] == Mins(p, q);
    assert forall i :: 0 <= i < |rows| ==> (Contributes(rows[i], k, price) <==> KeyOf(rows[i]) == Some(k) && rows[i].price.Some?);
    assert forall i :: 0 <= i < |rows| ==> (Contributes(rows[i], k, ppm) <==> KeyOf(rows[i]) == Some(k) && rows[i].ppm.Some?);
  }

  // ---------------------------------------------------------------------
  // pivot_table(index = peptide, dose, total; columns = vendor; min)
  // ---------------------------------------------------------------------

  function RowOf(k: GroupKey): PivotKey
  {
    PivotKey(k.peptide, k.dose, k.total)
  }

  function CellKey(pk: PivotKey, vendor: string): GroupKey
  {
    GroupKey(pk.peptide, pk.dose, pk.total, vendor)
  }

  /** A group with at least one value; the pivot drops all-missing entries. */
  predicate Present(m: Mins)
  {
    m.price.Some? || m.ppm.Some?
  }

  /** The pivot rows: the index values of groups that have a value. */
  function PivotRows(g: map<GroupKey, Mins>): set<PivotKey>
  {
    set k | k in g && Present(g[k]) :: RowOf(k)
  }

  /** The vendors with a value in pivot row `pk`. */
  function VendorsAt(g: map<GroupKey, Mins>, pk: PivotKey): set<string>
  {
    set k | k in g && RowOf(k) == pk && Present(g[k]) :: k.vendor
  }

  /** `pivot`: for each row, the vendor entries that hold a value. */
  function Pivot(g: map<GroupKey, Mins>): (p: map<PivotKey, map<string, Mins>>)
    ensures p.Keys == PivotRows(g)
    ensures forall pk :: pk in p ==> p[pk].Keys == VendorsAt(g, pk)
  {
    map pk | pk in PivotRows(g) :: map v | v in VendorsAt(g, pk) :: g[CellKey(pk, v)]
  }

  /** The pivot keeps every group that has a value, and holds nothing else. */
  lemma PivotRoundTrip(g: map<GroupKey, Mins>)
    ensures forall k :: k in g && Present(g[k]) ==>
      RowOf(k) in Pivot(g) && k.vendor in Pivot(g)[RowOf(k)] && Pivot(g)[RowOf(k)][k.vendor] == g[k]
    ensures forall pk, v :: pk in Pivot(g) && v in Pivot(g)[pk] ==>
      CellKey(pk, v) in g && Present(g[CellKey(pk, v)]) && Pivot(g)[pk][v] == g[CellKey(pk, v)]
  {
    var p := Pivot(g);
    forall k | k in g && Present(g[k])
      ensures RowOf(k) in p && k.vendor in p[RowOf(k)] && p[RowOf(k)][k.vendor] == g[k]
    {
      assert RowOf(k) in PivotRows(g);
      assert k.vendor in VendorsAt(g, RowOf(k));
      assert CellKey(RowOf(k), k.vendor) == k;
    }
    forall pk, v | pk in p && v in p[pk]
      ensures CellKey(pk, v) in g && Present(g[CellKey(pk, v)]) && p[pk][v] == g[CellKey(pk, v)]
    {
      var k :| k in g && RowOf(k) == pk && Present(g[k]) && k.vendor == v;
      assert CellKey(pk, v) == k;
    }
  }

  /** A vendor's price in a pivot row; missing when the vendor has no entry or no price there. */
  function PriceAt(p: map<PivotKey, map<string, Mins>>, pk: PivotKey, v: string): Option<real>
  {
    if pk in p && v in p[pk] then p[pk][v].price else None
  }

  /** A vendor's price per mg in a pivot row. */
  function PpmAt(p: map<PivotKey, map<string, Mins>>, pk: PivotKey, v: string): Option<real>
  {
    if pk in p && v in p[pk] then p[pk][v].ppm else None
  }

  /** The `<vendor>_price_usd` column exists: the pivot drops columns with no value at all. */
  predicate HasPriceColumn(p: map<PivotKey, map<string, Mins>>, v: string)
  {
    exists pk :: pk in p && PriceAt(p, pk, v).Some?
  }

  /** The `<vendor>_price_per_mg` column exists. */
  predicate HasPpmColumn(p: map<PivotKey, map<string, Mins>>, v: string)
  {
    exists pk :: pk in p && PpmAt(p, pk, v).Some?
  }

  /**
   * A vendor has a price column in the pivot of the filtered rows exactly
   * when one of its rows has a dose, a total and a price.
   */
  lemma PriceColumnOf(rows: seq<Offer>, v: string)
    ensures HasPriceColumn(Pivot(Group(rows)), v) <==>
      exists i :: 0 <= i < |rows| && rows[i].vendor == v && KeyOf(rows[i]).Some? && rows[i].price.Some?
  {
    var g := Group(rows);
    var p := Pivot(g);
    PivotRoundTrip(g);
    if HasPriceColumn(p, v) {
      var pk :| pk in p && PriceAt(p, pk, v).Some?;
      var k := CellKey(pk, v);
      GroupMinima(rows, k);
      var i :| 0 <= i < |rows| && KeyOf(rows[i]) == Some(k) && rows[i].price == g[k].price;
      assert rows[i].vendor == v;
    }
    if exists i :: 0 <= i < |rows| && rows[i].vendor == v && KeyOf(rows[i]).Some? && rows[i].price.Some? {
      var i :| 0 <= i < |rows| && rows[i].vendor == v && KeyOf(rows[i]).Some? && rows[i].price.Some?;
      var k := KeyOf(rows[i]).value;
      GroupMinima(rows, k);
      assert Present(g[k]);
      assert PriceAt(p, RowOf(k), v).Some?;
    }
  }
}
