/**
 * The rows the comparison app works on, the canonical peptide name it gives
 * each row, the "kit is ten vials" rule and the sidebar filters.
 */
module Offers {
  import opened Wrappers
  import Names
  import Aliases

  /** One row of the app's table, reduced to the columns the comparison reads. */
  datatype Offer = Offer(
    vendor: string,
    productName: string,
    canonical: string,
    dose: Option<real>,
    total: Option<real>,
    price: Option<real>,
    ppm: Option<real>)

  // ---------------------------------------------------------------------
  // canonical_peptide
  // ---------------------------------------------------------------------

  /**
   * The `canonical_peptide` of a product name: the character-level cleanup,
   * then the base and alias rules. The result is the cleaned name or one of
   * the rule literals.
   */
  function CanonicalPeptide(productName: string): (r: string)
    ensures r == Names.CleanName(productName) || r in Aliases.Literals()
  {
    Aliases.CanonicalOutcome(Names.CleanName(productName));
    Aliases.Canonical(Names.CleanName(productName))
  }

  // ---------------------------------------------------------------------
  // Kit override: total_mg_per_kit = dose_mg_per_vial * 10
  // ---------------------------------------------------------------------

  /** A row whose kit total agrees with the ten-vial rule. */
  predicate TenVials(o: Offer)
  {
    o.dose.Some? ==> o.total == Some(o.dose.value * 10.0)
  }

  /** The override for one row: a known dose fixes the total, a missing one leaves it. */
  function KitOverride(o: Offer): (r: Offer)
    ensures TenVials(r)
    ensures o.dose.None? ==> r == o
    ensures r.(total := o.total) == o
  {
    if o.dose.Some? then o.(total := Some(o.dose.value * 10.0)) else o
  }

  /** The override applied to the whole column. */
  function OverrideKits(rows: seq<Offer>): (r: seq<Offer>)
    ensures |r| == |rows|
    ensures forall i :: 0 <= i < |r| ==> r[i] == KitOverride(rows[i])
  {
    seq(|rows|, i requires 0 <= i < |rows| => KitOverride(rows[i]))
  }

  /** After the override every dosed row has a total, and running it again changes nothing. */
  lemma OverrideKitsIdempotent(rows: seq<Offer>)
    ensures forall i :: 0 <= i < |rows| ==> TenVials(OverrideKits(rows)[i])
    ensures forall i :: 0 <= i < |rows| && rows[i].dose.Some? ==> OverrideKits(rows)[i].total.Some?
    ensures OverrideKits(OverrideKits(rows)) == OverrideKits(rows)
  {
    var once := OverrideKits(rows);
    forall i | 0 <= i < |rows|
      ensures KitOverride(once[i]) == once[i]
    {
      OverrideFixed(once[i]);
    }
  }

  /** A row that already follows the ten-vial rule is left as it is. */
  lemma OverrideFixed(o: Offer)
    requires TenVials(o)
    ensures KitOverride(o) == o
  {
  }

  // ---------------------------------------------------------------------
  // Sidebar filters
  // ---------------------------------------------------------------------

  /** The rows that pass `keep`, in their original order (a boolean-mask selection). */
  function Where(rows: seq<Offer>, keep: Offer -> bool): (r: seq<Offer>)
    ensures |r| <= |rows|
    ensures forall o :: o in r <==> o in rows && keep(o)
  {
    if rows == [] then []
    else
      var rest := Where(rows[..|rows| - 1], keep);
      var last := rows[|rows| - 1];
      assert forall o :: o in rows <==> o in rows[..|rows| - 1] || o == last;
      if keep(last) then rest + [last] else rest
  }

  /** Selecting twice is selecting once by both masks. */
  lemma {:induction false} WhereTwice(rows: seq<Offer>, a: Offer -> bool, b: Offer -> bool, both: Offer -> bool)
    requires forall o :: both(o) == (a(o) && b(o))
    ensures Where(Where(rows, a), b) == Where(rows, both)
  {
    if rows != [] {
      var init := rows[..|rows| - 1];
      var last := rows[|rows| - 1];
      WhereTwice(init, a, b, both);
      if a(last) {
        var w := Where(init, a);
        assert (w + [last])[..|w|] == w;
      }
    }
  }

  /** Selecting by two masks that agree on every row gives the same rows. */
  lemma {:induction false} WhereSame(rows: seq<Offer>, a: Offer -> bool, b: Offer -> bool)
    requires forall o :: a(o) == b(o)
    ensures Where(rows, a) == Where(rows, b)
  {
    if rows != [] {
      WhereSame(rows[..|rows| - 1], a, b);
    }
  }

  /** Whether a row passes all three filters; an empty selection filters nothing. */
  predicate Passes(o: Offer, peptides: set<string>, vendors: set<string>, onlyWithPpm: bool)
  {
    (peptides == {} || o.canonical in peptides)
    && (vendors == {} || o.vendor in vendors)
    && (!onlyWithPpm || o.ppm.Some?)
  }

  /** The three filters, applied one after the other as the app does. */
  function Filter(rows: seq<Offer>, peptides: set<string>, vendors: set<string>, onlyWithPpm: bool): (r: seq<Offer>)
    ensures forall o :: o in r <==> o in rows && Passes(o, peptides, vendors, onlyWithPpm)
  {
    var byPeptide := if peptides != {} then Where(rows, (o: Offer) => o.canonical in peptides) else rows;
    var byVendor := if vendors != {} then Where(byPeptide, (o: Offer) => o.vendor in vendors) else byPeptide;
    if onlyWithPpm then Where(byVendor, (o: Offer) => o.ppm.Some?) else byVendor
  }

  /** The staged filters select the same rows, in the same order, as one combined mask. */
  lemma FilterOnePass(rows: seq<Offer>, peptides: set<string>, vendors: set<string>, onlyWithPpm: bool)
    ensures Filter(rows, peptides, vendors, onlyWithPpm) == Where(rows, (o: Offer) => Passes(o, peptides, vendors, onlyWithPpm))
  {
    var p := (o: Offer) => peptides == {} || o.canonical in peptides;
    var v := (o: Offer) => vendors == {} || o.vendor in vendors;
    var m := (o: Offer) => !onlyWithPpm || o.ppm.Some?;
    var pv := (o: Offer) => p(o) && v(o);
    var all := (o: Offer) => Passes(o, peptides, vendors, onlyWithPpm);
    var byPeptide := if peptides != {} then Where(rows, (o: Offer) => o.canonical in peptides) else rows;
    Stage(rows, peptides != {}, (o: Offer) => o.canonical in peptides, p);
    var byVendor := if vendors != {} then Where(byPeptide, (o: Offer) => o.vendor in vendors) else byPeptide;
    Stage(byPeptide, vendors != {}, (o: Offer) => o.vendor in vendors, v);
    WhereTwice(rows, p, v, pv);
    Stage(byVendor, onlyWithPpm, (o: Offer) => o.ppm.Some?, m);
    WhereTwice(rows, pv, m, all);
  }

  /** A filter the app applies only when `on` holds is one mask that passes everything when it does not. */
  lemma Stage(rows: seq<Offer>, on: bool, keep: Offer -> bool, mask: Offer -> bool)
    requires forall o :: mask(o) == (!on || keep(o))
    ensures (if on then Where(rows, keep) else rows) == Where(rows, mask)
  {
    if on {
      WhereSame(rows, keep, mask);
    } else {
      WhereSame(rows, (o: Offer) => true, mask);
      WhereAll(rows);
    }
  }

  /** A mask that keeps everything keeps the rows as they are. */
  lemma {:induction false} WhereAll(rows: seq<Offer>)
    ensures Where(rows, (o: Offer) => true) == rows
  {
    if rows != [] {
      WhereAll(rows[..|rows| - 1]);
    }
  }
}
