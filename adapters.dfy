/**
 * The vendor adapters of prepare_data.py. A PDF document is given as the
 * tables `pdfplumber` extracts from each page (a cell is `None` or text); the
 * text-only list is given as its lines and the hand-made CSV as its records.
 * Each adapter walks its rows with a little carried state (`header_idx`,
 * `current_name`) and emits standardised listings.
 */
module Adapters {
  import opened Wrappers
  import opened Chars
  import opened Fields

  /** A table cell as `pdfplumber` gives it: `None` or text. */
  type Cell = Option<string>
  type Row = seq<Cell>
  type Table = seq<Row>
  /** `page.extract_tables() or []` for every page of a document. */
  type Document = seq<seq<Table>>

  /** `str(cell)` */
  function Str(c: Cell): string
  {
    match c
    case None => "None"
    case Some(s) => s
  }

  /** Python truthiness of a cell: present and non-empty. */
  predicate Filled(c: Cell) { c.Some? && c.value != [] }

  /** `r[i] if len(r) > i else default` */
  function CellAt(r: Row, i: nat, default: Cell): (c: Cell)
    ensures i < |r| ==> c == r[i]
    ensures i >= |r| ==> c == default
  {
    if i < |r| then r[i] else default
  }

  /** `not r or not r[0]` fails: the row has a first cell and it is not blank. */
  predicate HasKey(r: Row) { |r| > 0 && Filled(r[0]) }

  /** `any(kw in s for kw in kws)` */
  predicate AnyIn(s: string, kws: seq<string>)
  {
    exists j :: 0 <= j < |kws| && Contains(s, kws[j])
  }

  // ---------------------------------------------------------------------
  // Layouts
  // ---------------------------------------------------------------------

  /** The five table layouts, one per PDF price list. */
  datatype Layout = Hyb | Hxtnt | Violet | Zj | Uther
  {
    /** The vendor code written into each listing. */
    function Vendor(): string
    {
      match this
      case Hyb => "HYB"
      case Hxtnt => "HXTNT"
      case Violet => "Violet"
      case Zj => "ZJ"
      case Uther => "Uther"
    }

    /** `path.name` of the document the layout reads. */
    function SourceFile(): string
    {
      match this
      case Hyb => "HYB-Price List - Overview.pdf"
      case Hxtnt => "HXTNT-Lucy-price list.pdf"
      case Violet => "violet-list.pdf"
      case Zj => "ZJlist123.pdf"
      case Uther => "Uther_11-26.pdf"
    }

    /** The layouts that forward-fill the product name. */
    predicate Carries() { Hxtnt? || Violet? || Zj? }
  }

  // ---------------------------------------------------------------------
  // Header rows
  // ---------------------------------------------------------------------

  /** HYB: `str(row[0]).strip() == "Code"`; ZJ: `"SKU" in str(row[0])`. */
  datatype HeaderRule = CodeHeader | SkuHeader

  predicate IsHeader(rule: HeaderRule, r: Row)
  {
    |r| > 0 &&
    match rule
    case CodeHeader => Strip(Str(r[0])) == "Code"
    case SkuHeader => Contains(Str(r[0]), "SKU")
  }

  /** The first header row at or after `from`. */
  function FirstHeader(rule: HeaderRule, t: Table, from: nat): (h: Option<nat>)
    requires from <= |t|
    ensures h.Some? ==> from <= h.value < |t| && IsHeader(rule, t[h.value])
    ensures h.Some? ==> forall j :: from <= j < h.value ==> !IsHeader(rule, t[j])
    ensures h.None? ==> forall j :: from <= j < |t| ==> !IsHeader(rule, t[j])
    decreases |t| - from
  {
    if from == |t| then None
    else if IsHeader(rule, t[from]) then Some(from)
    else FirstHeader(rule, t, from + 1)
  }

  /** The `for idx, row in enumerate(table)` search that breaks at the first header row. */
  method FindHeader(rule: HeaderRule, t: Table) returns (h: Option<nat>)
    ensures h == FirstHeader(rule, t, 0)
  {
    h := None;
    var idx := 0;
    while idx < |t|
      invariant 0 <= idx <= |t|
      invariant FirstHeader(rule, t, 0) == FirstHeader(rule, t, idx)
    {
      if IsHeader(rule, t[idx]) {
        h := Some(idx);
        return;
      }
      idx := idx + 1;
    }
  }

  /** Where the row loop of a forward-filling layout starts. */
  function StartIndex(layout: Layout, t: Table): (s: nat)
    requires layout.Carries()
    ensures s <= |t| || t == []
  {
    if t == [] then 0
    else if layout.Zj? then
      match FirstHeader(SkuHeader, t, 0)
      case Some(h) => h + 1
      case None => 0
    else if |t[0]| > 0 && Contains(Str(t[0][0]), "Cat. No.") then 1
    else 0
  }

  // ---------------------------------------------------------------------
  // HYB: no forward fill, every keyed row after the "Code" header
  // ---------------------------------------------------------------------

  /** A HYB record comes from its own row alone: name, spec and the 1kit price are cells 1, 2 and 3. */
  function HybListing(r: Row): (l: Listing)
    ensures l.vendor == "HYB" && l.sourceFile == Hyb.SourceFile()
    ensures l.productName == Strip(Str(CellAt(r, 1, Some(""))))
    ensures l.specRaw == Strip(Str(CellAt(r, 2, Some(""))))
    ensures l.priceUsd == ToFloatPrice(Some(Str(CellAt(r, 3, None))))
  {
    StandardizeRow("HYB", Str(CellAt(r, 1, Some(""))), Str(CellAt(r, 2, Some(""))),
                   Str(CellAt(r, 3, None)), Hyb.SourceFile())
  }

  function HybRows(rows: seq<Row>): (out: seq<Listing>)
    ensures |out| <= |rows|
  {
    if rows == [] then []
    else
      var r := rows[|rows| - 1];
      HybRows(rows[..|rows| - 1]) + (if HasKey(r) then [HybListing(r)] else [])
  }

  function HybTable(t: Table): seq<Listing>
  {
    match FirstHeader(CodeHeader, t, 0)
    case None => []
    case Some(h) => HybRows(t[h + 1..])
  }

  /** The number of rows with a non-blank first cell. */
  function CountKeyed(rows: seq<Row>): (n: nat)
    ensures n <= |rows|
  {
    if rows == [] then 0
    else CountKeyed(rows[..|rows| - 1]) + (if HasKey(rows[|rows| - 1]) then 1 else 0)
  }

  /** HYB emits one listing for every keyed row after the header, priced or not. */
  lemma {:induction false} HybRowsCount(rows: seq<Row>)
    ensures |HybRows(rows)| == CountKeyed(rows)
  {
    if rows != [] {
      HybRowsCount(rows[..|rows| - 1]);
    }
  }

  /** The rows with a non-blank first cell, in order. */
  function KeyedRows(rows: seq<Row>): seq<Row>
  {
    if rows == [] then []
    else
      var r := rows[|rows| - 1];
      KeyedRows(rows[..|rows| - 1]) + (if HasKey(r) then [r] else [])
  }

  /** The keyed rows are exactly the rows with a non-blank first cell. */
  lemma {:induction false} KeyedRowsExact(rows: seq<Row>)
    ensures forall r :: r in KeyedRows(rows) <==> r in rows && HasKey(r)
  {
    if rows != [] {
      var init := rows[..|rows| - 1];
      KeyedRowsExact(init);
      FrontLast(rows);
    }
  }

  /**
   * HYB does not forward-fill: the k-th listing is the record of the k-th
   * keyed row, built from that row's cells alone.
   */
  lemma {:induction false} HybRowsKeyed(rows: seq<Row>)
    ensures |HybRows(rows)| == |KeyedRows(rows)|
    ensures forall k :: 0 <= k < |HybRows(rows)| ==> HybRows(rows)[k] == HybListing(KeyedRows(rows)[k])
  {
    if rows != [] {
      HybRowsKeyed(rows[..|rows| - 1]);
    }
  }

  /** A keyed HYB row with no price cell still becomes a listing, with no price. */
  lemma HybUnpriced(r: Row)
    requires HasKey(r) && |r| <= 3
    ensures HybListing(r).priceUsd == None
  {
    PriceOfNoneText();
  }

  lemma HybRowsSnoc(rows: seq<Row>, r: Row)
    ensures HybRows(rows + [r]) == HybRows(rows) + (if HasKey(r) then [HybListing(r)] else [])
  {
    assert (rows + [r])[..|rows|] == rows;
  }

  method ParseHybTable(t: Table) returns (out: seq<Listing>)
    ensures out == HybTable(t)
  {
    out := [];
    var header := FindHeader(CodeHeader, t);
    if header.None? {
      return;
    }
    out := HybLoop(t[header.value + 1..]);
  }

  /** The `for r in table[header_idx + 1:]` loop of the HYB parser. */
  method HybLoop(rows: seq<Row>) returns (out: seq<Listing>)
    ensures out == HybRows(rows)
  {
    out := [];
    var i := 0;
    while i < |rows|
      invariant 0 <= i <= |rows|
      invariant out == HybRows(rows[..i])
    {
      var r := rows[i];
      TakeNext(rows, i);
      HybRowsSnoc(rows[..i], r);
      if HasKey(r) {
        out := out + [HybListing(r)];
      }
      i := i + 1;
    }
    assert rows[..i] == rows;
  }

  // ---------------------------------------------------------------------
  // HXTNT, Violet and ZJ: the forward-filled product name
  // ---------------------------------------------------------------------

  /** A keyed row whose second cell names a product. */
  predicate NamesProduct(r: Row) { HasKey(r) && |r| > 1 && Filled(r[1]) }

  /** `current_name` after `rows`: the second cell of the latest row that names a product. */
  function CarriedName(rows: seq<Row>): (c: Cell)
    ensures c.None? || Filled(c)
  {
    if rows == [] then None
    else if NamesProduct(rows[|rows| - 1]) then rows[|rows| - 1][1]
    else CarriedName(rows[..|rows| - 1])
  }

  /** The carried name is the latest one given, and `None` only while none has been given. */
  lemma {:induction false} CarriedNameLatest(rows: seq<Row>)
    ensures CarriedName(rows).None? <==> forall j :: 0 <= j < |rows| ==> !NamesProduct(rows[j])
    ensures CarriedName(rows).Some? ==>
      exists j :: 0 <= j < |rows| && NamesProduct(rows[j]) && rows[j][1] == CarriedName(rows)
                  && forall j' :: j < j' < |rows| ==> !NamesProduct(rows[j'])
  {
    if rows != [] {
      var n := |rows| - 1;
      var init := rows[..n];
      CarriedNameLatest(init);
      assert forall j :: 0 <= j < n ==> init[j] == rows[j];
      if NamesProduct(rows[n]) {
        assert NamesProduct(rows[n]) && rows[n][1] == CarriedName(rows);
      } else if CarriedName(init).Some? {
        var j :| 0 <= j < n && NamesProduct(init[j]) && init[j][1] == CarriedName(init)
                 && forall j' :: j < j' < n ==> !NamesProduct(init[j']);
        assert NamesProduct(rows[j]) && rows[j][1] == CarriedName(rows);
        assert forall j' :: j < j' < |rows| ==> !NamesProduct(rows[j']);
      }
    }
  }

  /** One row of a forward-filling layout, given the name carried to it. */
  function CarryListing(layout: Layout, r: Row, name: Cell): (out: seq<Listing>)
    ensures |out| <= 1
  {
    var price := CellAt(r, 3, None);
    if HasKey(r) && Filled(name) && Filled(price) then
      [StandardizeRow(layout.Vendor(), Str(name), Str(CellAt(r, 2, Some(""))), Str(price), layout.SourceFile())]
    else []
  }

  function CarryRows(layout: Layout, rows: seq<Row>): (out: seq<Listing>)
    ensures |out| <= |rows|
  {
    if rows == [] then []
    else CarryRows(layout, rows[..|rows| - 1]) + CarryListing(layout, rows[|rows| - 1], CarriedName(rows))
  }

  /** Every listing a forward-filling layout emits carries that layout's vendor and source file. */
  lemma {:induction false} CarryRowsVendor(layout: Layout, rows: seq<Row>)
    ensures forall l :: l in CarryRows(layout, rows) ==> l.vendor == layout.Vendor() && l.sourceFile == layout.SourceFile()
  {
    if rows != [] {
      CarryRowsVendor(layout, rows[..|rows| - 1]);
    }
  }

  /** A prefix of a prefix. */
  lemma TakeTake<T>(s: seq<T>, k: nat, j: nat)
    requires j <= k <= |s|
    ensures s[..k][..j] == s[..j]
  {
  }

  /** The first `i + 1` elements are the first `i` followed by element `i`. */
  lemma TakeNext<T>(s: seq<T>, i: nat)
    requires i < |s|
    ensures s[..i + 1] == s[..i] + [s[i]]
  {
  }

  /** A non-empty sequence is its front followed by its last element. */
  lemma FrontLast<T>(s: seq<T>)
    requires s != []
    ensures s[..|s| - 1] + [s[|s| - 1]] == s
  {
  }

  /** Row `j` of `rows` emits listing `l`: it is keyed, a name is carried to it, and its price cell is filled. */
  predicate CarryEmits(layout: Layout, rows: seq<Row>, j: nat, l: Listing)
    requires j < |rows|
  {
    && HasKey(rows[j])
    && Filled(CarriedName(rows[..j + 1]))
    && Filled(CellAt(rows[j], 3, None))
    && l == StandardizeRow(layout.Vendor(), Str(CarriedName(rows[..j + 1])), Str(CellAt(rows[j], 2, Some(""))),
                           Str(CellAt(rows[j], 3, None)), layout.SourceFile())
  }

  /** Row `j` emits `l` exactly when its one-row listing is `[l]`. */
  lemma CarryEmitsListing(layout: Layout, rows: seq<Row>, j: nat, l: Listing)
    requires j < |rows|
    ensures CarryEmits(layout, rows, j, l) <==> CarryListing(layout, rows[j], CarriedName(rows[..j + 1])) == [l]
  {
  }

  /** What a row emits among the first `n` rows it emits among all of them. */
  lemma CarryEmitsPrefix(layout: Layout, rows: seq<Row>, n: nat, j: nat, l: Listing)
    requires j < n <= |rows| && CarryEmits(layout, rows[..n], j, l)
    ensures CarryEmits(layout, rows, j, l)
  {
    var init := rows[..n];
    var upTo := rows[..j + 1];
    assert init[..j + 1] == upTo by { TakeTake(rows, n, j + 1); }
    assert CarriedName(init[..j + 1]) == CarriedName(upTo);
    assert init[j] == rows[j];
  }

  /**
   * A forward-filling layout emits a listing only for a keyed row that has a
   * carried name and a filled price cell, standardised from that name, the
   * row's spec cell and its price cell.
   */
  lemma {:induction false} CarryRowsFilled(layout: Layout, rows: seq<Row>)
    ensures forall l :: l in CarryRows(layout, rows) ==> exists j :: 0 <= j < |rows| && CarryEmits(layout, rows, j, l)
  {
    if rows != [] {
      var n := |rows| - 1;
      var init := rows[..n];
      CarryRowsFilled(layout, init);
      FrontLast(rows);
      CarrySnoc(layout, init, rows[n]);
      forall l | l in CarryRows(layout, rows)
        ensures exists j :: 0 <= j < |rows| && CarryEmits(layout, rows, j, l)
      {
        if l in CarryRows(layout, init) {
          var j :| 0 <= j < n && CarryEmits(layout, init, j, l);
          CarryEmitsPrefix(layout, rows, n, j, l);
        } else {
          CarryEmitsLast(layout, rows, l);
        }
      }
    }
  }

  /** What the last row emits, given the name carried to it, it emits among all the rows. */
  lemma CarryEmitsLast(layout: Layout, rows: seq<Row>, l: Listing)
    requires rows != [] && l in CarryListing(layout, rows[|rows| - 1], CarriedName(rows))
    ensures CarryEmits(layout, rows, |rows| - 1, l)
  {
    var j := |rows| - 1;
    assert rows[..j + 1] == rows;
    CarryEmitsFrom(layout, rows, j, CarriedName(rows), l);
  }

  /** Row `j` emits what its one-row listing holds, given the name carried to it. */
  lemma CarryEmitsFrom(layout: Layout, rows: seq<Row>, j: nat, name: Cell, l: Listing)
    requires j < |rows| && name == CarriedName(rows[..j + 1]) && l in CarryListing(layout, rows[j], name)
    ensures CarryEmits(layout, rows, j, l)
  {
    SingleListing(CarryListing(layout, rows[j], name), l);
    CarryEmitsListing(layout, rows, j, l);
  }

  /** A sequence of at most one element that holds `x` is `[x]`. */
  lemma SingleListing<T>(s: seq<T>, x: T)
    requires |s| <= 1 && x in s
    ensures s == [x]
  {
  }

  /** The listings of a prefix of the rows come first, in order. */
  lemma {:induction false} CarryRowsPrefix(layout: Layout, rows: seq<Row>, k: nat)
    requires k <= |rows|
    ensures CarryRows(layout, rows[..k]) <= CarryRows(layout, rows)
    decreases |rows|
  {
    if k < |rows| {
      var n := |rows| - 1;
      FrontLast(rows);
      CarrySnoc(layout, rows[..n], rows[n]);
      TakeTake(rows, n, k);
      CarryRowsPrefix(layout, rows[..n], k);
    } else {
      assert rows[..k] == rows;
    }
  }

  /** Conversely, every such row does emit its listing. */
  lemma CarryRowsComplete(layout: Layout, rows: seq<Row>, j: nat, l: Listing)
    requires j < |rows| && CarryEmits(layout, rows, j, l)
    ensures l in CarryRows(layout, rows)
  {
    var front := rows[..j + 1];
    FrontLast(front);
    TakeTake(rows, j + 1, j);
    CarrySnoc(layout, rows[..j], rows[j]);
    CarryEmitsListing(layout, rows, j, l);
    assert l in CarryRows(layout, front);
    CarryRowsPrefix(layout, rows, j + 1);
  }

  /**
   * A row too short to hold a price cell emits nothing, so the blank spec a
   * two-cell row would get never reaches a listing; a longer row takes its
   * spec from its third cell.
   */
  lemma CarryShortRow(layout: Layout, r: Row, name: Cell)
    ensures |r| <= 3 ==> CarryListing(layout, r, name) == []
    ensures |r| > 3 && HasKey(r) && Filled(name) && Filled(r[3]) ==>
      CarryListing(layout, r, name) ==
        [StandardizeRow(layout.Vendor(), Str(name), Str(r[2]), Str(r[3]), layout.SourceFile())]
  {
  }

  /** A row with a blank first cell neither emits nor changes the carried name. */
  lemma UnkeyedRowIgnored(layout: Layout, rows: seq<Row>, r: Row)
    requires !HasKey(r)
    ensures CarriedName(rows + [r]) == CarriedName(rows)
    ensures CarryRows(layout, rows + [r]) == CarryRows(layout, rows)
  {
    assert (rows + [r])[..|rows|] == rows;
  }

  /** Rows before the first product name emit nothing. */
  lemma {:induction false} NoNameNoRows(layout: Layout, rows: seq<Row>)
    requires forall j :: 0 <= j < |rows| ==> !NamesProduct(rows[j])
    ensures CarryRows(layout, rows) == []
  {
    if rows != [] {
      CarriedNameLatest(rows);
      NoNameNoRows(layout, rows[..|rows| - 1]);
    }
  }

  function CarryTable(layout: Layout, t: Table): seq<Listing>
    requires layout.Carries()
  {
    if t == [] then [] else CarryRows(layout, t[StartIndex(layout, t)..])
  }

  method ParseCarryTable(layout: Layout, t: Table) returns (out: seq<Listing>)
    requires layout.Carries()
    ensures out == CarryTable(layout, t)
  {
    out := [];
    if t == [] {
      return;
    }
    var start := 0;
    if layout.Zj? {
      var header := FindHeader(SkuHeader, t);
      start := if header.Some? then header.value + 1 else 0;
    } else if |t[0]| > 0 && Contains(Str(t[0][0]), "Cat. No.") {
      start := 1;
    }
    assert start == StartIndex(layout, t);
    out := CarryLoop(layout, t[start..]);
  }

  /** One more row: the name it carries and the listing it emits. */
  lemma CarrySnoc(layout: Layout, rows: seq<Row>, r: Row)
    ensures CarriedName(rows + [r]) == if NamesProduct(r) then r[1] else CarriedName(rows)
    ensures CarryRows(layout, rows + [r]) == CarryRows(layout, rows) + CarryListing(layout, r, CarriedName(rows + [r]))
  {
    assert (rows + [r])[..|rows|] == rows;
  }

  /** One more row: the name it carries and the listing it emits. */
  lemma CarryStep(layout: Layout, rows: seq<Row>, r: Row, name: Cell, out: seq<Listing>)
    requires name == if NamesProduct(r) then r[1] else CarriedName(rows)
    requires out == CarryRows(layout, rows) + CarryListing(layout, r, name)
    ensures CarriedName(rows + [r]) == name && out == CarryRows(layout, rows + [r])
  {
    CarrySnoc(layout, rows, r);
  }

  /** The body of the `for r in table[start_idx:]` loop: one row read with the name carried to it. */
  method CarryRow(layout: Layout, r: Row, current: Cell, out: seq<Listing>) returns (current': Cell, out': seq<Listing>)
    ensures current' == if NamesProduct(r) then r[1] else current
    ensures out' == out + CarryListing(layout, r, current')
  {
    current', out' := current, out;
    if HasKey(r) {
      if |r| > 1 && Filled(r[1]) {
        current' := r[1];
      }
      var spec := CellAt(r, 2, Some(""));
      var price := CellAt(r, 3, None);
      if Filled(current') && Filled(price) {
        out' := out' + [StandardizeRow(layout.Vendor(), Str(current'), Str(spec), Str(price), layout.SourceFile())];
      }
    }
  }

  /** The `for r in table[start_idx:]` loop with its `current_name`. */
  method CarryLoop(layout: Layout, rows: seq<Row>) returns (out: seq<Listing>)
    ensures out == CarryRows(layout, rows)
  {
    out := [];
    var current: Cell := None;
    var i := 0;
    while i < |rows|
      invariant 0 <= i <= |rows|
      invariant current == CarriedName(rows[..i])
      invariant out == CarryRows(layout, rows[..i])
    {
      var r := rows[i];
      TakeNext(rows, i);
      current, out := CarryRow(layout, r, current, out);
      CarryStep(layout, rows[..i], r, current, out);
      i := i + 1;
    }
    assert rows[..i] == rows;
  }

  // ---------------------------------------------------------------------
  // Uther: skipped sections, priced rows only
  // ---------------------------------------------------------------------

  const UtherSkipWords: seq<string> := ["contact us", "about shipping", "weight", "cosmetic powder"]

  /** `not table or not table[0]`, or a first cell naming a contact, shipping or cosmetics section. */
  predicate UtherSkipped(t: Table)
  {
    t == [] || t[0] == [] || AnyIn(Lower(Str(t[0][0])), UtherSkipWords)
  }

  /** `r[0]` is truthy, and the first price column `r[1]` is filled and reads as a non-zero price. */
  predicate UtherKept(r: Row)
  {
    HasKey(r) && Filled(CellAt(r, 1, None)) && Truthy(ToFloatPrice(CellAt(r, 1, None)))
  }

  /** The record of a kept row: named and specified by its first cell, priced by its second. */
  function UtherRecord(r: Row): (l: Listing)
    requires |r| > 0
    ensures l.vendor == "Uther" && l.productName == l.specRaw == Strip(Str(r[0]))
    ensures l.priceUsd == ToFloatPrice(Some(Str(CellAt(r, 1, None))))
  {
    StandardizeRow("Uther", Str(r[0]), Str(r[0]), Str(CellAt(r, 1, None)), Uther.SourceFile())
  }

  function UtherListing(r: Row): seq<Listing>
  {
    if UtherKept(r) then [UtherRecord(r)] else []
  }

  function UtherRows(rows: seq<Row>): (out: seq<Listing>)
    ensures |out| <= |rows|
  {
    if rows == [] then []
    else UtherRows(rows[..|rows| - 1]) + UtherListing(rows[|rows| - 1])
  }

  /** Uther keeps only rows with a non-zero price, and names each product by its spec cell. */
  lemma {:induction false} UtherRowsPriced(rows: seq<Row>)
    ensures forall l :: l in UtherRows(rows) ==> l.priceUsd.Some? && l.priceUsd.value != 0.0 && l.specRaw == l.productName
  {
    if rows != [] {
      UtherRowsPriced(rows[..|rows| - 1]);
    }
  }

  /** Every Uther listing is the record of some kept row. */
  lemma {:induction false} UtherRowsFilled(rows: seq<Row>)
    ensures forall l :: l in UtherRows(rows) ==>
      exists j :: 0 <= j < |rows| && UtherKept(rows[j]) && l == UtherRecord(rows[j])
  {
    if rows != [] {
      var n := |rows| - 1;
      var init := rows[..n];
      UtherRowsFilled(init);
      forall l | l in UtherRows(rows)
        ensures exists j :: 0 <= j < |rows| && UtherKept(rows[j]) && l == UtherRecord(rows[j])
      {
        if l in UtherRows(init) {
          var j :| 0 <= j < n && UtherKept(init[j]) && l == UtherRecord(init[j]);
          assert init[j] == rows[j];
        } else {
          assert UtherKept(rows[n]) && l == UtherRecord(rows[n]);
        }
      }
    }
  }

  /** Every kept row has its record in the output. */
  lemma {:induction false} UtherRowsComplete(rows: seq<Row>, j: nat)
    requires j < |rows| && UtherKept(rows[j])
    ensures UtherRecord(rows[j]) in UtherRows(rows)
  {
    var n := |rows| - 1;
    var init := rows[..n];
    assert UtherRows(rows) == UtherRows(init) + UtherListing(rows[n]);
    if j == n {
      assert UtherListing(rows[j]) == [UtherRecord(rows[j])];
    } else {
      assert init[j] == rows[j];
      UtherRowsComplete(init, j);
    }
  }

  function UtherTable(t: Table): seq<Listing>
  {
    if UtherSkipped(t) then [] else UtherRows(t)
  }

  method ParseUtherTable(t: Table) returns (out: seq<Listing>)
    ensures out == UtherTable(t)
  {
    out := [];
    if t == [] || t[0] == [] {
      return;
    }
    var firstCell := Lower(Str(t[0][0]));
    var k := 0;
    while k < |UtherSkipWords|
      invariant 0 <= k <= |UtherSkipWords|
      invariant forall j :: 0 <= j < k ==> !Contains(firstCell, UtherSkipWords[j])
    {
      if Contains(firstCell, UtherSkipWords[k]) {
        return;
      }
      k := k + 1;
    }
    out := UtherLoop(t);
  }

  /** The `for r in table` loop of the Uther parser. */
  method UtherLoop(rows: seq<Row>) returns (out: seq<Listing>)
    ensures out == UtherRows(rows)
  {
    out := [];
    var i := 0;
    while i < |rows|
      invariant 0 <= i <= |rows|
      invariant out == UtherRows(rows[..i])
    {
      var r := rows[i];
      TakeNext(rows, i);
      assert rows[..i + 1][..i] == rows[..i];
      assert UtherRows(rows[..i + 1]) == UtherRows(rows[..i]) + UtherListing(r);
      var price := CellAt(r, 1, None);
      if HasKey(r) && Filled(price) && Truthy(ToFloatPrice(price)) {
        assert UtherListing(r) == [UtherRecord(r)];
        out := out + [StandardizeRow("Uther", Str(r[0]), Str(r[0]), Str(price), Uther.SourceFile())];
      } else {
        assert UtherListing(r) == [];
      }
      i := i + 1;
    }
    assert rows[..i] == rows;
  }

  // ---------------------------------------------------------------------
  // Documents
  // ---------------------------------------------------------------------

  /** The listings one table yields; an empty table yields none. */
  function TableRows(layout: Layout, t: Table): seq<Listing>
  {
    if t == [] then []
    else match layout
      case Hyb => HybTable(t)
      case Uther => UtherTable(t)
      case _ => CarryTable(layout, t)
  }

  function PageRows(layout: Layout, tables: seq<Table>): seq<Listing>
  {
    if tables == [] then []
    else PageRows(layout, tables[..|tables| - 1]) + TableRows(layout, tables[|tables| - 1])
  }

  function DocumentRows(layout: Layout, doc: Document): seq<Listing>
  {
    if doc == [] then []
    else DocumentRows(layout, doc[..|doc| - 1]) + PageRows(layout, doc[|doc| - 1])
  }

  method ParseTable(layout: Layout, t: Table) returns (out: seq<Listing>)
    ensures out == TableRows(layout, t)
  {
    if t == [] {
      out := [];
    } else if layout.Hyb? {
      out := ParseHybTable(t);
    } else if layout.Uther? {
      out := ParseUtherTable(t);
    } else {
      out := ParseCarryTable(layout, t);
    }
  }

  lemma PageRowsSnoc(layout: Layout, tables: seq<Table>, q: nat)
    requires q < |tables|
    ensures PageRows(layout, tables[..q + 1]) == PageRows(layout, tables[..q]) + TableRows(layout, tables[q])
  {
    assert tables[..q + 1][..q] == tables[..q];
  }

  /** The tables of one page, in order. */
  method ParsePage(layout: Layout, tables: seq<Table>) returns (rows: seq<Listing>)
    ensures rows == PageRows(layout, tables)
  {
    rows := [];
    var q := 0;
    while q < |tables|
      invariant 0 <= q <= |tables|
      invariant rows == PageRows(layout, tables[..q])
    {
      var tableRows := ParseTable(layout, tables[q]);
      PageRowsSnoc(layout, tables, q);
      rows := rows + tableRows;
      q := q + 1;
    }
    assert tables[..q] == tables;
  }

  lemma DocumentRowsSnoc(layout: Layout, doc: Document, p: nat)
    requires p < |doc|
    ensures DocumentRows(layout, doc[..p + 1]) == DocumentRows(layout, doc[..p]) + PageRows(layout, doc[p])
  {
    assert doc[..p + 1][..p] == doc[..p];
  }

  /** `parse_hyb`, `parse_cn_full`, `parse_violet_single`, `parse_zj`, `parse_uther`. */
  method ParseDocument(layout: Layout, doc: Document) returns (rows: seq<Listing>)
    ensures rows == DocumentRows(layout, doc)
  {
    rows := [];
    var p := 0;
    while p < |doc|
      invariant 0 <= p <= |doc|
      invariant rows == DocumentRows(layout, doc[..p])
    {
      var pageRows := ParsePage(layout, doc[p]);
      DocumentRowsSnoc(layout, doc, p);
      rows := rows + pageRows;
      p := p + 1;
    }
    assert doc[..p] == doc;
  }

  // ---------------------------------------------------------------------
  // Mix: a plain text list
  // ---------------------------------------------------------------------

  const MixSkipWords: seq<string> := ["MIX-Peptides", "Ship  from US Warehouse", "Products/kit", "ham@mix-peptides"]

  /** The length of the run of non-whitespace at the front of `s`. */
  function WordLength(s: string): (n: nat)
    ensures n <= |s|
    ensures forall i :: 0 <= i < n ==> !IsSpace(s[i])
    ensures n == |s| || IsSpace(s[n])
  {
    if s == [] || IsSpace(s[0]) then 0 else 1 + WordLength(s[1..])
  }

  /** `str.split()`: the maximal runs of non-whitespace, in order. */
  function Words(s: string): (ws: seq<string>)
    ensures forall w :: w in ws ==> w != [] && forall c :: c in w ==> !IsSpace(c)
    decreases |s|
  {
    if s == [] then []
    else if IsSpace(s[0]) then Words(s[1..])
    else
      var n := WordLength(s);
      [s[..n]] + Words(s[n..])
  }

  /** `" ".join(ws)` */
  function Unwords(ws: seq<string>): string
  {
    if ws == [] then [] else if |ws| == 1 then ws[0] else ws[0] + " " + Unwords(ws[1..])
  }

  /** Splitting undoes joining with single spaces, for words without whitespace. */
  lemma {:induction false} WordsUnwords(ws: seq<string>)
    requires forall w :: w in ws ==> w != [] && forall c :: c in w ==> !IsSpace(c)
    ensures Words(Unwords(ws)) == ws
  {
    if ws != [] {
      var w := ws[0];
      assert w in ws;
      if |ws| == 1 {
        WordsWhole(w, []);
        assert w + [] == w;
        assert Unwords(ws) == w;
      } else {
        var rest := Unwords(ws[1..]);
        assert forall v :: v in ws[1..] ==> v in ws;
        WordsUnwords(ws[1..]);
        WordsWhole(w, " " + rest);
        assert w + " " + rest == w + (" " + rest);
        assert (" " + rest)[1..] == rest;
      }
    }
  }

  /** A word followed by nothing or by whitespace is split off whole. */
  lemma {:induction false} WordsWhole(w: string, tail: string)
    requires w != [] && forall c :: c in w ==> !IsSpace(c)
    requires tail == [] || IsSpace(tail[0])
    ensures Words(w + tail) == [w] + Words(tail)
  {
    var s := w + tail;
    assert s[0] == w[0];
    WordLengthOf(w, tail);
    assert s[..|w|] == w && s[|w|..] == tail;
  }

  lemma {:induction false} WordLengthOf(w: string, tail: string)
    requires forall c :: c in w ==> !IsSpace(c)
    requires tail == [] || IsSpace(tail[0])
    ensures WordLength(w + tail) == |w|
    decreases |w|
  {
    if w == [] {
      assert w + tail == tail;
    } else {
      assert w[0] in w;
      assert forall c :: c in w[1..] ==> c in w;
      WordLengthOf(w[1..], tail);
      assert (w + tail)[1..] == w[1..] + tail;
    }
  }

  /** One line of the Mix list: the first token is the name and the spec, the last the price. */
  function MixLine(line: string): (out: seq<Listing>)
    ensures |out| <= 1
  {
    var t := Strip(line);
    if t == [] || AnyIn(t, MixSkipWords) then []
    else
      var parts := Words(t);
      if |parts| < 2 then []
      else [StandardizeRow("Mix", parts[0], parts[0], parts[|parts| - 1], "Mix_price-list (3).pdf")]
  }

  /**
   * A blank line, a line whose stripped text holds one of the skip phrases,
   * and a line of fewer than two tokens give no listing.
   */
  lemma MixLineSkipped(line: string)
    ensures (forall i :: 0 <= i < |line| ==> IsSpace(line[i])) ==> MixLine(line) == []
    ensures AnyIn(Strip(line), MixSkipWords) ==> MixLine(line) == []
    ensures |Words(Strip(line))| < 2 ==> MixLine(line) == []
  {
    var lo := StripMiddle(line);
    if Strip(line) != [] {
      assert line[lo] == Strip(line)[0];
    }
  }

  /** Joined tokens start with the first token's first character and end with the last token's last. */
  lemma {:induction false} UnwordsEnds(ws: seq<string>)
    requires |ws| >= 1 && forall i :: 0 <= i < |ws| ==> ws[i] != []
    ensures |Unwords(ws)| >= |ws[0]|
    ensures Unwords(ws)[0] == ws[0][0]
    ensures Unwords(ws)[|Unwords(ws)| - 1] == ws[|ws| - 1][|ws[|ws| - 1]| - 1]
  {
    if |ws| > 1 {
      var rest := Unwords(ws[1..]);
      UnwordsEnds(ws[1..]);
      assert Unwords(ws) == ws[0] + " " + rest;
      assert Unwords(ws)[|Unwords(ws)| - 1] == rest[|rest| - 1];
    }
  }

  /** Every one of `ws` is a token: non-empty and free of whitespace. */
  predicate AllTokens(ws: seq<string>)
  {
    ws == [] || (ws[0] != [] && (forall c :: c in ws[0] ==> !IsSpace(c)) && AllTokens(ws[1..]))
  }

  lemma {:induction false} AllTokensEach(ws: seq<string>)
    requires AllTokens(ws)
    ensures forall w :: w in ws ==> w != [] && forall c :: c in w ==> !IsSpace(c)
  {
    if ws != [] {
      AllTokensEach(ws[1..]);
      assert forall w :: w in ws ==> w == ws[0] || w in ws[1..];
    }
  }

  /**
   * A line of two or more tokens becomes one listing named by its first
   * token and priced by its last; the tokens between are ignored.
   */
  lemma MixTokens(ws: seq<string>)
    requires |ws| >= 2 && AllTokens(ws)
    requires !AnyIn(Unwords(ws), MixSkipWords)
    ensures MixLine(Unwords(ws)) == [StandardizeRow("Mix", ws[0], ws[0], ws[|ws| - 1], "Mix_price-list (3).pdf")]
  {
    var line := Unwords(ws);
    assert Strip(line) == line by {
      AllTokensEach(ws);
      UnwordsStripped(ws);
    }
    assert Words(line) == ws by {
      AllTokensEach(ws);
      WordsUnwords(ws);
    }
    MixLineOf(line, ws);
  }

  /** A stripped line without a skip phrase and of two or more tokens gives its listing. */
  lemma MixLineOf(line: string, ws: seq<string>)
    requires !AnyIn(line, MixSkipWords) && Strip(line) == line
    requires Words(line) == ws && |ws| >= 2
    ensures MixLine(line) == [StandardizeRow("Mix", ws[0], ws[0], ws[|ws| - 1], "Mix_price-list (3).pdf")]
  {
  }

  /** Tokens without whitespace, joined by single spaces, need no stripping. */
  lemma UnwordsStripped(ws: seq<string>)
    requires |ws| >= 1 && forall w :: w in ws ==> w != [] && forall c :: c in w ==> !IsSpace(c)
    ensures Strip(Unwords(ws)) == Unwords(ws)
  {
    var line := Unwords(ws);
    assert forall i :: 0 <= i < |ws| ==> ws[i] in ws;
    UnwordsEnds(ws);
    assert ws[0][0] in ws[0] && ws[0] in ws;
    var last := ws[|ws| - 1];
    assert last[|last| - 1] in last && last in ws;
  }

  function MixRows(lines: seq<string>): seq<Listing>
  {
    if lines == [] then []
    else MixRows(lines[..|lines| - 1]) + MixLine(lines[|lines| - 1])
  }

  /** `parse_mix` over the lines of the extracted text. */
  method ParseMix(lines: seq<string>) returns (rows: seq<Listing>)
    ensures rows == MixRows(lines)
  {
    rows := [];
    var i := 0;
    while i < |lines|
      invariant 0 <= i <= |lines|
      invariant rows == MixRows(lines[..i])
    {
      assert lines[..i + 1][..i] == lines[..i];
      rows := rows + MixLine(lines[i]);
      i := i + 1;
    }
    assert lines[..i] == lines;
  }

  // ---------------------------------------------------------------------
  // Jeep: the hand-made CSV
  // ---------------------------------------------------------------------

  /** A CSV record: column name to cell text, `None` for a NaN cell. */
  type Record = map<string, Option<string>>

  /**
   * `str(r.get(column, default))`: a NaN cell reads "nan". The product name,
   * the price and the two spec parts are read this way; the vendor is read
   * the same way here although the source does not pass it through `str`.
   */
  function Field(r: Record, column: string, default: string): string
  {
    if column in r then (match r[column] case None => "nan" case Some(v) => v) else default
  }

  /** One CSV record; the spec is the dose text and the package text joined by a space. */
  function JeepListing(r: Record): (l: Listing)
    ensures "vendor" !in r ==> l.vendor == "Jeep"
    ensures "vendor" in r && r["vendor"].Some? ==> l.vendor == r["vendor"].value
    ensures "product_name" !in r ==> l.productName == []
    ensures "product_name" in r && r["product_name"].Some? ==> l.productName == Strip(r["product_name"].value)
    ensures l.specRaw == Strip(Field(r, "dose_text", "") + " " + Field(r, "package_text", ""))
    ensures "price_usd" !in r ==> l.priceUsd.None?
    ensures l.priceUsd == ToFloatPrice(Some(Field(r, "price_usd", "")))
    ensures l.sourceFile == "jeep_manual.csv"
  {
    StandardizeRow(Field(r, "vendor", "Jeep"), Field(r, "product_name", ""),
                   Field(r, "dose_text", "") + " " + Field(r, "package_text", ""),
                   Field(r, "price_usd", ""), "jeep_manual.csv")
  }

  function JeepRows(records: seq<Record>): (out: seq<Listing>)
    ensures |out| == |records|
  {
    if records == [] then [] else JeepRows(records[..|records| - 1]) + [JeepListing(records[|records| - 1])]
  }

  /** `parse_jeep_csv`: one listing per record, in order. */
  method ParseJeep(records: seq<Record>) returns (rows: seq<Listing>)
    ensures rows == JeepRows(records)
  {
    rows := [];
    var i := 0;
    while i < |records|
      invariant 0 <= i <= |records|
      invariant rows == JeepRows(records[..i])
    {
      assert records[..i + 1][..i] == records[..i];
      rows := rows + [JeepListing(records[i])];
      i := i + 1;
    }
    assert records[..i] == records;
  }
}
