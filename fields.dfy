/**
 * Field extraction for one price-list row (prepare_data.py): the price parser,
 * the two regular-expression searches for the dose and the vial count, and
 * `standardize_row`, which combines them with Python's truthiness defaults.
 */
module Fields {
  import opened Wrappers
  import opened Chars
  import opened Numbers

  // ---------------------------------------------------------------------
  // Prices
  // ---------------------------------------------------------------------

  /** The text `to_float_price` hands to `float`: trimmed, every '$' and ',' removed. */
  function PriceText(s: string): (t: string)
    ensures '$' !in t && ',' !in t
  {
    RemoveChar(RemoveChar(Strip(s), '$'), ',')
  }

  /** `to_float_price`: `None` for a missing cell, for blank text and for text `float` rejects. */
  function ToFloatPrice(x: Option<string>): (r: Option<real>)
    ensures x.None? ==> r.None?
    ensures x.Some? && PriceText(x.value) == [] ==> r.None?
    ensures x.Some? && PriceText(x.value) != [] ==> r == ParseFloat(PriceText(x.value))
  {
    match x
    case None => None
    case Some(s) =>
      var t := PriceText(s);
      if t == [] then None else ParseFloat(t)
  }

  /** A dollar amount written `$<number>` reads back as that number. */
  lemma PriceRoundTrip(x: real)
    requires x >= 0.0 && IsExactDecimal(x)
    ensures ToFloatPrice(Some("$" + FormatNum(x))) == Some(x)
  {
    var n := FormatNum(x);
    DollarText(n);
    FormatRoundTrip(x);
  }

  lemma DollarText(n: string)
    requires |n| > 0 && IsDigit(n[|n| - 1]) && '$' !in n && ',' !in n
    ensures PriceText("$" + n) == n
  {
    DollarRemoved(n);
  }

  /** A thousands separator is ignored: `$<a>,<b>` reads as the digits of `a` and `b` run together. */
  lemma PriceThousands(a: string, b: string)
    requires |a| > 0 && |b| > 0 && AllDigits(a) && AllDigits(b)
    ensures AllDigits(a + b)
    ensures ToFloatPrice(Some("$" + a + "," + b)) == Some(DigitsValue(a + b) as real)
  {
    ThousandsText(a, b);
    ParseDigits(a + b);
  }

  lemma ThousandsText(a: string, b: string)
    requires |a| > 0 && |b| > 0 && AllDigits(a) && AllDigits(b)
    ensures PriceText("$" + a + "," + b) == a + b
  {
    var n := a + "," + b;
    assert "$" + a + "," + b == "$" + n;
    assert n[|n| - 1] == b[|b| - 1];
    assert '$' !in n by {
      assert forall i :: 0 <= i < |n| ==> IsDigit(n[i]) || n[i] == ',';
    }
    DollarRemoved(n);
    CommaRemoved(a, b);
  }

  lemma DollarRemoved(n: string)
    requires '$' !in n && |n| > 0 && IsDigit(n[|n| - 1])
    ensures RemoveChar(Strip("$" + n), '$') == n
  {
    DollarStrip(n);
    RemoveCharAppend("$", n, '$');
    assert RemoveChar("$", '$') == [];
  }

  lemma CommaRemoved(a: string, b: string)
    requires AllDigits(a) && AllDigits(b)
    ensures RemoveChar(a + "," + b, ',') == a + b
  {
    RemoveCharAppend(a, "," + b, ',');
    RemoveCharAppend(",", b, ',');
    assert RemoveChar(",", ',') == [];
    assert a + ("," + b) == a + "," + b;
  }

  lemma DollarStrip(n: string)
    requires |n| > 0 && IsDigit(n[|n| - 1])
    ensures Strip("$" + n) == "$" + n
  {
    var s := "$" + n;
    assert s[0] == '$' && s[|s| - 1] == n[|n| - 1];
  }

  /** A missing price cell rendered by `str(None)` is not a price. */
  lemma PriceOfNoneText()
    ensures ToFloatPrice(Some("None")) == None
  {
    NoneTextKept();
    NoneNotFloat();
  }

  lemma NoneTextKept()
    ensures PriceText("None") == "None"
  {
    var s := "None";
    assert !IsSpace(s[0]) && !IsSpace(s[|s| - 1]);
    assert Strip(s) == s;
    assert '$' !in s && ',' !in s;
  }

  lemma NoneNotFloat()
    ensures ParseFloat("None") == None
  {
    var s := "None";
    assert !IsSpace(s[0]) && !IsSpace(s[|s| - 1]);
    assert Strip(s) == s;
    assert !IsDigit(s[0]);
  }

  // ---------------------------------------------------------------------
  // Leftmost search for `(\d+(?:\.\d+)?)<unit>` and `(\d+)<unit>`
  // ---------------------------------------------------------------------

  /** The end of the run of digits starting at `i`. */
  function DigitsEnd(s: string, i: nat): (j: nat)
    requires i <= |s|
    ensures i <= j <= |s|
    ensures forall t :: i <= t < j ==> IsDigit(s[t])
    ensures j == |s| || !IsDigit(s[j])
    decreases |s| - i
  {
    if i < |s| && IsDigit(s[i]) then DigitsEnd(s, i + 1) else i
  }

  /** A run of digits ends exactly where `DigitsEnd` says. */
  lemma DigitsEndUnique(s: string, i: nat, k: nat)
    requires i <= k <= |s|
    requires forall t :: i <= t < k ==> IsDigit(s[t])
    requires k == |s| || !IsDigit(s[k])
    ensures k == DigitsEnd(s, i)
  {
  }

  predicate DigitsBetween(s: string, i: nat, k: nat)
    requires i <= k <= |s|
  {
    i < k && forall t :: i <= t < k ==> IsDigit(s[t])
  }

  /**
   * `s[i..k]` is what `\d+(?:\.\d+)?` (when `frac`) or `\d+` matches:
   * digits, optionally followed by '.' and more digits.
   */
  predicate NumeralAt(s: string, i: nat, k: nat, frac: bool)
    requires i <= k <= |s|
  {
    DigitsBetween(s, i, k)
    || (frac && exists d :: i < d < k && s[d] == '.' && DigitsBetween(s, i, d) && DigitsBetween(s, d + 1, k))
  }

  /** A unit word such as "mg" or "vials": it cannot continue a number. */
  predicate IsUnit(unit: string)
  {
    |unit| > 0 && !IsDigit(unit[0]) && unit[0] != '.'
  }

  /** The pattern matches at `i`, with the captured number ending at `k`. */
  predicate UnitAt(s: string, unit: string, frac: bool, i: nat, k: nat)
  {
    i <= k <= |s| && NumeralAt(s, i, k, frac) && unit <= s[k..]
  }

  /** At each start position the pattern captures at most one number. */
  lemma UnitAtUnique(s: string, unit: string, frac: bool, i: nat, k: nat, k': nat)
    requires IsUnit(unit)
    requires UnitAt(s, unit, frac, i, k) && UnitAt(s, unit, frac, i, k')
    ensures k == k'
  {
    UnitAtEnd(s, unit, frac, i, k);
    UnitAtEnd(s, unit, frac, i, k');
  }

  /** Where a match at `i` must end. */
  function MatchEnd(s: string, frac: bool, i: nat): nat
    requires i <= |s|
  {
    var j := DigitsEnd(s, i);
    if frac && j + 1 < |s| && s[j] == '.' then DigitsEnd(s, j + 1) else j
  }

  lemma UnitAtEnd(s: string, unit: string, frac: bool, i: nat, k: nat)
    requires IsUnit(unit) && UnitAt(s, unit, frac, i, k)
    ensures k == MatchEnd(s, frac, i)
  {
    assert s[k..][0] == unit[0];
    var j := DigitsEnd(s, i);
    if DigitsBetween(s, i, k) {
      DigitsEndUnique(s, i, k);
      if frac && j + 1 < |s| && s[j] == '.' {
        assert false;
      }
    } else {
      var d :| i < d < k && s[d] == '.' && DigitsBetween(s, i, d) && DigitsBetween(s, d + 1, k);
      DigitsEndUnique(s, i, d);
      DigitsEndUnique(s, d + 1, k);
    }
  }

  /** The matcher at one start position, with the backtracking worked out. */
  function MatchAt(s: string, unit: string, frac: bool, i: nat): (r: Option<nat>)
    requires IsUnit(unit) && i <= |s|
    ensures r.Some? ==> UnitAt(s, unit, frac, i, r.value)
    ensures r.None? ==> forall k :: !UnitAt(s, unit, frac, i, k)
  {
    var k := MatchEnd(s, frac, i);
    if i < k && NumeralAt(s, i, k, frac) && unit <= s[k..] then Some(k)
    else
      NoMatchAt(s, unit, frac, i);
      None
  }

  lemma NoMatchAt(s: string, unit: string, frac: bool, i: nat)
    requires IsUnit(unit) && i <= |s|
    requires var k := MatchEnd(s, frac, i); !(i < k && NumeralAt(s, i, k, frac) && unit <= s[k..])
    ensures forall k :: !UnitAt(s, unit, frac, i, k)
  {
    forall k | UnitAt(s, unit, frac, i, k)
      ensures false
    {
      UnitAtEnd(s, unit, frac, i, k);
    }
  }

  /** `re.search`: the leftmost start at or after `from` where the pattern matches. */
  function Search(s: string, unit: string, frac: bool, from: nat): (r: Option<(nat, nat)>)
    requires IsUnit(unit) && from <= |s|
    ensures r.Some? ==> from <= r.value.0 && UnitAt(s, unit, frac, r.value.0, r.value.1)
    ensures r.Some? ==> forall i, k :: from <= i < r.value.0 ==> !UnitAt(s, unit, frac, i, k)
    ensures r.None? ==> forall i, k :: from <= i ==> !UnitAt(s, unit, frac, i, k)
    decreases |s| - from
  {
    match MatchAt(s, unit, frac, from)
    case Some(k) => Some((from, k))
    case None =>
      if from == |s| then
        assert forall i, k :: from <= i && UnitAt(s, unit, frac, i, k) ==> i == from;
        None
      else Search(s, unit, frac, from + 1)
  }

  /** `str(text).lower().replace(" ", "")` */
  function Squeezed(text: string): (s: string)
    ensures ' ' !in s
  {
    RemoveChar(Lower(text), ' ')
  }

  // ---------------------------------------------------------------------
  // Dose and vial count
  // ---------------------------------------------------------------------

  /** The number captured by a match is one `float` accepts. */
  lemma NumeralParses(s: string, i: nat, k: nat, frac: bool)
    requires i <= k <= |s| && NumeralAt(s, i, k, frac)
    ensures ParseFloat(s[i..k]).Some?
  {
    if DigitsBetween(s, i, k) {
      DigitsParse(s, i, k);
    } else {
      var d :| i < d < k && s[d] == '.' && DigitsBetween(s, i, d) && DigitsBetween(s, d + 1, k);
      DecimalParses(s, i, d, k);
    }
  }

  lemma DigitsParse(s: string, i: nat, k: nat)
    requires i <= k <= |s| && DigitsBetween(s, i, k)
    ensures ParseFloat(s[i..k]).Some?
  {
    var t := s[i..k];
    assert AllDigits(t);
    ParseDigits(t);
  }

  lemma DecimalParses(s: string, i: nat, d: nat, k: nat)
    requires i < d < k <= |s| && s[d] == '.' && DigitsBetween(s, i, d) && DigitsBetween(s, d + 1, k)
    ensures ParseFloat(s[i..k]).Some?
  {
    var whole, fr := s[i..d], s[d + 1..k];
    assert AllDigits(whole) && AllDigits(fr);
    assert s[i..k] == whole + "." + fr;
    ParseDigitLed(s[i..k]);
    ParseWholeDotFrac(whole, fr);
  }

  /**
   * `extract_mg`: the number in the leftmost `<number>mg` of the lower-cased,
   * space-free text; `None` for empty text or when there is none.
   */
  function ExtractMg(text: string): (r: Option<real>)
    ensures r.Some? <==> text != [] && Search(Squeezed(text), "mg", true, 0).Some?
    ensures r.Some? ==> var m := Search(Squeezed(text), "mg", true, 0).value;
                        r == ParseFloat(Squeezed(text)[m.0..m.1])
  {
    if text == [] then None
    else
      var s := Squeezed(text);
      match Search(s, "mg", true, 0)
      case None => None
      case Some((i, k)) =>
        NumeralParses(s, i, k, true);
        ParseFloat(s[i..k])
  }

  /** The pattern `x(\d+)vials` matches at `i`. */
  predicate TimesVialsAt(s: string, i: nat, k: nat)
  {
    i < |s| && s[i] == 'x' && UnitAt(s, "vials", false, i + 1, k)
  }

  /** `re.search(r"x(\d+)vials", s)`, and the integer its group captures. */
  function SearchTimes(s: string, from: nat): (r: Option<nat>)
    requires from <= |s|
    ensures r.Some? ==> exists i: nat, k: nat :: from <= i && TimesVialsAt(s, i, k)
    decreases |s| - from
  {
    if from == |s| then None
    else match MatchAt(s, "vials", false, from + 1)
      case Some(k) =>
        if s[from] == 'x' then
          assert TimesVialsAt(s, from, k);
          Some(DigitsValue(s[from + 1..k]))
        else SearchTimes(s, from + 1)
      case None => SearchTimes(s, from + 1)
  }

  /**
   * `extract_vials`: the integer in the leftmost `<digits>vials`, then in the
   * leftmost `x<digits>vials`; `None` for empty text or when neither occurs.
   */
  function ExtractVials(text: string): (r: Option<nat>)
    ensures r.Some? <==> text != [] && Search(Squeezed(text), "vials", false, 0).Some?
    ensures r.Some? ==> var m := Search(Squeezed(text), "vials", false, 0).value;
                        AllDigits(Squeezed(text)[m.0..m.1])
                        && r.value == DigitsValue(Squeezed(text)[m.0..m.1])
  {
    if text == [] then None
    else
      var s := Squeezed(text);
      TimesFallbackUnreachable(s);
      match Search(s, "vials", false, 0)
      case Some((i, k)) => Some(DigitsValue(s[i..k]))
      case None => SearchTimes(s, 0)
  }

  /** The `x<digits>vials` fallback never decides: the plain pattern finds its digits first. */
  lemma TimesFallbackUnreachable(s: string)
    ensures SearchTimes(s, 0).Some? ==> Search(s, "vials", false, 0).Some?
  {
    if SearchTimes(s, 0).Some? {
      var i: nat, k: nat :| TimesVialsAt(s, i, k);
      assert UnitAt(s, "vials", false, i + 1, k);
    }
  }

  // ---------------------------------------------------------------------
  // standardize_row
  // ---------------------------------------------------------------------

  /** One normalised price-list row, as written to the master table. */
  datatype Listing = Listing(
    vendor: string,
    productName: string,
    specRaw: string,
    priceUsd: Option<real>,
    doseMgPerVial: Option<real>,
    vialsPerKit: nat,
    totalMgPerKit: Option<real>,
    pricePerMg: Option<real>,
    sourceFile: string)

  /** Python truthiness of an optional number: present and non-zero. */
  predicate Truthy(x: Option<real>) { x.Some? && x.value != 0.0 }

  /** `vials_per_kit`: the spec's vial count unless it is missing or zero, then 10. */
  function VialsOrTen(v: Option<nat>): (n: nat)
    ensures n >= 1
    ensures v.Some? && v.value != 0 ==> n == v.value
    ensures v.None? || v.value == 0 ==> n == 10
  {
    if v.Some? && v.value != 0 then v.value else 10
  }

  /** `extract_mg(spec) or extract_mg(product_name)`: the name is consulted only when the spec gives no non-zero dose. */
  function DoseOf(spec: string, productName: string): (d: Option<real>)
    ensures Truthy(ExtractMg(spec)) ==> d == ExtractMg(spec)
    ensures !Truthy(ExtractMg(spec)) ==> d == ExtractMg(productName)
  {
    var mg := ExtractMg(spec);
    if Truthy(mg) then mg else ExtractMg(productName)
  }

  /** `dose * vials if dose else None`: a kit total exists exactly for a non-zero dose, and is then non-zero. */
  function KitTotal(dose: Option<real>, vials: nat): (t: Option<real>)
    requires vials >= 1
    ensures t.Some? <==> Truthy(dose)
    ensures t.Some? ==> t.value == dose.value * vials as real && t.value != 0.0
  {
    if Truthy(dose) then
      TotalNonZero(dose.value, vials);
      Some(dose.value * vials as real)
    else None
  }

  /** A non-zero dose times at least one vial is non-zero. */
  lemma TotalNonZero(dose: real, vials: nat)
    requires dose != 0.0 && vials >= 1
    ensures dose * vials as real != 0.0
  {
  }

  /** `price / total if (price is not None and total) else None`: never a division by zero. */
  function PricePerMg(price: Option<real>, total: Option<real>): (q: Option<real>)
    ensures q.Some? <==> price.Some? && Truthy(total)
    ensures q.Some? ==> q.value * total.value == price.value
  {
    if price.Some? && Truthy(total) then Some(PerMg(price.value, total.value)) else None
  }

  /** `price / total_mg`, which times the total mg is the price. */
  function PerMg(price: real, totalMg: real): (q: real)
    requires totalMg != 0.0
    ensures q * totalMg == price
  {
    price / totalMg
  }

  /** `standardize_row` */
  function StandardizeRow(vendor: string, productName: string, spec: string, priceStr: string,
                          sourceFile: string): (r: Listing)
    ensures r.vendor == vendor && r.sourceFile == sourceFile
    ensures r.productName == Strip(productName) && r.specRaw == Strip(spec)
    ensures r.priceUsd == ToFloatPrice(Some(priceStr))
    ensures r.doseMgPerVial == DoseOf(spec, productName)
    ensures r.vialsPerKit >= 1
    ensures ExtractVials(spec).None? ==> r.vialsPerKit == 10
    ensures r.vialsPerKit == VialsOrTen(ExtractVials(spec))
    ensures r.totalMgPerKit == KitTotal(r.doseMgPerVial, r.vialsPerKit)
    ensures r.pricePerMg.Some? <==> r.priceUsd.Some? && r.totalMgPerKit.Some?
    ensures r.pricePerMg == PricePerMg(r.priceUsd, r.totalMgPerKit)
  {
    var price := ToFloatPrice(Some(priceStr));
    var dose := DoseOf(spec, productName);
    var vials := VialsOrTen(ExtractVials(spec));
    var total := KitTotal(dose, vials);
    Listing(vendor, Strip(productName), Strip(spec), price, dose, vials, total,
            PricePerMg(price, total), sourceFile)
  }
}
