# Peptide price comparator — a verified model of its core

The system compares peptide prices across vendors in two stages.

`prepare_data.py` reads each vendor's price list and turns every row into one standardised record. The price lists are PDF tables, a plain-text list and a hand-made CSV. Each record holds:
- the vendor, product name and spec text;
- the kit price;
- the dose per vial and the vials per kit;
- the total mg per kit and the price per mg;
- a coarse `peptide_key`.

`app/app.py` does the rest:
1. It adds vendor CSVs uploaded at run time.
2. It cleans every product name into a canonical peptide name, then overwrites it with an ordered block of alias rules.
3. It forces every kit to ten vials and applies the sidebar filters.
4. It groups the rows by (peptide, dose, kit total, vendor), taking the minimum price and the minimum price per mg of each group.
5. It pivots the groups into one row per (peptide, dose, kit total). It ranks the vendors of each row by price per mg, marks the best and second-best, and shows the cells.
6. It keeps the user's ticked rows across refreshes as a set of row keys `peptide|dose|total`. It decodes those keys and builds a price list of the ticked rows, with one column per vendor that prices any of them. The columns are ordered by the vendor's total and followed by a TOTAL row.

The model follows the source module by module:

| file | models |
|---|---|
| `chars.dfy`, `numbers.dfy` | Python string primitives (`strip`, `upper`, `in`, `replace`), `float()` on decimal text, and `repr` of a float |
| `fields.dfy` | `to_float_price`, `extract_mg`, `extract_vials` (leftmost regular-expression search), `standardize_row` |
| `adapters.dfy` | the HYB, HXTNT, Violet, ZJ, Mix, Uther and Jeep adapters |
| `names.dfy` | `peptide_key` and the canonical-name clean-up |
| `aliases.dfy` | the base rules and the alias block |
| `offers.dfy` | the canonical name, the ten-vial rule and the filters |
| `grouping.dfy` | grouping and pivoting |
| `ranking.dfy` | row ranking and cell building |
| `display.dfy` | the comparison table and its column layout |
| `upload.dfy` | run-time uploads |
| `selection.dfy` | row keys and the selection state |
| `pricelist.dfy` | the price list |

These loops of the source are methods, each proved equal to a specification function:
- the adapters' row loops (`Adapters.HybLoop`, `CarryLoop` with its body `CarryRow`, `UtherLoop`, `ParseMix`, `ParseJeep`) and their table, page and document walks;
- the header search (`Adapters.FindHeader`);
- the alias block (`Aliases.ApplyRules`, `NormalizeAliases`);
- the cell loop at app/app.py:330-351 (`Ranking.BuildCells`);
- the upload loop (`Upload.AddUploads`);
- the decoding loop (`Selection.DecodeSelection`) and `list(set)` (`Selection.ListOf`).

`st.session_state` is a class whose `Update` method replaces the stored key list.

Four other loops are functions over values:
- the price-per-mg column loop at app/app.py:294-297 (`Display.PpmVendors`, `Only`);
- the vendor loop at app/app.py:313-351 that adds a column to `display` on each pass (`Display.VendorCells`, `ShownVendors`);
- the column fill at app/app.py:92-94 (`Upload.Conform`);
- the TOTAL-row loop at app/app.py:462-463 (`PriceList.Totals`).

Everything else is a function.

The alias rules overwrite a DataFrame column in place, so `ApplyRules` and `NormalizeAliases` work on an `array<string>`.

Three behaviours of the code are worth stating outright:
- A stored row key that does not split into exactly three parts raises `ValueError` at the unpacking of app/app.py:412, and that stops the decoding of the whole selection. Only a number that does not parse becomes "unknown" (`Selection.DecodeKey`).
- The price per mg exists whenever the kit total is non-zero. The total need not be positive (`Fields.PricePerMg`).
- The canonical-name clean-up is not idempotent: "5 10MG MG" becomes "5 MG" and then "" (`Names.CleanNameNotIdempotent`). Its shape and its fixed points are proved (`Names.CleanNameShape`, `Names.CleanNameFixed`).

## Model

| member | source | states |
|---|---|---|
| Fields.ToFloatPrice | prepare_data.py:16-26 | missing cell or blank text gives no price; otherwise the price is `float` of the text with '$' and ',' removed |
| Fields.PriceRoundTrip | prepare_data.py:16-26 | a price written `$<repr of x>` reads back as x |
| Fields.PriceThousands | prepare_data.py:19-24 | `$a,b` reads as the digits of a and b run together (the thousands separator is ignored) |
| Fields.PriceOfNoneText | prepare_data.py:113-119 | `str(None)` as a price cell gives no price |
| Fields.ExtractMg | prepare_data.py:29-39 | present iff the text is non-empty and `<number>mg` occurs in the lower-cased, space-free text; then it is the number of the leftmost match |
| Fields.ExtractVials | prepare_data.py:42-56 | present iff the text is non-empty and `<digits>vials` occurs; then it is the integer of the leftmost match |
| Fields.TimesFallbackUnreachable | prepare_data.py:50-55 | whenever `x(\d+)vials` would match, `(\d+)vials` has already matched, so the fallback search never decides |
| Fields.VialsOrTen | prepare_data.py:62 | the spec's vial count when it is present and non-zero; 10 when it is missing or zero; never below 1 |
| Fields.DoseOf | prepare_data.py:61 | the spec's dose when it is non-zero, else the product name's |
| Fields.KitTotal | prepare_data.py:63 | a total exists iff the dose is non-zero; it is dose × vials and non-zero |
| Fields.PricePerMg | prepare_data.py:64 | present iff the price is present and the total is non-zero; the quotient times the total is the price |
| Fields.StandardizeRow | prepare_data.py:59-76 | the record's fields: stripped texts, parsed price, dose, vials per kit equal to the spec's count or 10 when that is missing or zero, the total from that dose and vial count, and a price per mg present iff price and total are |
| Adapters.FindHeader | prepare_data.py:100-107 | the index of the first header row, or none when no row is a header |
| Adapters.HybListing | prepare_data.py:113-119 | a HYB record is built from its own row alone: vendor HYB, name from cell 1, spec from cell 2 (both "" when absent, stripped) and the price from the 1kit cell 3 (`str(None)` when absent) |
| Adapters.KeyedRowsExact | prepare_data.py:109-111 | the keyed rows are exactly the rows whose first cell is non-blank |
| Adapters.HybRowsKeyed | prepare_data.py:109-119 | HYB does not forward-fill: the k-th listing is the record of the k-th keyed row, and there is one listing per keyed row |
| Adapters.HybRowsCount | prepare_data.py:109-120 | HYB emits exactly one listing per keyed row after the header |
| Adapters.HybUnpriced | prepare_data.py:113-119 | a keyed HYB row with no price cell still becomes a listing, with no price |
| Adapters.ParseHybTable | prepare_data.py:96-120 | equals the HYB table specification: nothing without a "Code" header, else the keyed rows after it |
| Adapters.HybLoop | prepare_data.py:109-120 | the row loop equals the HYB row specification |
| Adapters.CarriedNameLatest | prepare_data.py:148-154 | the carried name is the second cell of the latest row that names a product, and none exactly while no row has |
| Adapters.UnkeyedRowIgnored | prepare_data.py:150-151 | a row with a blank first cell changes neither the carried name nor the output |
| Adapters.CarryRowsFilled | prepare_data.py:149-166 | every listing of a forward-filling layout comes from some keyed row with a carried name and a filled price cell, and is the standardised record of that name, the row's spec cell (default "") and its price cell |
| Adapters.CarryRowsComplete | prepare_data.py:149-166 | every keyed row with a carried name and a filled price cell yields its listing |
| Adapters.CarryShortRow | prepare_data.py:156-160 | a row of at most three cells has no price (the default `None`) and emits nothing; a longer keyed row with a name and a filled fourth cell emits the record of that name, its third cell and its fourth |
| Adapters.NoNameNoRows | prepare_data.py:155-160 | rows before the first product name emit nothing |
| Adapters.CarryRowsVendor | prepare_data.py:162-166 | every listing of a forward-filling layout carries that layout's vendor and file name |
| Adapters.ParseCarryTable | prepare_data.py:139-166 | equals the carry-table specification, with the start row chosen by the "Cat. No." test (HXTNT, Violet) or the "SKU" header (ZJ, lines 232-237) |
| Adapters.CarryLoop | prepare_data.py:148-166 | the row loop with its `current_name` equals the carry-row specification |
| Adapters.CarryRow | prepare_data.py:150-166 | one pass of the loop body: the carried name becomes the row's second cell exactly when the row is keyed and names a product, and the row adds its one-row listing under that name (nothing for an unkeyed row) |
| Adapters.UtherRowsPriced | prepare_data.py:330-342 | every Uther listing has a non-zero price and the same product name and spec |
| Adapters.UtherRecord | prepare_data.py:337-341 | an Uther record is named and specified by the row's first cell and priced from its second cell, the first price column |
| Adapters.UtherRowsFilled | prepare_data.py:330-342 | every Uther listing is the record of some row whose first cell is non-blank and whose second cell is filled and reads as a non-zero price |
| Adapters.UtherRowsComplete | prepare_data.py:330-342 | every such row has its record among the listings |
| Adapters.ParseUtherTable | prepare_data.py:317-342 | nothing for an empty table or a skipped section, else the Uther row specification |
| Adapters.UtherLoop | prepare_data.py:330-342 | the row loop equals the Uther row specification |
| Adapters.ParseTable | prepare_data.py:96-98 | one table's listings by layout; an empty table gives none |
| Adapters.ParsePage | prepare_data.py:95-96 | the tables of a page, in order |
| Adapters.ParseDocument | prepare_data.py:93-121 | the pages of a document, in order |
| Adapters.WordsUnwords | prepare_data.py:287 | `split()` undoes joining whitespace-free words with single spaces |
| Adapters.MixLineSkipped | prepare_data.py:276-289 | a blank line, a line whose stripped text holds a skip phrase, and a line of fewer than two tokens give no listing |
| Adapters.MixTokens | prepare_data.py:287-296 | a line of two or more whitespace-free tokens holding no skip phrase becomes exactly one listing, named and specified by its first token and priced by its last; the tokens between are ignored |
| Adapters.ParseMix | prepare_data.py:276-298 | the line loop equals the Mix specification |
| Adapters.JeepListing | prepare_data.py:361-372 | the vendor is the record's vendor, defaulting to "Jeep"; the product name is the record's, stripped, defaulting to empty; the spec is the dose and package text joined by a space; the price is the record's price text read by the price parser, so a record without a price has none; the file is jeep_manual.csv |
| Adapters.JeepRows | prepare_data.py:361-374 | one listing per CSV record |
| Adapters.ParseJeep | prepare_data.py:361-374 | the record loop equals the Jeep specification |
| Names.PeptideKeyShape | prepare_data.py:392-398 | a key holds only `[A-Z0-9-]` and single inner spaces, and is trimmed |
| Names.PeptideKeyIdempotent | prepare_data.py:392-398 | normalising a key again changes nothing |
| Names.DoseEndBoundaries | app/app.py:109 | a dose match starts and ends at a word boundary (`\b`) |
| Names.DoseLengthToken | app/app.py:109 | digits, an optional `.digits` fraction, any whitespace and a unit (MG, MCG, UG or IU), followed by a non-word character or the end, are matched whole |
| Names.DoseTokenRemoved | app/app.py:109 | such a token anywhere in a name, after a non-word character or the start and with no token starting before it, is removed whole: the text before is kept and the text after is cleaned on its own |
| Names.NoDoseKept | app/app.py:109 | where no dose token starts, nothing is removed |
| Names.CleanNameShape | app/app.py:106-115 | a canonical name holds only upper-case letters, digits and single inner spaces, and is trimmed |
| Names.CleanNameFixed | app/app.py:106-115 | a name that is already clean and has no dose token is its own canonical name |
| Names.CleanNameNotIdempotent | app/app.py:106-115 | "5 10MG MG" cleans to "5 MG", which cleans to "" |
| Aliases.ApplyNoMatch | app/app.py:126-216 | a row no rule's test passes keeps its value |
| Aliases.ApplyLastMatch | app/app.py:126-216 | the literal of the last rule whose test passes wins, whatever came before |
| Aliases.ApplyOutcome | app/app.py:126-216 | a row ends with its own value or with one of the rules' literals |
| Aliases.ApplyAppend | app/app.py:117-216 | two rule lists in a row act as their concatenation |
| Aliases.CanonicalOutcome | app/app.py:117-216 | a name ends with its base-rule value or with one of the literals |
| Aliases.ApplyRules | app/app.py:126-216 | every array entry becomes the rules applied to its snapshot, starting from its old value |
| Aliases.NormalizeAliases | app/app.py:117-216 | every entry becomes the canonical value of its old value |
| Aliases.BpcTbOverridesBpc157 | app/app.py:134-143 | a name starting "BPC 157" that contains "TB" passes the BPC 157 rule but ends as "BPC TB BLEND" |
| Aliases.BpcTbBlend | app/app.py:134-143 | "BPC 157 TB" ends as "BPC TB BLEND" |
| Aliases.KlowBlendOverGlow | app/app.py:176-185 | "BPC GHK CU TB KPV" without "GLOW" passes the BPC-TB blend rule yet ends as "KLOW" |
| Aliases.KlowBlend | app/app.py:176-185 | "BPC GHK CU TB KPV" ends as "KLOW" |
| Offers.CanonicalPeptide | app/app.py:106-216 | the canonical peptide is the cleaned name or one of the alias literals |
| Offers.KitOverride | app/app.py:219-221 | a dosed row gets total = 10 × dose; nothing else changes |
| Offers.OverrideKitsIdempotent | app/app.py:219-221 | after the override every dosed row has a total of ten vials, and a second override changes nothing |
| Offers.Where | app/app.py:243-249 | a boolean-mask selection keeps exactly the passing rows |
| Offers.WhereTwice | app/app.py:243-249 | selecting twice is selecting once by both masks |
| Offers.Filter | app/app.py:243-249 | a row survives iff it passes every active filter; an empty peptide or vendor selection filters nothing |
| Offers.FilterOnePass | app/app.py:243-249 | the staged filters select the same rows, in the same order, as one combined mask |
| Grouping.KeyOf | app/app.py:262-266 | a row is grouped iff it has a dose and a kit total |
| Grouping.KeyOfOverridden | app/app.py:219-266 | after the ten-vial rule only the dose decides whether a row is grouped |
| Grouping.MinOf | app/app.py:256-267 | a group's minimum is present iff some row contributes a value; it is a lower bound and attained |
| Grouping.Group | app/app.py:256-267 | the groups are exactly the keys of the grouped rows |
| Grouping.GroupMinima | app/app.py:256-267 | price and price per mg are independent minima over the group's rows, each attained by some row |
| Grouping.PivotRoundTrip | app/app.py:270-277 | the pivot keeps every group with a value and holds nothing else |
| Grouping.PriceColumnOf | app/app.py:270-277 | a vendor has a price column iff one of its filtered rows has a dose, a total and a price |
| Ranking.Rank | app/app.py:301-305 | ranked iff the value is present; ranks start at 1 |
| Ranking.RankOneIsMinimum | app/app.py:301-305 | rank 1 exactly for the present values that are the row's minimum |
| Ranking.RankOrder | app/app.py:301-305 | ties share a rank, a smaller value ranks strictly better, and no rank exceeds the number of present values |
| Ranking.TiedBestLeavesNoSecond | app/app.py:301-305 | when two entries tie for the minimum, no entry ranks second |
| Ranking.TiedRanksExample | app/app.py:303 | 0.40, 0.40 and 0.82 rank 1, 1 and 3 |
| Ranking.CellOf | app/app.py:331-349 | blank iff the price is missing; best takes precedence over second |
| Ranking.BuildCells | app/app.py:330-349 | the cell loop equals the zipped specification |
| Display.Only | app/app.py:293-297 | exactly the vendors that pass the test |
| Display.OnlyInOrder | app/app.py:293-297 | the kept vendors are those at strictly increasing positions, one per position whose vendor passes the test, in the original order and with repeats kept |
| Display.VendorRankIsRank | app/app.py:293-305 | a vendor's rank is the rank of its entry among the price-per-mg columns |
| Display.BestMarksCheapestPerMg | app/app.py:301-340 | a cell is blank iff the vendor has no price; it is marked best iff its price per mg is present and no listed vendor's is lower |
| Display.FirstMissing | app/app.py:379-380 | none iff every requested column exists; otherwise a missing requested column |
| Display.SelectColumns | app/app.py:379-380 | `df[cols]` succeeds iff every column exists, else a KeyError naming a missing one |
| Display.LayoutAsWrittenFails | app/app.py:379-380 | a listed vendor with no dosed, totalled, priced row makes the layout as written fail |
| Display.LayoutAsWrittenExample | app/app.py:379-380 | CN with a priced dosed row and ZJ with only an undosed row: the layout fails on ZJ |
| Display.Layout | app/app.py:379-380 | the intended layout selects only existing columns |
| Display.LayoutShowsPricedVendors | app/app.py:313-351 | the intended layout is the leading columns followed by exactly the vendors with a price column, each once per listing in the vendor list and in vendor-list order |
| Upload.AddFileSpec | app/app.py:81-103 | a file is added iff it is readable and has every required column. Its rows are appended with each base column holding the uploaded value or NaN. Otherwise the table is unchanged. The columns never change. |
| Upload.AddAllSpec | app/app.py:80-103 | columns and existing rows are kept, one notice per file, and the table grows by exactly the rows reported added |
| Upload.AddUploads | app/app.py:80-103 | the upload loop equals the file-by-file specification |
| Selection.Split | app/app.py:412 | `str.split`: one more part than separators, no separator in a part, and joining gives the text back |
| Selection.SplitJoin | app/app.py:412 | splitting a join of separator-free parts gives the parts back |
| Selection.DecodeKey | app/app.py:412-420 | succeeds iff the key holds exactly two '\|'; otherwise ValueError |
| Selection.KeyRoundTrip | app/app.py:364-420 | a key built from a '\|'-free peptide and exactly written numbers decodes to them |
| Selection.Checked | app/app.py:400-401 | the ticked keys are among the visible ones |
| Selection.SelectionUpdate | app/app.py:400-406 | hidden selected keys survive; a visible key is selected iff ticked; nothing new appears |
| Selection.UntouchedKeepsSelection | app/app.py:373-406 | leaving the boxes as they were shown keeps the selection |
| Selection.UpdateIdempotent | app/app.py:400-406 | applying the same edits twice changes nothing more |
| Selection.ListOf | app/app.py:407 | `list(set)`: every member once |
| Selection.Session.constructor | app/app.py:370-371 | the first run stores an empty selection |
| Selection.Session.Update | app/app.py:400-407 | the stored keys become the new selection, without repeats |
| Selection.DecodeEach | app/app.py:410-421 | all entries on success; a failure comes from some key |
| Selection.DecodeEachSucceeds | app/app.py:410-421 | decoding succeeds iff every key does |
| Selection.DecodeEachEntry | app/app.py:410-421 | on success, entry i is key i's own decoding |
| Selection.DecodeAllSpec | app/app.py:410-421 | decoding succeeds iff every key has exactly two separators; each entry is its key's decoding |
| Selection.DecodeSelection | app/app.py:410-421 | the decode loop equals the whole-list specification, stopping at the first malformed key |
| Selection.DecodeAllRoundTrip | app/app.py:364-421 | keys built from '\|'-free peptides and exact numbers all decode, each to its own entry |
| Numbers.FormatRoundTrip | app/app.py:365 | `float(repr(x))` gives x back for an exactly written decimal |
| PriceList.MergedPrice | app/app.py:434-439 | the left merge gives a price exactly for a dosed, totalled entry whose group exists, and then the group's price |
| PriceList.CellPrice | app/app.py:441-446 | present iff some selected entry prices the line for the vendor; the least such price, attained |
| PriceList.HasAnyCell | app/app.py:448-449 | a vendor keeps its column iff one of its cells holds a price |
| PriceList.Columns | app/app.py:448-449 | the listed vendors that price something |
| PriceList.Lines | app/app.py:441-446 | distinct lines, exactly those of selected entries priced by some vendor |
| PriceList.LinesPriced | app/app.py:441-446 | a line is listed iff some vendor's cell on it holds a price |
| PriceList.SumPermutation | app/app.py:454 | a sum does not depend on the order of the lines |
| PriceList.TotalOrderFree | app/app.py:454 | a vendor's total does not depend on the order of the lines |
| PriceList.Insert | app/app.py:456 | inserting adds exactly the one entry |
| PriceList.InsertSorted | app/app.py:456 | inserting into a sorted list keeps it sorted |
| PriceList.SortByTotal | app/app.py:456 | sorted ascending by total and a permutation of the input |
| PriceList.ColumnTotals | app/app.py:454 | one entry per column, in column order, holding its total over the lines |
| PriceList.ByTotalSpec | app/app.py:454-457 | the ordered vendors are a permutation of the columns, sorted by total, each with its own total |
| PriceList.ColumnsIffLines | app/app.py:448-451 | there are price columns iff there are priced lines |
| PriceList.PriceListShown | app/app.py:426-452 | nothing selected gives the prompt; a selection no listed vendor prices gives the notice |
| PriceList.PriceListOrdered | app/app.py:454-463 | the vendors are exactly the pricing ones, ordered ascending by total, each with its total |
| PriceList.PriceListCells | app/app.py:441-459 | every cell is the least merged price of its line and vendor |

## Left out

- Display.PpmVendors, Display.VendorCells, Upload.Conform, PriceList.Totals: the loops at app/app.py:294-297, 313-351, 92-94 and 462-463 are modelled as functions that build their result in one piece. The model does not capture the DataFrame `display` or `extra` gaining one column per pass; it states only what they hold once the loop is done.
- Reading the PDFs, the CSV files and the plain-text page text is not modelled. The adapters take the extracted tables, lines or records as parameters, and a missing file is simply an empty input.
- `main` of prepare_data.py (379-402) is not modelled: the concatenation of the seven adapters' outputs and the CSV write.
- Streamlit is not modelled: page layout, widgets, messages, caching, `st.data_editor` and `st.table`. The user's edits, the filter choices and the uploaded files are parameters.
- Floating point is not modelled. Numbers are exact reals. Python's `float()` is modelled on decimal notation with an optional sign and surrounding whitespace; exponents, underscores, `inf` and `nan` are left out.
- Numbers.FormatNum: it writes `repr` of a float only for a number written exactly with at most fifteen fractional digits and with magnitude from 1e-4 up to 1e16 (or zero). Below 1e-4 and from 1e16 upward `repr` writes an exponent (`1e-05`, `1e+16`), and the model still writes positional digits. The row keys are written with it, so a key for such a dose or total is spelt differently in the model; Python's `float` reads both spellings back to the same number.
- The money formatting `$x,.2f` and the coloured markers are not modelled: a cell is modelled as its price, its price per mg and its marker.
- Character classes are ASCII only. `\w`, `\s` and upper/lower-casing ignore non-ASCII characters.
- NaN product names (`fillna("")`) are not modelled: every product name is text.
- Adapters.JeepListing: an empty CSV cell, which pandas reads as NaN, is modelled as the text "nan". The vendor is the one field the source does not pass through `str` (prepare_data.py:362), so a NaN vendor stays NaN there and breaks `sorted()` of the vendors at app/app.py:233; the model reads it as the vendor "nan". A NaN price reads as "nan", which the model's `float()` rejects and Python's accepts as NaN.
- Sorting is not modelled for `sorted(df["vendor"].unique())` and the peptide options (226-238). The vendor list is a parameter taken in the order the app would use.
- Row order is not modelled where it comes from `sort_index`. Price-list lines are listed in selection order, not in the index order of `pivot_table`. TotalOrderFree shows the totals do not depend on the line order.
- PriceList.SortByTotal: pandas `sort_values` uses an unstable quicksort, but the model sorts stably by insertion. Vendors with equal totals may therefore appear in a different order; the proved contract (sorted and a permutation) holds for both.
- The early returns on an empty master table (52-54) and on an empty filter result (251-253) are not modelled. The filters and grouping are total on empty input.
- Upload.AddFile: of the exceptions the upload `try` block can catch, only an unreadable file is modelled. Duplicate column names and dtype changes caused by `concat` are not modelled.
- The alias examples are proved for "BPC 157 TB" and "BPC GHK CU TB KPV" only. The general lemmas (ApplyLastMatch, ApplyNoMatch, ApplyOutcome) cover every name.
- Display.Layout: the intended layout is proved only to select existing columns and to list the vendors with a price column. Its effect on the rest of the page is not modelled.

## Findings

| source | as written | input that shows it | evidently intended | confidence | as-written member | corrected member |
|---|---|---|---|---|---|---|
| app/app.py:379-380 | the layout lists every filtered vendor, but vendors without a price column never got a display column, so `display[cols]` raises KeyError | rows `CN, BPC 157, dose 5, total 50, $41` and `ZJ, AOD-9604, no dose, $40`: ZJ is a filtered vendor with no price column | list only the vendors that got a column | not executed | Display.LayoutAsWrittenExample | Display.LayoutShowsPricedVendors |
