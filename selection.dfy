/**
 * The persistent row selection: the `peptide|dose|total` row key, the
 * update of the stored selection after the user edits the table, and the
 * decoding of the stored keys for the price list.
 */
module Selection {
  import opened Wrappers
  import opened Numbers

  // ---------------------------------------------------------------------
  // Row keys
  // ---------------------------------------------------------------------

  /** The parts joined with `sep` between them. */
  function Join(parts: seq<string>, sep: char): string
  {
    if parts == [] then ""
    else if |parts| == 1 then parts[0]
    else parts[0] + [sep] + Join(parts[1..], sep)
  }

  /** The number of occurrences of `c` in `s`. */
  function Occurrences(s: string, c: char): nat
  {
    if s == [] then 0 else (if s[0] == c then 1 else 0) + Occurrences(s[1..], c)
  }

  /** `str.split(sep)`: the pieces between the separators, one more than there are separators. */
  function Split(s: string, sep: char): (parts: seq<string>)
    ensures |parts| == Occurrences(s, sep) + 1
    ensures forall p :: p in parts ==> sep !in p
    ensures Join(parts, sep) == s
    decreases |s|
  {
    match IndexOf(s, sep)
    case None =>
      NoOccurrences(s, sep);
      [s]
    case Some(i) =>
      var rest := Split(s[i + 1..], sep);
      OccurrencesSplit(s, sep, i);
      assert s == s[..i] + [sep] + s[i + 1..];
      [s[..i]] + rest
  }

  lemma {:induction false} NoOccurrences(s: string, c: char)
    requires c !in s
    ensures Occurrences(s, c) == 0
  {
    if s != [] {
      NoOccurrences(s[1..], c);
    }
  }

  lemma {:induction false} OccurrencesSplit(s: string, c: char, i: nat)
    requires i < |s| && s[i] == c && c !in s[..i]
    ensures Occurrences(s, c) == 1 + Occurrences(s[i + 1..], c)
  {
    if i > 0 {
      assert s[1..][..i - 1] == s[..i][1..];
      OccurrencesSplit(s[1..], c, i - 1);
      assert s[1..][i..] == s[i + 1..];
    }
  }

  /** Splitting a join of separator-free parts gives the parts back. */
  lemma {:induction false} SplitJoin(parts: seq<string>, sep: char)
    requires |parts| >= 1 && forall p :: p in parts ==> sep !in p
    ensures Split(Join(parts, sep), sep) == parts
  {
    if |parts| > 1 {
      var s := Join(parts, sep);
      var head := parts[0];
      assert s == head + [sep] + Join(parts[1..], sep);
      assert s[..|head|] == head && s[|head|] == sep;
      assert IndexOf(s, sep) == Some(|head|) by {
        IndexOfFirst(s, sep, |head|);
      }
      assert s[|head| + 1..] == Join(parts[1..], sep);
      SplitJoin(parts[1..], sep);
    } else {
      assert parts[0] in parts;
    }
  }

  /** The first separator is the first position holding it. */
  lemma {:induction false} IndexOfFirst(s: string, c: char, i: nat)
    requires i < |s| && s[i] == c && c !in s[..i]
    ensures IndexOf(s, c) == Some(i)
  {
    if i > 0 {
      assert s[1..][..i - 1] == s[..i][1..];
      IndexOfFirst(s[1..], c, i - 1);
    }
  }

  /** A decoded selection entry: peptide, dose and total, the numbers missing when they do not parse. */
  datatype Selected = Selected(peptide: string, dose: Option<real>, total: Option<real>)

  /** The row key `f"{peptide}|{dose}|{total}"`. */
  function EncodeKey(peptide: string, dose: real, total: real): string
  {
    Join([peptide, FormatNum(dose), FormatNum(total)], '|')
  }

  /**
   * `pep, dose_str, total_str = key.split("|")` followed by the two guarded
   * `float` calls: a key that does not split into exactly three parts raises
   * a ValueError, an unparseable number becomes missing.
   */
  function DecodeKey(key: string): (r: Result<Selected, string>)
    ensures r.Success? <==> Occurrences(key, '|') == 2
    ensures r.Failure? ==> r.error == "ValueError"
  {
    var parts := Split(key, '|');
    if |parts| != 3 then Failure("ValueError")
    else
      assert parts == [parts[0], parts[1], parts[2]];
      Success(Selected(parts[0], ParseFloat(parts[1]), ParseFloat(parts[2])))
  }

  /** A key built from a peptide without '|' and exactly written numbers decodes to them. */
  lemma KeyRoundTrip(peptide: string, dose: real, total: real)
    requires '|' !in peptide && IsExactDecimal(dose) && IsExactDecimal(total)
    ensures DecodeKey(EncodeKey(peptide, dose, total)) == Success(Selected(peptide, Some(dose), Some(total)))
  {
    var parts := [peptide, FormatNum(dose), FormatNum(total)];
    assert forall p :: p in parts ==> '|' !in p;
    SplitJoin(parts, '|');
    FormatRoundTrip(dose);
    FormatRoundTrip(total);
  }

  // ---------------------------------------------------------------------
  // The selection update
  // ---------------------------------------------------------------------

  /** The edited table as the user leaves it: each row's key and its Include box. */
  type Edited = seq<(string, bool)>

  /** `visible_keys`: the keys of the rows on screen. */
  function Visible(edited: Edited): set<string>
  {
    set e | e in edited :: e.0
  }

  /** `checked_keys`: the keys of the rows whose box is ticked. */
  function Checked(edited: Edited): (r: set<string>)
    ensures r <= Visible(edited)
  {
    set e | e in edited && e.1 :: e.0
  }

  /** The table as first shown: every row ticked exactly when its key is already selected. */
  function Prefilled(keys: seq<string>, prev: set<string>): (edited: Edited)
    ensures |edited| == |keys|
    ensures forall i :: 0 <= i < |keys| ==> edited[i] == (keys[i], keys[i] in prev)
  {
    seq(|keys|, i requires 0 <= i < |keys| => (keys[i], keys[i] in prev))
  }

  /** `new = (prev - visible) | checked`. */
  function NextSelection(prev: set<string>, edited: Edited): set<string>
  {
    (prev - Visible(edited)) + Checked(edited)
  }

  /**
   * A selected key hidden by the filters stays selected, a visible key stays
   * selected exactly when its box is ticked, and nothing else is added.
   */
  lemma SelectionUpdate(prev: set<string>, edited: Edited)
    ensures forall k :: k in prev && k !in Visible(edited) ==> k in NextSelection(prev, edited)
    ensures forall k :: k in Visible(edited) ==> (k in NextSelection(prev, edited) <==> k in Checked(edited))
    ensures NextSelection(prev, edited) <= prev + Visible(edited)
  {
  }

  /** Leaving the boxes as they were shown keeps the selection as it was. */
  lemma UntouchedKeepsSelection(keys: seq<string>, prev: set<string>)
    ensures NextSelection(prev, Prefilled(keys, prev)) == prev
  {
    var edited := Prefilled(keys, prev);
    forall k | k in Visible(edited) && k in prev
      ensures k in Checked(edited)
    {
      var e :| e in edited && e.0 == k;
      var i :| 0 <= i < |edited| && edited[i] == e;
      assert edited[i].1;
    }
    forall k | k in Checked(edited)
      ensures k in prev
    {
      var e :| e in edited && e.1 && e.0 == k;
      var i :| 0 <= i < |edited| && edited[i] == e;
    }
  }

  /** Applying the same edits again changes nothing more. */
  lemma UpdateIdempotent(prev: set<string>, edited: Edited)
    ensures NextSelection(NextSelection(prev, edited), edited) == NextSelection(prev, edited)
  {
  }

  /** The elements of a list. */
  function Elements(xs: seq<string>): set<string>
  {
    set x | x in xs
  }

  /** A list without repeated entries. */
  predicate Distinct(xs: seq<string>)
  {
    forall i, j :: 0 <= i < j < |xs| ==> xs[i] != xs[j]
  }

  /** `list(s)`: the members of a set, each once, in no particular order. */
  method ListOf(s: set<string>) returns (xs: seq<string>)
    ensures Elements(xs) == s && Distinct(xs)
  {
    xs := [];
    var rest := s;
    while rest != {}
      invariant Elements(xs) + rest == s
      invariant Elements(xs) !! rest
      invariant Distinct(xs)
      decreases |rest|
    {
      var x :| x in rest;
      xs := xs + [x];
      rest := rest - {x};
    }
  }

  /** `st.session_state`, reduced to the stored selection. */
  class Session {
    var selectedRowKeys: seq<string>

    /** The first run stores an empty selection. */
    constructor ()
      ensures selectedRowKeys == []
    {
      selectedRowKeys := [];
    }

    /** Line 407: the stored list is replaced by the new selection. */
    method Update(edited: Edited)
      modifies this
      ensures Elements(selectedRowKeys) == NextSelection(Elements(old(selectedRowKeys)), edited)
      ensures Distinct(selectedRowKeys)
    {
      var next := NextSelection(Elements(selectedRowKeys), edited);
      selectedRowKeys := ListOf(next);
    }
  }

  // ---------------------------------------------------------------------
  // Decoding the stored keys
  // ---------------------------------------------------------------------

  /**
   * Every key decoded in order by `decode`; the first failure stops the
   * whole decoding with that failure.
   */
  function DecodeEach<T>(decode: string -> Result<T, string>, keys: seq<string>): (r: Result<seq<T>, string>)
    ensures r.Success? ==> |r.value| == |keys|
    ensures r.Failure? ==> exists i :: 0 <= i < |keys| && decode(keys[i]) == Failure(r.error)
  {
    if keys == [] then Success([])
    else
      var init := keys[..|keys| - 1];
      match DecodeEach(decode, init)
      case Failure(e) =>
        assert forall i :: 0 <= i < |init| ==> init[i] == keys[i];
        Failure(e)
      case Success(xs) =>
        match decode(keys[|keys| - 1])
        case Failure(e) => Failure(e)
        case Success(x) => Success(xs + [x])
  }

  /** Decoding succeeds exactly when every key does. */
  lemma {:induction false} DecodeEachSucceeds<T>(decode: string -> Result<T, string>, keys: seq<string>)
    ensures DecodeEach(decode, keys).Success? <==> forall i :: 0 <= i < |keys| ==> decode(keys[i]).Success?
  {
    if keys != [] {
      var n := |keys| - 1;
      var init := keys[..n];
      DecodeEachSucceeds(decode, init);
      if DecodeEach(decode, init).Failure? {
        var i :| 0 <= i < |init| && decode(init[i]).Failure?;
        assert init[i] == keys[i];
      } else {
        assert forall i :: 0 <= i < n ==> init[i] == keys[i];
      }
    }
  }

  /** A successful decoding yields each key's own entry, in order. */
  lemma {:induction false} DecodeEachEntry<T>(decode: string -> Result<T, string>, keys: seq<string>)
    requires DecodeEach(decode, keys).Success?
    ensures forall i :: 0 <= i < |keys| ==> Success(DecodeEach(decode, keys).value[i]) == decode(keys[i])
  {
    if keys != [] {
      var n := |keys| - 1;
      var init := keys[..n];
      DecodeEachEntry(decode, init);
      assert forall i :: 0 <= i < n ==> init[i] == keys[i];
    }
  }

  /** A failure in a prefix of the keys is the failure of all of them. */
  lemma {:induction false} DecodeEachPrefix<T>(decode: string -> Result<T, string>, keys: seq<string>, n: nat)
    requires n <= |keys| && DecodeEach(decode, keys[..n]).Failure?
    ensures DecodeEach(decode, keys) == DecodeEach(decode, keys[..n])
    decreases |keys| - n
  {
    if n < |keys| {
      var m := |keys| - 1;
      assert keys[..m][..n] == keys[..n];
      DecodeEachPrefix(decode, keys[..m], n);
    } else {
      assert keys[..n] == keys;
    }
  }

  /** The stored keys decoded in order; a key that does not split in three stops everything with a ValueError. */
  function DecodeAll(keys: seq<string>): (r: Result<seq<Selected>, string>)
    ensures r.Failure? ==> r.error == "ValueError"
    ensures r.Success? ==> |r.value| == |keys|
  {
    DecodeEach(DecodeKey, keys)
  }

  /**
   * Decoding the stored keys succeeds exactly when every key has exactly two
   * separators, and then gives each key's own entry in order.
   */
  lemma DecodeAllSpec(keys: seq<string>)
    ensures DecodeAll(keys).Success? <==> forall i :: 0 <= i < |keys| ==> Occurrences(keys[i], '|') == 2
    ensures DecodeAll(keys).Success? ==> forall i :: 0 <= i < |keys| ==> Success(DecodeAll(keys).value[i]) == DecodeKey(keys[i])
  {
    DecodeEachSucceeds(DecodeKey, keys);
    if DecodeAll(keys).Success? {
      DecodeEachEntry(DecodeKey, keys);
    }
  }

  /** The loop of lines 411-421. */
  method DecodeSelection(keys: seq<string>) returns (r: Result<seq<Selected>, string>)
    ensures r == DecodeAll(keys)
  {
    var selected: seq<Selected> := [];
    var i := 0;
    while i < |keys|
      invariant 0 <= i <= |keys|
      invariant DecodeEach(DecodeKey, keys[..i]) == Success(selected)
    {
      var entry := DecodeKey(keys[i]);
      assert keys[..i + 1][..i] == keys[..i];
      if entry.Failure? {
        DecodeEachPrefix(DecodeKey, keys, i + 1);
        return Failure(entry.error);
      }
      selected := selected + [entry.value];
      i := i + 1;
    }
    assert keys[..i] == keys;
    r := Success(selected);
  }

  /** Keys built from peptides without '|' and exactly written numbers all decode, each to its own entry. */
  lemma DecodeAllRoundTrip(entries: seq<(string, real, real)>)
    requires forall e :: e in entries ==> '|' !in e.0 && IsExactDecimal(e.1) && IsExactDecimal(e.2)
    ensures DecodeAll(seq(|entries|, i requires 0 <= i < |entries| => EncodeKey(entries[i].0, entries[i].1, entries[i].2)))
         == Success(seq(|entries|, i requires 0 <= i < |entries| => Selected(entries[i].0, Some(entries[i].1), Some(entries[i].2))))
  {
    var keys := seq(|entries|, i requires 0 <= i < |entries| => EncodeKey(entries[i].0, entries[i].1, entries[i].2));
    var want := seq(|entries|, i requires 0 <= i < |entries| => Selected(entries[i].0, Some(entries[i].1), Some(entries[i].2)));
    forall i | 0 <= i < |entries|
      ensures DecodeKey(keys[i]) == Success(want[i])
    {
      assert entries[i] in entries;
      KeyRoundTrip(entries[i].0, entries[i].1, entries[i].2);
    }
    DecodeEachSucceeds(DecodeKey, keys);
    DecodeEachEntry(DecodeKey, keys);
    var r := DecodeAll(keys);
    assert r.value == want;
  }
}
