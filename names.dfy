/**
 * The two name normalisers: the coarse `peptide_key` written by
 * prepare_data.py and the `canonical_peptide` cleanup of the app, built from
 * the same "replace every run of unwanted characters by one space" step.
 */
module Names {
  import opened Wrappers
  import opened Chars

  /** The character classes a replacement keeps: `[A-Z0-9\-]`, `\w` and `\S`. */
  datatype Keep = KeyChars | WordChars | NonSpace

  predicate Kept(k: Keep, c: char)
  {
    match k
    case KeyChars => IsUpperLetter(c) || IsDigit(c) || c == '-'
    case WordChars => IsWord(c)
    case NonSpace => !IsSpace(c)
  }

  /** No two spaces in a row. */
  predicate SingleSpaced(s: string)
  {
    forall i :: 0 <= i < |s| - 1 ==> s[i] != ' ' || s[i + 1] != ' '
  }

  /** Neither end is whitespace. */
  predicate Trimmed(s: string)
  {
    s == [] || (!IsSpace(s[0]) && !IsSpace(s[|s| - 1]))
  }

  /** The length of the run of unkept characters at the front of `s`. */
  function RunLength(k: Keep, s: string): (n: nat)
    ensures n <= |s|
    ensures forall i :: 0 <= i < n ==> !Kept(k, s[i])
    ensures n == |s| || Kept(k, s[n])
  {
    if s == [] || Kept(k, s[0]) then 0 else 1 + RunLength(k, s[1..])
  }

  /**
   * `re.sub(r"[^…]+", " ", s)`: every maximal run of characters outside the
   * class becomes a single space; the kept characters stay, in order.
   */
  function ReplaceRuns(k: Keep, s: string): (r: string)
    ensures |r| <= |s|
    ensures s != [] ==> r != [] && r[0] == (if Kept(k, s[0]) then s[0] else ' ')
    ensures forall i :: 0 <= i < |r| ==> r[i] == ' ' || (Kept(k, r[i]) && r[i] in s)
    decreases |s|
  {
    if s == [] then []
    else if Kept(k, s[0]) then [s[0]] + ReplaceRuns(k, s[1..])
    else
      var n := RunLength(k, s);
      [' '] + ReplaceRuns(k, s[n..])
  }

  /** A space is never kept, so the replacement leaves no two spaces in a row. */
  lemma {:induction false} ReplaceRunsSingleSpaced(k: Keep, s: string)
    ensures SingleSpaced(ReplaceRuns(k, s))
    decreases |s|
  {
    assert !Kept(k, ' ');
    if s != [] {
      var r := ReplaceRuns(k, s);
      if Kept(k, s[0]) {
        ReplaceRunsSingleSpaced(k, s[1..]);
      } else {
        var n := RunLength(k, s);
        ReplaceRunsSingleSpaced(k, s[n..]);
        assert n < |s| ==> r[1] == s[n];
      }
    }
  }

  /** A string that is already single-spaced over the class is left as it is. */
  lemma {:induction false} ReplaceRunsFixed(k: Keep, s: string)
    requires forall i :: 0 <= i < |s| ==> Kept(k, s[i]) || s[i] == ' '
    requires SingleSpaced(s)
    ensures ReplaceRuns(k, s) == s
    decreases |s|
  {
    if s != [] {
      if Kept(k, s[0]) {
        ReplaceRunsFixed(k, s[1..]);
      } else {
        assert |s| > 1 ==> s[1] != ' ';
        assert RunLength(k, s) == 1;
        ReplaceRunsFixed(k, s[1..]);
      }
    }
  }

  /** Stripping a string keeps a piece of it, so its characters and single spacing carry over. */
  lemma StripKeeps(s: string)
    requires SingleSpaced(s)
    ensures SingleSpaced(Strip(s)) && Trimmed(Strip(s))
    ensures forall c :: c in Strip(s) ==> c in s
  {
    var lo := StripMiddle(s);
    var r := Strip(s);
    assert forall i :: 0 <= i < |r| ==> r[i] == s[lo + i];
  }

  // ---------------------------------------------------------------------
  // peptide_key (prepare_data.py)
  // ---------------------------------------------------------------------

  /** A character that may appear in a peptide key. */
  predicate KeyChar(c: char) { IsUpperLetter(c) || IsDigit(c) || c == '-' || c == ' ' }

  /** Upper-case, turn every run outside `[A-Z0-9-]` into one space, collapse whitespace, strip. */
  function PeptideKey(name: string): string
  {
    Strip(ReplaceRuns(NonSpace, ReplaceRuns(KeyChars, Upper(name))))
  }

  /** A key holds only `[A-Z0-9-]` and single inner spaces. */
  lemma PeptideKeyShape(name: string)
    ensures forall i :: 0 <= i < |PeptideKey(name)| ==> KeyChar(PeptideKey(name)[i])
    ensures SingleSpaced(PeptideKey(name)) && Trimmed(PeptideKey(name))
  {
    var runs := ReplaceRuns(KeyChars, Upper(name));
    ReplaceRunsSingleSpaced(KeyChars, Upper(name));
    assert forall i :: 0 <= i < |runs| ==> Kept(NonSpace, runs[i]) || runs[i] == ' ';
    ReplaceRunsFixed(NonSpace, runs);
    StripKeeps(runs);
    assert forall c :: c in runs ==> KeyChar(c);
  }

  /** Normalising a key again changes nothing. */
  lemma PeptideKeyIdempotent(name: string)
    ensures PeptideKey(PeptideKey(name)) == PeptideKey(name)
  {
    var key := PeptideKey(name);
    PeptideKeyShape(name);
    assert Upper(key) == key;
    ReplaceRunsFixed(KeyChars, key);
    ReplaceRunsFixed(NonSpace, key);
  }

  // ---------------------------------------------------------------------
  // canonical_peptide (app/app.py)
  // ---------------------------------------------------------------------

  /** A digit when `digits`, whitespace otherwise. */
  predicate InClass(digits: bool, c: char)
  {
    if digits then IsDigit(c) else IsSpace(c)
  }

  /** Where the run of characters of the class starting at `t[i]` ends. */
  function SpanEnd(digits: bool, t: string, i: nat): (e: nat)
    requires i <= |t|
    ensures i <= e <= |t|
    decreases |t| - i
  {
    if i < |t| && InClass(digits, t[i]) then SpanEnd(digits, t, i + 1) else i
  }

  /** Where the unit `MG`, `MCG`, `UG` or `IU` starting at `t[c]` ends, or `c` when there is none. */
  function UnitEnd(t: string, c: nat): (e: nat)
    requires c <= |t|
    ensures c <= e <= |t|
  {
    if c + 2 <= |t| && ((t[c] == 'M' && t[c + 1] == 'G') || (t[c] == 'U' && t[c + 1] == 'G') || (t[c] == 'I' && t[c + 1] == 'U')) then c + 2
    else if c + 3 <= |t| && t[c] == 'M' && t[c + 1] == 'C' && t[c + 2] == 'G' then c + 3
    else c
  }

  /** Python's `\b` between `s[i - 1]` and `s[i]`. */
  predicate Boundary(s: string, i: nat)
    requires i <= |s|
  {
    (i > 0 && IsWord(s[i - 1])) != (i < |s| && IsWord(s[i]))
  }

  /**
   * The length of a match of `\b\d+(\.\d+)?\s*(MG|MCG|UG|IU)\b` at the front
   * of `t`, or 0 when there is none; `wordBefore` tells whether the character
   * before `t` is a word character. The match starts with a digit and ends
   * with a letter of the unit, both word characters, so the first `\b` holds
   * exactly when no word character comes before and the last one exactly when
   * none comes after. Every quantifier must take its longest run: handing a
   * character back leaves a digit or a space where the next part of the
   * pattern cannot start.
   */
  function DoseLength(wordBefore: bool, t: string): (n: nat)
    ensures n <= |t|
    ensures n > 0 ==> !wordBefore && IsDigit(t[0]) && IsWord(t[n - 1]) && (n == |t| || !IsWord(t[n]))
  {
    if t != [] && IsDigit(t[0]) && !wordBefore then
      var a := SpanEnd(true, t, 0);
      var b := if a + 1 < |t| && t[a] == '.' && IsDigit(t[a + 1]) then SpanEnd(true, t, a + 1) else a;
      var c := SpanEnd(false, t, b);
      var e := UnitEnd(t, c);
      if e > c && (e == |t| || !IsWord(t[e])) then e else 0
    else 0
  }

  /** Whether the character before position `i` of `s` is a word character. */
  predicate WordBefore(s: string, i: nat)
    requires i <= |s|
  {
    i > 0 && IsWord(s[i - 1])
  }

  /** Where a dose match starting at `i` ends, if one does. */
  function DoseEnd(s: string, i: nat): (e: Option<nat>)
    requires i <= |s|
    ensures e.Some? ==> i < e.value <= |s|
  {
    var n := DoseLength(WordBefore(s, i), s[i..]);
    if n > 0 then Some(i + n) else None
  }

  /** A dose match starts and ends at word boundaries. */
  lemma DoseEndBoundaries(s: string, i: nat)
    requires i <= |s| && DoseEnd(s, i).Some?
    ensures Boundary(s, i) && Boundary(s, DoseEnd(s, i).value)
  {
    var n := DoseLength(WordBefore(s, i), s[i..]);
    assert s[i] == s[i..][0] && s[i + n - 1] == s[i..][n - 1];
    assert i + n < |s| ==> s[i + n] == s[i..][n];
  }

  /**
   * `re.sub` of the dose pattern over `t`, the text left to scan, when the
   * character before it is a word character exactly if `wordBefore`: each
   * match is dropped and scanning resumes after it; elsewhere one character is
   * kept and scanning moves on by one.
   */
  function Scan(wordBefore: bool, t: string): (r: string)
    ensures |r| <= |t|
    decreases |t|
  {
    if t == [] then []
    else
      var n := DoseLength(wordBefore, t);
      if n > 0 then Scan(IsWord(t[n - 1]), t[n..]) else [t[0]] + Scan(IsWord(t[0]), t[1..])
  }

  /** Scanning keeps only characters of the text. */
  lemma {:induction false} ScanChars(wordBefore: bool, t: string)
    ensures forall c :: c in Scan(wordBefore, t) ==> c in t
    decreases |t|
  {
    if t != [] {
      var n := DoseLength(wordBefore, t);
      if n > 0 {
        ScanChars(IsWord(t[n - 1]), t[n..]);
        assert forall c :: c in t[n..] ==> c in t;
      } else {
        ScanChars(IsWord(t[0]), t[1..]);
        assert forall c :: c in t[1..] ==> c in t;
      }
    }
  }

  /** Where no dose match starts at `i`, the scan keeps `s[i]` and moves on by one. */
  lemma ScanKeep(s: string, i: nat)
    requires i < |s| && DoseEnd(s, i).None?
    ensures Scan(WordBefore(s, i), s[i..]) == [s[i]] + Scan(WordBefore(s, i + 1), s[i + 1..])
  {
    assert s[i..][1..] == s[i + 1..];
  }

  /** Where a dose match starts at `i`, the scan drops it and resumes where `DoseEnd` says it ends. */
  lemma ScanSkip(s: string, i: nat)
    requires i < |s| && DoseEnd(s, i).Some?
    ensures Scan(WordBefore(s, i), s[i..]) == Scan(WordBefore(s, DoseEnd(s, i).value), s[DoseEnd(s, i).value..])
  {
    var t := s[i..];
    var n := DoseLength(WordBefore(s, i), t);
    var wordAfter := WordBefore(s, i + n);
    var rest := s[i + n..];
    assert rest == t[n..] && wordAfter == IsWord(t[n - 1]) by { SliceFrom(s, i, n); }
    ScanDrop(WordBefore(s, i), t, n, wordAfter, rest);
  }

  /** A scan that meets a dose match of length `n` resumes after it. */
  lemma ScanDrop(wordBefore: bool, t: string, n: nat, wordAfter: bool, rest: string)
    requires 0 < n <= |t| && n == DoseLength(wordBefore, t)
    requires rest == t[n..] && wordAfter == IsWord(t[n - 1])
    ensures Scan(wordBefore, t) == Scan(wordAfter, rest)
  {
  }

  /** Dropping `n` more elements from a suffix slice. */
  lemma SliceFrom<T>(s: seq<T>, i: nat, n: nat)
    requires 0 < n && i + n <= |s|
    ensures s[i..][n..] == s[i + n..]
    ensures s[i..][n - 1] == s[i + n - 1]
  {
  }

  /** Scanning over positions where no dose token starts copies them. */
  lemma {:induction false} NoDoseUpTo(s: string, i: nat, k: nat)
    requires i <= k <= |s|
    requires forall j :: i <= j < k ==> DoseEnd(s, j).None?
    ensures Scan(WordBefore(s, i), s[i..]) == s[i..k] + Scan(WordBefore(s, k), s[k..])
    decreases k - i
  {
    if i < k {
      NoDoseUpTo(s, i + 1, k);
      ScanKeep(s, i);
      SliceCons(s, i, k, Scan(WordBefore(s, k), s[k..]));
    } else {
      assert s[i..k] == [];
    }
  }

  /** Splitting the first element off a slice, ahead of a tail. */
  lemma SliceCons<T>(s: seq<T>, i: nat, k: nat, rest: seq<T>)
    requires i < k <= |s|
    ensures [s[i]] + (s[i + 1..k] + rest) == s[i..k] + rest
  {
    assert s[i..k] == [s[i]] + s[i + 1..k];
  }

  /** Where no dose token starts, nothing is removed. */
  lemma NoDoseKept(s: string)
    requires forall j :: 0 <= j <= |s| ==> DoseEnd(s, j).None?
    ensures RemoveDoses(s) == s
  {
    NoDoseUpTo(s, 0, |s|);
    assert s[0..] == s && s[0..|s|] == s && s[|s|..] == [];
  }

  /** `re.sub` of the dose pattern over a whole name. */
  function RemoveDoses(s: string): (r: string)
    ensures |r| <= |s|
    ensures forall c :: c in r ==> c in s
  {
    ScanChars(false, s);
    Scan(false, s)
  }

  /** After a character that is not a word character, what came before it no longer matters. */
  lemma ScanAfterBreak(post: string)
    requires post == [] || !IsWord(post[0])
    ensures Scan(true, post) == Scan(false, post)
  {
  }

  /** A run of the class from `t[i]` up to a character outside it is spanned whole. */
  lemma {:induction false} SpanRun(digits: bool, t: string, i: nat, e: nat)
    requires i <= e <= |t|
    requires forall j :: i <= j < e ==> InClass(digits, t[j])
    requires e == |t| || !InClass(digits, t[e])
    ensures SpanEnd(digits, t, i) == e
    decreases e - i
  {
    if i < e {
      SpanRun(digits, t, i + 1, e);
    }
  }

  /** The pieces of a dose token: digits, an optional `.digits` fraction, whitespace, a unit. */
  predicate DosePieces(digits: string, frac: string, spaces: string, unit: string)
  {
    && |digits| > 0 && AllDigits(digits)
    && (frac == [] || (|frac| >= 2 && frac[0] == '.' && AllDigits(frac[1..])))
    && (forall i :: 0 <= i < |spaces| ==> IsSpace(spaces[i]))
    && unit in ["MG", "MCG", "UG", "IU"]
  }

  /** A unit `MG`, `MCG`, `UG` or `IU` occupies `t[c..e]`. */
  predicate UnitAt(t: string, c: nat, e: nat)
    requires c <= e <= |t|
  {
    || (e == c + 2 && ((t[c] == 'M' && t[c + 1] == 'G') || (t[c] == 'U' && t[c + 1] == 'G') || (t[c] == 'I' && t[c + 1] == 'U')))
    || (e == c + 3 && t[c] == 'M' && t[c + 1] == 'C' && t[c + 2] == 'G')
  }

  /**
   * The dose pattern matches `t[..e]` when digits fill `t[..a]`, an optional
   * `.` and digits fill `t[a..b]`, whitespace fills `t[b..c]`, a unit fills
   * `t[c..e]` and no word character follows.
   */
  lemma DoseLengthAt(t: string, a: nat, b: nat, c: nat, e: nat)
    requires 0 < a <= b <= c < e <= |t|
    requires forall j :: 0 <= j < a ==> IsDigit(t[j])
    requires !IsDigit(t[a])
    requires b == a ==> t[a] != '.'
    requires b != a ==> a + 1 < b && t[a] == '.' && (forall j :: a < j < b ==> IsDigit(t[j])) && !IsDigit(t[b])
    requires forall j :: b <= j < c ==> IsSpace(t[j])
    requires !IsSpace(t[c])
    requires UnitAt(t, c, e)
    requires e == |t| || !IsWord(t[e])
    ensures DoseLength(false, t) == e
  {
    SpanRun(true, t, 0, a);
    if b != a {
      SpanRun(true, t, a + 1, b);
    }
    SpanRun(false, t, b, c);
  }

  /** A dose token after a word break and before one is matched whole. */
  lemma DoseLengthToken(digits: string, frac: string, spaces: string, unit: string, post: string)
    requires DosePieces(digits, frac, spaces, unit)
    requires post == [] || !IsWord(post[0])
    ensures DoseLength(false, digits + frac + spaces + unit + post) == |digits + frac + spaces + unit|
  {
    var t := digits + frac + spaces + unit + post;
    var a := |digits|;
    var b := a + |frac|;
    var c := b + |spaces|;
    var e := c + |unit|;
    assert forall j :: 0 <= j < a ==> t[j] == digits[j];
    assert forall j :: a <= j < b ==> t[j] == frac[j - a];
    assert forall j :: b <= j < c ==> t[j] == spaces[j - b];
    assert forall j :: c <= j < e ==> t[j] == unit[j - c];
    assert e < |t| ==> t[e] == post[0];
    DoseLengthAt(t, a, b, c, e);
  }

  /**
   * A dose token anywhere in the name, standing between word breaks, is
   * removed whole: the text before it is kept as it was and the text after it
   * is cleaned on its own. The text before must start no token of its own.
   */
  lemma DoseTokenRemoved(pre: string, digits: string, frac: string, spaces: string, unit: string, post: string)
    requires DosePieces(digits, frac, spaces, unit)
    requires pre == [] || !IsWord(pre[|pre| - 1])
    requires post == [] || !IsWord(post[0])
    requires forall j :: 0 <= j < |pre| ==> DoseEnd(pre + (digits + frac + spaces + unit) + post, j).None?
    ensures RemoveDoses(pre + (digits + frac + spaces + unit) + post) == pre + RemoveDoses(post)
  {
    var tok := digits + frac + spaces + unit;
    var s := pre + tok + post;
    assert DoseEnd(s, |pre|) == Some(|pre| + |tok|) && WordBefore(s, |pre| + |tok|) by {
      DoseLengthToken(digits, frac, spaces, unit, post);
      TokenMatched(pre, tok, post);
    }
    assert s[..|pre|] == pre && s[|pre| + |tok|..] == post;
    ScanThroughToken(s, |pre|, |pre| + |tok|, post);
  }

  /** A token that is matched whole after `pre` is the match `DoseEnd` finds there, and a word character ends it. */
  lemma TokenMatched(pre: string, tok: string, post: string)
    requires tok != [] && DoseLength(false, tok + post) == |tok|
    requires pre == [] || !IsWord(pre[|pre| - 1])
    ensures DoseEnd(pre + tok + post, |pre|) == Some(|pre| + |tok|)
    ensures WordBefore(pre + tok + post, |pre| + |tok|)
  {
    var s := pre + tok + post;
    var t := tok + post;
    assert s[|pre|..] == t;
    assert !WordBefore(s, |pre|) by {
      if |pre| > 0 { assert s[|pre| - 1] == pre[|pre| - 1]; }
    }
    DoseEndAt(s, |pre|, t, |tok|);
    assert s[|pre| + |tok| - 1] == t[|tok| - 1];
  }

  /** A match measured on the text from `p` on is the match `DoseEnd` finds at `p`. */
  lemma DoseEndAt(s: string, p: nat, t: string, n: nat)
    requires p <= |s| && s[p..] == t && !WordBefore(s, p)
    requires 0 < n && DoseLength(false, t) == n
    ensures DoseEnd(s, p) == Some(p + n)
  {
  }

  /**
   * Scanning text with no match before `p` and a match from `p` to `e`, after
   * which a non-word character or the end follows, keeps the text before `p`
   * and goes on with the rest as if from the start.
   */
  lemma ScanThroughToken(s: string, p: nat, e: nat, post: string)
    requires p < e <= |s| && s[e..] == post
    requires forall j :: 0 <= j < p ==> DoseEnd(s, j).None?
    requires DoseEnd(s, p) == Some(e) && WordBefore(s, e)
    requires post == [] || !IsWord(post[0])
    ensures Scan(false, s) == s[..p] + Scan(false, post)
  {
    assert Scan(false, s) == s[..p] + Scan(WordBefore(s, p), s[p..]) by {
      assert s[0..] == s && s[0..p] == s[..p];
      NoDoseUpTo(s, 0, p);
    }
    ScanSkip(s, p);
    ScanAfterBreak(post);
  }

  /** `str.replace(r"[-_]", " ")` */
  function Unhyphen(s: string): (r: string)
    ensures |r| == |s|
    ensures forall i :: 0 <= i < |s| ==> r[i] == (if s[i] == '-' || s[i] == '_' then ' ' else s[i])
  {
    seq(|s|, i requires 0 <= i < |s| => if s[i] == '-' || s[i] == '_' then ' ' else s[i])
  }

  /** A character that may appear in a canonical name. */
  predicate CleanChar(c: char) { IsUpperLetter(c) || IsDigit(c) || c == ' ' }

  /**
   * The `canonical_peptide` cleanup: upper-case, drop dose tokens, turn
   * `-`/`_` into spaces and every run of non-word characters into one space,
   * collapse whitespace and strip.
   */
  function CleanName(name: string): string
  {
    Strip(ReplaceRuns(NonSpace, ReplaceRuns(WordChars, Unhyphen(RemoveDoses(Upper(name))))))
  }

  /** Upper-casing leaves no lower-case letter. */
  lemma UpperNoLower(name: string)
    ensures forall c :: c in Upper(name) ==> !IsLowerLetter(c)
  {
    var u := Upper(name);
    forall c | c in u
      ensures !IsLowerLetter(c)
    {
      var i :| 0 <= i < |u| && u[i] == c;
    }
  }

  /** Dropping dose tokens adds no character. */
  lemma DosesNoLower(u: string)
    requires forall c :: c in u ==> !IsLowerLetter(c)
    ensures forall c :: c in RemoveDoses(u) ==> !IsLowerLetter(c)
  {
  }

  /** Turning hyphens and underscores into spaces leaves none of them. */
  lemma UnhyphenClean(d: string)
    requires forall c :: c in d ==> !IsLowerLetter(c)
    ensures forall c :: c in Unhyphen(d) ==> !IsLowerLetter(c) && c != '-' && c != '_'
  {
    var t := Unhyphen(d);
    forall c | c in t
      ensures !IsLowerLetter(c) && c != '-' && c != '_'
    {
      var i :| 0 <= i < |t| && t[i] == c;
      assert d[i] in d;
    }
  }

  /** Replacing the non-word runs of such a text leaves only clean characters, single-spaced. */
  lemma WordRunsClean(t: string)
    requires forall c :: c in t ==> !IsLowerLetter(c) && c != '-' && c != '_'
    ensures forall c :: c in ReplaceRuns(WordChars, t) ==> CleanChar(c)
    ensures SingleSpaced(ReplaceRuns(WordChars, t))
  {
    ReplaceRunsSingleSpaced(WordChars, t);
    var w := ReplaceRuns(WordChars, t);
    forall c | c in w
      ensures CleanChar(c)
    {
      var i :| 0 <= i < |w| && w[i] == c;
    }
  }

  /** Collapsing whitespace and stripping a clean, single-spaced text keeps it clean and trims it. */
  lemma StripClean(w: string)
    requires forall c :: c in w ==> CleanChar(c)
    requires SingleSpaced(w)
    ensures forall c :: c in Strip(ReplaceRuns(NonSpace, w)) ==> CleanChar(c)
    ensures SingleSpaced(Strip(ReplaceRuns(NonSpace, w))) && Trimmed(Strip(ReplaceRuns(NonSpace, w)))
  {
    forall i | 0 <= i < |w|
      ensures Kept(NonSpace, w[i]) || w[i] == ' '
    {
      assert w[i] in w;
    }
    ReplaceRunsFixed(NonSpace, w);
    StripKeeps(w);
  }

  /** A canonical name holds only upper-case letters, digits and single inner spaces. */
  lemma CleanNameShape(name: string)
    ensures forall i :: 0 <= i < |CleanName(name)| ==> CleanChar(CleanName(name)[i])
    ensures '-' !in CleanName(name) && '_' !in CleanName(name)
    ensures SingleSpaced(CleanName(name)) && Trimmed(CleanName(name))
  {
    var u := Upper(name);
    UpperNoLower(name);
    var d := RemoveDoses(u);
    DosesNoLower(u);
    var t := Unhyphen(d);
    UnhyphenClean(d);
    var w := ReplaceRuns(WordChars, t);
    WordRunsClean(t);
    StripClean(w);
    var r := CleanName(name);
    assert r == Strip(ReplaceRuns(NonSpace, w));
    forall i | 0 <= i < |r|
      ensures CleanChar(r[i])
    {
      assert r[i] in r;
    }
  }

  /** Without a digit there is no dose token to remove. */
  lemma NoDigitNoDose(s: string)
    requires forall j :: 0 <= j < |s| ==> !IsDigit(s[j])
    ensures forall j :: 0 <= j <= |s| ==> DoseEnd(s, j).None?
  {
    forall j | 0 <= j <= |s|
      ensures DoseEnd(s, j).None?
    {
      assert j < |s| ==> s[j..][0] == s[j];
    }
  }

  /** Neither of the first two positions of the example below starts a dose token. */
  lemma ExampleNoLeadingDose(s: string)
    requires s == "5 10MG MG"
    ensures DoseEnd(s, 0).None? && DoseEnd(s, 1).None?
  {
    assert s[0..] == s && s[1..][0] == ' ';
    SpanRun(true, s, 0, 1);
    SpanRun(false, s, 1, 2);
  }

  /** The dose cleanup of the first pass of the example below. */
  lemma ExampleFirstDoses(s: string)
    requires s == "5 10MG MG"
    ensures RemoveDoses(s) == "5  MG"
  {
    ExampleNoLeadingDose(s);
    assert s == "5 " + ("10" + "" + "" + "MG") + " MG";
    DoseTokenRemoved("5 ", "10", "", "", "MG", " MG");
    ExampleTailKept(" MG");
  }

  /** The text after the removed token of the example below has no dose token. */
  lemma ExampleTailKept(s: string)
    requires s == " MG"
    ensures RemoveDoses(s) == s
  {
    assert !IsDigit(s[0]) && !IsDigit(s[1]) && !IsDigit(s[2]);
    NoDigitNoDose(s);
    NoDoseKept(s);
  }

  /** The dose cleanup of the second pass of the example below. */
  lemma ExampleSecondDoses(s: string)
    requires s == "5 MG"
    ensures RemoveDoses(s) == ""
  {
    assert s == "" + ("5" + "" + " " + "MG") + "";
    DoseTokenRemoved("", "5", "", " ", "MG", "");
  }

  /** The example below is written in upper case already. */
  lemma ExampleUpper(s: string)
    requires s == "5 10MG MG" || s == "5 MG"
    ensures Upper(s) == s
  {
    assert forall i :: 0 <= i < |s| ==> !IsLowerLetter(s[i]);
  }

  /** The example below has no hyphen or underscore. */
  lemma ExampleUnhyphen(s: string)
    requires s == "5  MG"
    ensures Unhyphen(s) == s
  {
    assert forall i :: 0 <= i < |s| ==> s[i] != '-' && s[i] != '_';
  }

  /** The double space the first pass of the example below leaves collapses to one. */
  lemma ExampleRuns(s: string)
    requires s == "5  MG"
    ensures ReplaceRuns(WordChars, s) == "5 MG"
  {
    var t := s[1..];
    assert RunLength(WordChars, t[1..]) == 1;
    assert RunLength(WordChars, t) == 2;
    ReplaceRunsFixed(WordChars, "MG");
    assert t[2..] == "MG";
  }

  /** What the first pass of the example below ends with is single-spaced and stripped. */
  lemma ExampleSpaced(s: string)
    requires s == "5 MG"
    ensures Strip(ReplaceRuns(NonSpace, s)) == s
  {
    assert SingleSpaced(s);
    ReplaceRunsFixed(NonSpace, s);
  }

  /** The first pass of the example below. */
  lemma ExampleFirstPass(name: string)
    requires name == "5 10MG MG"
    ensures CleanName(name) == "5 MG"
  {
    ExampleUpper(name);
    ExampleFirstDoses(name);
    var d := RemoveDoses(name);
    ExampleUnhyphen(d);
    ExampleRuns(d);
    ExampleSpaced(ReplaceRuns(WordChars, d));
  }

  /** The second pass of the example below. */
  lemma ExampleSecondPass(name: string)
    requires name == "5 MG"
    ensures CleanName(name) == ""
  {
    ExampleUpper(name);
    ExampleSecondDoses(name);
  }

  /**
   * Cleaning a name twice can change it again: the first pass takes away the
   * token `10MG` and so brings `5` and `MG` together into a new one, which the
   * second pass takes away.
   */
  lemma CleanNameNotIdempotent(name: string)
    requires name == "5 10MG MG"
    ensures CleanName(name) == "5 MG"
    ensures CleanName(CleanName(name)) == ""
  {
    ExampleFirstPass(name);
    ExampleSecondPass(CleanName(name));
  }

  /** A name that is already clean and carries no dose token is its own canonical name. */
  lemma CleanNameFixed(name: string)
    requires forall i :: 0 <= i < |name| ==> CleanChar(name[i])
    requires SingleSpaced(name) && Trimmed(name)
    requires forall j :: 0 <= j <= |name| ==> DoseEnd(name, j).None?
    ensures CleanName(name) == name
  {
    assert Upper(name) == name;
    NoDoseKept(name);
    assert Unhyphen(name) == name;
    ReplaceRunsFixed(WordChars, name);
    ReplaceRunsFixed(NonSpace, name);
  }
}
