/**
 * The alias normalisation of the app's `canonical_peptide` column. Each rule
 * is a test on a snapshot of the column and a literal written into every row
 * whose snapshot passes the test. The three base rules test the snapshot
 * taken before them, and the long alias block tests a second snapshot taken
 * once before it starts; the column itself is overwritten rule by rule, so a
 * row ends with the literal of the last rule whose test its snapshot passes.
 */
module Aliases {
  import opened Chars

  /** The pandas string tests the rules use. */
  datatype Test =
    | Prefix(p: string)                // `cp.str.startswith(p)`
    | Has(p: string)                   // `cp.str.contains(p)` with a pattern free of metacharacters
    | Whole(p: string)                 // `cp.str.match(r"^p$")`
    | WholeEither(p: string, q: string) // `cp.str.match(r"^…( ?)…$")`: with or without the space
    | Is(p: string)                    // `cp == p`
    | HasBoth(p: string, q: string)    // `cp.str.contains(p) & cp.str.contains(q)`
    | HasWithout(p: string, q: string) // `cp.str.contains(p) & ~cp.str.contains(q)`
    | SqueezedIs(p: string)            // `cp.str.replace(" ", "") == p`
    | SqueezedHas(p: string)           // `cp.str.replace(" ", "").str.contains(p)`

  datatype Rule = Rule(test: Test, literal: string)

  /** `$` also matches just before a final newline. */
  predicate WholeMatch(s: string, p: string) { s == p || s == p + "\n" }

  predicate Holds(t: Test, s: string)
  {
    match t
    case Prefix(p) => StartsWith(s, p)
    case Has(p) => Contains(s, p)
    case Whole(p) => WholeMatch(s, p)
    case WholeEither(p, q) => WholeMatch(s, p) || WholeMatch(s, q)
    case Is(p) => s == p
    case HasBoth(p, q) => Contains(s, p) && Contains(s, q)
    case HasWithout(p, q) => Contains(s, p) && !Contains(s, q)
    case SqueezedIs(p) => RemoveChar(s, ' ') == p
    case SqueezedHas(p) => Contains(RemoveChar(s, ' '), p)
  }

  /** RETA/TIRZE/SEMA to their full names. */
  const BaseRules: seq<Rule> := [
    Rule(Prefix("RETA"), "RETATRUTIDE"),
    Rule(Prefix("TIRZE"), "TIRZEPATIDE"),
    Rule(Prefix("SEMA"), "SEMAGLUTIDE")
  ]

  /** SS-31, ARA-290, SNAP-8, BPC 157 and bacteriostatic water. */
  const NameRules: seq<Rule> := [
    Rule(Whole("SS 31"), "SS-31"),
    Rule(Prefix("ARA 290"), "ARA-290"),
    Rule(Prefix("SNAP 8"), "SNAP-8"),
    Rule(Prefix("BPC 157"), "BPC 157"),
    Rule(Has("BAC WATER"), "BACTERIOSTATIC WATER"),
    Rule(Has("BACTERIOSTATIC"), "BACTERIOSTATIC WATER")
  ]

  /** BPC and TB blends. */
  const BpcTbRules: seq<Rule> := [
    Rule(Prefix("BPC TB"), "BPC TB BLEND"),
    Rule(HasBoth("TB", "BPC"), "BPC TB BLEND")
  ]

  /** Cagrilintide, epithalon, glutathione and mazdutide. */
  const SpellingRules: seq<Rule> := [
    Rule(Prefix("CAGR"), "CAGRILINTIDE"),
    Rule(Has("EPITHALON"), "EPITHALON"),
    Rule(Has("EPITALON"), "EPITHALON"),
    Rule(Prefix("GLUTATHIONE"), "GLUTATHIONE"),
    Rule(Has("MAZDU"), "MAZDUTIDE")
  ]

  /** MOTS-C and the CJC variants. */
  const CjcRules: seq<Rule> := [
    Rule(SqueezedIs("MOTSC"), "MOTS C"),
    Rule(HasBoth("CJC", "NO DAC"), "CJC NO DAC"),
    Rule(HasBoth("CJC", "WITHOUT DAC"), "CJC NO DAC"),
    Rule(HasBoth("CJC", "WHITOUT DAC"), "CJC NO DAC"),
    Rule(HasBoth("CJC", "IPA"), "CJC NO DAC IPA")
  ]

  /** Melanotan I. */
  const MelanotanRules: seq<Rule> := [
    Rule(Has("MELANOTAN 1"), "MELANOTAN I"),
    Rule(Has("MELANOTAN I"), "MELANOTAN I"),
    Rule(Whole("MELANOTAN"), "MELANOTAN I"),
    Rule(Whole("MT 1"), "MELANOTAN I")
  ]

  /** KLOW blends. */
  const KlowRules: seq<Rule> := [
    Rule(Prefix("KLOW"), "KLOW"),
    Rule(Has("KLOW TB BP KP GHK"), "KLOW"),
    Rule(Has("BPC GHK CU TB KPV"), "KLOW")
  ]

  /** GLOW blends: the BPC-GHK-TB blend without KPV. */
  const GlowRules: seq<Rule> := [
    Rule(Prefix("GLOW"), "GLOW"),
    Rule(Has("GLOW TB BP GHK"), "GLOW"),
    Rule(Has("GLOW TBMG"), "GLOW"),
    Rule(HasWithout("BPC GHK CU TB", "KPV"), "GLOW")
  ]

  /** HCG, PEG-MGF, AOD-9604 and FOXO4-DRI. */
  const HormoneRules: seq<Rule> := [
    Rule(Is("HCG"), "HUMAN CHORIONIC GONADOTROPIN"),
    Rule(Has("CHORIONIC"), "HUMAN CHORIONIC GONADOTROPIN"),
    Rule(SqueezedHas("PEGMGF"), "PEG MGF"),
    Rule(Prefix("AOD"), "AOD-9604"),
    Rule(Prefix("FOXO4"), "FOXO4-DRI")
  ]

  /** IGF-1 LR3, kisspeptin, L-carnitine, LL-37 and PT-141. */
  const TailRules: seq<Rule> := [
    Rule(Has("IGF"), "IGF-1 LR3"),
    Rule(Prefix("KISSPEPTIN"), "KISSPEPTIN-10"),
    Rule(Prefix("L CARNITINE"), "L-CARNITINE"),
    Rule(WholeEither("LL37", "LL 37"), "LL-37"),
    Rule(WholeEither("PT141", "PT 141"), "PT-141")
  ]

  /** The alias block, in source order. */
  const AliasRules: seq<Rule> :=
    NameRules + BpcTbRules + SpellingRules + CjcRules + MelanotanRules + KlowRules + GlowRules + HormoneRules + TailRules

  /** One `df.loc[mask, "canonical_peptide"] = literal` for one row. */
  function Step(rule: Rule, snap: string, cur: string): string
  {
    if Holds(rule.test, snap) then rule.literal else cur
  }

  /** The rules applied in order to one row whose snapshot is `snap` and whose value is `cur`. */
  function Apply(rules: seq<Rule>, snap: string, cur: string): string
  {
    if rules == [] then cur else Apply(rules[1..], snap, Step(rules[0], snap, cur))
  }

  lemma {:induction false} ApplySnoc(rules: seq<Rule>, r: nat, snap: string, cur: string)
    requires r < |rules|
    ensures Apply(rules[..r + 1], snap, cur) == Step(rules[r], snap, Apply(rules[..r], snap, cur))
    decreases r
  {
    if r > 0 {
      assert rules[..r + 1][1..] == rules[1..][..r];
      assert rules[..r][1..] == rules[1..][..r - 1];
      ApplySnoc(rules[1..], r - 1, snap, Step(rules[0], snap, cur));
    }
  }

  /** When no test holds, the row keeps its value. */
  lemma {:induction false} ApplyNoMatch(rules: seq<Rule>, snap: string, cur: string)
    requires forall k :: 0 <= k < |rules| ==> !Holds(rules[k].test, snap)
    ensures Apply(rules, snap, cur) == cur
  {
    if rules != [] {
      ApplyNoMatch(rules[1..], snap, cur);
    }
  }

  /** The literal of the last rule whose test holds wins, whatever came before. */
  lemma {:induction false} ApplyLastMatch(rules: seq<Rule>, snap: string, cur: string, j: nat)
    requires j < |rules| && Holds(rules[j].test, snap)
    requires forall k :: j < k < |rules| ==> !Holds(rules[k].test, snap)
    ensures Apply(rules, snap, cur) == rules[j].literal
  {
    if j == 0 {
      ApplyNoMatch(rules[1..], snap, rules[0].literal);
    } else {
      ApplyLastMatch(rules[1..], snap, Step(rules[0], snap, cur), j - 1);
    }
  }

  /** A row ends with its own value or with the literal of one of the rules. */
  lemma {:induction false} ApplyOutcome(rules: seq<Rule>, snap: string, cur: string)
    ensures Apply(rules, snap, cur) == cur || exists k :: 0 <= k < |rules| && Apply(rules, snap, cur) == rules[k].literal
  {
    if rules != [] {
      var next := Step(rules[0], snap, cur);
      ApplyOutcome(rules[1..], snap, next);
      var r := Apply(rules[1..], snap, next);
      if r != next {
        var k :| 0 <= k < |rules[1..]| && r == rules[1..][k].literal;
        assert r == rules[k + 1].literal;
      } else if next != cur {
        assert r == rules[0].literal;
      }
    }
  }

  /** The value a name ends with after both blocks. */
  function Canonical(name: string): string
  {
    var base := Apply(BaseRules, name, name);
    Apply(AliasRules, Upper(base), base)
  }

  /** The literals the two blocks can write. */
  function Literals(): set<string>
  {
    set r | r in BaseRules + AliasRules :: r.literal
  }

  /** A name either keeps its (base-rule) value or ends as one of the rule literals. */
  lemma CanonicalOutcome(name: string)
    ensures var base := Apply(BaseRules, name, name);
      Canonical(name) == name || Canonical(name) in Literals()
  {
    var base := Apply(BaseRules, name, name);
    ApplyOutcome(BaseRules, name, name);
    ApplyOutcome(AliasRules, Upper(base), base);
    var r := Canonical(name);
    if r != base {
      var k :| 0 <= k < |AliasRules| && r == AliasRules[k].literal;
      assert AliasRules[k] == (BaseRules + AliasRules)[k + |BaseRules|];
    } else if base != name {
      var k :| 0 <= k < |BaseRules| && base == BaseRules[k].literal;
      assert BaseRules[k] == (BaseRules + AliasRules)[k];
    }
  }

  /**
   * Every rule overwrites in place the rows whose snapshot passes its test;
   * the tests read `snap`, never the column being rewritten.
   */
  method ApplyRules(col: array<string>, rules: seq<Rule>, snap: seq<string>)
    requires |snap| == col.Length
    modifies col
    ensures forall i :: 0 <= i < col.Length ==> col[i] == Apply(rules, snap[i], old(col[i]))
  {
    ghost var start := col[..];
    var r := 0;
    while r < |rules|
      invariant 0 <= r <= |rules|
      invariant forall i :: 0 <= i < col.Length ==> col[i] == Apply(rules[..r], snap[i], start[i])
    {
      var i := 0;
      while i < col.Length
        invariant 0 <= i <= col.Length
        invariant forall j :: 0 <= j < i ==> col[j] == Apply(rules[..r + 1], snap[j], start[j])
        invariant forall j :: i <= j < col.Length ==> col[j] == Apply(rules[..r], snap[j], start[j])
      {
        ApplySnoc(rules, r, snap[i], start[i]);
        if Holds(rules[r].test, snap[i]) {
          col[i] := rules[r].literal;
        }
        i := i + 1;
      }
      r := r + 1;
    }
    assert rules[..r] == rules;
  }

  /** The base rules on the first snapshot, then the alias block on the upper-cased second one. */
  method NormalizeAliases(col: array<string>)
    modifies col
    ensures forall i :: 0 <= i < col.Length ==> col[i] == Canonical(old(col[i]))
  {
    var first := col[..];
    ApplyRules(col, BaseRules, first);
    var second := seq(col.Length, i requires 0 <= i < col.Length reads col => Upper(col[i]));
    ApplyRules(col, AliasRules, second);
  }

  /** A piece of a contained pattern is contained too. */
  lemma ContainsPiece(s: string, p: string, i: nat, j: nat)
    requires i <= j <= |p|
    ensures Contains(s, p) ==> Contains(s, p[i..j])
  {
    if Contains(s, p) {
      var at := ContainsWitness(s, p);
      forall k | 0 <= k < j - i
        ensures s[at + i..at + j][k] == p[i..j][k]
      {
        assert s[at + i + k] == s[at..at + |p|][i + k];
      }
      ContainsAt(s, p[i..j], at + i);
    }
  }

  /** A text that starts with a pattern contains it. */
  lemma PrefixContained(s: string, p: string)
    ensures StartsWith(s, p) ==> Contains(s, p)
  {
    if StartsWith(s, p) {
      assert s[..|p|] == p;
      ContainsAt(s, p, 0);
    }
  }

  /** Applying two rule lists in a row is applying their concatenation. */
  lemma {:induction false} ApplyAppend(a: seq<Rule>, b: seq<Rule>, snap: string, cur: string)
    ensures Apply(a + b, snap, cur) == Apply(b, snap, Apply(a, snap, cur))
  {
    if a == [] {
      assert a + b == b;
    } else {
      assert (a + b)[1..] == a[1..] + b;
      ApplyAppend(a[1..], b, snap, Step(a[0], snap, cur));
    }
  }

  /**
   * A name such as "BPC 157 TB" passes the BPC 157 prefix rule (line 134),
   * but the TB-and-BPC rule (line 143) comes later and wins.
   */
  lemma BpcTbOverridesBpc157(s: string, cur: string)
    requires StartsWith(s, "BPC 157") && Contains(s, "TB")
    ensures Holds(NameRules[3].test, s)
    ensures Apply(NameRules + BpcTbRules, s, cur) == "BPC TB BLEND"
  {
    PrefixContained(s, "BPC 157");
    ContainsPiece(s, "BPC 157", 0, 3);
    assert "BPC 157"[0..3] == "BPC";
    ApplyAppend(NameRules, BpcTbRules, s, cur);
    ApplyLastMatch(BpcTbRules, s, Apply(NameRules, s, cur), 1);
  }

  /**
   * A name such as "BPC GHK CU TB KPV" passes the TB-and-BPC rule (line 143)
   * and the KLOW blend rule (line 178); the GLOW blend rule (line 184)
   * excludes KPV, so without "GLOW" in the name KLOW is what the rules up to
   * line 185 leave.
   */
  lemma KlowBlendOverGlow(s: string, cur: string)
    requires Contains(s, "BPC GHK CU TB KPV") && !Contains(s, "GLOW")
    ensures Holds(BpcTbRules[1].test, s)
    ensures Apply(NameRules + BpcTbRules + SpellingRules + CjcRules + MelanotanRules + KlowRules + GlowRules, s, cur) == "KLOW"
  {
    var blend := "BPC GHK CU TB KPV";
    ContainsPiece(s, blend, 0, 3);
    assert blend[0..3] == "BPC";
    ContainsPiece(s, blend, 11, 13);
    assert blend[11..13] == "TB";
    ContainsPiece(s, blend, 14, 17);
    assert blend[14..17] == "KPV";
    var before := NameRules + BpcTbRules + SpellingRules + CjcRules + MelanotanRules;
    ApplyAppend(before, KlowRules, s, cur);
    ApplyLastMatch(KlowRules, s, Apply(before, s, cur), 2);
    GlowExcluded(s);
    ApplyNoMatch(GlowRules, s, "KLOW");
    ApplyAppend(before + KlowRules, GlowRules, s, cur);
  }

  /** None of the GLOW rules (lines 181-184) passes a name without "GLOW" that mentions KPV. */
  lemma GlowExcluded(s: string)
    requires !Contains(s, "GLOW") && Contains(s, "KPV")
    ensures forall k :: 0 <= k < |GlowRules| ==> !Holds(GlowRules[k].test, s)
  {
    PrefixContained(s, "GLOW");
    ContainsPiece(s, "GLOW TB BP GHK", 0, 4);
    assert "GLOW TB BP GHK"[0..4] == "GLOW";
    ContainsPiece(s, "GLOW TBMG", 0, 4);
    assert "GLOW TBMG"[0..4] == "GLOW";
  }

  /** Every character of a contained pattern occurs in the text. */
  lemma ContainedChars(s: string, p: string)
    ensures Contains(s, p) ==> forall x :: x in p ==> x in s
  {
    if Contains(s, p) {
      var at := ContainsWitness(s, p);
      forall x | x in p ensures x in s {
        var i :| 0 <= i < |p| && p[i] == x;
        assert s[at..at + |p|][i] == s[at + i];
      }
    }
  }

  lemma LacksPattern(s: string, p: string, c: char)
    requires c !in s && c in p
    ensures !Contains(s, p)
  {
    ContainedChars(s, p);
  }

  /** The character `c` occurs in every text that passes `t`. */
  predicate Needs(t: Test, c: char)
  {
    match t
    case Prefix(p) => c in p
    case Has(p) => c in p
    case Whole(p) => c in p
    case WholeEither(p, q) => c in p && c in q
    case Is(p) => c in p
    case HasBoth(p, q) => c in p || c in q
    case HasWithout(p, q) => c in p
    case SqueezedIs(p) => c in p
    case SqueezedHas(p) => c in p
  }

  /** A text lacking a character that `t` needs does not pass `t`. */
  lemma Misses(t: Test, s: string, c: char)
    requires c !in s && Needs(t, c)
    ensures !Holds(t, s)
  {
    match t
    case Prefix(p) =>
      PrefixContained(s, p);
      LacksPattern(s, p, c);
    case Has(p) => LacksPattern(s, p, c);
    case Whole(p) =>
    case WholeEither(p, q) =>
    case Is(p) =>
    case HasBoth(p, q) =>
      if c in p { LacksPattern(s, p, c); } else { LacksPattern(s, q, c); }
    case HasWithout(p, q) => LacksPattern(s, p, c);
    case SqueezedIs(p) =>
    case SqueezedHas(p) => LacksPattern(RemoveChar(s, ' '), p, c);
  }

  /** The base rules all need an E. */
  lemma BaseSkipped(s: string, cur: string)
    requires 'E' !in s
    ensures Apply(BaseRules, s, cur) == cur
  {
    forall k | 0 <= k < |BaseRules| ensures !Holds(BaseRules[k].test, s) {
      Misses(BaseRules[k].test, s, 'E');
    }
    ApplyNoMatch(BaseRules, s, cur);
  }

  lemma SpellingSkipped(s: string, cur: string)
    requires 'A' !in s && 'E' !in s
    ensures Apply(SpellingRules, s, cur) == cur
  {
    forall k | 0 <= k < |SpellingRules| ensures !Holds(SpellingRules[k].test, s) {
      if k == 1 || k == 2 { Misses(SpellingRules[k].test, s, 'E'); }
      else { Misses(SpellingRules[k].test, s, 'A'); }
    }
    ApplyNoMatch(SpellingRules, s, cur);
  }

  lemma CjcSkipped(s: string, cur: string)
    requires 'M' !in s && 'J' !in s
    ensures Apply(CjcRules, s, cur) == cur
  {
    forall k | 0 <= k < |CjcRules| ensures !Holds(CjcRules[k].test, s) {
      if k == 0 { Misses(CjcRules[k].test, s, 'M'); }
      else { Misses(CjcRules[k].test, s, 'J'); }
    }
    ApplyNoMatch(CjcRules, s, cur);
  }

  lemma MelanotanSkipped(s: string, cur: string)
    requires 'M' !in s
    ensures Apply(MelanotanRules, s, cur) == cur
  {
    forall k | 0 <= k < |MelanotanRules| ensures !Holds(MelanotanRules[k].test, s) {
      Misses(MelanotanRules[k].test, s, 'M');
    }
    ApplyNoMatch(MelanotanRules, s, cur);
  }

  lemma KlowSkipped(s: string, cur: string)
    requires 'K' !in s
    ensures Apply(KlowRules, s, cur) == cur
  {
    forall k | 0 <= k < |KlowRules| ensures !Holds(KlowRules[k].test, s) {
      Misses(KlowRules[k].test, s, 'K');
    }
    ApplyNoMatch(KlowRules, s, cur);
  }

  lemma GlowSkipped(s: string, cur: string)
    requires 'G' !in s
    ensures Apply(GlowRules, s, cur) == cur
  {
    forall k | 0 <= k < |GlowRules| ensures !Holds(GlowRules[k].test, s) {
      Misses(GlowRules[k].test, s, 'G');
    }
    ApplyNoMatch(GlowRules, s, cur);
  }

  lemma HormoneSkipped(s: string, cur: string)
    requires |s| != 3 && 'O' !in s && 'E' !in s && 'A' !in s
    ensures Apply(HormoneRules, s, cur) == cur
  {
    forall k | 0 <= k < |HormoneRules| ensures !Holds(HormoneRules[k].test, s) {
      if k == 1 || k == 4 { Misses(HormoneRules[k].test, s, 'O'); }
      else if k == 2 { Misses(HormoneRules[k].test, s, 'E'); }
      else if k == 3 { Misses(HormoneRules[k].test, s, 'A'); }
    }
    ApplyNoMatch(HormoneRules, s, cur);
  }

  lemma TailSkipped(s: string, cur: string)
    requires 'I' !in s && 'L' !in s && '4' !in s
    ensures Apply(TailRules, s, cur) == cur
  {
    forall k | 0 <= k < |TailRules| ensures !Holds(TailRules[k].test, s) {
      if k <= 1 { Misses(TailRules[k].test, s, 'I'); }
      else if k <= 3 { Misses(TailRules[k].test, s, 'L'); }
      else { Misses(TailRules[k].test, s, '4'); }
    }
    ApplyNoMatch(TailRules, s, cur);
  }

  /**
   * Any snapshot that starts with "BPC 157", contains "TB" and lacks the
   * letters the later sections need ends as "BPC TB BLEND": the BPC 157 rule
   * (line 134) matches and is overridden by the TB-and-BPC rule (line 143).
   */
  lemma BpcTbThroughBlock(s: string, cur: string)
    requires StartsWith(s, "BPC 157") && Contains(s, "TB")
    requires 'A' !in s && 'E' !in s && 'G' !in s && 'I' !in s && 'J' !in s
    requires 'K' !in s && 'L' !in s && 'M' !in s && 'O' !in s && '4' !in s
    ensures Apply(AliasRules, s, cur) == "BPC TB BLEND"
  {
    BpcTbOverridesBpc157(s, cur);
    var blend := "BPC TB BLEND";
    SpellingSkipped(s, blend);
    CjcSkipped(s, blend);
    MelanotanSkipped(s, blend);
    KlowSkipped(s, blend);
    GlowSkipped(s, blend);
    HormoneSkipped(s, blend);
    TailSkipped(s, blend);
    var a := NameRules + BpcTbRules;
    ApplyAppend(a, SpellingRules, s, cur);
    ApplyAppend(a + SpellingRules, CjcRules, s, cur);
    ApplyAppend(a + SpellingRules + CjcRules, MelanotanRules, s, cur);
    ApplyAppend(a + SpellingRules + CjcRules + MelanotanRules, KlowRules, s, cur);
    ApplyAppend(a + SpellingRules + CjcRules + MelanotanRules + KlowRules, GlowRules, s, cur);
    ApplyAppend(a + SpellingRules + CjcRules + MelanotanRules + KlowRules + GlowRules, HormoneRules, s, cur);
    ApplyAppend(a + SpellingRules + CjcRules + MelanotanRules + KlowRules + GlowRules + HormoneRules, TailRules, s, cur);
  }

  /**
   * Any snapshot that contains "BPC GHK CU TB KPV" and lacks the letters the
   * GLOW, hormone and tail sections need ends as "KLOW".
   */
  lemma KlowThroughBlock(s: string, cur: string)
    requires Contains(s, "BPC GHK CU TB KPV")
    requires 'A' !in s && 'E' !in s && 'I' !in s && 'L' !in s && 'O' !in s && '4' !in s
    ensures Apply(AliasRules, s, cur) == "KLOW"
  {
    ContainedChars(s, "GLOW");
    KlowBlendOverGlow(s, cur);
    var at := ContainsWitness(s, "BPC GHK CU TB KPV");
    HormoneSkipped(s, "KLOW");
    TailSkipped(s, "KLOW");
    var g := NameRules + BpcTbRules + SpellingRules + CjcRules + MelanotanRules + KlowRules + GlowRules;
    ApplyAppend(g, HormoneRules, s, cur);
    ApplyAppend(g + HormoneRules, TailRules, s, cur);
  }

  /** Upper-casing a text without lower-case letters changes nothing. */
  lemma UpperPlain(s: string)
    requires forall i :: 0 <= i < |s| ==> !IsLowerLetter(s[i])
    ensures Upper(s) == s
  {
    var u := Upper(s);
    assert forall i :: 0 <= i < |s| ==> u[i] == s[i];
  }

  /** A name the base rules pass by and upper-casing keeps goes into the block as it is. */
  lemma CanonicalOfPlain(s: string)
    requires Apply(BaseRules, s, s) == s && Upper(s) == s
    ensures Canonical(s) == Apply(AliasRules, s, s)
  {
  }

  /** What the proof of the "BPC 157 TB" alias needs of its letters. */
  lemma BpcTbShape(s: string)
    requires s == "BPC 157 TB"
    ensures StartsWith(s, "BPC 157") && Contains(s, "TB")
    ensures forall i :: 0 <= i < |s| ==> !IsLowerLetter(s[i])
  {
    assert s[8..10] == "TB";
    ContainsAt(s, "TB", 8);
  }

  lemma BpcTbLacks(s: string)
    requires s == "BPC 157 TB"
    ensures 'A' !in s && 'E' !in s && 'G' !in s && 'I' !in s && 'J' !in s
  {
  }

  lemma BpcTbLacksMore(s: string)
    requires s == "BPC 157 TB"
    ensures 'K' !in s && 'L' !in s && 'M' !in s && 'O' !in s && '4' !in s
  {
  }

  /** "BPC 157 TB" ends as "BPC TB BLEND". */
  lemma BpcTbBlend(s: string)
    requires s == "BPC 157 TB"
    ensures Canonical(s) == "BPC TB BLEND"
  {
    BpcTbShape(s);
    BpcTbLacks(s);
    BpcTbLacksMore(s);
    BaseSkipped(s, s);
    UpperPlain(s);
    CanonicalOfPlain(s);
    BpcTbThroughBlock(s, s);
  }

  /** What the proof of the "BPC GHK CU TB KPV" alias needs of its letters. */
  lemma KlowShape(s: string)
    requires s == "BPC GHK CU TB KPV"
    ensures Contains(s, "BPC GHK CU TB KPV")
    ensures forall i :: 0 <= i < |s| ==> !IsLowerLetter(s[i])
  {
    ContainsAt(s, s, 0);
  }

  lemma KlowLacks(s: string)
    requires s == "BPC GHK CU TB KPV"
    ensures 'A' !in s && 'E' !in s && 'I' !in s
  {
  }

  lemma KlowLacksMore(s: string)
    requires s == "BPC GHK CU TB KPV"
    ensures 'L' !in s && 'O' !in s && '4' !in s
  {
  }

  /** "BPC GHK CU TB KPV" ends as "KLOW". */
  lemma KlowBlend(s: string)
    requires s == "BPC GHK CU TB KPV"
    ensures Canonical(s) == "KLOW"
  {
    KlowShape(s);
    KlowLacks(s);
    KlowLacksMore(s);
    BaseSkipped(s, s);
    UpperPlain(s);
    CanonicalOfPlain(s);
    KlowThroughBlock(s, s);
  }
}
