/**
 * The ECO-code bands of `canonical_family` restated as a table of numeric ranges,
 * an independent reading of the chain of `re.match` tests: each band is one
 * letter and a range of the two-digit number after it.
 */
module EcoBands {
  import opened Text
  import opened Patterns
  import opened Families

  datatype Band = Band(letter: char, lo: nat, hi: nat, result: FamilyMatch)

  /** The two-digit number after the letter, when the code starts with a letter and two digits. */
  predicate HasCode(eco: string) {
    |eco| >= 3 && IsDigit(eco[1]) && IsDigit(eco[2])
  }

  function Code(eco: string): (c: nat)
    requires HasCode(eco)
    ensures c < 100
  {
    10 * (eco[1] as int - '0' as int) + (eco[2] as int - '0' as int)
  }

  predicate InBand(eco: string, b: Band) {
    HasCode(eco) && eco[0] == b.letter && b.lo <= Code(eco) <= b.hi
  }

  /** One band per alternative of the source's ECO patterns, grouped by letter. */
  const Bands: seq<Band> := ABands + BBands + CBands + DBands + EBands

  const ABands: seq<Band> := [
    Band('A', 80, 89, FamilyMatch("dutch-defense", 90)),
    Band('A', 90, 99, FamilyMatch("dutch-defense", 90)),
    Band('A', 56, 59, FamilyMatch("benoni-defense", 85)),
    Band('A', 70, 79, FamilyMatch("benoni-defense", 85))
  ]

  const BBands: seq<Band> := [
    Band('B', 20, 99, FamilyMatch("sicilian-defense", 90)),
    Band('B', 10, 19, FamilyMatch("caro-kann-defense", 85)),
    Band('B', 6, 9, FamilyMatch("pirc-modern", 80)),
    Band('B', 0, 5, FamilyMatch("open-games", 80))
  ]

  const CBands: seq<Band> := [
    Band('C', 0, 9, FamilyMatch("french-defense", 90)),
    Band('C', 10, 19, FamilyMatch("french-defense", 90))
  ]

  const DBands: seq<Band> := [
    Band('D', 0, 9, FamilyMatch("queens-gambit", 85)),
    Band('D', 30, 39, FamilyMatch("queens-gambit", 85)),
    Band('D', 40, 49, FamilyMatch("queens-gambit", 85)),
    Band('D', 60, 69, FamilyMatch("queens-gambit", 85)),
    Band('D', 10, 19, FamilyMatch("slav-defense", 85)),
    Band('D', 20, 29, FamilyMatch("queens-gambit", 80)),
    Band('D', 50, 59, FamilyMatch("queens-gambit", 80)),
    Band('D', 70, 79, FamilyMatch("grunfeld-defense", 85)),
    Band('D', 80, 89, FamilyMatch("grunfeld-defense", 85)),
    Band('D', 90, 99, FamilyMatch("grunfeld-defense", 85))
  ]

  const EBands: seq<Band> := [
    Band('E', 0, 9, FamilyMatch("catalan-opening", 80)),
    Band('E', 20, 29, FamilyMatch("nimzo-indian-defense", 85)),
    Band('E', 30, 39, FamilyMatch("queens-indian-defense", 85)),
    Band('E', 60, 69, FamilyMatch("kings-indian-defense", 85))
  ]

  /** A code inside a band gets that band's family, whatever the order of the tests: the bands do not overlap. */
  lemma EcoBandOfBand(eco: string, k: nat)
    requires k < |Bands| && InBand(eco, Bands[k])
    ensures EcoBand(eco) == Bands[k].result
  {
    if k < 4 {
      InLetterBand(eco, ABands, k);
    } else if k < 8 {
      InLetterBand(eco, BBands, k - 4);
    } else if k < 10 {
      InLetterBand(eco, CBands, k - 8);
    } else if k < 20 {
      InLetterBand(eco, DBands, k - 10);
    } else {
      InLetterBand(eco, EBands, k - 20);
    }
  }

  /** The same for a band of one letter's table. */
  lemma InLetterBand(eco: string, bands: seq<Band>, k: nat)
    requires bands in {ABands, BBands, CBands, DBands, EBands}
    requires k < |bands| && InBand(eco, bands[k])
    ensures EcoBand(eco) == bands[k].result
  {
  }

  /** A code inside no band is unmatched. */
  lemma EcoBandOutsideBands(eco: string)
    requires forall k :: 0 <= k < |Bands| ==> !InBand(eco, Bands[k])
    ensures EcoBand(eco) == Unmatched
  {
    if HasCode(eco) {
      var c := eco[0];
      if c == 'A' {
        assert forall k :: 0 <= k < |ABands| ==> ABands[k] == Bands[k];
        OutsideA(eco);
      } else if c == 'B' {
        BandsCoverB(eco);
        assert false;
      } else if c == 'C' {
        assert forall k :: 0 <= k < |CBands| ==> CBands[k] == Bands[8 + k];
        OutsideC(eco);
      } else if c == 'D' {
        BandsCoverD(eco);
        assert false;
      } else if c == 'E' {
        assert forall k :: 0 <= k < |EBands| ==> EBands[k] == Bands[20 + k];
        OutsideE(eco);
      }
    }
  }

  /** A code starting with `A` outside the `A` bands is unmatched. */
  lemma OutsideA(eco: string)
    requires HasCode(eco) && eco[0] == 'A' && forall k :: 0 <= k < |ABands| ==> !InBand(eco, ABands[k])
    ensures EcoBand(eco) == Unmatched
  {
    assert !InBand(eco, ABands[0]) && !InBand(eco, ABands[1]) && !InBand(eco, ABands[2]) && !InBand(eco, ABands[3]);
  }

  /** The four `B` bands together cover B00 to B99. */
  lemma BandsCoverB(eco: string)
    requires HasCode(eco) && eco[0] == 'B'
    ensures exists k :: 4 <= k < 8 && InBand(eco, Bands[k])
  {
    assert forall k :: 0 <= k < |BBands| ==> BBands[k] == Bands[4 + k];
    assert InBand(eco, BBands[0]) || InBand(eco, BBands[1]) || InBand(eco, BBands[2]) || InBand(eco, BBands[3]);
  }

  /** A code starting with `C` outside the `C` bands is unmatched. */
  lemma OutsideC(eco: string)
    requires HasCode(eco) && eco[0] == 'C' && forall k :: 0 <= k < |CBands| ==> !InBand(eco, CBands[k])
    ensures EcoBand(eco) == Unmatched
  {
    assert !InBand(eco, CBands[0]) && !InBand(eco, CBands[1]);
  }

  /** The ten `D` bands together cover D00 to D99. */
  lemma BandsCoverD(eco: string)
    requires HasCode(eco) && eco[0] == 'D'
    ensures exists k :: 10 <= k < 20 && InBand(eco, Bands[k])
  {
    assert forall k :: 0 <= k < |DBands| ==> DBands[k] == Bands[10 + k];
    assert || InBand(eco, DBands[0]) || InBand(eco, DBands[1]) || InBand(eco, DBands[2]) || InBand(eco, DBands[3])
           || InBand(eco, DBands[4]) || InBand(eco, DBands[5]) || InBand(eco, DBands[6])
           || InBand(eco, DBands[7]) || InBand(eco, DBands[8]) || InBand(eco, DBands[9]);
  }

  /** A code starting with `E` outside the `E` bands is unmatched. */
  lemma OutsideE(eco: string)
    requires HasCode(eco) && eco[0] == 'E' && forall k :: 0 <= k < |EBands| ==> !InBand(eco, EBands[k])
    ensures EcoBand(eco) == Unmatched
  {
    assert !InBand(eco, EBands[0]) && !InBand(eco, EBands[1]) && !InBand(eco, EBands[2]) && !InBand(eco, EBands[3]);
  }

  lemma RewriteEmpty(syns: seq<(string, string)>)
    requires forall k :: 0 <= k < |syns| ==> syns[k].0 != []
    ensures Rewrite("", syns) == ""
  {
  }

  /** No rule of any table matches the empty string. */
  lemma NoRuleMatchesEmpty(rules: seq<Rule>)
    ensures forall j :: 0 <= j < |rules| ==> !RuleMatches(rules[j], "")
  {
    forall j, k | 0 <= j < |rules| && 0 <= k < |rules[j].alternatives|
      ensures !Search(rules[j].alternatives[k], "")
    {
      SearchEmpty(rules[j].alternatives[k]);
    }
  }

  /** Without a name, only the ECO code decides. */
  lemma FamilyOfEmptyName(ecoCode: string)
    ensures FamilyOf("", ecoCode) == EcoBand(NormalizeEco(ecoCode))
  {
    RewriteEmpty(Synonyms);
    assert Lower("") == "";
    NoRuleMatchesEmpty(Rules);
    FamilyOfFirstMatch("", ecoCode);
  }

  lemma NormalizeEcoExamples()
    ensures NormalizeEco("b22") == "B22"
    ensures NormalizeEco("C45") == "C45"
  {
    UpperExample();
    NoSpaceStrip("B22");
    NoSpaceStrip("C45");
  }

  lemma UpperExample()
    ensures Upper("b22") == "B22" && Upper("C45") == "C45"
  {
    assert Upper("b22")[0] == 'B';
  }

  /** A code whose ends are not whitespace is unchanged by `strip()`. */
  lemma NoSpaceStrip(s: string)
    requires |s| > 0 && !IsSpace(s[0]) && !IsSpace(s[|s| - 1])
    ensures Strip(s, Whitespace) == s
  {
    assert StripLeft(s, Whitespace) == s;
    assert StripRight(s, Whitespace) == s;
  }

  /** Without a name, the lower-case code "b22" falls in the Sicilian band and "C45" in none. */
  lemma EcoExamples()
    ensures FamilyOf("", "b22") == FamilyMatch("sicilian-defense", 90)
    ensures FamilyOf("", "C45") == FamilyMatch("", 0)
  {
    FamilyOfEmptyName("b22");
    FamilyOfEmptyName("C45");
    NormalizeEcoExamples();
    assert EcoBand("B22") == FamilyMatch("sicilian-defense", 90);
    assert EcoBand("C45") == Unmatched;
  }
}
