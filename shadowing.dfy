/**
 * Consequences of the order of `FAMILY_RULES`: `re.search` is tried rule by rule
 * and the first hit wins, so a later rule whose every match is also a match of an
 * earlier rule can never decide a family.
 */
module Shadowing {
  import opened Text
  import opened Patterns
  import opened Families

  /** `\bsemi[-\s]slav\b`: the spelling of the semi-slav with a separator. */
  const SemiSlavApart: Pattern := [Word("semi"), One(DashOrSpace), Word("slav")]

  /** `\bsemislav\b`: the glued spelling. */
  const SemiSlavGlued: Pattern := [Word("semislav")]

  /** Both words of `\bw1\s+w2\b` also match as whole words on their own. */
  lemma SpacedPairWords(w1: string, w2: string, n: string, j: nat)
    requires w1 != [] && w2 != [] && IsWordChar(w1[|w1| - 1]) && IsWordChar(w2[0])
    requires j <= |n| && MatchAt([Word(w1), Plus(Space), Word(w2)], n, j)
    ensures Search([Word(w1)], n) && Search([Word(w2)], n)
  {
    assert [Word(w1), Plus(Space), Word(w2)] == [Word(w1)] + [Plus(Space), Word(w2)];
    WordThen(w1, [Plus(Space), Word(w2)], n, j);
    var a := j + |w1|;
    assert [Plus(Space), Word(w2)] == [Plus(Space)] + [Word(w2)];
    var e := PlusMatch(Space, [Word(w2)], n, a);
    assert n[a - 1] == n[j..a][|w1| - 1] == w1[|w1| - 1];
    SpaceNotWord(n[a]);
    assert Boundary(n, a);
    WordMatch(w1, n, j);
    assert MatchAt([Word(w1)], n, j);
    WordThen(w2, [], n, e);
    assert [Word(w2)] + [] == [Word(w2)];
    SpaceNotWord(n[e - 1]);
    assert n[e] == n[e..e + |w2|][0] == w2[0];
    assert Boundary(n, e);
    WordMatch(w2, n, e);
    assert MatchAt([Word(w2)], n, e);
  }

  /** Whenever `\bdutch\b` matches, rule 14 or an earlier one decides, so the 0.95 Staunton branch is never reached. */
  lemma DutchShadowsStaunton(n: string)
    requires Search(DutchWord, n)
    ensures FirstMatch(Rules, n, 0) <= DutchIndex
  {
    assert Rules[DutchIndex].alternatives[0] == DutchWord;
    assert RuleMatches(Rules[DutchIndex], n);
  }

  /** A name with "dutch" in it (with or without "staunton") always gets confidence 0.99, never 0.95. */
  lemma DutchNameNeverInferred(name: string, ecoCode: string)
    requires Search(DutchWord, Normalized(name))
    ensures FamilyOf(name, ecoCode).confidence == 99
    ensures (forall k :: 0 <= k < DutchIndex ==> !RuleMatches(Rules[k], Normalized(name))) ==>
              FamilyOf(name, ecoCode) == FamilyMatch("dutch-defense", 99)
  {
    var n := Normalized(name);
    DutchShadowsStaunton(n);
    FamilyOfDecided(name, ecoCode);
    assert Rules[DutchIndex].family == "dutch-defense";
  }

  /** A rule that matches only where an earlier rule matches is never the first match. */
  lemma ShadowedNeverFirst(rules: seq<Rule>, n: string, earlier: nat, later: nat)
    requires earlier < later < |rules|
    requires RuleMatches(rules[later], n) ==> RuleMatches(rules[earlier], n)
    ensures !IsFirstMatch(rules, n, later)
  {
  }

  /** Wherever `\bold\s+benoni\b` (rule 16) matches, `\bbenoni\b` (rule 15) does. */
  lemma OldBenoniImpliesBenoni(n: string)
    ensures RuleMatches(Rules[OldBenoniIndex], n) ==> RuleMatches(Rules[BenoniIndex], n)
  {
    assert Rules[OldBenoniIndex].alternatives == [OldBenoni];
    assert Rules[BenoniIndex].alternatives == [BenoniWord];
    if Search(OldBenoni, n) {
      var j :| 0 <= j <= |n| && MatchAt(OldBenoni, n, j);
      SpacedPairWords("old", "benoni", n, j);
      assert Search(Rules[BenoniIndex].alternatives[0], n);
    }
  }

  /** Wherever `\bmodern\s+benoni\b` (rule 17) matches, `\bbenoni\b` (rule 15) does. */
  lemma ModernBenoniImpliesBenoni(n: string)
    ensures RuleMatches(Rules[ModernBenoniIndex], n) ==> RuleMatches(Rules[BenoniIndex], n)
  {
    assert Rules[ModernBenoniIndex].alternatives == [ModernBenoni];
    assert Rules[BenoniIndex].alternatives == [BenoniWord];
    if Search(ModernBenoni, n) {
      var j :| 0 <= j <= |n| && MatchAt(ModernBenoni, n, j);
      SpacedPairWords("modern", "benoni", n, j);
      assert Search(Rules[BenoniIndex].alternatives[0], n);
    }
  }

  /** Wherever the last rule (`\bscandinavian\b` again) matches, rule 3 does. */
  lemma ScandinavianAgainImpliesScandinavian(n: string)
    ensures RuleMatches(Rules[ScandinavianAgainIndex], n) ==> RuleMatches(Rules[ScandinavianIndex], n)
  {
    assert Rules[ScandinavianAgainIndex].alternatives == [ScandinavianWord];
    assert Rules[ScandinavianIndex].alternatives[0] == ScandinavianWord;
  }

  /** Rules 16, 17 and 37 are dead entries of the table: none of them ever decides a family. */
  lemma DeadRules(n: string)
    ensures !IsFirstMatch(Rules, n, OldBenoniIndex)
    ensures !IsFirstMatch(Rules, n, ModernBenoniIndex)
    ensures !IsFirstMatch(Rules, n, ScandinavianAgainIndex)
  {
    OldBenoniImpliesBenoni(n);
    ShadowedNeverFirst(Rules, n, BenoniIndex, OldBenoniIndex);
    ModernBenoniImpliesBenoni(n);
    ShadowedNeverFirst(Rules, n, BenoniIndex, ModernBenoniIndex);
    ScandinavianAgainImpliesScandinavian(n);
    ShadowedNeverFirst(Rules, n, ScandinavianIndex, ScandinavianAgainIndex);
  }

  /** A name with "modern benoni" in it is decided by rule 12 (pirc-modern) or an earlier rule, never as benoni-defense. */
  lemma ModernBenoniIsPircModern(name: string, ecoCode: string)
    requires Search(ModernBenoni, Normalized(name))
    ensures FirstMatch(Rules, Normalized(name), 0) <= PircModernIndex
    ensures FamilyOf(name, ecoCode).confidence == 99
    ensures FamilyOf(name, ecoCode).family != "benoni-defense"
    ensures (forall k :: 0 <= k < PircModernIndex ==> !RuleMatches(Rules[k], Normalized(name))) ==>
              FamilyOf(name, ecoCode) == FamilyMatch("pirc-modern", 99)
  {
    var n := Normalized(name);
    ModernBenoniMeansModern(n);
    FamilyOfDecided(name, ecoCode);
    EarlyFamiliesNotBenoni(FirstMatch(Rules, n, 0));
  }

  /** `\bmodern\s+benoni\b` always contains a match of `\bmodern\b`, an alternative of rule 12. */
  lemma ModernBenoniMeansModern(n: string)
    requires Search(ModernBenoni, n)
    ensures RuleMatches(Rules[PircModernIndex], n)
  {
    var j :| 0 <= j <= |n| && MatchAt(ModernBenoni, n, j);
    SpacedPairWords("modern", "benoni", n, j);
    assert Rules[PircModernIndex].alternatives[2] == ModernWord;
  }

  lemma EarlyFamiliesNotBenoni(i: nat)
    requires i <= PircModernIndex
    ensures Rules[i].family != "benoni-defense"
    ensures i == PircModernIndex ==> Rules[i].family == "pirc-modern"
  {
  }

  /** `\bsemi[-\s]slav\b` always contains a match of `\bslav\b`. */
  lemma SemiSlavApartMeansSlav(n: string)
    requires Search(SemiSlavApart, n)
    ensures Search(SlavWord, n)
  {
    var j :| 0 <= j <= |n| && MatchAt(SemiSlavApart, n, j);
    assert SemiSlavApart == [Word("semi")] + [One(DashOrSpace), Word("slav")];
    WordThen("semi", [One(DashOrSpace), Word("slav")], n, j);
    var a := j + 4;
    assert [One(DashOrSpace), Word("slav")][1..] == [Word("slav")];
    assert MatchToks([Word("slav")], n, a + 1);
    SpaceNotWord(n[a]);
    WordThen("slav", [], n, a + 1);
    assert [Word("slav")] + [] == [Word("slav")];
    assert n[a + 1] == n[a + 1..a + 5][0] == 's';
    assert Boundary(n, a + 1);
    assert MatchAt(SlavWord, n, a + 1);
  }

  /** A name spelled "semi-slav" or "semi slav" is decided by rule 24 (slav-defense) or an earlier rule. */
  lemma SemiSlavApartIsSlav(name: string, ecoCode: string)
    requires Search(SemiSlavApart, Normalized(name))
    ensures FirstMatch(Rules, Normalized(name), 0) <= SlavIndex
    ensures FamilyOf(name, ecoCode).confidence == 99
    ensures FamilyOf(name, ecoCode).family != "semi-slav-defense"
    ensures (forall k :: 0 <= k < SlavIndex ==> !RuleMatches(Rules[k], Normalized(name))) ==>
              FamilyOf(name, ecoCode) == FamilyMatch("slav-defense", 99)
  {
    var n := Normalized(name);
    SemiSlavApartMeansSlav(n);
    assert Rules[SlavIndex].alternatives[0] == SlavWord;
    assert RuleMatches(Rules[SlavIndex], n);
    FamilyOfDecided(name, ecoCode);
    EarlyFamiliesNotSemiSlav(FirstMatch(Rules, n, 0));
  }

  lemma EarlyFamiliesNotSemiSlav(i: nat)
    requires i <= SlavIndex
    ensures Rules[i].family != "semi-slav-defense"
    ensures i == SlavIndex ==> Rules[i].family == "slav-defense"
  {
  }

  /** Rule 25 decides exactly the names with the glued spelling "semislav" that no earlier rule matches. */
  lemma SemiSlavOnlyGlued(n: string)
    ensures IsFirstMatch(Rules, n, SemiSlavIndex) <==>
            (Search(SemiSlavGlued, n) && forall k :: 0 <= k < SemiSlavIndex ==> !RuleMatches(Rules[k], n))
  {
    assert Rules[SemiSlavIndex].alternatives == [SemiSlav];
    assert Rules[SlavIndex].alternatives == [SlavWord];
    if IsFirstMatch(Rules, n, SemiSlavIndex) {
      assert !RuleMatches(Rules[SlavIndex], n);
      assert !Search(Rules[SlavIndex].alternatives[0], n);
      assert Search(SemiSlav, n);
      var j :| 0 <= j <= |n| && MatchAt(SemiSlav, n, j);
      GluedAt(n, j);
      if MatchAt(SemiSlavApart, n, j) {
        SemiSlavApartMeansSlav(n);
        assert false;
      }
      assert MatchAt(SemiSlavGlued, n, j);
    }
    if Search(SemiSlavGlued, n) {
      var j :| 0 <= j <= |n| && MatchAt(SemiSlavGlued, n, j);
      GluedAt(n, j);
      assert Search(Rules[SemiSlavIndex].alternatives[0], n);
    }
  }

  /** At one position, `\bsemi[-\s]?slav\b` matches either with a separator or as "semislav". */
  lemma GluedAt(n: string, j: nat)
    requires j <= |n|
    ensures MatchAt(SemiSlav, n, j) <==> (MatchAt(SemiSlavApart, n, j) || MatchAt(SemiSlavGlued, n, j))
  {
    assert SemiSlav == [Word("semi")] + [Opt(DashOrSpace), Word("slav")];
    assert SemiSlavApart == [Word("semi")] + [One(DashOrSpace), Word("slav")];
    WordThen("semi", [Opt(DashOrSpace), Word("slav")], n, j);
    WordThen("semi", [One(DashOrSpace), Word("slav")], n, j);
    assert [Opt(DashOrSpace), Word("slav")][1..] == [Word("slav")];
    assert [One(DashOrSpace), Word("slav")][1..] == [Word("slav")];
    WordsJoin("semi", "slav", [], n, j);
    assert [Word("semi"), Word("slav")] + [] == [Word("semi")] + [Word("slav")];
    assert "semi" + "slav" == "semislav";
    assert [Word("semi" + "slav")] + [] == SemiSlavGlued;
    WordThen("semi", [Word("slav")], n, j);
  }
}
