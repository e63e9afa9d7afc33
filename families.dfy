/**
 * `canonical_family`: the opening-name rule table `FAMILY_RULES`, the synonym
 * rewrites `FAMILY_SYNONYMS` applied before it, and the ECO-code bands consulted
 * when no rule matches. Confidences are integer hundredths (0.99 is 99).
 */
module Families {
  import opened Text
  import opened Patterns

  /** One entry of `FAMILY_RULES`: a regex made of `|`-separated word-bounded alternatives. */
  datatype Rule = Rule(alternatives: seq<Pattern>, family: string)

  /** A canonical family key with its confidence in hundredths. */
  datatype FamilyMatch = FamilyMatch(family: string, confidence: nat)

  const Unmatched := FamilyMatch("", 0)

  /** The confidence of the Dutch-Staunton inference (0.95). */
  const StauntonConfidence: nat := 95

  /** A family key: lower-case ASCII letters, digits and `-`, neither first nor last a `-`. */
  predicate IsKeyChar(c: char) { ('a' <= c <= 'z') || IsDigit(c) || c == '-' }

  predicate WellFormedKey(k: string) {
    && (forall i :: 0 <= i < |k| ==> IsKeyChar(k[i]))
    && (k == [] || (k[0] != '-' && k[|k| - 1] != '-'))
  }

  // The alternatives that the properties below talk about.
  const ScandinavianWord: Pattern := [Word("scandinavian")]
  const ModernWord: Pattern := [Word("modern")]
  const DutchWord: Pattern := [Word("dutch")]
  const StauntonWord: Pattern := [Word("staunton")]
  const BenoniWord: Pattern := [Word("benoni")]
  const OldBenoni: Pattern := [Word("old"), Plus(Space), Word("benoni")]
  const ModernBenoni: Pattern := [Word("modern"), Plus(Space), Word("benoni")]
  const SlavWord: Pattern := [Word("slav")]
  const SemiSlav: Pattern := [Word("semi"), Opt(DashOrSpace), Word("slav")]

  // Indices into Rules of the entries those properties are about.
  const ScandinavianIndex := 3
  const PircModernIndex := 12
  const DutchIndex := 14
  const BenoniIndex := 15
  const OldBenoniIndex := 16
  const ModernBenoniIndex := 17
  const SlavIndex := 24
  const SemiSlavIndex := 25
  const ScandinavianAgainIndex := 37

  /** `FAMILY_RULES`, in order; the table is split in three only to keep indexing into it cheap. */
  const Rules: seq<Rule> := KingPawnRules + QueenPawnRules + LaterRules

  /** Entries 0 to 13: Sicilian to Alekhine. */
  const KingPawnRules: seq<Rule> := [
    Rule([[Word("sicilian")]], "sicilian-defense"),
    Rule([[Word("french")]], "french-defense"),
    Rule([[Word("caro"), Opt(DashOrSpace), Word("kann")]], "caro-kann-defense"),
    Rule([ScandinavianWord, [Word("center"), Plus(Space), Word("counter")]], "scandinavian-defense"),
    Rule([[Word("italian")], [Word("giuoco")]], "italian-game"),
    Rule([[Word("ruy"), Star(Space), Word("lopez")],
          [Word("esp"), One(Either('a', '\U{E1}')), Word("nol"), Opt(Chr('a'))]], "ruy-lopez"),
    Rule([[Word("vienna")]], "vienna-game"),
    Rule([[Word("scotch")]], "scotch-game"),
    Rule([[Word("two"), Plus(Space), Word("knights")]], "two-knights-defense"),
    Rule([[Word("four"), Plus(Space), Word("knights")]], "four-knights-game"),
    Rule([[Word("philidor")]], "philidor-defense"),
    Rule([[Word("petrov")], [Word("russian")]], "petrov-defense"),
    Rule([[Word("pirc")], [Word("modern"), Plus(Space), Word("defense")], ModernWord], "pirc-modern"),
    Rule([[Word("alekhin"), Opt(Chr('e'))],
          [Word("alekhin"), Opt(Chr('e')), Opt(Chr('\'')), One(Chr('s'))],
          [Word("alekhine")], [Word("alekhine")], [Word("alekhine")], [Word("alekhine")]], "alekhine-defense")
  ]

  /** Entries 14 to 25: Dutch to Semi-Slav. */
  const QueenPawnRules: seq<Rule> := [
    Rule([DutchWord], "dutch-defense"),
    Rule([BenoniWord], "benoni-defense"),
    Rule([OldBenoni], "benoni-defense"),
    Rule([ModernBenoni], "benoni-defense"),
    Rule([[Word("benko")], [Word("volga")]], "benko-gambit"),
    Rule([[Word("gr"), One(Either('u', '\U{FC}')), Word("nfeld")]], "grunfeld-defense"),
    Rule([[Word("nimzo"), Opt(DashOrSpace), Word("indian")]], "nimzo-indian-defense"),
    Rule([[Word("bogo"), Opt(DashOrSpace), Word("indian")]], "bogo-indian-defense"),
    Rule([[Word("queen"), Opt(Chr('\'')), Opt(Chr('s')), Plus(Space), Word("indian")]], "queens-indian-defense"),
    Rule([[Word("king"), Opt(Chr('\'')), Opt(Chr('s')), Opt(DashOrSpace), Word("indian")]], "kings-indian-defense"),
    Rule([SlavWord], "slav-defense"),
    Rule([SemiSlav], "semi-slav-defense")
  ]

  /** Entries 26 to 37: Queen's Gambit to the second Scandinavian entry. */
  const LaterRules: seq<Rule> := [
    Rule([[Word("queen"), Opt(Chr('\'')), Opt(Chr('s')), Plus(Space), Word("gambit")]], "queens-gambit"),
    Rule([[Word("catalan")]], "catalan-opening"),
    Rule([[Word("english")]], "english-opening"),
    Rule([[Word("r"), One(Either('\U{E9}', 'e')), Word("ti")], [Word("reti")]], "reti-opening"),
    Rule([[Word("bird"), Opt(Chr('\'')), Opt(Chr('s'))]], "birds-opening"),
    Rule([[Word("london")]], "london-system"),
    Rule([[Word("colle")]], "colle-system"),
    Rule([[Word("trompowsky")]], "trompowsky-attack"),
    Rule([[Word("veresov")], [Word("jobava")]], "veresov-opening"),
    Rule([[Word("king"), Opt(Chr('\'')), Opt(Chr('s')), Plus(Space), Word("gambit")]], "kings-gambit"),
    Rule([[Word("center"), Plus(Space), Word("game")]], "center-game"),
    Rule([ScandinavianWord], "scandinavian-defense")
  ]

  /** `FAMILY_SYNONYMS`, in the dictionary's insertion order. */
  const Synonyms: seq<(string, string)> := [
    ("king s", "kings"),
    ("queen s", "queens"),
    ("bird s", "birds"),
    ("ruy l pez", "ruy lopez"),
    ("gr nfeld", "grunfeld")
  ]

  predicate RuleMatches(rule: Rule, n: string) {
    exists k :: 0 <= k < |rule.alternatives| && Search(rule.alternatives[k], n)
  }

  /** Rule `j` is the earliest rule of `rules` that matches `n`. */
  predicate IsFirstMatch(rules: seq<Rule>, n: string, j: int) {
    && 0 <= j < |rules|
    && RuleMatches(rules[j], n)
    && forall k :: 0 <= k < j ==> !RuleMatches(rules[k], n)
  }

  /** The index of the first rule at or after `from` that matches `n`, or `|rules|` when none does. */
  function FirstMatch(rules: seq<Rule>, n: string, from: nat): (i: nat)
    requires from <= |rules|
    ensures from <= i <= |rules|
    ensures i < |rules| ==> RuleMatches(rules[i], n)
    ensures forall j :: from <= j < i ==> !RuleMatches(rules[j], n)
    decreases |rules| - from
  {
    if from == |rules| then from
    else if RuleMatches(rules[from], n) then from
    else FirstMatch(rules, n, from + 1)
  }

  /** The `for k, v in FAMILY_SYNONYMS.items(): n = n.replace(k, v)` loop after `|syns|` rounds. */
  function Rewrite(s: string, syns: seq<(string, string)>): string
    requires forall k :: 0 <= k < |syns| ==> syns[k].0 != []
  {
    if syns == [] then s
    else Replace(Rewrite(s, syns[..|syns| - 1]), syns[|syns| - 1].0, syns[|syns| - 1].1)
  }

  /** The name as the rules see it: lower-cased, then rewritten by every synonym. */
  function Normalized(name: string): string {
    Rewrite(Lower(name), Synonyms)
  }

  /** A text holding none of the synonym phrases is left unchanged by the rewrite. */
  lemma {:induction false} RewriteAbsent(s: string, syns: seq<(string, string)>)
    requires forall k :: 0 <= k < |syns| ==> syns[k].0 != []
    requires forall k, i :: 0 <= k < |syns| ==> !OccursAt(s, syns[k].0, i)
    ensures Rewrite(s, syns) == s
  {
    if syns != [] {
      var init := syns[..|syns| - 1];
      assert forall k :: 0 <= k < |init| ==> init[k] == syns[k];
      RewriteAbsent(s, init);
      ReplaceAbsent(s, syns[|syns| - 1].0, syns[|syns| - 1].1);
    }
  }

  /** A name without a synonym phrase reaches the rules only lower-cased. */
  lemma NormalizedPlain(name: string)
    requires forall k, i :: 0 <= k < |Synonyms| ==> !OccursAt(Lower(name), Synonyms[k].0, i)
    ensures Normalized(name) == Lower(name)
  {
    RewriteAbsent(Lower(name), Synonyms);
  }

  /** `(eco_code or "").upper().strip()`. */
  function NormalizeEco(ecoCode: string): string {
    Strip(Upper(ecoCode), Whitespace)
  }

  /** The normalised code is no longer than the input, has no ASCII small letter and no whitespace at either end. */
  lemma NormalizeEcoShape(ecoCode: string)
    ensures var e := NormalizeEco(ecoCode);
            && |e| <= |ecoCode|
            && (e == [] || (!IsSpace(e[0]) && !IsSpace(e[|e| - 1])))
            && forall i :: 0 <= i < |e| ==> !('a' <= e[i] <= 'z')
  {
    var u := Upper(ecoCode);
    var e := NormalizeEco(ecoCode);
    UpperIsUpper(ecoCode);
    var a := StripSlice(u, Whitespace);
    forall i | 0 <= i < |e| ensures !('a' <= e[i] <= 'z') {
      assert e[i] == u[a + i];
    }
  }

  /** `re.match` of a pattern `L[a-b][c-d]`: the code starts with that letter and two characters in range. */
  predicate StartsWith3(eco: string, letter: char, lo1: char, hi1: char, lo2: char, hi2: char) {
    |eco| >= 3 && eco[0] == letter && lo1 <= eco[1] <= hi1 && lo2 <= eco[2] <= hi2
  }

  /** One `L<d>\d` alternative: the letter, the digit `d`, then any digit. */
  predicate Decade(eco: string, letter: char, d: char) {
    StartsWith3(eco, letter, d, d, '0', '9')
  }

  /** The ECO band fallbacks of `canonical_family`, tried in the source's order. */
  function EcoBand(eco: string): (m: FamilyMatch)
    ensures m.confidence in {0, 80, 85, 90}
    ensures (m.family == "") <==> (m.confidence == 0)
  {
    if StartsWith3(eco, 'B', '2', '9', '0', '9') then FamilyMatch("sicilian-defense", 90)
    else if Decade(eco, 'C', '0') || Decade(eco, 'C', '1') then FamilyMatch("french-defense", 90)
    else if Decade(eco, 'B', '1') then FamilyMatch("caro-kann-defense", 85)
    else if StartsWith3(eco, 'B', '0', '0', '6', '9') then FamilyMatch("pirc-modern", 80)
    else if StartsWith3(eco, 'B', '0', '0', '0', '5') then FamilyMatch("open-games", 80)
    else if Decade(eco, 'A', '8') || Decade(eco, 'A', '9') then FamilyMatch("dutch-defense", 90)
    else if StartsWith3(eco, 'A', '5', '5', '6', '9') || Decade(eco, 'A', '7') then FamilyMatch("benoni-defense", 85)
    else if Decade(eco, 'D', '0') || Decade(eco, 'D', '3') || Decade(eco, 'D', '4') || Decade(eco, 'D', '6') then
      FamilyMatch("queens-gambit", 85)
    else if Decade(eco, 'D', '1') then FamilyMatch("slav-defense", 85)
    else if Decade(eco, 'D', '2') || Decade(eco, 'D', '5') then FamilyMatch("queens-gambit", 80)
    else if Decade(eco, 'E', '0') then FamilyMatch("catalan-opening", 80)
    else if Decade(eco, 'E', '2') then FamilyMatch("nimzo-indian-defense", 85)
    else if Decade(eco, 'E', '3') then FamilyMatch("queens-indian-defense", 85)
    else if Decade(eco, 'E', '6') then FamilyMatch("kings-indian-defense", 85)
    else if Decade(eco, 'D', '7') || Decade(eco, 'D', '8') || Decade(eco, 'D', '9') then
      FamilyMatch("grunfeld-defense", 85)
    else Unmatched
  }

  /** What a rule table must satisfy for the classification below: no empty family, and the `\bdutch\b` rule in place. */
  predicate TableShape(rules: seq<Rule>) {
    && (forall j :: 0 <= j < |rules| ==> rules[j].family != "")
    && DutchIndex < |rules| && DutchWord in rules[DutchIndex].alternatives
  }

  /** The body of `canonical_family` after the synonym rewrite, over any rule table of that shape. */
  function Classify(rules: seq<Rule>, n: string, eco: string): (m: FamilyMatch)
    requires TableShape(rules)
    ensures m.confidence == 99 <==> exists j :: 0 <= j < |rules| && RuleMatches(rules[j], n)
    ensures m.confidence == 99 ==> exists j :: IsFirstMatch(rules, n, j) && m.family == rules[j].family
    ensures m.confidence != 99 ==> m == EcoBand(eco)
    ensures m.confidence in {0, 80, 85, 90, 99}
    ensures (m.family == "") <==> (m.confidence == 0)
  {
    var i := FirstMatch(rules, n, 0);
    assert Search(DutchWord, n) ==> RuleMatches(rules[DutchIndex], n);
    assert i < |rules| ==> IsFirstMatch(rules, n, i);
    if i < |rules| then FamilyMatch(rules[i].family, 99)
    else if Search(DutchWord, n) && Search(StauntonWord, n) then FamilyMatch("dutch-defense", StauntonConfidence)
    else EcoBand(eco)
  }

  /** `canonical_family(name, eco_code)` as a value. */
  function FamilyOf(name: string, ecoCode: string): (m: FamilyMatch)
    ensures m.confidence in {0, 80, 85, 90, 99}
    ensures (m.family == "") <==> (m.confidence == 0)
  {
    RulesHaveTableShape();
    Classify(Rules, Normalized(name), NormalizeEco(ecoCode))
  }

  /**
   * Confidence 0.99 exactly when some rule matches the rewritten name, and then the
   * family of the first such rule; otherwise the ECO band of the normalised code.
   */
  lemma FamilyOfFirstMatch(name: string, ecoCode: string)
    ensures FamilyOf(name, ecoCode).confidence == 99 <==>
              exists j :: 0 <= j < |Rules| && RuleMatches(Rules[j], Normalized(name))
    ensures FamilyOf(name, ecoCode).confidence == 99 ==>
              exists j :: IsFirstMatch(Rules, Normalized(name), j) && FamilyOf(name, ecoCode).family == Rules[j].family
    ensures FamilyOf(name, ecoCode).confidence != 99 ==> FamilyOf(name, ecoCode) == EcoBand(NormalizeEco(ecoCode))
  {
    RulesHaveTableShape();
    var m := Classify(Rules, Normalized(name), NormalizeEco(ecoCode));
  }

  /** The index of the rule that decides the family is the one `FirstMatch` finds. */
  lemma FirstMatchUnique(rules: seq<Rule>, n: string, j: int)
    requires IsFirstMatch(rules, n, j)
    ensures j == FirstMatch(rules, n, 0)
  {
  }

  /** When some rule matches, the family is that of the first matching rule, at 0.99. */
  lemma FamilyOfDecided(name: string, ecoCode: string)
    ensures FirstMatch(Rules, Normalized(name), 0) < |Rules| ==>
              FamilyOf(name, ecoCode) == FamilyMatch(Rules[FirstMatch(Rules, Normalized(name), 0)].family, 99)
  {
    FamilyOfFirstMatch(name, ecoCode);
    var n := Normalized(name);
    if FirstMatch(Rules, n, 0) < |Rules| {
      var j :| IsFirstMatch(Rules, n, j) && FamilyOf(name, ecoCode).family == Rules[j].family;
      FirstMatchUnique(Rules, n, j);
    }
  }

  /** Below 0.85 exactly when no rule matches and the ECO band is below 0.85. */
  lemma LowConfidence(name: string, ecoCode: string)
    ensures FamilyOf(name, ecoCode).confidence < 85 <==>
              (forall j :: 0 <= j < |Rules| ==> !RuleMatches(Rules[j], Normalized(name))) &&
              EcoBand(NormalizeEco(ecoCode)).confidence < 85
  {
    FamilyOfFirstMatch(name, ecoCode);
  }

  /** `canonical_family`: rewrite the synonyms, try the rules in order, then the ECO bands. */
  method CanonicalFamily(name: string, ecoCode: string) returns (m: FamilyMatch)
    ensures m == FamilyOf(name, ecoCode)
  {
    var n := Lower(name);
    var k := 0;
    while k < |Synonyms|
      invariant 0 <= k <= |Synonyms|
      invariant n == Rewrite(Lower(name), Synonyms[..k])
    {
      assert Synonyms[..k + 1][..k] == Synonyms[..k];
      n := Replace(n, Synonyms[k].0, Synonyms[k].1);
      k := k + 1;
    }
    assert Synonyms[..k] == Synonyms;
    var i := 0;
    while i < |Rules|
      invariant 0 <= i <= |Rules|
      invariant FirstMatch(Rules, n, 0) == FirstMatch(Rules, n, i)
    {
      if RuleMatches(Rules[i], n) {
        return FamilyMatch(Rules[i].family, 99);
      }
      i := i + 1;
    }
    if Search(DutchWord, n) && Search(StauntonWord, n) {
      return FamilyMatch("dutch-defense", StauntonConfidence);
    }
    var eco := NormalizeEco(ecoCode);
    m := EcoBand(eco);
  }

  lemma RulesHaveTableShape()
    ensures TableShape(Rules)
  {
    assert Rules[DutchIndex].alternatives[0] == DutchWord;
    RuleFamiliesNonEmpty();
  }

  lemma RuleFamiliesNonEmpty()
    ensures forall j :: 0 <= j < |Rules| ==> Rules[j].family != ""
  {
  }
}
