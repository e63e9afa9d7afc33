/**
 * The row loop of `main`: each input row (a CSV record as a column-to-value map)
 * yields one crosswalk entry; flagged entries are copied to the review list, and
 * every non-empty family key is tallied in `families`.
 */
module Crosswalk {
  import opened Text
  import opened Patterns
  import opened Families
  import opened Hints
  import opened Acceptance

  /** One CSV record, column name to (normalised) value. */
  type Row = map<string, string>

  // The header variants each column is looked up under, in order.
  const NameColumns: seq<string> := ["Name", "name", "opening", "alias_name"]
  const EcoColumns: seq<string> := ["eco", "ECO", "eco_code"]
  const SlugColumns: seq<string> := ["slug", "alias_slug"]
  const HintColumns: seq<string> := ["family name", "family_name", "family"]

  /** The column `read_rows` adds with the file the row came from. */
  const SourceColumn := "__source_file"
  const DefaultSource := "split"
  const ReviewReason := "low_confidence_or_unmatched"
  const StauntonNote := "inferred staunton under dutch"

  /** The review threshold, 0.85. */
  const ReviewThreshold: nat := 85

  datatype Entry = Entry(
    source: string,
    aliasName: string,
    aliasSlug: string,
    ecoCode: string,
    familyKey: string,
    acceptance: Status,
    confidence: nat,
    needsReview: bool,
    notes: string)

  datatype ReviewEntry = ReviewEntry(aliasName: string, aliasSlug: string, ecoCode: string, reason: string)

  /** A column variant that is missing or empty, which Python's `or` skips. */
  predicate Blank(row: Row, column: string) {
    column !in row || row[column] == ""
  }

  /** `r.get(c1) or r.get(c2) or ... or ""`: the first non-empty value among the variants. */
  function Column(row: Row, columns: seq<string>): (v: string)
    ensures v == "" <==> forall k :: 0 <= k < |columns| ==> Blank(row, columns[k])
    ensures v != "" ==>
              exists k :: 0 <= k < |columns| && columns[k] in row && row[columns[k]] == v &&
                forall j :: 0 <= j < k ==> Blank(row, columns[j])
  {
    if columns == [] then ""
    else if !Blank(row, columns[0]) then row[columns[0]]
    else
      var v := Column(row, columns[1..]);
      assert forall k :: 1 <= k < |columns| ==> columns[k] == columns[1..][k - 1];
      v
  }

  /** `r.get("__source_file", "split")`. */
  function Source(row: Row): string {
    if SourceColumn in row then row[SourceColumn] else DefaultSource
  }

  /** The name mentions both Dutch and Staunton as whole words (after lower-casing only). */
  predicate DutchStaunton(name: string) {
    Search(DutchWord, Lower(name)) && Search(StauntonWord, Lower(name))
  }

  /** The crosswalk entry of one row. */
  function EntryOf(row: Row): (e: Entry)
    ensures e.needsReview <==> (e.familyKey == "" || e.confidence < ReviewThreshold)
    ensures (e.familyKey == "") <==> (e.confidence == 0)
    ensures e.confidence in {0, 80, 85, 90, 99}
  {
    var name := Column(row, NameColumns);
    var eco := Column(row, EcoColumns);
    var m := Resolve(name, eco, Column(row, HintColumns));
    Entry(Source(row), name, Column(row, SlugColumns), eco, m.family, AcceptanceStatus(name), m.confidence,
          m.family == "" || m.confidence < ReviewThreshold,
          if DutchStaunton(name) then StauntonNote else "")
  }

  function ReviewOf(e: Entry): (v: ReviewEntry)
    ensures v.reason == ReviewReason
    ensures v.aliasName == e.aliasName && v.aliasSlug == e.aliasSlug && v.ecoCode == e.ecoCode
  {
    ReviewEntry(e.aliasName, e.aliasSlug, e.ecoCode, ReviewReason)
  }

  /** The review list built from `entries`: one `ReviewOf` per flagged entry, in order. */
  function Flagged(entries: seq<Entry>): seq<ReviewEntry> {
    if entries == [] then []
    else
      var last := entries[|entries| - 1];
      Flagged(entries[..|entries| - 1]) + (if last.needsReview then [ReviewOf(last)] else [])
  }

  /** The number of entries whose family key is `key`. */
  function Count(entries: seq<Entry>, key: string): nat {
    if entries == [] then 0
    else Count(entries[..|entries| - 1], key) + (if entries[|entries| - 1].familyKey == key then 1 else 0)
  }

  /** A row is flagged exactly when its hint gives no key, no rule matches its name, and its ECO band is below 0.85. */
  lemma ReviewRule(row: Row)
    ensures EntryOf(row).needsReview <==>
              && HintKeyOf(Column(row, HintColumns)) == ""
              && (forall j :: 0 <= j < |Rules| ==> !RuleMatches(Rules[j], Normalized(Column(row, NameColumns))))
              && EcoBand(NormalizeEco(Column(row, EcoColumns))).confidence < ReviewThreshold
  {
    var name, eco := Column(row, NameColumns), Column(row, EcoColumns);
    LowConfidence(name, eco);
  }

  /** The family keys of the entries, in order. */
  function Keys(entries: seq<Entry>): (ks: seq<string>)
    ensures |ks| == |entries| && forall i :: 0 <= i < |entries| ==> ks[i] == entries[i].familyKey
  {
    seq(|entries|, i requires 0 <= i < |entries| => entries[i].familyKey)
  }

  /** `Count` is the multiplicity of the key among the entries' keys. */
  lemma {:induction false} CountIsMultiplicity(entries: seq<Entry>, key: string)
    ensures Count(entries, key) == multiset(Keys(entries))[key]
  {
    if entries != [] {
      var init := entries[..|entries| - 1];
      CountIsMultiplicity(init, key);
      assert Keys(entries) == Keys(init) + [entries[|entries| - 1].familyKey];
    }
  }

  /** The positions of the flagged entries: increasing, and every flagged position is among them. */
  function FlaggedIndices(entries: seq<Entry>): (idx: seq<nat>)
    ensures forall t :: 0 <= t < |idx| ==> idx[t] < |entries| && entries[idx[t]].needsReview
    ensures forall t, u :: 0 <= t < u < |idx| ==> idx[t] < idx[u]
    ensures forall i :: 0 <= i < |entries| && entries[i].needsReview ==> i in idx
  {
    if entries == [] then []
    else
      var n := |entries| - 1;
      var pre := FlaggedIndices(entries[..n]);
      assert forall t :: 0 <= t < |pre| ==> entries[pre[t]] == entries[..n][pre[t]];
      pre + (if entries[n].needsReview then [n] else [])
  }

  /** The review list is the flagged entries, every one of them, in their crosswalk order. */
  lemma {:induction false} FlaggedExactly(entries: seq<Entry>)
    ensures |Flagged(entries)| == |FlaggedIndices(entries)|
    ensures forall t :: 0 <= t < |Flagged(entries)| ==>
              Flagged(entries)[t] == ReviewOf(entries[FlaggedIndices(entries)[t]])
  {
    if entries != [] {
      var n := |entries| - 1;
      var init := entries[..n];
      FlaggedExactly(init);
      assert forall i :: 0 <= i < n ==> entries[i] == init[i];
    }
  }

  /** The body of the row loop up to the crosswalk entry: lookups, hint slug, fallback, note and review flag. */
  method ClassifyRow(r: Row) returns (e: Entry)
    ensures e == EntryOf(r)
  {
    var name := Column(r, NameColumns);
    var eco := Column(r, EcoColumns);
    var slug := Column(r, SlugColumns);
    var hint := Column(r, HintColumns);
    var acc := AcceptanceStatus(name);
    var famKey := "";
    var conf := 0;
    if HintApplies(hint) {
      famKey := HintKey(hint);
      conf := 90;
    }
    if famKey == "" {
      var m := CanonicalFamily(name, eco);
      famKey, conf := m.family, m.confidence;
    }
    assert FamilyMatch(famKey, conf) == Resolve(name, eco, hint);
    var needsReview := false;
    var notes := "";
    if DutchStaunton(name) {
      notes := StauntonNote;
    }
    if famKey == "" || conf < ReviewThreshold {
      needsReview := true;
    }
    e := Entry(Source(r), name, slug, eco, famKey, acc, conf, needsReview, notes);
    SameEntry(e, EntryOf(r));
  }

  /** Two entries that agree on every field are equal. */
  lemma SameEntry(a: Entry, b: Entry)
    requires a.source == b.source && a.aliasName == b.aliasName && a.aliasSlug == b.aliasSlug && a.ecoCode == b.ecoCode
    requires a.familyKey == b.familyKey && a.acceptance == b.acceptance && a.confidence == b.confidence
    requires a.needsReview == b.needsReview && a.notes == b.notes
    ensures a == b
  {
  }

  /** Appending an entry extends the review list by that entry's review row exactly when it is flagged. */
  lemma FlaggedAppend(entries: seq<Entry>, e: Entry)
    ensures Flagged(entries + [e]) == Flagged(entries) + (if e.needsReview then [ReviewOf(e)] else [])
  {
    assert (entries + [e])[..|entries|] == entries;
  }

  /** Appending an entry adds one to the count of its own key and leaves every other count alone. */
  lemma CountAppend(entries: seq<Entry>, e: Entry, key: string)
    ensures Count(entries + [e], key) == Count(entries, key) + (if e.familyKey == key then 1 else 0)
  {
    assert (entries + [e])[..|entries|] == entries;
  }

  /**
   * `families` tallies the entries: every non-empty key that occurs is present with its exact
   * count, and every key present occurs, so neither the empty key of an unmatched row nor a key
   * at count 0 is there.
   */
  ghost predicate Tallied(families: map<string, nat>, entries: seq<Entry>) {
    && "" !in families
    && (forall k :: k in families ==> families[k] == Count(entries, k) && families[k] > 0)
    && (forall k :: k != "" && Count(entries, k) > 0 ==> k in families)
  }

  /** `families[key] = families.get(key, 0) + 1`, skipped for the empty key. */
  function Tally(families: map<string, nat>, key: string): map<string, nat> {
    if key == "" then families
    else families[key := (if key in families then families[key] else 0) + 1]
  }

  /** Tallying one more entry keeps the counts exact. */
  lemma TallyAppend(families: map<string, nat>, entries: seq<Entry>, e: Entry)
    requires Tallied(families, entries)
    ensures Tallied(Tally(families, e.familyKey), entries + [e])
  {
    forall k {
      CountAppend(entries, e, k);
    }
  }

  /** Appending the entry of the next row keeps the crosswalk row for row. */
  lemma ClassifiedAppend(crosswalk: seq<Entry>, rows: seq<Row>, e: Entry)
    requires |crosswalk| < |rows| && e == EntryOf(rows[|crosswalk|])
    requires forall j :: 0 <= j < |crosswalk| ==> crosswalk[j] == EntryOf(rows[j])
    ensures forall j :: 0 <= j < |crosswalk| + 1 ==> (crosswalk + [e])[j] == EntryOf(rows[j])
  {
  }

  /** The loop of `main` over all rows. */
  method BuildCrosswalk(rows: seq<Row>) returns (crosswalk: seq<Entry>, review: seq<ReviewEntry>, families: map<string, nat>)
    ensures |crosswalk| == |rows|
    ensures forall i :: 0 <= i < |rows| ==> crosswalk[i] == EntryOf(rows[i])
    ensures review == Flagged(crosswalk)
    ensures Tallied(families, crosswalk)
  {
    crosswalk, review, families := [], [], map[];
    for i := 0 to |rows|
      invariant |crosswalk| == i
      invariant forall j :: 0 <= j < i ==> crosswalk[j] == EntryOf(rows[j])
      invariant review == Flagged(crosswalk)
      invariant Tallied(families, crosswalk)
    {
      var e := ClassifyRow(rows[i]);
      FlaggedAppend(crosswalk, e);
      TallyAppend(families, crosswalk, e);
      ClassifiedAppend(crosswalk, rows, e);
      crosswalk := crosswalk + [e];
      if e.familyKey != "" {
        families := families[e.familyKey := (if e.familyKey in families then families[e.familyKey] else 0) + 1];
      }
      if e.needsReview {
        review := review + [ReviewEntry(e.aliasName, e.aliasSlug, e.ecoCode, ReviewReason)];
      }
    }
  }
}
