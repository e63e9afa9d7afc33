/**
 * The family-hint slug of the row loop: a free-text family name from the
 * `family name`/`family_name`/`family` column is rewritten into a key of
 * lower-case letters, digits and single dashes, taken at confidence 0.90.
 */
module Hints {
  import opened Text
  import opened Families

  /** The hint is used only when it is non-empty and not `#N/A` in any letter case. */
  predicate HintApplies(hint: string) {
    hint != "" && Upper(hint) != "#N/A"
  }

  /** The typographic apostrophes that the source turns into `'`: right single quote, backtick, acute accent. */
  predicate IsApostropheVariant(c: char) {
    c == '\U{2019}' || c == '`' || c == '\U{B4}'
  }

  /** `.replace("’", "'").replace("`", "'").replace("´", "'")`. */
  function StraightenApostrophes(s: string): (r: string)
    ensures |r| == |s|
    ensures forall i :: 0 <= i < |s| ==> r[i] == (if IsApostropheVariant(s[i]) then '\'' else s[i])
  {
    var a := Replace(s, "\U{2019}", "'");
    var b := Replace(a, "`", "'");
    var c := Replace(b, "\U{B4}", "'");
    ReplaceOneChar(s, '\U{2019}', '\'');
    ReplaceOneChar(a, '`', '\'');
    ReplaceOneChar(b, '\U{B4}', '\'');
    c
  }

  /** `s` without its apostrophes. */
  function Unquoted(s: string): string {
    if s == [] then [] else (if s[0] == '\'' then [] else [s[0]]) + Unquoted(s[1..])
  }

  /** `s` begins with an apostrophe that starts a word-final `'s`, which is what `'s\b` matches. */
  predicate PossessiveAhead(s: string) {
    |s| >= 2 && s[0] == '\'' && s[1] == 's' && (|s| == 2 || !IsWordChar(s[2]))
  }

  /** `s` read character by character, leaving out exactly the apostrophes that start a word-final `'s`. */
  function Depossessed(s: string): string {
    if s == [] then [] else (if PossessiveAhead(s) then [] else [s[0]]) + Depossessed(s[1..])
  }

  /** `re.sub(r"'s\b", "s", s)`: the apostrophe of every `'s` that ends a word is deleted, scanning left to right. */
  function DropPossessive(s: string): (r: string)
    ensures r == Depossessed(s)
    ensures |r| <= |s|
    ensures Unquoted(r) == Unquoted(s)
    ensures (forall i :: 0 <= i < |s| ==> s[i] != '\'') ==> r == s
    decreases |s|
  {
    if PossessiveAhead(s) then
      var rest := DropPossessive(s[2..]);
      assert ("s" + rest)[1..] == rest;
      assert s[1..][1..] == s[2..];
      assert !PossessiveAhead(s[1..]);
      "s" + rest
    else if s == [] then []
    else
      var rest := DropPossessive(s[1..]);
      assert ([s[0]] + rest)[1..] == rest;
      [s[0]] + rest
  }

  /** `s` without the characters outside `[A-Za-z0-9]`. */
  function Alnums(s: string): string {
    if s == [] then [] else (if IsAsciiAlnum(s[0]) then [s[0]] else []) + Alnums(s[1..])
  }

  /** The longest run of characters outside `[A-Za-z0-9]` at the front of `s` removed. */
  function SkipRun(s: string): (r: string)
    ensures |r| <= |s| && r == s[|s| - |r|..]
    ensures r == [] || IsAsciiAlnum(r[0])
  {
    if s != [] && !IsAsciiAlnum(s[0]) then
      var r := SkipRun(s[1..]);
      assert s[1..][|s| - 1 - |r|..] == s[|s| - |r|..];
      r
    else s
  }

  /** `SkipRun` keeps every letter and digit. */
  lemma {:induction false} SkipRunAlnums(s: string)
    ensures Alnums(SkipRun(s)) == Alnums(s)
  {
    if s != [] && !IsAsciiAlnum(s[0]) {
      SkipRunAlnums(s[1..]);
    }
  }

  /** `re.sub(r"[^A-Za-z0-9]+", "-", s)`: every maximal run outside `[A-Za-z0-9]` becomes one `-`. */
  function Collapse(s: string): string
    decreases |s|
  {
    if s == [] then []
    else if IsAsciiAlnum(s[0]) then [s[0]] + Collapse(s[1..])
    else "-" + Collapse(SkipRun(s))
  }

  /** Only ASCII letters, digits and `-`, never two dashes in a row. */
  predicate Slugged(r: string) {
    && (forall i :: 0 <= i < |r| ==> IsAsciiAlnum(r[i]) || r[i] == '-')
    && (forall i :: 0 <= i < |r| - 1 ==> r[i] != '-' || r[i + 1] != '-')
  }

  /**
   * The result of `Collapse` is slugged, empty exactly when its input is, starts with `-` exactly
   * when its input starts outside `[A-Za-z0-9]`, and keeps its input's letters and digits in order.
   */
  lemma {:induction false} CollapseShape(s: string)
    ensures Slugged(Collapse(s))
    ensures (Collapse(s) == []) == (s == [])
    ensures s != [] ==> (Collapse(s)[0] == '-' <==> !IsAsciiAlnum(s[0]))
    ensures Alnums(Collapse(s)) == Alnums(s)
    decreases |s|
  {
    if s != [] {
      if IsAsciiAlnum(s[0]) {
        var rest := Collapse(s[1..]);
        CollapseShape(s[1..]);
        PrependSlugged([s[0]], rest);
      } else {
        var rest := Collapse(SkipRun(s));
        CollapseShape(SkipRun(s));
        SkipRunAlnums(s);
        PrependSlugged("-", rest);
      }
    }
  }

  /** One character in front of a slugged text keeps it slugged unless it makes two dashes meet. */
  lemma {:induction false} PrependSlugged(c: string, rest: string)
    requires |c| == 1 && (IsAsciiAlnum(c[0]) || c[0] == '-') && Slugged(rest)
    requires c[0] == '-' ==> rest == [] || rest[0] != '-'
    ensures Slugged(c + rest) && (c + rest)[0] == c[0] && (c + rest)[1..] == rest
  {
    assert forall i :: 1 <= i < |c + rest| ==> (c + rest)[i] == rest[i - 1];
  }

  /**
   * What position `i` of `s` contributes to `re.sub(r"[^A-Za-z0-9]+", "-", s)`: the character itself
   * when it is in `[A-Za-z0-9]`, a `-` when it starts a run outside that class, nothing when it continues one.
   */
  function Piece(s: string, i: nat): string
    requires i < |s|
  {
    if IsAsciiAlnum(s[i]) then [s[i]]
    else if i == 0 || IsAsciiAlnum(s[i - 1]) then "-"
    else []
  }

  /** The pieces of positions `i`, `i + 1`, ..., `|s| - 1`, concatenated. */
  function Pieces(s: string, i: nat): string
    requires i <= |s|
    decreases |s| - i
  {
    if i == |s| then [] else Piece(s, i) + Pieces(s, i + 1)
  }

  /** `Collapse` agrees with the position-by-position reading of the substitution. */
  lemma {:induction false} CollapseByPieces(s: string)
    ensures Collapse(s) == Pieces(s, 0)
  {
    assert s[0..] == s;
    CollapseSuffix(s, 0);
  }

  /** On a suffix that starts a run, or follows a letter or digit, `Collapse` yields the pieces of that suffix. */
  lemma {:induction false} CollapseSuffix(s: string, k: nat)
    requires k <= |s|
    requires k == 0 || k == |s| || IsAsciiAlnum(s[k - 1]) || IsAsciiAlnum(s[k])
    ensures Collapse(s[k..]) == Pieces(s, k)
    decreases |s| - k
  {
    if k == |s| {
      assert s[k..] == [];
    } else if IsAsciiAlnum(s[k]) {
      CollapseSuffix(s, k + 1);
      AlnumStep(s, k);
    } else {
      var m := RunStep(s, k);
      CollapseSuffix(s, m);
    }
  }

  /** A letter or digit is kept and `Collapse` goes on with the next position. */
  lemma {:induction false} AlnumStep(s: string, k: nat)
    requires k < |s| && IsAsciiAlnum(s[k])
    ensures Collapse(s[k..]) == [s[k]] + Collapse(s[k + 1..])
    ensures Pieces(s, k) == [s[k]] + Pieces(s, k + 1)
  {
    assert s[k..][1..] == s[k + 1..];
  }

  /** A run outside `[A-Za-z0-9]` starting at `k` gives one `-`; `Collapse` goes on where the run ends. */
  lemma {:induction false} RunStep(s: string, k: nat) returns (m: nat)
    requires k < |s| && !IsAsciiAlnum(s[k]) && (k == 0 || IsAsciiAlnum(s[k - 1]))
    ensures k < m <= |s| && (m == |s| || IsAsciiAlnum(s[m]))
    ensures Collapse(s[k..]) == "-" + Collapse(s[m..])
    ensures Pieces(s, k) == "-" + Pieces(s, m)
  {
    m := RunCollapseAt(s, k);
    RunPiecesStep(s, k, m);
  }

  /** The pieces of a run starting at `k` and ending at `m` are one `-`. */
  lemma {:induction false} RunPiecesStep(s: string, k: nat, m: nat)
    requires k < m <= |s| && (k == 0 || IsAsciiAlnum(s[k - 1]))
    requires forall i :: k <= i < m ==> !IsAsciiAlnum(s[i])
    ensures Pieces(s, k) == "-" + Pieces(s, m)
  {
    RunPieces(s, k + 1, m);
    RunPiece(s, k);
  }

  /** `Collapse` from position `k` emits one `-` for the run there and goes on at the run's end `m`. */
  lemma {:induction false} RunCollapseAt(s: string, k: nat) returns (m: nat)
    requires k < |s| && !IsAsciiAlnum(s[k])
    ensures k < m <= |s| && (m == |s| || IsAsciiAlnum(s[m]))
    ensures forall i :: k <= i < m ==> !IsAsciiAlnum(s[i])
    ensures Collapse(s[k..]) == "-" + Collapse(s[m..])
  {
    m := RunEnd(s, k);
    RunCollapse(s[k..]);
  }

  /** `Collapse` turns a leading run outside `[A-Za-z0-9]` into one `-`. */
  lemma {:induction false} RunCollapse(t: string)
    requires t != [] && !IsAsciiAlnum(t[0])
    ensures Collapse(t) == "-" + Collapse(SkipRun(t))
  {
  }

  /** The first position of a run contributes a `-`. */
  lemma {:induction false} RunPiece(s: string, k: nat)
    requires k < |s| && !IsAsciiAlnum(s[k]) && (k == 0 || IsAsciiAlnum(s[k - 1]))
    ensures Pieces(s, k) == "-" + Pieces(s, k + 1)
  {
  }

  /** `SkipRun` from position `k` ends at the first letter or digit at or after `k`. */
  lemma {:induction false} RunEnd(s: string, k: nat) returns (m: nat)
    requires k < |s| && !IsAsciiAlnum(s[k])
    ensures k < m <= |s| && (m == |s| || IsAsciiAlnum(s[m]))
    ensures forall i :: k <= i < m ==> !IsAsciiAlnum(s[i])
    ensures SkipRun(s[k..]) == s[m..]
  {
    var t := s[k..];
    var rest := SkipRun(t);
    SkipRunSkips(t);
    m := |s| - |rest|;
    assert rest == s[m..];
    assert t[0] == s[k];
    assert rest == SkipRun(t[1..]);
    assert m == |s| || IsAsciiAlnum(s[m]) by {
      if m < |s| { assert rest[0] == s[m]; }
    }
    forall i | k <= i < m ensures !IsAsciiAlnum(s[i]) {
      assert s[i] == t[i - k];
    }
  }

  /** Everything `SkipRun` cuts off lies outside `[A-Za-z0-9]`. */
  lemma {:induction false} SkipRunSkips(s: string)
    ensures forall i :: 0 <= i < |s| - |SkipRun(s)| ==> !IsAsciiAlnum(s[i])
  {
    if s != [] && !IsAsciiAlnum(s[0]) {
      var t := s[1..];
      SkipRunSkips(t);
      assert SkipRun(s) == SkipRun(t);
      SkipRunShift(s, t, SkipRun(t));
    }
  }

  /** One step of `SkipRun`: what it cuts off `s[1..]` is cut off `s`, one position later. */
  lemma {:induction false} SkipRunShift(s: string, t: string, r: string)
    requires s != [] && !IsAsciiAlnum(s[0]) && t == s[1..] && |r| <= |t|
    requires forall i :: 0 <= i < |t| - |r| ==> !IsAsciiAlnum(t[i])
    ensures forall i :: 0 <= i < |s| - |r| ==> !IsAsciiAlnum(s[i])
  {
    forall i | 0 <= i < |s| - |r| ensures !IsAsciiAlnum(s[i]) {
      if i > 0 {
        assert 0 <= i - 1 < |t| - |r|;
        assert s[i] == t[i - 1];
      }
    }
  }

  /** Positions that continue a run outside `[A-Za-z0-9]` contribute nothing. */
  lemma {:induction false} RunPieces(s: string, k: nat, m: nat)
    requires 1 <= k <= m <= |s|
    requires forall i :: k - 1 <= i < m ==> !IsAsciiAlnum(s[i])
    ensures Pieces(s, k) == Pieces(s, m)
    decreases m - k
  {
    if k < m {
      RunPieces(s, k + 1, m);
    }
  }

  /**
   * The slug pipeline: apostrophes, possessives, strip, collapse, lower-case, strip dashes, then the
   * three variant fixes. The key is empty exactly when the hint has no ASCII letter or digit.
   */
  function HintKey(hint: string): (key: string)
    ensures WellFormedKey(key)
    ensures Slugged(key)
    ensures key == "" <==> forall i :: 0 <= i < |hint| ==> !IsAsciiAlnum(hint[i])
  {
    var straight := StraightenApostrophes(hint);
    var trimmed := Strip(DropPossessive(straight), Whitespace);
    var norm := Collapse(trimmed);
    CollapseShape(trimmed);
    var lowered := Lower(norm);
    var stripped := Strip(lowered, Dashes);
    var once := Replace(stripped, "-s-", "s-");
    var twice := Replace(once, "-s-", "s-");
    var key := Replace(twice, "-gambit-gambit", "-gambit");
    SlugSteps(norm, lowered, stripped, once, twice, key);
    SlugSingleDashes(norm, lowered, stripped, once, twice, key);
    SlugKeepsAlnums(hint, straight, trimmed, norm, lowered, stripped, once, twice, key);
    KeyNoAlnum(key);
    key
  }

  /** The steps after `re.sub` keep the key alphabet and keep dashes off both ends. */
  lemma SlugSteps(norm: string, lowered: string, stripped: string, once: string, twice: string, key: string)
    requires forall i :: 0 <= i < |norm| ==> IsAsciiAlnum(norm[i]) || norm[i] == '-'
    requires lowered == Lower(norm) && stripped == Strip(lowered, Dashes)
    requires once == Replace(stripped, "-s-", "s-") && twice == Replace(once, "-s-", "s-")
    requires key == Replace(twice, "-gambit-gambit", "-gambit")
    ensures WellFormedKey(key)
  {
    LowerKeyChars(norm);
    StrippedKey(lowered);
    VariantFixes(stripped, once, twice, key);
  }

  /** No step after `re.sub` puts two dashes side by side. */
  lemma SlugSingleDashes(norm: string, lowered: string, stripped: string, once: string, twice: string, key: string)
    requires Slugged(norm)
    requires lowered == Lower(norm) && stripped == Strip(lowered, Dashes)
    requires once == Replace(stripped, "-s-", "s-") && twice == Replace(once, "-s-", "s-")
    requires key == Replace(twice, "-gambit-gambit", "-gambit")
    ensures NoDoubled(key, '-')
  {
    LowerSingleDashes(norm);
    StripSingleDashes(lowered);
    VariantsSingleDashes(stripped, once, twice, key);
  }

  /** Lower-casing a slugged text keeps its dashes where they were. */
  lemma LowerSingleDashes(norm: string)
    requires Slugged(norm)
    ensures NoDoubled(Lower(norm), '-')
  {
    var lowered := Lower(norm);
    forall i | 0 <= i < |lowered| ensures (lowered[i] == '-') == (norm[i] == '-') {
      assert lowered[i] == LowerChar(norm[i]);
    }
  }

  /** `strip("-")` keeps one contiguous piece, so it cannot join two dashes. */
  lemma StripSingleDashes(lowered: string)
    requires NoDoubled(lowered, '-')
    ensures NoDoubled(Strip(lowered, Dashes), '-')
  {
    var stripped := Strip(lowered, Dashes);
    var a := StripSlice(lowered, Dashes);
    forall i | 0 <= i < |stripped| - 1 ensures stripped[i] != '-' || stripped[i + 1] != '-' {
      assert stripped[i] == lowered[a + i] && stripped[i + 1] == lowered[a + i + 1];
    }
  }

  /** The three variant fixes never put two dashes side by side. */
  lemma VariantsSingleDashes(stripped: string, once: string, twice: string, key: string)
    requires NoDoubled(stripped, '-')
    requires once == Replace(stripped, "-s-", "s-") && twice == Replace(once, "-s-", "s-")
    requires key == Replace(twice, "-gambit-gambit", "-gambit")
    ensures NoDoubled(key, '-')
  {
    ReplaceNoDoubled(stripped, "-s-", "s-", '-');
    ReplaceNoDoubled(once, "-s-", "s-", '-');
    ReplaceNoDoubled(twice, "-gambit-gambit", "-gambit", '-');
  }

  /** The three variant fixes keep a key well formed. */
  lemma VariantFixes(stripped: string, once: string, twice: string, key: string)
    requires WellFormedKey(stripped)
    requires once == Replace(stripped, "-s-", "s-") && twice == Replace(once, "-s-", "s-")
    requires key == Replace(twice, "-gambit-gambit", "-gambit")
    ensures WellFormedKey(key)
  {
    ReplaceKeepsKey(stripped, "-s-", "s-");
    ReplaceKeepsKey(once, "-s-", "s-");
    ReplaceKeepsKey(twice, "-gambit-gambit", "-gambit");
  }

  /** Lower-casing `[A-Za-z0-9-]` gives key characters. */
  lemma LowerKeyChars(s: string)
    requires forall i :: 0 <= i < |s| ==> IsAsciiAlnum(s[i]) || s[i] == '-'
    ensures forall i :: 0 <= i < |Lower(s)| ==> IsKeyChar(Lower(s)[i])
  {
  }

  /** `strip("-")` of a string of key characters is a well-formed key. */
  lemma StrippedKey(s: string)
    requires forall i :: 0 <= i < |s| ==> IsKeyChar(s[i])
    ensures WellFormedKey(Strip(s, Dashes))
  {
    var a := StripSlice(s, Dashes);
    var r := Strip(s, Dashes);
    assert forall i :: 0 <= i < |r| ==> r[i] == s[a + i];
  }

  /** A dash-led replacement of key characters that cannot leave a dash at the end keeps a key well formed. */
  lemma ReplaceKeepsKey(s: string, p: string, r: string)
    requires WellFormedKey(s)
    requires p != [] && p[0] == '-'
    requires forall i :: 0 <= i < |r| ==> IsKeyChar(r[i])
    requires p[|p| - 1] == '-' || (r != [] && r[|r| - 1] != '-')
    ensures WellFormedKey(Replace(s, p, r))
  {
    KeyCharsKept(s, p, r);
    if s != [] {
      ReplaceKeepsFirst(s, p, r);
      if p[|p| - 1] == '-' {
        ReplaceKeepsLast(s, p, r);
      } else {
        ReplaceLastNot(s, p, r, '-');
      }
    }
  }

  /** A replacement made of key characters keeps a string of key characters. */
  lemma KeyCharsKept(s: string, p: string, r: string)
    requires p != []
    requires forall i :: 0 <= i < |s| ==> IsKeyChar(s[i])
    requires forall i :: 0 <= i < |r| ==> IsKeyChar(r[i])
    ensures forall i :: 0 <= i < |Replace(s, p, r)| ==> IsKeyChar(Replace(s, p, r)[i])
  {
    ReplaceChars(s, p, r, IsKeyChar);
  }

  /** No character of `s` is an ASCII letter or digit. */
  predicate NoAlnum(s: string) {
    forall i :: 0 <= i < |s| ==> !IsAsciiAlnum(s[i])
  }

  /** Every step of the slug pipeline keeps some ASCII letter or digit exactly when the hint has one. */
  lemma {:induction false} SlugKeepsAlnums(hint: string, straight: string, trimmed: string, norm: string, lowered: string,
                        stripped: string, once: string, twice: string, key: string)
    requires straight == StraightenApostrophes(hint) && trimmed == Strip(DropPossessive(straight), Whitespace)
    requires norm == Collapse(trimmed) && lowered == Lower(norm) && stripped == Strip(lowered, Dashes)
    requires once == Replace(stripped, "-s-", "s-") && twice == Replace(once, "-s-", "s-")
    requires key == Replace(twice, "-gambit-gambit", "-gambit")
    ensures NoAlnum(key) <==> NoAlnum(hint)
  {
    CleanKeepsAlnums(hint, straight, trimmed);
    CollapseShape(trimmed);
    AlnumsEmpty(trimmed);
    AlnumsEmpty(norm);
    LowerNoAlnum(norm);
    StripNoAlnum(lowered, Dashes);
    VariantsKeepAlnums(stripped, once, twice, key);
  }

  /** Straightening apostrophes, dropping possessives and `strip()` keep the letters and digits. */
  lemma {:induction false} CleanKeepsAlnums(hint: string, straight: string, trimmed: string)
    requires straight == StraightenApostrophes(hint) && trimmed == Strip(DropPossessive(straight), Whitespace)
    ensures NoAlnum(trimmed) <==> NoAlnum(hint)
  {
    StraightenedNoAlnum(hint);
    var dropped := DropPossessive(straight);
    UnquotedNoAlnum(dropped);
    UnquotedNoAlnum(straight);
    StripNoAlnum(dropped, Whitespace);
  }

  /** The three variant fixes replace text holding a letter by text holding a letter. */
  lemma {:induction false} VariantsKeepAlnums(stripped: string, once: string, twice: string, key: string)
    requires once == Replace(stripped, "-s-", "s-") && twice == Replace(once, "-s-", "s-")
    requires key == Replace(twice, "-gambit-gambit", "-gambit")
    ensures NoAlnum(key) <==> NoAlnum(stripped)
  {
    VariantTextsHaveAlnums();
    ReplaceNoAlnum(stripped, "-s-", "s-");
    ReplaceNoAlnum(once, "-s-", "s-");
    ReplaceNoAlnum(twice, "-gambit-gambit", "-gambit");
  }

  lemma VariantTextsHaveAlnums()
    ensures !NoAlnum("-s-") && !NoAlnum("s-") && !NoAlnum("-gambit-gambit") && !NoAlnum("-gambit")
  {
    assert "-s-"[1] == 's' && "s-"[0] == 's';
    assert "-gambit-gambit"[1] == 'g' && "-gambit"[1] == 'g';
  }

  /** Straightening apostrophes only touches characters outside `[A-Za-z0-9]`. */
  lemma {:induction false} StraightenedNoAlnum(s: string)
    ensures NoAlnum(StraightenApostrophes(s)) <==> NoAlnum(s)
  {
    var r := StraightenApostrophes(s);
    assert forall i :: 0 <= i < |s| ==> (IsAsciiAlnum(r[i]) <==> IsAsciiAlnum(s[i]));
  }

  /** Lower-casing keeps exactly the ASCII letters and digits where they were. */
  lemma {:induction false} LowerNoAlnum(s: string)
    ensures NoAlnum(Lower(s)) <==> NoAlnum(s)
  {
    assert forall i :: 0 <= i < |s| ==> (IsAsciiAlnum(Lower(s)[i]) <==> IsAsciiAlnum(s[i]));
  }

  lemma {:induction false} NoAlnumConcat(a: string, b: string)
    ensures NoAlnum(a + b) <==> NoAlnum(a) && NoAlnum(b)
  {
    assert forall i :: 0 <= i < |a| ==> (a + b)[i] == a[i];
    assert forall i :: 0 <= i < |b| ==> (a + b)[|a| + i] == b[i];
  }

  /** `Alnums(s)` is empty exactly when `s` has no ASCII letter or digit. */
  lemma {:induction false} AlnumsEmpty(s: string)
    ensures Alnums(s) == [] <==> NoAlnum(s)
  {
    if s != [] {
      AlnumsEmpty(s[1..]);
      assert s == [s[0]] + s[1..];
      NoAlnumConcat([s[0]], s[1..]);
    }
  }

  /** Removing apostrophes keeps every ASCII letter and digit. */
  lemma {:induction false} UnquotedNoAlnum(s: string)
    ensures NoAlnum(Unquoted(s)) <==> NoAlnum(s)
  {
    if s != [] {
      UnquotedNoAlnum(s[1..]);
      assert s == [s[0]] + s[1..];
      NoAlnumConcat([s[0]], s[1..]);
      NoAlnumConcat(if s[0] == '\'' then [] else [s[0]], Unquoted(s[1..]));
    }
  }

  /** Both `strip()` and `strip("-")` cut off only characters outside `[A-Za-z0-9]`. */
  lemma {:induction false} StripNoAlnum(s: string, drop: Chars)
    ensures NoAlnum(Strip(s, drop)) <==> NoAlnum(s)
  {
    var a := StripSlice(s, drop);
    var r := Strip(s, drop);
    assert forall j :: 0 <= j < |r| ==> r[j] == s[a + j] by {
      assert s[a..a + |r|] == r;
    }
    if NoAlnum(r) {
      forall i | 0 <= i < |s| ensures !IsAsciiAlnum(s[i]) {
        if a <= i < a + |r| {
          assert s[i] == r[i - a];
        } else {
          assert Drops(drop, s[i]);
        }
      }
    }
  }

  /** A replacement whose pattern and text both hold a letter or digit keeps some letter or digit exactly when there was one. */
  lemma {:induction false} ReplaceNoAlnum(s: string, p: string, r: string)
    requires p != [] && !NoAlnum(p) && !NoAlnum(r)
    ensures NoAlnum(Replace(s, p, r)) <==> NoAlnum(s)
    decreases |s|
  {
    if |s| < |p| {
    } else if s[..|p|] == p {
      NoAlnumConcat(r, Replace(s[|p|..], p, r));
      assert s == p + s[|p|..];
      NoAlnumConcat(p, s[|p|..]);
    } else {
      ReplaceNoAlnum(s[1..], p, r);
      NoAlnumConcat([s[0]], Replace(s[1..], p, r));
      assert s == [s[0]] + s[1..];
      NoAlnumConcat([s[0]], s[1..]);
    }
  }

  /** A well-formed key is empty exactly when it has no letter or digit, since it cannot start with `-`. */
  lemma {:induction false} KeyNoAlnum(k: string)
    requires WellFormedKey(k)
    ensures k == "" <==> NoAlnum(k)
  {
    if k != [] {
      assert IsAsciiAlnum(k[0]);
    }
  }

  /** The key a row's hint contributes, `""` when the hint is absent, `#N/A`, or slugs to nothing. */
  function HintKeyOf(hint: string): (key: string)
    ensures WellFormedKey(key)
    ensures !HintApplies(hint) ==> key == ""
    ensures HintApplies(hint) ==> (key == "" <==> forall i :: 0 <= i < |hint| ==> !IsAsciiAlnum(hint[i]))
  {
    if HintApplies(hint) then HintKey(hint) else ""
  }

  /** The family and confidence of a row: the hint's key at 0.90, or `canonical_family` when that key is empty. */
  function Resolve(name: string, ecoCode: string, hint: string): (m: FamilyMatch)
    ensures HintKeyOf(hint) != "" ==> m == FamilyMatch(HintKeyOf(hint), 90)
    ensures HintKeyOf(hint) == "" ==> m == FamilyOf(name, ecoCode)
    ensures (m.family == "") <==> (m.confidence == 0)
    ensures m.confidence in {0, 80, 85, 90, 99}
  {
    var key := HintKeyOf(hint);
    if key != "" then FamilyMatch(key, 90) else FamilyOf(name, ecoCode)
  }
}
