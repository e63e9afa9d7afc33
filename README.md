# Opening-name crosswalk classifier, modelled in Dafny

`scripts/build_crosswalk.py` reads chess opening records from CSV files. For each record it produces one
crosswalk row that maps the opening's alias name to a canonical family key with a confidence.
It also writes a review list of the low-confidence rows and a catalogue of the family keys it met.
This project models the decision logic of that script and proves what it guarantees:

- `acceptance_status`: "accepted" wins over "declined", and a name with neither is neutral.
- `canonical_family`:
  - the name is lower-cased and rewritten by `FAMILY_SYNONYMS`;
  - the 38 entries of `FAMILY_RULES` are tried in order and the first match wins at 0.99;
  - after that come a Dutch–Staunton inference at 0.95 and a chain of ECO-code bands (0.90, 0.85 or 0.80);
  - otherwise the result is `("", 0.0)`.
- The header-line rule of `sniff_delimiter`.
- The row loop of `main`:
  - column lookup with header fallbacks;
  - the family-hint slug;
  - the fallback to `canonical_family`;
  - the review rule `conf < 0.85`;
  - the Dutch–Staunton note;
  - the crosswalk, review and family-count accumulators;
  - the sorted family catalogue with its display names.

Python's `re` is modelled by a small pattern language (`Patterns`). It covers exactly the forms the rules use:
literal words, optional characters, `?`, `*` and `+` over a few character classes, `|` between alternatives,
and `\b` at both ends. `Search` backtracks over every way the repeated and optional tokens can be taken, so it
holds exactly when `re.search` finds a match. Confidences are integer hundredths (0.85 is `85`).

Modules, in dependency order:

- `Text`: character classes, `lower`/`upper`, `strip`, `replace`, `in`, `count`.
- `Patterns`: the regex fragment.
- `Families`: the rule table and `canonical_family`.
- `Shadowing`: what the rule order implies.
- `EcoBands`: the ECO chain against an independent band table.
- `Acceptance`: `acceptance_status`.
- `Delimiter`: the header rule of `sniff_delimiter`.
- `Hints`: the family-hint slug.
- `Crosswalk`: the row loop.
- `Catalog`: the family catalogue.

Properties of the rule table as written, proved:

- Wherever `\bdutch\b` matches, rule 14 (`dutch-defense`, 0.99) or an earlier rule decides. The 0.95 Dutch–Staunton inference can therefore never be returned, and no confidence is ever 95.
- Rules 16 (`\bold\s+benoni\b`), 17 (`\bmodern\s+benoni\b`) and 37 (the second `\bscandinavian\b`) never decide a family. Each is shadowed by an earlier rule.
- "Modern Benoni" names are classified `pirc-modern` (rule 12, `\bmodern\b`) unless an even earlier rule matches. They are never classified `benoni-defense`.
- "Semi-Slav" and "semi slav" are classified `slav-defense` (rule 24) unless an earlier rule matches. They are never classified `semi-slav-defense`: rule 25 decides only for the glued spelling "semislav", and only when no earlier rule matches.

## Model

| member | source | states |
|---|---|---|
| Acceptance.AcceptanceStatus | scripts/build_crosswalk.py:29-35 | Accepted exactly when "accepted" occurs in the lower-cased name. Declined exactly when it does not and "declined" does. Neutral exactly when neither occurs. |
| Acceptance.StatusText | scripts/build_crosswalk.py:29-35 | The column text is one of the three strings `acceptance_status` returns, and it is "accepted" exactly for `Accepted` and "declined" exactly for `Declined`. |
| Delimiter.Sample | scripts/build_crosswalk.py:20-21 | The head is a prefix of the text of at most 4096 characters, and the whole text when that is shorter. |
| Delimiter.FirstLine | scripts/build_crosswalk.py:23 | The header line is a prefix of the head with no line break, ending at the first `splitlines` break or at the end. |
| Delimiter.SniffDelimiter | scripts/build_crosswalk.py:19-26 | The result is `;` or `,`. It is `;` exactly when the header line holds strictly more `;` than `,`; an empty file gives `,`. |
| Text.Lower | scripts/build_crosswalk.py:90 | `str.lower`, character by character; its properties are stated by `LowerIsLower`. |
| Text.IsSpace | scripts/build_crosswalk.py:101 | `str.isspace()`, which is also what `\s` matches and what `strip()` removes (lines 101 and 178): the ASCII whitespace, U+001C to U+001F, U+0085, U+00A0 and the Unicode space separators. |
| Text.IsLineBreak | scripts/build_crosswalk.py:23 | The characters at which `splitlines()` ends a line: `\n` to `\r`, U+001C to U+001E, U+0085, U+2028 and U+2029. |
| Text.IsWordChar | scripts/build_crosswalk.py:39-76 | `\w` of a str pattern, on which every `\b` of the rule table depends: ASCII letters, digits and `_`, and the Latin-1 letters and numerics; exact up to U+00FF. |
| Text.LowerIsLower | scripts/build_crosswalk.py:90 | `lower` keeps the length, leaves no ASCII capital, and is idempotent. |
| Text.Upper | scripts/build_crosswalk.py:101 | `str.upper`, character by character; its properties are stated by `UpperIsUpper`. |
| Text.UpperIsUpper | scripts/build_crosswalk.py:101 | `upper` keeps the length, leaves no ASCII small letter, and is idempotent. |
| Text.Contains | scripts/build_crosswalk.py:31-33 | Python's `w in s`: true exactly when `w` occurs at some position. |
| Text.CountChar | scripts/build_crosswalk.py:24 | `str.count` of one character equals its multiplicity in the string. |
| Text.Strip | scripts/build_crosswalk.py:101 | Neither end of the result is a stripped character. |
| Text.StripSlice | scripts/build_crosswalk.py:178-179 | What `strip` keeps is one contiguous piece of the input, and every character cut from either side is one that is stripped. |
| Text.Replace | scripts/build_crosswalk.py:92 | `str.replace`: every leftmost, non-overlapping occurrence is replaced, scanning left to right. The lemmas `ReplaceAbsent`, `ReplaceOneChar` and `ReplaceChars` state what it does. |
| Text.ReplaceAbsent | scripts/build_crosswalk.py:92 | A text in which the pattern does not occur is returned unchanged. |
| Text.ReplaceOneChar | scripts/build_crosswalk.py:176 | Replacing one character by another works position by position and keeps the length. |
| Patterns.MatchToks | scripts/build_crosswalk.py:94 | How the tokens between the two `\b` consume characters: a word exactly, `?` one or none, `*` any number, `+` at least one, with backtracking. It is followed by `\b`. `WordThen`, `OptMatch`, `StarMatch` and `PlusMatch` state each case. |
| Patterns.MatchAt | scripts/build_crosswalk.py:94 | `\b` followed by the tokens: a match starting at a given position. |
| Patterns.Search | scripts/build_crosswalk.py:94 | `re.search`: a match at some start position, as `SearchFrom` states. |
| Patterns.SearchFrom | scripts/build_crosswalk.py:94 | `re.search` succeeds exactly when the pattern matches at some start position. |
| Patterns.WordMatch | scripts/build_crosswalk.py:94 | A whole-word pattern `\bw\b` matches exactly where `w` occurs with a word boundary on both sides. |
| Patterns.WordThen | scripts/build_crosswalk.py:94 | A leading literal word consumes exactly its own characters. |
| Patterns.SearchEmpty | scripts/build_crosswalk.py:94 | No pattern matches the empty string. |
| Patterns.WordsJoin | scripts/build_crosswalk.py:64 | Two adjacent literal words match exactly where their concatenation does. |
| Patterns.StarMatch | scripts/build_crosswalk.py:44 | A `*` run consumes only characters of its class before the rest of the pattern matches. |
| Patterns.PlusMatch | scripts/build_crosswalk.py:47 | A `+` run consumes at least one character of its class. |
| Patterns.OptMatch | scripts/build_crosswalk.py:41 | An optional character `?` either consumes one character of its class or nothing. |
| Families.Rewrite | scripts/build_crosswalk.py:91-92 | The synonym loop: each entry of `FAMILY_SYNONYMS` in order, applied with `str.replace`. |
| Families.RewriteAbsent | scripts/build_crosswalk.py:91-92 | A text holding none of the synonym phrases is left unchanged by the loop. |
| Families.Normalized | scripts/build_crosswalk.py:90-92 | The name as the rules see it: lower-cased, then rewritten by the synonyms. |
| Families.NormalizedPlain | scripts/build_crosswalk.py:90-92 | A name without any synonym phrase reaches the rules only lower-cased. |
| Families.NormalizeEco | scripts/build_crosswalk.py:101 | `(eco_code or "").upper().strip()`. |
| Families.NormalizeEcoShape | scripts/build_crosswalk.py:101 | The normalised code is no longer than the input. It has no ASCII small letter and no whitespace at either end. |
| Families.EcoBand | scripts/build_crosswalk.py:101-134 | The ECO fallback chain in source order. Its confidence is 0, 0.80, 0.85 or 0.90, and the family is empty exactly when the confidence is 0. `EcoBands.EcoBandOfBand` checks it against an independent band table. |
| Families.FirstMatch | scripts/build_crosswalk.py:93-95 | The index of the earliest rule that matches, or the table length when none does. |
| Families.Classify | scripts/build_crosswalk.py:93-134 | 0.99 exactly when some rule matches, with the family of the first matching rule. Otherwise the ECO band result. The confidence is never 95, and the family is empty exactly when the confidence is 0. |
| Families.FamilyOf | scripts/build_crosswalk.py:89-134 | Every confidence `canonical_family` returns is 0, 0.80, 0.85, 0.90 or 0.99, and the family is empty exactly when the confidence is 0. |
| Families.FamilyOfFirstMatch | scripts/build_crosswalk.py:89-134 | 0.99 exactly when a rule matches the rewritten name, and then the first matching rule's family. Otherwise the ECO band of the upper-cased, stripped code. |
| Families.FamilyOfDecided | scripts/build_crosswalk.py:93-95 | When some rule matches, the result is the first matching rule's family at 0.99. |
| Families.LowConfidence | scripts/build_crosswalk.py:89-134 | Below 0.85 exactly when no rule matches and the ECO band is below 0.85. |
| Families.CanonicalFamily | scripts/build_crosswalk.py:89-134 | The synonym loop, the rule loop with its early return, the Dutch–Staunton test and the ECO chain compute `FamilyOf`. |
| Families.Rules | scripts/build_crosswalk.py:38-77 | The 38 entries of `FAMILY_RULES` in source order, each alternative of a pattern (the parts between its top-level bars) as its own token list, with character classes as one-character tokens and `?`, `*` and `+` as optional, starred and repeated tokens. |
| Families.Synonyms | scripts/build_crosswalk.py:80-86 | The five pairs of `FAMILY_SYNONYMS` in the dictionary's insertion order. |
| Families.RuleMatches | scripts/build_crosswalk.py:94 | `re.search(pattern, n)` for a pattern with alternatives: some alternative matches at some position of `n`. |
| Families.RulesHaveTableShape | scripts/build_crosswalk.py:38-77 | Every entry of the table has a non-empty family, and `\bdutch\b` is among the alternatives of entry 14. |
| Shadowing.DutchShadowsStaunton | scripts/build_crosswalk.py:93-99 | Whenever `\bdutch\b` matches, some rule at index 14 or below matches first. |
| Shadowing.DutchNameNeverInferred | scripts/build_crosswalk.py:93-99 | A name matching `\bdutch\b` always gets 0.99, and gets `dutch-defense` when no earlier rule matches. The 0.95 branch is unreachable. |
| Shadowing.ShadowedNeverFirst | scripts/build_crosswalk.py:93-95 | A rule that matches only where an earlier rule matches is never the first match. |
| Shadowing.OldBenoniImpliesBenoni | scripts/build_crosswalk.py:54-55 | Wherever `\bold\s+benoni\b` matches, `\bbenoni\b` matches. |
| Shadowing.ModernBenoniImpliesBenoni | scripts/build_crosswalk.py:54-56 | Wherever `\bmodern\s+benoni\b` matches, `\bbenoni\b` matches. |
| Shadowing.ScandinavianAgainImpliesScandinavian | scripts/build_crosswalk.py:76 | Wherever the last rule (`\bscandinavian\b`) matches, rule 3 on line 42 matches. |
| Shadowing.DeadRules | scripts/build_crosswalk.py:54-76 | Rules 16, 17 and 37 are never the first match of any name. |
| Shadowing.ModernBenoniIsPircModern | scripts/build_crosswalk.py:51-56 | A name with "modern benoni" is decided at 0.99 by rule 12 or earlier and is never `benoni-defense`. With no earlier match it is `pirc-modern`. |
| Shadowing.ModernBenoniMeansModern | scripts/build_crosswalk.py:51-56 | `\bmodern\s+benoni\b` always contains a match of rule 12's `\bmodern\b`. |
| Shadowing.SemiSlavApartMeansSlav | scripts/build_crosswalk.py:63-64 | "semi-slav" and "semi slav" always contain a match of `\bslav\b`. |
| Shadowing.SemiSlavApartIsSlav | scripts/build_crosswalk.py:63-64 | Such a name is decided at 0.99 by rule 24 or earlier and is never `semi-slav-defense`. With no earlier match it is `slav-defense`. |
| Shadowing.SemiSlavOnlyGlued | scripts/build_crosswalk.py:63-64 | Rule 25 decides exactly when "semislav" matches as a word and no earlier rule matches. |
| Shadowing.GluedAt | scripts/build_crosswalk.py:64 | `\bsemi[-\s]?slav\b` matches at a position exactly when the spelling with a separator or the glued spelling does. |
| EcoBands.EcoBandOfBand | scripts/build_crosswalk.py:101-131 | A code inside a band of the independent table gets that band's family and confidence. The chain's order does not matter because no two bands overlap. |
| EcoBands.EcoBandOutsideBands | scripts/build_crosswalk.py:101-134 | A code inside no band yields `("", 0.0)`. |
| EcoBands.BandsCoverB | scripts/build_crosswalk.py:103-112 | The four B bands together cover B00 to B99. |
| EcoBands.BandsCoverD | scripts/build_crosswalk.py:117-131 | The ten D bands together cover D00 to D99. |
| EcoBands.NoRuleMatchesEmpty | scripts/build_crosswalk.py:93-95 | No rule matches the empty name. |
| EcoBands.FamilyOfEmptyName | scripts/build_crosswalk.py:89-134 | Without a name, only the ECO code decides. |
| EcoBands.NormalizeEcoExamples | scripts/build_crosswalk.py:101 | `"b22"` is normalised to `"B22"` and `"C45"` is unchanged. |
| EcoBands.EcoExamples | scripts/build_crosswalk.py:101-134 | With no name, `"b22"` gives `("sicilian-defense", 0.90)` and `"C45"` gives `("", 0.0)`. |
| Hints.StraightenApostrophes | scripts/build_crosswalk.py:176 | Each of U+2019, `` ` `` and U+00B4 becomes `'`, and every other character is kept in place. |
| Hints.HintApplies | scripts/build_crosswalk.py:173 | The hint is used exactly when it is non-empty and its upper-cased form is not `#N/A`. |
| Hints.Depossessed | scripts/build_crosswalk.py:177 | The exact filter: an apostrophe at position `i` is removed exactly when `s[i..i+2]` is `'s` and the text ends there or the next character is not a word character. Every other character is kept, in order. |
| Hints.DropPossessive | scripts/build_crosswalk.py:177 | `re.sub(r"'s\b", "s", s)` equals `Depossessed`. It never lengthens the text and removes only apostrophes. A text without `'` is unchanged. |
| Hints.Collapse | scripts/build_crosswalk.py:178 | `re.sub(r"[^A-Za-z0-9]+", "-", s)`: each maximal run outside `[A-Za-z0-9]` becomes one `-`. `CollapseShape` and `CollapseByPieces` state what it computes. |
| Hints.CollapseShape | scripts/build_crosswalk.py:178 | The result holds only ASCII letters, digits and `-`, with no two dashes in a row. It is empty exactly when the input is empty, and starts with `-` exactly when the input starts outside `[A-Za-z0-9]`. It keeps the input's letters and digits, in order. |
| Hints.Pieces | scripts/build_crosswalk.py:178 | The substitution read position by position: a letter or digit is kept, a character outside the class becomes `-` when it starts a run (at position 0 or after a letter or digit), and the rest of a run is dropped. |
| Hints.CollapseByPieces | scripts/build_crosswalk.py:178 | `Collapse` equals that position-by-position reading, so every dash stands exactly where a run starts. |
| Hints.StrippedKey | scripts/build_crosswalk.py:179 | `strip("-")` of lower-case key characters is a well-formed key. |
| Hints.VariantFixes | scripts/build_crosswalk.py:181-183 | The three variant replacements keep a key well formed. |
| Hints.SlugSingleDashes | scripts/build_crosswalk.py:179-183 | Lower-casing, `strip("-")` and the three variant fixes never put two dashes side by side. |
| Text.ReplaceNoDoubled | scripts/build_crosswalk.py:181-183 | `str.replace` keeps a text free of a doubled character when the replacement starts or ends with it only where the pattern does. |
| Hints.HintKey | scripts/build_crosswalk.py:174-183 | The slug uses only `[a-z0-9-]`, neither starts nor ends with `-`, and never has two dashes in a row. It is empty exactly when the hint has no ASCII letter or digit. |
| Hints.SlugKeepsAlnums | scripts/build_crosswalk.py:174-183 | Each step of the slug pipeline keeps some ASCII letter or digit exactly when the hint has one. |
| Hints.HintKeyOf | scripts/build_crosswalk.py:173-184 | The hint's key is well formed. It is empty when the hint is empty or `#N/A` in any case. For any other hint it is empty exactly when the hint has no ASCII letter or digit. |
| Hints.Resolve | scripts/build_crosswalk.py:171-187 | A non-empty hint key is taken at 0.90. An empty one falls back to `canonical_family`. The family is empty exactly when the confidence is 0. |
| Crosswalk.Column | scripts/build_crosswalk.py:164-167 | The value is the first non-empty one among the header variants, and empty exactly when all are missing or empty. |
| Crosswalk.Source | scripts/build_crosswalk.py:200 | `r.get("__source_file", "split")`. |
| Crosswalk.DutchStaunton | scripts/build_crosswalk.py:193-194 | The note is set exactly when `\bdutch\b` and `\bstaunton\b` both match the lower-cased name, without the synonym rewrite. |
| Crosswalk.EntryOf | scripts/build_crosswalk.py:163-209 | `needs_review` holds exactly when the key is empty or the confidence is below 0.85. The key is empty exactly when the confidence is 0. The confidence is one of 0, 0.80, 0.85, 0.90 and 0.99. |
| Crosswalk.ReviewRule | scripts/build_crosswalk.py:173-198 | A row is flagged exactly when its hint gives no key, no rule matches its name, and its ECO band is below 0.85. |
| Crosswalk.ReviewOf | scripts/build_crosswalk.py:214-219 | A review row copies name, slug and ECO code, with reason `low_confidence_or_unmatched`. |
| Crosswalk.ClassifyRow | scripts/build_crosswalk.py:164-209 | The body of the row loop produces exactly `EntryOf` of the row. |
| Crosswalk.Flagged | scripts/build_crosswalk.py:213-219 | The review list that the loop builds: one review row per flagged entry, in order. `FlaggedExactly` states it. |
| Crosswalk.Count | scripts/build_crosswalk.py:211-212 | The number of crosswalk entries with a given key, which `CountIsMultiplicity` relates to the multiset of keys. |
| Crosswalk.CountIsMultiplicity | scripts/build_crosswalk.py:211-212 | The count of a key is its multiplicity among the crosswalk's keys. |
| Crosswalk.Tally | scripts/build_crosswalk.py:211-212 | `families[key] = families.get(key, 0) + 1`, skipped for the empty key. `TallyAppend` states what it keeps. |
| Crosswalk.FlaggedIndices | scripts/build_crosswalk.py:213 | The flagged positions are increasing and in range, and every flagged entry is among them. |
| Crosswalk.FlaggedExactly | scripts/build_crosswalk.py:213-219 | The review list has one row per flagged entry, in crosswalk order, and nothing else. |
| Crosswalk.TallyAppend | scripts/build_crosswalk.py:211-212 | Counting one more entry keeps `families` an exact count of every non-empty key, with no empty key and no key at count 0. |
| Crosswalk.BuildCrosswalk | scripts/build_crosswalk.py:163-219 | One crosswalk entry per row, in row order, each equal to `EntryOf`. The review list is the flagged entries in order. `families` counts every non-empty key exactly, every count in it is positive, and it contains no other key. |
| Catalog.Less | scripts/build_crosswalk.py:250 | Python's `<` on `str`: code point by code point, with a proper prefix first. |
| Catalog.LessIrreflexive | scripts/build_crosswalk.py:250 | No string is smaller than itself, so the order is strict. |
| Catalog.LessTotal | scripts/build_crosswalk.py:250 | Python's string order is total. |
| Catalog.LessTransitive | scripts/build_crosswalk.py:250 | Python's string order is transitive. |
| Catalog.LeastExists | scripts/build_crosswalk.py:250 | Every non-empty set of keys has a least element. |
| Catalog.Join | scripts/build_crosswalk.py:251 | `sep.join(parts)`, which `Split` inverts. |
| Catalog.Split | scripts/build_crosswalk.py:251 | `split("-")` yields parts with no separator that `join` puts back into the key. |
| Catalog.Capitalize | scripts/build_crosswalk.py:251 | `capitalize` upper-cases the first character and lower-cases the rest, keeping the length. |
| Catalog.DisplayName | scripts/build_crosswalk.py:251 | `" ".join(part.capitalize() for part in key.split("-"))`, whose result `DisplayNameIsSpaced` states. |
| Catalog.DisplayNameIsSpaced | scripts/build_crosswalk.py:251 | The display name equals the key with each `-` turned into a space, the first character and each one after a `-` upper-cased, and the rest lower-cased. |
| Catalog.DisplayNameRoundTrip | scripts/build_crosswalk.py:251 | A key of `[a-z0-9-]` is recovered from its display name. |
| Catalog.CatalogStep | scripts/build_crosswalk.py:250-252 | Emitting the least remaining key keeps the rows sorted and in one-to-one correspondence with the keys already taken. |
| Catalog.FamilyCatalog | scripts/build_crosswalk.py:246-252 | One catalogue row per family key, strictly increasing in Python's string order, each with its display name, an empty ECO group and the fixed note. |

## Left out

- File and console I/O is not modelled, because it is outside the decision logic:
  - `read_rows`: the glob, `csv.DictReader` and the `__source_file` column it adds;
  - opening the sample file in `sniff_delimiter`;
  - writing the three CSV files;
  - `os.makedirs` and the final `print`.
- Records reach the model as column-to-value maps that `normalize_text` has already processed. Its NFKC normalisation and `strip` are not modelled.
- The NFKD normalisation of the hint is the identity here. Under real NFKD, U+00B4 decomposes into a space and a combining accent, so the source's `.replace("´", "'")` is effectively dead; the model performs it on the raw character.
- Case mapping:
  - `str.lower` is exact for ASCII and Latin-1 capitals and the identity above U+00FF;
  - `str.upper` covers ASCII letters only.
- No non-ASCII character upper-cases to one of `#`, `N`, `/` or `A`, so the `#N/A` test is exact.
- `\w` is exact on U+0000–U+00FF. Characters above U+00FF count as non-word characters.
- `\d` is ASCII digits only. This affects only ECO codes, which use ASCII digits.
- Only the regex forms the rules and the slug use are modelled, not Python's `re` in general.
- Number formatting is not modelled:
  - `f"{conf:.2f}"`: confidences are integer hundredths;
  - `"TRUE"`/`"FALSE"`: the review flag is a boolean;
  - the acceptance column is the `Status` datatype, and `Acceptance.StatusText` gives its text.
- The ECO fallback mirrors the source's `re.match` chain in `Families.EcoBand`. `EcoBands` checks that chain against a table of numeric ranges rather than the other way round.
- Crosswalk.EntryOf: its own contract states only the review flag and the confidence invariants. The family and confidence it carries are pinned down by `ReviewRule`, `Hints.Resolve` and `Families.FamilyOfFirstMatch`.
