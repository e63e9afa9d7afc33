/**
 * The family catalogue written after the row loop: the keys of `families` in
 * `sorted()` order, each with a display name made of its `-`-separated parts,
 * capitalised and joined with single spaces.
 */
module Catalog {
  import opened Text
  import opened Families

  /** Python's `a < b` on str: code point by code point, a proper prefix first. */
  predicate Less(a: string, b: string)
    decreases |a|
  {
    if a == [] then b != []
    else b != [] && (a[0] < b[0] || (a[0] == b[0] && Less(a[1..], b[1..])))
  }

  lemma {:induction false} LessIrreflexive(a: string)
    ensures !Less(a, a)
    decreases |a|
  {
    if a != [] {
      LessIrreflexive(a[1..]);
    }
  }

  lemma {:induction false} LessTransitive(a: string, b: string, c: string)
    requires Less(a, b) && Less(b, c)
    ensures Less(a, c)
    decreases |a|
  {
    if a != [] && a[0] == b[0] && b[0] == c[0] {
      LessTransitive(a[1..], b[1..], c[1..]);
    }
  }

  lemma {:induction false} LessTotal(a: string, b: string)
    requires a != b
    ensures Less(a, b) || Less(b, a)
    decreases |a|
  {
    if a != [] && b != [] && a[0] == b[0] {
      assert a == [a[0]] + a[1..] && b == [b[0]] + b[1..];
      LessTotal(a[1..], b[1..]);
    }
  }

  /** Every non-empty set of strings has a least element. */
  lemma {:induction false} LeastExists(s: set<string>) returns (m: string)
    requires s != {}
    ensures m in s && forall o :: o in s && o != m ==> Less(m, o)
    decreases |s|
  {
    var x :| x in s;
    if s == {x} {
      m := x;
    } else {
      var rest := LeastExists(s - {x});
      if x != rest {
        LessTotal(x, rest);
      }
      if Less(x, rest) {
        m := x;
        forall o | o in s && o != m ensures Less(m, o) {
          if o != rest {
            LessTransitive(x, rest, o);
          }
        }
      } else {
        m := rest;
      }
    }
  }

  /** The first index of `c` in `s`. */
  function IndexOf(s: string, c: char): (i: nat)
    requires c in s
    ensures i < |s| && s[i] == c && forall j :: 0 <= j < i ==> s[j] != c
  {
    if s[0] == c then 0 else 1 + IndexOf(s[1..], c)
  }

  /** `sep.join(parts)`. */
  function Join(parts: seq<string>, sep: char): string
    requires |parts| >= 1
  {
    if |parts| == 1 then parts[0] else parts[0] + [sep] + Join(parts[1..], sep)
  }

  /** `s.split(sep)`: the pieces between the separators, which `Join` puts back together. */
  function Split(s: string, sep: char): (parts: seq<string>)
    ensures |parts| >= 1
    ensures forall i, j :: 0 <= i < |parts| && 0 <= j < |parts[i]| ==> parts[i][j] != sep
    ensures Join(parts, sep) == s
    decreases |s|
  {
    if sep !in s then [s]
    else
      var i := IndexOf(s, sep);
      var rest := Split(s[i + 1..], sep);
      var parts := [s[..i]] + rest;
      assert parts[1..] == rest;
      assert s == s[..i] + [sep] + s[i + 1..];
      parts
  }

  /** `str.capitalize()`: the first character upper-case, the rest lower-case. */
  function Capitalize(p: string): (r: string)
    ensures |r| == |p|
    ensures forall i :: 0 <= i < |p| ==> r[i] == (if i == 0 then UpperChar(p[i]) else LowerChar(p[i]))
  {
    if p == [] then [] else [UpperChar(p[0])] + Lower(p[1..])
  }

  /** `" ".join(part.capitalize() for part in key.split("-"))`. */
  function DisplayName(key: string): string {
    var parts := Split(key, '-');
    Join(seq(|parts|, i requires 0 <= i < |parts| => Capitalize(parts[i])), ' ')
  }

  /** The display name character by character: a dash becomes a space, a character after a dash or at the start is upper-cased, every other one lower-cased. */
  function Spaced(key: string): (d: string)
    ensures |d| == |key|
  {
    seq(|key|, i requires 0 <= i < |key| =>
      if key[i] == '-' then ' '
      else if i == 0 || key[i - 1] == '-' then UpperChar(key[i])
      else LowerChar(key[i]))
  }

  lemma {:induction false} DisplayNameIsSpaced(key: string)
    ensures DisplayName(key) == Spaced(key)
    decreases |key|
  {
    var parts := Split(key, '-');
    var caps := seq(|parts|, i requires 0 <= i < |parts| => Capitalize(parts[i]));
    if '-' !in key {
      assert parts == [key];
    } else {
      var i := IndexOf(key, '-');
      var tail := key[i + 1..];
      var rest := Split(tail, '-');
      assert parts == [key[..i]] + rest;
      var restCaps := seq(|rest|, k requires 0 <= k < |rest| => Capitalize(rest[k]));
      assert caps[1..] == restCaps;
      DisplayNameIsSpaced(tail);
      assert DisplayName(key) == Capitalize(key[..i]) + [' '] + Spaced(tail);
      SpacedSplit(key, i);
    }
  }

  /** `Spaced` of a key cut at its first dash. */
  lemma SpacedSplit(key: string, i: nat)
    requires i < |key| && key[i] == '-' && forall j :: 0 <= j < i ==> key[j] != '-'
    ensures Spaced(key) == Capitalize(key[..i]) + [' '] + Spaced(key[i + 1..])
  {
    var lhs := Spaced(key);
    var rhs := Capitalize(key[..i]) + [' '] + Spaced(key[i + 1..]);
    assert |lhs| == |rhs|;
    var head := key[..i];
    var tail := key[i + 1..];
    forall j | 0 <= j < |key| ensures lhs[j] == rhs[j] {
      if j < i {
        assert rhs[j] == Capitalize(head)[j];
        assert head[j] == key[j];
        if j > 0 {
          assert key[j - 1] != '-';
        }
      } else if j > i {
        assert rhs[j] == Spaced(tail)[j - i - 1];
        assert tail[j - i - 1] == key[j];
        if j > i + 1 {
          assert tail[j - i - 2] == key[j - 1];
        }
      }
    }
  }

  /** Reading a display name back: spaces become dashes, letters are lower-cased. */
  function Undisplay(d: string): (key: string)
    ensures |key| == |d|
  {
    seq(|d|, i requires 0 <= i < |d| => if d[i] == ' ' then '-' else LowerChar(d[i]))
  }

  /** A key of lower-case letters, digits and dashes is recovered from its display name. */
  lemma DisplayNameRoundTrip(key: string)
    requires forall i :: 0 <= i < |key| ==> IsKeyChar(key[i])
    ensures Undisplay(DisplayName(key)) == key
  {
    DisplayNameIsSpaced(key);
  }

  datatype CatalogRow = CatalogRow(key: string, name: string, ecoGroup: string, notes: string)

  const CatalogNote := "seeded from alias mapping frequency"

  /** The loop state of `FamilyCatalog`: `rows` holds, in increasing order, exactly the keys gone from `remaining`. */
  predicate CatalogSoFar(families: map<string, nat>, rows: seq<CatalogRow>, remaining: set<string>) {
    CatalogCovers(families, rows, remaining) && CatalogOrdered(rows, remaining)
  }

  /** Every key of `families` is either still remaining or in exactly one row, each row with its display name. */
  predicate CatalogCovers(families: map<string, nat>, rows: seq<CatalogRow>, remaining: set<string>) {
    && remaining <= families.Keys
    && |rows| + |remaining| == |families.Keys|
    && (forall i :: 0 <= i < |rows| ==> rows[i].key in families && rows[i].key !in remaining)
    && (forall k :: k in families ==> k in remaining || exists i :: 0 <= i < |rows| && rows[i].key == k)
    && (forall i :: 0 <= i < |rows| ==> rows[i] == CatalogRow(rows[i].key, DisplayName(rows[i].key), "", CatalogNote))
  }

  /** The rows are in increasing key order and precede every remaining key. */
  predicate CatalogOrdered(rows: seq<CatalogRow>, remaining: set<string>) {
    && (forall i, j :: 0 <= i < j < |rows| ==> Less(rows[i].key, rows[j].key))
    && (forall i, k :: 0 <= i < |rows| && k in remaining ==> Less(rows[i].key, k))
  }

  /** Moving the least remaining key to the end of the rows keeps the loop state. */
  lemma CatalogStep(families: map<string, nat>, rows: seq<CatalogRow>, remaining: set<string>, key: string)
    requires CatalogSoFar(families, rows, remaining)
    requires key in remaining && forall o :: o in remaining && o != key ==> Less(key, o)
    ensures CatalogSoFar(families, rows + [CatalogRow(key, DisplayName(key), "", CatalogNote)], remaining - {key})
  {
    CoversStep(families, rows, remaining, CatalogRow(key, DisplayName(key), "", CatalogNote));
    OrderedStep(rows, remaining, CatalogRow(key, DisplayName(key), "", CatalogNote));
  }

  lemma CoversStep(families: map<string, nat>, rows: seq<CatalogRow>, remaining: set<string>, row: CatalogRow)
    requires CatalogCovers(families, rows, remaining) && row.key in remaining
    requires row == CatalogRow(row.key, DisplayName(row.key), "", CatalogNote)
    ensures CatalogCovers(families, rows + [row], remaining - {row.key})
  {
    var next := rows + [row];
    assert forall i :: 0 <= i < |rows| ==> next[i] == rows[i];
    forall k | k in families && k !in remaining - {row.key}
      ensures exists i :: 0 <= i < |next| && next[i].key == k
    {
      if k == row.key {
        assert next[|rows|].key == k;
      } else {
        var i :| 0 <= i < |rows| && rows[i].key == k;
        assert next[i].key == k;
      }
    }
    assert |remaining - {row.key}| == |remaining| - 1;
  }

  lemma OrderedStep(rows: seq<CatalogRow>, remaining: set<string>, row: CatalogRow)
    requires CatalogOrdered(rows, remaining)
    requires row.key in remaining && forall o :: o in remaining && o != row.key ==> Less(row.key, o)
    ensures CatalogOrdered(rows + [row], remaining - {row.key})
  {
    var next := rows + [row];
    forall i, j | 0 <= i < j < |next| ensures Less(next[i].key, next[j].key) {
      if j == |rows| {
        assert Less(rows[i].key, row.key);
      } else {
        assert Less(rows[i].key, rows[j].key);
      }
    }
    forall i, k | 0 <= i < |next| && k in remaining - {row.key} ensures Less(next[i].key, k) {
      if i < |rows| {
        assert Less(rows[i].key, k);
      }
    }
  }

  /** `for key in sorted(families.keys())`: one row per key, with its display name, in increasing key order. */
  method FamilyCatalog(families: map<string, nat>) returns (rows: seq<CatalogRow>)
    ensures |rows| == |families.Keys|
    ensures forall i :: 0 <= i < |rows| ==> rows[i].key in families
    ensures forall k :: k in families ==> exists i :: 0 <= i < |rows| && rows[i].key == k
    ensures forall i, j :: 0 <= i < j < |rows| ==> Less(rows[i].key, rows[j].key)
    ensures forall i :: 0 <= i < |rows| ==> rows[i] == CatalogRow(rows[i].key, DisplayName(rows[i].key), "", CatalogNote)
  {
    var remaining := families.Keys;
    rows := [];
    while remaining != {}
      invariant CatalogSoFar(families, rows, remaining)
      decreases |remaining|
    {
      ghost var least := LeastExists(remaining);
      var key :| key in remaining && forall o :: o in remaining && o != key ==> Less(key, o);
      CatalogStep(families, rows, remaining, key);
      rows := rows + [CatalogRow(key, DisplayName(key), "", CatalogNote)];
      remaining := remaining - {key};
    }
  }
}
