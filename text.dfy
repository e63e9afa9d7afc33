/**
 * String primitives of the Python runtime that the crosswalk builder relies on:
 * character classes (`str.isspace`, `\w`, `str.splitlines`), case mapping,
 * `str.strip`, `str.replace`, substring tests and character counts.
 * Strings are sequences of Unicode scalar values.
 */
module Text {

  /** `str.isspace()`, which is also the set `\s` matches in a str pattern. */
  predicate IsSpace(c: char) {
    || c == ' '
    || ('\t' <= c <= '\r')
    || ('\U{1C}' <= c <= '\U{1F}')
    || c == '\U{85}' || c == '\U{A0}' || c == '\U{1680}'
    || ('\U{2000}' <= c <= '\U{200A}')
    || c == '\U{2028}' || c == '\U{2029}' || c == '\U{202F}' || c == '\U{205F}' || c == '\U{3000}'
  }

  /** The characters at which `str.splitlines()` ends a line. */
  predicate IsLineBreak(c: char) {
    || ('\n' <= c <= '\r')
    || ('\U{1C}' <= c <= '\U{1E}')
    || c == '\U{85}' || c == '\U{2028}' || c == '\U{2029}'
  }

  predicate IsDigit(c: char) { '0' <= c <= '9' }

  predicate IsAsciiAlnum(c: char) { ('A' <= c <= 'Z') || ('a' <= c <= 'z') || IsDigit(c) }

  /** `\w` of a str pattern, exact on U+0000..U+00FF: letters, digits, numerics and `_`. */
  predicate IsWordChar(c: char) {
    || IsAsciiAlnum(c) || c == '_'
    || c == '\U{AA}' || c == '\U{B2}' || c == '\U{B3}' || c == '\U{B5}'
    || c == '\U{B9}' || c == '\U{BA}' || ('\U{BC}' <= c <= '\U{BE}')
    || ('\U{C0}' <= c <= '\U{FF}' && c != '\U{D7}' && c != '\U{F7}')
  }

  /** No whitespace character is a word character, so `\s` always sits at a `\b` next to a word. */
  lemma SpaceNotWord(c: char)
    ensures IsSpace(c) ==> !IsWordChar(c)
  {
  }

  /** `str.lower()` on one character: ASCII and Latin-1 capitals (U+00C0..U+00DE except U+00D7). */
  function LowerChar(c: char): char {
    if 'A' <= c <= 'Z' || ('\U{C0}' <= c <= '\U{DE}' && c != '\U{D7}') then (c as int + 32) as char else c
  }

  /** `str.upper()` on one character, for ASCII letters. */
  function UpperChar(c: char): char {
    if 'a' <= c <= 'z' then (c as int - 32) as char else c
  }

  function Lower(s: string): string {
    seq(|s|, i requires 0 <= i < |s| => LowerChar(s[i]))
  }

  function Upper(s: string): string {
    seq(|s|, i requires 0 <= i < |s| => UpperChar(s[i]))
  }

  /** `lower()` keeps the length, leaves no ASCII capital, and changes nothing a second time. */
  lemma LowerIsLower(s: string)
    ensures |Lower(s)| == |s|
    ensures forall i :: 0 <= i < |s| ==> !('A' <= Lower(s)[i] <= 'Z')
    ensures Lower(Lower(s)) == Lower(s)
  {
  }

  /** `upper()` keeps the length, leaves no ASCII small letter, and changes nothing a second time. */
  lemma UpperIsUpper(s: string)
    ensures |Upper(s)| == |s|
    ensures forall i :: 0 <= i < |s| ==> !('a' <= Upper(s)[i] <= 'z')
    ensures Upper(Upper(s)) == Upper(s)
  {
  }

  /** The two character sets the source strips: `strip()` (whitespace) and `strip("-")`. */
  datatype Chars = Whitespace | Dashes

  predicate Drops(k: Chars, c: char) {
    match k
    case Whitespace => IsSpace(c)
    case Dashes => c == '-'
  }

  /** `s.lstrip(chars)`. */
  function StripLeft(s: string, drop: Chars): (r: string)
    ensures |r| <= |s| && r == s[|s| - |r|..]
    ensures r == [] || !Drops(drop, r[0])
    ensures forall i :: 0 <= i < |s| - |r| ==> Drops(drop, s[i])
  {
    if s != [] && Drops(drop, s[0]) then StripLeft(s[1..], drop) else s
  }

  /** `s.rstrip(chars)`. */
  function StripRight(s: string, drop: Chars): (r: string)
    ensures |r| <= |s| && r == s[..|r|]
    ensures r == [] || !Drops(drop, r[|r| - 1])
    ensures forall i :: |r| <= i < |s| ==> Drops(drop, s[i])
  {
    if s != [] && Drops(drop, s[|s| - 1]) then StripRight(s[..|s| - 1], drop) else s
  }

  /** `s.strip(chars)`: neither end of the result is a dropped character. */
  function Strip(s: string, drop: Chars): (r: string)
    ensures |r| <= |s|
    ensures r == [] || (!Drops(drop, r[0]) && !Drops(drop, r[|r| - 1]))
  {
    StripRight(StripLeft(s, drop), drop)
  }

  /** What `strip` keeps is one contiguous piece of `s`, and everything it cuts off is dropped. */
  lemma StripSlice(s: string, drop: Chars) returns (a: nat)
    ensures OccursAt(s, Strip(s, drop), a)
    ensures forall i :: 0 <= i < a ==> Drops(drop, s[i])
    ensures forall i :: a + |Strip(s, drop)| <= i < |s| ==> Drops(drop, s[i])
  {
    var left := StripLeft(s, drop);
    a := |s| - |left|;
    var r := StripRight(left, drop);
    assert OccursAt(s, r, a) by {
      assert s[a..a + |r|] == left[..|r|];
    }
    DroppedTail(s, left, |r|, drop);
  }

  /** What is dropped from the end of a suffix `left` of `s` is dropped from the end of `s`. */
  lemma DroppedTail(s: string, left: string, keep: nat, drop: Chars)
    requires |left| <= |s| && left == s[|s| - |left|..] && keep <= |left|
    requires forall i :: keep <= i < |left| ==> Drops(drop, left[i])
    ensures forall i :: |s| - |left| + keep <= i < |s| ==> Drops(drop, s[i])
  {
    forall i | |s| - |left| + keep <= i < |s| ensures Drops(drop, s[i]) {
      assert s[i] == left[i - (|s| - |left|)];
    }
  }

  /** `s.replace(p, r)`: every leftmost, non-overlapping occurrence of `p` is replaced by `r`. */
  function Replace(s: string, p: string, r: string): string
    requires p != []
    decreases |s|
  {
    if |s| < |p| then s
    else if s[..|p|] == p then r + Replace(s[|p|..], p, r)
    else [s[0]] + Replace(s[1..], p, r)
  }

  /** A text in which the pattern does not occur is left unchanged by `replace`. */
  lemma {:induction false} ReplaceAbsent(s: string, p: string, r: string)
    requires p != [] && forall i :: !OccursAt(s, p, i)
    ensures Replace(s, p, r) == s
    decreases |s|
  {
    if |s| >= |p| {
      assert !OccursAt(s, p, 0);
      forall i ensures !OccursAt(s[1..], p, i) {
        if OccursAt(s[1..], p, i) {
          assert s[1..][i..i + |p|] == s[i + 1..i + 1 + |p|];
          assert OccursAt(s, p, i + 1);
        }
      }
      ReplaceAbsent(s[1..], p, r);
      assert s == [s[0]] + s[1..];
    }
  }

  /** `w` occurs in `s` at position `i`. */
  predicate OccursAt(s: string, w: string, i: int) {
    0 <= i && i + |w| <= |s| && s[i..i + |w|] == w
  }

  /** Python's `w in s`. */
  function Contains(s: string, w: string): (b: bool)
    ensures b <==> exists i :: OccursAt(s, w, i)
    decreases |s|
  {
    if |s| < |w| then
      assert forall i :: !OccursAt(s, w, i);
      false
    else if s[..|w|] == w then
      assert OccursAt(s, w, 0);
      true
    else
      var b := Contains(s[1..], w);
      assert forall i :: 0 < i ==> (OccursAt(s, w, i) <==> OccursAt(s[1..], w, i - 1));
      assert forall i :: OccursAt(s[1..], w, i) ==> OccursAt(s, w, i + 1);
      b
  }

  /** `s.count(c)` for a one-character `c`: the multiplicity of `c` in `s`. */
  function CountChar(s: string, c: char): (n: nat)
    ensures n == multiset(s)[c]
  {
    if s == [] then 0
    else
      assert s == [s[0]] + s[1..];
      (if s[0] == c then 1 else 0) + CountChar(s[1..], c)
  }

  /** Replacing a single character by a single character works position by position. */
  lemma {:induction false} ReplaceOneChar(s: string, c: char, d: char)
    ensures |Replace(s, [c], [d])| == |s|
    ensures forall i :: 0 <= i < |s| ==> Replace(s, [c], [d])[i] == (if s[i] == c then d else s[i])
    decreases |s|
  {
    if s != [] {
      ReplaceOneChar(s[1..], c, d);
      assert s[..1] == [s[0]];
    }
  }

  lemma {:induction false} ReplaceKeepsFirst(s: string, p: string, r: string)
    requires p != [] && s != [] && s[0] != p[0]
    ensures Replace(s, p, r) != [] && Replace(s, p, r)[0] == s[0]
  {
  }

  /** If the last character of `s` is not the last of `p`, no occurrence covers it and it stays last. */
  lemma {:induction false} ReplaceKeepsLast(s: string, p: string, r: string)
    requires p != [] && s != [] && s[|s| - 1] != p[|p| - 1]
    ensures Replace(s, p, r) != [] && Replace(s, p, r)[|Replace(s, p, r)| - 1] == s[|s| - 1]
    decreases |s|
  {
    if |s| < |p| {
    } else if s[..|p|] == p {
      if |s| > |p| {
        ReplaceKeepsLast(s[|p|..], p, r);
        assert Replace(s, p, r) == r + Replace(s[|p|..], p, r);
      }
    } else {
      assert Replace(s, p, r) == [s[0]] + Replace(s[1..], p, r);
      if |s| > 1 {
        ReplaceKeepsLast(s[1..], p, r);
      }
    }
  }

  /** A non-empty replacement that does not end in `c` cannot make the result end in `c`. */
  lemma {:induction false} ReplaceLastNot(s: string, p: string, r: string, c: char)
    requires p != [] && s != [] && s[|s| - 1] != c && r != [] && r[|r| - 1] != c
    ensures Replace(s, p, r) != [] && Replace(s, p, r)[|Replace(s, p, r)| - 1] != c
    decreases |s|
  {
    if |s| < |p| {
    } else if s[..|p|] == p {
      var t := Replace(s[|p|..], p, r);
      assert Replace(s, p, r) == r + t;
      if |s| > |p| {
        ReplaceLastNot(s[|p|..], p, r, c);
        assert s[|p|..][|s| - |p| - 1] == s[|s| - 1];
        assert (r + t)[|r + t| - 1] == t[|t| - 1];
      } else {
        assert s[|p|..] == [];
        assert r + t == r;
      }
    } else {
      var t := Replace(s[1..], p, r);
      assert Replace(s, p, r) == [s[0]] + t;
      if |s| > 1 {
        ReplaceLastNot(s[1..], p, r, c);
        assert s[1..][|s| - 2] == s[|s| - 1];
        assert ([s[0]] + t)[|t|] == t[|t| - 1];
      } else {
        assert s[1..] == [];
        assert [s[0]] + t == [s[0]];
      }
    }
  }

  /** Every character of the result comes from `s` or from `r`. */
  lemma {:induction false} ReplaceChars(s: string, p: string, r: string, ok: char -> bool)
    requires p != []
    requires forall i :: 0 <= i < |s| ==> ok(s[i])
    requires forall i :: 0 <= i < |r| ==> ok(r[i])
    ensures forall i :: 0 <= i < |Replace(s, p, r)| ==> ok(Replace(s, p, r)[i])
    decreases |s|
  {
    if |s| < |p| {
    } else if s[..|p|] == p {
      ReplaceChars(s[|p|..], p, r, ok);
    } else {
      ReplaceChars(s[1..], p, r, ok);
    }
  }

  /** No two adjacent characters of `s` are both `c`. */
  predicate NoDoubled(s: string, c: char) {
    forall i :: 0 <= i < |s| - 1 ==> s[i] != c || s[i + 1] != c
  }

  /** Two texts without a doubled `c` join into one, unless the join itself puts two `c`s side by side. */
  lemma NoDoubledJoin(a: string, b: string, c: char)
    requires NoDoubled(a, c) && NoDoubled(b, c)
    requires a == [] || b == [] || a[|a| - 1] != c || b[0] != c
    ensures NoDoubled(a + b, c)
  {
    var ab := a + b;
    forall i | 0 <= i < |ab| - 1 ensures ab[i] != c || ab[i + 1] != c {
      if i + 1 < |a| {
        assert ab[i] == a[i] && ab[i + 1] == a[i + 1];
      } else if i >= |a| {
        assert ab[i] == b[i - |a|] && ab[i + 1] == b[i - |a| + 1];
      }
    }
  }

  /**
   * `replace` never doubles `c` when neither `s` nor the replacement has it doubled, and the
   * replacement starts or ends with `c` only where the pattern does. The result starts with `c`
   * only when `s` does.
   */
  lemma {:induction false} ReplaceNoDoubled(s: string, p: string, r: string, c: char)
    requires p != [] && r != [] && NoDoubled(s, c) && NoDoubled(r, c)
    requires r[0] == c ==> p[0] == c
    requires r[|r| - 1] == c ==> p[|p| - 1] == c
    ensures NoDoubled(Replace(s, p, r), c)
    ensures Replace(s, p, r) != [] && Replace(s, p, r)[0] == c ==> s != [] && s[0] == c
    decreases |s|
  {
    if |s| < |p| {
    } else if s[..|p|] == p {
      var rest := s[|p|..];
      var t := Replace(rest, p, r);
      assert NoDoubled(rest, c) by {
        forall i | 0 <= i < |rest| - 1 ensures rest[i] != c || rest[i + 1] != c {
          assert rest[i] == s[|p| + i] && rest[i + 1] == s[|p| + i + 1];
        }
      }
      ReplaceNoDoubled(rest, p, r, c);
      if t != [] && t[0] == c {
        assert s[|p|] == rest[0] == c;
        assert s[|p| - 1] == p[|p| - 1] != c;
      }
      NoDoubledJoin(r, t, c);
      assert Replace(s, p, r) == r + t;
    } else {
      var rest := s[1..];
      var t := Replace(rest, p, r);
      assert NoDoubled(rest, c) by {
        forall i | 0 <= i < |rest| - 1 ensures rest[i] != c || rest[i + 1] != c {
          assert rest[i] == s[i + 1] && rest[i + 1] == s[i + 2];
        }
      }
      ReplaceNoDoubled(rest, p, r, c);
      NoDoubledJoin([s[0]], t, c);
      assert Replace(s, p, r) == [s[0]] + t;
    }
  }
}
