/**
 * The fragment of Python's `re` that the family rules use: a word-bounded pattern
 * `\b t1 t2 ... tn \b` whose tokens are single characters, optional characters
 * (`x?`, `[-\s]?`), and runs (`\s+`, `\s*`) drawn from a small set of character
 * classes. Matching backtracks over every way the optional and repeated tokens
 * can be taken, so `Search` holds exactly when `re.search` finds a match.
 */
module Patterns {
  import opened Text

  datatype Class =
    | Chr(c: char)            // a literal character
    | Either(a: char, b: char) // `[aá]`
    | Space                   // `\s`
    | DashOrSpace             // `[-\s]`

  predicate InClass(k: Class, c: char) {
    match k
    case Chr(x) => c == x
    case Either(a, b) => c == a || c == b
    case Space => IsSpace(c)
    case DashOrSpace => c == '-' || IsSpace(c)
  }

  datatype Tok =
    | Word(w: string) // the literal characters of `w`
    | One(k: Class)   // exactly one character of the class
    | Opt(k: Class)   // `?`
    | Star(k: Class)  // `*`
    | Plus(k: Class)  // `+`

  /** The tokens between the two `\b` of one alternative. */
  type Pattern = seq<Tok>

  /** `\b` at position `p`: exactly one of the neighbouring characters is a word character. */
  predicate Boundary(s: string, p: nat)
    requires p <= |s|
  {
    (p > 0 && IsWordChar(s[p - 1])) != (p < |s| && IsWordChar(s[p]))
  }

  /** The tokens `ts` match a piece of `s` starting at `i` that is followed by `\b`. */
  predicate MatchToks(ts: Pattern, s: string, i: nat)
    requires i <= |s|
    decreases |s| - i, |ts|
  {
    if ts == [] then Boundary(s, i)
    else match ts[0]
      case Word(w) => OccursAt(s, w, i) && MatchToks(ts[1..], s, i + |w|)
      case One(k) => i < |s| && InClass(k, s[i]) && MatchToks(ts[1..], s, i + 1)
      case Opt(k) => (i < |s| && InClass(k, s[i]) && MatchToks(ts[1..], s, i + 1)) || MatchToks(ts[1..], s, i)
      case Star(k) => MatchToks(ts[1..], s, i) || (i < |s| && InClass(k, s[i]) && MatchToks(ts, s, i + 1))
      case Plus(k) => i < |s| && InClass(k, s[i]) && MatchToks([Star(k)] + ts[1..], s, i + 1)
  }

  /** `\b ts \b` matches `s` starting at `i`. */
  predicate MatchAt(ts: Pattern, s: string, i: nat)
    requires i <= |s|
  {
    Boundary(s, i) && MatchToks(ts, s, i)
  }

  /** `re.search` tried from every start position `i`, `i + 1`, ..., `|s|`. */
  function SearchFrom(ts: Pattern, s: string, i: nat): (b: bool)
    requires i <= |s|
    ensures b <==> exists j :: i <= j <= |s| && MatchAt(ts, s, j)
    decreases |s| - i
  {
    MatchAt(ts, s, i) || (i < |s| && SearchFrom(ts, s, i + 1))
  }

  predicate Search(ts: Pattern, s: string) {
    SearchFrom(ts, s, 0)
  }

  /** A whole-word pattern `\bw\b` matches where `w` occurs with a boundary on both sides. */
  lemma WordMatch(w: string, s: string, i: nat)
    requires i <= |s|
    ensures MatchAt([Word(w)], s, i) <==>
            (OccursAt(s, w, i) && Boundary(s, i) && Boundary(s, i + |w|))
  {
    WordThen(w, [], s, i);
    assert [Word(w)] + [] == [Word(w)];
  }

  /** A leading word token consumes exactly its characters. */
  lemma WordThen(w: string, rest: Pattern, s: string, i: nat)
    requires i <= |s|
    ensures MatchToks([Word(w)] + rest, s, i) <==> (OccursAt(s, w, i) && MatchToks(rest, s, i + |w|))
  {
    assert ([Word(w)] + rest)[1..] == rest;
  }

  /** Two adjacent word tokens match exactly where their concatenation does. */
  lemma WordsJoin(a: string, b: string, rest: Pattern, s: string, i: nat)
    requires i <= |s|
    ensures MatchToks([Word(a), Word(b)] + rest, s, i) <==> MatchToks([Word(a + b)] + rest, s, i)
  {
    assert [Word(a), Word(b)] + rest == [Word(a)] + ([Word(b)] + rest);
    WordThen(a, [Word(b)] + rest, s, i);
    WordThen(a + b, rest, s, i);
    if OccursAt(s, a, i) {
      WordThen(b, rest, s, i + |a|);
    }
    if i + |a| + |b| <= |s| {
      assert s[i..i + |a| + |b|] == s[i..i + |a|] + s[i + |a|..i + |a| + |b|];
      if OccursAt(s, a + b, i) {
        assert s[i..i + |a|] == (a + b)[..|a|] == a;
        assert s[i + |a|..i + |a| + |b|] == (a + b)[|a|..] == b;
      }
    }
  }

  /** A `*` run consumes characters of its class and hands over to the rest somewhere. */
  lemma {:induction false} StarMatch(k: Class, rest: Pattern, s: string, i: nat) returns (j: nat)
    requires i <= |s| && MatchToks([Star(k)] + rest, s, i)
    ensures i <= j <= |s| && MatchToks(rest, s, j)
    ensures forall m :: i <= m < j ==> InClass(k, s[m])
    decreases |s| - i
  {
    assert ([Star(k)] + rest)[1..] == rest;
    if MatchToks(rest, s, i) {
      j := i;
    } else {
      j := StarMatch(k, rest, s, i + 1);
    }
  }

  /** A `+` run consumes at least one character of its class. */
  lemma PlusMatch(k: Class, rest: Pattern, s: string, i: nat) returns (j: nat)
    requires i <= |s| && MatchToks([Plus(k)] + rest, s, i)
    ensures i < j <= |s| && MatchToks(rest, s, j)
    ensures forall m :: i <= m < j ==> InClass(k, s[m])
  {
    assert ([Plus(k)] + rest)[1..] == rest;
    j := StarMatch(k, rest, s, i + 1);
  }

  /** An optional token either consumes one character of its class or nothing. */
  lemma OptMatch(k: Class, rest: Pattern, s: string, i: nat)
    requires i <= |s| && MatchToks([Opt(k)] + rest, s, i)
    ensures MatchToks(rest, s, i) || (i < |s| && InClass(k, s[i]) && MatchToks(rest, s, i + 1))
  {
    assert ([Opt(k)] + rest)[1..] == rest;
  }

  /** Nothing matches in the empty string: its only position has no word character on either side. */
  lemma SearchEmpty(ts: Pattern)
    ensures !Search(ts, "")
  {
  }
}
