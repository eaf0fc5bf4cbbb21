/** The two string operations the feed search relies on: `toLowerCase` and
    `includes`. Lower-casing is modelled as a character fold over the letters
    this application's titles and authors use (ASCII and the basic Cyrillic
    alphabet); `includes` is contiguous-substring membership. */
module Text {

  /** Lower-case form of one character: ASCII A-Z, Cyrillic А-Я and Ё are
      folded, every other character is left as it is. */
  function LowerChar(c: char): (r: char)
    ensures NotFoldedCapital(r)
    ensures !IsUpperChar(c) ==> r == c
  {
    if 'A' <= c <= 'Z' then (c as int + 32) as char
    else if 'А' <= c <= 'Я' then (c as int + 32) as char
    else if c == 'Ё' then 'ё'
    else c
  }

  /** The characters LowerChar changes. */
  predicate IsUpperChar(c: char) {
    ('A' <= c <= 'Z') || ('А' <= c <= 'Я') || c == 'Ё'
  }

  /** The characters LowerChar leaves alone: every character that is not
      one of the capitals it folds (digits, spaces and small letters among
      them). */
  predicate NotFoldedCapital(c: char) {
    !IsUpperChar(c)
  }

  /** Lower-case form of a string: same length, no upper-case letter left,
      and every character that was not upper-case kept in its place. */
  function Lower(s: string): (r: string)
    ensures |r| == |s|
    ensures forall i :: 0 <= i < |r| ==> NotFoldedCapital(r[i])
    ensures forall i :: 0 <= i < |s| && !IsUpperChar(s[i]) ==> r[i] == s[i]
  {
    seq(|s|, i requires 0 <= i < |s| => LowerChar(s[i]))
  }

  /** Lower-casing an already lower-cased string changes nothing. */
  lemma LowerIdempotent(s: string)
    ensures Lower(Lower(s)) == Lower(s)
  {
    assert forall i :: 0 <= i < |s| ==> Lower(Lower(s))[i] == Lower(s)[i];
  }

  /** `q` is a prefix of `s`. */
  predicate StartsWith(s: string, q: string) {
    |q| <= |s| && s[..|q|] == q
  }

  /** Substring search: `q` occurs in `s` at some position, scanned from the left. */
  function Includes(s: string, q: string): bool
    decreases |s|
  {
    StartsWith(s, q) || (|s| > 0 && Includes(s[1..], q))
  }

  /** `q` occurs in `s` starting at index `i`. */
  predicate OccursAt(s: string, q: string, i: int) {
    0 <= i && i + |q| <= |s| && s[i..i + |q|] == q
  }

  /** Includes is exactly "there is a position where `q` occurs". */
  lemma {:induction false} IncludesIffOccurs(s: string, q: string)
    ensures Includes(s, q) <==> exists i :: OccursAt(s, q, i)
    decreases |s|
  {
    if |s| > 0 {
      IncludesIffOccurs(s[1..], q);
    }
    if StartsWith(s, q) {
      assert OccursAt(s, q, 0);
    } else if |s| > 0 && Includes(s[1..], q) {
      var j :| OccursAt(s[1..], q, j);
      assert s[j + 1..j + 1 + |q|] == s[1..][j..j + |q|];
      assert OccursAt(s, q, j + 1);
    }
    forall i | OccursAt(s, q, i) ensures Includes(s, q) {
      if i == 0 {
        assert StartsWith(s, q);
      } else {
        assert s[1..][i - 1..i - 1 + |q|] == s[i..i + |q|];
        assert OccursAt(s[1..], q, i - 1);
      }
    }
  }

  /** Every string includes the empty string. */
  lemma IncludesEmpty(s: string)
    ensures Includes(s, "")
  {
    assert StartsWith(s, "");
  }

  /** The first two characters of a case-insensitively included string occur,
      folded, side by side in the including one. */
  lemma FoldedPairNeeded(s: string, q: string)
    requires |q| >= 2
    ensures Includes(Lower(s), Lower(q)) ==>
      exists i :: 0 <= i < |s| - 1 && LowerChar(s[i]) == LowerChar(q[0]) && LowerChar(s[i + 1]) == LowerChar(q[1])
  {
    var ls, lq := Lower(s), Lower(q);
    IncludesIffOccurs(ls, lq);
    if Includes(ls, lq) {
      var i :| OccursAt(ls, lq, i);
      assert ls[i..i + |lq|][0] == ls[i] && ls[i..i + |lq|][1] == ls[i + 1];
    }
  }

  /** A string that holds a character `s` lacks is not included in `s`. */
  lemma MissingCharExcludes(s: string, q: string, c: char)
    requires c in q && c !in s
    ensures !Includes(s, q)
  {
    IncludesIffOccurs(s, q);
    var j :| 0 <= j < |q| && q[j] == c;
    forall i | 0 <= i && i + |q| <= |s| ensures !OccursAt(s, q, i) {
      assert s[i..i + |q|][j] == s[i + j] && s[i + j] in s;
    }
  }

  /** A small letter that `s` holds neither as itself nor as its capital
      `cap` is missing from the lower-cased `s`. */
  lemma FoldedLetterAbsent(s: string, cap: char, c: char)
    requires SmallOf(cap, c)
    requires c !in s && cap !in s
    ensures c !in Lower(s)
  {
    forall i | 0 <= i < |s| ensures Lower(s)[i] != c {
      assert s[i] in s;
      LowerCharEqIff(s[i], cap);
    }
  }

  /** `a` and `b` are the same letter up to case: equal, or one is an
      A-Z, А-Я or Ё capital and the other its small letter. */
  predicate SameLetterUpToCase(a: char, b: char) {
    a == b || SmallOf(a, b) || SmallOf(b, a)
  }

  /** `small` is the small letter of the capital `cap`. */
  predicate SmallOf(cap: char, small: char) {
    ('A' <= cap <= 'Z' && small as int == cap as int + 32)
    || ('А' <= cap <= 'Я' && small as int == cap as int + 32)
    || (cap == 'Ё' && small == 'ё')
  }

  /** Two strings of the same length spelled the same up to case. */
  predicate SameUpToCase(s: string, t: string) {
    |s| == |t| && forall i :: 0 <= i < |s| ==> SameLetterUpToCase(s[i], t[i])
  }

  /** Two characters fold to the same character exactly when they are the
      same letter up to case: the fold merges a capital with its own small
      letter and with nothing else. */
  lemma LowerCharEqIff(a: char, b: char)
    ensures LowerChar(a) == LowerChar(b) <==> SameLetterUpToCase(a, b)
  {
  }

  /** Two strings lower-case to the same string exactly when they are
      spelled the same up to case. */
  lemma LowerEqIffSameUpToCase(s: string, t: string)
    ensures Lower(s) == Lower(t) <==> SameUpToCase(s, t)
  {
    if Lower(s) == Lower(t) {
      forall i | 0 <= i < |s| ensures SameLetterUpToCase(s[i], t[i]) {
        assert Lower(s)[i] == Lower(t)[i];
        LowerCharEqIff(s[i], t[i]);
      }
    }
    if SameUpToCase(s, t) {
      forall i | 0 <= i < |s| ensures Lower(s)[i] == Lower(t)[i] {
        LowerCharEqIff(s[i], t[i]);
      }
    }
  }
}
