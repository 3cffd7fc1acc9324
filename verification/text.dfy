/**
  Strings as the two scripts use them: Python's `str.lower()` and the
  substring test `needle in haystack`.
 */
module Text {

  /** The ASCII upper-case letters. */
  predicate IsUpper(c: char) {
    'A' <= c <= 'Z'
  }

  /** Lower-cases one character; everything but 'A'..'Z' is left alone. */
  function LowerChar(c: char): (r: char)
    ensures !IsUpper(r)
    ensures !IsUpper(c) ==> r == c
  {
    if IsUpper(c) then (c as int - 'A' as int + 'a' as int) as char else c
  }

  /** A string with no upper-case letter left in it. */
  predicate IsLower(s: string) {
    forall i :: 0 <= i < |s| ==> !IsUpper(s[i])
  }

  /** `s.lower()`: the string with every letter folded to lower case. */
  function Lower(s: string): (r: string)
    ensures |r| == |s|
    ensures IsLower(r)
    ensures forall i :: 0 <= i < |s| ==> r[i] == LowerChar(s[i])
  {
    if s == [] then [] else [LowerChar(s[0])] + Lower(s[1..])
  }

  /** Lower-casing leaves a string unchanged exactly when it is already lower case. */
  lemma LowerFixesLower(s: string)
    ensures IsLower(s) <==> Lower(s) == s
  {
  }

  /** Lower-casing twice is lower-casing once. */
  lemma LowerIdempotent(s: string)
    ensures Lower(Lower(s)) == Lower(s)
  {
  }

  /**
    `w[j..]` lines up with `s` from index `k + j` on: the character-by-character
    comparison a scan makes once it has placed `w` at index `k`.
   */
  predicate MatchesFrom(s: string, w: string, k: nat, j: nat)
    decreases |w| - j
  {
    j >= |w| || (k + j < |s| && s[k + j] == w[j] && MatchesFrom(s, w, k, j + 1))
  }

  /** Some placement of `w` at index `k` or later fits inside `s` and matches. */
  predicate ScanFrom(s: string, w: string, k: nat)
    decreases |s| - k
  {
    k + |w| <= |s| && (MatchesFrom(s, w, k, 0) || ScanFrom(s, w, k + 1))
  }

  /** Python's `w in s`, computed as a left-to-right scan over placements. */
  predicate Contains(s: string, w: string) {
    ScanFrom(s, w, 0)
  }

  /** `w` occurs in `s` starting at index `k`. */
  ghost predicate OccursAt(s: string, w: string, k: int) {
    0 <= k && k + |w| <= |s| && s[k..k + |w|] == w
  }

  /** Reference meaning of a substring test: some position where `w` occurs. */
  ghost predicate Occurs(s: string, w: string) {
    exists k :: OccursAt(s, w, k)
  }

  /** The character comparison from `j` on agrees with the characters themselves. */
  lemma {:induction false} MatchesFromPointwise(s: string, w: string, k: nat, j: nat)
    requires k + |w| <= |s|
    ensures MatchesFrom(s, w, k, j) <==> forall i :: j <= i < |w| ==> s[k + i] == w[i]
    decreases |w| - j
  {
    if j < |w| {
      MatchesFromPointwise(s, w, k, j + 1);
    }
  }

  /** A placement matches exactly when `w` occurs there. */
  lemma MatchesFromOccursAt(s: string, w: string, k: nat)
    requires k + |w| <= |s|
    ensures MatchesFrom(s, w, k, 0) <==> OccursAt(s, w, k)
  {
    MatchesFromPointwise(s, w, k, 0);
    if MatchesFrom(s, w, k, 0) {
      assert s[k..k + |w|] == w;
    }
  }

  /** The scan from `k` on succeeds exactly when `w` occurs at `k` or later. */
  lemma {:induction false} ScanFromIff(s: string, w: string, k: nat)
    ensures ScanFrom(s, w, k) <==> exists m :: k <= m && OccursAt(s, w, m)
    decreases |s| - k
  {
    if k + |w| <= |s| {
      MatchesFromOccursAt(s, w, k);
      ScanFromIff(s, w, k + 1);
      if m :| k <= m && OccursAt(s, w, m) {
        if m != k {
          assert k + 1 <= m;
        }
      }
    }
  }

  /** One differing character rules a placement out. */
  lemma MismatchAt(s: string, w: string, k: nat, j: nat)
    requires k + |w| <= |s| && j < |w| && s[k + j] != w[j]
    ensures !MatchesFrom(s, w, k, 0)
  {
    MatchesFromPointwise(s, w, k, 0);
  }

  /** With every placement from `k` on ruled out, the scan from `k` fails. */
  lemma {:induction false} NoPlacementFrom(s: string, w: string, k: nat)
    requires forall m: nat :: k <= m && m + |w| <= |s| ==> !MatchesFrom(s, w, m, 0)
    ensures !ScanFrom(s, w, k)
    decreases |s| - k
  {
    if k + |w| <= |s| {
      NoPlacementFrom(s, w, k + 1);
    }
  }

  /** The scan finds `w` exactly when `w` occurs somewhere in `s`. */
  lemma ContainsIffOccurs(s: string, w: string)
    ensures Contains(s, w) <==> Occurs(s, w)
  {
    ScanFromIff(s, w, 0);
  }

  /** A string found at a known position is found by the scan. */
  lemma ContainsAt(s: string, w: string, k: int)
    requires OccursAt(s, w, k)
    ensures Contains(s, w)
  {
    ContainsIffOccurs(s, w);
  }

  /** Surrounding text never hides a word: `w` is in `a + w + b`. */
  lemma ContainsInfix(a: string, w: string, b: string)
    ensures Contains(a + w + b, w)
  {
    assert (a + w + b)[|a|..|a| + |w|] == w;
    ContainsAt(a + w + b, w, |a|);
  }
}
