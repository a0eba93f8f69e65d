/**
 * String primitives shared by the listing and seeding code.
 *
 * JavaScript's Unicode-aware `toLowerCase`, `trim` and `localeCompare`
 * are replaced by ASCII lower-casing, ASCII whitespace and the
 * code-unit lexicographic order `LexLeq`.
 */
module Text {

  /** The whitespace characters recognised by `trim` and by the `\s` class. */
  predicate IsSpace(c: char) {
    c == ' ' || c == '\t' || c == '\n' || c == '\r' || c == '\U{0B}' || c == '\U{0C}'
  }

  predicate NoSpace(s: string) {
    forall i :: 0 <= i < |s| ==> !IsSpace(s[i])
  }

  function LowerChar(c: char): (r: char)
    ensures 'A' <= c <= 'Z' ==> r as int == c as int + 32
    ensures !('A' <= c <= 'Z') ==> r == c
  {
    if 'A' <= c <= 'Z' then (c as int + 32) as char else c
  }

  /** Lower-casing, character by character. */
  function Lower(s: string): (r: string)
    ensures |r| == |s|
    ensures forall i :: 0 <= i < |s| ==> r[i] == LowerChar(s[i])
  {
    if s == [] then [] else [LowerChar(s[0])] + Lower(s[1..])
  }

  /** `sub` occurs in `s` starting at offset `k`. */
  predicate OccursAt(sub: string, s: string, k: int) {
    0 <= k <= |s| - |sub| && s[k..k + |sub|] == sub
  }

  /** `s.includes(sub)`: `sub` occurs in `s` at some offset. */
  predicate Contains(s: string, sub: string) {
    exists k | 0 <= k <= |s| :: OccursAt(sub, s, k)
  }

  /** The empty string occurs in every string. */
  lemma ContainsEmpty(s: string)
    ensures Contains(s, "")
  {
    assert OccursAt("", s, 0);
  }

  function TrimStart(s: string): (r: string)
    ensures |r| <= |s| && r == s[|s| - |r|..]
    ensures r == [] || !IsSpace(r[0])
    ensures forall i :: 0 <= i < |s| - |r| ==> IsSpace(s[i])
  {
    if s != [] && IsSpace(s[0]) then TrimStart(s[1..]) else s
  }

  function TrimEnd(s: string): (r: string)
    ensures |r| <= |s| && r == s[..|r|]
    ensures r == [] || !IsSpace(r[|r| - 1])
    ensures forall i :: |r| <= i < |s| ==> IsSpace(s[i])
  {
    if s != [] && IsSpace(s[|s| - 1]) then TrimEnd(s[..|s| - 1]) else s
  }

  /**
   * `r` is `s` with its leading and trailing whitespace cut off: `r` sits in
   * `s` at offset `k`, everything before and after it is whitespace, and `r`
   * neither starts nor ends with whitespace.
   */
  predicate TrimmedAt(r: string, s: string, k: int) {
    && 0 <= k && k + |r| <= |s|
    && s[k..k + |r|] == r
    && (forall i :: 0 <= i < k ==> IsSpace(s[i]))
    && (forall i :: k + |r| <= i < |s| ==> IsSpace(s[i]))
    && (r == [] || (!IsSpace(r[0]) && !IsSpace(r[|r| - 1])))
  }

  predicate IsTrimOf(r: string, s: string) {
    exists k | 0 <= k <= |s| :: TrimmedAt(r, s, k)
  }

  /** `s.trim()`: the longest infix that starts and ends with a non-space. */
  function Trim(s: string): (r: string)
    ensures r == [] || (!IsSpace(r[0]) && !IsSpace(r[|r| - 1]))
    ensures Contains(s, r)
    ensures IsTrimOf(r, s)
  {
    TrimBothEnds(s);
    TrimEnd(TrimStart(s))
  }

  /** Cutting leading, then trailing whitespace leaves the infix at the first non-space. */
  lemma TrimBothEnds(s: string)
    ensures TrimmedAt(TrimEnd(TrimStart(s)), s, |s| - |TrimStart(s)|)
    ensures OccursAt(TrimEnd(TrimStart(s)), s, |s| - |TrimStart(s)|)
  {
    TrimmedAtParts(s, TrimStart(s), TrimEnd(TrimStart(s)));
  }

  /** The two cuts, stated by what each of them guarantees. */
  lemma TrimmedAtParts(s: string, t: string, r: string)
    requires |t| <= |s| && t == s[|s| - |t|..]
    requires forall i :: 0 <= i < |s| - |t| ==> IsSpace(s[i])
    requires |r| <= |t| && r == t[..|r|]
    requires forall i :: |r| <= i < |t| ==> IsSpace(t[i])
    requires r == [] || (!IsSpace(r[0]) && !IsSpace(r[|r| - 1]))
    ensures TrimmedAt(r, s, |s| - |t|) && OccursAt(r, s, |s| - |t|)
  {
    var k := |s| - |t|;
    assert s[k..k + |r|] == r;
    forall i | k + |r| <= i < |s| ensures IsSpace(s[i]) {
      assert s[i] == t[i - k];
    }
  }

  /** At most one string is the trim of `s`, so `IsTrimOf` pins `Trim` down. */
  lemma TrimUnique(s: string, r1: string, r2: string)
    requires IsTrimOf(r1, s) && IsTrimOf(r2, s)
    ensures r1 == r2
  {
    var k1 :| 0 <= k1 <= |s| && TrimmedAt(r1, s, k1);
    var k2 :| 0 <= k2 <= |s| && TrimmedAt(r2, s, k2);
    if r1 != [] && r2 != [] {
      assert s[k1] == r1[0] && s[k2] == r2[0];
      assert k1 == k2;
      var e1 := k1 + |r1| - 1;
      var e2 := k2 + |r2| - 1;
      assert s[e1] == r1[|r1| - 1] && s[e2] == r2[|r2| - 1];
      assert e1 == e2;
    }
  }

  lemma TrimIdempotent(s: string)
    ensures Trim(Trim(s)) == Trim(s)
  {
    var r := Trim(s);
    assert r == [] || !IsSpace(r[0]);
    assert TrimStart(r) == r;
    assert r == [] || !IsSpace(r[|r| - 1]);
    assert TrimEnd(r) == r;
  }

  /** Code-unit lexicographic order: the stand-in for `localeCompare(a, b) <= 0`. */
  predicate LexLeq(a: string, b: string) {
    if a == [] then true
    else if b == [] then false
    else if a[0] != b[0] then a[0] < b[0]
    else LexLeq(a[1..], b[1..])
  }

  lemma {:induction false} LexLeqTotal(a: string, b: string)
    ensures LexLeq(a, b) || LexLeq(b, a)
  {
    if a != [] && b != [] && a[0] == b[0] {
      LexLeqTotal(a[1..], b[1..]);
    }
  }

  lemma {:induction false} LexLeqTransitive(a: string, b: string, c: string)
    requires LexLeq(a, b) && LexLeq(b, c)
    ensures LexLeq(a, c)
  {
    if a != [] && b != [] && c != [] && a[0] == b[0] && b[0] == c[0] {
      LexLeqTransitive(a[1..], b[1..], c[1..]);
    }
  }

  lemma {:induction false} LexLeqAntisymmetric(a: string, b: string)
    requires LexLeq(a, b) && LexLeq(b, a)
    ensures a == b
  {
    if a != [] && b != [] {
      LexLeqAntisymmetric(a[1..], b[1..]);
      assert a == [a[0]] + a[1..];
      assert b == [b[0]] + b[1..];
    }
  }
}
