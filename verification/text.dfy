/**
 The string operations the title search uses: lower-casing (restricted to ASCII
 letters) and substring containment with the semantics of `String.prototype.includes`.
 */
module Text {

  predicate IsUpper(c: char) {
    'A' <= c <= 'Z'
  }

  /** Maps an ASCII capital letter to its small letter; every other character is kept. */
  function LowerChar(c: char): (r: char)
    ensures !IsUpper(r)
    ensures !IsUpper(c) ==> r == c
    ensures IsUpper(c) ==> r as int - c as int == 'a' as int - 'A' as int
  {
    if IsUpper(c) then (c as int - 'A' as int + 'a' as int) as char else c
  }

  /** Lower-cases every character of `s`. */
  function Lower(s: string): (r: string)
    ensures |r| == |s|
    ensures forall i :: 0 <= i < |s| ==> r[i] == LowerChar(s[i])
    ensures forall i :: 0 <= i < |r| ==> !IsUpper(r[i])
    ensures forall i :: 0 <= i < |s| && !IsUpper(s[i]) ==> r[i] == s[i]
  {
    seq(|s|, i requires 0 <= i < |s| => LowerChar(s[i]))
  }

  /** `n` occurs in `h` starting at index `i`. */
  ghost predicate OccursAt(h: string, n: string, i: int) {
    0 <= i && i + |n| <= |h| && h[i..i + |n|] == n
  }

  /** `h` begins with `n`. */
  predicate StartsWith(h: string, n: string) {
    |n| <= |h| && h[..|n|] == n
  }

  /** `h` contains `n` as a contiguous substring; the empty string occurs everywhere. */
  function Contains(h: string, n: string): (r: bool)
    ensures r <==> exists i :: OccursAt(h, n, i)
    decreases |h|
  {
    if StartsWith(h, n) then
      assert OccursAt(h, n, 0);
      true
    else if |h| == 0 then
      false
    else
      var r := Contains(h[1..], n);
      ContainsShift(h, n);
      r
  }

  /** An occurrence past the first index of `h` is an occurrence in its tail, and back. */
  lemma ContainsShift(h: string, n: string)
    requires |h| > 0 && !StartsWith(h, n)
    ensures (exists i :: OccursAt(h, n, i)) <==> (exists i :: OccursAt(h[1..], n, i))
  {
    if i :| OccursAt(h, n, i) {
      assert i != 0;
      assert h[1..][i - 1..i - 1 + |n|] == h[i..i + |n|];
      assert OccursAt(h[1..], n, i - 1);
    }
    if i :| OccursAt(h[1..], n, i) {
      assert h[1..][i..i + |n|] == h[i + 1..i + 1 + |n|];
      assert OccursAt(h, n, i + 1);
    }
  }

  /** Lower-casing twice is lower-casing once. */
  lemma LowerIdempotent(s: string)
    ensures Lower(Lower(s)) == Lower(s)
  {
  }

  /** Lower-casing commutes with taking a slice. */
  lemma LowerSlice(s: string, i: int, j: int)
    requires 0 <= i <= j <= |s|
    ensures Lower(s)[i..j] == Lower(s[i..j])
  {
  }

  /** A case-sensitive match is also a match once both sides are lower-cased. */
  lemma {:induction false} ContainsLower(h: string, n: string)
    requires Contains(h, n)
    ensures Contains(Lower(h), Lower(n))
  {
    var i :| OccursAt(h, n, i);
    LowerSlice(h, i, i + |n|);
    assert OccursAt(Lower(h), Lower(n), i);
  }

  /** `n` occurs in `h` at index `i` when letters are compared without regard to case. */
  ghost predicate OccursIgnoringCaseAt(h: string, n: string, i: int) {
    && 0 <= i && i + |n| <= |h|
    && forall j :: 0 <= j < |n| ==> LowerChar(h[i + j]) == LowerChar(n[j])
  }

  /** Matching the lower-cased term in the lower-cased title is exactly finding the
      term somewhere in the title, comparing character by character without regard to case. */
  lemma {:induction false} ContainsLowerIgnoresCase(h: string, n: string)
    ensures Contains(Lower(h), Lower(n)) <==> exists i :: OccursIgnoringCaseAt(h, n, i)
  {
    var lh, ln := Lower(h), Lower(n);
    if i :| OccursAt(lh, ln, i) {
      forall j | 0 <= j < |n|
        ensures LowerChar(h[i + j]) == LowerChar(n[j])
      {
        assert lh[i..i + |ln|][j] == ln[j];
      }
      assert OccursIgnoringCaseAt(h, n, i);
    }
    if i :| OccursIgnoringCaseAt(h, n, i) {
      assert lh[i..i + |ln|] == ln;
      assert OccursAt(lh, ln, i);
    }
  }
}
