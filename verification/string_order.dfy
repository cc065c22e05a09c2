/**
 The ordering and matching of dictionary words.

 Words are compared the way `std::string::compare` compares them: character by
 character from the front, the first differing character decides, and when one
 word is a proper prefix of the other the shorter one sorts first. Dafny's own
 `<` on sequences means "proper prefix", so the order is defined here.
 */
module StringOrder {

  /** Three-way comparison with the sign convention of `std::string::compare`:
      negative, zero or positive as `a` sorts before, equal to or after `b`. */
  function Compare(a: string, b: string): (r: int)
    ensures -1 <= r <= 1
    ensures r == 0 <==> a == b
    decreases |a|
  {
    if |a| == 0 || |b| == 0 then
      (if |a| == |b| then 0 else if |a| == 0 then -1 else 1)
    else if a[0] < b[0] then -1
    else if b[0] < a[0] then 1
    else
      var r := Compare(a[1..], b[1..]);
      assert r == 0 ==> a == [a[0]] + a[1..] == [b[0]] + b[1..] == b;
      r
  }

  /** `a` sorts strictly before `b`. */
  predicate Less(a: string, b: string)
  {
    Compare(a, b) < 0
  }

  /** Swapping the operands negates the comparison. */
  lemma {:induction false} CompareAntisymmetric(a: string, b: string)
    ensures Compare(a, b) == -Compare(b, a)
    decreases |a|
  {
    if |a| > 0 && |b| > 0 && a[0] == b[0] {
      CompareAntisymmetric(a[1..], b[1..]);
    }
  }

  /** `Less` never holds both ways. */
  lemma LessAsymmetric(a: string, b: string)
    requires Less(a, b)
    ensures !Less(b, a) && a != b
  {
    CompareAntisymmetric(a, b);
  }

  /** Any two distinct words are ordered one way or the other. */
  lemma LessConnected(a: string, b: string)
    requires a != b
    ensures Less(a, b) || Less(b, a)
  {
    CompareAntisymmetric(a, b);
  }

  lemma {:induction false} LessTransitive(a: string, b: string, c: string)
    requires Less(a, b) && Less(b, c)
    ensures Less(a, c)
    decreases |a|
  {
    if |a| > 0 && |b| > 0 && |c| > 0 && a[0] == b[0] && b[0] == c[0] {
      LessTransitive(a[1..], b[1..], c[1..]);
    }
  }

  /** A proper prefix sorts before every word it is a prefix of. */
  lemma {:induction false} ProperPrefixIsLess(p: string, s: string)
    requires p <= s && p != s
    ensures Less(p, s)
    decreases |p|
  {
    if |p| > 0 {
      assert p[1..] <= s[1..];
      ProperPrefixIsLess(p[1..], s[1..]);
    }
  }

  /** When two words agree on their first `i` characters and differ at index
      `i`, the smaller character decides which word sorts first. */
  lemma {:induction false} FirstDifferenceDecides(a: string, b: string, i: nat)
    requires i < |a| && i < |b| && a[..i] == b[..i] && a[i] < b[i]
    ensures Less(a, b)
    decreases i
  {
    if i > 0 {
      assert a[0] == a[..i][0] == b[..i][0] == b[0];
      assert a[1..][..i - 1] == a[..i][1..];
      assert b[1..][..i - 1] == b[..i][1..];
      FirstDifferenceDecides(a[1..], b[1..], i - 1);
    }
  }

  /** The value of `std::string::npos`, returned by `Find` when nothing matches. */
  const NPOS: int := -1

  /** `p` occurs in `s` starting at index `i`. */
  predicate OccursAt(s: string, p: string, i: nat)
  {
    i + |p| <= |s| && s[i..i + |p|] == p
  }

  /** `std::string::find` starting at position `from`: the least index `i >= from`
      where `p` occurs in `s`, or `NPOS`. */
  function FindFrom(s: string, p: string, from: nat): (r: int)
    requires from <= |s|
    ensures r == NPOS || (from <= r && OccursAt(s, p, r))
    ensures r != NPOS ==> forall i: nat :: from <= i < r ==> !OccursAt(s, p, i)
    ensures r == NPOS ==> forall i: nat :: from <= i ==> !OccursAt(s, p, i)
    decreases |s| - from
  {
    if from + |p| > |s| then NPOS
    else if s[from..from + |p|] == p then from
    else FindFrom(s, p, from + 1)
  }

  /** `s.find(p)`, which searches from the start of `s`. */
  function Find(s: string, p: string): int
  {
    FindFrom(s, p, 0)
  }

  /** `s.find(p) == 0` is exactly the test "`p` is a prefix of `s`"
      (the empty word is a prefix of every word). */
  lemma FindZeroIffPrefix(s: string, p: string)
    ensures Find(s, p) == 0 <==> p <= s
  {
    if p <= s {
      assert s[0..|p|] == p;
    }
  }
}
