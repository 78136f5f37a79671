/** Text compared the way `str` is: character by character, a proper prefix first. */
module Names {

  predicate Before(a: string, b: string) {
    if a == "" then b != ""
    else b != "" && (a[0] < b[0] || (a[0] == b[0] && Before(a[1..], b[1..])))
  }

  lemma {:induction false} BeforeTransitive(a: string, b: string, c: string)
    requires Before(a, b) && Before(b, c)
    ensures Before(a, c)
  {
    if a != "" && a[0] == b[0] == c[0] {
      BeforeTransitive(a[1..], b[1..], c[1..]);
    }
  }

  /** Exactly one of the three holds. */
  lemma {:induction false} BeforeTotal(a: string, b: string)
    ensures Before(a, b) || a == b || Before(b, a)
    ensures Before(a, b) ==> a != b && !Before(b, a)
  {
    if a != "" && b != "" && a[0] == b[0] {
      BeforeTotal(a[1..], b[1..]);
      assert a == [a[0]] + a[1..] && b == [b[0]] + b[1..];
    }
  }

  predicate IsPrefix(p: string, s: string) {
    |p| <= |s| && s[..|p|] == p
  }

  /** A proper prefix comes first. */
  lemma {:induction false} PrefixBefore(p: string, s: string)
    requires IsPrefix(p, s) && p != s
    ensures Before(p, s)
  {
    if p != "" {
      assert s[1..][..|p| - 1] == p[1..];
      assert s == [s[0]] + s[1..] && p == [p[0]] + p[1..];
      PrefixBefore(p[1..], s[1..]);
    }
  }
}
