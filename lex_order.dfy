/** Byte-wise string comparison, Go's `<` on strings.  Dafny's own `<` on
    sequences means "proper prefix", so the order is defined here. */
module LexOrder {

  /** `a` sorts strictly before `b`: either `a` is a proper prefix of `b`, or
      at the first position where they differ `a` has the smaller character. */
  predicate Less(a: string, b: string)
    ensures a < b ==> Less(a, b)
    ensures b < a ==> !Less(a, b)
    decreases |a|
  {
    b != [] && (a == [] || a[0] < b[0] || (a[0] == b[0] && Less(a[1..], b[1..])))
  }

  /** `p` is a (not necessarily proper) prefix of `s`. */
  predicate IsPrefix(p: string, s: string) {
    |p| <= |s| && s[..|p|] == p
  }

  lemma {:induction false} LessIrreflexive(a: string)
    ensures !Less(a, a)
    decreases |a|
  {
    if a != [] {
      LessIrreflexive(a[1..]);
    }
  }

  lemma {:induction false} LessTransitive(a: string, b: string, c: string)
    requires Less(a, b) && Less(b, c)
    ensures Less(a, c)
    decreases |a|
  {
    if a != [] && a[0] == b[0] && b[0] == c[0] {
      LessTransitive(a[1..], b[1..], c[1..]);
    }
  }

  /** Exactly one of `a < b`, `a == b`, `b < a` holds. */
  lemma {:induction false} LessTrichotomy(a: string, b: string)
    ensures a == b || Less(a, b) || Less(b, a)
    ensures !(Less(a, b) && Less(b, a))
    ensures !(a == b && Less(a, b))
    decreases |a|
  {
    LessIrreflexive(a);
    if a != [] && b != [] && a[0] == b[0] {
      LessTrichotomy(a[1..], b[1..]);
      if a[1..] == b[1..] {
        assert a == [a[0]] + a[1..] && b == [b[0]] + b[1..];
      }
    }
  }

  /** A proper prefix sorts first. */
  lemma {:induction false} LessProperPrefix(a: string, s: string)
    requires s != []
    ensures Less(a, a + s)
    decreases |a|
  {
    if a != [] {
      assert (a + s)[1..] == a[1..] + s;
      LessProperPrefix(a[1..], s);
    }
  }

  /** A common prefix does not change the comparison. */
  lemma {:induction false} LessCommonPrefix(p: string, x: string, y: string)
    ensures Less(p + x, p + y) <==> Less(x, y)
    decreases |p|
  {
    if p != [] {
      assert (p + x)[1..] == p[1..] + x;
      assert (p + y)[1..] == p[1..] + y;
      LessCommonPrefix(p[1..], x, y);
    } else {
      assert p + x == x && p + y == y;
    }
  }

  /** When neither of `x`, `y` is a prefix of the other, they differ inside
      both, and whatever follows them cannot change their order. */
  lemma {:induction false} LessBeyondDivergence(x: string, y: string, s: string, t: string)
    requires !IsPrefix(x, y) && !IsPrefix(y, x)
    ensures Less(x + s, y + t) <==> Less(x, y)
    decreases |x|
  {
    assert x != [] && y != [];
    if x[0] == y[0] {
      assert (x + s)[1..] == x[1..] + s;
      assert (y + t)[1..] == y[1..] + t;
      assert !IsPrefix(x[1..], y[1..]);
      assert !IsPrefix(y[1..], x[1..]);
      LessBeyondDivergence(x[1..], y[1..], s, t);
    }
  }
}
