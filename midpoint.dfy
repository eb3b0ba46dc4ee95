/** midpoint (fracdex.go:102-155): a digit string strictly between two
    fractional parts, where "" below means the start of the line and "" above
    means its end. */
module Midpoints {
  import opened Base62
  import opened LexOrder

  function Min(x: nat, y: nat): (m: nat) {
    if x <= y then x else y
  }

  /** The character the prefix walk compares against b[i]: a[i], or, past
      the end of `a`, the padding digit '0' when `padA` is set. */
  function PadAt(padA: bool, a: string, i: nat): (c: char) {
    if i < |a| then a[i] else if padA then '0' else 0 as char
  }

  /** How far the common-prefix walk goes. With `padA` the walk runs on past
      the end of `a` as if `a` were followed by zeros; without it, the walk
      stops at the end of `a`, which is what the loop at fracdex.go:111
      does. */
  function StripLen(padA: bool, a: string, b: string): (n: nat)
    ensures n <= |b|
    ensures !padA ==> n <= |a|
    decreases |b|
  {
    if b == [] then 0
    else if a != [] && a[0] == b[0] then 1 + StripLen(padA, a[1..], b[1..])
    else if a == [] && padA && b[0] == '0' then 1 + StripLen(padA, [], b[1..])
    else 0
  }

  /** The walk strips exactly the longest prefix on which `b` agrees with
      `a` (padded with zeros when `padA` is set). */
  lemma {:induction false} StripLenFacts(padA: bool, a: string, b: string)
    ensures var n := StripLen(padA, a, b);
      && (forall i :: 0 <= i < n ==> PadAt(padA, a, i) == b[i])
      && (n < |b| ==> PadAt(padA, a, n) != b[n] || (!padA && n == |a|))
    decreases |b|
  {
    if b == [] {
    } else if a != [] && a[0] == b[0] {
      StripLenFacts(padA, a[1..], b[1..]);
      assert forall i :: 1 <= i < |a| ==> a[1..][i - 1] == a[i];
    } else if a == [] && padA && b[0] == '0' {
      StripLenFacts(padA, [], b[1..]);
    }
  }

  /** midpoint, with the prefix walk padded (`padA`) or as written. Both
      variants share everything after the walk: the digits half way between
      the first digits, the first digit of `b`, or the first digit of `a`
      followed by a midpoint towards the end of the line. */
  function MidpointBy(padA: bool, a: string, b: string): (r: string)
    requires AllDigits(a) && AllDigits(b)
    ensures r != [] && AllDigits(r)
    decreases |a| + |b|
  {
    var n := StripLen(padA, a, b);
    if n > 0 then
      b[..n] + MidpointBy(padA, a[Min(n, |a|)..], b[n..])
    else
      var digitA := if a == [] then 0 else IndexOf(a[0]);
      var digitB := if b == [] then Radix else IndexOf(b[0]);
      if digitB - digitA > 1 then [Digit((digitA + digitB + 1) / 2)]
      else if |b| > 1 then b[..1]
      else [Digit(digitA)] + MidpointBy(padA, if a == [] then [] else a[1..], [])
  }

  /** The midpoint the rest of the model uses: the prefix walk pads `a` with
      zeros, as the comment at fracdex.go:107-109 says it should. */
  function Midpoint(a: string, b: string): (r: string)
    requires AllDigits(a) && AllDigits(b)
    ensures r != [] && AllDigits(r)
  {
    MidpointBy(true, a, b)
  }

  /** The prefix loop of midpoint (fracdex.go:111-120) as written: it stops
      at the end of `a`, so the padding of `a` with zeros never applies. */
  method PrefixWalk(a: string, b: string) returns (i: nat)
    ensures i == StripLen(false, a, b)
    ensures i <= |a| && i <= |b| && a[..i] == b[..i]
  {
    StripLenFacts(false, a, b);
    i := 0;
    while i < |a|
      invariant i <= |a| && i <= |b|
      invariant forall j :: 0 <= j < i ==> a[j] == b[j]
      invariant i <= StripLen(false, a, b)
    {
      // Under the loop guard i < |a|, so the padding of `a` never applies.
      var c := a[i];
      if i >= |b| || c != b[i] {
        break;
      }
      i := i + 1;
    }
  }

  /** midpoint as the Go code is written: a loop over the common prefix of
      `a` and `b` that never looks past the end of `a`, a recursive call on
      the rest, and otherwise a digit chosen between the first digits. */
  method MidpointAsWritten(a: string, b: string) returns (r: string)
    requires AllDigits(a) && AllDigits(b)
    ensures r == MidpointBy(false, a, b)
    ensures NoTrailingZero(b) && (b != [] ==> Less(a, b)) ==>
      Less(a, r) && (b != [] ==> Less(r, b))
    decreases |a| + |b|, 1
  {
    MidpointBetween(false, a, b);
    if b != [] {
      var i := PrefixWalk(a, b);
      if i > 0 {
        var rest := MidpointAsWritten(a[i..], b[i..]);
        StripUnfold(false, a, b);
        return b[..i] + rest;
      }
    }
    r := FirstDigitsDiffer(a, b);
  }

  /** The second half of midpoint (fracdex.go:123-154): the first digits (or
      the lack of one) differ. */
  method FirstDigitsDiffer(a: string, b: string) returns (r: string)
    requires AllDigits(a) && AllDigits(b) && StripLen(false, a, b) == 0
    ensures r == MidpointBy(false, a, b)
    decreases |a| + |b|, 0
  {
    var digitA := 0;
    if a != [] {
      digitA := IndexOf(a[0]);
    }
    var digitB := Radix;
    if b != [] {
      digitB := IndexOf(b[0]);
    }
    if digitB - digitA > 1 {
      var midDigit := (digitA + digitB + 1) / 2;
      return [Base62Digits[midDigit]];
    }
    if |b| > 1 {
      return b[..1];
    }
    var sa := [];
    if |a| > 0 {
      sa := a[1..];
    }
    var rest := MidpointAsWritten(sa, []);
    return [Base62Digits[digitA]] + rest;
  }

  // ---------------------------------------------------------------------
  // Ordering

  /** Under the caller's promise that a < b (when b is given) and that b has
      no trailing zero, both variants return a string strictly between. */
  lemma {:induction false} MidpointBetween(padA: bool, a: string, b: string)
    requires AllDigits(a) && AllDigits(b)
    ensures NoTrailingZero(b) && (b != [] ==> Less(a, b)) ==>
      && Less(a, MidpointBy(padA, a, b))
      && (b != [] ==> Less(MidpointBy(padA, a, b), b))
    decreases |a| + |b|
  {
    if NoTrailingZero(b) && (b != [] ==> Less(a, b)) {
      var n := StripLen(padA, a, b);
      if n > 0 {
        StripBetween(padA, a, b);
      } else {
        DigitsBetween(padA, a, b);
      }
    }
  }

  /** The case where the prefix walk strips n > 0 digits. */
  lemma {:induction false} StripBetween(padA: bool, a: string, b: string)
    requires AllDigits(a) && AllDigits(b) && NoTrailingZero(b)
    requires b != [] && Less(a, b) && StripLen(padA, a, b) > 0
    ensures Less(a, MidpointBy(padA, a, b)) && Less(MidpointBy(padA, a, b), b)
    decreases |a| + |b|, 0
  {
    var n := StripLen(padA, a, b);
    var p := b[..n];
    var a', b' := a[Min(n, |a|)..], b[n..];
    StripKeepsOrder(padA, a, b);
    MidpointBetween(padA, a', b');
    var r' := MidpointBy(padA, a', b');
    StripUnfold(padA, a, b);
    assert b == p + b';
    LessCommonPrefix(p, r', b');
    if n <= |a| {
      StripSplitsA(padA, a, b);
      LessCommonPrefix(p, a', r');
    } else {
      StripPastA(padA, a, b);
      StripPastLess(a, b[|a|..n], r');
    }
  }

  /** The shape of a step that strips n > 0 digits. */
  lemma StripUnfold(padA: bool, a: string, b: string)
    requires AllDigits(a) && AllDigits(b) && StripLen(padA, a, b) > 0
    ensures var n := StripLen(padA, a, b);
      MidpointBy(padA, a, b) == b[..n] + MidpointBy(padA, a[Min(n, |a|)..], b[n..])
  {
  }

  lemma StripSplitsA(padA: bool, a: string, b: string)
    requires StripLen(padA, a, b) <= |a|
    ensures a == b[..StripLen(padA, a, b)] + a[StripLen(padA, a, b)..]
  {
    var n := StripLen(padA, a, b);
    StripLenFacts(padA, a, b);
    assert a[..n] == b[..n];
    assert a == a[..n] + a[n..];
  }

  lemma StripPastLess(a: string, z: string, r: string)
    requires z != []
    ensures Less(a, (a + z) + r)
  {
    assert (a + z) + r == a + (z + r);
    LessProperPrefix(a, z + r);
  }

  /** When the walk runs past the end of `a`, the stripped prefix is `a`
      followed by zeros. */
  lemma StripPastA(padA: bool, a: string, b: string)
    requires StripLen(padA, a, b) > |a|
    ensures b[..StripLen(padA, a, b)] == a + b[|a|..StripLen(padA, a, b)]
  {
    var n := StripLen(padA, a, b);
    StripLenFacts(padA, a, b);
    assert forall i :: 0 <= i < |a| ==> PadAt(padA, a, i) == b[i];
  }

  /** The case where the first digits already differ. */
  lemma {:induction false} DigitsBetween(padA: bool, a: string, b: string)
    requires AllDigits(a) && AllDigits(b) && NoTrailingZero(b)
    requires (b != [] ==> Less(a, b)) && StripLen(padA, a, b) == 0
    ensures Less(a, MidpointBy(padA, a, b))
    ensures b != [] ==> Less(MidpointBy(padA, a, b), b)
    decreases |a| + |b|, 0
  {
    StripLenFacts(padA, a, b);
    var r := MidpointBy(padA, a, b);
    var digitA := if a == [] then 0 else IndexOf(a[0]);
    var digitB := if b == [] then Radix else IndexOf(b[0]);
    if b != [] && a != [] {
      assert a[0] != b[0];
      IndexOrder(a[0], b[0]);
    }
    if b != [] && a == [] && |b| == 1 {
      assert b[0] != '0';
      DigitRoundTrip(0);
      assert digitB != 0;
    }
    if digitB - digitA > 1 {
      var mid := (digitA + digitB + 1) / 2;
      assert r == [Digit(mid)];
      if a != [] {
        DigitRoundTrip(digitA);
        DigitOrder(digitA, mid);
      }
      if b != [] {
        DigitRoundTrip(digitB);
        DigitOrder(mid, digitB);
      }
    } else if |b| > 1 {
      assert r == b[..1];
      assert b == r + b[1..];
      LessProperPrefix(r, b[1..]);
    } else {
      var sa := if a == [] then [] else a[1..];
      var rest := MidpointBy(padA, sa, []);
      assert r == [Digit(digitA)] + rest;
      MidpointBetween(padA, sa, []);
      if a != [] {
        DigitRoundTrip(digitA);
        assert Less(sa, rest);
        assert r[0] == a[0] && r[1..] == rest && a[1..] == sa;
      }
      if b != [] {
        DigitRoundTrip(digitB);
        DigitOrder(digitA, digitB);
      }
    }
  }

  // ---------------------------------------------------------------------
  // Trailing zeros

  /** The padded midpoint never ends in '0', so it can end an order key. */
  lemma {:induction false} MidpointNoTrailingZero(a: string, b: string)
    requires AllDigits(a) && AllDigits(b) && NoTrailingZero(b)
    requires b != [] ==> Less(a, b)
    ensures NoTrailingZero(Midpoint(a, b))
    decreases |a| + |b|, 1
  {
    var n := StripLen(true, a, b);
    if n > 0 {
      var a', b' := a[Min(n, |a|)..], b[n..];
      StripKeepsOrder(true, a, b);
      MidpointNoTrailingZero(a', b');
      assert Midpoint(a, b) == b[..n] + Midpoint(a', b');
    } else {
      DigitsNoTrailingZero(a, b);
    }
  }

  /** The case of MidpointNoTrailingZero where the first digits differ: the
      chosen digit is never '0', because after the padded walk an empty `a`
      faces a first digit of `b` above '0'. */
  lemma {:induction false} DigitsNoTrailingZero(a: string, b: string)
    requires AllDigits(a) && AllDigits(b) && NoTrailingZero(b)
    requires (b != [] ==> Less(a, b)) && StripLen(true, a, b) == 0
    ensures NoTrailingZero(Midpoint(a, b))
    decreases |a| + |b|, 0
  {
    StripLenFacts(true, a, b);
    var digitA := if a == [] then 0 else IndexOf(a[0]);
    var digitB := if b == [] then Radix else IndexOf(b[0]);
    DigitRoundTrip(0);
    if digitB - digitA > 1 {
      var mid := (digitA + digitB + 1) / 2;
      assert Midpoint(a, b) == [Digit(mid)];
      DigitOrder(0, mid);
    } else if |b| > 1 {
      assert Midpoint(a, b) == [b[0]];
      if a != [] {
        IndexOrder(a[0], b[0]);
        IndexOrder('0', a[0]);
      }
    } else {
      var sa := if a == [] then [] else a[1..];
      MidpointNoTrailingZero(sa, []);
      assert Midpoint(a, b) == [Digit(digitA)] + Midpoint(sa, []);
    }
  }

  /** After a prefix walk that strips something, the rests still satisfy
      the caller's promise. */
  lemma StripKeepsOrder(padA: bool, a: string, b: string)
    requires AllDigits(a) && AllDigits(b) && NoTrailingZero(b)
    requires b != [] && Less(a, b) && StripLen(padA, a, b) > 0
    ensures b[StripLen(padA, a, b)..] != []
    ensures Less(a[Min(StripLen(padA, a, b), |a|)..], b[StripLen(padA, a, b)..])
  {
    var n := StripLen(padA, a, b);
    StripLenFacts(padA, a, b);
    var p := b[..n];
    var a', b' := a[Min(n, |a|)..], b[n..];
    assert b == p + b';
    if n <= |a| {
      assert a == p + a';
      LessCommonPrefix(p, a', b');
    }
  }

  // ---------------------------------------------------------------------
  // The code as written

  /** As written, the walk stops at the end of "1", so midpoint("1", "101")
      is "1" + midpoint("", "01") = "10", which ends in '0'. */
  lemma MidpointAsWrittenTrailingZero()
    ensures MidpointBy(false, "1", "101") == "10"
    ensures !NoTrailingZero(MidpointBy(false, "1", "101"))
  {
    var a, b := "1", "101";
    assert StripLen(false, [], "01") == 0;
    assert MidpointBy(false, [], "01") == "0";
    assert b[1..] == "01" && a[1..] == [];
    assert StripLen(false, a, b) == 1;
    assert MidpointBy(false, a, b) == b[..1] + MidpointBy(false, [], "01");
  }

  /** With the padded walk the same call strips "10" and returns "100V". */
  lemma MidpointPaddedExample()
    ensures Midpoint("1", "101") == "100V"
  {
    var a, b := "1", "101";
    MidpointBelowOne(true);
    assert b[2..] == "1" && a[1..] == [];
    assert StripLen(true, [], b[1..]) == 1;
    assert StripLen(true, a, b) == 2;
  }

  /** midpoint("", "1") is "0" followed by the midpoint of the open line. */
  lemma MidpointBelowOne(padA: bool)
    ensures MidpointBy(padA, [], "1") == "0V"
  {
    assert MidpointBy(padA, [], []) == "V";
    assert StripLen(padA, [], "1") == 0;
  }
}
