/** Increment and decrement of integer parts (fracdex.go:207-280).

    An integer part is read as a number: the head picks a magnitude class and
    the digits after it are a base62 numeral inside that class.  Classes are
    ordered by head character ('A' < … < 'Z' < 'a' < … < 'z') and class k holds
    62^DigitCount(k) numbers, so Rank below numbers all integer parts
    0, 1, 2, … in the order of the strings themselves (RankOrder).
    incrementInt and decrementInt are then "Rank plus one" and "Rank minus
    one" (NextIntSuccessor, PrevIntPredecessor). */
module IntArith {
  import opened Base62
  import opened LexOrder
  import opened Errors
  import opened IntCodec

  /** The largest integer part: head 'z' and 26 digits 'z'. */
  const MaxDigits: nat := 26
  const LargestInt: string := ['z'] + Repeat('z', MaxDigits)

  /** The integer part just above smallestInt: head 'A', 25 zeros and a '1'. */
  const SecondSmallestInt: string := ['A'] + Repeat('0', 25) + ['1']

  /** The integer part just below Zero. */
  const LastOfZ: string := "Zz"

  // ---------------------------------------------------------------------
  // Digit strings as numbers

  function Pow62(n: nat): (p: nat)
    ensures p >= 1
  {
    if n == 0 then 1 else 62 * Pow62(n - 1)
  }

  /** a * 62^n, by repeated multiplication by 62, so that no product of two
      unknowns ever reaches the solver. */
  function Scale(a: nat, n: nat): (s: nat) {
    if n == 0 then a else 62 * Scale(a, n - 1)
  }

  lemma {:induction false} ScaleSucc(a: nat, n: nat)
    ensures Scale(a + 1, n) == Scale(a, n) + Pow62(n)
  {
    if n > 0 {
      ScaleSucc(a, n - 1);
    }
  }

  lemma {:induction false} ScaleMono(a: nat, b: nat, n: nat)
    requires a <= b
    ensures Scale(a, n) <= Scale(b, n)
  {
    if n > 0 {
      ScaleMono(a, b, n - 1);
    }
  }

  lemma {:induction false} ScaleRadix(n: nat)
    ensures Scale(62, n) == Pow62(n + 1)
  {
    if n > 0 {
      ScaleRadix(n - 1);
    }
  }

  lemma {:induction false} ScaleZero(n: nat)
    ensures Scale(0, n) == 0
  {
    if n > 0 {
      ScaleZero(n - 1);
    }
  }

  /** One positional step: a digit scaled by 62^n, plus less than 62^n, is
      less than 62^(n+1) and less than the next digit scaled. */
  lemma DigitStep(a: nat, n: nat, r: nat)
    requires a < 62 && r < Pow62(n)
    ensures Scale(a, n) + r < Pow62(n + 1)
    ensures Scale(a, n) + r < Scale(a + 1, n)
  {
    ScaleSucc(a, n);
    ScaleMono(a + 1, 62, n);
    ScaleRadix(n);
  }

  /** Only the top digit followed by the top remainder reaches 62^(n+1) - 1. */
  lemma TopDigit(a: nat, n: nat, r: nat)
    requires a < 62 && r < Pow62(n)
    ensures Scale(a, n) + r == Pow62(n + 1) - 1 ==> a == 61 && r == Pow62(n) - 1
  {
    ScaleSucc(61, n);
    ScaleRadix(n);
    if a <= 60 {
      ScaleMono(a, 60, n);
      ScaleSucc(60, n);
    }
  }

  /** The number a base62 digit string denotes, most significant digit first. */
  function Value(d: string): (v: nat)
    requires AllDigits(d)
  {
    if d == [] then 0
    else
      var rest := Value(d[1..]);
      Scale(IndexOf(d[0]), |d| - 1) + rest
  }

  /** A numeral of n digits denotes less than 62^n. */
  lemma {:induction false} ValueBound(d: string)
    requires AllDigits(d)
    ensures Value(d) < Pow62(|d|)
    decreases |d|
  {
    if d != [] {
      ValueBound(d[1..]);
      DigitStep(IndexOf(d[0]), |d| - 1, Value(d[1..]));
    }
  }

  lemma ValueCons(c: char, t: string)
    requires IsDigit(c) && AllDigits(t)
    ensures AllDigits([c] + t)
    ensures Value([c] + t) == Scale(IndexOf(c), |t|) + Value(t)
  {
    var d := [c] + t;
    assert d[0] == c && d[1..] == t && |d| - 1 == |t|;
    assert AllDigits(d) by {
      forall k | 0 <= k < |d|
        ensures IsDigit(d[k])
      {
        if k > 0 {
          assert d[k] == t[k - 1];
        }
      }
    }
  }

  lemma {:induction false} ValueAppend(s: string, c: char)
    requires AllDigits(s) && IsDigit(c)
    ensures AllDigits(s + [c])
    ensures Value(s + [c]) == 62 * Value(s) + IndexOf(c)
    decreases |s|
  {
    if s != [] {
      var sc := s + [c];
      assert sc[0] == s[0] && sc[1..] == s[1..] + [c] && |sc| - 1 == |s|;
      ValueAppend(s[1..], c);
    }
  }

  /** Only the all-'0' string denotes zero... */
  lemma {:induction false} ValueOfZeros(n: nat)
    ensures AllDigits(Repeat('0', n)) && Value(Repeat('0', n)) == 0
  {
    if n > 0 {
      assert Repeat('0', n)[1..] == Repeat('0', n - 1);
      ValueOfZeros(n - 1);
      ScaleZero(n - 1);
    }
  }

  /** ... and the all-'z' string denotes the largest number of its length. */
  lemma {:induction false} ValueOfAllZ(n: nat)
    ensures AllDigits(Repeat('z', n)) && Value(Repeat('z', n)) == Pow62(n) - 1
  {
    if n > 0 {
      assert Repeat('z', n)[1..] == Repeat('z', n - 1);
      ValueOfAllZ(n - 1);
      ScaleSucc(61, n - 1);
      ScaleRadix(n - 1);
    }
  }

  /** Dropping the leading digit of a numeral; if the numeral was all 'z',
      so is the rest. */
  lemma ValueDropFirst(d: string)
    requires AllDigits(d) && d != []
    ensures Value(d[1..]) <= Value(d)
    ensures Value(d) == Pow62(|d|) - 1 ==> Value(d[1..]) == Pow62(|d| - 1) - 1
  {
    ValueBound(d[1..]);
    DropArith(IndexOf(d[0]), |d| - 1, Value(d[1..]), Value(d));
  }

  lemma DropArith(a: nat, n: nat, v: nat, w: nat)
    requires a < 62 && v < Pow62(n) && w == Scale(a, n) + v
    ensures v <= w && (w == Pow62(n + 1) - 1 ==> v == Pow62(n) - 1)
  {
    TopDigit(a, n, v);
  }

  /** Value(d) split at its most significant digit. */
  lemma ValueSplit(d: string)
    requires AllDigits(d) && d != []
    ensures Value(d) == Scale(IndexOf(d[0]), |d| - 1) + Value(d[1..])
    ensures Value(d[1..]) < Pow62(|d| - 1)
  {
    ValueBound(d[1..]);
  }

  /** For numerals of one length, string order is numeric order. */
  lemma {:induction false} ValueOrder(s: string, t: string)
    requires AllDigits(s) && AllDigits(t) && |s| == |t|
    ensures Less(s, t) <==> Value(s) < Value(t)
    decreases |s|
  {
    if s != [] {
      ValueOrder(s[1..], t[1..]);
      IndexOrder(s[0], t[0]);
      ValueSplit(s);
      ValueSplit(t);
      OrderArith(IndexOf(s[0]), IndexOf(t[0]), |s| - 1, Value(s[1..]), Value(t[1..]));
      OrderArith(IndexOf(t[0]), IndexOf(s[0]), |s| - 1, Value(t[1..]), Value(s[1..]));
    }
  }

  /** Numbers with a smaller leading digit are smaller; with equal leading
      digits, the rest decides. */
  lemma OrderArith(a: nat, b: nat, n: nat, v: nat, w: nat)
    requires a < 62 && b < 62 && v < Pow62(n) && w < Pow62(n)
    ensures a < b ==> Scale(a, n) + v < Scale(b, n) + w
    ensures a == b ==> (Scale(a, n) + v < Scale(b, n) + w <==> v < w)
  {
    if a < b {
      DigitStep(a, n, v);
      ScaleMono(a + 1, b, n);
    }
  }

  // ---------------------------------------------------------------------
  // The carry and borrow loops as functions

  /** The digits of `d` plus one, and whether the carry left the most
      significant digit: the loop of incrementInt (fracdex.go:216-225). */
  function AddOne(d: string): (r: (string, bool))
    requires AllDigits(d)
    ensures |r.0| == |d| && AllDigits(r.0)
  {
    if d == [] then ([], true)
    else
      var rest := AddOne(d[1..]);
      if !rest.1 then ([d[0]] + rest.0, false)
      else if IndexOf(d[0]) + 1 == Radix then (['0'] + rest.0, true)
      else ([Digit(IndexOf(d[0]) + 1)] + rest.0, false)
  }

  /** The digits of `d` minus one, and whether the borrow left the most
      significant digit: the loop of decrementInt (fracdex.go:252-261). */
  function SubOne(d: string): (r: (string, bool))
    requires AllDigits(d)
    ensures |r.0| == |d| && AllDigits(r.0)
  {
    if d == [] then ([], true)
    else
      var rest := SubOne(d[1..]);
      if !rest.1 then ([d[0]] + rest.0, false)
      else if IndexOf(d[0]) - 1 == -1 then ([Digit(Radix - 1)] + rest.0, true)
      else ([Digit(IndexOf(d[0]) - 1)] + rest.0, false)
  }

  /** AddOne is base62 addition of one; the carry is worth 62^|d|. */
  lemma {:induction false} AddOneValue(d: string)
    requires AllDigits(d)
    ensures Value(AddOne(d).0) + (if AddOne(d).1 then Pow62(|d|) else 0) == Value(d) + 1
    ensures AddOne(d).1 <==> Value(d) == Pow62(|d|) - 1
    decreases |d|
  {
    if d != [] {
      AddOneValue(d[1..]);
      var rest := AddOne(d[1..]);
      var a := IndexOf(d[0]);
      if !rest.1 {
        AddOneNoCarryIn(d);
      } else if a + 1 == Radix {
        AddOneWrap(d);
      } else {
        AddOneBump(d);
      }
    }
  }

  lemma AddOneNoCarryIn(d: string)
    requires AllDigits(d) && d != [] && !AddOne(d[1..]).1
    requires Value(AddOne(d[1..]).0) == Value(d[1..]) + 1
    requires Value(d[1..]) != Pow62(|d| - 1) - 1
    ensures !AddOne(d).1 && Value(AddOne(d).0) == Value(d) + 1
    ensures Value(d) != Pow62(|d|) - 1
  {
    AddOneNoCarryInShape(d);
    ConsUp(d, AddOne(d[1..]).0);
  }

  lemma AddOneNoCarryInShape(d: string)
    requires AllDigits(d) && d != [] && !AddOne(d[1..]).1
    ensures AddOne(d) == ([d[0]] + AddOne(d[1..]).0, false)
  {
  }

  /** One more in the lower digits, short of their top value, is one more
      overall, short of the top value. */
  lemma ConsUp(d: string, u: string)
    requires AllDigits(d) && d != [] && AllDigits(u) && |u| == |d| - 1
    requires Value(u) == Value(d[1..]) + 1 && Value(d[1..]) != Pow62(|d| - 1) - 1
    ensures AllDigits([d[0]] + u)
    ensures Value([d[0]] + u) == Value(d) + 1 && Value(d) != Pow62(|d|) - 1
  {
    ValueSplit(d);
    ValueCons(d[0], u);
    TopDigit(IndexOf(d[0]), |d| - 1, Value(d[1..]));
  }

  lemma AddOneWrap(d: string)
    requires AllDigits(d) && d != [] && AddOne(d[1..]).1 && IndexOf(d[0]) + 1 == Radix
    requires Value(AddOne(d[1..]).0) + Pow62(|d| - 1) == Value(d[1..]) + 1
    requires Value(d[1..]) == Pow62(|d| - 1) - 1
    ensures AddOne(d).1 && Value(AddOne(d).0) + Pow62(|d|) == Value(d) + 1
    ensures Value(d) == Pow62(|d|) - 1
  {
    AddOneWrapShape(d);
    ConsWrapUp(d, AddOne(d[1..]).0);
  }

  lemma AddOneWrapShape(d: string)
    requires AllDigits(d) && d != [] && AddOne(d[1..]).1 && IndexOf(d[0]) + 1 == Radix
    ensures AddOne(d) == (['0'] + AddOne(d[1..]).0, true)
  {
  }

  /** The top value under a leading 'z' is the top value, and zeros under a
      leading '0' are zero. */
  lemma ConsWrapUp(d: string, u: string)
    requires AllDigits(d) && d != [] && IndexOf(d[0]) == Radix - 1 && AllDigits(u) && |u| == |d| - 1
    requires Value(u) == 0 && Value(d[1..]) == Pow62(|d| - 1) - 1
    ensures AllDigits(['0'] + u)
    ensures Value(d) == Pow62(|d|) - 1
    ensures Value(['0'] + u) + Pow62(|d|) == Value(d) + 1
  {
    ValueSplit(d);
    DigitRoundTrip(0);
    ValueCons('0', u);
    TopValue(|d| - 1);
    ScaleZero(|d| - 1);
  }

  /** The top digit followed by the top remainder is the top value. */
  lemma TopValue(n: nat)
    ensures Scale(61, n) + (Pow62(n) - 1) == Pow62(n + 1) - 1
  {
    ScaleSucc(61, n);
    ScaleRadix(n);
  }

  lemma AddOneBump(d: string)
    requires AllDigits(d) && d != [] && AddOne(d[1..]).1 && IndexOf(d[0]) + 1 < Radix
    requires Value(AddOne(d[1..]).0) + Pow62(|d| - 1) == Value(d[1..]) + 1
    requires Value(d[1..]) == Pow62(|d| - 1) - 1
    ensures !AddOne(d).1 && Value(AddOne(d).0) == Value(d) + 1
    ensures Value(d) != Pow62(|d|) - 1
  {
    AddOneBumpShape(d);
    ConsBump(d, AddOne(d[1..]).0);
  }

  lemma AddOneBumpShape(d: string)
    requires AllDigits(d) && d != [] && AddOne(d[1..]).1 && IndexOf(d[0]) + 1 < Radix
    ensures AddOne(d) == ([Digit(IndexOf(d[0]) + 1)] + AddOne(d[1..]).0, false)
  {
  }

  /** Raising the leading digit by one turns the top remainder into zeros. */
  lemma ConsBump(d: string, u: string)
    requires AllDigits(d) && d != [] && IndexOf(d[0]) + 1 < Radix && AllDigits(u) && |u| == |d| - 1
    requires Value(u) == 0 && Value(d[1..]) == Pow62(|d| - 1) - 1
    ensures AllDigits([Digit(IndexOf(d[0]) + 1)] + u)
    ensures Value([Digit(IndexOf(d[0]) + 1)] + u) == Value(d) + 1 && Value(d) != Pow62(|d|) - 1
  {
    var a := IndexOf(d[0]);
    ValueSplit(d);
    DigitRoundTrip(a + 1);
    ValueCons(Digit(a + 1), u);
    BumpArith(a, |d| - 1, Value(d[1..]), Value(u));
  }

  lemma BumpArith(a: nat, n: nat, vd: nat, vu: nat)
    requires a + 1 < 62 && vu == 0 && vd == Pow62(n) - 1
    ensures Scale(a + 1, n) + vu == Scale(a, n) + vd + 1
    ensures Scale(a, n) + vd != Pow62(n + 1) - 1
  {
    ScaleSucc(a, n);
    TopDigit(a, n, vd);
  }

  /** SubOne is base62 subtraction of one; the borrow is worth 62^|d|. */
  lemma {:induction false} SubOneValue(d: string)
    requires AllDigits(d)
    ensures Value(SubOne(d).0) == Value(d) - 1 + (if SubOne(d).1 then Pow62(|d|) else 0)
    ensures SubOne(d).1 <==> Value(d) == 0
    decreases |d|
  {
    if d != [] {
      SubOneValue(d[1..]);
      var rest := SubOne(d[1..]);
      var a := IndexOf(d[0]);
      if !rest.1 {
        SubOneNoBorrowIn(d);
      } else if a == 0 {
        SubOneWrap(d);
      } else {
        SubOneLower(d);
      }
    }
  }

  lemma SubOneNoBorrowIn(d: string)
    requires AllDigits(d) && d != [] && !SubOne(d[1..]).1
    requires Value(SubOne(d[1..]).0) == Value(d[1..]) - 1
    requires Value(d[1..]) != 0
    ensures !SubOne(d).1 && Value(SubOne(d).0) == Value(d) - 1
    ensures Value(d) != 0
  {
    SubOneNoBorrowInShape(d);
    ConsDown(d, SubOne(d[1..]).0);
  }

  lemma SubOneNoBorrowInShape(d: string)
    requires AllDigits(d) && d != [] && !SubOne(d[1..]).1
    ensures SubOne(d) == ([d[0]] + SubOne(d[1..]).0, false)
  {
  }

  /** One less in the lower digits is one less overall. */
  lemma ConsDown(d: string, u: string)
    requires AllDigits(d) && d != [] && AllDigits(u) && |u| == |d| - 1
    requires Value(u) == Value(d[1..]) - 1 && Value(d[1..]) != 0
    ensures AllDigits([d[0]] + u)
    ensures Value([d[0]] + u) == Value(d) - 1 && Value(d) != 0
  {
    ValueSplit(d);
    ValueCons(d[0], u);
  }

  lemma SubOneWrap(d: string)
    requires AllDigits(d) && d != [] && SubOne(d[1..]).1 && IndexOf(d[0]) == 0
    requires Value(SubOne(d[1..]).0) == Value(d[1..]) - 1 + Pow62(|d| - 1)
    requires Value(d[1..]) == 0
    ensures SubOne(d).1 && Value(SubOne(d).0) == Value(d) - 1 + Pow62(|d|)
    ensures Value(d) == 0
  {
    SubOneWrapShape(d);
    ConsWrapDown(d, SubOne(d[1..]).0);
  }

  lemma SubOneWrapShape(d: string)
    requires AllDigits(d) && d != [] && SubOne(d[1..]).1 && IndexOf(d[0]) == 0
    ensures SubOne(d) == ([Digit(Radix - 1)] + SubOne(d[1..]).0, true)
  {
  }

  /** Zeros under a leading '0' are zero, and the top digit over the top
      remainder is the top value. */
  lemma ConsWrapDown(d: string, u: string)
    requires AllDigits(d) && d != [] && IndexOf(d[0]) == 0 && AllDigits(u) && |u| == |d| - 1
    requires Value(u) == Pow62(|d| - 1) - 1 && Value(d[1..]) == 0
    ensures AllDigits([Digit(Radix - 1)] + u)
    ensures Value(d) == 0
    ensures Value([Digit(Radix - 1)] + u) == Value(d) - 1 + Pow62(|d|)
  {
    ValueSplit(d);
    DigitRoundTrip(Radix - 1);
    ValueCons(Digit(Radix - 1), u);
    TopValue(|d| - 1);
    ScaleZero(|d| - 1);
  }

  lemma SubOneLower(d: string)
    requires AllDigits(d) && d != [] && SubOne(d[1..]).1 && IndexOf(d[0]) > 0
    requires Value(SubOne(d[1..]).0) == Value(d[1..]) - 1 + Pow62(|d| - 1)
    requires Value(d[1..]) == 0
    ensures !SubOne(d).1 && Value(SubOne(d).0) == Value(d) - 1
    ensures Value(d) != 0
  {
    SubOneLowerShape(d);
    ConsLower(d, SubOne(d[1..]).0);
  }

  lemma SubOneLowerShape(d: string)
    requires AllDigits(d) && d != [] && SubOne(d[1..]).1 && IndexOf(d[0]) > 0
    ensures SubOne(d) == ([Digit(IndexOf(d[0]) - 1)] + SubOne(d[1..]).0, false)
  {
  }

  /** Lowering the leading digit by one turns zeros into the top value. */
  lemma ConsLower(d: string, u: string)
    requires AllDigits(d) && d != [] && IndexOf(d[0]) > 0 && AllDigits(u) && |u| == |d| - 1
    requires Value(u) == Pow62(|d| - 1) - 1 && Value(d[1..]) == 0
    ensures AllDigits([Digit(IndexOf(d[0]) - 1)] + u)
    ensures Value([Digit(IndexOf(d[0]) - 1)] + u) == Value(d) - 1 && Value(d) != 0
  {
    var a := IndexOf(d[0]);
    ValueSplit(d);
    DigitRoundTrip(a - 1);
    ValueCons(Digit(a - 1), u);
    LowerArith(a, |d| - 1, Value(d[1..]), Value(u));
  }

  lemma LowerArith(a: nat, n: nat, vt: nat, vu: nat)
    requires a > 0 && vt == 0 && vu == Pow62(n) - 1
    ensures Scale(a - 1, n) + vu == Scale(a, n) + vt - 1 && Scale(a, n) + vt != 0
  {
    ScaleSucc(a - 1, n);
  }

  /** Once the carry stops, the digits to its left are copied unchanged. */
  lemma {:induction false} AddOneKeepsPrefix(p: string, s: string)
    requires AllDigits(p) && AllDigits(s) && !AddOne(s).1
    ensures AllDigits(p + s) && AddOne(p + s) == (p + AddOne(s).0, false)
    decreases |p|
  {
    if p == [] {
      assert p + s == s && p + AddOne(s).0 == AddOne(s).0;
    } else {
      assert (p + s)[1..] == p[1..] + s;
      AddOneKeepsPrefix(p[1..], s);
      assert [p[0]] + (p[1..] + AddOne(s).0) == p + AddOne(s).0;
    }
  }

  /** Once the borrow stops, the digits to its left are copied unchanged. */
  lemma {:induction false} SubOneKeepsPrefix(p: string, s: string)
    requires AllDigits(p) && AllDigits(s) && !SubOne(s).1
    ensures AllDigits(p + s) && SubOne(p + s) == (p + SubOne(s).0, false)
    decreases |p|
  {
    if p == [] {
      assert p + s == s && p + SubOne(s).0 == SubOne(s).0;
    } else {
      assert (p + s)[1..] == p[1..] + s;
      SubOneKeepsPrefix(p[1..], s);
      assert [p[0]] + (p[1..] + SubOne(s).0) == p + SubOne(s).0;
    }
  }

  // ---------------------------------------------------------------------
  // Magnitude classes and the rank of an integer part

  /** Position of a head in character order: 'A'..'Z' are 0..25, 'a'..'z'
      are 26..51. */
  function HeadIndex(h: char): (k: nat)
    requires IsHead(h)
    ensures k < 52
  {
    if h <= 'Z' then h as int - 'A' as int else h as int - 'a' as int + 26
  }

  /** The number of digits after a head of index `k`. */
  function DigitCount(k: nat): (n: nat)
    requires k < 52
    ensures 1 <= n <= 26
  {
    if k < 26 then 26 - k else k - 25
  }

  /** How many integer parts have a head of index below `k`. */
  function Offset(k: nat): (o: nat)
    requires k <= 52
  {
    if k == 0 then 0 else Offset(k - 1) + Pow62(DigitCount(k - 1))
  }

  /** The number of integer parts. */
  const HeadCount: nat := 52

  function Total(): (t: nat) {
    Offset(HeadCount)
  }

  /** The position of `x` among all integer parts in sorted order. */
  function Rank(x: string): (r: nat)
    requires IsIntPart(x) && AllDigits(x)
  {
    Offset(HeadIndex(x[0])) + Value(x[1..])
  }

  lemma HeadFacts(h: char)
    requires IsHead(h)
    ensures IntLen(h).value == DigitCount(HeadIndex(h)) + 1
  {
  }

  lemma HeadOrder(h1: char, h2: char)
    requires IsHead(h1) && IsHead(h2)
    ensures h1 < h2 <==> HeadIndex(h1) < HeadIndex(h2)
    ensures h1 == h2 <==> HeadIndex(h1) == HeadIndex(h2)
  {
  }

  lemma {:induction false} OffsetGrows(j: nat, k: nat)
    requires j < k <= 52
    ensures Offset(j) + Pow62(DigitCount(j)) <= Offset(k)
    decreases k
  {
    if j + 1 < k {
      OffsetGrows(j, k - 1);
    }
  }

  lemma RankBelowNextClass(x: string)
    requires IsIntPart(x) && AllDigits(x)
    ensures Rank(x) < Offset(HeadIndex(x[0])) + Pow62(DigitCount(HeadIndex(x[0])))
  {
    HeadFacts(x[0]);
    ValueBound(x[1..]);
  }

  /** Rank is an order isomorphism: integer parts sort as their ranks do. */
  lemma RankOrder(x: string, y: string)
    requires IsIntPart(x) && AllDigits(x) && IsIntPart(y) && AllDigits(y)
    ensures Less(x, y) <==> Rank(x) < Rank(y)
  {
    HeadFacts(x[0]);
    HeadFacts(y[0]);
    HeadOrder(x[0], y[0]);
    if x[0] == y[0] {
      ValueOrder(x[1..], y[1..]);
    } else if x[0] < y[0] {
      RankBelowNextClass(x);
      OffsetGrows(HeadIndex(x[0]), HeadIndex(y[0]));
    } else {
      RankBelowNextClass(y);
      OffsetGrows(HeadIndex(y[0]), HeadIndex(x[0]));
    }
  }

  /** Different integer parts have different ranks. */
  lemma RankInjective(x: string, y: string)
    requires IsIntPart(x) && AllDigits(x) && IsIntPart(y) && AllDigits(y)
    requires Rank(x) == Rank(y)
    ensures x == y
  {
    RankOrder(x, y);
    RankOrder(y, x);
    LessTrichotomy(x, y);
  }

  /** Ranks run from 0 (smallestInt) to Total() - 1 (LargestInt). */
  lemma RankRange(x: string)
    requires IsIntPart(x) && AllDigits(x)
    ensures Rank(x) < Total()
  {
    RankBelowNextClass(x);
    if HeadIndex(x[0]) < 51 {
      OffsetGrows(HeadIndex(x[0]), 52);
    }
  }

  lemma ExtremeRanks()
    ensures IsIntPart(SmallestInt) && AllDigits(SmallestInt) && Rank(SmallestInt) == 0
    ensures IsIntPart(SecondSmallestInt) && AllDigits(SecondSmallestInt) && Rank(SecondSmallestInt) == 1
    ensures IsIntPart(LargestInt) && AllDigits(LargestInt) && Rank(LargestInt) == Total() - 1
  {
    SmallestRank();
    SecondSmallestRank();
    LargestRank();
  }

  lemma SmallestRank()
    ensures IsIntPart(SmallestInt) && AllDigits(SmallestInt) && Rank(SmallestInt) == 0
  {
    SmallestIsIntPart();
    SmallestRankValue();
  }

  lemma SmallestIsIntPart()
    ensures IsIntPart(SmallestInt) && AllDigits(SmallestInt)
  {
  }

  lemma SmallestRankValue()
    requires IsIntPart(SmallestInt) && AllDigits(SmallestInt)
    ensures Rank(SmallestInt) == 0
  {
    ValueOfZeros(26);
    RankOfCons('A', Repeat('0', 26));
  }

  lemma SecondSmallestRank()
    ensures IsIntPart(SecondSmallestInt) && AllDigits(SecondSmallestInt) && Rank(SecondSmallestInt) == 1
  {
    assert SecondSmallestInt == ['A'] + (Repeat('0', 25) + ['1']);
    SecondSmallestIsIntPart();
    SecondSmallestRankValue();
  }

  lemma SecondSmallestIsIntPart()
    ensures IsIntPart(SecondSmallestInt) && AllDigits(SecondSmallestInt)
  {
  }

  lemma SecondSmallestRankValue()
    requires IsIntPart(SecondSmallestInt) && AllDigits(SecondSmallestInt)
    ensures Rank(SecondSmallestInt) == 1
  {
    assert SecondSmallestInt == ['A'] + (Repeat('0', 25) + ['1']);
    ValueOfZerosThenOne(25);
    RankOfCons('A', Repeat('0', 25) + ['1']);
  }

  lemma ValueOfZerosThenOne(n: nat)
    ensures AllDigits(Repeat('0', n) + ['1']) && Value(Repeat('0', n) + ['1']) == 1
  {
    ValueOfZeros(n);
    ValueAppend(Repeat('0', n), '1');
  }

  lemma LargestRank()
    ensures IsIntPart(LargestInt) && AllDigits(LargestInt) && Rank(LargestInt) == Total() - 1
  {
    LargestIsIntPart();
    LargestRankValue();
  }

  lemma LargestIsIntPart()
    ensures IsIntPart(LargestInt) && AllDigits(LargestInt)
  {
  }

  lemma LargestRankValue()
    requires IsIntPart(LargestInt) && AllDigits(LargestInt)
    ensures Rank(LargestInt) == Total() - 1
  {
    ValueOfAllZ(MaxDigits);
    RankOfCons('z', Repeat('z', MaxDigits));
    OffsetStep(HeadCount);
  }

  /** No integer part sorts below smallestInt or above LargestInt. */
  lemma ExtremeIntParts(x: string)
    requires IsIntPart(x) && AllDigits(x)
    ensures !Less(x, SmallestInt) && !Less(LargestInt, x)
    ensures Rank(x) == 0 <==> x == SmallestInt
    ensures Rank(x) == 1 <==> x == SecondSmallestInt
    ensures Rank(x) == Total() - 1 <==> x == LargestInt
  {
    ExtremeRanks();
    RankRange(x);
    RankOrder(x, SmallestInt);
    RankOrder(LargestInt, x);
    if Rank(x) == 0 { RankInjective(x, SmallestInt); }
    if Rank(x) == 1 { RankInjective(x, SecondSmallestInt); }
    if Rank(x) == Total() - 1 { RankInjective(x, LargestInt); }
  }

  // ---------------------------------------------------------------------
  // incrementInt and decrementInt

  /** What incrementInt returns (fracdex.go:208-242): the error of
      validateInt, or the next integer part, or "" when `x` is the largest. */
  function NextInt(x: string): (r: Result<string>)
    requires x != [] && AllDigits(x)
    ensures r.Err? <==> !IsIntPart(x)
    ensures r.Err? ==> r.error == ValidateInt(x).error
  {
    match ValidateInt(x)
    case Fail(e) => Err(e)
    case Pass =>
      var head := x[0];
      var (digs, carry) := AddOne(x[1..]);
      if !carry then Ok([head] + digs)
      else if head == 'Z' then Ok(Zero)
      else if head == 'z' then Ok([])
      else
        var h := (head as int + 1) as char;
        if h > 'a' then Ok([h] + digs + ['0']) else Ok([h] + digs[1..])
  }

  /** What decrementInt returns (fracdex.go:244-280): the error of
      validateInt, or the previous integer part, or "" when `x` is
      smallestInt. */
  function PrevInt(x: string): (r: Result<string>)
    requires x != [] && AllDigits(x)
    ensures r.Err? <==> !IsIntPart(x)
    ensures r.Err? ==> r.error == ValidateInt(x).error
  {
    match ValidateInt(x)
    case Fail(e) => Err(e)
    case Pass =>
      var head := x[0];
      var (digs, borrow) := SubOne(x[1..]);
      if !borrow then Ok([head] + digs)
      else if head == 'a' then Ok(['Z', Digit(Radix - 1)])
      else if head == 'A' then Ok([])
      else
        var h := (head as int - 1) as char;
        if h < 'Z' then Ok([h] + digs + [Digit(Radix - 1)]) else Ok([h] + digs[1..])
  }

  /** incrementInt returns the next integer part in sort order, or "" exactly
      when there is none. */
  lemma NextIntSuccessor(x: string)
    requires IsIntPart(x) && AllDigits(x)
    ensures NextInt(x).Ok?
    ensures NextInt(x).value == [] <==> x == LargestInt
    ensures NextInt(x).value != [] ==>
      && IsIntPart(NextInt(x).value)
      && AllDigits(NextInt(x).value)
      && Rank(NextInt(x).value) == Rank(x) + 1
      && Less(x, NextInt(x).value)
  {
    NextIntRank(x);
    var r := NextInt(x).value;
    if r != [] {
      RankOrder(x, r);
    }
  }

  /** The rank of an integer part assembled from a head and its digits. */
  lemma RankOfCons(h: char, ds: string)
    requires IsHead(h) && AllDigits(ds) && |ds| + 1 == IntLen(h).value
    ensures IsIntPart([h] + ds) && AllDigits([h] + ds)
    ensures Rank([h] + ds) == Offset(HeadIndex(h)) + Value(ds)
  {
    assert ([h] + ds)[1..] == ds;
  }

  lemma NextIntRank(x: string)
    requires IsIntPart(x) && AllDigits(x)
    ensures NextInt(x).Ok?
    ensures NextInt(x).value == [] <==> x == LargestInt
    ensures NextInt(x).value != [] ==>
      && IsIntPart(NextInt(x).value)
      && AllDigits(NextInt(x).value)
      && Rank(NextInt(x).value) == Rank(x) + 1
  {
    var carry := AddOne(x[1..]).1;
    if !carry {
      NextIntSameClass(x);
    } else if x[0] == 'z' {
      NextIntAtTop(x);
    } else {
      NextIntNextClass(x);
    }
    var r := NextInt(x).value;
    if r != [] {
      RankRange(r);
      ExtremeRanks();
    }
  }

  /** No carry out of the digits: the head stays. */
  lemma NextIntSameClass(x: string)
    requires IsIntPart(x) && AllDigits(x) && !AddOne(x[1..]).1
    ensures NextInt(x).Ok? && NextInt(x).value != []
    ensures IsIntPart(NextInt(x).value) && AllDigits(NextInt(x).value)
    ensures Rank(NextInt(x).value) == Rank(x) + 1
  {
    var digs := AddOne(x[1..]).0;
    AddOneValue(x[1..]);
    HeadFacts(x[0]);
    assert NextInt(x) == Ok([x[0]] + digs);
    RankOfCons(x[0], digs);
  }

  /** The carry leaves the largest class: no successor. */
  lemma NextIntAtTop(x: string)
    requires IsIntPart(x) && AllDigits(x) && AddOne(x[1..]).1 && x[0] == 'z'
    ensures NextInt(x) == Ok([]) && x == LargestInt
  {
    AddOneValue(x[1..]);
    HeadFacts(x[0]);
    OffsetStep(HeadCount);
    ExtremeIntParts(x);
  }

  /** The carry moves to the next class: its first integer part. */
  lemma NextIntNextClass(x: string)
    requires IsIntPart(x) && AllDigits(x) && AddOne(x[1..]).1 && x[0] != 'z'
    ensures NextInt(x).Ok? && NextInt(x).value != []
    ensures IsIntPart(NextInt(x).value) && AllDigits(NextInt(x).value)
    ensures Rank(NextInt(x).value) == Rank(x) + 1
  {
    if x[0] == 'Z' {
      NextIntToZero(x);
    } else if x[0] >= 'a' {
      NextIntGrowDigits(x);
    } else {
      NextIntDropDigit(x);
    }
  }

  /** Past the largest integer part of head 'Z' comes zero, "a0". */
  lemma NextIntToZero(x: string)
    requires IsIntPart(x) && AllDigits(x) && AddOne(x[1..]).1 && x[0] == 'Z'
    ensures NextInt(x) == Ok(Zero)
    ensures IsIntPart(Zero) && AllDigits(Zero) && Rank(Zero) == Rank(x) + 1
  {
    NextIntCarryAtZ(x);
    CarryRank(x);
    ZeroRank();
  }

  lemma NextIntCarryAtZ(x: string)
    requires IsIntPart(x) && AllDigits(x) && AddOne(x[1..]).1 && x[0] == 'Z'
    ensures NextInt(x) == Ok(Zero)
  {
  }

  /** Zero is the first integer part of head 'a'. */
  lemma ZeroRank()
    ensures IsIntPart(Zero) && AllDigits(Zero) && Rank(Zero) == Offset(HeadIndex('Z') + 1)
  {
    assert Zero == ['a'] + "0";
    ValueCons('0', []);
    RankOfCons('a', "0");
  }

  /** A carry out of the digits leaves them all '0' and reaches the start of
      the next class. */
  lemma CarryRank(x: string)
    requires IsIntPart(x) && AllDigits(x) && AddOne(x[1..]).1 && x[0] != 'z'
    ensures Value(AddOne(x[1..]).0) == 0
    ensures Rank(x) + 1 == Offset(HeadIndex(x[0]) + 1)
  {
    AddOneValue(x[1..]);
    HeadFacts(x[0]);
  }

  lemma NextIntGrowDigits(x: string)
    requires IsIntPart(x) && AllDigits(x) && AddOne(x[1..]).1 && 'a' <= x[0] < 'z'
    ensures NextInt(x).Ok? && NextInt(x).value != []
    ensures IsIntPart(NextInt(x).value) && AllDigits(NextInt(x).value)
    ensures Rank(NextInt(x).value) == Rank(x) + 1
  {
    var digs := AddOne(x[1..]).0;
    var h := (x[0] as int + 1) as char;
    CarryRank(x);
    HeadFacts(x[0]);
    HeadFacts(h);
    assert [h] + digs + ['0'] == [h] + (digs + ['0']);
    assert NextInt(x) == Ok([h] + (digs + ['0']));
    ValueAppend(digs, '0');
    RankOfCons(h, digs + ['0']);
  }

  lemma NextIntDropDigit(x: string)
    requires IsIntPart(x) && AllDigits(x) && AddOne(x[1..]).1 && 'A' <= x[0] < 'Z'
    ensures NextInt(x).Ok? && NextInt(x).value != []
    ensures IsIntPart(NextInt(x).value) && AllDigits(NextInt(x).value)
    ensures Rank(NextInt(x).value) == Rank(x) + 1
  {
    var digs := AddOne(x[1..]).0;
    var h := (x[0] as int + 1) as char;
    CarryRank(x);
    HeadFacts(x[0]);
    HeadFacts(h);
    assert NextInt(x) == Ok([h] + digs[1..]);
    ValueDropFirst(digs);
    RankOfCons(h, digs[1..]);
  }

  /** decrementInt returns the previous integer part in sort order, or ""
      exactly when there is none. */
  lemma PrevIntPredecessor(x: string)
    requires IsIntPart(x) && AllDigits(x)
    ensures PrevInt(x).Ok?
    ensures PrevInt(x).value == [] <==> x == SmallestInt
    ensures PrevInt(x).value != [] ==>
      && IsIntPart(PrevInt(x).value)
      && AllDigits(PrevInt(x).value)
      && Rank(PrevInt(x).value) == Rank(x) - 1
      && Less(PrevInt(x).value, x)
  {
    PrevIntRank(x);
    var r := PrevInt(x).value;
    if r != [] {
      RankOrder(r, x);
    }
  }

  lemma PrevIntRank(x: string)
    requires IsIntPart(x) && AllDigits(x)
    ensures PrevInt(x).Ok?
    ensures PrevInt(x).value == [] <==> x == SmallestInt
    ensures PrevInt(x).value != [] ==>
      && IsIntPart(PrevInt(x).value)
      && AllDigits(PrevInt(x).value)
      && Rank(PrevInt(x).value) == Rank(x) - 1
  {
    var borrow := SubOne(x[1..]).1;
    if !borrow {
      PrevIntSameClass(x);
    } else if x[0] == 'A' {
      PrevIntAtBottom(x);
    } else {
      PrevIntPrevClass(x);
    }
    ExtremeRanks();
  }

  /** No borrow out of the digits: the head stays. */
  lemma PrevIntSameClass(x: string)
    requires IsIntPart(x) && AllDigits(x) && !SubOne(x[1..]).1
    ensures PrevInt(x).Ok? && PrevInt(x).value != []
    ensures IsIntPart(PrevInt(x).value) && AllDigits(PrevInt(x).value)
    ensures Rank(PrevInt(x).value) == Rank(x) - 1
  {
    var digs := SubOne(x[1..]).0;
    SubOneValue(x[1..]);
    HeadFacts(x[0]);
    assert PrevInt(x) == Ok([x[0]] + digs);
    RankOfCons(x[0], digs);
  }

  /** The borrow leaves the smallest class: no predecessor. */
  lemma PrevIntAtBottom(x: string)
    requires IsIntPart(x) && AllDigits(x) && SubOne(x[1..]).1 && x[0] == 'A'
    ensures PrevInt(x) == Ok([]) && x == SmallestInt
  {
    SubOneValue(x[1..]);
    assert Rank(x) == 0;
    ExtremeIntParts(x);
  }

  /** The borrow moves to the previous class: its last integer part. */
  lemma PrevIntPrevClass(x: string)
    requires IsIntPart(x) && AllDigits(x) && SubOne(x[1..]).1 && x[0] != 'A'
    ensures PrevInt(x).Ok? && PrevInt(x).value != []
    ensures IsIntPart(PrevInt(x).value) && AllDigits(PrevInt(x).value)
    ensures Rank(PrevInt(x).value) == Rank(x) - 1
  {
    if x[0] == 'a' {
      PrevIntToLastZ(x);
    } else if x[0] <= 'Z' {
      PrevIntGrowDigits(x);
    } else {
      PrevIntDropDigit(x);
    }
  }

  lemma PrevIntToLastZ(x: string)
    requires IsIntPart(x) && AllDigits(x) && SubOne(x[1..]).1 && x[0] == 'a'
    ensures PrevInt(x) == Ok(LastOfZ)
    ensures IsIntPart(LastOfZ) && AllDigits(LastOfZ) && Rank(LastOfZ) == Rank(x) - 1
  {
    PrevIntBorrowAtA(x);
    BorrowRank(x);
    LastOfZRank();
  }

  lemma PrevIntBorrowAtA(x: string)
    requires IsIntPart(x) && AllDigits(x) && SubOne(x[1..]).1 && x[0] == 'a'
    ensures PrevInt(x) == Ok(LastOfZ)
  {
  }

  /** "Zz" is the last integer part of head 'Z', just below Zero. */
  lemma LastOfZRank()
    ensures IsIntPart(LastOfZ) && AllDigits(LastOfZ)
    ensures Rank(LastOfZ) == Offset(HeadIndex('a') - 1) + Pow62(DigitCount(HeadIndex('a') - 1)) - 1
  {
    assert LastOfZ == ['Z'] + "z";
    ValueCons('z', []);
    RankOfCons('Z', "z");
  }

  /** A borrow out of the digits leaves them all 'z' and reaches the end of
      the previous class. */
  lemma BorrowRank(x: string)
    requires IsIntPart(x) && AllDigits(x) && SubOne(x[1..]).1 && x[0] != 'A'
    ensures Value(SubOne(x[1..]).0) == Pow62(|x| - 1) - 1
    ensures HeadIndex(x[0]) >= 1
    ensures Rank(x) - 1 == Offset(HeadIndex(x[0]) - 1) + Pow62(DigitCount(HeadIndex(x[0]) - 1)) - 1
  {
    SubOneValue(x[1..]);
    HeadAboveFirst(x[0]);
    OffsetStep(HeadIndex(x[0]));
  }

  lemma HeadAboveFirst(h: char)
    requires IsHead(h) && h != 'A'
    ensures HeadIndex(h) >= 1
  {
  }

  lemma OffsetStep(k: nat)
    requires 1 <= k <= 52
    ensures Offset(k) == Offset(k - 1) + Pow62(DigitCount(k - 1))
  {
  }

  lemma PrevIntGrowDigits(x: string)
    requires IsIntPart(x) && AllDigits(x) && SubOne(x[1..]).1 && 'A' < x[0] <= 'Z'
    ensures PrevInt(x).Ok? && PrevInt(x).value != []
    ensures IsIntPart(PrevInt(x).value) && AllDigits(PrevInt(x).value)
    ensures Rank(PrevInt(x).value) == Rank(x) - 1
  {
    var digs := SubOne(x[1..]).0;
    var h := (x[0] as int - 1) as char;
    var top := Digit(Radix - 1);
    DigitRoundTrip(Radix - 1);
    BorrowRank(x);
    HeadFacts(x[0]);
    HeadFacts(h);
    assert [h] + digs + [top] == [h] + (digs + [top]);
    assert PrevInt(x) == Ok([h] + (digs + [top]));
    ValueAppend(digs, top);
    RankOfCons(h, digs + [top]);
  }

  lemma PrevIntDropDigit(x: string)
    requires IsIntPart(x) && AllDigits(x) && SubOne(x[1..]).1 && 'a' < x[0] <= 'z'
    ensures PrevInt(x).Ok? && PrevInt(x).value != []
    ensures IsIntPart(PrevInt(x).value) && AllDigits(PrevInt(x).value)
    ensures Rank(PrevInt(x).value) == Rank(x) - 1
  {
    var digs := SubOne(x[1..]).0;
    var h := (x[0] as int - 1) as char;
    BorrowRank(x);
    HeadFacts(x[0]);
    HeadFacts(h);
    assert PrevInt(x) == Ok([h] + digs[1..]);
    ValueDropFirst(digs);
    RankOfCons(h, digs[1..]);
  }

  // ---------------------------------------------------------------------
  // The imperative code

  /** One step of the carry loop: with a carry coming in at position `i`,
      the digit there either wraps to '0' and passes the carry on, or is
      bumped and absorbs it. */
  lemma AddOneStep(d: string, i: nat)
    requires AllDigits(d) && i < |d| && AddOne(d[i + 1..]).1
    ensures AllDigits(d[i..])
    ensures IndexOf(d[i]) + 1 == Radix ==>
      AddOne(d[i..]) == (['0'] + AddOne(d[i + 1..]).0, true)
    ensures IndexOf(d[i]) + 1 < Radix ==>
      AddOne(d[i..]) == ([Digit(IndexOf(d[i]) + 1)] + AddOne(d[i + 1..]).0, false)
  {
    assert d[i..][0] == d[i] && d[i..][1..] == d[i + 1..];
  }

  /** One step of the borrow loop, the mirror of AddOneStep. */
  lemma SubOneStep(d: string, i: nat)
    requires AllDigits(d) && i < |d| && SubOne(d[i + 1..]).1
    ensures AllDigits(d[i..])
    ensures IndexOf(d[i]) == 0 ==>
      SubOne(d[i..]) == ([Digit(Radix - 1)] + SubOne(d[i + 1..]).0, true)
    ensures IndexOf(d[i]) > 0 ==>
      SubOne(d[i..]) == ([Digit(IndexOf(d[i]) - 1)] + SubOne(d[i + 1..]).0, false)
  {
    assert d[i..][0] == d[i] && d[i..][1..] == d[i + 1..];
  }

  /** The suffix from position 0 is the whole digit string. */
  lemma SuffixFromZero(d: string)
    requires AllDigits(d)
    ensures d[..0] == [] && AddOne(d[0..]) == AddOne(d) && SubOne(d[0..]) == SubOne(d)
  {
    assert d[0..] == d;
  }

  /** Overwriting the last digit of the untouched prefix. */
  lemma ReplaceAt(d: string, t: string, i: nat, c: char)
    requires i < |d|
    ensures (d[..i + 1] + t)[i := c] == d[..i] + ([c] + t)
  {
  }

  /** The carry loop of incrementInt (fracdex.go:216-225): walk the digits
      right to left, turning 'z' into '0' and stopping at the first digit
      that can be bumped. */
  method CarryDigits(d: string) returns (digs: string, carry: bool)
    requires AllDigits(d)
    ensures (digs, carry) == AddOne(d)
  {
    digs := d;
    carry := true;
    var i := |d| - 1;
    while carry && i >= 0
      invariant -1 <= i < |d| && |digs| == |d|
      invariant digs == d[..i + 1] + AddOne(d[i + 1..]).0
      invariant carry == AddOne(d[i + 1..]).1
    {
      AddOneStep(d, i);
      assert digs[i] == d[i];
      var k := IndexOf(digs[i]) + 1;
      var c := if k == Radix then '0' else Base62Digits[k];
      ReplaceAt(d, AddOne(d[i + 1..]).0, i, c);
      digs := digs[i := c];
      carry := k == Radix;
      assert c == (if k == Radix then '0' else Digit(k));
      assert digs == d[..i] + AddOne(d[i..]).0;
      assert carry == AddOne(d[i..]).1;
      i := i - 1;
    }
    if carry {
      assert i == -1;
      SuffixFromZero(d);
      assert digs == AddOne(d).0;
    } else {
      AddOneKeepsPrefix(d[..i + 1], d[i + 1..]);
      assert d[..i + 1] + d[i + 1..] == d;
      assert digs == AddOne(d).0;
    }
  }

  /** The borrow loop of decrementInt (fracdex.go:252-261): walk the digits
      right to left, turning '0' into 'z' and stopping at the first digit
      that can be lowered. */
  method BorrowDigits(d: string) returns (digs: string, borrow: bool)
    requires AllDigits(d)
    ensures (digs, borrow) == SubOne(d)
  {
    digs := d;
    borrow := true;
    var i := |d| - 1;
    while borrow && i >= 0
      invariant -1 <= i < |d| && |digs| == |d|
      invariant digs == d[..i + 1] + SubOne(d[i + 1..]).0
      invariant borrow == SubOne(d[i + 1..]).1
    {
      SubOneStep(d, i);
      assert digs[i] == d[i];
      var k := IndexOf(digs[i]) - 1;
      var c := if k == -1 then Base62Digits[Radix - 1] else Base62Digits[k];
      ReplaceAt(d, SubOne(d[i + 1..]).0, i, c);
      digs := digs[i := c];
      borrow := k == -1;
      assert c == (if k == -1 then Digit(Radix - 1) else Digit(k));
      assert digs == d[..i] + SubOne(d[i..]).0;
      assert borrow == SubOne(d[i..]).1;
      i := i - 1;
    }
    if borrow {
      assert i == -1;
      SuffixFromZero(d);
      assert digs == SubOne(d).0;
      assert borrow == SubOne(d).1;
    } else {
      SubOneKeepsPrefix(d[..i + 1], d[i + 1..]);
      assert d[..i + 1] + d[i + 1..] == d;
      assert digs == SubOne(d).0;
      assert borrow == SubOne(d).1;
    }
  }

  /** incrementInt (fracdex.go:208-242): validate, run the carry loop, then
      fold a carry out of the digits into the head. */
  method IncrementInt(x: string) returns (r: Result<string>)
    requires x != [] && AllDigits(x)
    ensures r == NextInt(x)
    ensures r.Err? <==> !IsIntPart(x)
    ensures r.Ok? ==> (r.value == [] <==> x == LargestInt)
    ensures r.Ok? && r.value != [] ==>
      IsIntPart(r.value) && Rank(r.value) == Rank(x) + 1 && Less(x, r.value)
  {
    var v := ValidateInt(x);
    if v.Fail? {
      return Err(v.error);
    }
    NextIntSuccessor(x);
    var head := x[0];
    var digs, carry := CarryDigits(x[1..]);
    if !carry {
      return Ok([head] + digs);
    }
    if head == 'Z' {
      return Ok(Zero);
    }
    if head == 'z' {
      return Ok([]);
    }
    var h := (head as int + 1) as char;
    if h > 'a' {
      digs := digs + ['0'];
    } else {
      digs := digs[1..];
    }
    assert [h] + digs == NextInt(x).value;
    return Ok([h] + digs);
  }

  /** decrementInt (fracdex.go:244-280): validate, run the borrow loop, then
      fold a borrow out of the digits into the head. */
  method DecrementInt(x: string) returns (r: Result<string>)
    requires x != [] && AllDigits(x)
    ensures r == PrevInt(x)
    ensures r.Err? <==> !IsIntPart(x)
    ensures r.Ok? ==> (r.value == [] <==> x == SmallestInt)
    ensures r.Ok? && r.value != [] ==>
      IsIntPart(r.value) && Rank(r.value) == Rank(x) - 1 && Less(r.value, x)
  {
    var v := ValidateInt(x);
    if v.Fail? {
      return Err(v.error);
    }
    PrevIntPredecessor(x);
    var head := x[0];
    var digs, borrow := BorrowDigits(x[1..]);
    if !borrow {
      return Ok([head] + digs);
    }
    if head == 'a' {
      return Ok(['Z', Base62Digits[Radix - 1]]);
    }
    if head == 'A' {
      return Ok([]);
    }
    var h := (head as int - 1) as char;
    if h < 'Z' {
      digs := digs + [Base62Digits[Radix - 1]];
    } else {
      digs := digs[1..];
    }
    assert [h] + digs == PrevInt(x).value;
    return Ok([h] + digs);
  }
}
