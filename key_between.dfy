/** KeyBetween (fracdex.go:14-100): a key strictly between two keys, either
    of which may be left open.

    The function follows the Go code branch by branch: validate the bounds,
    reject a >= b, then pick the answer from the integer parts -- the
    integer part just below or above, or an integer part followed by the
    midpoint of fractional parts.  `fixed` chooses between the code as
    written and the corrected code that the rest of the model uses (see
    KeyBetween below). */
module Fracdex {
  import opened Base62
  import opened LexOrder
  import opened Errors
  import opened IntCodec
  import opened IntArith
  import opened Midpoints

  /** KeyBetween with both corrections (`fixed`) or without them: the
      midpoint walk pads `a` with zeros, and a decrement that lands on the
      sentinel smallestInt appends a midpoint instead of returning it. */
  function KeyBetweenBy(fixed: bool, a: string, b: string): (r: Result<string>)
    requires AllDigits(a) && AllDigits(b)
    ensures r.Ok? ==> r.value != []
  {
    if a != [] && ValidateOrderKey(a).Fail? then Err(ValidateOrderKey(a).error)
    else if b != [] && ValidateOrderKey(b).Fail? then Err(ValidateOrderKey(b).error)
    else if a != [] && b != [] && !Less(a, b) then Err(RangeInvalid(a, b))
    else if a == [] then
      if b == [] then Ok(Zero)
      else
        match GetIntPart(b)
        case Err(e) => Err(e)
        case Ok(ib) =>
          var fb := b[|ib|..];
          if ib == SmallestInt then Ok(ib + MidpointBy(fixed, [], fb))
          else if Less(ib, b) then Ok(ib)
          else
            match PrevInt(ib)
            case Err(e) => Err(e)
            case Ok(res) =>
              if res == [] then Err(RangeUnderflow)
              else if fixed && res == SmallestInt then Ok(res + MidpointBy(fixed, [], []))
              else Ok(res)
    else if b == [] then
      match GetIntPart(a)
      case Err(e) => Err(e)
      case Ok(ia) =>
        var fa := a[|ia|..];
        match NextInt(ia)
        case Err(e) => Err(e)
        case Ok(i) => if i == [] then Ok(ia + MidpointBy(fixed, fa, [])) else Ok(i)
    else
      match GetIntPart(a)
      case Err(e) => Err(e)
      case Ok(ia) =>
        var fa := a[|ia|..];
        match GetIntPart(b)
        case Err(e) => Err(e)
        case Ok(ib) =>
          var fb := b[|ib|..];
          if ia == ib then Ok(ia + MidpointBy(fixed, fa, fb))
          else
            match NextInt(ia)
            case Err(e) => Err(e)
            case Ok(i) =>
              if i == [] then Err(RangeOverflow)
              else if Less(i, b) then Ok(i)
              else Ok(ia + MidpointBy(fixed, fa, []))
  }

  /** KeyBetween as the rest of the model uses it: corrected.  It succeeds
      exactly on valid bounds, and then returns a valid key strictly between
      them. */
  function KeyBetween(a: string, b: string): (r: Result<string>)
    requires AllDigits(a) && AllDigits(b)
    ensures r.Ok? <==> ValidBounds(a, b)
    ensures r.Ok? ==> Between(a, r.value, b)
  {
    KeyBetweenCorrect(a, b);
    KeyBetweenBy(true, a, b)
  }

  /** KeyBetween exactly as fracdex.go:18-100 is written.  It succeeds on
      the same bounds and its result is ordered between them, but it need
      not be a valid key (see AsWrittenTrailingZero). */
  function KeyBetweenAsWritten(a: string, b: string): (r: Result<string>)
    requires AllDigits(a) && AllDigits(b)
    ensures r.Ok? <==> ValidBounds(a, b)
    ensures r.Ok? ==> Ordered(a, r.value, b)
  {
    KeyBetweenErrors(false, a, b);
    if ValidBounds(a, b) then AsWrittenOrdered(a, b); KeyBetweenBy(false, a, b)
    else KeyBetweenBy(false, a, b)
  }

  /** The bounds KeyBetween accepts: each is open or an order key, and a
      closed lower bound sorts before a closed upper bound. */
  predicate ValidBounds(a: string, b: string) {
    && (a == [] || IsOrderKey(a))
    && (b == [] || IsOrderKey(b))
    && (a != [] && b != [] ==> Less(a, b))
  }

  /** `k` sorts strictly between the bounds; an open bound constrains
      nothing. */
  predicate Ordered(a: string, k: string, b: string) {
    && (a != [] ==> Less(a, k))
    && (b != [] ==> Less(k, b))
  }

  /** `k` is an order key strictly between the bounds. */
  predicate Between(a: string, k: string, b: string) {
    IsOrderKey(k) && Ordered(a, k, b)
  }

  // ---------------------------------------------------------------------
  // Errors

  /** The error KeyBetween reports, in the order the Go code checks: an
      invalid lower bound, an invalid upper bound, bounds out of order.  No
      other error is reachable: the integer part of a validated key exists,
      and the range underflow and overflow branches are dead. */
  lemma KeyBetweenErrors(fixed: bool, a: string, b: string)
    requires AllDigits(a) && AllDigits(b)
    ensures a != [] && !IsOrderKey(a) ==>
      KeyBetweenBy(fixed, a, b) == Err(ValidateOrderKey(a).error)
    ensures (a == [] || IsOrderKey(a)) && b != [] && !IsOrderKey(b) ==>
      KeyBetweenBy(fixed, a, b) == Err(ValidateOrderKey(b).error)
    ensures IsOrderKey(a) && IsOrderKey(b) && !Less(a, b) ==>
      KeyBetweenBy(fixed, a, b) == Err(RangeInvalid(a, b))
  {
  }

  /** The corrected KeyBetween succeeds exactly on valid bounds, and then
      returns an order key strictly between them.  (The code as written
      keeps the ordering but not the validity: AsWrittenOrdered below.) */
  lemma KeyBetweenCorrect(a: string, b: string)
    requires AllDigits(a) && AllDigits(b)
    ensures KeyBetweenBy(true, a, b).Ok? <==> ValidBounds(a, b)
    ensures KeyBetweenBy(true, a, b).Ok? ==> Between(a, KeyBetweenBy(true, a, b).value, b)
  {
    KeyBetweenErrors(true, a, b);
    if ValidBounds(a, b) {
      if a == [] && b == [] {
        BothOpen();
      } else if a == [] {
        BelowUpper(b);
      } else if b == [] {
        AboveLower(a);
      } else {
        InsideBounds(a, b);
      }
    }
  }

  /** The two versions differ only in the keys they return: they fail on
      the same bounds with the same error. */
  lemma AsWrittenSameOutcome(a: string, b: string)
    requires AllDigits(a) && AllDigits(b)
    ensures KeyBetweenAsWritten(a, b).Ok? <==> KeyBetween(a, b).Ok?
    ensures KeyBetween(a, b).Err? ==> KeyBetweenAsWritten(a, b) == KeyBetween(a, b)
  {
  }

  /** The "range underflow" and "range overflow" errors are never returned,
      by either version. */
  lemma NoRangeErrors(fixed: bool, a: string, b: string)
    requires AllDigits(a) && AllDigits(b)
    ensures KeyBetweenBy(fixed, a, b) != Err(RangeUnderflow)
    ensures KeyBetweenBy(fixed, a, b) != Err(RangeOverflow)
  {
    KeyBetweenErrors(fixed, a, b);
    KeyBetweenCorrect(a, b);
    AsWrittenSameOutcome(a, b);
  }

  // ---------------------------------------------------------------------
  // The cases of KeyBetweenCorrect

  lemma BothOpen()
    ensures KeyBetweenBy(true, [], []) == Ok(Zero) && IsOrderKey(Zero)
  {
  }

  /** An integer part followed by a fractional part that does not end in '0'
      is an order key, unless it is the sentinel itself. */
  lemma KeyFromParts(i: string, f: string)
    requires IsIntPart(i) && AllDigits(i) && AllDigits(f) && NoTrailingZero(f)
    requires f != [] || i != SmallestInt
    ensures IsOrderKey(i + f) && GetIntPart(i + f) == Ok(i) && FracPart(i + f) == f
  {
    if f != [] {
      assert (i + f)[0] == i[0] && |i + f| > |i|;
      assert SmallestInt[0] == 'A' && |SmallestInt| == 27;
    }
    OrderKeyFromParts(i, f);
  }

  /** Only an open lower bound: the case split of fracdex.go:36-58. */
  lemma BelowUpper(b: string)
    requires IsOrderKey(b)
    ensures KeyBetweenBy(true, [], b).Ok? && Between([], KeyBetweenBy(true, [], b).value, b)
  {
    OrderKeyParts(b);
    var ib := GetIntPart(b).value;
    if ib == SmallestInt {
      BelowSentinel(b);
    } else if Less(ib, b) {
      BelowIntPart(b);
    } else {
      BelowDecrement(b);
    }
  }

  /** b's integer part is the sentinel: append a midpoint below b's
      fractional part. */
  lemma BelowSentinel(b: string)
    requires IsOrderKey(b) && GetIntPart(b).Ok? && GetIntPart(b).value == SmallestInt
    ensures KeyBetweenBy(true, [], b).Ok? && Between([], KeyBetweenBy(true, [], b).value, b)
  {
    OrderKeyParts(b);
    var ib, fb := GetIntPart(b).value, FracPart(b);
    var m := Midpoint([], fb);
    assert KeyBetweenBy(true, [], b) == Ok(ib + m);
    MidpointBetween(true, [], fb);
    MidpointNoTrailingZero([], fb);
    KeyFromParts(ib, m);
    LessCommonPrefix(ib, m, fb);
  }

  /** b has a fractional part: its integer part alone sorts below it. */
  lemma BelowIntPart(b: string)
    requires IsOrderKey(b) && GetIntPart(b).Ok?
    requires GetIntPart(b).value != SmallestInt && Less(GetIntPart(b).value, b)
    ensures KeyBetweenBy(true, [], b) == Ok(GetIntPart(b).value)
    ensures Between([], GetIntPart(b).value, b)
  {
    OrderKeyParts(b);
    var ib := GetIntPart(b).value;
    assert ib + [] == ib;
    KeyFromParts(ib, []);
  }

  /** b is a bare integer part: the one below it, which exists because b is
      not the sentinel. */
  lemma BelowDecrement(b: string)
    requires IsOrderKey(b) && GetIntPart(b).Ok?
    requires GetIntPart(b).value != SmallestInt && !Less(GetIntPart(b).value, b)
    ensures KeyBetweenBy(true, [], b).Ok? && Between([], KeyBetweenBy(true, [], b).value, b)
  {
    OrderKeyParts(b);
    var ib, fb := GetIntPart(b).value, FracPart(b);
    if fb != [] {
      LessProperPrefix(ib, fb);
    }
    assert b == ib;
    PrevIntPredecessor(ib);
    var res := PrevInt(ib).value;
    if res == SmallestInt {
      BelowDecrementToSentinel(ib, res);
    } else {
      assert KeyBetweenBy(true, [], b) == Ok(res);
      assert res + [] == res;
      KeyFromParts(res, []);
    }
  }

  /** The corrected branch: the integer part below b is the sentinel, so a
      midpoint is appended to it. */
  lemma BelowDecrementToSentinel(b: string, res: string)
    requires IsOrderKey(b) && IsIntPart(b) && b != SmallestInt
    requires PrevInt(b) == Ok(res) && res == SmallestInt
    requires IsIntPart(res) && AllDigits(res) && Less(res, b)
    ensures KeyBetweenBy(true, [], b).Ok? && Between([], KeyBetweenBy(true, [], b).value, b)
  {
    assert b[..|b|] == b && b[|b|..] == [];
    IntPartUnique(b, b);
    LessIrreflexive(b);
    var m := Midpoint([], []);
    assert KeyBetweenBy(true, [], b) == Ok(res + m);
    MidpointNoTrailingZero([], []);
    KeyFromParts(res, m);
    DistinctIntPartsDiverge(res, b);
    assert b + [] == b;
    LessBeyondDivergence(res, b, m, []);
  }

  /** Only an open upper bound: the case split of fracdex.go:60-75. */
  lemma AboveLower(a: string)
    requires IsOrderKey(a)
    ensures KeyBetweenBy(true, a, []).Ok? && Between(a, KeyBetweenBy(true, a, []).value, [])
  {
    OrderKeyParts(a);
    var ia := GetIntPart(a).value;
    NextIntSuccessor(ia);
    if NextInt(ia).value == [] {
      AboveLargest(a);
    } else {
      AboveNext(a);
    }
  }

  /** a's integer part is the largest: append a midpoint above a's
      fractional part. */
  lemma AboveLargest(a: string)
    requires IsOrderKey(a) && GetIntPart(a).Ok? && NextInt(GetIntPart(a).value) == Ok([])
    ensures KeyBetweenBy(true, a, []).Ok? && Between(a, KeyBetweenBy(true, a, []).value, [])
  {
    OrderKeyParts(a);
    var ia, fa := GetIntPart(a).value, FracPart(a);
    var m := Midpoint(fa, []);
    assert KeyBetweenBy(true, a, []) == Ok(ia + m);
    MidpointAbove(ia, fa);
  }

  /** The integer part of a followed by a midpoint above a's fractional part
      is an order key above a. */
  lemma MidpointAbove(ia: string, fa: string)
    requires IsIntPart(ia) && AllDigits(ia) && AllDigits(fa)
    ensures IsOrderKey(ia + Midpoint(fa, [])) && Less(ia + fa, ia + Midpoint(fa, []))
  {
    var m := Midpoint(fa, []);
    MidpointBetween(true, fa, []);
    MidpointNoTrailingZero(fa, []);
    KeyFromParts(ia, m);
    LessCommonPrefix(ia, fa, m);
  }

  /** Otherwise the next integer part is above a. */
  lemma AboveNext(a: string)
    requires IsOrderKey(a) && GetIntPart(a).Ok?
    requires NextInt(GetIntPart(a).value).Ok? && NextInt(GetIntPart(a).value).value != []
    ensures KeyBetweenBy(true, a, []) == Ok(NextInt(GetIntPart(a).value).value)
    ensures Between(a, NextInt(GetIntPart(a).value).value, [])
  {
    OrderKeyParts(a);
    NextAbove(a);
  }

  /** The integer part after a's is an order key above a. */
  lemma NextAbove(a: string)
    requires IsOrderKey(a) && GetIntPart(a).Ok?
    requires NextInt(GetIntPart(a).value).Ok? && NextInt(GetIntPart(a).value).value != []
    ensures IsOrderKey(NextInt(GetIntPart(a).value).value)
    ensures Less(a, NextInt(GetIntPart(a).value).value)
  {
    OrderKeyParts(a);
    var ia, fa := GetIntPart(a).value, FracPart(a);
    NextIntSuccessor(ia);
    var i := NextInt(ia).value;
    ExtremeIntParts(i);
    assert i + [] == i;
    KeyFromParts(i, []);
    DistinctIntPartsDiverge(ia, i);
    LessBeyondDivergence(ia, i, fa, []);
  }

  /** Both bounds closed: the case split of fracdex.go:77-99. */
  lemma InsideBounds(a: string, b: string)
    requires IsOrderKey(a) && IsOrderKey(b) && Less(a, b)
    ensures KeyBetweenBy(true, a, b).Ok? && Between(a, KeyBetweenBy(true, a, b).value, b)
  {
    OrderKeyParts(a);
    OrderKeyParts(b);
    if GetIntPart(a).value == GetIntPart(b).value {
      InsideSameIntPart(a, b);
    } else {
      InsideDistinctIntParts(a, b);
    }
  }

  /** Equal integer parts: the midpoint of the fractional parts. */
  lemma InsideSameIntPart(a: string, b: string)
    requires IsOrderKey(a) && IsOrderKey(b) && Less(a, b)
    requires GetIntPart(a).Ok? && GetIntPart(b).Ok? && GetIntPart(a).value == GetIntPart(b).value
    ensures KeyBetweenBy(true, a, b).Ok? && Between(a, KeyBetweenBy(true, a, b).value, b)
  {
    OrderKeyParts(a);
    OrderKeyParts(b);
    var i, fa, fb := GetIntPart(a).value, FracPart(a), FracPart(b);
    var m := Midpoint(fa, fb);
    assert KeyBetweenBy(true, a, b) == Ok(i + m);
    LessCommonPrefix(i, fa, fb);
    MidpointBetween(true, fa, fb);
    MidpointNoTrailingZero(fa, fb);
    KeyFromParts(i, m);
    LessCommonPrefix(i, fa, m);
    LessCommonPrefix(i, m, fb);
  }

  /** Different integer parts: the next integer part if it is below b,
      otherwise a midpoint above a's fractional part. */
  lemma InsideDistinctIntParts(a: string, b: string)
    requires IsOrderKey(a) && IsOrderKey(b) && Less(a, b)
    requires GetIntPart(a).Ok? && GetIntPart(b).Ok? && GetIntPart(a).value != GetIntPart(b).value
    ensures KeyBetweenBy(true, a, b).Ok? && Between(a, KeyBetweenBy(true, a, b).value, b)
  {
    OrderKeyParts(a);
    OrderKeyParts(b);
    var ia, fa, ib, fb := GetIntPart(a).value, FracPart(a), GetIntPart(b).value, FracPart(b);
    DistinctIntPartsDiverge(ia, ib);
    LessBeyondDivergence(ia, ib, fa, fb);
    ExtremeIntParts(ib);
    NextIntSuccessor(ia);
    var i := NextInt(ia).value;
    if Less(i, b) {
      assert KeyBetweenBy(true, a, b) == Ok(i);
      NextAbove(a);
    } else {
      var m := Midpoint(fa, []);
      assert KeyBetweenBy(true, a, b) == Ok(ia + m);
      MidpointAbove(ia, fa);
      LessBeyondDivergence(ia, ib, m, fb);
    }
  }

  // ---------------------------------------------------------------------
  // The code as written keeps the ordering promise

  /** On valid bounds the code as written succeeds with a key strictly
      between them, as the comment at fracdex.go:14-17 promises; only the
      validity of that key is lost (see the findings below). */
  lemma AsWrittenOrdered(a: string, b: string)
    requires AllDigits(a) && AllDigits(b) && ValidBounds(a, b)
    ensures KeyBetweenBy(false, a, b).Ok?
    ensures Ordered(a, KeyBetweenBy(false, a, b).value, b)
  {
    if a == [] && b != [] {
      AsWrittenBelow(b);
    } else if a != [] && b == [] {
      AsWrittenAbove(a);
    } else if a != [] {
      OrderKeyParts(a);
      OrderKeyParts(b);
      if GetIntPart(a).value == GetIntPart(b).value {
        AsWrittenInsideSameIntPart(a, b);
      } else {
        AsWrittenInsideDistinctIntParts(a, b);
      }
    }
  }

  /** Only an upper bound: the code as written returns a key below it. */
  lemma AsWrittenBelow(b: string)
    requires IsOrderKey(b)
    ensures KeyBetweenBy(false, [], b).Ok? && Less(KeyBetweenBy(false, [], b).value, b)
  {
    OrderKeyParts(b);
    var ib, fb := GetIntPart(b).value, FracPart(b);
    if ib == SmallestInt {
      assert fb != [] by {
        assert b == ib + fb;
        SentinelIsNotKey();
      }
      var m := MidpointBy(false, [], fb);
      assert KeyBetweenBy(false, [], b) == Ok(ib + m);
      MidpointBetween(false, [], fb);
      LessCommonPrefix(ib, m, fb);
    } else if !Less(ib, b) {
      if fb != [] {
        LessProperPrefix(ib, fb);
      }
      assert b == ib;
      PrevIntPredecessor(ib);
    }
  }

  /** Only a lower bound: the code as written returns a key above it. */
  lemma AsWrittenAbove(a: string)
    requires IsOrderKey(a)
    ensures KeyBetweenBy(false, a, []).Ok? && Less(a, KeyBetweenBy(false, a, []).value)
  {
    OrderKeyParts(a);
    var ia, fa := GetIntPart(a).value, FracPart(a);
    NextIntSuccessor(ia);
    if NextInt(ia).value == [] {
      var m := MidpointBy(false, fa, []);
      assert KeyBetweenBy(false, a, []) == Ok(ia + m);
      MidpointBetween(false, fa, []);
      LessCommonPrefix(ia, fa, m);
    } else {
      NextAbove(a);
    }
  }

  /** Equal integer parts: the unpadded midpoint of the fractional parts
      still lies strictly between them. */
  lemma AsWrittenInsideSameIntPart(a: string, b: string)
    requires IsOrderKey(a) && IsOrderKey(b) && Less(a, b)
    requires GetIntPart(a).Ok? && GetIntPart(b).Ok? && GetIntPart(a).value == GetIntPart(b).value
    ensures KeyBetweenBy(false, a, b).Ok? && Ordered(a, KeyBetweenBy(false, a, b).value, b)
  {
    OrderKeyParts(a);
    OrderKeyParts(b);
    var i, fa, fb := GetIntPart(a).value, FracPart(a), FracPart(b);
    var m := MidpointBy(false, fa, fb);
    assert KeyBetweenBy(false, a, b) == Ok(i + m);
    LessCommonPrefix(i, fa, fb);
    MidpointBetween(false, fa, fb);
    LessCommonPrefix(i, fa, m);
    LessCommonPrefix(i, m, fb);
  }

  /** Different integer parts: the next integer part, or a's integer part
      followed by an unpadded midpoint above a's fraction. */
  lemma AsWrittenInsideDistinctIntParts(a: string, b: string)
    requires IsOrderKey(a) && IsOrderKey(b) && Less(a, b)
    requires GetIntPart(a).Ok? && GetIntPart(b).Ok? && GetIntPart(a).value != GetIntPart(b).value
    ensures KeyBetweenBy(false, a, b).Ok? && Ordered(a, KeyBetweenBy(false, a, b).value, b)
  {
    OrderKeyParts(a);
    OrderKeyParts(b);
    var ia, fa, ib, fb := GetIntPart(a).value, FracPart(a), GetIntPart(b).value, FracPart(b);
    DistinctIntPartsDiverge(ia, ib);
    LessBeyondDivergence(ia, ib, fa, fb);
    ExtremeIntParts(ib);
    NextIntSuccessor(ia);
    var i := NextInt(ia).value;
    if Less(i, b) {
      assert KeyBetweenBy(false, a, b) == Ok(i);
      NextAbove(a);
    } else {
      var m := MidpointBy(false, fa, []);
      assert KeyBetweenBy(false, a, b) == Ok(ia + m);
      MidpointBetween(false, fa, []);
      LessCommonPrefix(ia, fa, m);
      LessBeyondDivergence(ia, ib, m, fb);
    }
  }

  // ---------------------------------------------------------------------
  // Findings: the code as written returns keys it would itself reject

  /** An open lower bound and a bare integer part above smallestInt: the
      integer part below it, or, corrected, smallestInt followed by a
      midpoint when that is where the decrement lands. */
  lemma BelowBareIntPart(fixed: bool, b: string)
    requires IsIntPart(b) && AllDigits(b) && b != SmallestInt
    ensures PrevInt(b).Ok? && PrevInt(b).value != []
    ensures KeyBetweenBy(fixed, [], b) ==
      if fixed && PrevInt(b).value == SmallestInt then Ok(SmallestInt + MidpointBy(true, [], []))
      else Ok(PrevInt(b).value)
  {
    assert b + [] == b && b[..|b|] == b && b[|b|..] == [];
    KeyFromParts(b, []);
    IntPartUnique(b, b);
    LessIrreflexive(b);
    PrevIntPredecessor(b);
  }

  /** smallestInt is the sentinel no key may equal. */
  lemma SentinelIsNotKey()
    ensures !IsOrderKey(SmallestInt)
  {
    SmallestIsIntPart();
  }

  /** As written, the open lower bound and the bound secondSmallestInt give
      smallestInt, a key KeyBetween rejects; corrected, smallestInt + "V". */
  lemma AsWrittenReturnsSentinel()
    ensures ValidBounds([], SecondSmallestInt)
    ensures KeyBetweenAsWritten([], SecondSmallestInt) == Ok(SmallestInt)
    ensures !IsOrderKey(SmallestInt)
    ensures KeyBetween([], SecondSmallestInt) == Ok(SmallestInt + "V")
  {
    var b := SecondSmallestInt;
    ExtremeRanks();
    ExtremeIntParts(b);
    assert b + [] == b;
    KeyFromParts(b, []);
    PrevIntPredecessor(b);
    ExtremeIntParts(PrevInt(b).value);
    BelowBareIntPart(false, b);
    BelowBareIntPart(true, b);
    SentinelIsNotKey();
    OpenMidpoint(true);
  }

  /** midpoint("", "") is the middle digit 'V' (31 of 0..62). */
  lemma OpenMidpoint(padA: bool)
    ensures MidpointBy(padA, [], []) == "V"
  {
  }

  /** With equal integer parts both versions take the midpoint of the
      fractional parts. */
  lemma SameIntPartResult(fixed: bool, i: string, fa: string, fb: string)
    requires IsIntPart(i) && AllDigits(i) && AllDigits(fa) && AllDigits(fb)
    requires NoTrailingZero(fa) && NoTrailingZero(fb) && (fa != [] || i != SmallestInt)
    requires Less(fa, fb)
    ensures KeyBetweenBy(fixed, i + fa, i + fb) == Ok(i + MidpointBy(fixed, fa, fb))
  {
    KeyFromParts(i, fa);
    KeyFromParts(i, fb);
    LessCommonPrefix(i, fa, fb);
  }

  /** As written, "a01" and "a0101" give "a010", whose fractional part ends
      in '0'; corrected, "a0100V". */
  lemma AsWrittenTrailingZero()
    ensures ValidBounds("a01", "a0101")
    ensures KeyBetweenAsWritten("a01", "a0101") == Ok("a010")
    ensures !IsOrderKey("a010")
    ensures KeyBetween("a01", "a0101") == Ok("a0100V")
  {
    TrailingZeroBounds();
    TrailingZeroResult(false);
    TrailingZeroResult(true);
    MidpointAsWrittenTrailingZero();
    MidpointPaddedExample();
    ZeroEndedFraction("a0", "10");
    TrailingZeroStrings();
  }

  /** Both versions keep the common integer part "a0" of "a01" and "a0101". */
  lemma TrailingZeroResult(fixed: bool)
    ensures KeyBetweenBy(fixed, "a01", "a0101") == Ok("a0" + MidpointBy(fixed, "1", "101"))
  {
    TrailingZeroBounds();
    SameIntPartResult(fixed, "a0", "1", "101");
    TrailingZeroStrings();
  }

  lemma TrailingZeroStrings()
    ensures "a0" + "1" == "a01" && "a0" + "101" == "a0101"
    ensures "a0" + "10" == "a010" && "a0" + "100V" == "a0100V"
  {
  }

  lemma TrailingZeroBounds()
    ensures IsIntPart("a0") && AllDigits("a0") && AllDigits("1") && AllDigits("101")
    ensures NoTrailingZero("1") && NoTrailingZero("101") && Less("1", "101")
    ensures ValidBounds("a01", "a0101")
  {
    KeyFromParts("a0", "1");
    KeyFromParts("a0", "101");
    LessProperPrefix("1", "01");
    LessCommonPrefix("a0", "1", "101");
    assert "a0" + "1" == "a01" && "a0" + "101" == "a0101";
  }

  /** The same cause below the sentinel: as written, the open lower bound
      and smallestInt + "01" give smallestInt + "0", whose fractional part
      ends in '0'; corrected, smallestInt + "00V". */
  lemma AsWrittenSentinelTrailingZero()
    ensures ValidBounds([], SmallestInt + "01")
    ensures KeyBetweenAsWritten([], SmallestInt + "01") == Ok(SmallestInt + "0")
    ensures !IsOrderKey(SmallestInt + "0")
    ensures KeyBetween([], SmallestInt + "01") == Ok(SmallestInt + "00V")
  {
    SmallestIsIntPart();
    KeyFromParts(SmallestInt, "01");
    SentinelFractionMidpoints();
    ZeroEndedFraction(SmallestInt, "0");
    assert SmallestInt + ("0" + "0V") == SmallestInt + "00V";
  }

  /** Below "01", the unpadded midpoint stops at "0"; the padded one walks
      past the '0' and continues below "1". */
  lemma SentinelFractionMidpoints()
    ensures MidpointBy(false, [], "01") == "0"
    ensures MidpointBy(true, [], "01") == "0" + "0V"
  {
    assert StripLen(false, [], "01") == 0;
    PaddedBelowZeroOne();
  }

  lemma PaddedBelowZeroOne()
    ensures MidpointBy(true, [], "01") == "0" + "0V"
  {
    assert "01"[1..] == "1" && "01"[..1] == "0";
    assert StripLen(true, [], "01") == 1;
    MidpointBelowOne(true);
  }

  /** An integer part followed by a fraction ending in '0' is not a key. */
  lemma ZeroEndedFraction(i: string, f: string)
    requires IsIntPart(i) && f != [] && f[|f| - 1] == '0'
    ensures !IsOrderKey(i + f)
  {
    assert (i + f)[..|i|] == i;
    IntPartUnique(i, i + f);
    assert (i + f)[|i|..] == f;
  }
}
