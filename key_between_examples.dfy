/** The expected outputs of TestKeys (fracdex_test.go:10-54).  Every lemma
    takes `fixed` and so holds for KeyBetween as the Go code is written
    (`fixed` false) and for the corrected KeyBetween (`fixed` true).  Each bound is taken apart into its integer
    and fractional parts, and the few increments, decrements and midpoints
    the cases need are computed on their own. */
module FracdexExamples {
  import opened Base62
  import opened LexOrder
  import opened Errors
  import opened IntCodec
  import opened IntArith
  import opened Midpoints
  import opened Fracdex

  // ---------------------------------------------------------------------
  // KeyBetween on bounds given by their parts

  /** The precondition of KeyFromParts: `i + f` is an order key. */
  predicate Parts(i: string, f: string) {
    && IsIntPart(i) && AllDigits(i) && AllDigits(f) && NoTrailingZero(f)
    && (f != [] || i != SmallestInt)
  }

  lemma BelowParts(fixed: bool, i: string, f: string)
    requires Parts(i, f)
    ensures KeyBetweenBy(fixed, [], i + f) ==
      if i == SmallestInt then Ok(i + MidpointBy(fixed, [], f))
      else if f != [] then Ok(i)
      else if fixed && PrevInt(i).value == SmallestInt then Ok(SmallestInt + MidpointBy(true, [], []))
      else Ok(PrevInt(i).value)
  {
    KeyFromParts(i, f);
    assert (i + f)[|i|..] == f;
    if i != SmallestInt && f != [] {
      LessProperPrefix(i, f);
    } else if i != SmallestInt {
      assert i + f == i;
      LessIrreflexive(i);
      PrevIntPredecessor(i);
    }
  }

  lemma AboveParts(fixed: bool, i: string, f: string)
    requires Parts(i, f)
    ensures NextInt(i).Ok?
    ensures KeyBetweenBy(fixed, i + f, []) ==
      if NextInt(i).value == [] then Ok(i + MidpointBy(fixed, f, [])) else Ok(NextInt(i).value)
  {
    KeyFromParts(i, f);
  }

  lemma InsideParts(fixed: bool, ia: string, fa: string, ib: string, fb: string)
    requires Parts(ia, fa) && Parts(ib, fb) && Less(ia + fa, ib + fb)
    ensures NextInt(ia).Ok?
    ensures KeyBetweenBy(fixed, ia + fa, ib + fb) ==
      if ia == ib then Ok(ia + MidpointBy(fixed, fa, fb))
      else if Less(NextInt(ia).value, ib + fb) then Ok(NextInt(ia).value)
      else Ok(ia + MidpointBy(fixed, fa, []))
  {
    KeyFromParts(ia, fa);
    KeyFromParts(ib, fb);
    NextIntSuccessor(ia);
    if ia != ib {
      ExtremeIntParts(ib);
      DistinctIntPartsDiverge(ia, ib);
      LessBeyondDivergence(ia, ib, fa, fb);
    }
  }

  // ---------------------------------------------------------------------
  // Increments, decrements and midpoints the tests need

  lemma NextOfA0()
    ensures NextInt("a0") == Ok("a1")
  {
    assert "a0"[1..] == "0" && "0"[1..] == [];
    assert AddOne([]) == ([], true);
    assert IndexOf('0') == 0 && Digit(1) == '1' && ['1'] + [] == "1";
    assert AddOne("0") == ("1", false);
    assert ['a'] + "1" == "a1";
  }

  lemma NextOfA1()
    ensures NextInt("a1") == Ok("a2")
  {
    assert "a1"[1..] == "1" && "1"[1..] == [];
    assert AddOne([]) == ([], true);
    assert IndexOf('1') == 1 && Digit(2) == '2' && ['2'] + [] == "2";
    assert AddOne("1") == ("2", false);
    assert ['a'] + "2" == "a2";
  }

  lemma NextOfZz()
    ensures NextInt("Zz") == Ok("a0")
  {
    assert "Zz"[1..] == "z" && "z"[1..] == [];
    assert AddOne([]) == ([], true);
    assert IndexOf('z') == 61 && ['0'] + [] == "0";
    assert AddOne("z") == ("0", true);
  }

  lemma NextOfBzz()
    ensures NextInt("bzz") == Ok("c000")
  {
    assert "bzz"[1..] == "zz" && "zz"[1..] == "z" && "z"[1..] == [];
    assert AddOne([]) == ([], true);
    assert IndexOf('z') == 61 && ['0'] + [] == "0" && ['0'] + "0" == "00";
    assert AddOne("z") == ("0", true);
    assert AddOne("zz") == ("00", true);
    assert ['c'] + "00" + ['0'] == "c000";
  }

  lemma PrevOfZz()
    ensures PrevInt("Zz") == Ok("Zy")
  {
    assert "Zz"[1..] == "z" && "z"[1..] == [];
    assert SubOne([]) == ([], true);
    assert IndexOf('z') == 61 && Digit(60) == 'y' && ['y'] + [] == "y";
    assert SubOne("z") == ("y", false);
    assert ['Z'] + "y" == "Zy";
  }

  lemma PrevOfY00()
    ensures PrevInt("Y00") == Ok("Xzzz")
  {
    assert "Y00"[1..] == "00" && "00"[1..] == "0" && "0"[1..] == [];
    assert SubOne([]) == ([], true);
    assert IndexOf('0') == 0 && Digit(61) == 'z' && ['z'] + [] == "z" && ['z'] + "z" == "zz";
    assert SubOne("0") == ("z", true);
    assert SubOne("00") == ("zz", true);
    assert ['X'] + "zz" + ['z'] == "Xzzz";
  }

  /** Half way from 'V' (31) to the end of the line (62) is 'l' (47). */
  lemma MidpointAboveV(padA: bool)
    ensures MidpointBy(padA, "V", []) == "l"
  {
    assert IndexOf('V') == 31 && Digit(47) == 'l';
  }

  /** Half way from nothing to 'V' (31) is 'G' (16). */
  lemma MidpointBelowV(padA: bool)
    ensures MidpointBy(padA, [], "V") == "G"
  {
    assert IndexOf('V') == 31 && Digit(16) == 'G';
  }

  /** Half way from nothing to 'G' (16) is '8'. */
  lemma MidpointBelowG(padA: bool)
    ensures MidpointBy(padA, [], "G") == "8"
  {
    assert IndexOf('G') == 16 && Digit(8) == '8';
  }

  /** Half way from '5' to '9' is '7'. */
  lemma MidpointFiveNine(padA: bool)
    ensures MidpointBy(padA, "5", "9") == "7"
  {
    assert IndexOf('5') == 5 && IndexOf('9') == 9 && Digit(7) == '7';
  }

  /** Adding one to digits ending in 'y' turns the 'y' into 'z'. */
  lemma {:induction false} AddOneLastY(p: string)
    requires AllDigits(p)
    ensures AddOne(p + ['y']) == (p + ['z'], false)
  {
    if p == [] {
      assert p + ['y'] == ['y'] && ['y'][1..] == [] && AddOne([]) == ([], true);
      assert IndexOf('y') == 60 && Digit(61) == 'z' && ['z'] + [] == p + ['z'];
    } else {
      assert (p + ['y'])[1..] == p[1..] + ['y'];
      AddOneLastY(p[1..]);
      assert [p[0]] + (p[1..] + ['z']) == p + ['z'];
    }
  }

  /** The 26 'z's with a final 'y', and the largest integer part. */
  lemma NextOfSecondLargest()
    ensures NextInt(['z'] + Repeat('z', 25) + ['y']) == Ok(LargestInt)
  {
    var x := ['z'] + Repeat('z', 25) + ['y'];
    assert x[1..] == Repeat('z', 25) + ['y'];
    AddOneLastY(Repeat('z', 25));
    assert ['z'] + (Repeat('z', 25) + ['z']) == LargestInt;
  }

  // ---------------------------------------------------------------------
  // The tests, in the order of fracdex_test.go:24-50

  lemma BothOpenExample(fixed: bool)
    ensures KeyBetweenBy(fixed, "", "") == Ok("a0")
  {
  }

  lemma BelowZeroExample(fixed: bool)
    ensures KeyBetweenBy(fixed, "", "a0") == Ok("Zz")
  {
  }

  lemma BelowZzExample(fixed: bool)
    ensures KeyBetweenBy(fixed, "", "Zz") == Ok("Zy")
  {
    BelowParts(fixed, "Zz", []);
    assert "Zz" + [] == "Zz";
    PrevOfZz();
  }

  lemma AboveZeroExample(fixed: bool)
    ensures KeyBetweenBy(fixed, "a0", "") == Ok("a1")
  {
    AboveParts(fixed, "a0", []);
    assert "a0" + [] == "a0";
    NextOfA0();
  }

  lemma AboveOneExample(fixed: bool)
    ensures KeyBetweenBy(fixed, "a1", "") == Ok("a2")
  {
    AboveParts(fixed, "a1", []);
    assert "a1" + [] == "a1";
    NextOfA1();
  }

  lemma ZeroOneExample(fixed: bool)
    ensures KeyBetweenBy(fixed, "a0", "a1") == Ok("a0V")
  {
    InsideParts(fixed, "a0", [], "a1", []);
    assert "a0" + [] == "a0" && "a1" + [] == "a1" && "a0" + "V" == "a0V";
    NextOfA0();
    LessIrreflexive("a1");
    OpenMidpoint(fixed);
  }

  lemma OneTwoExample(fixed: bool)
    ensures KeyBetweenBy(fixed, "a1", "a2") == Ok("a1V")
  {
    InsideParts(fixed, "a1", [], "a2", []);
    assert "a1" + [] == "a1" && "a2" + [] == "a2" && "a1" + "V" == "a1V";
    NextOfA1();
    LessIrreflexive("a2");
    OpenMidpoint(fixed);
  }

  lemma HalfOneExample(fixed: bool)
    ensures KeyBetweenBy(fixed, "a0V", "a1") == Ok("a0l")
  {
    InsideParts(fixed, "a0", "V", "a1", []);
    assert "a0" + "V" == "a0V" && "a1" + [] == "a1" && "a0" + "l" == "a0l";
    NextOfA0();
    LessIrreflexive("a1");
    MidpointAboveV(fixed);
  }

  lemma AcrossHeadsExample(fixed: bool)
    ensures KeyBetweenBy(fixed, "Zz", "a0") == Ok("ZzV")
  {
    InsideParts(fixed, "Zz", [], "a0", []);
    assert "Zz" + [] == "Zz" && "a0" + [] == "a0" && "Zz" + "V" == "ZzV";
    NextOfZz();
    LessIrreflexive("a0");
    OpenMidpoint(fixed);
  }

  lemma ZeroBetweenExample(fixed: bool)
    ensures KeyBetweenBy(fixed, "Zz", "a1") == Ok("a0")
  {
    InsideParts(fixed, "Zz", [], "a1", []);
    assert "Zz" + [] == "Zz" && "a1" + [] == "a1";
    NextOfZz();
  }

  lemma BelowY00Example(fixed: bool)
    ensures KeyBetweenBy(fixed, "", "Y00") == Ok("Xzzz")
  {
    BelowParts(fixed, "Y00", []);
    assert "Y00" + [] == "Y00";
    PrevOfY00();
    assert |SmallestInt| == 27;
  }

  lemma AboveBzzExample(fixed: bool)
    ensures KeyBetweenBy(fixed, "bzz", "") == Ok("c000")
  {
    AboveParts(fixed, "bzz", []);
    assert "bzz" + [] == "bzz";
    NextOfBzz();
  }

  lemma BelowHalfExample(fixed: bool)
    ensures KeyBetweenBy(fixed, "a0", "a0V") == Ok("a0G")
  {
    InsideParts(fixed, "a0", [], "a0", "V");
    assert "a0" + [] == "a0" && "a0" + "V" == "a0V" && "a0" + "G" == "a0G";
    MidpointBelowV(fixed);
  }

  lemma BelowQuarterExample(fixed: bool)
    ensures KeyBetweenBy(fixed, "a0", "a0G") == Ok("a08")
  {
    InsideParts(fixed, "a0", [], "a0", "G");
    assert "a0" + [] == "a0" && "a0" + "G" == "a0G" && "a0" + "8" == "a08";
    MidpointBelowG(fixed);
  }

  lemma SameIntPartExample(fixed: bool)
    ensures KeyBetweenBy(fixed, "b125", "b129") == Ok("b127")
  {
    LessCommonPrefix("b12", "5", "9");
    assert "b12" + "5" == "b125" && "b12" + "9" == "b129" && "b12" + "7" == "b127";
    assert Less("5", "9");
    InsideParts(fixed, "b12", "5", "b12", "9");
    MidpointFiveNine(fixed);
  }

  lemma NextIntBelowExample(fixed: bool)
    ensures KeyBetweenBy(fixed, "a0", "a1V") == Ok("a1")
  {
    InsideParts(fixed, "a0", [], "a1", "V");
    assert "a0" + [] == "a0" && "a1" + "V" == "a1V";
    NextOfA0();
  }

  lemma NextIntAcrossExample(fixed: bool)
    ensures KeyBetweenBy(fixed, "Zz", "a01") == Ok("a0")
  {
    InsideParts(fixed, "Zz", [], "a0", "1");
    assert "Zz" + [] == "Zz" && "a0" + "1" == "a01";
    NextOfZz();
  }

  lemma IntPartBelowExample(fixed: bool)
    ensures KeyBetweenBy(fixed, "", "a0V") == Ok("a0")
  {
    BelowParts(fixed, "a0", "V");
    assert "a0" + "V" == "a0V";
  }

  lemma LongIntPartBelowExample(fixed: bool)
    ensures KeyBetweenBy(fixed, "", "b999") == Ok("b99")
  {
    BelowParts(fixed, "b99", "9");
    assert "b99" + "9" == "b999";
  }

  lemma SentinelBoundExample(fixed: bool)
    ensures KeyBetweenBy(fixed, "", "A00000000000000000000000000") ==
      Err(InvalidKey("A00000000000000000000000000"))
  {
    SmallestIntSpelledOut();
  }

  lemma BelowSentinelExample(fixed: bool)
    ensures KeyBetweenBy(fixed, "", "A000000000000000000000000001") ==
      Ok("A000000000000000000000000000V")
  {
    SmallestIsIntPart();
    BelowParts(fixed, SmallestInt, "1");
    MidpointBelowOne(fixed);
    SmallestIntSpelledOut();
  }

  lemma BelowLargestExample(fixed: bool)
    ensures KeyBetweenBy(fixed, "zzzzzzzzzzzzzzzzzzzzzzzzzzy", "") == Ok("zzzzzzzzzzzzzzzzzzzzzzzzzzz")
  {
    var x := ['z'] + Repeat('z', 25) + ['y'];
    AboveParts(fixed, x, []);
    assert x + [] == x;
    NextOfSecondLargest();
    LargestIntSpelledOut();
  }

  lemma AboveLargestExample(fixed: bool)
    ensures KeyBetweenBy(fixed, "zzzzzzzzzzzzzzzzzzzzzzzzzzz", "") == Ok("zzzzzzzzzzzzzzzzzzzzzzzzzzzV")
  {
    ExtremeRanks();
    AboveParts(fixed, LargestInt, []);
    assert LargestInt + [] == LargestInt;
    NextIntSuccessor(LargestInt);
    OpenMidpoint(fixed);
    LargestIntSpelledOut();
  }

  lemma TrailingZeroExample(fixed: bool)
    ensures KeyBetweenBy(fixed, "a00", "") == Err(InvalidKey("a00"))
    ensures KeyBetweenBy(fixed, "a00", "a1") == Err(InvalidKey("a00"))
  {
    assert "a00"[0] == 'a' && "a00"[..2] == "a0" && "a00"[2..] == "0";
    assert GetIntPart("a00") == Ok("a0");
  }

  lemma InvalidHeadExample(fixed: bool)
    ensures KeyBetweenBy(fixed, "0", "1") == Err(InvalidHead('0'))
  {
  }

  lemma OutOfOrderExample(fixed: bool)
    ensures KeyBetweenBy(fixed, "a1", "a0") == Err(RangeInvalid("a1", "a0"))
  {
  }

  // ---------------------------------------------------------------------
  // The long literals of the tests

  lemma SmallestIntSpelledOut()
    ensures SmallestInt == "A00000000000000000000000000"
    ensures SmallestInt + "1" == "A000000000000000000000000001"
    ensures SmallestInt + "0V" == "A000000000000000000000000000V"
  {
  }

  lemma LargestIntSpelledOut()
    ensures ['z'] + Repeat('z', 25) + ['y'] == "zzzzzzzzzzzzzzzzzzzzzzzzzzy"
    ensures LargestInt == "zzzzzzzzzzzzzzzzzzzzzzzzzzz"
    ensures LargestInt + "V" == "zzzzzzzzzzzzzzzzzzzzzzzzzzzV"
  {
  }
}
