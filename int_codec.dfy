/** The integer part of an order key (fracdex.go:157-205).  Its first
    character, the head, fixes its length: 'a'..'z' give 2..27 characters,
    'A'..'Z' give 27..2 characters.  The rest of the key is the fractional
    part. */
module IntCodec {
  import opened Base62
  import opened LexOrder
  import opened Errors

  /** smallestInt: head 'A' and 26 zero digits.  Not a valid key by itself. */
  const SmallestInt: string := ['A'] + Repeat('0', 26)

  /** zero: the key returned when both bounds are open. */
  const Zero: string := "a0"

  predicate IsHead(c: char) {
    'a' <= c <= 'z' || 'A' <= c <= 'Z'
  }

  /** getIntLen: the length of the integer part that `head` begins. */
  function IntLen(head: char): (r: Result<nat>)
    ensures r.Ok? <==> IsHead(head)
    ensures r.Err? ==> r.error == InvalidHead(head)
    ensures r.Ok? ==> 2 <= r.value <= 27
  {
    if 'a' <= head <= 'z' then Ok(head as int - 'a' as int + 2)
    else if 'A' <= head <= 'Z' then Ok('Z' as int - head as int + 2)
    else Err(InvalidHead(head))
  }

  /** A well-formed integer part: a head and exactly as many characters as
      the head calls for. */
  predicate IsIntPart(x: string) {
    x != [] && IsHead(x[0]) && |x| == IntLen(x[0]).value
  }

  /** getIntPart: the integer part at the front of `key`. */
  function GetIntPart(key: string): (r: Result<string>)
    requires key != []
    ensures r.Ok? <==> IsHead(key[0]) && IntLen(key[0]).value <= |key|
    ensures r.Ok? ==> IsIntPart(r.value) && IsPrefix(r.value, key)
    ensures !IsHead(key[0]) ==> r == Err(InvalidHead(key[0]))
    ensures IsHead(key[0]) && |key| < IntLen(key[0]).value ==> r == Err(InvalidKey(key))
  {
    match IntLen(key[0])
    case Err(e) => Err(e)
    case Ok(n) => if n > |key| then Err(InvalidKey(key)) else Ok(key[..n])
  }

  /** validateInt: `x` is exactly one integer part. */
  function ValidateInt(x: string): (r: Outcome)
    requires x != []
    ensures r.Pass? <==> GetIntPart(x) == Ok(x)
    ensures r.Pass? <==> IsIntPart(x)
    ensures r.Fail? ==> r.error == if IsHead(x[0]) then InvalidIntPart(x) else InvalidHead(x[0])
  {
    match IntLen(x[0])
    case Err(e) => Fail(e)
    case Ok(n) => if |x| != n then Fail(InvalidIntPart(x)) else assert x[..n] == x; Pass
  }

  /** The fractional part of a key whose integer part is well formed. */
  function FracPart(key: string): (f: string)
    requires key != [] && IsHead(key[0]) && IntLen(key[0]).value <= |key|
    ensures key == key[..IntLen(key[0]).value] + f
  {
    key[IntLen(key[0]).value..]
  }

  /** validateOrderKey: `key` is not the sentinel, has a well-formed integer
      part, and its fractional part does not end in '0'. */
  function ValidateOrderKey(key: string): (r: Outcome)
    requires key != []
    ensures r.Pass? <==>
      && key != SmallestInt
      && IsHead(key[0])
      && IntLen(key[0]).value <= |key|
      && NoTrailingZero(FracPart(key))
    ensures key == SmallestInt ==> r == Fail(InvalidKey(key))
    ensures key != SmallestInt && !IsHead(key[0]) ==> r == Fail(InvalidHead(key[0]))
    ensures IsHead(key[0]) && r.Fail? ==> r == Fail(InvalidKey(key))
  {
    if key == SmallestInt then Fail(InvalidKey(key))
    else
      match GetIntPart(key)
      case Err(e) => Fail(e)
      case Ok(i) =>
        var f := key[|i|..];
        if f != [] && f[|f| - 1] == '0' then Fail(InvalidKey(key)) else Pass
  }

  /** A key KeyBetween accepts as a bound, and promises to return. */
  predicate IsOrderKey(k: string) {
    k != [] && AllDigits(k) && ValidateOrderKey(k).Pass?
  }

  /** The head rule: lower-case heads grow the integer part by one character
      per letter, upper-case heads shrink it; 'a' and 'Z' give the shortest
      parts, 'z' and 'A' the longest. */
  lemma IntLenByHead(h1: char, h2: char)
    requires IsHead(h1) && IsHead(h2) && h1 < h2
    ensures 'a' <= h1 ==> IntLen(h2).value == IntLen(h1).value + (h2 as int - h1 as int)
    ensures h2 <= 'Z' ==> IntLen(h1).value == IntLen(h2).value + (h2 as int - h1 as int)
    ensures IntLen('a').value == IntLen('Z').value == 2
    ensures IntLen('z').value == IntLen('A').value == 27
  {
  }

  /** The integer part is self-delimiting: the only prefix of a key that is
      an integer part is the one getIntPart returns. */
  lemma IntPartUnique(p: string, key: string)
    requires IsIntPart(p) && IsPrefix(p, key)
    ensures GetIntPart(key) == Ok(p)
  {
  }

  /** Two different integer parts are never prefixes of one another, so they
      differ at a position inside both. */
  lemma {:induction false} DistinctIntPartsDiverge(x: string, y: string)
    requires IsIntPart(x) && IsIntPart(y) && x != y
    ensures !IsPrefix(x, y) && !IsPrefix(y, x)
  {
    if x[0] == y[0] {
      assert |x| == |y|;
      assert x[..|x|] == x && y[..|y|] == y;
    }
  }

  /** An integer part followed by an allowed fractional part is a key. */
  lemma {:induction false} OrderKeyFromParts(i: string, f: string)
    requires IsIntPart(i) && AllDigits(i + f) && NoTrailingZero(f) && i + f != SmallestInt
    ensures IsOrderKey(i + f)
    ensures GetIntPart(i + f) == Ok(i) && FracPart(i + f) == f
  {
    assert (i + f)[0] == i[0];
    assert (i + f)[..|i|] == i;
    IntPartUnique(i, i + f);
  }

  /** A key splits into its integer part and an allowed fractional part. */
  lemma {:induction false} OrderKeyParts(k: string)
    requires IsOrderKey(k)
    ensures GetIntPart(k).Ok?
    ensures k == GetIntPart(k).value + FracPart(k)
    ensures AllDigits(GetIntPart(k).value) && AllDigits(FracPart(k))
    ensures NoTrailingZero(FracPart(k)) && k != SmallestInt
  {
    var n := IntLen(k[0]).value;
    assert GetIntPart(k).value == k[..n];
    assert forall j :: 0 <= j < |k| - n ==> FracPart(k)[j] == k[n + j];
  }
}
