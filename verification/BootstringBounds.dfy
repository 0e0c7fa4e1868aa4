/** Why mathematical integers describe the decoder's JavaScript numbers: on a label it accepts, everything it
    computes is an exactly represented integer, and `delta >> 1` halves. */
module BootstringBounds {
  import opened Options
  import opened Bootstring
  import opened BootstringRoundTrip

  const INT32_LIMIT: nat := 0x8000_0000
  const EXACT_LIMIT: nat := 0x20_0000_0000_0000  // 2^53
  const MAX_LABEL: nat := 1927

  function ToInt32(x: int): int {
    var m: int := x % 0x1_0000_0000;
    if m >= 0x8000_0000 then m - 0x1_0000_0000 else m
  }

  /** JavaScript's `x >> 1`. */
  function ShiftRightOne(x: int): int {
    ToInt32(x) / 2
  }

  /** Every value the inner loop computes from here on is exact. */
  ghost predicate ExactRead(input: Str, pos: nat, bias: nat, k: nat, weight: nat, i: nat)
    decreases |input| - pos
  {
    pos < |input| && BasicToDigit(input[pos]) < BASE ==>
      var digit, t := BasicToDigit(input[pos]), Threshold(k, bias);
      && weight < EXACT_LIMIT
      && Times(digit, weight) < EXACT_LIMIT
      && i + Times(digit, weight) < INT32_LIMIT
      && (digit >= t ==> ExactRead(input, pos + 1, bias, k + BASE, Times(weight, BASE - t), i + Times(digit, weight)))
  }

  /** Every value the decoder computes from here on is exact. */
  ghost predicate ExactRun(input: Str, pos: nat, d: Decoder)
    requires pos <= |input|
    decreases |input| - pos
  {
    pos < |input| ==>
      && ExactRead(input, pos, d.bias, BASE, 1, d.i)
      && (var r := ReadInteger(input, pos, d.bias, BASE);
          r.Reading? ==>
            && d.i + r.value < INT32_LIMIT
            && ShiftRightOne(r.value) == r.value / 2
            && 36 * Damped(r.value, |d.output| + 1, d.i == 0) < EXACT_LIMIT
            && ExactRun(input, r.next, Insert(d, r.value)))
  }

  /** ToInt32 gives the number of 32 signed bits that differs from x by a multiple of 2^32. */
  lemma ToInt32Congruent(x: int)
    ensures -0x8000_0000 <= ToInt32(x) < 0x8000_0000 && (x - ToInt32(x)) % 0x1_0000_0000 == 0
  {
  }

  lemma ShiftHalves(x: nat)
    ensures x < INT32_LIMIT ==> ShiftRightOne(x) == x / 2
  {
  }

  lemma DampedBound(delta: nat, numPoints: nat, firstTime: bool)
    requires numPoints > 0
    ensures Damped(delta, numPoints, firstTime) <= delta
  {
    var d := if firstTime then delta / DAMP else delta / 2;
    assert 2 * d <= delta;
    QuotientBound(d, numPoints);
  }

  lemma WeightBound(weight: nat, digit: nat, c: nat)
    requires 1 <= digit && c <= 35 && Times(digit, weight) < INT32_LIMIT
    ensures weight < INT32_LIMIT && Times(weight, c) <= 35 * INT32_LIMIT
  {
    assert digit * weight >= weight;
    assert weight * c <= weight * 35;
  }

  /** If the whole number stays below 2^31, so does every partial sum, and weights stay below 2^53. */
  lemma {:induction false} ReadIsExact(input: Str, pos: nat, bias: nat, k: nat, weight: nat, i: nat)
    requires ReadInteger(input, pos, bias, k).Reading?
    requires weight <= 35 * INT32_LIMIT
    requires i + Times(weight, ReadInteger(input, pos, bias, k).value) < INT32_LIMIT
    ensures ExactRead(input, pos, bias, k, weight, i)
    decreases |input| - pos
  {
    hide Times;
    var digit, t := BasicToDigit(input[pos]), Threshold(k, bias);
    TimesGrows(weight, digit);
    if digit >= t {
      var rest := ReadInteger(input, pos + 1, bias, k + BASE);
      WeightStep(i, weight, digit, BASE - t, rest.value);
      WeightBound(weight, digit, BASE - t);
      ReadIsExact(input, pos + 1, bias, k + BASE, Times(weight, BASE - t), i + Times(digit, weight));
    }
  }

  /** An insertion of a valid code point among at most 1,927 keeps i below 2^31, and any other does not fit. */
  lemma IndexBound(d: Decoder, delta: nat)
    requires |d.output| < MAX_LABEL
    ensures Insert(d, delta).n <= MAX_CODE_POINT ==> d.i + delta < INT32_LIMIT
  {
    hide Times, Adapt, Insert;
    InsertExtends(d, delta);
    var e := Insert(d, delta);
    if e.n <= MAX_CODE_POINT {
      ProductBound(e.n - d.n, |d.output|);
    }
  }

  lemma ProductBound(a: nat, h: nat)
    requires a <= MAX_CODE_POINT && h < MAX_LABEL
    ensures Times(a, h + 1) + h < INT32_LIMIT
  {
    assert a * (h + 1) <= 0x10FFFF * (h + 1);
  }

  lemma {:induction false} RunIsExact(input: Str, pos: nat, d: Decoder, points: seq<CodePoint>)
    requires pos <= |input| && DecodeTail(input, pos, d) == Some(points)
    requires |points| <= MAX_LABEL
    ensures ExactRun(input, pos, d)
    decreases |input| - pos
  {
    hide Times, Damped;
    if pos < |input| {
      var r := ReadInteger(input, pos, d.bias, BASE);
      var e := Insert(d, r.value);
      OutputStays(input, r.next, e);
      Inserted(d, r.value, points);
      IndexBound(d, r.value);
      ShiftHalves(r.value);
      DampedBound(r.value, |d.output| + 1, d.i == 0);
      TimesOne(r.value);
      ReadIsExact(input, pos, d.bias, BASE, 1, d.i);
      RunIsExact(input, r.next, e, points);
    }
  }

  lemma TimesOne(a: nat)
    ensures Times(1, a) == a
  {
  }

  lemma Inserted(d: Decoder, delta: nat, points: seq<CodePoint>)
    requires forall c <- Insert(d, delta).output :: c in points
    ensures Insert(d, delta).n <= MAX_CODE_POINT && |Insert(d, delta).output| == |d.output| + 1
  {
    hide Times, Adapt;
    InsertExtends(d, delta);
    var e := Insert(d, delta);
    assert e.output[e.i - 1] == e.n;
    InRange(points, e);
  }

  lemma {:induction false} OnePointPerCharacter(input: Str, pos: nat, d: Decoder)
    requires pos <= |input| && DecodeTail(input, pos, d).Some?
    ensures |DecodeTail(input, pos, d).value| <= |d.output| + (|input| - pos)
    decreases |input| - pos
  {
    if pos < |input| {
      var r := ReadInteger(input, pos, d.bias, BASE);
      OnePointPerCharacter(input, r.next, Insert(d, r.value));
    }
  }

  /** Decoding an accepted label of at most 1,927 characters is exact in JavaScript throughout. */
  lemma ArithmeticIsExact(input: Str, points: seq<CodePoint>)
    requires DecodePoints(input) == Some(points) && |input| <= MAX_LABEL
    ensures ExactRun(input, DigitsStart(input), Decoder(INITIAL_N, 0, INITIAL_BIAS, input[..BasicEnd(input)]))
  {
    var d := Decoder(INITIAL_N, 0, INITIAL_BIAS, input[..BasicEnd(input)]);
    Accepted(input);
    OnePointPerCharacter(input, DigitsStart(input), d);
    RunIsExact(input, DigitsStart(input), d, points);
  }

  /** Where i would leave that range, the label is rejected whatever follows. */
  lemma OutOfRangeIsRejected(input: Str, pos: nat, d: Decoder, delta: nat, next: nat)
    requires pos < |input| && ReadInteger(input, pos, d.bias, BASE) == Reading(delta, next)
    requires |d.output| < MAX_LABEL && d.i + delta >= INT32_LIMIT
    ensures DecodeTail(input, pos, d).Some? ==> exists c <- DecodeTail(input, pos, d).value :: c > MAX_CODE_POINT
  {
    hide Times, Adapt;
    var e := Insert(d, delta);
    IndexBound(d, delta);
    InsertExtends(d, delta);
    if DecodeTail(input, pos, d).Some? {
      OutputStays(input, next, e);
      assert e.output[e.i - 1] == e.n;
      assert e.n in e.output;
    }
  }
}
