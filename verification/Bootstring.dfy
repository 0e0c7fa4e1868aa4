/** The Punycode decoder of frontend/src/lib/idn.js, on mathematical integers.

    A JavaScript string is a sequence of UTF-16 code units; `DecodePoints` is the array the decoder builds
    and `DecodeLabel` the string made from it.  The two loops of the source, `adapt` and `decodeLabel`, are
    the methods `AdaptLoop` and `Decode`. */
module Bootstring {
  import opened Options
  import opened Strings

  const BASE: nat := 36
  const T_MIN: nat := 1
  const T_MAX: nat := 26
  const SKEW: nat := 38
  const DAMP: nat := 700
  const ADAPT_LIMIT: nat := 455  // ((BASE - T_MIN) * T_MAX) >> 1
  const INITIAL_BIAS: nat := 72
  const INITIAL_N: nat := 128
  const DELIMITER: nat := 0x2D
  const MAX_CODE_POINT: nat := 0x10FFFF

  type Unit = u: nat | u < 0x10000
  type Str = seq<Unit>
  type CodePoint = c: nat | c <= MAX_CODE_POINT

  // ---------------------------------------------------------------------------------------------
  // Products and quotients of two variables
  // ---------------------------------------------------------------------------------------------

  function Times(a: nat, b: nat): nat {
    a * b
  }

  lemma DivMod(a: nat, c: nat)
    requires c > 0
    ensures a % c + Times(c, a / c) == a
  {
  }

  lemma TimesGrows(a: nat, b: nat)
    ensures Times(a, b) == Times(b, a)
    ensures a > 0 ==> Times(a, b) >= b
  {
  }

  lemma TimesSucc(c: nat, a: nat)
    ensures Times(c, a + 1) == Times(c, a) + c
  {
  }

  lemma {:induction false} TimesMonotone(c: nat, a: nat, b: nat)
    requires a <= b
    ensures Times(c, a) <= Times(c, b)
  {
    hide Times;
    if a < b {
      TimesMonotone(c, a, b - 1);
      TimesSucc(c, b - 1);
    }
  }

  lemma QuotientBound(d: nat, c: nat)
    requires c > 0
    ensures d / c <= d
  {
    hide Times;
    DivMod(d, c);
    TimesGrows(c, d / c);
  }

  // ---------------------------------------------------------------------------------------------
  // Bias adaptation
  // ---------------------------------------------------------------------------------------------

  function Slope(d: nat): nat {
    ((BASE - T_MIN + 1) * d) / (d + SKEW)
  }

  /** Divides the damped delta by 35 until it is at most 455, counting 36 a time. */
  function Settle(d: nat, k: nat): (r: nat)
    ensures k <= r
    decreases d
  {
    if d > ADAPT_LIMIT then Settle(d / (BASE - T_MIN), k + BASE)
    else k + Slope(d)
  }

  function Damped(delta: nat, numPoints: nat, firstTime: bool): nat
    requires numPoints > 0
  {
    var d := if firstTime then delta / DAMP else delta / 2;
    d + d / numPoints
  }

  function Adapt(delta: nat, numPoints: nat, firstTime: bool): nat
    requires numPoints > 0
  {
    Settle(Damped(delta, numPoints, firstTime), 0)
  }

  lemma ModShift(k: nat, f: nat)
    requires k % 36 == 0 && f < 36
    ensures (k + f) % 36 == f
  {
  }

  /** The last quotient is at most 33. */
  lemma FinalQuotient(d: nat)
    requires d <= 455
    ensures Slope(d) <= 33
  {
    var c, q := d + 38, (36 * d) / (d + 38);
    assert Times(c, 34) == 34 * d + 1292;
    hide Times;
    DivMod(36 * d, c);
    if q >= 34 {
      TimesMonotone(c, 34, q);
      assert false;
    }
  }

  /** A bias is a multiple of 36 plus a number in 0..33. */
  lemma {:induction false} AdaptRemainder(d: nat, k: nat)
    requires k % BASE == 0
    ensures Settle(d, k) % BASE <= 33
    decreases d
  {
    if d > ADAPT_LIMIT {
      AdaptRemainder(d / 35, k + BASE);
    } else {
      FinalQuotient(d);
      assert Settle(d, k) == k + Slope(d);
      ModShift(k, Slope(d));
    }
  }

  method AdaptLoop(delta: nat, numPoints: nat, firstTime: bool) returns (bias: nat)
    requires numPoints > 0
    ensures bias == Adapt(delta, numPoints, firstTime)
  {
    var d: nat := if firstTime then delta / DAMP else delta / 2;
    d := d + d / numPoints;
    var k: nat := 0;
    while d > ADAPT_LIMIT
      invariant Settle(d, k) == Adapt(delta, numPoints, firstTime)
      decreases d
    {
      d := d / 35;
      k := k + BASE;
    }
    bias := k + Slope(d);
  }

  // ---------------------------------------------------------------------------------------------
  // Digits and generalized variable-length integers
  // ---------------------------------------------------------------------------------------------

  function BasicToDigit(codePoint: nat): nat {
    if 0x30 <= codePoint <= 0x39 then codePoint - 0x30 + 26
    else if 0x41 <= codePoint <= 0x5A then codePoint - 0x41
    else if 0x61 <= codePoint <= 0x7A then codePoint - 0x61
    else BASE
  }

  function Threshold(k: nat, bias: nat): (t: nat)
    ensures T_MIN <= t <= T_MAX
  {
    if k <= bias then T_MIN else if k >= bias + T_MAX then T_MAX else k - bias
  }

  /** A variable-length integer read from a label: its value and the position after it. */
  datatype Reading = Malformed | Reading(value: nat, next: nat)

  /** Section 3.3 of RFC 3492 by Horner's rule: a digit below its threshold is the last one, any other is
      followed by a number counted in units of 36 - t. */
  function ReadInteger(input: Str, pos: nat, bias: nat, k: nat): (r: Reading)
    ensures r.Reading? ==> pos < r.next <= |input|
    decreases |input| - pos
  {
    if pos >= |input| then Malformed
    else
      var digit := BasicToDigit(input[pos]);
      var t := Threshold(k, bias);
      if digit >= BASE then Malformed
      else if digit < t then Reading(digit, pos + 1)
      else
        match ReadInteger(input, pos + 1, bias, k + BASE)
        case Malformed => Malformed
        case Reading(v, next) => Reading(digit + Times(BASE - t, v), next)
  }

  // ---------------------------------------------------------------------------------------------
  // The decoder
  // ---------------------------------------------------------------------------------------------

  /** The decoder's variables between two insertions. */
  datatype Decoder = Decoder(n: nat, i: nat, bias: nat, output: seq<nat>)

  /** One insertion: advance by delta, wrap the index, bump the code point, splice. */
  function Insert(d: Decoder, delta: nat): Decoder {
    var numPoints := |d.output| + 1;
    var n := d.n + (d.i + delta) / numPoints;
    var at := (d.i + delta) % numPoints;
    Decoder(n, at + 1, Adapt(delta, numPoints, d.i == 0), d.output[..at] + [n] + d.output[at..])
  }

  function DecodeTail(input: Str, pos: nat, d: Decoder): Option<seq<nat>>
    requires pos <= |input|
    decreases |input| - pos
  {
    if pos == |input| then Some(d.output)
    else
      match ReadInteger(input, pos, d.bias, BASE)
      case Malformed => None
      case Reading(delta, next) => DecodeTail(input, next, Insert(d, delta))
  }

  function BasicEnd(input: Str): (e: nat)
    ensures e <= |input|
  {
    var k := LastIndexOf(input, DELIMITER);
    if k < 0 then 0 else k
  }

  function DigitsStart(input: Str): (p: nat)
    ensures p <= |input|
  {
    if BasicEnd(input) > 0 then BasicEnd(input) + 1 else 0
  }

  /** The array handed to String.fromCodePoint, or None where the source answers null. */
  function DecodePoints(input: Str): (r: Option<seq<nat>>)
    ensures r.Some? ==> forall c <- r.value :: c <= MAX_CODE_POINT
  {
    var e := BasicEnd(input);
    if exists j :: 0 <= j < e && input[j] >= 0x80 then None
    else
      match DecodeTail(input, DigitsStart(input), Decoder(INITIAL_N, 0, INITIAL_BIAS, input[..e]))
      case None => None
      case Some(points) => if forall c <- points :: c <= MAX_CODE_POINT then Some(points) else None
  }

  function SurrogatePair(c: nat): (pair: Str)
    requires 0x10000 <= c <= MAX_CODE_POINT
    ensures |pair| == 2 && 0xD800 <= pair[0] < 0xDC00 <= pair[1] < 0xE000
  {
    var offset := c - 0x10000;
    [0xD800 + offset / 0x400, 0xDC00 + offset % 0x400]
  }

  /** String.fromCodePoint: one code unit below 0x10000, a surrogate pair above. */
  function Utf16(points: seq<nat>): Str
    requires forall c <- points :: c <= MAX_CODE_POINT
  {
    if points == [] then []
    else
      var c := points[0];
      assert c in points && forall x <- points[1..] :: x in points;
      (if c < 0x10000 then [c] else SurrogatePair(c)) + Utf16(points[1..])
  }

  function DecodeLabel(input: Str): Option<Str> {
    match DecodePoints(input)
    case None => None
    case Some(points) => Some(Utf16(points))
  }

  // ---------------------------------------------------------------------------------------------
  // decodeLabel as the source runs it
  // ---------------------------------------------------------------------------------------------

  lemma WeightStep(i: nat, weight: nat, digit: nat, c: nat, v: nat)
    ensures i + Times(weight, digit + Times(c, v)) == i + Times(digit, weight) + Times(Times(weight, c), v)
  {
    assert weight * (digit + c * v) == weight * digit + weight * (c * v);
    assert weight * (c * v) == (weight * c) * v;
  }

  /** The inner loop: adds digit * weight to i and multiplies the weight up, where ReadInteger nests. */
  method ReadDigits(input: Str, start: nat, i0: nat, bias: nat) returns (ok: bool, i: nat, pos: nat)
    requires start < |input|
    ensures ok <==> ReadInteger(input, start, bias, BASE).Reading?
    ensures ok ==> i >= i0 && ReadInteger(input, start, bias, BASE) == Reading(i - i0, pos)
  {
    i, pos := i0, start;
    ghost var whole := ReadInteger(input, start, bias, BASE);
    var weight: nat, k: nat := 1, BASE;
    while true
      invariant start <= pos <= |input|
      invariant var rest := ReadInteger(input, pos, bias, k);
                && whole.Reading? == rest.Reading?
                && (rest.Reading? ==> whole.next == rest.next && i0 + whole.value == i + Times(weight, rest.value))
      decreases |input| - pos
    {
      if pos >= |input| {
        return false, i, pos;
      }
      var digit := BasicToDigit(input[pos]);
      pos := pos + 1;
      if digit >= BASE {
        return false, i, pos;
      }
      var t := Threshold(k, bias);
      if digit < t {
        i := i + Times(digit, weight);
        return true, i, pos;
      }
      ghost var rest := ReadInteger(input, pos, bias, k + BASE);
      if rest.Reading? {
        WeightStep(i, weight, digit, BASE - t, rest.value);
      }
      i := i + Times(digit, weight);
      weight := Times(weight, BASE - t);
      k := k + BASE;
    }
  }

  /** The outer loop, from the first digit on. */
  method DecodeDigits(input: Str, start: nat, basic: seq<nat>) returns (result: Option<seq<nat>>)
    requires start <= |input|
    ensures result == DecodeTail(input, start, Decoder(INITIAL_N, 0, INITIAL_BIAS, basic))
  {
    var n: nat, i: nat, bias: nat := INITIAL_N, 0, INITIAL_BIAS;
    var output, pos := basic, start;
    ghost var wanted := DecodeTail(input, pos, Decoder(n, i, bias, output));
    while pos < |input|
      invariant pos <= |input|
      invariant DecodeTail(input, pos, Decoder(n, i, bias, output)) == wanted
      decreases |input| - pos
    {
      var oldI := i;
      var ok;
      ok, i, pos := ReadDigits(input, pos, i, bias);
      if !ok {
        return None;
      }
      var numPoints := |output| + 1;
      bias := AdaptLoop(i - oldI, numPoints, oldI == 0);
      n := n + i / numPoints;
      i := i % numPoints;
      if i > |output| {
        assert false;  // the source's "malformed insertion index" check never fires
      }
      output := output[..i] + [n] + output[i..];
      i := i + 1;
    }
    return Some(output);
  }

  /** decodeLabel: the basic part is copied up to the last delimiter, the digits follow it. */
  method Decode(input: Str) returns (result: Option<Str>)
    ensures result == DecodeLabel(input)
  {
    var output: seq<nat> := [];
    var last := LastIndexOf(input, DELIMITER);
    var basicEnd: nat := if last < 0 then 0 else last;
    for j := 0 to basicEnd
      invariant output == input[..j]
      invariant forall x :: 0 <= x < j ==> input[x] < 0x80
    {
      var code := input[j];
      if code >= 0x80 {
        return None;
      }
      output := output + [code];
    }
    var points := DecodeDigits(input, if basicEnd > 0 then basicEnd + 1 else 0, output);
    if points.None? {
      return None;
    }
    if forall c <- points.value :: c <= MAX_CODE_POINT {
      return Some(Utf16(points.value));
    } else {
      return None;
    }
  }
}
