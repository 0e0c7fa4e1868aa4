/** The decoder of frontend/src/lib/idn.js on JavaScript's numbers: where it answers what the integers answer, and
    where its loop in `adapt` never ends.

    All its numbers are integers, Infinity or NaN.  Rounding and division are parameters with the laws of IEEE 754
    binary64 that the proofs need. */
module BootstringDoubles {
  import opened Options
  import opened Bootstring
  import opened BootstringRoundTrip
  import opened BootstringBounds

  datatype Num = Finite(value: int) | Infinite | NotANumber

  /** `round(x)` is the double nearest to the integer x; `quotient(p, c)` is Math.floor(p / c). */
  datatype Arithmetic = Arithmetic(round: int -> Num, quotient: (int, int) -> int)

  function Power(k: nat): (p: nat)
    ensures p > 0
  {
    if k == 0 then 1 else 2 * Power(k - 1)
  }

  /** Integers up to 2^53 are doubles, and so are the powers of two below 2^1024; rounding is monotone; from 2^1024
      on it gives Infinity. */
  ghost predicate Rounds(round: int -> Num) {
    && (forall x :: 0 <= x <= EXACT_LIMIT ==> round(x) == Finite(x))
    && (forall x :: x >= 0 ==> round(x) != NotANumber)
    && (forall x :: x >= 0 && round(x).Finite? ==> 0 <= round(x).value < Power(1024))
    && (forall x: nat, k: nat :: k < 1024 && x <= Power(k) ==> round(x).Finite? && round(x).value <= Power(k))
    && (forall x: nat, k: nat :: x >= Power(k) && round(x).Finite? ==> round(x).value >= Power(k))
  }

  /** Up to 2^53 the floor of a quotient is exact; beyond, division is monotone. */
  ghost predicate Divides(quotient: (int, int) -> int) {
    && (forall p: nat, c: nat :: c > 0 && p <= EXACT_LIMIT ==> quotient(p, c) == p / c)
    && (forall p: nat, c: nat :: c > 0 && p >= EXACT_LIMIT ==> quotient(p, c) >= EXACT_LIMIT / c)
    && (forall p: nat, c: nat :: c > 0 ==> 0 <= quotient(p, c) <= p)
    && (forall p: nat, c: nat, k: nat :: c >= 4 && k >= 2 && p <= Power(k) ==> 4 * quotient(p, c) <= Power(k))
  }

  ghost predicate Ieee(a: Arithmetic) {
    Rounds(a.round) && Divides(a.quotient)
  }

  // ---------------------------------------------------------------------------------------------
  // The operators
  // ---------------------------------------------------------------------------------------------

  function Plus(a: Arithmetic, x: Num, y: Num): Num {
    match (x, y)
    case (Finite(v), Finite(w)) => a.round(v + w)
    case (NotANumber, _) => NotANumber
    case (_, NotANumber) => NotANumber
    case _ => Infinite
  }

  function Minus(a: Arithmetic, x: Num, y: Num): Num {
    match (x, y)
    case (Finite(v), Finite(w)) => a.round(v - w)
    case (Infinite, Finite(_)) => Infinite
    case _ => NotANumber
  }

  function Product(a: Arithmetic, n: nat, y: Num): Num {
    match y
    case Finite(v) => a.round(n * v)
    case Infinite => if n == 0 then NotANumber else Infinite
    case NotANumber => NotANumber
  }

  /** Math.floor(x / c) for a positive c. */
  function FloorQuotient(a: Arithmetic, x: Num, c: nat): Num {
    match x
    case Finite(v) => Finite(a.quotient(v, c))
    case _ => x
  }

  function Remainder(x: Num, c: nat): Num
    requires c > 0
  {
    match x
    case Finite(v) => Finite(v % c)
    case _ => NotANumber
  }

  // ---------------------------------------------------------------------------------------------
  // adapt
  // ---------------------------------------------------------------------------------------------

  /** d after m turns of the loop, whose condition is d > 455. */
  function Turns(a: Arithmetic, d: Num, m: nat): Num {
    if m == 0 then d else FloorQuotient(a, Turns(a, d, m - 1), BASE - T_MIN)
  }

  predicate GoesOn(d: Num) {
    d == Infinite || (d.Finite? && d.value > ADAPT_LIMIT)
  }

  lemma {:induction false} PowerAbove(p: nat) returns (k: nat)
    requires p > 1
    ensures Power(k) < p <= Power(k + 1)
  {
    k := 0;
    while Power(k + 1) < p
      invariant Power(k) < p
      decreases p - Power(k)
    {
      k := k + 1;
    }
  }

  lemma QuotientShorter(a: Arithmetic, d: nat)
    requires Ieee(a) && d > ADAPT_LIMIT
    ensures 0 <= a.quotient(d, BASE - T_MIN) < d
  {
    var k := PowerAbove(d);
    assert 4 * a.quotient(d, BASE - T_MIN) <= Power(k + 1) == 2 * Power(k);
  }

  /** The loop ends exactly if d is not Infinity. */
  lemma LoopEndsIff(a: Arithmetic, d: Num)
    requires Ieee(a) && (d.Finite? ==> d.value >= 0)
    ensures (exists m :: !GoesOn(Turns(a, d, m))) <==> d != Infinite
  {
    if d == Infinite {
      forall m ensures Turns(a, d, m) == Infinite {
        StaysInfinite(a, m);
      }
    } else {
      var m := LastTurn(a, d);
    }
  }

  lemma {:induction false} StaysInfinite(a: Arithmetic, m: nat)
    ensures Turns(a, Infinite, m) == Infinite
  {
    if m > 0 {
      StaysInfinite(a, m - 1);
    }
  }

  lemma {:induction false} TurnFirst(a: Arithmetic, d: Num, m: nat)
    ensures Turns(a, d, m + 1) == Turns(a, FloorQuotient(a, d, BASE - T_MIN), m)
  {
    if m > 0 {
      TurnFirst(a, d, m - 1);
    }
  }

  lemma {:induction false} LastTurn(a: Arithmetic, d: Num) returns (m: nat)
    requires Ieee(a) && d != Infinite && (d.Finite? ==> d.value >= 0)
    ensures !GoesOn(Turns(a, d, m))
    decreases if d.Finite? then d.value else 0
  {
    hide Turns, Rounds, Divides;
    m := 0;
    TurnNone(a, d);
    if GoesOn(d) {
      QuotientShorter(a, d.value);
      var n := LastTurn(a, FloorQuotient(a, d, BASE - T_MIN));
      TurnFirst(a, d, n);
      m := n + 1;
    }
  }

  lemma TurnNone(a: Arithmetic, d: Num)
    ensures Turns(a, d, 0) == d
  {
  }

  /** The value of the loop and the expression after it, for a d from which it ends. */
  function SettleFrom(a: Arithmetic, d: nat, k: nat): nat
    requires Ieee(a)
    decreases d
  {
    if d > ADAPT_LIMIT then
      QuotientShorter(a, d);
      SettleFrom(a, a.quotient(d, BASE - T_MIN), k + BASE)
    else k + Slope(d)
  }

  /** The bias: an integer, minus Infinity (from a d of -38), or NaN. */
  datatype Bias = Known(value: int) | MinusInfinity | Unknown

  /** adapt's first call in a label; None if its loop never ends. */
  function FirstBias(a: Arithmetic, delta: Num, numPoints: nat): Option<Bias>
    requires Ieee(a)
  {
    var d0 := FloorQuotient(a, delta, DAMP);
    var d := Plus(a, d0, FloorQuotient(a, d0, numPoints));
    match d
    case Infinite => None
    case NotANumber => Some(Unknown)
    case Finite(v) => Some(Known(SettleFrom(a, if v < 0 then 0 else v, 0)))
  }

  /** `delta >> 1`, which is 0 for Infinity and NaN and may be negative for an integer. */
  function Halved(delta: Num): int {
    match delta
    case Finite(v) => ShiftRightOne(v)
    case _ => 0
  }

  /** The loop on the integers of its later calls, which `>>` keeps within 32 bits. */
  function SettleInt(d: int, k: nat): Bias
    decreases if d < 0 then 0 else d
  {
    if d > ADAPT_LIMIT then SettleInt(d / (BASE - T_MIN), k + BASE)
    else if d + SKEW > 0 then Known(k + ((BASE - T_MIN + 1) * d) / (d + SKEW))
    else if d + SKEW == 0 then MinusInfinity
    else Known(k + ((BASE - T_MIN + 1) * -d) / -(d + SKEW))
  }

  function LaterBias(delta: Num, numPoints: nat): Bias
    requires numPoints > 0
  {
    SettleInt(Halved(delta) + Halved(delta) / numPoints, 0)
  }

  // ---------------------------------------------------------------------------------------------
  // decodeLabel
  // ---------------------------------------------------------------------------------------------

  /** t, or NaN, with which every comparison is false. */
  function ThresholdOf(k: nat, bias: Bias): (t: Option<nat>)
    ensures t.Some? ==> T_MIN <= t.value <= T_MAX
  {
    match bias
    case Known(b) => Some(if k <= b then T_MIN else if k >= b + T_MAX then T_MAX else k - b)
    case MinusInfinity => Some(T_MAX)
    case Unknown => None
  }

  datatype Read = Read(i: Num, next: nat)

  /** The inner loop. */
  function ReadNum(a: Arithmetic, input: Str, pos: nat, i: Num, weight: Num, k: nat, bias: Bias): (r: Option<Read>)
    ensures r.Some? ==> pos < r.value.next <= |input|
    decreases |input| - pos
  {
    if pos >= |input| || BasicToDigit(input[pos]) >= BASE then None
    else
      var digit := BasicToDigit(input[pos]);
      var i' := Plus(a, i, Product(a, digit, weight));
      match ThresholdOf(k, bias)
      case None => ReadNum(a, input, pos + 1, i', NotANumber, k + BASE, bias)
      case Some(t) =>
        if digit < t then Some(Read(i', pos + 1))
        else ReadNum(a, input, pos + 1, i', Product(a, BASE - t, weight), k + BASE, bias)
  }

  /** The decoder's variables between two insertions. */
  datatype State = State(n: Num, i: Num, bias: Bias, output: seq<Num>)

  /** The rest of the outer loop's body; None if adapt never returns. */
  function InsertNum(a: Arithmetic, s: State, i: Num): Option<State>
    requires Ieee(a)
  {
    var numPoints := |s.output| + 1;
    var bias := if s.i == Finite(0) then FirstBias(a, i, numPoints)  // i - 0 is i
                else Some(LaterBias(Minus(a, i, s.i), numPoints));
    if bias.None? then None
    else
      var n := Plus(a, s.n, FloorQuotient(a, i, numPoints));
      var at := Remainder(i, numPoints);
      var place: nat := if at.Finite? then at.value else 0;  // splice takes NaN for 0
      Some(State(n, if at.Finite? then Finite(at.value + 1) else NotANumber, bias.value,
                 s.output[..place] + [n] + s.output[place..]))
  }

  datatype Result = Null | Points(output: seq<Num>) | Hangs

  function TailNum(a: Arithmetic, input: Str, pos: nat, s: State): Result
    requires Ieee(a) && pos <= |input|
    decreases |input| - pos
  {
    if pos == |input| then Points(s.output)
    else
      match ReadNum(a, input, pos, s.i, Finite(1), BASE, s.bias)
      case None => Null
      case Some(read) =>
        match InsertNum(a, s, read.i)
        case None => Hangs
        case Some(next) => TailNum(a, input, read.next, next)
  }

  predicate IsCodePoint(x: Num) {
    x.Finite? && 0 <= x.value <= MAX_CODE_POINT
  }

  function Values(output: seq<Num>): (points: seq<nat>)
    requires forall k :: 0 <= k < |output| ==> IsCodePoint(output[k])
    ensures |points| == |output| && forall k :: 0 <= k < |points| ==> Finite(points[k]) == output[k]
  {
    if output == [] then []
    else
      assert IsCodePoint(output[0]);
      [output[0].value] + Values(output[1..])
  }

  /** What decodeLabel does: an answer, null included, or nothing for ever. */
  datatype Outcome = Answer(points: Option<seq<nat>>) | NoAnswer

  /** String.fromCodePoint throws on what is no code point. */
  function Concluded(r: Result): Outcome {
    match r
    case Null => Answer(None)
    case Hangs => NoAnswer
    case Points(output) =>
      Answer(if forall k :: 0 <= k < |output| ==> IsCodePoint(output[k]) then Some(Values(output)) else None)
  }

  function Initial(input: Str): State {
    var e := BasicEnd(input);
    State(Finite(INITIAL_N), Finite(0), Known(INITIAL_BIAS), seq(e, j requires 0 <= j < e => Finite(input[j])))
  }

  function DecodeNum(a: Arithmetic, input: Str): Outcome
    requires Ieee(a)
  {
    if exists j :: 0 <= j < BasicEnd(input) && input[j] >= 0x80 then Answer(None)
    else Concluded(TailNum(a, input, DigitsStart(input), Initial(input)))
  }

  // ---------------------------------------------------------------------------------------------
  // In step with the integers
  // ---------------------------------------------------------------------------------------------

  /** Not a number that stands for an integer below 2^31. */
  predicate Big(x: Num) {
    x.Finite? ==> x.value >= INT32_LIMIT
  }

  lemma PowersOfLimits()
    ensures Power(31) == INT32_LIMIT && Power(53) == EXACT_LIMIT
  {
    assert Power(10) == 1024;
    PowerSum(10, 10);
    PowerSum(20, 10);
    PowerSum(30, 20);
    assert Power(31) == 2 * Power(30) && Power(53) == 8 * Power(50);
  }

  lemma {:induction false} PowerSum(j: nat, k: nat)
    ensures Power(j + k) == Power(j) * Power(k)
  {
    if k > 0 {
      PowerSum(j, k - 1);
      assert Power(j + k) == 2 * Power(j + (k - 1));
      assert Power(j) * Power(k) == Power(j) * (2 * Power(k - 1)) == 2 * (Power(j) * Power(k - 1));
    }
  }

  lemma BigStays(a: Arithmetic, x: Num, y: Num)
    requires Ieee(a) && Big(x) && (y.Finite? ==> y.value >= 0)
    ensures Big(Plus(a, x, y))
  {
    PowersOfLimits();
  }

  lemma AtMostTimes(n: nat, m: nat, w: nat)
    requires n <= m
    ensures Times(n, w) <= Times(m, w) && n * w == Times(n, w) == Times(w, n)
    ensures Times(0, w) == 0 && Times(1, w) == w && Times(35, w) == 35 * w
  {
    assert (m - n) * w >= 0;
  }

  lemma RoundNonnegative(a: Arithmetic, x: nat)
    requires Ieee(a)
    ensures a.round(x).Finite? ==> a.round(x).value >= 0
  {
  }

  lemma ProductNonnegative(a: Arithmetic, n: nat, y: Num)
    requires Ieee(a) && (y.Finite? ==> y.value >= 0)
    ensures Product(a, n, y).Finite? ==> Product(a, n, y).value >= 0
  {
    hide Rounds, Divides, Times;
    if y.Finite? {
      var w: nat := y.value;
      AtMostTimes(n, n, w);
      RoundNonnegative(a, Times(n, w));
    }
  }

  /** Once the index is big the two read on side by side, whatever the weights have become. */
  lemma {:induction false} ReadBig(a: Arithmetic, input: Str, pos: nat, x: Num, weight: Num, k: nat, bias: nat)
    requires Ieee(a) && Big(x) && (weight.Finite? ==> weight.value >= 0)
    ensures var r, v := ReadNum(a, input, pos, x, weight, k, Known(bias)), ReadInteger(input, pos, bias, k);
            && (r.None? <==> v.Malformed?)
            && (r.Some? ==> r.value.next == v.next && Big(r.value.i))
    decreases |input| - pos
  {
    hide Plus, Product, Rounds, Divides, Big;
    if pos < |input| && BasicToDigit(input[pos]) < BASE {
      var digit, t := BasicToDigit(input[pos]), Threshold(k, bias);
      ProductNonnegative(a, digit, weight);
      BigStays(a, x, Product(a, digit, weight));
      if digit >= t {
        ProductNonnegative(a, BASE - t, weight);
        ReadBig(a, input, pos + 1, Plus(a, x, Product(a, digit, weight)), Product(a, BASE - t, weight), k + BASE, bias);
      }
    }
  }

  /** A step from an index below 2^31, with a weight at most 35 times as large: the sum is exact. */
  lemma RoundExact(a: Arithmetic, x: nat)
    requires Ieee(a) && x <= EXACT_LIMIT
    ensures a.round(x) == Finite(x)
  {
  }

  lemma QuotientExact(a: Arithmetic, p: nat, c: nat)
    requires Ieee(a) && p <= EXACT_LIMIT && c > 0
    ensures a.quotient(p, c) == p / c
  {
  }

  lemma ExactStep(a: Arithmetic, i: nat, weight: nat, digit: nat)
    requires Ieee(a) && i < INT32_LIMIT && weight <= 35 * i + 35 && digit < BASE
    ensures Plus(a, Finite(i), Product(a, digit, Finite(weight))) == Finite(i + Times(digit, weight))
  {
    hide Rounds, Divides, Times;
    AtMostTimes(digit, 35, weight);
    RoundExact(a, digit * weight);
    RoundExact(a, i + digit * weight);
  }

  lemma NextWeight(a: Arithmetic, i: nat, weight: nat, digit: nat, t: nat)
    requires Ieee(a) && i < INT32_LIMIT && weight <= 35 * i + 35 && 1 <= t <= digit < BASE
    ensures Product(a, BASE - t, Finite(weight)) == Finite(Times(weight, BASE - t))
    ensures Times(weight, BASE - t) <= 35 * (i + Times(digit, weight)) + 35
  {
    hide Rounds, Divides, Times;
    AtMostTimes(BASE - t, 35, weight);
    AtMostTimes(1, digit, weight);
    RoundExact(a, (BASE - t) * weight);
  }

  /** Reading an integer: the same value and place if it is below 2^31, and a big one in both if not. */
  lemma {:induction false} ReadAlike(a: Arithmetic, input: Str, pos: nat, i: nat, weight: nat, k: nat, bias: nat)
    requires Ieee(a) && i < INT32_LIMIT && weight <= 35 * i + 35
    ensures var r := ReadNum(a, input, pos, Finite(i), Finite(weight), k, Known(bias));
            var v := ReadInteger(input, pos, bias, k);
            && (r.None? <==> v.Malformed?)
            && (r.Some? ==>
                  && r.value.next == v.next
                  && if i + Times(weight, v.value) < INT32_LIMIT then r.value.i == Finite(i + Times(weight, v.value))
                     else Big(r.value.i))
    decreases |input| - pos
  {
    hide Plus, Product, Rounds, Divides, Times;
    if pos < |input| && BasicToDigit(input[pos]) < BASE {
      var digit, t := BasicToDigit(input[pos]), Threshold(k, bias);
      var sum := i + Times(digit, weight);
      ExactStep(a, i, weight, digit);
      TimesGrows(digit, weight);
      if digit >= t {
        NextWeight(a, i, weight, digit, t);
        var v := ReadInteger(input, pos + 1, bias, k + BASE);
        if v.Reading? {
          WeightStep(i, weight, digit, BASE - t, v.value);
        }
        if sum < INT32_LIMIT {
          ReadAlike(a, input, pos + 1, sum, Times(weight, BASE - t), k + BASE, bias);
        } else {
          ReadBig(a, input, pos + 1, Finite(sum), Finite(Times(weight, BASE - t)), k + BASE, bias);
        }
      }
    }
  }

  /** The numbers are those of the integers. */
  ghost predicate Exact(d: Decoder, s: State) {
    && s == State(Finite(d.n), Finite(d.i), Known(d.bias), s.output)
    && |s.output| == |d.output| && (forall k :: 0 <= k < |s.output| ==> s.output[k] == Finite(d.output[k]))
    && d.n <= MAX_CODE_POINT && d.i < INT32_LIMIT
  }

  lemma {:induction false} SettleAlike(a: Arithmetic, d: nat, k: nat)
    requires Ieee(a) && d <= EXACT_LIMIT
    ensures SettleFrom(a, d, k) == Settle(d, k)
    decreases d
  {
    if d > ADAPT_LIMIT {
      SettleAlike(a, d / 35, k + BASE);
    }
  }

  lemma {:induction false} SettleIntAlike(d: nat, k: nat)
    ensures SettleInt(d, k) == Known(Settle(d, k))
    decreases d
  {
    if d > ADAPT_LIMIT {
      SettleIntAlike(d / 35, k + BASE);
    }
  }

  lemma FirstAlike(a: Arithmetic, delta: nat, numPoints: nat)
    requires Ieee(a) && delta < INT32_LIMIT && numPoints > 0
    ensures FirstBias(a, Finite(delta), numPoints) == Some(Known(Adapt(delta, numPoints, true)))
  {
    hide Settle, SettleFrom, Rounds, Divides;
    var d0 := delta / DAMP;
    DampedBound(delta, numPoints, true);
    QuotientExact(a, delta, DAMP);
    QuotientExact(a, d0, numPoints);
    RoundExact(a, Damped(delta, numPoints, true));
    SettleAlike(a, Damped(delta, numPoints, true), 0);
  }

  lemma LaterAlike(delta: nat, numPoints: nat)
    requires delta < INT32_LIMIT && numPoints > 0
    ensures LaterBias(Finite(delta), numPoints) == Known(Adapt(delta, numPoints, false))
  {
    hide Settle, SettleInt;
    ShiftHalves(delta);
    SettleIntAlike(Damped(delta, numPoints, false), 0);
  }

  lemma BiasAlike(a: Arithmetic, i: nat, delta: nat, numPoints: nat)
    requires Ieee(a) && i + delta < INT32_LIMIT && numPoints > 0
    ensures (if i == 0 then FirstBias(a, Finite(i + delta), numPoints)
             else Some(LaterBias(Minus(a, Finite(i + delta), Finite(i)), numPoints)))
         == Some(Known(Adapt(delta, numPoints, i == 0)))
  {
    hide Adapt, FirstBias, LaterBias, Rounds, Divides;
    RoundExact(a, delta);
    if i == 0 {
      FirstAlike(a, delta, numPoints);
    } else {
      LaterAlike(delta, numPoints);
    }
  }

  lemma NextCodePoint(a: Arithmetic, n: nat, i: nat, c: nat)
    requires Ieee(a) && n <= MAX_CODE_POINT && i < INT32_LIMIT && c > 0
    ensures Plus(a, Finite(n), FloorQuotient(a, Finite(i), c)) == Finite(n + i / c)
  {
    hide Rounds, Divides;
    QuotientBound(i, c);
    QuotientExact(a, i, c);
    RoundExact(a, n + i / c);
  }

  /** Two splices side by side. */
  lemma SpliceAlike(d: Decoder, s: State, e: Decoder, s': State, at: nat)
    requires Exact(d, s) && at <= |d.output| < MAX_LABEL
    requires e == Decoder(e.n, at + 1, e.bias, d.output[..at] + [e.n] + d.output[at..])
    requires s' == State(Finite(e.n), Finite(at + 1), Known(e.bias), s.output[..at] + [Finite(e.n)] + s.output[at..])
    ensures |s'.output| == |e.output| && forall k :: 0 <= k < |e.output| ==> s'.output[k] == Finite(e.output[k])
    ensures e.n <= MAX_CODE_POINT ==> Exact(e, s')
  {
  }

  lemma ExactParts(d: Decoder, s: State)
    requires Exact(d, s)
    ensures s.n == Finite(d.n) && s.i == Finite(d.i) && |s.output| == |d.output| && d.n <= MAX_CODE_POINT
  {
  }

  /** Both insert the same code point at the same place and go on with the same bias. */
  lemma InsertForm(a: Arithmetic, d: Decoder, s: State, delta: nat) returns (at: nat)
    requires Ieee(a) && s.n == Finite(d.n) && s.i == Finite(d.i) && |s.output| == |d.output|
    requires d.n <= MAX_CODE_POINT && d.i + delta < INT32_LIMIT
    ensures at <= |d.output|
    ensures var e := Insert(d, delta);
            && e == Decoder(e.n, at + 1, e.bias, d.output[..at] + [e.n] + d.output[at..])
            && InsertNum(a, s, Finite(d.i + delta))
               == Some(State(Finite(e.n), Finite(at + 1), Known(e.bias),
                             s.output[..at] + [Finite(e.n)] + s.output[at..]))
  {
    hide Adapt, FirstBias, LaterBias, Minus, Plus, FloorQuotient, Rounds, Divides;
    var numPoints := |d.output| + 1;
    NextCodePoint(a, d.n, d.i + delta, numPoints);
    BiasAlike(a, d.i, delta, numPoints);
    at := (d.i + delta) % numPoints;
  }

  lemma InsertAlike(a: Arithmetic, d: Decoder, s: State, delta: nat)
    requires Ieee(a) && Exact(d, s) && d.i + delta < INT32_LIMIT && |d.output| < MAX_LABEL
    ensures var s', e := InsertNum(a, s, Finite(d.i + delta)), Insert(d, delta);
            && s'.Some? && |s'.value.output| == |e.output|
            && (forall k :: 0 <= k < |e.output| ==> s'.value.output[k] == Finite(e.output[k]))
            && (e.n <= MAX_CODE_POINT ==> Exact(e, s'.value))
  {
    hide Insert, InsertNum, Ieee, Exact;
    ExactParts(d, s);
    var at := InsertForm(a, d, s, delta);
    SpliceAlike(d, s, Insert(d, delta), InsertNum(a, s, Finite(d.i + delta)).value, at);
  }

  /** The output holds what is no code point. */
  ghost predicate Doomed(output: seq<Num>) {
    exists k :: 0 <= k < |output| && !IsCodePoint(output[k])
  }

  lemma DoomedInsert(a: Arithmetic, s: State, i: Num)
    requires Ieee(a) && Doomed(s.output)
    ensures InsertNum(a, s, i).Some? ==> Doomed(InsertNum(a, s, i).value.output)
  {
    hide FirstBias, LaterBias, Plus, Minus, FloorQuotient, Rounds, Divides;
    if InsertNum(a, s, i).Some? {
      var t := InsertNum(a, s, i).value;
      var k :| 0 <= k < |s.output| && !IsCodePoint(s.output[k]);
      assert t.output[k] == s.output[k] || t.output[k + 1] == s.output[k];
    }
  }

  lemma {:induction false} DoomedStays(a: Arithmetic, input: Str, pos: nat, s: State)
    requires Ieee(a) && pos <= |input| && Doomed(s.output)
    ensures var r := TailNum(a, input, pos, s); r.Points? ==> Doomed(r.output)
    decreases |input| - pos
  {
    hide ReadNum, InsertNum, Doomed, Rounds, Divides;
    if pos < |input| {
      var read := ReadNum(a, input, pos, s.i, Finite(1), BASE, s.bias);
      if read.Some? && InsertNum(a, s, read.value.i).Some? {
        DoomedInsert(a, s, read.value.i);
        DoomedStays(a, input, read.value.next, InsertNum(a, s, read.value.i).value);
      }
    }
  }

  /** From a big index on no code point comes out. */
  lemma BigIsDoomed(a: Arithmetic, s: State, x: Num)
    requires Ieee(a) && Big(x) && |s.output| < MAX_LABEL
    requires s.n.Finite? && 0 <= s.n.value <= MAX_CODE_POINT
    ensures InsertNum(a, s, x).Some? ==> Doomed(InsertNum(a, s, x).value.output)
  {
    hide FirstBias, LaterBias, Plus, Minus, FloorQuotient, Rounds, Divides;
    var numPoints := |s.output| + 1;
    if InsertNum(a, s, x).Some? {
      var n := Plus(a, s.n, FloorQuotient(a, x, numPoints));
      BigQuotient(a, s.n.value, x, numPoints);
      var at := Remainder(x, numPoints);
      var place: nat := if at.Finite? then at.value else 0;
      assert InsertNum(a, s, x).value.output[place] == n;
    }
  }

  lemma BigQuotient(a: Arithmetic, n: nat, x: Num, c: nat)
    requires Ieee(a) && Big(x) && 0 < c <= MAX_LABEL
    ensures !IsCodePoint(Plus(a, Finite(n), FloorQuotient(a, x, c)))
  {
    hide Rounds, Divides;
    if x.Finite? {
      QuotientLarge(a, x.value, c);
      RoundLarge(a, n + a.quotient(x.value, c));
    }
  }

  lemma QuotientLarge(a: Arithmetic, p: nat, c: nat)
    requires Ieee(a) && p >= INT32_LIMIT && 0 < c <= MAX_LABEL
    ensures a.quotient(p, c) > MAX_CODE_POINT
  {
    LargeQuotient(if p <= EXACT_LIMIT then p else EXACT_LIMIT, c);
  }

  lemma RoundLarge(a: Arithmetic, x: nat)
    requires Ieee(a) && x > MAX_CODE_POINT
    ensures !IsCodePoint(a.round(x))
  {
    PowersOfLimits();
    hide Divides;
    assert x > EXACT_LIMIT && a.round(x).Finite? ==> a.round(x).value >= Power(53);
  }

  lemma LargeQuotient(p: nat, c: nat)
    requires p >= INT32_LIMIT && 0 < c <= MAX_LABEL
    ensures p / c > MAX_CODE_POINT
  {
    hide Times;
    DivMod(p, c);
    if p / c <= MAX_CODE_POINT {
      TimesMonotone(c, p / c, MAX_CODE_POINT);
      MaxProduct(c);
      assert false;
    }
  }

  lemma MaxProduct(c: nat)
    requires c <= MAX_LABEL
    ensures Times(c, MAX_CODE_POINT) + c < INT32_LIMIT
  {
  }

  /** What the integer decoder concludes from the code points it reads. */
  function Judged(points: Option<seq<nat>>): Option<seq<nat>> {
    if points.Some? && forall c <- points.value :: c <= MAX_CODE_POINT then points else None
  }

  /** From matching states on the two conclude the same, if JavaScript comes to a conclusion. */
  lemma {:induction false} TailAlike(a: Arithmetic, input: Str, pos: nat, d: Decoder, s: State)
    requires Ieee(a) && pos <= |input| && Exact(d, s) && |d.output| + (|input| - pos) <= MAX_LABEL
    ensures var r := TailNum(a, input, pos, s);
            r == Hangs || Concluded(r) == Answer(Judged(DecodeTail(input, pos, d)))
    decreases |input| - pos
  {
    hide ReadNum, ReadInteger, Insert, InsertNum, Rounds, Divides, Times, Adapt;
    if pos == |input| {
      EndAlike(d.output, s.output);
    } else {
      ReadAlike(a, input, pos, d.i, 1, BASE, d.bias);
      var r := ReadInteger(input, pos, d.bias, BASE);
      if r.Reading? {
        TimesOne(r.value);
        var read := ReadNum(a, input, pos, s.i, Finite(1), BASE, s.bias).value;
        if d.i + r.value >= INT32_LIMIT {
          BigIsDoomed(a, s, read.i);
          OutOfRangeIsRejected(input, pos, d, r.value, r.next);
          DoomedEnds(a, input, pos, s, read);
        } else {
          InsertAlike(a, d, s, r.value);
          NextAlike(a, input, pos, d, s, r.value, r.next);
        }
      }
    }
  }

  lemma DoomedEnds(a: Arithmetic, input: Str, pos: nat, s: State, read: Read)
    requires Ieee(a) && pos < |input| && ReadNum(a, input, pos, s.i, Finite(1), BASE, s.bias) == Some(read)
    requires InsertNum(a, s, read.i).Some? ==> Doomed(InsertNum(a, s, read.i).value.output)
    ensures TailNum(a, input, pos, s) == Hangs || Concluded(TailNum(a, input, pos, s)) == Answer(None)
  {
    hide ReadNum, InsertNum, Rounds, Divides;
    if InsertNum(a, s, read.i).Some? {
      DoomedStays(a, input, read.next, InsertNum(a, s, read.i).value);
    }
  }

  lemma NextAlike(a: Arithmetic, input: Str, pos: nat, d: Decoder, s: State, delta: nat, next: nat)
    requires Ieee(a) && pos < |input| && Exact(d, s) && |d.output| + (|input| - pos) <= MAX_LABEL
    requires ReadInteger(input, pos, d.bias, BASE) == Reading(delta, next) && d.i + delta < INT32_LIMIT
    requires ReadNum(a, input, pos, s.i, Finite(1), BASE, s.bias) == Some(Read(Finite(d.i + delta), next))
    ensures var r := TailNum(a, input, pos, s);
            r == Hangs || Concluded(r) == Answer(Judged(DecodeTail(input, pos, d)))
    decreases |input| - pos, 0
  {
    hide ReadNum, ReadInteger, InsertNum, Rounds, Divides, Times, Adapt;
    InsertAlike(a, d, s, delta);
    var e, t := Insert(d, delta), InsertNum(a, s, Finite(d.i + delta)).value;
    if e.n <= MAX_CODE_POINT {
      TailAlike(a, input, next, e, t);
    } else {
      InsertExtends(d, delta);
      assert e.output[e.i - 1] == e.n && t.output[e.i - 1] == Finite(e.n) && e.n in e.output;
      DoomedEnds(a, input, pos, s, Read(Finite(d.i + delta), next));
      if DecodeTail(input, next, e).Some? {
        OutputStays(input, next, e);
      }
    }
  }

  lemma EndAlike(points: seq<nat>, output: seq<Num>)
    requires |points| == |output| && forall k :: 0 <= k < |output| ==> output[k] == Finite(points[k])
    ensures Concluded(Points(output)) == Answer(Judged(Some(points)))
  {
    if forall k :: 0 <= k < |output| ==> IsCodePoint(output[k]) {
      assert Values(output) == points;
    } else {
      var k :| 0 <= k < |output| && !IsCodePoint(output[k]);
      assert points[k] in points;
    }
  }

  /** For every label of at most 1,927 characters, accepted or not: if decodeLabel returns, it answers what the
      integers answer. */
  lemma AnswersAlike(a: Arithmetic, input: Str)
    requires Ieee(a) && |input| <= MAX_LABEL
    ensures DecodeNum(a, input) == NoAnswer || DecodeNum(a, input) == Answer(DecodePoints(input))
  {
    hide TailNum, DecodeTail, Rounds, Divides;
    var e := BasicEnd(input);
    TailAlike(a, input, DigitsStart(input), Decoder(INITIAL_N, 0, INITIAL_BIAS, input[..e]), Initial(input));
  }
}
