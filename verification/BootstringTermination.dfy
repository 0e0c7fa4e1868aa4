/** Where the decoder returns, on JavaScript's numbers: exactly when the first integer of a label does not overflow to
    Infinity, hence for every label of at most 250 characters, but not for every label. */
module BootstringTermination {
  import opened Options
  import opened Bootstring
  import opened BootstringBounds
  import opened BootstringDoubles

  // ---------------------------------------------------------------------------------------------
  // Where it never returns
  // ---------------------------------------------------------------------------------------------

  /** A number that rounding can produce from sums and products of such numbers. */
  predicate InRange(x: Num) {
    x.Finite? ==> 0 <= x.value < Power(1024)
  }

  lemma RoundRange(a: Arithmetic, x: nat)
    requires Ieee(a)
    ensures a.round(x) != NotANumber && InRange(a.round(x))
  {
  }

  lemma StepRange(a: Arithmetic, i: Num, weight: Num, n: nat)
    requires Ieee(a) && InRange(i) && InRange(weight)
    ensures InRange(Product(a, n, weight)) && InRange(Plus(a, i, Product(a, n, weight)))
  {
    hide Rounds, Divides, Power;
    if weight.Finite? {
      AtMostTimes(n, n, weight.value);
      RoundRange(a, n * weight.value);
    }
    if i.Finite? && Product(a, n, weight).Finite? {
      RoundRange(a, i.value + Product(a, n, weight).value);
    }
  }

  lemma {:induction false} ReadRange(a: Arithmetic, input: Str, pos: nat, i: Num, weight: Num, k: nat, bias: Bias)
    requires Ieee(a) && InRange(i) && InRange(weight)
    ensures var r := ReadNum(a, input, pos, i, weight, k, bias); r.Some? ==> InRange(r.value.i)
    decreases |input| - pos
  {
    hide Rounds, Divides, Power, Plus, Product, InRange, ThresholdOf;
    if pos < |input| && BasicToDigit(input[pos]) < BASE {
      var digit := BasicToDigit(input[pos]);
      StepRange(a, i, weight, digit);
      var i' := Plus(a, i, Product(a, digit, weight));
      match ThresholdOf(k, bias)
      case None =>
        assert InRange(NotANumber) by { NaNInRange(); }
        ReadRange(a, input, pos + 1, i', NotANumber, k + BASE, bias);
      case Some(t) =>
        StepRange(a, i, weight, BASE - t);
        if digit >= t {
          ReadRange(a, input, pos + 1, i', Product(a, BASE - t, weight), k + BASE, bias);
        }
    }
  }

  lemma NaNInRange()
    ensures InRange(NotANumber)
  {
  }

  /** d as the loop of the first call of adapt finds it. */
  function FirstD(a: Arithmetic, delta: Num, numPoints: nat): Num {
    Plus(a, FloorQuotient(a, delta, DAMP), FloorQuotient(a, FloorQuotient(a, delta, DAMP), numPoints))
  }

  lemma FirstFinite(a: Arithmetic, delta: nat, numPoints: nat)
    requires Ieee(a) && delta < Power(1024) && numPoints > 0
    ensures FirstD(a, Finite(delta), numPoints).Finite? && FirstD(a, Finite(delta), numPoints).value >= 0
  {
    hide Rounds, Divides, Power;
    PowerNext(1022);
    PowerNext(1023);
    QuotientLaws(a, delta, numPoints);
    RoundLaws(a, a.quotient(delta, DAMP) + a.quotient(a.quotient(delta, DAMP), numPoints));
  }

  lemma QuotientLaws(a: Arithmetic, delta: nat, numPoints: nat)
    requires Ieee(a) && delta < Power(1024) && numPoints > 0
    ensures 0 <= 4 * a.quotient(delta, DAMP) <= Power(1024)
    ensures 0 <= a.quotient(a.quotient(delta, DAMP), numPoints) <= a.quotient(delta, DAMP)
  {
    hide Rounds, Power;
  }

  lemma RoundLaws(a: Arithmetic, x: nat)
    requires Ieee(a) && x <= Power(1023)
    ensures a.round(x).Finite? && a.round(x).value >= 0
  {
    hide Divides, Power;
  }

  /** The first call of adapt never returns exactly if delta is Infinity: its loop then goes on for ever. */
  lemma FirstCallEndsIff(a: Arithmetic, delta: Num, numPoints: nat)
    requires Ieee(a) && InRange(delta) && numPoints > 0
    ensures FirstBias(a, delta, numPoints).None? <==> delta == Infinite
    ensures (forall m :: GoesOn(Turns(a, FirstD(a, delta, numPoints), m))) <==> delta == Infinite
  {
    hide Rounds, Divides, GoesOn, Turns;
    if delta.Finite? {
      FirstFinite(a, delta.value, numPoints);
    }
    LoopEndsIff(a, FirstD(a, delta, numPoints));
  }

  /** Every later call returns, and i is never 0 again. */
  lemma {:induction false} LaterCallsEnd(a: Arithmetic, input: Str, pos: nat, s: State)
    requires Ieee(a) && pos <= |input| && s.i != Finite(0)
    ensures TailNum(a, input, pos, s) != Hangs
    decreases |input| - pos
  {
    hide ReadNum, LaterBias, FirstBias, Rounds, Divides;
    if pos < |input| {
      var read := ReadNum(a, input, pos, s.i, Finite(1), BASE, s.bias);
      if read.Some? {
        LaterCallsEnd(a, input, read.value.next, InsertNum(a, s, read.value.i).value);
      }
    }
  }

  /** i after the first integer of the label, if it has one. */
  function FirstIndex(a: Arithmetic, input: Str): Option<Num> {
    match ReadNum(a, input, DigitsStart(input), Finite(0), Finite(1), BASE, Known(INITIAL_BIAS))
    case None => None
    case Some(read) => Some(read.i)
  }

  predicate BasicPartIsAscii(input: Str) {
    forall j :: 0 <= j < BasicEnd(input) ==> input[j] < 0x80
  }

  /** decodeLabel never returns exactly if the first integer of a label with an ASCII basic part overflows to
      Infinity. */
  lemma NoAnswerIff(a: Arithmetic, input: Str)
    requires Ieee(a)
    ensures DecodeNum(a, input) == NoAnswer <==> BasicPartIsAscii(input) && FirstIndex(a, input) == Some(Infinite)
  {
    hide Rounds, Divides, ReadNum, FirstBias, LaterBias, Power;
    var pos, s := DigitsStart(input), Initial(input);
    if pos < |input| {
      var read := ReadNum(a, input, pos, s.i, Finite(1), BASE, s.bias);
      PowerIsLarge();
      ReadRange(a, input, pos, s.i, Finite(1), BASE, s.bias);
      if read.Some? {
        FirstCallEndsIff(a, read.value.i, |s.output| + 1);
        if InsertNum(a, s, read.value.i).Some? {
          LaterCallsEnd(a, input, read.value.next, InsertNum(a, s, read.value.i).value);
        }
      }
    } else {
      NothingToRead(a, input, pos);
    }
  }

  lemma NothingToRead(a: Arithmetic, input: Str, pos: nat)
    requires pos >= |input|
    ensures ReadNum(a, input, pos, Finite(0), Finite(1), BASE, Known(INITIAL_BIAS)) == None
  {
  }

  lemma PowerIsLarge()
    ensures Power(1024) > 1
  {
    PowerGrows(1, 1024);
    assert Power(1) == 2;
  }

  lemma {:induction false} PowerGrows(j: nat, k: nat)
    requires j <= k
    ensures Power(j) <= Power(k)
  {
    if j < k {
      PowerGrows(j, k - 1);
    }
  }

  // ---------------------------------------------------------------------------------------------
  // Short labels always return, long ones may not
  // ---------------------------------------------------------------------------------------------

  /** A bound on the logarithm of the weight after m digits of the first integer. */
  function WeightBits(m: nat): nat {
    if m == 0 then 0 else if m == 1 then 6 else 4 * m + 4
  }

  lemma PowerEight(k: nat)
    ensures Power(k + 3) == 8 * Power(k)
  {
    assert Power(k + 1) == 2 * Power(k) && Power(k + 2) == 2 * Power(k + 1) && Power(k + 3) == 2 * Power(k + 2);
  }

  lemma PowerFour(k: nat)
    ensures Power(k + 4) == 16 * Power(k) && Power(k + 6) == 64 * Power(k)
  {
    PowerEight(k);
    PowerEight(k + 3);
    assert Power(k + 4) == 2 * Power(k + 3);
  }

  lemma RoundWithin(a: Arithmetic, x: nat, k: nat)
    requires Ieee(a) && k < 1024 && x <= Power(k)
    ensures a.round(x).Finite? && 0 <= a.round(x).value <= Power(k)
  {
    hide Divides, Power;
  }

  lemma ShortWeight(a: Arithmetic, m: nat, weight: nat)
    requires Ieee(a) && m <= 250 && weight <= Power(WeightBits(m))
    ensures var c := BASE - Threshold((m + 1) * BASE, INITIAL_BIAS);
            var w := Product(a, c, Finite(weight));
            w.Finite? && 0 <= w.value <= Power(WeightBits(m + 1))
  {
    hide Rounds, Divides, Power, Times;
    var c := BASE - Threshold((m + 1) * BASE, INITIAL_BIAS);
    assert c <= 35 && (m >= 2 ==> c == 10);
    AtMostTimes(c, if m >= 2 then 10 else 35, weight);
    PowerFour(WeightBits(m));
    assert Times(10, weight) == 10 * weight by {
      TimesTen(weight);
    }
    RoundWithin(a, c * weight, WeightBits(m + 1));
  }

  lemma TimesTen(w: nat)
    ensures Times(10, w) == 10 * w
  {
  }

  lemma ShortStep(a: Arithmetic, m: nat, i: nat, weight: nat, digit: nat)
    requires Ieee(a) && m <= 250 && weight <= Power(WeightBits(m)) && i <= Power(4 * m + 7) && digit < BASE
    ensures var i' := Plus(a, Finite(i), Product(a, digit, Finite(weight)));
            i'.Finite? && 0 <= i'.value <= Power(4 * m + 11)
  {
    hide Rounds, Divides, Power, Times, Threshold;
    AtMostTimes(digit, 35, weight);
    PowerGrows(WeightBits(m), 4 * m + 4);
    PowerFour(4 * m + 4);
    RoundWithin(a, digit * weight, 4 * m + 10);
    PowerFour(4 * m + 7);
    PowerGrows(4 * m + 7, 4 * m + 10);
    PowerNext(4 * m + 10);
    RoundWithin(a, i + Product(a, digit, Finite(weight)).value, 4 * m + 11);
  }

  lemma PowerNext(k: nat)
    ensures Power(k + 1) == 2 * Power(k)
  {
  }

  lemma {:induction false} ShortRead(a: Arithmetic, input: Str, pos: nat, i: nat, weight: nat, m: nat)
    requires Ieee(a) && weight <= Power(WeightBits(m)) && i <= Power(4 * m + 7)
    requires m + (|input| - pos) <= 250
    ensures var r := ReadNum(a, input, pos, Finite(i), Finite(weight), (m + 1) * BASE, Known(INITIAL_BIAS));
            r.Some? ==> r.value.i.Finite?
    decreases |input| - pos
  {
    hide Rounds, Divides, Power, Plus, Product, WeightBits;
    if pos < |input| && BasicToDigit(input[pos]) < BASE {
      var digit, t := BasicToDigit(input[pos]), Threshold((m + 1) * BASE, INITIAL_BIAS);
      ShortStep(a, m, i, weight, digit);
      var i' := Plus(a, Finite(i), Product(a, digit, Finite(weight)));
      if digit >= t {
        ShortWeight(a, m, weight);
        var w := Product(a, BASE - t, Finite(weight));
        assert 4 * (m + 1) + 7 == 4 * m + 11;
        ShortRead(a, input, pos + 1, i'.value, w.value, m + 1);
      }
    }
  }

  /** Every label of at most 250 characters is answered, and as the integers say; a DNS label has at most 63. */
  lemma ShortLabelsAreAnswered(a: Arithmetic, input: Str)
    requires Ieee(a) && |input| <= 250
    ensures DecodeNum(a, input) == Answer(DecodePoints(input))
  {
    hide Rounds, Divides, DecodeNum, DecodePoints;
    PowerGrows(0, 7);
    assert Power(0) == 1 == Power(WeightBits(0));
    ShortRead(a, input, DigitsStart(input), 0, 1, 0);
    NoAnswerIff(a, input);
    AnswersAlike(a, input);
  }

  /** n zeros, whose digit 26 never ends an integer, and a "b". */
  function Zeros(n: nat): (input: Str)
    ensures |input| == n + 1 && input[n] == 0x62 && forall k :: 0 <= k < n ==> input[k] == 0x30
  {
    seq(n, _ => 0x30) + [0x62]
  }

  /** At least 2^(3m), as far as a double can tell. */
  predicate AtLeast(x: Num, m: nat) {
    x == Infinite || (x.Finite? && Power(3 * m) <= x.value < Power(1024))
  }

  lemma ZeroWeight(a: Arithmetic, weight: Num, m: nat, c: nat)
    requires Ieee(a) && AtLeast(weight, m) && c >= 10
    ensures AtLeast(Product(a, c, weight), m + 1)
  {
    hide Divides, Times, Power;
    if weight.Finite? {
      var w: nat := weight.value;
      AtMostTimes(10, c, w);
      AtMostTimes(c, c, w);
      TimesTen(w);
      PowerEight(3 * m);
      RoundRange(a, c * w);
      assert a.round(c * w).Finite? ==> a.round(c * w).value >= Power(3 * m + 3);
    }
  }

  lemma NotNaN(a: Arithmetic, i: Num, weight: Num, n: nat)
    requires Ieee(a) && InRange(i) && InRange(weight) && i != NotANumber && weight != NotANumber && n > 0
    ensures Plus(a, i, Product(a, n, weight)) != NotANumber
  {
    hide Rounds, Divides, Power;
    StepRange(a, i, weight, n);
    if weight.Finite? {
      AtMostTimes(n, n, weight.value);
      RoundRange(a, n * weight.value);
    }
    if i.Finite? && Product(a, n, weight).Finite? {
      RoundRange(a, i.value + Product(a, n, weight).value);
    }
  }

  lemma {:induction false} ZerosRead(a: Arithmetic, n: nat, m: nat, i: Num, weight: Num)
    requires Ieee(a) && n >= 342 && m <= n && InRange(i) && i != NotANumber && AtLeast(weight, m)
    ensures ReadNum(a, Zeros(n), m, i, weight, (m + 1) * BASE, Known(INITIAL_BIAS)) == Some(Read(Infinite, n + 1))
    decreases n - m
  {
    hide Rounds, Divides, Power, Plus, Product, Zeros;
    var input, t := Zeros(n), Threshold((m + 1) * BASE, INITIAL_BIAS);
    PowerGrows(0, 3 * m);
    if m < n {
      NotNaN(a, i, weight, 26);
      StepRange(a, i, weight, 26);
      ZeroWeight(a, weight, m, BASE - t);
      assert BasicToDigit(input[m]) == 26 && (m + 2) * BASE == (m + 1) * BASE + BASE;
      ZerosRead(a, n, m + 1, Plus(a, i, Product(a, 26, weight)), Product(a, BASE - t, weight));
    } else {
      PowerGrows(1024, 3 * n);
      assert weight == Infinite && BasicToDigit(input[n]) == 1 < t;
      InfiniteSum(a, i);
    }
  }

  lemma InfiniteSum(a: Arithmetic, i: Num)
    requires i != NotANumber
    ensures Plus(a, i, Product(a, 1, Infinite)) == Infinite
  {
  }

  /** A label of 342 zeros or more and a "b": decodeLabel never returns. */
  lemma LongLabelsMayHang(a: Arithmetic, n: nat)
    requires Ieee(a) && n >= 342
    ensures DecodeNum(a, Zeros(n)) == NoAnswer
  {
    hide Rounds, Divides, DecodeNum, ReadNum, Power, AtLeast, Zeros;
    var input := Zeros(n);
    NoDelimiterInZeros(input, n);
    StartsInRange();
    ZerosRead(a, n, 0, Finite(0), Finite(1));
    NoAnswerIff(a, input);
  }

  lemma NoDelimiterInZeros(input: Str, n: nat)
    requires |input| == n + 1 && input[n] == 0x62 && forall k :: 0 <= k < n ==> input[k] == 0x30
    ensures BasicEnd(input) == 0
  {
  }

  lemma StartsInRange()
    ensures InRange(Finite(0)) && AtLeast(Finite(1), 0)
  {
    PowerIsLarge();
    assert Power(0) == 1;
  }

  // ---------------------------------------------------------------------------------------------
  // The laws can be met
  // ---------------------------------------------------------------------------------------------

  /** Integers that are exact up to the range of doubles. */
  const PLAIN: Arithmetic :=
    Arithmetic(x => if 0 <= x < Power(1024) then Finite(x) else Infinite, (p, c) => if c > 0 then p / c else 0)

  lemma LawsCanBeMet()
    ensures Ieee(PLAIN)
  {
    PlainRounds();
    PlainDivides();
  }

  lemma PlainRounds()
    ensures Rounds(PLAIN.round)
  {
    hide Power;
    PowersOfLimits();
    PowerGrows(53, 1023);
    PowerNext(1023);
    forall k: nat | k < 1024 ensures Power(k) < Power(1024) {
      PowerGrows(k, 1023);
    }
  }

  lemma PlainDivides()
    ensures Divides(PLAIN.quotient)
  {
    forall p: nat, c: nat | c > 0 ensures PLAIN.quotient(p, c) == p / c && 0 <= p / c <= p {
      QuotientBound(p, c);
    }
    forall p: nat, c: nat | c > 0 && p >= EXACT_LIMIT ensures p / c >= EXACT_LIMIT / c {
      QuotientMonotone(EXACT_LIMIT, p, c);
    }
    forall p: nat, c: nat | c >= 4 ensures 4 * (p / c) <= p {
      QuarterBound(p, c);
    }
  }

  lemma QuotientMonotone(p: nat, q: nat, c: nat)
    requires c > 0 && p <= q
    ensures p / c <= q / c
  {
    hide Times;
    DivMod(p, c);
    DivMod(q, c);
    if q / c < p / c {
      TimesMonotone(c, q / c + 1, p / c);
      TimesSucc(c, q / c);
    }
  }

  lemma QuarterBound(p: nat, c: nat)
    requires c >= 4
    ensures 4 * (p / c) <= p
  {
    DivMod(p, c);
    TimesFour(p / c, c);
  }

  lemma TimesFour(q: nat, c: nat)
    requires c >= 4
    ensures Times(c, q) >= 4 * q
  {
    assert (c - 4) * q >= 0;
  }
}
