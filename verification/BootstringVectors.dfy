/** Fixed labels and what they decode to.  Encoder and decoder share the parameters of section 5 of RFC 3492, so that
    the round trips hold for any; these labels hold for those of the RFC only: another initial bias, skew, damping
    factor or limit, and another way of halving or scaling in the adaptation, decodes one of them differently. */
module BootstringVectors {
  import opened Options
  import opened Strings
  import opened Bootstring
  import opened BootstringEncoder
  import opened BootstringRoundTrip
  import opened Idn

  /** The digit that ends an integer. */
  lemma Last(input: Str, pos: nat, bias: nat, k: nat, digit: nat)
    requires pos < |input| && BasicToDigit(input[pos]) == digit < Threshold(k, bias)
    ensures ReadInteger(input, pos, bias, k) == Reading(digit, pos + 1)
  {
  }

  /** A digit before it. */
  lemma More(input: Str, pos: nat, bias: nat, k: nat, digit: nat, t: nat, rest: nat, next: nat)
    requires pos < |input| && BasicToDigit(input[pos]) == digit < BASE && Threshold(k, bias) == t <= digit
    requires ReadInteger(input, pos + 1, bias, k + BASE) == Reading(rest, next)
    ensures ReadInteger(input, pos, bias, k) == Reading(digit + Times(BASE - t, rest), next)
  {
    hide Times;
  }

  lemma Turn(d: nat, k: nat)
    requires d > ADAPT_LIMIT
    ensures Settle(d, k) == Settle(d / (BASE - T_MIN), k + BASE)
  {
  }

  lemma Turned(d: nat, k: nat)
    requires d <= ADAPT_LIMIT
    ensures Settle(d, k) == k + Slope(d)
  {
  }

  lemma Ended(input: Str, d: Decoder)
    ensures DecodeTail(input, |input|, d) == Some(d.output)
  {
  }

  /** One integer read, one code point inserted. */
  lemma Step(input: Str, pos: nat, d: Decoder, delta: nat, next: nat, e: Decoder)
    requires pos < |input| && ReadInteger(input, pos, d.bias, BASE) == Reading(delta, next)
    requires 0 < e.i <= |d.output| + 1 && d.n <= e.n
    requires d.i + delta == Times(e.n - d.n, |d.output| + 1) + (e.i - 1)
    requires e.bias == Adapt(delta, |d.output| + 1, d.i == 0)
    requires e.output == d.output[..e.i - 1] + [e.n] + d.output[e.i - 1..]
    ensures DecodeTail(input, pos, d) == DecodeTail(input, next, e)
  {
    hide ReadInteger, Times, Adapt, Insert;
    assert Extends(d, delta, e);
    InsertForm(d, delta, e);
  }

  lemma AdaptIs(delta: nat, numPoints: nat, firstTime: bool)
    requires numPoints > 0
    ensures Adapt(delta, numPoints, firstTime) == Settle(Damped(delta, numPoints, firstTime), 0)
  {
  }

  /** The label's parts, and what follows from its digits. */
  lemma Whole(input: Str, basic: Str, digits: Str, points: seq<CodePoint>)
    requires input == basic + (if |basic| > 0 then [DELIMITER] else []) + digits
    requires AllDigits(digits) && forall c <- basic :: c < 0x80
    requires DecodeTail(input, |input| - |digits|, Decoder(INITIAL_N, 0, INITIAL_BIAS, basic)) == Some(points)
    ensures DecodePoints(input) == Some(points)
  {
    hide DecodeTail, DecodePoints;
    EncodedParts(basic, digits, input);
    PlaceOfDigits(input, basic, digits);
    BasicDecodes(input, basic, points);
  }

  lemma PlaceOfDigits(input: Str, basic: Str, digits: Str)
    requires input == basic + (if |basic| > 0 then [DELIMITER] else []) + digits
    requires BasicEnd(input) == |basic|
    ensures DigitsStart(input) == |input| - |digits|
  {
  }

  /** An insertion without its division. */
  lemma InsertForm(d: Decoder, delta: nat, e: Decoder)
    requires Extends(d, delta, e)
    ensures Insert(d, delta) == e
  {
    hide Times, Adapt;
    Advance(e.n - d.n, |d.output|, e.i - 1);
  }

  const RODOSKOP: Str := [0x64, 0x31, 0x61, 0x6D, 0x6B, 0x62, 0x62, 0x67, 0x62, 0x6C]  // d1amkbbgbl

  lemma Rodoskop1()
    ensures DecodeTail(RODOSKOP, 0, Decoder(0x80, 0, 72, []))
         == DecodeTail(RODOSKOP, 3, Decoder(0x434, 1, 1, [0x434]))
  {
    hide ReadInteger, DecodeTail, Settle, Adapt, Extends;
    Last(RODOSKOP, 2, 72, 108, 0);
    More(RODOSKOP, 1, 72, 72, 27, 1, 0, 3);
    More(RODOSKOP, 0, 72, 36, 3, 1, 27, 3);
    AdaptIs(948, 1, true);
    Turned(2, 0);
    Step(RODOSKOP, 0, Decoder(0x80, 0, 72, []), 948, 3,
         Decoder(0x434, 1, 1, [0x434]));
  }

  lemma Rodoskop2()
    ensures DecodeTail(RODOSKOP, 3, Decoder(0x434, 1, 1, [0x434]))
         == DecodeTail(RODOSKOP, 4, Decoder(0x43A, 2, 6, [0x434, 0x43A]))
  {
    hide ReadInteger, DecodeTail, Settle, Adapt, Extends;
    Last(RODOSKOP, 3, 1, 36, 12);
    AdaptIs(12, 2, false);
    Turned(9, 0);
    Step(RODOSKOP, 3, Decoder(0x434, 1, 1, [0x434]), 12, 4,
         Decoder(0x43A, 2, 6, [0x434, 0x43A]));
  }

  lemma Rodoskop3()
    ensures DecodeTail(RODOSKOP, 4, Decoder(0x43A, 2, 6, [0x434, 0x43A]))
         == DecodeTail(RODOSKOP, 5, Decoder(0x43E, 1, 4, [0x43E, 0x434, 0x43A]))
  {
    hide ReadInteger, DecodeTail, Settle, Adapt, Extends;
    Last(RODOSKOP, 4, 6, 36, 10);
    AdaptIs(10, 3, false);
    Turned(6, 0);
    Step(RODOSKOP, 4, Decoder(0x43A, 2, 6, [0x434, 0x43A]), 10, 5,
         Decoder(0x43E, 1, 4, [0x43E, 0x434, 0x43A]));
  }

  lemma Rodoskop4()
    ensures DecodeTail(RODOSKOP, 5, Decoder(0x43E, 1, 4, [0x43E, 0x434, 0x43A]))
         == DecodeTail(RODOSKOP, 6, Decoder(0x43E, 3, 0, [0x43E, 0x434, 0x43E, 0x43A]))
  {
    hide ReadInteger, DecodeTail, Settle, Adapt, Extends;
    Last(RODOSKOP, 5, 4, 36, 1);
    AdaptIs(1, 4, false);
    Turned(0, 0);
    Step(RODOSKOP, 5, Decoder(0x43E, 1, 4, [0x43E, 0x434, 0x43A]), 1, 6,
         Decoder(0x43E, 3, 0, [0x43E, 0x434, 0x43E, 0x43A]));
  }

  lemma Rodoskop5()
    ensures DecodeTail(RODOSKOP, 6, Decoder(0x43E, 3, 0, [0x43E, 0x434, 0x43E, 0x43A]))
         == DecodeTail(RODOSKOP, 7, Decoder(0x43E, 5, 0, [0x43E, 0x434, 0x43E, 0x43A, 0x43E]))
  {
    hide ReadInteger, DecodeTail, Settle, Adapt, Extends;
    Last(RODOSKOP, 6, 0, 36, 1);
    AdaptIs(1, 5, false);
    Turned(0, 0);
    Step(RODOSKOP, 6, Decoder(0x43E, 3, 0, [0x43E, 0x434, 0x43E, 0x43A]), 1, 7,
         Decoder(0x43E, 5, 0, [0x43E, 0x434, 0x43E, 0x43A, 0x43E]));
  }

  lemma Rodoskop6()
    ensures DecodeTail(RODOSKOP, 7, Decoder(0x43E, 5, 0, [0x43E, 0x434, 0x43E, 0x43A, 0x43E]))
         == DecodeTail(RODOSKOP, 8, Decoder(0x43F, 6, 2, [0x43E, 0x434, 0x43E, 0x43A, 0x43E, 0x43F]))
  {
    hide ReadInteger, DecodeTail, Settle, Adapt, Extends;
    Last(RODOSKOP, 7, 0, 36, 6);
    AdaptIs(6, 6, false);
    Turned(3, 0);
    Step(RODOSKOP, 7, Decoder(0x43E, 5, 0, [0x43E, 0x434, 0x43E, 0x43A, 0x43E]), 6, 8,
         Decoder(0x43F, 6, 2, [0x43E, 0x434, 0x43E, 0x43A, 0x43E, 0x43F]));
  }

  lemma Rodoskop7()
    ensures DecodeTail(RODOSKOP, 8, Decoder(0x43F, 6, 2, [0x43E, 0x434, 0x43E, 0x43A, 0x43E, 0x43F]))
         == DecodeTail(RODOSKOP, 9, Decoder(0x440, 1, 0, [0x440, 0x43E, 0x434, 0x43E, 0x43A, 0x43E, 0x43F]))
  {
    hide ReadInteger, DecodeTail, Settle, Adapt, Extends;
    Last(RODOSKOP, 8, 2, 36, 1);
    AdaptIs(1, 7, false);
    Turned(0, 0);
    Step(RODOSKOP, 8, Decoder(0x43F, 6, 2, [0x43E, 0x434, 0x43E, 0x43A, 0x43E, 0x43F]), 1, 9,
         Decoder(0x440, 1, 0, [0x440, 0x43E, 0x434, 0x43E, 0x43A, 0x43E, 0x43F]));
  }

  lemma Rodoskop8()
    ensures DecodeTail(RODOSKOP, 9, Decoder(0x440, 1, 0, [0x440, 0x43E, 0x434, 0x43E, 0x43A, 0x43E, 0x43F]))
         == DecodeTail(RODOSKOP, 10, Decoder(0x441, 5, 4, [0x440, 0x43E, 0x434, 0x43E, 0x441, 0x43A, 0x43E, 0x43F]))
  {
    hide ReadInteger, DecodeTail, Settle, Adapt, Extends;
    Last(RODOSKOP, 9, 0, 36, 11);
    AdaptIs(11, 8, false);
    Turned(5, 0);
    Step(RODOSKOP, 9, Decoder(0x440, 1, 0, [0x440, 0x43E, 0x434, 0x43E, 0x43A, 0x43E, 0x43F]), 11, 10,
         Decoder(0x441, 5, 4, [0x440, 0x43E, 0x434, 0x43E, 0x441, 0x43A, 0x43E, 0x43F]));
  }

  /** "d1amkbbgbl", the first label of the domain in the opening comment of the source. */
  lemma Rodoskop()
    ensures DecodePoints(RODOSKOP) == Some([0x440, 0x43E, 0x434, 0x43E, 0x441, 0x43A, 0x43E, 0x43F])
  {
    hide DecodeTail, DecodePoints;
    Rodoskop1();
    Rodoskop2();
    Rodoskop3();
    Rodoskop4();
    Rodoskop5();
    Rodoskop6();
    Rodoskop7();
    Rodoskop8();
    Ended(RODOSKOP, Decoder(0x441, 5, 4, [0x440, 0x43E, 0x434, 0x43E, 0x441, 0x43A, 0x43E, 0x43F]));
    Whole(RODOSKOP, [], [0x64, 0x31, 0x61, 0x6D, 0x6B, 0x62, 0x62, 0x67, 0x62, 0x6C],
          [0x440, 0x43E, 0x434, 0x43E, 0x441, 0x43A, 0x43E, 0x43F]);
  }

  const RF: Str := [0x70, 0x31, 0x61, 0x69]  // p1ai

  lemma Rf1()
    ensures DecodeTail(RF, 0, Decoder(0x80, 0, 72, []))
         == DecodeTail(RF, 3, Decoder(0x440, 1, 1, [0x440]))
  {
    hide ReadInteger, DecodeTail, Settle, Adapt, Extends;
    Last(RF, 2, 72, 108, 0);
    More(RF, 1, 72, 72, 27, 1, 0, 3);
    More(RF, 0, 72, 36, 15, 1, 27, 3);
    AdaptIs(960, 1, true);
    Turned(2, 0);
    Step(RF, 0, Decoder(0x80, 0, 72, []), 960, 3,
         Decoder(0x440, 1, 1, [0x440]));
  }

  lemma Rf2()
    ensures DecodeTail(RF, 3, Decoder(0x440, 1, 1, [0x440]))
         == DecodeTail(RF, 4, Decoder(0x444, 2, 4, [0x440, 0x444]))
  {
    hide ReadInteger, DecodeTail, Settle, Adapt, Extends;
    Last(RF, 3, 1, 36, 8);
    AdaptIs(8, 2, false);
    Turned(6, 0);
    Step(RF, 3, Decoder(0x440, 1, 1, [0x440]), 8, 4,
         Decoder(0x444, 2, 4, [0x440, 0x444]));
  }

  /** "p1ai", its second. */
  lemma Rf()
    ensures DecodePoints(RF) == Some([0x440, 0x444])
  {
    hide DecodeTail, DecodePoints;
    Rf1();
    Rf2();
    Ended(RF, Decoder(0x444, 2, 4, [0x440, 0x444]));
    Whole(RF, [], [0x70, 0x31, 0x61, 0x69], [0x440, 0x444]);
  }

  const MUENCHEN: Str := [0x6D, 0x6E, 0x63, 0x68, 0x65, 0x6E, 0x2D, 0x33, 0x79, 0x61]  // mnchen-3ya

  lemma Muenchen1()
    ensures DecodeTail(MUENCHEN, 7, Decoder(0x80, 0, 72, [0x6D, 0x6E, 0x63, 0x68, 0x65, 0x6E]))
         == DecodeTail(MUENCHEN, 10, Decoder(0xFC, 2, 0, [0x6D, 0xFC, 0x6E, 0x63, 0x68, 0x65, 0x6E]))
  {
    hide ReadInteger, DecodeTail, Settle, Adapt, Extends;
    Last(MUENCHEN, 9, 72, 108, 0);
    More(MUENCHEN, 8, 72, 72, 24, 1, 0, 10);
    More(MUENCHEN, 7, 72, 36, 29, 1, 24, 10);
    AdaptIs(869, 7, true);
    Turned(1, 0);
    Step(MUENCHEN, 7, Decoder(0x80, 0, 72, [0x6D, 0x6E, 0x63, 0x68, 0x65, 0x6E]), 869, 10,
         Decoder(0xFC, 2, 0, [0x6D, 0xFC, 0x6E, 0x63, 0x68, 0x65, 0x6E]));
  }

  /** "mnchen-3ya", with a basic part: another initial bias decodes it differently. */
  lemma Muenchen()
    ensures DecodePoints(MUENCHEN) == Some([0x6D, 0xFC, 0x6E, 0x63, 0x68, 0x65, 0x6E])
  {
    hide DecodeTail, DecodePoints;
    Muenchen1();
    Ended(MUENCHEN, Decoder(0xFC, 2, 0, [0x6D, 0xFC, 0x6E, 0x63, 0x68, 0x65, 0x6E]));
    Whole(MUENCHEN, [0x6D, 0x6E, 0x63, 0x68, 0x65, 0x6E], [0x33, 0x79, 0x61],
          [0x6D, 0xFC, 0x6E, 0x63, 0x68, 0x65, 0x6E]);
  }

  const CHINA: Str := [0x66, 0x69, 0x71, 0x73, 0x38, 0x73]  // fiqs8s

  lemma China1()
    ensures DecodeTail(CHINA, 0, Decoder(0x80, 0, 72, []))
         == DecodeTail(CHINA, 3, Decoder(0x4E2D, 1, 21, [0x4E2D]))
  {
    hide ReadInteger, DecodeTail, Settle, Adapt, Extends;
    Last(CHINA, 2, 72, 108, 16);
    More(CHINA, 1, 72, 72, 8, 1, 16, 3);
    More(CHINA, 0, 72, 36, 5, 1, 568, 3);
    AdaptIs(19885, 1, true);
    Turned(56, 0);
    Step(CHINA, 0, Decoder(0x80, 0, 72, []), 19885, 3,
         Decoder(0x4E2D, 1, 21, [0x4E2D]));
  }

  lemma China2()
    ensures DecodeTail(CHINA, 3, Decoder(0x4E2D, 1, 21, [0x4E2D]))
         == DecodeTail(CHINA, 6, Decoder(0x56FD, 2, 61, [0x4E2D, 0x56FD]))
  {
    hide ReadInteger, DecodeTail, Settle, Adapt, Extends;
    Last(CHINA, 5, 21, 108, 18);
    More(CHINA, 4, 21, 72, 34, 26, 18, 6);
    More(CHINA, 3, 21, 36, 18, 15, 214, 6);
    AdaptIs(4512, 2, false);
    Turn(3384, 0);
    Turned(96, 36);
    Step(CHINA, 3, Decoder(0x4E2D, 1, 21, [0x4E2D]), 4512, 6,
         Decoder(0x56FD, 2, 61, [0x4E2D, 0x56FD]));
  }

  /** "fiqs8s": so does a damping factor of 70. */
  lemma China()
    ensures DecodePoints(CHINA) == Some([0x4E2D, 0x56FD])
  {
    hide DecodeTail, DecodePoints;
    China1();
    China2();
    Ended(CHINA, Decoder(0x56FD, 2, 61, [0x4E2D, 0x56FD]));
    Whole(CHINA, [], [0x66, 0x69, 0x71, 0x73, 0x38, 0x73], [0x4E2D, 0x56FD]);
  }

  const THREE_HAN: Str := [0x73, 0x6D, 0x7A, 0x6E, 0x32, 0x73, 0x30, 0x6F, 0x6D]  // smzn2s0om

  lemma ThreeHan1()
    ensures DecodeTail(THREE_HAN, 0, Decoder(0x80, 0, 72, []))
         == DecodeTail(THREE_HAN, 3, Decoder(0x79D7, 1, 25, [0x79D7]))
  {
    hide ReadInteger, DecodeTail, Settle, Adapt, Extends;
    Last(THREE_HAN, 2, 72, 108, 25);
    More(THREE_HAN, 1, 72, 72, 12, 1, 25, 3);
    More(THREE_HAN, 0, 72, 36, 18, 1, 887, 3);
    AdaptIs(31063, 1, true);
    Turned(88, 0);
    Step(THREE_HAN, 0, Decoder(0x80, 0, 72, []), 31063, 3,
         Decoder(0x79D7, 1, 25, [0x79D7]));
  }

  lemma ThreeHan2()
    ensures DecodeTail(THREE_HAN, 3, Decoder(0x79D7, 1, 25, [0x79D7]))
         == DecodeTail(THREE_HAN, 6, Decoder(0x8406, 1, 62, [0x8406, 0x79D7]))
  {
    hide ReadInteger, DecodeTail, Settle, Adapt, Extends;
    Last(THREE_HAN, 5, 25, 108, 18);
    More(THREE_HAN, 4, 25, 72, 28, 26, 18, 6);
    More(THREE_HAN, 3, 25, 36, 13, 11, 208, 6);
    AdaptIs(5213, 2, false);
    Turn(3909, 0);
    Turned(111, 36);
    Step(THREE_HAN, 3, Decoder(0x79D7, 1, 25, [0x79D7]), 5213, 6,
         Decoder(0x8406, 1, 62, [0x8406, 0x79D7]));
  }

  lemma ThreeHan3()
    ensures DecodeTail(THREE_HAN, 6, Decoder(0x8406, 1, 62, [0x8406, 0x79D7]))
         == DecodeTail(THREE_HAN, 9, Decoder(0x92EA, 2, 66, [0x8406, 0x92EA, 0x79D7]))
  {
    hide ReadInteger, DecodeTail, Settle, Adapt, Extends;
    Last(THREE_HAN, 8, 62, 108, 12);
    More(THREE_HAN, 7, 62, 72, 14, 10, 12, 9);
    More(THREE_HAN, 6, 62, 36, 26, 1, 326, 9);
    AdaptIs(11436, 3, false);
    Turn(7624, 0);
    Turned(217, 36);
    Step(THREE_HAN, 6, Decoder(0x8406, 1, 62, [0x8406, 0x79D7]), 11436, 9,
         Decoder(0x92EA, 2, 66, [0x8406, 0x92EA, 0x79D7]));
  }

  /** "smzn2s0om": another skew, or another share of later deltas. */
  lemma ThreeHan()
    ensures DecodePoints(THREE_HAN) == Some([0x8406, 0x92EA, 0x79D7])
  {
    hide DecodeTail, DecodePoints;
    ThreeHan1();
    ThreeHan2();
    ThreeHan3();
    Ended(THREE_HAN, Decoder(0x92EA, 2, 66, [0x8406, 0x92EA, 0x79D7]));
    Whole(THREE_HAN, [], [0x73, 0x6D, 0x7A, 0x6E, 0x32, 0x73, 0x30, 0x6F, 0x6D], [0x8406, 0x92EA, 0x79D7]);
  }

  const TWO_PLANES: Str := [0x68, 0x68, 0x34, 0x6B, 0x79, 0x30, 0x34, 0x36, 0x70]  // hh4ky046p

  lemma TwoPlanes1()
    ensures DecodeTail(TWO_PLANES, 0, Decoder(0x80, 0, 72, []))
         == DecodeTail(TWO_PLANES, 4, Decoder(0x26F8E, 1, 33, [0x26F8E]))
  {
    hide ReadInteger, DecodeTail, Settle, Adapt, Extends;
    Last(TWO_PLANES, 3, 72, 144, 10);
    More(TWO_PLANES, 2, 72, 108, 30, 26, 10, 4);
    More(TWO_PLANES, 1, 72, 72, 7, 1, 130, 4);
    More(TWO_PLANES, 0, 72, 36, 7, 1, 4557, 4);
    AdaptIs(159502, 1, true);
    Turned(454, 0);
    Step(TWO_PLANES, 0, Decoder(0x80, 0, 72, []), 159502, 4,
         Decoder(0x26F8E, 1, 33, [0x26F8E]));
  }

  lemma TwoPlanes2()
    ensures DecodeTail(TWO_PLANES, 4, Decoder(0x26F8E, 1, 33, [0x26F8E]))
         == DecodeTail(TWO_PLANES, 9, Decoder(0x719A9, 2, 104, [0x26F8E, 0x719A9]))
  {
    hide ReadInteger, DecodeTail, Settle, Adapt, Extends;
    Last(TWO_PLANES, 8, 33, 180, 15);
    More(TWO_PLANES, 7, 33, 144, 32, 26, 15, 9);
    More(TWO_PLANES, 6, 33, 108, 30, 26, 182, 9);
    More(TWO_PLANES, 5, 33, 72, 26, 26, 1850, 9);
    More(TWO_PLANES, 4, 33, 36, 24, 3, 18526, 9);
    AdaptIs(611382, 2, false);
    Turn(458536, 0);
    Turn(13101, 36);
    Turned(374, 72);
    Step(TWO_PLANES, 4, Decoder(0x26F8E, 1, 33, [0x26F8E]), 611382, 9,
         Decoder(0x719A9, 2, 104, [0x26F8E, 0x719A9]));
  }

  /** "hh4ky046p": a damping factor of 699, or a limit of 400. */
  lemma TwoPlanes()
    ensures DecodePoints(TWO_PLANES) == Some([0x26F8E, 0x719A9])
  {
    hide DecodeTail, DecodePoints;
    TwoPlanes1();
    TwoPlanes2();
    Ended(TWO_PLANES, Decoder(0x719A9, 2, 104, [0x26F8E, 0x719A9]));
    Whole(TWO_PLANES, [], [0x68, 0x68, 0x34, 0x6B, 0x79, 0x30, 0x34, 0x36, 0x70], [0x26F8E, 0x719A9]);
  }

  const HIGH_PLANES: Str := [0x39, 0x6B, 0x34, 0x6B, 0x68, 0x34, 0x31, 0x38, 0x32, 0x63]  // 9k4kh4182c

  lemma HighPlanes1()
    ensures DecodeTail(HIGH_PLANES, 0, Decoder(0x80, 0, 72, []))
         == DecodeTail(HIGH_PLANES, 4, Decoder(0x27013, 1, 45, [0x27013]))
  {
    hide ReadInteger, DecodeTail, Settle, Adapt, Extends;
    Last(HIGH_PLANES, 3, 72, 144, 10);
    More(HIGH_PLANES, 2, 72, 108, 30, 26, 10, 4);
    More(HIGH_PLANES, 1, 72, 72, 10, 1, 130, 4);
    More(HIGH_PLANES, 0, 72, 36, 35, 1, 4560, 4);
    AdaptIs(159635, 1, true);
    Turn(456, 0);
    Turned(13, 36);
    Step(HIGH_PLANES, 0, Decoder(0x80, 0, 72, []), 159635, 4,
         Decoder(0x27013, 1, 45, [0x27013]));
  }

  lemma HighPlanes2()
    ensures DecodeTail(HIGH_PLANES, 4, Decoder(0x27013, 1, 45, [0x27013]))
         == DecodeTail(HIGH_PLANES, 10, Decoder(0x103E45, 1, 124, [0x103E45, 0x27013]))
  {
    hide ReadInteger, DecodeTail, Settle, Adapt, Extends;
    Last(HIGH_PLANES, 9, 45, 216, 2);
    More(HIGH_PLANES, 8, 45, 180, 28, 26, 2, 10);
    More(HIGH_PLANES, 7, 45, 144, 34, 26, 48, 10);
    More(HIGH_PLANES, 6, 45, 108, 27, 26, 514, 10);
    More(HIGH_PLANES, 5, 45, 72, 30, 26, 5167, 10);
    More(HIGH_PLANES, 4, 45, 36, 7, 1, 51700, 10);
    AdaptIs(1809507, 2, false);
    Turn(1357129, 0);
    Turn(38775, 36);
    Turn(1107, 72);
    Turned(31, 108);
    Step(HIGH_PLANES, 4, Decoder(0x27013, 1, 45, [0x27013]), 1809507, 10,
         Decoder(0x103E45, 1, 124, [0x103E45, 0x27013]));
  }

  /** "9k4kh4182c": a damping factor of 701, or a limit of 456. */
  lemma HighPlanes()
    ensures DecodePoints(HIGH_PLANES) == Some([0x103E45, 0x27013])
  {
    hide DecodeTail, DecodePoints;
    HighPlanes1();
    HighPlanes2();
    Ended(HIGH_PLANES, Decoder(0x103E45, 1, 124, [0x103E45, 0x27013]));
    Whole(HIGH_PLANES, [], [0x39, 0x6B, 0x34, 0x6B, 0x68, 0x34, 0x31, 0x38, 0x32, 0x63], [0x103E45, 0x27013]);
  }

  const FALLING: Str := [0x73, 0x68, 0x36, 0x71, 0x6F, 0x35, 0x76]  // sh6qo5v

  lemma Falling1()
    ensures DecodeTail(FALLING, 0, Decoder(0x80, 0, 72, []))
         == DecodeTail(FALLING, 4, Decoder(0x39847, 1, 48, [0x39847]))
  {
    hide ReadInteger, DecodeTail, Settle, Adapt, Extends;
    Last(FALLING, 3, 72, 144, 16);
    More(FALLING, 2, 72, 108, 32, 26, 16, 4);
    More(FALLING, 1, 72, 72, 7, 1, 192, 4);
    More(FALLING, 0, 72, 36, 18, 1, 6727, 4);
    AdaptIs(235463, 1, true);
    Turn(672, 0);
    Turned(19, 36);
    Step(FALLING, 0, Decoder(0x80, 0, 72, []), 235463, 4,
         Decoder(0x39847, 1, 48, [0x39847]));
  }

  lemma Falling2()
    ensures DecodeTail(FALLING, 4, Decoder(0x39847, 1, 48, [0x39847]))
         == DecodeTail(FALLING, 7, Decoder(0x3ABA7, 1, 66, [0x3ABA7, 0x39847]))
  {
    hide ReadInteger, DecodeTail, Settle, Adapt, Extends;
    Last(FALLING, 6, 48, 108, 21);
    More(FALLING, 5, 48, 72, 31, 24, 21, 7);
    More(FALLING, 4, 48, 36, 14, 1, 283, 7);
    AdaptIs(9919, 2, false);
    Turn(7438, 0);
    Turned(212, 36);
    Step(FALLING, 4, Decoder(0x39847, 1, 48, [0x39847]), 9919, 7,
         Decoder(0x3ABA7, 1, 66, [0x3ABA7, 0x39847]));
  }

  /** "sh6qo5v": a divisor of 36 in the loop. */
  lemma Falling()
    ensures DecodePoints(FALLING) == Some([0x3ABA7, 0x39847])
  {
    hide DecodeTail, DecodePoints;
    Falling1();
    Falling2();
    Ended(FALLING, Decoder(0x3ABA7, 1, 66, [0x3ABA7, 0x39847]));
    Whole(FALLING, [], [0x73, 0x68, 0x36, 0x71, 0x6F, 0x35, 0x76], [0x3ABA7, 0x39847]);
  }

  const AT_THE_LIMIT: Str := [0x61, 0x61, 0x61, 0x2D, 0x39, 0x38, 0x31, 0x73, 0x6B, 0x62]  // aaa-981skb

  lemma AtTheLimit1()
    ensures DecodeTail(AT_THE_LIMIT, 4, Decoder(0x80, 0, 72, [0x61, 0x61, 0x61]))
         == DecodeTail(AT_THE_LIMIT, 8, Decoder(0xF954, 1, 33, [0xF954, 0x61, 0x61, 0x61]))
  {
    hide ReadInteger, DecodeTail, Settle, Adapt, Extends;
    Last(AT_THE_LIMIT, 7, 72, 144, 18);
    More(AT_THE_LIMIT, 6, 72, 108, 27, 26, 18, 8);
    More(AT_THE_LIMIT, 5, 72, 72, 34, 1, 207, 8);
    More(AT_THE_LIMIT, 4, 72, 36, 35, 1, 7279, 8);
    AdaptIs(254800, 4, true);
    Turned(455, 0);
    Step(AT_THE_LIMIT, 4, Decoder(0x80, 0, 72, [0x61, 0x61, 0x61]), 254800, 8,
         Decoder(0xF954, 1, 33, [0xF954, 0x61, 0x61, 0x61]));
  }

  lemma AtTheLimit2()
    ensures DecodeTail(AT_THE_LIMIT, 8, Decoder(0xF954, 1, 33, [0xF954, 0x61, 0x61, 0x61]))
         == DecodeTail(AT_THE_LIMIT, 10, Decoder(0xF95C, 5, 14, [0xF954, 0x61, 0x61, 0x61, 0xF95C]))
  {
    hide ReadInteger, DecodeTail, Settle, Adapt, Extends;
    Last(AT_THE_LIMIT, 9, 33, 72, 1);
    More(AT_THE_LIMIT, 8, 33, 36, 10, 3, 1, 10);
    AdaptIs(43, 5, false);
    Turned(25, 0);
    Step(AT_THE_LIMIT, 8, Decoder(0xF954, 1, 33, [0xF954, 0x61, 0x61, 0x61]), 43, 10,
         Decoder(0xF95C, 5, 14, [0xF954, 0x61, 0x61, 0x61, 0xF95C]));
  }

  /** "aaa-981skb": a limit of 454. */
  lemma AtTheLimit()
    ensures DecodePoints(AT_THE_LIMIT) == Some([0xF954, 0x61, 0x61, 0x61, 0xF95C])
  {
    hide DecodeTail, DecodePoints;
    AtTheLimit1();
    AtTheLimit2();
    Ended(AT_THE_LIMIT, Decoder(0xF95C, 5, 14, [0xF954, 0x61, 0x61, 0x61, 0xF95C]));
    Whole(AT_THE_LIMIT, [0x61, 0x61, 0x61], [0x39, 0x38, 0x31, 0x73, 0x6B, 0x62], [0xF954, 0x61, 0x61, 0x61, 0xF95C]);
  }

  lemma LowerCaseKept(input: Str)
    requires forall j :: 0 <= j < |input| ==> LowerUnit(input[j]) == input[j]
    ensures LowerDigits(input) == input
  {
  }

  /** The domain in the opening comment of the source, "xn--d1amkbbgbl.xn--p1ai", is shown as it says. */
  lemma DocumentedDomain()
    ensures DecodeIdnDomain(Some([0x78, 0x6E, 0x2D, 0x2D] + RODOSKOP + [0x2E] + [0x78, 0x6E, 0x2D, 0x2D] + RF))
         == [0x440, 0x43E, 0x434, 0x43E, 0x441, 0x43A, 0x43E, 0x43F, 0x2E, 0x440, 0x444]
  {
    hide DecodePoints, Encode, DecodeIdnDomain, LowerDigits, Utf16;
    var a: seq<CodePoint> := [0x440, 0x43E, 0x434, 0x43E, 0x441, 0x43A, 0x43E, 0x43F];
    var b: seq<CodePoint> := [0x440, 0x444];
    Rodoskop();
    Rf();
    EncodeDecode(RODOSKOP, a);
    EncodeDecode(RF, b);
    LowerCaseKept(RODOSKOP);
    LowerCaseKept(RF);
    BmpText(a);
    BmpText(b);
    TwoLabels(a, b);
    assert ACE_PREFIX == [0x78, 0x6E, 0x2D, 0x2D];
  }

  lemma TwoLabels(a: seq<CodePoint>, b: seq<CodePoint>)
    requires DOT !in a && DOT !in b
    ensures DecodeIdnDomain(Some(ACE_PREFIX + Encode(a) + [DOT] + ACE_PREFIX + Encode(b)))
         == Utf16(a) + [DOT] + Utf16(b)
  {
    hide Encode, Utf16, DecodeIdnDomain;
    var us := [a, b];
    DomainRoundTrip(us);
    assert AceLabels(us) == [ToAce(a), ToAce(b)] && ShownLabels(us) == [Utf16(a), Utf16(b)];
    TwoJoined(ToAce(a), ToAce(b));
    TwoJoined(Utf16(a), Utf16(b));
    assert ToAce(a) + [DOT] + ToAce(b) == ACE_PREFIX + Encode(a) + [DOT] + ACE_PREFIX + Encode(b);
  }

  lemma TwoJoined(x: Str, y: Str)
    ensures Join([x, y], DOT) == x + [DOT] + y
  {
    assert [x, y][1..] == [y];
  }
}
