/** The Punycode encoder of section 6.3 of RFC 3492, which the repository does not contain: the reference
    that the decoder is measured against. */
module BootstringEncoder {
  import opened Options
  import opened Bootstring

  function DigitToBasic(digit: nat): (c: Unit)
    requires digit < BASE
    ensures BasicToDigit(c) == digit
  {
    if digit < 26 then 0x61 + digit else 0x30 + (digit - 26)
  }

  lemma QuotientShrinks(q: nat, t: nat)
    requires 1 <= t <= 26 && t <= q
    ensures (q - t) / (36 - t) < q
    ensures (q - t) % (36 - t) + t < 36
  {
    QuotientBound(q - t, 36 - t);
  }

  predicate AllDigits(s: Str) {
    forall c <- s :: BasicToDigit(c) < BASE
  }

  /** The digits of q under the thresholds of a bias, from position k on. */
  function WriteInteger(q: nat, bias: nat, k: nat): (digits: Str)
    ensures |digits| > 0
    ensures AllDigits(digits)
    decreases q
  {
    var t := Threshold(k, bias);
    if q < t then [DigitToBasic(q)]
    else
      QuotientShrinks(q, t);
      var high, low := (q - t) / (BASE - t), t + (q - t) % (BASE - t);
      [DigitToBasic(low)] + WriteInteger(high, bias, k + BASE)
  }

  /** The least code point of u that is at least x. */
  function NextCode(u: seq<CodePoint>, x: nat): (m: Option<CodePoint>)
    ensures m.None? ==> forall c <- u :: c < x
    ensures m.Some? ==> m.value in u && m.value >= x && forall c <- u :: c >= x ==> c >= m.value
  {
    if u == [] then None
    else
      assert forall c <- u :: c == u[0] || c in u[1..];
      match NextCode(u[1..], x)
      case None => if u[0] >= x then Some(u[0]) else None
      case Some(m) => if x <= u[0] < m then Some(u[0]) else Some(m)
  }

  /** The outer loop: move on to the next code point still to be handled, or stop when all h are. */
  function EncodeFrom(u: seq<CodePoint>, n: nat, delta: nat, bias: nat, h: nat, b: nat): (digits: Str)
    requires n <= MAX_CODE_POINT + 1
    ensures AllDigits(digits)
    decreases MAX_CODE_POINT + 1 - n, |u| + 1
  {
    if h >= |u| then []
    else
      match NextCode(u, n)
      case None => []
      case Some(m) => EncodeScan(u, m, 0, delta + Times(m - n, h + 1), bias, h, b)
  }

  /** The inner loop: one pass over u at code point n. */
  function EncodeScan(u: seq<CodePoint>, n: CodePoint, j: nat, delta: nat, bias: nat, h: nat, b: nat): (digits: Str)
    requires j <= |u|
    ensures AllDigits(digits)
    decreases MAX_CODE_POINT + 1 - n, |u| - j
  {
    if j == |u| then EncodeFrom(u, n + 1, delta + 1, bias, h, b)
    else if u[j] < n then EncodeScan(u, n, j + 1, delta + 1, bias, h, b)
    else if u[j] == n then
      WriteInteger(delta, bias, BASE) + EncodeScan(u, n, j + 1, 0, Adapt(delta, h + 1, h == b), h + 1, b)
    else EncodeScan(u, n, j + 1, delta, bias, h, b)
  }

  /** The elements of s below x, in order. */
  function Below(s: seq<nat>, x: nat): (r: seq<nat>)
    ensures |r| <= |s|
    ensures forall c <- r :: c < x && c in s
  {
    if s == [] then [] else (if s[0] < x then [s[0]] else []) + Below(s[1..], x)
  }

  function Basic(u: seq<nat>): (basic: Str)
    ensures basic == Below(u, INITIAL_N)
    ensures forall c <- basic :: c < 0x80
  {
    var basic := Below(u, INITIAL_N);
    assert forall k :: 0 <= k < |basic| ==> basic[k] in basic;
    basic
  }

  /** The basic code points, the delimiter if there are any, then the digits. */
  function Encode(u: seq<CodePoint>): Str {
    var basic: Str := Basic(u);
    basic + (if |basic| > 0 then [DELIMITER] else [])
    + EncodeFrom(u, INITIAL_N, 0, INITIAL_BIAS, |basic|, |basic|)
  }

  // ---------------------------------------------------------------------------------------------
  // Below
  // ---------------------------------------------------------------------------------------------

  lemma {:induction false} BelowConcat(s: seq<nat>, t: seq<nat>, x: nat)
    ensures Below(s + t, x) == Below(s, x) + Below(t, x)
  {
    if s == [] {
      assert s + t == t;
    } else {
      assert (s + t)[1..] == s[1..] + t;
      BelowConcat(s[1..], t, x);
    }
  }

  lemma BelowSplit(s: seq<nat>, j: nat, x: nat)
    requires j <= |s|
    ensures Below(s, x) == Below(s[..j], x) + Below(s[j..], x)
  {
    assert s == s[..j] + s[j..];
    BelowConcat(s[..j], s[j..], x);
  }

  lemma BelowStep(s: seq<nat>, j: nat, x: nat)
    requires j < |s|
    ensures Below(s[..j + 1], x) == Below(s[..j], x) + (if s[j] < x then [s[j]] else [])
    ensures Below(s[j..], x) == (if s[j] < x then [s[j]] else []) + Below(s[j + 1..], x)
  {
    assert s[..j + 1] == s[..j] + [s[j]];
    BelowConcat(s[..j], [s[j]], x);
    assert s[j..][1..] == s[j + 1..];
  }

  /** Two bounds with no element of s between them keep the same elements. */
  lemma {:induction false} BelowSame(s: seq<nat>, x: nat, y: nat)
    requires forall c <- s :: c < x <==> c < y
    ensures Below(s, x) == Below(s, y)
  {
    if s != [] {
      assert s[0] in s && forall c <- s[1..] :: c in s;
      BelowSame(s[1..], x, y);
    }
  }

  lemma {:induction false} BelowNone(s: seq<nat>, x: nat)
    requires forall c <- s :: c >= x
    ensures Below(s, x) == []
  {
    if s != [] {
      assert s[0] in s && forall c <- s[1..] :: c in s;
      BelowNone(s[1..], x);
    }
  }

  lemma {:induction false} BelowAll(s: seq<nat>, x: nat)
    ensures (forall c <- s :: c < x) ==> Below(s, x) == s
    ensures |Below(s, x)| == |s| ==> Below(s, x) == s
  {
    if s != [] {
      assert s[0] in s && forall c <- s[1..] :: c in s;
      BelowAll(s[1..], x);
      assert s == [s[0]] + s[1..];
    }
  }

  /** A prefix of the kept elements is kept by a prefix of s. */
  lemma {:induction false} SplitAt(s: seq<nat>, x: nat, i: nat) returns (j: nat)
    requires i <= |Below(s, x)|
    ensures j <= |s| && Below(s[..j], x) == Below(s, x)[..i] && Below(s[j..], x) == Below(s, x)[i..]
  {
    j := CountTo(s, x, i);
    BelowSplit(s, j, x);
  }

  lemma {:induction false} CountTo(s: seq<nat>, x: nat, i: nat) returns (j: nat)
    requires i <= |Below(s, x)|
    ensures j <= |s| && |Below(s[..j], x)| == i
  {
    var last := |s| - 1;
    if i == |Below(s, x)| {
      j := |s|;
      assert s[..j] == s;
    } else {
      BelowStep(s, last, x);
      assert s[..last + 1] == s;
      j := CountTo(s[..last], x, i);
      assert s[..last][..j] == s[..j];
    }
  }

  /** The last kept element of s, and where it stands. */
  lemma {:induction false} LastKept(s: seq<nat>, x: nat) returns (k: nat)
    requires Below(s, x) != []
    ensures k < |s| && s[k] < x
    ensures Below(s, x) == Below(s[..k], x) + [s[k]]
    ensures forall m :: k < m < |s| ==> s[m] >= x
  {
    var last := |s| - 1;
    BelowStep(s, last, x);
    assert s[..last + 1] == s;
    if s[last] < x {
      k := last;
    } else {
      k := LastKept(s[..last], x);
      assert s[..last][..k] == s[..k];
    }
  }

  lemma {:induction false} BelowMember(s: seq<nat>, m: nat, x: nat)
    requires m < |s| && s[m] < x
    ensures s[m] in Below(s, x)
  {
    BelowStep(s, m, x);
    BelowSplit(s, m, x);
  }
}
