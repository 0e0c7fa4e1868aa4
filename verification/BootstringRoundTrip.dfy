/** The decoder and the encoder undo each other, in both directions. */
module BootstringRoundTrip {
  import opened Options
  import opened Strings
  import opened Bootstring
  import opened BootstringEncoder

  // ---------------------------------------------------------------------------------------------
  // Variable-length integers
  // ---------------------------------------------------------------------------------------------

  lemma DivModUnique(r: nat, c: nat, v: nat)
    requires r < c
    ensures (r + Times(c, v)) % c == r
    ensures (r + Times(c, v)) / c == v
  {
    hide Times;
    var a := r + Times(c, v);
    var q := a / c;
    DivMod(a, c);
    TimesSucc(c, v);
    TimesSucc(c, q);
    if q > v {
      TimesMonotone(c, v + 1, q);
    } else if q < v {
      TimesMonotone(c, q + 1, v);
    }
  }

  lemma {:induction false} ReadWritten(q: nat, bias: nat, k: nat, input: Str, pos: nat, rest: Str)
    requires pos <= |input|
    requires input[pos..] == WriteInteger(q, bias, k) + rest
    ensures ReadInteger(input, pos, bias, k) == Reading(q, |input| - |rest|)
    decreases q
  {
    var t := Threshold(k, bias);
    var digits := WriteInteger(q, bias, k);
    assert input[pos] == input[pos..][0] == digits[0];
    if q >= t {
      var c := BASE - t;
      QuotientShrinks(q, t);
      DivMod(q - t, c);
      assert input[pos + 1..] == input[pos..][1..] == digits[1..] + rest;
      ReadWritten((q - t) / c, bias, k + BASE, input, pos + 1, rest);
    }
  }

  /** Every digit character from pos on is lower case. */
  ghost predicate LowerCase(input: Str, pos: nat) {
    forall j :: pos <= j < |input| ==> !(0x41 <= input[j] <= 0x5A)
  }

  lemma {:induction false} WriteRead(input: Str, pos: nat, bias: nat, k: nat)
    requires pos <= |input| && LowerCase(input, pos)
    requires ReadInteger(input, pos, bias, k).Reading?
    ensures var r := ReadInteger(input, pos, bias, k);
            input[pos..] == WriteInteger(r.value, bias, k) + input[r.next..]
    decreases |input| - pos
  {
    var digit := BasicToDigit(input[pos]);
    var t := Threshold(k, bias);
    assert input[pos..] == [input[pos]] + input[pos + 1..];
    assert DigitToBasic(digit) == input[pos];
    if digit >= t {
      var r := ReadInteger(input, pos + 1, bias, k + BASE);
      WriteRead(input, pos + 1, bias, k + BASE);
      DivModUnique(digit - t, BASE - t, r.value);
    }
  }

  // ---------------------------------------------------------------------------------------------
  // decode(encode(u)) == u
  // ---------------------------------------------------------------------------------------------

  lemma Advance(q: nat, h: nat, at: nat)
    requires at <= h
    ensures (Times(q, h + 1) + at) / (h + 1) == q
    ensures (Times(q, h + 1) + at) % (h + 1) == at
  {
    DivModUnique(at, h + 1, q);
    assert Times(q, h + 1) == Times(h + 1, q);
  }

  lemma TimesStep(n: nat, m: nat, n0: nat, h: nat)
    requires n0 <= n < m
    ensures Times(n - n0, h + 1) + (h + 1) + Times(m - (n + 1), h + 1) == Times(m - n0, h + 1)
  {
  }

  lemma TimesNext(n: nat, m: nat, h: nat)
    requires n < m
    ensures (h + 1) + Times(m - (n + 1), h + 1) == Times(m - n, h + 1)
  {
  }

  /** What has been decoded when the encoder stands at code point n, index j. */
  ghost function Kept(u: seq<CodePoint>, n: nat, j: nat): seq<nat>
    requires j <= |u|
  {
    Below(u[..j], n + 1) + Below(u[j..], n)
  }

  /** The decoder's output is what the encoder has handled, and the pending delta brings its index to j. */
  ghost predicate Lockstep(u: seq<CodePoint>, n: nat, j: nat, delta: nat, bias: nat, h: nat, b: nat, d: Decoder) {
    && j <= |u|
    && d.output == Kept(u, n, j)
    && |d.output| == h
    && d.bias == bias
    && d.n <= n
    && d.i + delta == Times(n - d.n, h + 1) + |Below(u[..j], n + 1)|
    && b <= h
    && (d.i == 0 <==> h == b)
  }

  lemma Assoc(s: seq<nat>, c: nat, t: seq<nat>)
    ensures (s + [c]) + t == s + ([c] + t)
  {
  }

  lemma KeptEqual(u: seq<CodePoint>, n: nat, j: nat)
    requires j < |u| && u[j] == n
    ensures Kept(u, n, j + 1) == Below(u[..j], n + 1) + [n] + Below(u[j..], n)
  {
    BelowStep(u, j, n + 1);
    BelowStep(u, j, n);
  }

  lemma KeptOther(u: seq<CodePoint>, n: nat, j: nat)
    requires j < |u| && u[j] != n
    ensures Kept(u, n, j + 1) == Kept(u, n, j)
  {
    BelowStep(u, j, n + 1);
    BelowStep(u, j, n);
    if u[j] < n {
      Assoc(Below(u[..j], n + 1), u[j], Below(u[j + 1..], n));
    }
  }

  lemma KeptCount(u: seq<CodePoint>, n: nat, j: nat)
    requires j < |u|
    ensures |Below(u[..j + 1], n + 1)| == |Below(u[..j], n + 1)| + (if u[j] <= n then 1 else 0)
  {
    BelowStep(u, j, n + 1);
  }

  lemma KeptNext(u: seq<CodePoint>, n: nat, m: nat)
    requires n < m && forall c <- u :: c > n ==> c >= m
    ensures Kept(u, n, |u|) == Below(u, n + 1) == Below(u, m) == Kept(u, m, 0)
  {
    assert u[..|u|] == u && u[|u|..] == [] && u[..0] == [] && u[0..] == u;
    BelowSame(u, n + 1, m);
  }

  lemma InsertEmitted(u: seq<CodePoint>, n: nat, j: nat, delta: nat, bias: nat, h: nat, b: nat, d: Decoder)
    requires Lockstep(u, n, j, delta, bias, h, b, d)
    requires j < |u| && u[j] == n
    ensures Lockstep(u, n, j + 1, 0, Adapt(delta, h + 1, h == b), h + 1, b, Insert(d, delta))
  {
    var at := |Below(u[..j], n + 1)|;
    Advance(n - d.n, h, at);
    KeptEqual(u, n, j);
    KeptCount(u, n, j);
    assert d.output[..at] == Below(u[..j], n + 1) && d.output[at..] == Below(u[j..], n);
    var d' := Insert(d, delta);
    assert d'.n == n && d'.i == at + 1;
    assert Times(n - d'.n, h + 2) == 0;
  }

  lemma SkipKept(u: seq<CodePoint>, n: nat, j: nat, delta: nat, bias: nat, h: nat, b: nat, d: Decoder)
    requires Lockstep(u, n, j, delta, bias, h, b, d)
    requires j < |u| && u[j] != n
    ensures Lockstep(u, n, j + 1, if u[j] < n then delta + 1 else delta, bias, h, b, d)
  {
    KeptOther(u, n, j);
    KeptCount(u, n, j);
  }

  lemma ReadEmitted(delta: nat, input: Str, pos: nat, rest: Str, d: Decoder) returns (next: nat)
    requires pos <= |input| && input[pos..] == WriteInteger(delta, d.bias, BASE) + rest
    ensures pos < next <= |input| && input[next..] == rest
    ensures DecodeTail(input, pos, d) == DecodeTail(input, next, Insert(d, delta))
  {
    hide WriteInteger, ReadInteger, Insert;
    ReadWritten(delta, d.bias, BASE, input, pos, rest);
    next := |input| - |rest|;
    assert input[next..] == input[pos..][next - pos..] == rest;
  }

  lemma {:induction false} DecodeScan(u: seq<CodePoint>, n: CodePoint, j: nat, delta: nat, bias: nat, h: nat, b: nat,
                                      input: Str, pos: nat, d: Decoder)
    requires Lockstep(u, n, j, delta, bias, h, b, d)
    requires pos <= |input| && input[pos..] == EncodeScan(u, n, j, delta, bias, h, b)
    ensures DecodeTail(input, pos, d) == Some(u)
    decreases MAX_CODE_POINT + 1 - n, |u| - j + 1
  {
    hide Times, Below, ReadInteger, WriteInteger, DecodeTail, Insert, Adapt;
    if j == |u| {
      DecodeFrom(u, n, delta, bias, h, b, input, pos, d);
    } else {
      if u[j] == n {
        var bias' := Adapt(delta, h + 1, h == b);
        var rest := EncodeScan(u, n, j + 1, 0, bias', h + 1, b);
        var next := ReadEmitted(delta, input, pos, rest, d);
        InsertEmitted(u, n, j, delta, bias, h, b, d);
        DecodeScan(u, n, j + 1, 0, bias', h + 1, b, input, next, Insert(d, delta));
      } else {
        var delta' := if u[j] < n then delta + 1 else delta;
        SkipKept(u, n, j, delta, bias, h, b, d);
        DecodeScan(u, n, j + 1, delta', bias, h, b, input, pos, d);
      }
    }
  }

  /** Every code point up to n has been handled. */
  lemma {:induction false} DecodeFrom(u: seq<CodePoint>, n: CodePoint, delta: nat, bias: nat, h: nat, b: nat,
                                      input: Str, pos: nat, d: Decoder)
    requires Lockstep(u, n, |u|, delta, bias, h, b, d)
    requires pos <= |input| && input[pos..] == EncodeFrom(u, n + 1, delta + 1, bias, h, b)
    ensures DecodeTail(input, pos, d) == Some(u)
    decreases MAX_CODE_POINT + 1 - n, 0
  {
    hide EncodeScan, WriteInteger, ReadInteger, Insert, Adapt, Times, Below;
    assert u[..|u|] == u && u[|u|..] == [];
    BelowNone([], n);
    BelowAll(u, n + 1);
    assert d.output == Below(u, n + 1);
    if h < |u| {
      var m := NextCode(u, n + 1).value;
      KeptNext(u, n, m);
      TimesStep(n, m, d.n, h);
      DecodeScan(u, m, 0, delta + 1 + Times(m - (n + 1), h + 1), bias, h, b, input, pos, d);
    }
  }

  lemma LastDelimiter(s: Str, k: nat)
    requires k < |s| && s[k] == DELIMITER && forall j :: k < j < |s| ==> s[j] != DELIMITER
    ensures LastIndexOf(s, DELIMITER) == k
  {
  }

  lemma NoDelimiter(digits: Str)
    requires DELIMITER !in digits
    ensures LastIndexOf(digits, DELIMITER) == -1
  {
    assert forall i :: 0 <= i < |digits| ==> digits[i] in digits;
  }

  /** The decoder finds the encoder's delimiter, if there is one. */
  lemma EncodedParts(basic: Str, digits: Str, input: Str)
    requires AllDigits(digits)
    requires input == basic + (if |basic| > 0 then [DELIMITER] else []) + digits
    ensures BasicEnd(input) == |basic| && input[..|basic|] == basic
    ensures input[DigitsStart(input)..] == digits
  {
    assert BasicToDigit(DELIMITER) == BASE;
    if |basic| == 0 {
      assert input == digits;
      NoDelimiter(digits);
    } else {
      assert input == basic + [DELIMITER] + digits;
      assert forall j :: |basic| < j < |input| ==> input[j] == digits[j - |basic| - 1] && input[j] in digits;
      LastDelimiter(input, |basic|);
    }
  }

  lemma FirstLockstep(u: seq<CodePoint>, m: CodePoint, h: nat, d: Decoder)
    requires d == Decoder(INITIAL_N, 0, INITIAL_BIAS, Below(u, INITIAL_N)) && h == |d.output|
    requires m >= INITIAL_N && forall c <- u :: c >= INITIAL_N ==> c >= m
    ensures Lockstep(u, m, 0, Times(m - INITIAL_N, h + 1), INITIAL_BIAS, h, h, d)
  {
    assert u[..0] == [] && u[0..] == u;
    BelowSame(u, INITIAL_N, m);
    hide Times;
    assert Kept(u, m, 0) == Below(u, m);
  }

  /** The first pass starts at the smallest code point from 128 on. */
  lemma DecodeFirst(u: seq<CodePoint>, input: Str, pos: nat, d: Decoder)
    requires d == Decoder(INITIAL_N, 0, INITIAL_BIAS, Below(u, INITIAL_N))
    requires pos <= |input|
    requires input[pos..] == EncodeFrom(u, INITIAL_N, 0, INITIAL_BIAS, |d.output|, |d.output|)
    ensures DecodeTail(input, pos, d) == Some(u)
  {
    hide EncodeScan, Insert, Times, Below, Lockstep;
    var h := |d.output|;
    BelowAll(u, INITIAL_N);
    if h < |u| {
      var m := NextCode(u, INITIAL_N).value;
      FirstLockstep(u, m, h, d);
      hide EncodeFrom;
      DecodeScan(u, m, 0, Times(m - INITIAL_N, h + 1), INITIAL_BIAS, h, h, input, pos, d);
    }
  }

  lemma BasicDecodes(input: Str, basic: Str, u: seq<CodePoint>)
    requires BasicEnd(input) == |basic| && input[..|basic|] == basic && forall c <- basic :: c < 0x80
    requires DecodeTail(input, DigitsStart(input), Decoder(INITIAL_N, 0, INITIAL_BIAS, basic)) == Some(u)
    ensures DecodePoints(input) == Some(u)
  {
    hide DecodeTail, BasicEnd, DigitsStart;
    assert forall j :: 0 <= j < |basic| ==> basic[j] in basic && input[j] == basic[j];
  }

  /** Decoding what the encoder writes gives back every code point sequence. */
  lemma DecodeEncode(u: seq<CodePoint>)
    ensures DecodePoints(Encode(u)) == Some(u)
  {
    hide DecodeTail, EncodeFrom, DecodePoints, BasicEnd, DigitsStart;
    var basic: Str := Basic(u);
    var digits := EncodeFrom(u, INITIAL_N, 0, INITIAL_BIAS, |basic|, |basic|);
    var input := Encode(u);
    EncodedParts(basic, digits, input);
    DecodeFirst(u, input, DigitsStart(input), Decoder(INITIAL_N, 0, INITIAL_BIAS, basic));
    BasicDecodes(input, basic, u);
  }

  // ---------------------------------------------------------------------------------------------
  // encode(decode(label)) == label
  // ---------------------------------------------------------------------------------------------

  /** The decoder has only inserted up to index i at its current code point. */
  ghost predicate Ordered(d: Decoder) {
    && d.i <= |d.output|
    && (forall k :: 0 <= k < |d.output| ==> d.output[k] <= d.n)
    && (forall k :: d.i <= k < |d.output| ==> d.output[k] < d.n)
  }

  /** The decoder state e after inserting, without the division that finds it. */
  ghost predicate Extends(d: Decoder, delta: nat, e: Decoder) {
    && 0 < e.i <= |d.output| + 1
    && d.n <= e.n
    && d.i + delta == Times(e.n - d.n, |d.output| + 1) + (e.i - 1)
    && e.bias == Adapt(delta, |d.output| + 1, d.i == 0)
    && e.output == d.output[..e.i - 1] + [e.n] + d.output[e.i - 1..]
  }

  lemma InsertExtends(d: Decoder, delta: nat)
    ensures Extends(d, delta, Insert(d, delta))
  {
    var c := |d.output| + 1;
    DivMod(d.i + delta, c);
    assert Times(c, (d.i + delta) / c) == Times((d.i + delta) / c, c);
  }

  lemma StaysOrdered(d: Decoder, delta: nat, e: Decoder)
    requires Ordered(d) && Extends(d, delta, e)
    ensures Ordered(e) && |e.output| == |d.output| + 1
    ensures e.n == d.n ==> e.i == d.i + delta + 1
  {
    assert e.n == d.n ==> Times(e.n - d.n, |d.output| + 1) == 0;
    forall k | 0 <= k < |e.output| ensures e.output[k] <= e.n {
    }
  }

  /** Scanning over a stretch without n only counts the smaller elements. */
  lemma {:induction false} ScanOver(u: seq<CodePoint>, n: CodePoint, j: nat, k: nat, delta: nat, bias: nat, h: nat,
                                    b: nat)
    requires j <= k <= |u| && forall m :: j <= m < k ==> u[m] != n
    ensures EncodeScan(u, n, j, delta, bias, h, b) == EncodeScan(u, n, k, delta + |Below(u[j..k], n)|, bias, h, b)
    decreases k - j
  {
    if j < k {
      var delta' := if u[j] < n then delta + 1 else delta;
      ScanOver(u, n, j + 1, k, delta', bias, h, b);
      assert u[j..k][1..] == u[j + 1..k] && u[j..k][0] == u[j];
    } else {
      assert u[j..k] == [];
    }
  }

  /** Index j of the final string is where the decoder's state d stands in it. */
  ghost predicate At(u: seq<CodePoint>, d: Decoder, j: nat) {
    && j <= |u| && d.i <= |d.output|
    && Below(u[..j], d.n + 1) == d.output[..d.i]
    && Below(u[j..], d.n) == d.output[d.i..]
  }

  lemma {:induction false} OutputStays(input: Str, pos: nat, d: Decoder)
    requires pos <= |input| && DecodeTail(input, pos, d).Some?
    ensures forall c <- d.output :: c in DecodeTail(input, pos, d).value
    ensures |d.output| <= |DecodeTail(input, pos, d).value|
    decreases |input| - pos
  {
    if pos < |input| {
      var r := ReadInteger(input, pos, d.bias, BASE);
      var e := Insert(d, r.value);
      InsertExtends(d, r.value);
      OutputStays(input, r.next, e);
      var at := e.i - 1;
      assert d.output == d.output[..at] + d.output[at..];
      assert forall c <- d.output :: c in e.output;
    }
  }

  /** Where the code point n inserted last stands in the final string. */
  lemma FindInserted(u: seq<CodePoint>, n: nat, j': nat, p: seq<nat>, r: seq<nat>) returns (k: nat)
    requires j' <= |u| && Below(u[..j'], n + 1) == p + [n] && Below(u[j'..], n) == r
    ensures k < j' && u[k] == n && Below(u[..k], n + 1) == p && Below(u[k..], n) == r
    ensures forall m :: k < m < j' ==> u[m] > n
  {
    k := LastKept(u[..j'], n + 1);
    assert u[..j'][..k] == u[..k];
    assert p == (p + [n])[..|p|] == (Below(u[..k], n + 1) + [u[k]])[..|p|];
    forall m | k < m < j' ensures u[m] > n {
      assert u[..j'][m] > n;
    }
    SkipLarger(u, n, k, j');
  }

  lemma SkipLarger(u: seq<CodePoint>, n: nat, k: nat, j': nat)
    requires k < j' <= |u| && u[k] == n && forall m :: k < m < j' ==> u[m] > n
    ensures Below(u[k..], n) == Below(u[j'..], n)
  {
    hide Below;
    var gap := u[k + 1..j'];
    BelowNone(gap, n);
    BelowStep(u, k, n);
    assert u[k + 1..] == gap + u[j'..];
    BelowConcat(gap, u[j'..], n);
  }

  lemma EmitInserted(u: seq<CodePoint>, n: CodePoint, k: nat, j': nat, delta: nat, bias: nat, h: nat, b: nat)
    requires k < j' <= |u| && u[k] == n && forall m :: k < m < j' ==> u[m] > n
    ensures EncodeScan(u, n, k, delta, bias, h, b)
         == WriteInteger(delta, bias, BASE) + EncodeScan(u, n, j', 0, Adapt(delta, h + 1, h == b), h + 1, b)
  {
    ScanOver(u, n, k + 1, j', 0, Adapt(delta, h + 1, h == b), h + 1, b);
    BelowNone(u[k + 1..j'], n);
  }

  /** A stretch keeping only elements below n has none equal to n. */
  lemma NoneEqual(s: seq<CodePoint>, n: nat, kept: seq<nat>)
    requires kept == Below(s, n + 1) && forall c <- kept :: c < n
    ensures Below(s, n) == kept
    ensures forall m :: 0 <= m < |s| ==> s[m] != n
  {
    forall m | 0 <= m < |s| ensures s[m] != n {
      if s[m] == n {
        BelowMember(s, m, n + 1);
      }
    }
    BelowSame(s, n + 1, n);
  }

  /** Same code point as before: the delta is a stretch of the current pass. */
  lemma BackWithinPass(u: seq<CodePoint>, n: CodePoint, k: nat, p: seq<nat>, middle: seq<nat>, r: seq<nat>,
                       bias: nat, h: nat, b: nat) returns (j: nat)
    requires k <= |u|
    requires Below(u[..k], n + 1) == p + middle && Below(u[k..], n) == r
    requires forall c <- middle :: c < n
    ensures j <= |u| && Below(u[..j], n + 1) == p && Below(u[j..], n) == middle + r
    ensures EncodeScan(u, n, j, 0, bias, h, b) == EncodeScan(u, n, k, |middle|, bias, h, b)
  {
    j := SplitAt(u[..k], n + 1, |p|);
    assert u[..k][..j] == u[..j] && u[..k][j..] == u[j..k];
    assert (p + middle)[..|p|] == p && (p + middle)[|p|..] == middle;
    NoneEqual(u[j..k], n, middle);
    forall m | j <= m < k ensures u[m] != n {
      assert u[j..k][m - j] != n;
    }
    ScanOver(u, n, j, k, 0, bias, h, b);
    assert u[j..] == u[j..k] + u[k..];
    BelowConcat(u[j..k], u[k..], n);
  }

  /** A larger code point n': nothing of u lies between n and n', and all up to n is in the output. */
  lemma NothingBetween(u: seq<CodePoint>, n: nat, n': nat, k: nat, p: seq<nat>, r: seq<nat>, output: seq<nat>)
    requires n < n' && k < |u| && u[k] == n'
    requires Below(u[..k], n' + 1) == p && Below(u[k..], n') == r && output == p + r
    requires forall c <- output :: c <= n
    ensures Below(u[..k], n') == p
    ensures forall m :: 0 <= m < k ==> u[m] != n'
    ensures Below(u, n + 1) == output
    ensures forall c <- u :: c > n ==> c >= n'
  {
    hide Below;
    assert forall c <- p :: c in output;
    NoneEqual(u[..k], n', p);
    forall m | 0 <= m < k ensures u[m] != n' {
      assert u[..k][m] != n';
    }
    BelowSplit(u, k, n');
    forall c <- u ensures c > n ==> c >= n' {
      if n < c < n' {
        var m :| 0 <= m < |u| && u[m] == c;
        BelowMember(u, m, n');
      }
    }
    BelowSame(u, n', n + 1);
  }

  lemma ScanEnd(u: seq<CodePoint>, n: CodePoint, delta: nat, bias: nat, h: nat, b: nat)
    ensures EncodeScan(u, n, |u|, delta, bias, h, b) == EncodeFrom(u, n + 1, delta + 1, bias, h, b)
  {
  }

  /** The rest of the current pass, once nothing more is inserted at n. */
  lemma BackToPassStart(u: seq<CodePoint>, n: CodePoint, output: seq<nat>, i: nat, bias: nat, h: nat, b: nat)
    returns (j: nat)
    requires Below(u, n + 1) == output && i <= |output|
    requires forall m :: i <= m < |output| ==> output[m] < n
    ensures j <= |u| && Below(u[..j], n + 1) == output[..i] && Below(u[j..], n) == output[i..]
    ensures EncodeScan(u, n, j, 0, bias, h, b) == EncodeFrom(u, n + 1, |output| - i + 1, bias, h, b)
  {
    hide Below, EncodeScan, EncodeFrom;
    j := SplitAt(u, n + 1, i);
    var tail := output[i..];
    forall c <- tail ensures c < n {
      var m :| 0 <= m < |tail| && tail[m] == c;
      assert tail[m] == output[i + m];
    }
    NoneEqual(u[j..], n, tail);
    forall m | j <= m < |u| ensures u[m] != n {
      assert u[j..][m - j] != n;
    }
    ScanOver(u, n, j, |u|, 0, bias, h, b);
    assert u[j..|u|] == u[j..];
    ScanEnd(u, n, |output| - i, bias, h, b);
  }

  /** The new pass starts at its smallest code point. */
  lemma NextPass(u: seq<CodePoint>, n: CodePoint, n': CodePoint, k: nat, delta: nat, bias: nat, h: nat, b: nat)
    requires n < n' && k < |u| && u[k] == n'
    requires h == |Below(u, n + 1)|
    requires forall c <- u :: c > n ==> c >= n'
    ensures EncodeFrom(u, n + 1, delta, bias, h, b)
         == EncodeScan(u, n', 0, delta + Times(n' - (n + 1), h + 1), bias, h, b)
  {
    hide EncodeScan, Times;
    BelowAll(u, n + 1);
    assert u[k] in u;
    assert NextCode(u, n + 1) == Some(n');
  }

  /** The new pass, up to the place of its first insertion. */
  lemma FirstOfPass(u: seq<CodePoint>, n: CodePoint, n': CodePoint, k: nat, p: seq<nat>, delta: nat, total: nat,
                    bias: nat, h: nat, b: nat)
    requires n < n' && k < |u| && u[k] == n'
    requires Below(u[..k], n') == p && h == |Below(u, n + 1)|
    requires forall m :: 0 <= m < k ==> u[m] != n'
    requires forall c <- u :: c > n ==> c >= n'
    requires total == delta + Times(n' - (n + 1), h + 1) + |p|
    ensures EncodeFrom(u, n + 1, delta, bias, h, b) == EncodeScan(u, n', k, total, bias, h, b)
  {
    NextPass(u, n, n', k, delta, bias, h, b);
    ScanOver(u, n', 0, k, total - |p|, bias, h, b);
    assert u[0..k] == u[..k];
  }

  /** Where the last insertion stands, and that the encoder standing there writes its delta. */
  lemma LastEmitted(u: seq<CodePoint>, d: Decoder, delta: nat, e: Decoder, j': nat, b: nat) returns (k: nat)
    requires Extends(d, delta, e) && e.n <= MAX_CODE_POINT && At(u, e, j')
    ensures k < |u| && u[k] == e.n
    ensures Below(u[..k], e.n + 1) == d.output[..e.i - 1] && Below(u[k..], e.n) == d.output[e.i - 1..]
    ensures EncodeScan(u, e.n, k, delta, d.bias, |d.output|, b)
         == WriteInteger(delta, d.bias, BASE)
            + EncodeScan(u, e.n, j', 0, Adapt(delta, |d.output| + 1, |d.output| == b), |d.output| + 1, b)
  {
    var p, r := d.output[..e.i - 1], d.output[e.i - 1..];
    assert e.output[..e.i] == p + [e.n] && e.output[e.i..] == r;
    k := FindInserted(u, e.n, j', p, r);
    EmitInserted(u, e.n, k, j', delta, d.bias, |d.output|, b);
  }

  /** One insertion undone: the encoder, standing where the decoder stood before it, writes its delta. */
  lemma Undo(u: seq<CodePoint>, d: Decoder, delta: nat, e: Decoder, j': nat, b: nat) returns (j: nat)
    requires Ordered(d) && Extends(d, delta, e) && e.n <= MAX_CODE_POINT
    requires At(u, e, j')
    requires d.i == 0 <==> |d.output| == b
    ensures At(u, d, j)
    ensures EncodeScan(u, d.n, j, 0, d.bias, |d.output|, b)
         == WriteInteger(delta, d.bias, BASE) + EncodeScan(u, e.n, j', 0, e.bias, |d.output| + 1, b)
  {
    hide Times, Below, EncodeScan, WriteInteger, Adapt;
    var k := LastEmitted(u, d, delta, e, j', b);
    if e.n == d.n {
      StaysOrdered(d, delta, e);
      j := UndoWithin(u, d, e.i - 1, k, b);
    } else {
      forall c <- d.output ensures c <= d.n {
      }
      j := UndoAcross(u, d.n, d.output, d.i, e.n, e.i - 1, k, delta, d.bias, |d.output|, b);
    }
  }

  lemma UndoWithin(u: seq<CodePoint>, d: Decoder, at: nat, k: nat, b: nat) returns (j: nat)
    requires Ordered(d) && d.n <= MAX_CODE_POINT && d.i <= at <= |d.output| && k <= |u|
    requires Below(u[..k], d.n + 1) == d.output[..at] && Below(u[k..], d.n) == d.output[at..]
    ensures At(u, d, j)
    ensures EncodeScan(u, d.n, j, 0, d.bias, |d.output|, b) == EncodeScan(u, d.n, k, at - d.i, d.bias, |d.output|, b)
  {
    hide Below, EncodeScan;
    var middle := d.output[d.i..at];
    assert d.output[..at] == d.output[..d.i] + middle && d.output[d.i..] == middle + d.output[at..];
    forall c <- middle ensures c < d.n {
      var m :| 0 <= m < |middle| && middle[m] == c;
      assert middle[m] == d.output[d.i + m];
    }
    j := BackWithinPass(u, d.n, k, d.output[..d.i], middle, d.output[at..], d.bias, |d.output|, b);
  }

  lemma UndoAcross(u: seq<CodePoint>, n: CodePoint, output: seq<nat>, i: nat, n': CodePoint, at: nat, k: nat,
                   delta: nat, bias: nat, h: nat, b: nat) returns (j: nat)
    requires n < n' && i <= |output| && at <= |output| == h && k < |u| && u[k] == n'
    requires (forall c <- output :: c <= n) && (forall m :: i <= m < h ==> output[m] < n)
    requires Below(u[..k], n' + 1) == output[..at] && Below(u[k..], n') == output[at..]
    requires i + delta == Times(n' - n, h + 1) + at
    ensures j <= |u| && Below(u[..j], n + 1) == output[..i] && Below(u[j..], n) == output[i..]
    ensures EncodeScan(u, n, j, 0, bias, h, b) == EncodeScan(u, n', k, delta, bias, h, b)
  {
    hide Times, Below, EncodeScan, EncodeFrom;
    var p := output[..at];
    assert delta == h - i + 1 + Times(n' - (n + 1), h + 1) + |p| by {
      TimesNext(n, n', h);
    }
    assert output == p + output[at..];
    NothingBetween(u, n, n', k, p, output[at..], output);
    j := BackToPassStart(u, n, output, i, bias, h, b);
    FirstOfPass(u, n, n', k, p, h - i + 1, delta, bias, h, b);
  }

  lemma {:induction false} EncodeDecoded(input: Str, pos: nat, d: Decoder, u: seq<CodePoint>, b: nat) returns (j: nat)
    requires pos <= |input| && LowerCase(input, pos)
    requires DecodeTail(input, pos, d) == Some(u)
    requires Ordered(d) && d.n <= MAX_CODE_POINT
    requires b <= |d.output| && (d.i == 0 <==> |d.output| == b)
    ensures At(u, d, j)
    ensures EncodeScan(u, d.n, j, 0, d.bias, |d.output|, b) == input[pos..]
    decreases |input| - pos
  {
    if pos == |input| {
      j := AtTheEnd(d, u, b);
    } else {
      var reading := ReadInteger(input, pos, d.bias, BASE);
      var e := Insert(d, reading.value);
      StepBack(input, reading.next, d, reading.value, e, u);
      var j' := EncodeDecoded(input, reading.next, e, u, b);
      j := Undo(u, d, reading.value, e, j', b);
      WriteRead(input, pos, d.bias, BASE);
    }
  }

  lemma StepBack(input: Str, next: nat, d: Decoder, delta: nat, e: Decoder, u: seq<CodePoint>)
    requires next <= |input| && e == Insert(d, delta) && DecodeTail(input, next, e) == Some(u)
    requires Ordered(d)
    ensures Ordered(e) && Extends(d, delta, e) && e.n <= MAX_CODE_POINT
    ensures |e.output| == |d.output| + 1
  {
    InsertExtends(d, delta);
    StaysOrdered(d, delta, e);
    OutputStays(input, next, e);
    InRange(u, e);
  }

  lemma InRange(u: seq<CodePoint>, e: Decoder)
    requires 0 < e.i <= |e.output| && e.output[e.i - 1] == e.n
    requires forall c <- e.output :: c in u
    ensures e.n <= MAX_CODE_POINT
  {
    assert e.n in e.output;
    var m :| 0 <= m < |u| && u[m] == e.n;
  }

  lemma AtTheEnd(d: Decoder, u: seq<CodePoint>, b: nat) returns (j: nat)
    requires u == d.output && Ordered(d) && d.n <= MAX_CODE_POINT
    ensures At(u, d, j)
    ensures EncodeScan(u, d.n, j, 0, d.bias, |d.output|, b) == []
  {
    j := d.i;
    BelowAll(u[..d.i], d.n + 1);
    BelowAll(u[d.i..], d.n);
    ScanOver(u, d.n, j, |u|, 0, d.bias, |u|, b);
  }

  /** The first pass of the encoder, seen from wherever the decoder's first insertion falls. */
  lemma EncodeFirst(u: seq<CodePoint>, n: CodePoint, j: nat, bias: nat, h: nat)
    requires j <= |u| && Below(u[..j], n + 1) == [] && h == |Below(u, n)| == |Below(u[j..], n)|
    ensures EncodeFrom(u, n, 0, bias, h, h) == EncodeScan(u, n, j, 0, bias, h, h)
  {
    LargerBefore(u, n, j);
    if n in u {
      StartsAt(u, n, bias, h);
      FromStart(u, n, j, bias, h);
    } else {
      SkipsTo(u, n, bias, h);
      ToEnd(u, n, j, bias, h);
    }
  }

  lemma FromStart(u: seq<CodePoint>, n: CodePoint, j: nat, bias: nat, h: nat)
    requires j <= |u| && forall m :: 0 <= m < j ==> u[m] > n
    ensures EncodeScan(u, n, 0, 0, bias, h, h) == EncodeScan(u, n, j, 0, bias, h, h)
  {
    ScanOver(u, n, 0, j, 0, bias, h, h);
    assert u[..j] == u[0..j];
    BelowNone(u[..j], n);
  }

  lemma ToEnd(u: seq<CodePoint>, n: CodePoint, j: nat, bias: nat, h: nat)
    requires j <= |u| && n !in u && h == |Below(u[j..], n)|
    ensures EncodeScan(u, n, j, 0, bias, h, h) == EncodeFrom(u, n + 1, h + 1, bias, h, h)
  {
    forall m | j <= m < |u| ensures u[m] != n {
      assert u[m] in u;
    }
    ScanOver(u, n, j, |u|, 0, bias, h, h);
    assert u[j..|u|] == u[j..];
  }

  lemma LargerBefore(u: seq<CodePoint>, n: CodePoint, j: nat)
    requires j <= |u| && Below(u[..j], n + 1) == []
    ensures forall m :: 0 <= m < j ==> u[m] > n
  {
    forall m | 0 <= m < j ensures u[m] > n {
      if u[m] <= n {
        BelowMember(u[..j], m, n + 1);
      }
    }
  }

  lemma StartsAt(u: seq<CodePoint>, n: CodePoint, bias: nat, h: nat)
    requires n in u && h == |Below(u, n)|
    ensures EncodeFrom(u, n, 0, bias, h, h) == EncodeScan(u, n, 0, 0, bias, h, h)
  {
    hide Below, WriteInteger, EncodeScan;
    BelowAll(u, n);
    assert NextCode(u, n) == Some(n);
  }

  lemma SkipsTo(u: seq<CodePoint>, n: CodePoint, bias: nat, h: nat)
    requires n !in u
    ensures EncodeFrom(u, n, 0, bias, h, h) == EncodeFrom(u, n + 1, h + 1, bias, h, h)
  {
    hide Times, EncodeScan;
    SameNext(u, n);
    if h < |u| && NextCode(u, n).Some? {
      var m := NextCode(u, n).value;
      assert m in u && m != n;
      TimesNext(n, m, h);
    }
  }

  lemma {:induction false} SameNext(u: seq<CodePoint>, n: nat)
    requires n !in u
    ensures NextCode(u, n) == NextCode(u, n + 1)
  {
    if u != [] {
      assert u[0] in u && forall c <- u[1..] :: c in u;
      SameNext(u[1..], n);
    }
  }

  /** What acceptance says of a label's parts. */
  lemma Accepted(input: Str)
    requires DecodePoints(input).Some?
    ensures var basic := input[..BasicEnd(input)];
            (forall c <- basic :: c < INITIAL_N)
            && DecodeTail(input, DigitsStart(input), Decoder(INITIAL_N, 0, INITIAL_BIAS, basic)) == DecodePoints(input)
            && input == basic + (if |basic| > 0 then [DELIMITER] else []) + input[DigitsStart(input)..]
  {
    var e := BasicEnd(input);
    var basic := input[..e];
    forall c <- basic ensures c < INITIAL_N {
      var j :| 0 <= j < e && basic[j] == c;
      assert input[j] == c;
    }
    if e == 0 {
      assert input == input[DigitsStart(input)..];
    } else {
      assert input == input[..e] + [input[e]] + input[e + 1..];
    }
  }

  function LowerUnit(c: Unit): Unit {
    if 0x41 <= c <= 0x5A then c + 0x20 else c
  }

  /** The label with its digits in lower case. */
  function LowerDigits(input: Str): (low: Str)
    ensures |low| == |input|
    ensures forall j :: 0 <= j < |low| ==> low[j] == if j < DigitsStart(input) then input[j] else LowerUnit(input[j])
  {
    seq(|input|, j requires 0 <= j < |input| => if j < DigitsStart(input) then input[j] else LowerUnit(input[j]))
  }

  /** Two labels with the same digit values from some place on. */
  ghost predicate SameDigits(x: Str, y: Str, from: nat) {
    |x| == |y| && forall j :: from <= j < |x| ==> BasicToDigit(x[j]) == BasicToDigit(y[j])
  }

  lemma {:induction false} SameRead(x: Str, y: Str, from: nat, pos: nat, bias: nat, k: nat)
    requires SameDigits(x, y, from) && from <= pos
    ensures ReadInteger(x, pos, bias, k) == ReadInteger(y, pos, bias, k)
    decreases |x| - pos
  {
    if pos < |x| {
      SameRead(x, y, from, pos + 1, bias, k + BASE);
    }
  }

  lemma {:induction false} SameTail(x: Str, y: Str, from: nat, pos: nat, d: Decoder)
    requires SameDigits(x, y, from) && from <= pos <= |x|
    ensures DecodeTail(x, pos, d) == DecodeTail(y, pos, d)
    decreases |x| - pos
  {
    if pos < |x| {
      SameRead(x, y, from, pos, d.bias, BASE);
      var r := ReadInteger(x, pos, d.bias, BASE);
      if r.Reading? {
        SameTail(x, y, from, r.next, Insert(d, r.value));
      }
    }
  }

  lemma LowerParts(input: Str)
    ensures var low := LowerDigits(input);
            && BasicEnd(low) == BasicEnd(input) && low[..BasicEnd(low)] == input[..BasicEnd(low)]
            && SameDigits(input, low, DigitsStart(input)) && LowerCase(low, DigitsStart(low))
  {
    var low := LowerDigits(input);
    LastIndexAt(low, LastIndexOf(input, DELIMITER), DELIMITER);
  }

  /** The case of the digits makes no difference to the decoder. */
  lemma DigitCaseIgnored(input: Str)
    ensures DecodePoints(LowerDigits(input)) == DecodePoints(input)
  {
    var low, e := LowerDigits(input), BasicEnd(input);
    LowerParts(input);
    SameTail(input, low, DigitsStart(input), DigitsStart(input), Decoder(INITIAL_N, 0, INITIAL_BIAS, input[..e]));
    assert forall j :: 0 <= j < e ==> low[j] == input[j];
  }

  /** A label the decoder accepts is, with its digits in lower case, what the encoder writes for the result. */
  lemma EncodeDecode(input: Str, u: seq<CodePoint>)
    requires DecodePoints(input) == Some(u)
    ensures Encode(u) == LowerDigits(input)
  {
    DigitCaseIgnored(input);
    LowerParts(input);
    EncodeDecodeLower(LowerDigits(input), u);
  }

  lemma EncodeDecodeLower(input: Str, u: seq<CodePoint>)
    requires DecodePoints(input) == Some(u)
    requires LowerCase(input, DigitsStart(input))
    ensures Encode(u) == input
  {
    var e, pos := BasicEnd(input), DigitsStart(input);
    var basic := input[..e];
    var d := Decoder(INITIAL_N, 0, INITIAL_BIAS, basic);
    Accepted(input);
    var j := EncodeDecoded(input, pos, d, u, e);
    BasicKept(input, pos, d);
    BelowAll(basic, INITIAL_N);
    assert Below(u, INITIAL_N) == basic;
    assert basic[..0] == [] && basic[0..] == basic;
    EncodeFirst(u, INITIAL_N, j, INITIAL_BIAS, e);
  }

  /** Insertions leave the basic code points alone. */
  lemma {:induction false} BasicKept(input: Str, pos: nat, d: Decoder)
    requires pos <= |input| && DecodeTail(input, pos, d).Some? && d.n >= INITIAL_N
    ensures Below(DecodeTail(input, pos, d).value, INITIAL_N) == Below(d.output, INITIAL_N)
    decreases |input| - pos
  {
    if pos < |input| {
      var r := ReadInteger(input, pos, d.bias, BASE);
      var e := Insert(d, r.value);
      InsertExtends(d, r.value);
      var p, t := d.output[..e.i - 1], d.output[e.i - 1..];
      BelowConcat(p + [e.n], t, INITIAL_N);
      BelowConcat(p, [e.n], INITIAL_N);
      BelowConcat(p, t, INITIAL_N);
      assert d.output == p + t;
      BasicKept(input, r.next, e);
    }
  }

  /** The code points inserted from a state on, in the order of their insertion. */
  function Insertions(input: Str, pos: nat, d: Decoder): seq<nat>
    requires pos <= |input|
    decreases |input| - pos
  {
    if pos == |input| then []
    else
      match ReadInteger(input, pos, d.bias, BASE)
      case Malformed => []
      case Reading(delta, next) => [Insert(d, delta).n] + Insertions(input, next, Insert(d, delta))
  }

  /** They come in non-decreasing order, none below the decoder's code point, and are what the result has gained. */
  lemma {:induction false} InsertionsAscend(input: Str, pos: nat, d: Decoder)
    requires pos <= |input| && DecodeTail(input, pos, d).Some?
    ensures var inserted := Insertions(input, pos, d);
            && (forall k :: 0 <= k < |inserted| ==> d.n <= inserted[k])
            && (forall j, k :: 0 <= j < k < |inserted| ==> inserted[j] <= inserted[k])
            && multiset(DecodeTail(input, pos, d).value) == multiset(d.output) + multiset(inserted)
    decreases |input| - pos
  {
    hide Insert, ReadInteger;
    if pos < |input| {
      var r := ReadInteger(input, pos, d.bias, BASE);
      var e := Insert(d, r.value);
      InsertGains(d, r.value);
      InsertionsAscend(input, r.next, e);
      var rest := Insertions(input, r.next, e);
      assert Insertions(input, pos, d) == [e.n] + rest;
    }
  }

  lemma InsertGains(d: Decoder, delta: nat)
    ensures var e := Insert(d, delta); d.n <= e.n && multiset(e.output) == multiset(d.output) + multiset{e.n}
  {
    hide Insert, Times;
    InsertExtends(d, delta);
    var e := Insert(d, delta);
    assert d.output == d.output[..e.i - 1] + d.output[e.i - 1..];
  }

  /** Over a whole label: the basic part, and code points of at least 128 inserted in non-decreasing order. */
  lemma LabelInsertions(input: Str, points: seq<nat>)
    requires DecodePoints(input) == Some(points)
    ensures var basic: seq<nat> := input[..BasicEnd(input)];
            var inserted := Insertions(input, DigitsStart(input), Decoder(INITIAL_N, 0, INITIAL_BIAS, basic));
            && (forall k :: 0 <= k < |inserted| ==> INITIAL_N <= inserted[k])
            && (forall j, k :: 0 <= j < k < |inserted| ==> inserted[j] <= inserted[k])
            && multiset(points) == multiset(basic) + multiset(inserted)
  {
    var basic: seq<nat> := input[..BasicEnd(input)];
    Accepted(input);
    InsertionsAscend(input, DigitsStart(input), Decoder(INITIAL_N, 0, INITIAL_BIAS, basic));
  }
}
