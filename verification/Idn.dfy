/** What the round trip means for the functions of frontend/src/lib/idn.js that pages call: labels, domains and
    addresses as JavaScript strings. */
module Idn {
  import opened Options
  import opened Strings
  import opened Bootstring
  import opened BootstringEncoder
  import opened BootstringRoundTrip
  import opened BootstringBounds

  const DOT: Unit := 0x2E
  const AT_SIGN: Unit := 0x40
  const ACE_PREFIX: Str := [0x78, 0x6E, 0x2D, 0x2D]  // "xn--"

  // ---------------------------------------------------------------------------------------------
  // UTF-16
  // ---------------------------------------------------------------------------------------------

  predicate High(c: nat) { 0xD800 <= c < 0xDC00 }

  predicate Low(c: nat) { 0xDC00 <= c < 0xE000 }

  function Combine(high: nat, low: nat): (c: nat)
    requires High(high) && Low(low)
    ensures 0x10000 <= c
  {
    0x10000 + (high - 0xD800) * 0x400 + (low - 0xDC00)
  }

  /** The code points a reader sees in a string: a high surrogate and a low one after it are one point. */
  function FromUtf16(s: Str): seq<nat> {
    if s == [] then []
    else if High(s[0]) && |s| > 1 && Low(s[1]) then [Combine(s[0], s[1])] + FromUtf16(s[2..])
    else [s[0]] + FromUtf16(s[1..])
  }

  /** No high surrogate stands directly before a low one. */
  predicate PairFree(points: seq<nat>) {
    forall k :: 0 < k < |points| ==> !(High(points[k - 1]) && Low(points[k]))
  }

  lemma PairFreeStep(points: seq<nat>)
    requires points != []
    ensures PairFree(points) <==>
            PairFree(points[1..]) && !(|points| > 1 && High(points[0]) && Low(points[1]))
  {
    var rest := points[1..];
    if PairFree(points) {
      assert forall k :: 0 < k < |rest| ==> rest[k - 1] == points[k] && rest[k] == points[k + 1];
    }
    if PairFree(rest) && !(|points| > 1 && High(points[0]) && Low(points[1])) {
      forall k | 0 < k < |points| ensures !(High(points[k - 1]) && Low(points[k])) {
        if k > 1 {
          assert points[k] == rest[k - 1] && points[k - 1] == rest[k - 2];
        }
      }
    }
  }

  lemma PairValue(c: nat)
    requires 0x10000 <= c <= MAX_CODE_POINT
    ensures High(SurrogatePair(c)[0]) && Low(SurrogatePair(c)[1])
    ensures Combine(SurrogatePair(c)[0], SurrogatePair(c)[1]) == c
  {
  }

  function Shown(points: seq<CodePoint>): seq<nat> {
    FromUtf16(Utf16(points))
  }

  lemma ShownAstral(points: seq<CodePoint>)
    requires points != [] && points[0] >= 0x10000
    ensures Shown(points) == [points[0]] + Shown(points[1..])
  {
    var c, rest := points[0], points[1..];
    PairValue(c);
    assert Utf16(points) == SurrogatePair(c) + Utf16(rest);
    assert Utf16(points)[2..] == Utf16(rest);
  }

  lemma ShownMerged(points: seq<CodePoint>)
    requires |points| > 1 && High(points[0]) && Low(points[1])
    ensures Shown(points) == [Combine(points[0], points[1])] + Shown(points[2..])
  {
    assert points[1..][1..] == points[2..];
    assert Utf16(points) == [points[0]] + Utf16(points[1..]);
    assert Utf16(points[1..]) == [points[1]] + Utf16(points[2..]);
    assert Utf16(points)[2..] == Utf16(points[2..]);
  }

  lemma ShownPlain(points: seq<CodePoint>)
    requires points != [] && points[0] < 0x10000
    requires !(|points| > 1 && High(points[0]) && Low(points[1]))
    ensures Shown(points) == [points[0]] + Shown(points[1..])
  {
    var c, rest := points[0], points[1..];
    assert Utf16(points) == [c] + Utf16(rest);
    assert Utf16(points)[1..] == Utf16(rest);
    if |rest| > 0 {
      assert Utf16(rest)[0] == (if rest[0] < 0x10000 then rest[0] else SurrogatePair(rest[0])[0]);
    }
  }

  /** The string shows the decoded code points unless two of them merge into a surrogate pair. */
  lemma {:induction false} ShownExactly(points: seq<CodePoint>)
    ensures Shown(points) == points <==> PairFree(points)
    decreases |points|
  {
    if points != [] {
      var rest := points[1..];
      assert points == [points[0]] + rest;
      PairFreeStep(points);
      ShownExactly(rest);
      if points[0] >= 0x10000 {
        ShownAstral(points);
      } else if |points| > 1 && High(points[0]) && Low(points[1]) {
        ShownMerged(points);
        assert Shown(points)[0] != points[0];
      } else {
        ShownPlain(points);
      }
    }
  }

  lemma {:induction false} Utf16Concat(a: seq<CodePoint>, b: seq<CodePoint>)
    ensures Utf16(a + b) == Utf16(a) + Utf16(b)
  {
    if a == [] {
      assert a + b == b;
    } else {
      assert (a + b)[1..] == a[1..] + b;
      Utf16Concat(a[1..], b);
    }
  }

  /** A text without pairs shows itself: no code point needed two units, and no two units merge. */
  lemma {:induction false} TextIsPoints(points: seq<CodePoint>)
    requires PairFree(Utf16(points))
    ensures Utf16(points) == points
  {
    if points != [] {
      var c, text, rest := points[0], Utf16(points), Utf16(points[1..]);
      assert text == (if c < 0x10000 then [c] else SurrogatePair(c)) + rest;
      assert c >= 0x10000 ==> High(text[0]) && Low(text[1]);
      assert c < 0x10000 && text[1..] == rest;
      PairFreeStep(text);
      TextIsPoints(points[1..]);
      assert points == [c] + points[1..];
    }
  }

  /** All code points are single units. */
  predicate Bmp(points: seq<nat>) {
    forall k :: 0 <= k < |points| ==> points[k] < 0x10000
  }

  lemma {:induction false} BmpText(points: seq<CodePoint>)
    requires Bmp(points)
    ensures Utf16(points) == points
  {
    if points != [] {
      assert points == [points[0]] + points[1..];
      BmpText(points[1..]);
    }
  }

  /** Another sequence of code points with the same text: a surrogate pair joined, or a code point split into one. */
  lemma Twin(points: seq<CodePoint>) returns (twin: seq<CodePoint>)
    requires !PairFree(points) || !Bmp(points)
    ensures twin != points && Utf16(twin) == Utf16(points)
  {
    if !Bmp(points) {
      var k :| 0 <= k < |points| && points[k] >= 0x10000;
      var pair: seq<CodePoint> := SurrogatePair(points[k]);
      BmpText(pair);
      twin := Swapped(points, k, k + 1, pair);
    } else {
      var k :| 0 < k < |points| && High(points[k - 1]) && Low(points[k]);
      var one: CodePoint := Combine(points[k - 1], points[k]);
      JoinedText(points[k - 1], points[k]);
      assert points[k - 1..k + 1] == [points[k - 1], points[k]];
      twin := Swapped(points, k - 1, k + 1, [one]);
    }
  }

  lemma JoinedText(high: CodePoint, low: CodePoint)
    requires High(high) && Low(low)
    ensures Combine(high, low) <= MAX_CODE_POINT
    ensures Utf16([Combine(high, low)]) == Utf16([high, low]) == [high, low]
  {
    var c := Combine(high, low);
    assert SurrogatePair(c) == [high, low];
    assert Utf16([c]) == SurrogatePair(c) + Utf16([c][1..]);
    BmpText([high, low]);
  }

  lemma Swapped(points: seq<CodePoint>, from: nat, to: nat, other: seq<CodePoint>) returns (twin: seq<CodePoint>)
    requires from < to <= |points| && |other| != to - from && Utf16(other) == Utf16(points[from..to])
    ensures twin != points && Utf16(twin) == Utf16(points)
  {
    var a, m, b := points[..from], points[from..to], points[to..];
    twin := a + other + b;
    Utf16Concat(a + other, b);
    Utf16Concat(a, other);
    Utf16Concat(a + m, b);
    Utf16Concat(a, m);
    assert points == a + m + b;
  }

  /** No other label displays like an accepted one, digit case apart, if and only if all its code points are below
      0x10000 and no two of them merge into a surrogate pair. */
  lemma SameDisplay(x: Str, p: seq<CodePoint>)
    requires DecodePoints(x) == Some(p)
    ensures (forall y :: DecodeLabel(y) == DecodeLabel(x) ==> LowerDigits(y) == LowerDigits(x))
       <==> PairFree(p) && Bmp(p)
  {
    hide Encode, Utf16, PairFree;
    EncodeDecode(x, p);
    if PairFree(p) && Bmp(p) {
      forall y | DecodeLabel(y) == DecodeLabel(x) ensures LowerDigits(y) == LowerDigits(x) {
        SamePoints(y, p);
      }
    } else {
      var q := Twin(p);
      var y := Encode(q);
      DecodeEncode(q);
      EncodeDecode(y, q);
      DecodeEncode(p);
      assert DecodeLabel(y) == DecodeLabel(x) && LowerDigits(y) != LowerDigits(x);
    }
  }

  lemma SamePoints(y: Str, p: seq<CodePoint>)
    requires DecodeLabel(y) == Some(Utf16(p)) && PairFree(p) && Bmp(p)
    ensures DecodePoints(y) == Some(p) && LowerDigits(y) == Encode(p)
  {
    hide Encode, Utf16, PairFree;
    var q := AsCodePoints(y);
    BmpText(p);
    TextIsPoints(q);
    EncodeDecode(y, q);
  }

  lemma LabelsDiffer(p: seq<CodePoint>, q: seq<CodePoint>)
    requires p != q && Utf16(p) == Utf16(q)
    ensures Encode(p) != Encode(q)
    ensures DecodeLabel(Encode(p)) == DecodeLabel(Encode(q)) == Some(Utf16(p))
  {
    DecodeEncode(p);
    DecodeEncode(q);
  }

  /** Merging surrogates is the way two different labels display alike. */
  lemma DifferentLabelsSameDisplay() returns (x: Str, y: Str)
    ensures x != y && DecodeLabel(x).Some? && DecodeLabel(x) == DecodeLabel(y)
  {
    var split: seq<CodePoint>, joined: seq<CodePoint> := [0xD800, 0xDC00], [0x10000];
    assert split[1..] == [0xDC00];
    assert Utf16(split) == [0xD800, 0xDC00] == Utf16(joined);
    LabelsDiffer(split, joined);
    x, y := Encode(split), Encode(joined);
  }

  /** Encoding and decoding a label, as strings. */
  lemma DecodeLabelEncode(u: seq<CodePoint>)
    ensures DecodeLabel(Encode(u)) == Some(Utf16(u))
  {
    DecodeEncode(u);
  }

  // ---------------------------------------------------------------------------------------------
  // Domains
  // ---------------------------------------------------------------------------------------------

  predicate HasAcePrefix(l: Str) {
    && |l| >= 4
    && (l[0] == 0x78 || l[0] == 0x58) && (l[1] == 0x6E || l[1] == 0x4E)
    && l[2] == 0x2D && l[3] == 0x2D
  }

  function DecodeDomainLabel(l: Str): Str {
    if !HasAcePrefix(l) then l
    else
      match DecodeLabel(l[4..])
      case None => l
      case Some(decoded) => decoded
  }

  /** domain.indexOf("xn--") !== -1, which is case-sensitive and looks anywhere in the domain. */
  predicate MentionsAce(domain: Str) {
    |domain| >= 4 && (domain[..4] == ACE_PREFIX || MentionsAce(domain[1..]))
  }

  function MapLabels(labels: seq<Str>): (r: seq<Str>)
    ensures |r| == |labels|
    ensures forall k :: 0 <= k < |r| ==> r[k] == DecodeDomainLabel(labels[k])
  {
    seq(|labels|, k requires 0 <= k < |labels| => DecodeDomainLabel(labels[k]))
  }

  function DecodeIdnDomain(domain: Option<Str>): Str {
    if domain.None? then []
    else if domain.value == [] || !MentionsAce(domain.value) then domain.value
    else Join(MapLabels(Split(domain.value, DOT)), DOT)
  }

  function DecodeIdnAddress(address: Option<Str>): Str {
    if address.None? || address.value == [] then []
    else
      var a := address.value;
      var at := LastIndexOf(a, AT_SIGN);
      if at < 0 then DecodeIdnDomain(Some(a)) else a[..at + 1] + DecodeIdnDomain(Some(a[at + 1..]))
  }

  /** A code point below 128 is in the string of some points exactly when it is one of them. */
  lemma {:induction false} AsciiShown(points: seq<CodePoint>, c: Unit)
    requires c < 0x80
    ensures c in Utf16(points) <==> c in points
  {
    if points != [] {
      AsciiShown(points[1..], c);
      assert points == [points[0]] + points[1..];
    }
  }

  function AsCodePoints(input: Str): (points: seq<CodePoint>)
    requires DecodePoints(input).Some?
    ensures points == DecodePoints(input).value
  {
    var points := DecodePoints(input).value;
    assert forall k :: 0 <= k < |points| ==> points[k] in points;
    points
  }

  /** The code points below 128 of the result are, in order, the part before the last delimiter. */
  lemma BasicPartKept(input: Str, points: seq<CodePoint>)
    requires DecodePoints(input) == Some(points)
    ensures Below(points, INITIAL_N) == input[..BasicEnd(input)]
  {
    Accepted(input);
    var basic := input[..BasicEnd(input)];
    BasicKept(input, DigitsStart(input), Decoder(INITIAL_N, 0, INITIAL_BIAS, basic));
    BelowAll(basic, INITIAL_N);
  }

  lemma AsciiFromLabel(input: Str, points: seq<CodePoint>, c: Unit)
    requires DecodePoints(input) == Some(points)
    requires c < 0x80 && c in points
    ensures c in input
  {
    BasicPartKept(input, points);
    var m :| 0 <= m < |points| && points[m] == c;
    BelowMember(points, m, INITIAL_N);
    assert c in input[..BasicEnd(input)];
  }

  /** Decoding adds no ASCII character that the label did not have. */
  lemma NoNewAscii(l: Str, c: Unit)
    requires c < 0x80 && c !in l
    ensures c !in DecodeDomainLabel(l)
  {
    if HasAcePrefix(l) && DecodeLabel(l[4..]).Some? {
      var input := l[4..];
      var points := AsCodePoints(input);
      assert forall x <- input :: x in l;
      AsciiShown(points, c);
      if c in points {
        AsciiFromLabel(input, points, c);
      }
    }
  }

  /** Decoding a domain keeps its labels apart: label by label, and as many as before. */
  lemma LabelsKept(domain: Str)
    requires MentionsAce(domain)
    ensures Split(DecodeIdnDomain(Some(domain)), DOT) == MapLabels(Split(domain, DOT))
  {
    var labels := Split(domain, DOT);
    forall k | 0 <= k < |labels| ensures DOT !in MapLabels(labels)[k] {
      assert labels[k] in labels;
      NoNewAscii(labels[k], DOT);
    }
    SplitJoin(MapLabels(labels), DOT);
  }

  lemma NoNewAsciiInDomain(domain: Str, x: Unit)
    requires x < 0x80 && x != DOT && x !in domain
    ensures x !in DecodeIdnDomain(Some(domain))
  {
    var labels := Split(domain, DOT);
    PartsFrom(domain, DOT, x);
    forall k | 0 <= k < |labels| ensures x !in MapLabels(labels)[k] {
      assert labels[k] in labels;
      NoNewAscii(labels[k], x);
    }
    JoinFrom(MapLabels(labels), DOT, x);
  }

  /** An address keeps everything through its last `@`, gains no other, and only its domain is decoded. */
  lemma AddressKept(address: Str)
    requires address != []
    ensures var at, shown := LastIndexOf(address, AT_SIGN), DecodeIdnAddress(Some(address));
            && LastIndexOf(shown, AT_SIGN) == at
            && shown == address[..at + 1] + DecodeIdnDomain(Some(address[at + 1..]))
  {
    hide DecodeIdnDomain;
    var at := LastIndexOf(address, AT_SIGN);
    var domain := address[at + 1..];
    var shown := DecodeIdnAddress(Some(address));
    assert at < 0 ==> domain == address && address[..at + 1] == [];
    forall j | 0 <= j < |domain| ensures domain[j] != AT_SIGN {
      assert domain[j] == address[at + 1 + j];
    }
    NoNewAsciiInDomain(domain, AT_SIGN);
    var decoded := DecodeIdnDomain(Some(domain));
    assert shown == address[..at + 1] + decoded;
    forall j | at < j < |shown| ensures shown[j] != AT_SIGN {
      assert shown[j] == decoded[j - at - 1];
      assert shown[j] in decoded;
    }
    LastIndexAt(shown, at, AT_SIGN);
  }

  // ---------------------------------------------------------------------------------------------
  // Round trip of whole domains
  // ---------------------------------------------------------------------------------------------

  function ToAce(u: seq<CodePoint>): Str {
    ACE_PREFIX + Encode(u)
  }

  function AceLabels(us: seq<seq<CodePoint>>): (r: seq<Str>)
    ensures |r| == |us|
    ensures forall k :: 0 <= k < |r| ==> r[k] == ToAce(us[k])
  {
    if us == [] then [] else [ToAce(us[0])] + AceLabels(us[1..])
  }

  function ShownLabels(us: seq<seq<CodePoint>>): (r: seq<Str>)
    ensures |r| == |us|
    ensures forall k :: 0 <= k < |r| ==> r[k] == Utf16(us[k])
  {
    if us == [] then [] else [Utf16(us[0])] + ShownLabels(us[1..])
  }

  lemma NoDotInAce(u: seq<CodePoint>)
    requires DOT !in u
    ensures DOT !in ToAce(u)
  {
    var basic: Str := Basic(u);
    var digits := EncodeFrom(u, INITIAL_N, 0, INITIAL_BIAS, |basic|, |basic|);
    assert BasicToDigit(DOT) == BASE;
    assert DOT !in digits && DOT !in basic;
  }

  lemma AceRoundTrip(u: seq<CodePoint>)
    ensures DecodeDomainLabel(ToAce(u)) == Utf16(u)
  {
    hide Encode, Utf16, DecodeLabel;
    DecodeLabelEncode(u);
    var ace := ToAce(u);
    assert ace[..4] == ACE_PREFIX && ace[4..] == Encode(u);
    assert ace[0] == ACE_PREFIX[0] && ace[1] == ACE_PREFIX[1] && ace[2] == ACE_PREFIX[2] && ace[3] == ACE_PREFIX[3];
  }

  lemma AceStarts(u: seq<CodePoint>)
    ensures |ToAce(u)| >= 4 && ToAce(u)[..4] == ACE_PREFIX
  {
  }

  lemma StartsWithAce(first: Str, rest: seq<Str>)
    requires |first| >= 4 && first[..4] == ACE_PREFIX
    ensures MentionsAce(Join([first] + rest, DOT))
  {
    var parts := [first] + rest;
    assert Join(parts, DOT)[..4] == first[..4];
  }

  lemma {:induction false} LabelsRoundTrip(us: seq<seq<CodePoint>>)
    ensures MapLabels(AceLabels(us)) == ShownLabels(us)
  {
    hide ToAce, DecodeDomainLabel, Utf16;
    if us != [] {
      AceRoundTrip(us[0]);
      LabelsRoundTrip(us[1..]);
      assert AceLabels(us)[1..] == AceLabels(us[1..]);
    }
  }

  lemma AceLabelsJoin(us: seq<seq<CodePoint>>)
    requires |us| > 0 && forall k :: 0 <= k < |us| ==> DOT !in us[k]
    ensures Split(Join(AceLabels(us), DOT), DOT) == AceLabels(us)
    ensures MentionsAce(Join(AceLabels(us), DOT))
  {
    hide ToAce, Split, Join, MentionsAce;
    var labels := AceLabels(us);
    forall k | 0 <= k < |labels| ensures DOT !in labels[k] {
      NoDotInAce(us[k]);
    }
    SplitJoin(labels, DOT);
    AceStarts(us[0]);
    assert labels == [labels[0]] + labels[1..];
    StartsWithAce(labels[0], labels[1..]);
  }

  /** A whole domain, encoded label by label, is decoded to the labels it was made from. */
  lemma DomainRoundTrip(us: seq<seq<CodePoint>>)
    requires |us| > 0 && forall k :: 0 <= k < |us| ==> DOT !in us[k]
    ensures DecodeIdnDomain(Some(Join(AceLabels(us), DOT))) == Join(ShownLabels(us), DOT)
  {
    hide Join, AceLabels, ShownLabels, MapLabels, Split;
    AceLabelsJoin(us);
    LabelsRoundTrip(us);
  }

  lemma {:induction false} AsciiLength(points: seq<CodePoint>)
    requires forall c <- Utf16(points) :: c < 0x80
    ensures |Utf16(points)| == |points|
  {
    if points != [] {
      assert Utf16(points)[0] in Utf16(points);
      assert forall x <- Utf16(points[1..]) :: x in Utf16(points);
      AsciiLength(points[1..]);
    }
  }

  /** What the decoder accepts is ASCII throughout. */
  lemma AcceptedIsAscii(input: Str, points: seq<CodePoint>)
    requires DecodePoints(input) == Some(points)
    ensures forall c <- input :: c < 0x80
  {
    EncodeDecode(input, points);
    var low, basic: Str := LowerDigits(input), Basic(points);
    var digits := EncodeFrom(points, INITIAL_N, 0, INITIAL_BIAS, |basic|, |basic|);
    assert forall c <- digits :: BasicToDigit(c) < BASE;
    assert forall c <- low :: c in basic || c == DELIMITER || c in digits;
    forall c | c in input ensures c < 0x80 {
      var j :| 0 <= j < |input| && input[j] == c;
      assert low[j] in low;
    }
  }

  /** A label that is decoded changes: the result has fewer characters, or some that are not ASCII. */
  lemma DecodedDiffers(l: Str)
    requires HasAcePrefix(l) && DecodeLabel(l[4..]).Some?
    ensures DecodeDomainLabel(l) != l
  {
    hide Utf16;
    var input := l[4..];
    var points := AsCodePoints(input);
    AcceptedIsAscii(input, points);
    OnePointPerCharacter(input, DigitsStart(input), Decoder(INITIAL_N, 0, INITIAL_BIAS, input[..BasicEnd(input)]));
    Accepted(input);
    if Utf16(points) == l {
      forall c | c in l ensures c < 0x80 {
        var j :| 0 <= j < |l| && l[j] == c;
        assert j >= 4 ==> l[j] == input[j - 4] && input[j - 4] in input;
      }
      AsciiLength(points);
    }
  }

  /** The label has the prefix, in either case, and the decoder accepts the rest. */
  predicate Decodable(l: Str) {
    HasAcePrefix(l) && DecodeLabel(l[4..]).Some?
  }

  /** decodeIdnDomain decodes every label exactly when the domain mentions "xn--" in lower case or has no label to
      decode: its outer test is case-sensitive where the test on labels is not. */
  lemma WhenEveryLabelIsDecoded(domain: Str)
    ensures DecodeIdnDomain(Some(domain)) == Join(MapLabels(Split(domain, DOT)), DOT)
       <==> MentionsAce(domain) || !exists l <- Split(domain, DOT) :: Decodable(l)
  {
    WhenTheDomainChanges(domain);
    var labels := Split(domain, DOT);
    if l :| l in labels && Decodable(l) {
      var k :| 0 <= k < |labels| && labels[k] == l;
      DecodedDiffers(l);
      assert MapLabels(labels)[k] != labels[k];
    } else {
      assert forall k :: 0 <= k < |labels| ==> labels[k] in labels && !Decodable(labels[k]);
      assert MapLabels(labels) == labels;
    }
  }

  lemma WhenTheDomainChanges(domain: Str)
    ensures DecodeIdnDomain(Some(domain)) == Join(MapLabels(Split(domain, DOT)), DOT)
       <==> MentionsAce(domain) || MapLabels(Split(domain, DOT)) == Split(domain, DOT)
  {
    var labels := Split(domain, DOT);
    JoinSplit(domain, DOT);
    if !MentionsAce(domain) && domain == Join(MapLabels(labels), DOT) {
      forall k | 0 <= k < |labels| ensures DOT !in MapLabels(labels)[k] {
        assert labels[k] in labels;
        NoNewAscii(labels[k], DOT);
      }
      SplitJoin(MapLabels(labels), DOT);
    }
  }

  /** "XN--a-" is shown as it is, although its label alone decodes to "a". */
  lemma UpperCasePrefixIsMissed()
    ensures var domain: Str := [0x58, 0x4E, 0x2D, 0x2D, 0x61, 0x2D];
            DecodeDomainLabel(domain) == [0x61] && DecodeIdnDomain(Some(domain)) == domain
  {
    var u: seq<CodePoint>, domain: Str := [0x61], [0x58, 0x4E, 0x2D, 0x2D, 0x61, 0x2D];
    assert domain[4..] == [0x61, 0x2D] == Encode(u);
    DecodeLabelEncode(u);
    var d1: Str, d2: Str, d3: Str := domain[1..], domain[2..], domain[3..];
    assert d1 == [0x4E, 0x2D, 0x2D, 0x61, 0x2D] && d2 == d1[1..] == [0x2D, 0x2D, 0x61, 0x2D];
    assert |d3| == 3 && d3 == d2[1..];
    assert domain[..4][0] == 0x58 && d1[..4][0] == 0x4E && d2[..4][0] == 0x2D && ACE_PREFIX[0] == 0x78;
    assert !MentionsAce(d3) && !MentionsAce(d2) && !MentionsAce(d1);
  }

  /** A missing value is shown as nothing. */
  lemma NothingShown()
    ensures DecodeIdnDomain(None) == [] && DecodeIdnDomain(Some([])) == []
    ensures DecodeIdnAddress(None) == [] && DecodeIdnAddress(Some([])) == []
  {
  }

  /** A label has the prefix if its first four characters, in lower case, are "xn--". */
  lemma PrefixInAnyCase(l: Str)
    ensures HasAcePrefix(l)
       <==> |l| >= 4 && LowerUnit(l[0]) == 0x78 && LowerUnit(l[1]) == 0x6E && l[2] == 0x2D && l[3] == 0x2D
  {
  }

  /** A domain mentions "xn--" wherever it stands in it, and only then. */
  lemma {:induction false} MentionedAnywhere(before: Str, after: Str)
    ensures MentionsAce(before + [0x78, 0x6E, 0x2D, 0x2D] + after)
  {
    var domain := before + [0x78, 0x6E, 0x2D, 0x2D] + after;
    if before == [] {
      assert domain[..4] == ACE_PREFIX;
    } else {
      assert domain[1..] == before[1..] + [0x78, 0x6E, 0x2D, 0x2D] + after;
      MentionedAnywhere(before[1..], after);
    }
  }

  lemma {:induction false} WhereMentioned(domain: Str) returns (k: nat)
    requires MentionsAce(domain)
    ensures k + 4 <= |domain| && domain[k..k + 4] == [0x78, 0x6E, 0x2D, 0x2D]
  {
    if domain[..4] == ACE_PREFIX {
      k := 0;
    } else {
      var j := WhereMentioned(domain[1..]);
      k := j + 1;
      assert domain[1..][j..j + 4] == domain[k..k + 4];
    }
  }
}
