/** Well-formed text in UTF-8 and UTF-16, after Table 3-7 and definition D93b in chapter 3 of the Unicode
    Standard, and the arithmetic by which src/ConvertUTF.c goes from one form to the other. */
module Utf {
  import opened Basics

  const MAX_BMP := 0xFFFF
  const MAX_LEGAL := 0x10FFFF
  const REPLACEMENT := 0xFFFD
  const HIGH_START := 0xD800
  const HIGH_END := 0xDBFF
  const LOW_START := 0xDC00
  const LOW_END := 0xDFFF
  const HALF_BASE := 0x10000

  type Unit16 = u: int | 0 <= u < 0x1_0000
  type Unit32 = u: int | 0 <= u < 0x1_0000_0000

  predicate Surrogate(c: int) {
    HIGH_START <= c <= LOW_END
  }

  /** A Unicode scalar value. */
  predicate Scalar(c: int) {
    0 <= c <= MAX_LEGAL && !Surrogate(c)
  }

  // ----- Table 3-7 -----

  predicate Tail(b: Byte) {
    0x80 <= b <= 0xBF
  }

  /** The second bytes that may follow a first byte. */
  predicate Second(b0: Byte, b1: Byte) {
    if b0 == 0xE0 then 0xA0 <= b1 <= 0xBF
    else if b0 == 0xED then 0x80 <= b1 <= 0x9F
    else if b0 == 0xF0 then 0x90 <= b1 <= 0xBF
    else if b0 == 0xF4 then 0x80 <= b1 <= 0x8F
    else Tail(b1)
  }

  /** The well-formed byte sequences. */
  predicate WellFormed(s: seq<Byte>) {
    || (|s| == 1 && s[0] <= 0x7F)
    || (|s| == 2 && 0xC2 <= s[0] <= 0xDF && Second(s[0], s[1]))
    || (|s| == 3 && 0xE0 <= s[0] <= 0xEF && Second(s[0], s[1]) && Tail(s[2]))
    || (|s| == 4 && 0xF0 <= s[0] <= 0xF4 && Second(s[0], s[1]) && Tail(s[2]) && Tail(s[3]))
  }

  /** `trailingBytesForUTF8`. */
  function Trailing(b: Byte): (n: nat)
    ensures n <= 5
  {
    if b < 0xC0 then 0 else if b < 0xE0 then 1 else if b < 0xF0 then 2 else if b < 0xF8 then 3
    else if b < 0xFC then 4 else 5
  }

  lemma WellFormedLength(s: seq<Byte>)
    requires WellFormed(s)
    ensures 1 <= |s| <= 4 && |s| == Trailing(s[0]) + 1
  {
  }

  /** `isLegalUTF8`, for a sequence of the length that its first byte calls for. */
  function IsLegal(s: seq<Byte>): bool {
    if !(1 <= |s| <= 4) then false
    else if |s| == 4 && !Tail(s[3]) then false
    else if |s| >= 3 && !Tail(s[2]) then false
    else if |s| >= 2 && !Tail(s[1]) then false
    else if |s| >= 2 && s[0] == 0xE0 && s[1] < 0xA0 then false
    else if |s| >= 2 && s[0] == 0xED && s[1] > 0x9F then false
    else if |s| >= 2 && s[0] == 0xF0 && s[1] < 0x90 then false
    else if |s| >= 2 && s[0] == 0xF4 && s[1] > 0x8F then false
    else if 0x80 <= s[0] < 0xC2 then false
    else s[0] <= 0xF4
  }

  /** `isLegalUTF8` accepts exactly the well-formed sequences. */
  lemma LegalIff(s: seq<Byte>)
    requires |s| > 0 && |s| == Trailing(s[0]) + 1
    ensures IsLegal(s) <==> WellFormed(s)
  {
  }

  // ----- one character -----

  /** The bytes of a character: six bits at a time from the end, then what is left with the mark of the length. */
  function EncodeChar(c: nat): (s: seq<Byte>)
    requires c <= MAX_LEGAL
    ensures 1 <= |s| <= 4
  {
    if c < 0x80 then [c]
    else if c < 0x800 then [0xC0 + c / 0x40, 0x80 + c % 0x40]
    else if c < 0x1_0000 then [0xE0 + c / 0x40 / 0x40, 0x80 + c / 0x40 % 0x40, 0x80 + c % 0x40]
    else [0xF0 + c / 0x40 / 0x40 / 0x40, 0x80 + c / 0x40 / 0x40 % 0x40, 0x80 + c / 0x40 % 0x40, 0x80 + c % 0x40]
  }

  /** The sum of the bytes, each shifted six bits further than the next, less the magic offset of the length. */
  function DecodeChar(s: seq<Byte>): int
    requires 1 <= |s| <= 4
  {
    match |s|
    case 1 => s[0]
    case 2 => s[0] as int * 0x40 + s[1] - 0x3080
    case 3 => (s[0] as int * 0x40 + s[1]) * 0x40 + s[2] - 0xE2080
    case _ => ((s[0] as int * 0x40 + s[1]) * 0x40 + s[2]) * 0x40 + s[3] - 0x3C82080
  }

  /** Table 3-6: the bits of a character, from the first byte to the last. */
  lemma BitDistribution(c: nat)
    requires c <= MAX_LEGAL
    ensures var s := EncodeChar(c);
            && (forall i :: 1 <= i < |s| ==> Tail(s[i]))
            && (|s| == 1 ==> c == s[0])
            && (|s| == 2 ==> c == 0x40 * (s[0] as int - 0xC0) + s[1] - 0x80)
            && (|s| == 3 ==> c == 0x1000 * (s[0] as int - 0xE0) + 0x40 * (s[1] as int - 0x80) + s[2] - 0x80)
            && (|s| == 4 ==> c == 0x4_0000 * (s[0] as int - 0xF0) + 0x1000 * (s[1] as int - 0x80)
                                  + 0x40 * (s[2] as int - 0x80) + s[3] - 0x80)
  {
  }

  /** A scalar value has a well-formed encoding, and it is decoded to itself. */
  lemma CharBack(c: nat)
    requires Scalar(c)
    ensures WellFormed(EncodeChar(c)) && DecodeChar(EncodeChar(c)) == c
  {
  }

  /** A well-formed sequence decodes to a scalar value, and it is the encoding of that. */
  lemma BytesBack(s: seq<Byte>)
    requires WellFormed(s)
    ensures 1 <= |s| <= 4 && Scalar(DecodeChar(s)) && EncodeChar(DecodeChar(s)) == s
  {
    if |s| == 2 {
      SixBits(s[0] as int - 0xC0, s[1] as int - 0x80);
    } else if |s| == 3 {
      ThreeBack(s);
    } else if |s| == 4 {
      FourBack(s);
    }
  }

  lemma ThreeBack(s: seq<Byte>)
    requires WellFormed(s) && |s| == 3
    ensures Scalar(DecodeChar(s)) && EncodeChar(DecodeChar(s)) == s
  {
    var q := (s[0] as int - 0xE0) * 0x40 + (s[1] as int - 0x80);
    SixBits(s[0] as int - 0xE0, s[1] as int - 0x80);
    SixBits(q, s[2] as int - 0x80);
    assert DecodeChar(s) == q * 0x40 + (s[2] as int - 0x80);
  }

  lemma FourBack(s: seq<Byte>)
    requires WellFormed(s) && |s| == 4
    ensures Scalar(DecodeChar(s)) && EncodeChar(DecodeChar(s)) == s
  {
    var q := (s[0] as int - 0xF0) * 0x40 + (s[1] as int - 0x80);
    var p := q * 0x40 + (s[2] as int - 0x80);
    SixBits(s[0] as int - 0xF0, s[1] as int - 0x80);
    SixBits(q, s[2] as int - 0x80);
    SixBits(p, s[3] as int - 0x80);
    assert DecodeChar(s) == p * 0x40 + (s[3] as int - 0x80);
  }

  lemma SixBits(q: nat, r: nat)
    requires r < 0x40
    ensures (q * 0x40 + r) / 0x40 == q && (q * 0x40 + r) % 0x40 == r
  {
  }

  // ----- ill-formed sequences -----

  /** The beginning of some well-formed sequence. */
  ghost predicate Initial(s: seq<Byte>) {
    exists w :: WellFormed(w) && s <= w
  }

  /** D93b: the longest beginning that is the beginning of a well-formed sequence, or else one byte. */
  ghost predicate MaximalSubpart(s: seq<Byte>, k: nat) {
    && 1 <= k <= |s|
    && (k > 1 ==> Initial(s[..k]))
    && forall j :: k < j <= |s| ==> !Initial(s[..j])
  }

  /** `findMaximalSubpartOfIllFormedUTF8Sequence`. */
  function FindMaximalSubpart(s: seq<Byte>): (k: nat) {
    if s == [] then 0
    else
      var b1 := s[0];
      if 0xC2 <= b1 <= 0xDF then 1
      else if |s| == 1 then 1
      else
        var b2 := s[1];
        if b1 == 0xE0 then (if 0xA0 <= b2 <= 0xBF then 2 else 1)
        else if 0xE1 <= b1 <= 0xEC then (if 0x80 <= b2 <= 0xBF then 2 else 1)
        else if b1 == 0xED then (if 0x80 <= b2 <= 0x9F then 2 else 1)
        else if 0xEE <= b1 <= 0xEF then (if 0x80 <= b2 <= 0xBF then 2 else 1)
        else if b1 == 0xF0 then (if 0x90 <= b2 <= 0xBF then Third(s) else 1)
        else if 0xF1 <= b1 <= 0xF3 then (if 0x80 <= b2 <= 0xBF then Third(s) else 1)
        else if b1 == 0xF4 then (if 0x80 <= b2 <= 0x8F then Third(s) else 1)
        else 1
  }

  function Third(s: seq<Byte>): nat
    requires |s| >= 2
  {
    if |s| == 2 then 2 else if 0x80 <= s[2] <= 0xBF then 3 else 2
  }

  /** No well-formed sequence stands at the front. */
  predicate IllFormed(s: seq<Byte>) {
    s != [] && (|s| < Trailing(s[0]) + 1 || !WellFormed(s[..Trailing(s[0]) + 1]))
  }

  /** The rows of the table, cut short. */
  predicate RowStart(s: seq<Byte>)
    requires |s| > 0
  {
    || (s[0] <= 0x7F && |s| == 1)
    || (0xC2 <= s[0] <= 0xDF && |s| <= 2 && (|s| == 2 ==> Second(s[0], s[1])))
    || (0xE0 <= s[0] <= 0xEF && |s| <= 3 && (|s| >= 2 ==> Second(s[0], s[1])) && (|s| == 3 ==> Tail(s[2])))
    || (0xF0 <= s[0] <= 0xF4 && |s| <= 4 && (|s| >= 2 ==> Second(s[0], s[1]))
        && (|s| >= 3 ==> Tail(s[2])) && (|s| == 4 ==> Tail(s[3])))
  }

  /** One byte more, if the row is not complete. */
  lemma RowNext(s: seq<Byte>) returns (b: Byte)
    requires |s| > 0 && RowStart(s) && !WellFormed(s)
    ensures RowStart(s + [b]) && |s| < 4
  {
    b := if |s| == 1 && s[0] == 0xE0 then 0xA0 else if |s| == 1 && s[0] == 0xF0 then 0x90 else 0x80;
  }

  lemma {:induction false} RowInitial(s: seq<Byte>)
    requires |s| > 0 && RowStart(s)
    ensures Initial(s)
    decreases 4 - |s|
  {
    if !WellFormed(s) {
      var b := RowNext(s);
      hide RowStart, WellFormed;
      RowInitial(s + [b]);
      var w :| WellFormed(w) && s + [b] <= w;
      assert s <= w;
    }
  }

  lemma InitialTable(s: seq<Byte>)
    requires |s| > 0
    ensures Initial(s) <==> RowStart(s)
  {
    if Initial(s) {
      var w :| WellFormed(w) && s <= w;
      assert forall i :: 0 <= i < |s| ==> s[i] == w[i];
    }
    if RowStart(s) {
      RowInitial(s);
    }
  }

  /** The length found is that of the maximal subpart, for every ill-formed beginning. */
  lemma SubpartFound(s: seq<Byte>)
    requires IllFormed(s)
    ensures MaximalSubpart(s, FindMaximalSubpart(s))
  {
    var k := FindMaximalSubpart(s);
    if k > 1 {
      InitialTable(s[..k]);
    }
    forall j | k < j <= |s|
      ensures !Initial(s[..j])
    {
      InitialTable(s[..j]);
    }
  }

  lemma SubpartUnique(s: seq<Byte>, k: nat, k': nat)
    requires MaximalSubpart(s, k) && MaximalSubpart(s, k')
    ensures k == k'
  {
  }

  // ----- texts -----

  ghost predicate AllLegal(cs: seq<nat>) {
    forall i :: 0 <= i < |cs| ==> cs[i] <= MAX_LEGAL
  }

  ghost predicate AllScalar(cs: seq<nat>) {
    forall i :: 0 <= i < |cs| ==> Scalar(cs[i])
  }

  /** The UTF-8 of a text. */
  ghost function EncodeText(cs: seq<nat>): seq<Byte>
    requires AllLegal(cs)
  {
    if cs == [] then [] else EncodeText(cs[..|cs| - 1]) + EncodeChar(cs[|cs| - 1])
  }

  lemma EncodeLast(cs: seq<nat>, c: nat)
    requires AllLegal(cs) && c <= MAX_LEGAL
    ensures AllLegal(cs + [c]) && EncodeText(cs + [c]) == EncodeText(cs) + EncodeChar(c)
  {
    assert (cs + [c])[..|cs|] == cs;
  }

  lemma {:induction false} EncodeCat(cs: seq<nat>, ds: seq<nat>)
    requires AllLegal(cs) && AllLegal(ds)
    ensures AllLegal(cs + ds) && EncodeText(cs + ds) == EncodeText(cs) + EncodeText(ds)
    decreases |ds|
  {
    hide EncodeChar, EncodeText;
    if ds == [] {
      assert cs + ds == cs;
      EncodeNone();
    } else {
      var n := |ds| - 1;
      EncodeCat(cs, ds[..n]);
      EncodeLast(cs + ds[..n], ds[n]);
      EncodeLast(ds[..n], ds[n]);
      assert cs + ds[..n] + [ds[n]] == cs + ds && ds[..n] + [ds[n]] == ds;
    }
  }

  function FirstLength(s: seq<Byte>): (n: nat)
    requires s != []
    ensures n >= 1
  {
    Trailing(s[0]) + 1
  }

  /** The text that well-formed bytes stand for. */
  ghost function DecodeText(s: seq<Byte>): Option<seq<nat>>
    decreases |s|
  {
    if s == [] then Some([])
    else if IllFormed(s) then None
    else
      var n := FirstLength(s);
      BytesBack(s[..n]);
      Cons(DecodeChar(s[..n]), DecodeText(s[n..]))
  }

  ghost function Cons(c: nat, r: Option<seq<nat>>): Option<seq<nat>> {
    if r.None? then None else Some([c] + r.value)
  }

  /** Decoding starts over after each character. */
  lemma DecodeFirst(c: nat, rest: seq<Byte>)
    requires Scalar(c)
    ensures DecodeText(EncodeChar(c) + rest) == Cons(c, DecodeText(rest))
  {
    var e := EncodeChar(c);
    CharBack(c);
    WellFormedLength(e);
    assert (e + rest)[..|e|] == e && (e + rest)[|e|..] == rest;
  }

  /** A text comes back from its UTF-8. */
  lemma {:induction false} TextBack(cs: seq<nat>)
    requires AllScalar(cs)
    ensures AllLegal(cs) && DecodeText(EncodeText(cs)) == Some(cs)
    decreases |cs|
  {
    if cs != [] {
      TextBack(cs[1..]);
      EncodeFirst(cs[0], cs[1..]);
      assert [cs[0]] + cs[1..] == cs;
      DecodeFirst(cs[0], EncodeText(cs[1..]));
    }
  }

  /** Bytes that can be decoded are the UTF-8 of what they decode to. */
  lemma {:induction false} BytesTextBack(s: seq<Byte>)
    requires DecodeText(s).Some?
    ensures AllScalar(DecodeText(s).value) && AllLegal(DecodeText(s).value) && EncodeText(DecodeText(s).value) == s
    decreases |s|
  {
    hide EncodeChar, DecodeChar, WellFormed, Scalar, EncodeText;
    if s != [] {
      var n := FirstLength(s);
      BytesBack(s[..n]);
      BytesTextBack(s[n..]);
      var c, cs := DecodeChar(s[..n]), DecodeText(s[n..]).value;
      EncodeFirst(c, cs);
      assert s == s[..n] + s[n..];
    } else {
      EncodeNone();
    }
  }

  lemma EncodeNone()
    ensures EncodeText([]) == []
  {
  }

  lemma EncodeFirst(c: nat, cs: seq<nat>)
    requires c <= MAX_LEGAL && AllLegal(cs)
    ensures AllLegal([c] + cs) && EncodeText([c] + cs) == EncodeChar(c) + EncodeText(cs)
  {
    EncodeLast([], c);
    assert [] + [c] == [c] && EncodeText([]) + EncodeChar(c) == EncodeChar(c);
    EncodeCat([c], cs);
  }

  ghost function Subpart(s: seq<Byte>): (k: nat)
    requires IllFormed(s)
    ensures MaximalSubpart(s, k)
  {
    SubpartFound(s);
    var k: nat :| MaximalSubpart(s, k);
    k
  }

  /** What lenient decoding makes of any bytes: each well-formed sequence gives its character, each maximal
      subpart of an ill-formed one a replacement character. */
  ghost function Lenient(s: seq<Byte>): seq<nat>
    decreases |s|
  {
    if s == [] then []
    else if IllFormed(s) then [REPLACEMENT] + Lenient(s[Subpart(s)..])
    else
      var n := FirstLength(s);
      BytesBack(s[..n]);
      [DecodeChar(s[..n])] + Lenient(s[n..])
  }

  lemma LenientSubpart(s: seq<Byte>)
    requires IllFormed(s)
    ensures 1 <= FindMaximalSubpart(s) <= |s| && Lenient(s) == [REPLACEMENT] + Lenient(s[FindMaximalSubpart(s)..])
  {
    hide Initial, FindMaximalSubpart;
    SubpartFound(s);
    SubpartUnique(s, Subpart(s), FindMaximalSubpart(s));
  }

  /** On well-formed bytes, lenient decoding is decoding. */
  lemma {:induction false} LenientWellFormed(s: seq<Byte>)
    requires DecodeText(s).Some?
    ensures Lenient(s) == DecodeText(s).value
    decreases |s|
  {
    if s != [] {
      LenientWellFormed(s[FirstLength(s)..]);
    }
  }

  // ----- UTF-16 -----

  predicate High(u: int) {
    HIGH_START <= u <= HIGH_END
  }

  predicate Low(u: int) {
    LOW_START <= u <= LOW_END
  }

  /** The units of a character: one, or a high and a low surrogate. */
  function Units(c: nat): (u: seq<Unit16>)
    requires c <= MAX_LEGAL
    ensures 1 <= |u| <= 2 && (|u| == 2 ==> High(u[0]) && Low(u[1]))
  {
    if c <= MAX_BMP then [c] else [(c - HALF_BASE) / 0x400 + HIGH_START, (c - HALF_BASE) % 0x400 + LOW_START]
  }

  /** Definition D91: the number a surrogate pair stands for. */
  predicate Pair(u: Unit16, u': Unit16, c: int) {
    0xD800 <= u < 0xDC00 <= u' < 0xE000 && 0x400 * (u as int - 0xD800) + (u' as int - 0xDC00) + 0x1_0000 == c
  }

  lemma UnitsAre(c: nat)
    requires c <= MAX_LEGAL
    ensures if c <= MAX_BMP then Units(c) == [c] else |Units(c)| == 2 && Pair(Units(c)[0], Units(c)[1], c)
  {
  }

  function FromPair(u: Unit16, u': Unit16): (c: nat)
    requires High(u) && Low(u')
    ensures MAX_BMP < c <= MAX_LEGAL && Units(c) == [u, u']
  {
    (u - HIGH_START) as int * 0x400 + (u' - LOW_START) + HALF_BASE
  }

  ghost function UnitsText(cs: seq<nat>): seq<Unit16>
    requires AllLegal(cs)
  {
    if cs == [] then [] else UnitsText(cs[..|cs| - 1]) + Units(cs[|cs| - 1])
  }

  lemma UnitsLast(cs: seq<nat>, c: nat)
    requires AllLegal(cs) && c <= MAX_LEGAL
    ensures AllLegal(cs + [c]) && UnitsText(cs + [c]) == UnitsText(cs) + Units(c)
  {
    assert (cs + [c])[..|cs|] == cs;
  }

  /** Texts with the same UTF-16 are the same. */
  lemma {:induction false} UnitsInjective(cs: seq<nat>, ds: seq<nat>)
    requires AllScalar(cs) && AllScalar(ds) && AllLegal(cs) && AllLegal(ds) && UnitsText(cs) == UnitsText(ds)
    ensures cs == ds
    decreases |cs| + |ds|
  {
    hide Units, Scalar;
    if cs != [] && ds != [] {
      var m, n := |cs| - 1, |ds| - 1;
      LastUnit(UnitsText(cs[..m]), cs[m], UnitsText(ds[..n]), ds[n]);
      UnitsInjective(cs[..m], ds[..n]);
      assert cs == cs[..m] + [cs[m]] && ds == ds[..n] + [ds[n]];
    }
  }

  lemma LastUnit(a: seq<Unit16>, c: nat, b: seq<Unit16>, d: nat)
    requires Scalar(c) && Scalar(d) && a + Units(c) == b + Units(d)
    ensures a == b && c == d
  {
    var s := a + Units(c);
    assert s[|s| - 1] == Units(c)[|Units(c)| - 1] == Units(d)[|Units(d)| - 1];
    assert a == s[..|s| - |Units(c)|] && b == s[..|s| - |Units(d)|];
    if |Units(c)| == 2 {
      assert s[|s| - 2] == Units(c)[0] == Units(d)[0];
    }
  }

  lemma {:induction false} UnitsCat(cs: seq<nat>, ds: seq<nat>)
    requires AllLegal(cs) && AllLegal(ds)
    ensures AllLegal(cs + ds) && UnitsText(cs + ds) == UnitsText(cs) + UnitsText(ds)
    decreases |ds|
  {
    hide Units, UnitsText;
    if ds == [] {
      assert cs + ds == cs;
      UnitsNone();
    } else {
      var n := |ds| - 1;
      UnitsCat(cs, ds[..n]);
      UnitsLast(cs + ds[..n], ds[n]);
      UnitsLast(ds[..n], ds[n]);
      assert cs + ds[..n] + [ds[n]] == cs + ds && ds[..n] + [ds[n]] == ds;
    }
  }

  lemma UnitsNone()
    ensures UnitsText([]) == []
  {
  }

  lemma UnitsFirst(cs: seq<nat>)
    requires cs != [] && AllLegal(cs)
    ensures UnitsText(cs) == Units(cs[0]) + UnitsText(cs[1..])
  {
    UnitsLast([], cs[0]);
    assert [] + [cs[0]] == [cs[0]] && [cs[0]] + cs[1..] == cs && UnitsText([]) + Units(cs[0]) == Units(cs[0]);
    UnitsCat([cs[0]], cs[1..]);
  }

  lemma FirstUnit(c: nat, x: seq<Unit16>, d: nat, y: seq<Unit16>)
    requires Scalar(c) && Scalar(d) && Units(c) + x == Units(d) + y
    ensures c == d && x == y
  {
    var s := Units(c) + x;
    assert s[0] == Units(c)[0] == Units(d)[0];
    assert x == s[|Units(c)|..] && y == s[|Units(d)|..];
    if |Units(c)| == 2 {
      assert s[1] == Units(c)[1] == Units(d)[1];
    }
  }

  /** What stands at the front of the UTF-16 of a text, and is UTF-16, is that of its beginning. */
  lemma {:induction false} UnitsPrefix(cs: seq<nat>, ws: seq<nat>, rest: seq<Unit16>)
    requires AllScalar(cs) && AllLegal(cs) && AllScalar(ws) && AllLegal(ws) && UnitsText(ws) == UnitsText(cs) + rest
    ensures cs <= ws && UnitsText(ws[|cs|..]) == rest
    decreases |cs|
  {
    hide Units, Scalar;
    if cs == [] {
      assert ws[0..] == ws;
    } else {
      UnitsFirst(cs);
      assert ws != [];
      UnitsFirst(ws);
      var c, d := cs[1..], ws[1..];
      assert Units(cs[0]) + (UnitsText(c) + rest) == Units(cs[0]) + UnitsText(c) + rest;
      FirstUnit(ws[0], UnitsText(d), cs[0], UnitsText(c) + rest);
      UnitsPrefix(c, d, rest);
      assert cs == [cs[0]] + c && ws == [ws[0]] + d && ws[|cs|..] == d[|c|..];
    }
  }

  /** What stands at the front of well-formed bytes, and is UTF-8, is that of the beginning of their text. */
  lemma {:induction false} BytesPrefix(cs: seq<nat>, rest: seq<Byte>)
    requires AllScalar(cs) && AllLegal(cs)
    ensures DecodeText(EncodeText(cs) + rest).Some? <==> DecodeText(rest).Some?
    ensures DecodeText(rest).Some? ==> DecodeText(EncodeText(cs) + rest) == Some(cs + DecodeText(rest).value)
    decreases |cs|
  {
    hide EncodeChar, DecodeText;
    if cs == [] {
      assert EncodeText(cs) + rest == rest;
      if DecodeText(rest).Some? {
        assert cs + DecodeText(rest).value == DecodeText(rest).value;
      }
    } else {
      var c, ds := cs[0], cs[1..];
      EncodeFirst(c, ds);
      assert [c] + ds == cs;
      BytesPrefix(ds, rest);
      DecodeFirst(c, EncodeText(ds) + rest);
      assert EncodeChar(c) + EncodeText(ds) + rest == EncodeChar(c) + (EncodeText(ds) + rest);
      if DecodeText(rest).Some? {
        assert [c] + (ds + DecodeText(rest).value) == cs + DecodeText(rest).value;
      }
    }
  }

  /** A unit takes at most three bytes, and a byte gives at most one unit. */
  lemma {:induction false} UnitsRoom(cs: seq<nat>)
    requires AllLegal(cs)
    ensures |UnitsText(cs)| <= |EncodeText(cs)| <= 3 * |UnitsText(cs)|
  {
    if cs != [] {
      UnitsRoom(cs[..|cs| - 1]);
    }
  }
}
