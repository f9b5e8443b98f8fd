/** The converters of src/ConvertUTF.c: they take source units as far as they can and put the result into the
    target buffer, telling how far they came on both sides and why they stopped. */
module ConvertUtf {
  import opened Basics
  import opened Utf

  datatype Result = ConversionOK | SourceExhausted | TargetExhausted | SourceIllegal

  /** `ConvertUTF32toUTF8` turns what is too large for Unicode into replacement characters. */
  function Fixed(c: Unit32): (d: nat)
    ensures d <= MAX_LEGAL
  {
    if c <= MAX_LEGAL then c else REPLACEMENT
  }

  /** The replacement character is U+FFFD. */
  lemma Replaced(c: Unit32)
    ensures c > 0x10FFFF ==> Fixed(c) == 0xFFFD && EncodeChar(Fixed(c)) == [0xEF, 0xBF, 0xBD]
    ensures c <= 0x10FFFF ==> Fixed(c) == c
  {
  }

  ghost function AllFixed(cs: seq<Unit32>): (ds: seq<nat>)
    ensures |ds| == |cs| && AllLegal(ds) && forall i :: 0 <= i < |cs| ==> ds[i] == Fixed(cs[i])
  {
    seq(|cs|, i requires 0 <= i < |cs| => Fixed(cs[i]))
  }

  /** Writes the bytes of a character backwards, from the end of the room made for them. */
  method WriteChar(c: nat, target: array<Byte>, t: nat) returns (t': nat)
    requires c <= MAX_LEGAL && t + |EncodeChar(c)| <= target.Length
    modifies target
    ensures t' == t + |EncodeChar(c)| && target[..t'] == old(target[..t]) + EncodeChar(c)
  {
    hide EncodeChar, Left;
    var bytesToWrite := if c < 0x80 then 1 else if c < 0x800 then 2 else if c < 0x1_0000 then 3 else 4;
    LeftStart(c, bytesToWrite);
    t' := t + bytesToWrite;
    var ch: nat, p := c, t';
    while p > t + 1
      invariant t < p <= t' && Left(c, bytesToWrite, p - t, ch)
      invariant target[..t] == old(target[..t]) && target[p..t'] == EncodeChar(c)[p - t..]
    {
      LeftStep(c, bytesToWrite, p - t, ch);
      p := p - 1;
      target[p] := 0x80 + ch % 0x40;
      ch := ch / 0x40;
      assert target[p..t'] == [target[p]] + target[p + 1..t'];
    }
    LeftDone(c, bytesToWrite, ch);
    ghost var e := EncodeChar(c);
    assert e == [e[0]] + e[1..];
    target[t] := ch + FirstByteMark(bytesToWrite);
    assert target[t + 1..t'] == e[1..];
    assert target[t..t'] == [target[t]] + target[t + 1..t'];
    assert target[..t'] == target[..t] + target[t..t'];
  }

  lemma LeftStart(c: nat, n: nat)
    requires c <= MAX_LEGAL && n == if c < 0x80 then 1 else if c < 0x800 then 2 else if c < 0x1_0000 then 3 else 4
    ensures n == |EncodeChar(c)| && Left(c, n, n, c)
  {
  }

  function FirstByteMark(n: nat): nat
    requires 1 <= n <= 4
  {
    [0x00, 0xC0, 0xE0, 0xF0][n - 1]
  }

  /** What is left of a character when all but the first `k` of its `n` bytes have been written. */
  ghost predicate Left(c: nat, n: nat, k: nat, ch: nat) {
    && c <= MAX_LEGAL && 1 <= k <= n == |EncodeChar(c)|
    && ch ==
         if n - k == 0 then c
         else if n - k == 1 then c / 0x40
         else if n - k == 2 then c / 0x40 / 0x40
         else c / 0x40 / 0x40 / 0x40
  }

  lemma LeftStep(c: nat, n: nat, k: nat, ch: nat)
    requires Left(c, n, k, ch) && k > 1
    ensures k <= n == |EncodeChar(c)| && EncodeChar(c)[k - 1] == 0x80 + ch % 0x40 && Left(c, n, k - 1, ch / 0x40)
    ensures EncodeChar(c)[k - 1..] == [EncodeChar(c)[k - 1]] + EncodeChar(c)[k..]
  {
  }

  lemma LeftDone(c: nat, n: nat, ch: nat)
    requires Left(c, n, 1, ch)
    ensures 1 <= n == |EncodeChar(c)| <= 4 && EncodeChar(c)[0] == ch + FirstByteMark(n)
            && EncodeChar(c) == [EncodeChar(c)[0]] + EncodeChar(c)[1..]
  {
  }

  // ----- from UTF-32 -----

  ghost predicate AllSmall(cs: seq<Unit32>) {
    forall i :: 0 <= i < |cs| ==> cs[i] <= MAX_LEGAL
  }

  ghost predicate NoSurrogates(cs: seq<Unit32>) {
    forall i :: 0 <= i < |cs| ==> !Surrogate(cs[i])
  }

  lemma FixedLast(cs: seq<Unit32>, p: nat)
    requires p < |cs|
    ensures AllFixed(cs[..p + 1]) == AllFixed(cs[..p]) + [Fixed(cs[p])]
    ensures EncodeText(AllFixed(cs[..p + 1])) == EncodeText(AllFixed(cs[..p])) + EncodeChar(Fixed(cs[p]))
  {
    hide EncodeText, EncodeChar, Fixed;
    EncodeLast(AllFixed(cs[..p]), Fixed(cs[p]));
  }

  /** `ConvertUTF32toUTF8`. */
  method ConvertUtf32ToUtf8(source: seq<Unit32>, target: array<Byte>, strict: bool)
    returns (result: Result, p: nat, t: nat)
    modifies target
    ensures p <= |source| && t <= target.Length && target[..t] == EncodeText(AllFixed(source[..p]))
    ensures strict ==> NoSurrogates(source[..p])
    ensures result == ConversionOK <==> p == |source| && AllSmall(source)
    ensures result == TargetExhausted <==> p < |source| && !(strict && Surrogate(source[p]))
    ensures result == TargetExhausted ==> t + |EncodeChar(Fixed(source[p]))| > target.Length
    ensures result == SourceIllegal <==>
              (strict && p < |source| && Surrogate(source[p])) || (p == |source| && !AllSmall(source))
    ensures result != SourceExhausted
  {
    hide EncodeText, EncodeChar;
    result, p, t := ConversionOK, 0, 0;
    EncodeNone();
    while p < |source|
      invariant p <= |source| && t <= target.Length && target[..t] == EncodeText(AllFixed(source[..p]))
      invariant strict ==> NoSurrogates(source[..p])
      invariant result == if AllSmall(source[..p]) then ConversionOK else SourceIllegal
    {
      var ch := source[p];
      if strict && Surrogate(ch) {
        return SourceIllegal, p, t;
      }
      FixedLast(source, p);
      var c := Fixed(ch);
      var n := CharLength(c);
      if t + n > target.Length {
        return TargetExhausted, p, t;
      }
      t := WriteChar(c, target, t);
      p := p + 1;
      if ch > MAX_LEGAL {
        result := SourceIllegal;
        assert source[..p][p - 1] == ch;
      }
    }
    assert source[..p] == source;
  }

  function CharLength(c: nat): (n: nat)
    requires c <= MAX_LEGAL
    ensures n == |EncodeChar(c)|
  {
    if c < 0x80 then 1 else if c < 0x800 then 2 else if c < 0x1_0000 then 3 else 4
  }

  // ----- from UTF-8 -----

  lemma DecodeNext(s: seq<Byte>)
    requires s != [] && !IllFormed(s)
    ensures var n := FirstLength(s);
            && n <= |s| && n <= 4 && WellFormed(s[..n]) && Scalar(DecodeChar(s[..n]))
               && s[..n] == EncodeChar(DecodeChar(s[..n]))
            && DecodeText(s) == Cons(DecodeChar(s[..n]), DecodeText(s[n..]))
            && Lenient(s) == [DecodeChar(s[..n])] + Lenient(s[n..])
  {
    BytesBack(s[..FirstLength(s)]);
  }

  /** What has been written stands for what has been read, and lenient decoding goes on from there. */
  ghost predicate Reading(source: seq<Byte>, p: nat, out: seq<nat>, illegal: bool) {
    && p <= |source| && |out| <= p
    && out + Lenient(source[p..]) == Lenient(source)
    && (!illegal ==> AllScalar(out) && AllLegal(out) && EncodeText(out) == source[..p])
    && (DecodeText(source).Some? <==> !illegal && DecodeText(source[p..]).Some?)
  }

  lemma ReadingStart(source: seq<Byte>)
    ensures Reading(source, 0, [], false)
  {
    assert source[0..] == source && [] + Lenient(source) == Lenient(source);
  }

  lemma ReadingGood(source: seq<Byte>, p: nat, out: seq<nat>, illegal: bool)
    requires Reading(source, p, out, illegal) && p < |source| && !IllFormed(source[p..])
    ensures var n := FirstLength(source[p..]);
            n <= 4 && p + n <= |source| && WellFormed(source[p..p + n]) && Scalar(DecodeChar(source[p..p + n]))
            && Reading(source, p + n, out + [DecodeChar(source[p..p + n])], illegal)
  {
    hide EncodeText, EncodeChar, DecodeChar, IllFormed, WellFormed, Scalar, Lenient, DecodeText, FirstLength;
    var s := source[p..];
    DecodeNext(s);
    var n := FirstLength(s);
    var c := DecodeChar(s[..n]);
    assert s[..n] == source[p..p + n] && s[n..] == source[p + n..];
    assert out + ([c] + Lenient(source[p + n..])) == out + [c] + Lenient(source[p + n..]);
    if !illegal {
      ScalarLegal(c);
      EncodeLast(out, c);
      assert source[..p] + source[p..p + n] == source[..p + n];
    }
  }

  lemma ScalarLegal(c: nat)
    requires Scalar(c)
    ensures c <= MAX_LEGAL
  {
  }

  lemma IllFormedAt(source: seq<Byte>, p: nat, n: nat)
    requires p < |source| && n == Trailing(source[p]) + 1
    ensures FirstLength(source[p..]) == n && (n > |source| - p ==> IllFormed(source[p..]))
    ensures n <= |source| - p ==> (IllFormed(source[p..]) <==> !WellFormed(source[p..p + n]))
  {
    hide WellFormed;
    if n <= |source| - p {
      assert source[p..][..n] == source[p..p + n];
    }
  }

  lemma ReadingBad(source: seq<Byte>, p: nat, out: seq<nat>, illegal: bool)
    requires Reading(source, p, out, illegal) && p < |source| && IllFormed(source[p..])
    ensures var k := FindMaximalSubpart(source[p..]);
            k >= 1 && p + k <= |source| && Reading(source, p + k, out + [REPLACEMENT], true)
  {
    hide EncodeText, EncodeChar, DecodeChar, WellFormed, Scalar, Lenient, FindMaximalSubpart;
    var s := source[p..];
    LenientSubpart(s);
    var k := FindMaximalSubpart(s);
    assert s[k..] == source[p + k..];
    assert out + ([REPLACEMENT] + Lenient(source[p + k..])) == out + [REPLACEMENT] + Lenient(source[p + k..]);
  }

  lemma ReadingEnd(source: seq<Byte>, out: seq<nat>, illegal: bool)
    requires Reading(source, |source|, out, illegal)
    ensures out == Lenient(source) && (DecodeText(source).Some? <==> !illegal)
    ensures !illegal ==> AllScalar(out) && AllLegal(out) && EncodeText(out) == source
  {
    assert source[|source|..] == [] && source[..|source|] == source;
    assert out + [] == out;
  }

  /** What is left of some bytes after `k` characters of lenient decoding. */
  ghost function After(s: seq<Byte>, k: nat): seq<Byte>
    decreases k
  {
    if k == 0 || s == [] then s
    else After(s[if IllFormed(s) then Subpart(s) else FirstLength(s)..], k - 1)
  }

  /** A sequence that is longer than what there is. */
  ghost predicate CutOff(s: seq<Byte>) {
    s != [] && |s| < FirstLength(s)
  }

  lemma LenientNext(s: seq<Byte>)
    requires s != []
    ensures var n := if IllFormed(s) then Subpart(s) else FirstLength(s);
            1 <= n <= |s| && Lenient(s) != [] && Lenient(s)[1..] == Lenient(s[n..])
  {
    hide DecodeChar, WellFormed;
  }

  /** What is left decodes to the characters that are left. */
  lemma {:induction false} AfterLenient(s: seq<Byte>, k: nat)
    ensures Lenient(After(s, k)) == (if k <= |Lenient(s)| then Lenient(s)[k..] else [])
    ensures After(s, k) == [] <==> |Lenient(s)| <= k
    decreases k
  {
    hide Lenient, IllFormed, FirstLength;
    if s == [] {
      LenientNone();
    } else {
      LenientNext(s);
      if k > 0 {
        AfterLenient(s[if IllFormed(s) then Subpart(s) else FirstLength(s)..], k - 1);
        assert k <= |Lenient(s)| ==> Lenient(s)[1..][k - 1..] == Lenient(s)[k..];
      }
    }
  }

  lemma LenientNone()
    ensures Lenient([]) == []
  {
  }

  /** A slot for every byte is always room enough. */
  lemma {:induction false} LenientFits(s: seq<Byte>)
    ensures |Lenient(s)| <= |s|
    decreases |s|
  {
    hide Lenient, IllFormed, FirstLength;
    if s == [] {
      LenientNone();
    } else {
      LenientNext(s);
      LenientFits(s[if IllFormed(s) then Subpart(s) else FirstLength(s)..]);
    }
  }

  /** In well-formed bytes nothing is cut off. */
  lemma {:induction false} AfterWellFormed(s: seq<Byte>, k: nat)
    requires DecodeText(s).Some?
    ensures DecodeText(After(s, k)).Some? && !CutOff(After(s, k))
    decreases k
  {
    if k > 0 && s != [] {
      AfterWellFormed(s[FirstLength(s)..], k - 1);
    }
  }

  /** A letter and half of a character, with room for the letter only. */
  lemma CutOffExample()
    ensures CutOff(After([0x41, 0xC3], 1)) && !CutOff(After([0x41, 0xC3], 2)) && !CutOff(After([0x41, 0xC3], 0))
  {
    assert [0x41, 0xC3 as Byte][1..] == [0xC3];
    assert After([0x41, 0xC3], 1) == After([0xC3], 0);
    assert After([0x41, 0xC3], 2) == After([0xC3], 1);
    AfterLenient([0xC3], 1);
  }

  lemma AfterEnd(s: seq<Byte>, k: nat)
    ensures k == 0 || s == [] ==> After(s, k) == s && (CutOff(After(s, k)) <==> s != [] && |s| < FirstLength(s))
  {
  }

  lemma AfterGood(source: seq<Byte>, p: nat, room: nat)
    requires p < |source| && !IllFormed(source[p..]) && room > 0
    ensures var n := FirstLength(source[p..]);
            p + n <= |source| && After(source[p..], room) == After(source[p + n..], room - 1)
  {
    assert source[p..][FirstLength(source[p..])..] == source[p + FirstLength(source[p..])..];
  }

  lemma AfterBad(source: seq<Byte>, p: nat, room: nat)
    requires p < |source| && IllFormed(source[p..]) && room > 0
    ensures var n := FindMaximalSubpart(source[p..]);
            p + n <= |source| && After(source[p..], room) == After(source[p + n..], room - 1)
  {
    hide FindMaximalSubpart, IllFormed;
    var s := source[p..];
    SubpartFound(s);
    SubpartUnique(s, Subpart(s), FindMaximalSubpart(s));
    assert s[Subpart(s)..] == source[p + Subpart(s)..];
  }

  /** Puts a replacement character in the place of a maximal subpart. */
  method Replace(source: seq<Byte>, p: nat, target: array<Unit32>, t: nat, ghost illegal: bool) returns (p': nat)
    requires t < target.Length && Reading(source, p, target[..t], illegal) && p < |source| && IllFormed(source[p..])
    modifies target
    ensures p < p' <= |source| && Reading(source, p', target[..t + 1], true)
    ensures After(source[p..], target.Length - t) == After(source[p'..], target.Length - (t + 1))
  {
    hide Reading, FindMaximalSubpart, IllFormed, After;
    ghost var out := target[..t];
    ReadingBad(source, p, out, illegal);
    AfterBad(source, p, target.Length - t);
    p' := p + FindMaximalSubpart(source[p..]);
    target[t] := REPLACEMENT;
    assert target[..t + 1] == out + [REPLACEMENT];
  }

  /** Puts a character in the place of its sequence. */
  method Decode(source: seq<Byte>, p: nat, target: array<Unit32>, t: nat, ghost illegal: bool) returns (p': nat)
    requires t < target.Length && Reading(source, p, target[..t], illegal) && p < |source| && !IllFormed(source[p..])
    modifies target
    ensures p < p' <= |source| && Reading(source, p', target[..t + 1], illegal)
    ensures After(source[p..], target.Length - t) == After(source[p'..], target.Length - (t + 1))
  {
    hide Reading, DecodeChar, IllFormed, After, WellFormed;
    ghost var out := target[..t];
    ReadingGood(source, p, out, illegal);
    AfterGood(source, p, target.Length - t);
    p' := p + FirstLength(source[p..]);
    target[t] := DecodeChar(source[p..p']);
    assert target[..t + 1] == out + [target[t]];
  }

  /** `ConvertUTF8toUTF32Impl`. Once a sequence is legal its value needs no more tests. The replacement for a sequence
      that is cut off is written without a look at the room left: `past` says that this write would go past the
      target, and the model stops there. */
  method ConvertUtf8ToUtf32(source: seq<Byte>, target: array<Unit32>, strict: bool, partial: bool)
    returns (result: Result, p: nat, t: nat, past: bool, ghost illegal: bool)
    modifies target
    ensures past <==> !strict && !partial && CutOff(After(source, target.Length))
    ensures past ==> p < |source| && t == target.Length
    ensures t <= target.Length && Reading(source, p, target[..t], illegal) && (strict ==> !illegal)
    ensures result == ConversionOK <==> p == |source| && !illegal
    ensures result == SourceExhausted <==>
              (strict || partial) && p < |source| && |source| - p < FirstLength(source[p..])
    ensures result == TargetExhausted <==>
              p < |source| && t == target.Length && FirstLength(source[p..]) <= |source| - p
    ensures result == SourceIllegal && !past <==>
              || (p == |source| && illegal)
              || (strict && p < |source| && t < target.Length
                  && FirstLength(source[p..]) <= |source| - p && IllFormed(source[p..]))
    ensures !strict && !partial && |Lenient(source)| <= target.Length ==>
              !past && p == |source| && target[..t] == Lenient(source)
              && (result == ConversionOK <==> DecodeText(source).Some?)
    ensures !strict && !partial && |Lenient(source)| > target.Length ==> past || result == TargetExhausted
    ensures strict && DecodeText(source).Some? && |DecodeText(source).value| <= target.Length ==>
              result == ConversionOK && target[..t] == DecodeText(source).value
  {
    hide Reading, DecodeChar, WellFormed, FindMaximalSubpart, IsLegal, Lenient, DecodeText, IllFormed, After,
         FirstLength, CutOff, Trailing, EncodeText, EncodeChar;
    result, p, t, past, illegal := ConversionOK, 0, 0, false, false;
    ReadingStart(source);
    AfterLenient(source, target.Length);
    assert target[..0] == [] && source[0..] == source;
    while p < |source|
      invariant p <= |source| && t <= target.Length && Reading(source, p, target[..t], illegal)
      invariant After(source, target.Length) == After(source[p..], target.Length - t)
      invariant result == (if illegal then SourceIllegal else ConversionOK) && (strict ==> !illegal)
    {
      var n := Trailing(source[p]) + 1;
      IllFormedAt(source, p, n);
      AfterEnd(source[p..], target.Length - t);
      if n > |source| - p && (strict || partial) {
        StrictStop(source, p, target[..t], illegal);
        return SourceExhausted, p, t, false, illegal;
      }
      if n <= |source| - p && t >= target.Length {
        StrictStop(source, p, target[..t], illegal);
        return TargetExhausted, p, t, false, illegal;
      }
      if t >= target.Length {
        return SourceIllegal, p, t, true, illegal;
      }
      var bad := n > |source| - p;
      if !bad {
        LegalIff(source[p..p + n]);
        bad := !IsLegal(source[p..p + n]);
      }
      if bad {
        if strict {
          StrictStop(source, p, target[..t], illegal);
          return SourceIllegal, p, t, false, illegal;
        }
        p := Replace(source, p, target, t, illegal);
        result, illegal := SourceIllegal, true;
      } else {
        p := Decode(source, p, target, t, illegal);
      }
      t := t + 1;
    }
    ReadingEnd(source, target[..t], illegal);
    AfterEnd(source[p..], target.Length - t);
    if !illegal {
      LenientWellFormed(source);
    }
  }

  /** Stopping before the end means that decoding fails, or that it gives more than has been written. */
  lemma StrictStop(source: seq<Byte>, p: nat, out: seq<nat>, illegal: bool)
    requires Reading(source, p, out, illegal) && p < |source|
    ensures IllFormed(source[p..]) ==> DecodeText(source).None?
    ensures DecodeText(source).Some? ==> |DecodeText(source).value| > |out|
  {
    if DecodeText(source).Some? {
      LenientWellFormed(source);
      assert source[p..] != [] && Lenient(source[p..]) != [];
    }
  }

  // ----- between UTF-16 and UTF-8 -----

  /** The same text in UTF-16 and in UTF-8. */
  ghost predicate SameText(cs: seq<nat>, units: seq<Unit16>, bytes: seq<Byte>) {
    AllLegal(cs) && UnitsText(cs) == units && EncodeText(cs) == bytes
  }

  lemma SameNext(cs: seq<nat>, units: seq<Unit16>, bytes: seq<Byte>, c: nat)
    requires SameText(cs, units, bytes) && c <= MAX_LEGAL
    ensures SameText(cs + [c], units + Units(c), bytes + EncodeChar(c))
  {
    EncodeLast(cs, c);
    UnitsLast(cs, c);
  }

  /** The character at the front of some units: a pair, or a single unit, which strictly must be no surrogate. */
  method NextUnits(source: seq<Unit16>, p: nat, strict: bool) returns (stop: Result, ch: nat, n: nat)
    requires p < |source|
    ensures stop == ConversionOK ==>
              ch <= MAX_LEGAL && (strict ==> Scalar(ch)) && 1 <= n && p + n <= |source| && source[p..p + n] == Units(ch)
    ensures stop == ConversionOK ==>
              if n == 1 then ch == source[p] else n == 2 && p + 1 < |source| && Pair(source[p], source[p + 1], ch)
    ensures stop == SourceExhausted <==> p == |source| - 1 && High(source[p])
    ensures stop == SourceIllegal <==>
              strict && (Low(source[p]) || (High(source[p]) && p + 1 < |source| && !Low(source[p + 1])))
    ensures stop != TargetExhausted
  {
    ch, n := source[p], 1;
    if High(ch) {
      if p + 1 == |source| {
        return SourceExhausted, ch, n;
      }
      if Low(source[p + 1]) {
        ch, n := FromPair(source[p], source[p + 1]), 2;
      } else if strict {
        return SourceIllegal, ch, n;
      }
    } else if strict && Low(ch) {
      return SourceIllegal, ch, n;
    }
    stop := ConversionOK;
  }

  /** The units of the character `c` stand at `p`. */
  ghost predicate UnitsAt(source: seq<Unit16>, p: nat, c: nat) {
    c <= MAX_LEGAL && p + |Units(c)| <= |source| && source[p..p + |Units(c)|] == Units(c)
  }

  /** The units of the first character do not fit behind the first `t`. */
  ghost predicate NoRoom(s: seq<Byte>, t: nat, room: nat)
    requires s != [] && !IllFormed(s)
  {
    BytesBack(s[..FirstLength(s)]);
    t + |Units(DecodeChar(s[..FirstLength(s)]))| > room
  }

  /** Well-formed UTF-16: `ws` is its text. */
  ghost predicate TextOf(ws: seq<nat>, units: seq<Unit16>) {
    AllScalar(ws) && AllLegal(ws) && UnitsText(ws) == units
  }

  /** A conversion that stops within well-formed UTF-16 stops before a character of it. */
  lemma Stopped16(ws: seq<nat>, cs: seq<nat>, source: seq<Unit16>, p: nat)
    requires TextOf(ws, source) && AllScalar(cs) && AllLegal(cs) && p < |source| && UnitsText(cs) == source[..p]
    ensures |cs| < |ws| && UnitsAt(source, p, ws[|cs|])
    ensures |EncodeText(cs)| + |EncodeChar(ws[|cs|])| <= |EncodeText(ws)|
  {
    hide Units, EncodeChar, Scalar, EncodeText, UnitsText, UnitsAt;
    var n := |cs|;
    assert source == source[..p] + source[p..];
    UnitsPrefix(cs, ws, source[p..]);
    UnitsNone();
    var rest := ws[n..];
    assert rest != [];
    UnitsFirst(rest);
    StandsAt(source, p, ws[n], UnitsText(rest[1..]));
    EncodeLast(cs, ws[n]);
    EncodeCat(cs + [ws[n]], rest[1..]);
    assert cs + [ws[n]] + rest[1..] == ws;
  }

  lemma StandsAt(source: seq<Unit16>, p: nat, c: nat, rest: seq<Unit16>)
    requires p <= |source| && c <= MAX_LEGAL && source[p..] == Units(c) + rest
    ensures UnitsAt(source, p, c)
  {
    hide Units;
    assert source[p..][..|Units(c)|] == Units(c) && source[p..p + |Units(c)|] == source[p..][..|Units(c)|];
  }

  /** And nothing but a lack of room stops it there. */
  lemma NoReason16(source: seq<Unit16>, p: nat, w: nat)
    requires Scalar(w) && UnitsAt(source, p, w) && p < |source|
    ensures !Low(source[p]) && (High(source[p]) ==> p + 1 < |source| && Low(source[p + 1]))
    ensures forall c: nat :: Scalar(c) && UnitsAt(source, p, c) ==> c == w
  {
    assert source[p] == source[p..p + |Units(w)|][0];
    if |Units(w)| == 2 {
      assert source[p + 1] == source[p..p + |Units(w)|][1];
    }
    forall c: nat | Scalar(c) && UnitsAt(source, p, c)
      ensures c == w
    {
      var m, n := |Units(c)|, |Units(w)|;
      assert source[p..] == source[p..p + m] + source[p + m..] && source[p..] == source[p..p + n] + source[p + n..];
      FirstUnit(c, source[p + m..], w, source[p + n..]);
    }
  }

  /** `ConvertUTF16toUTF8`; `cs` is the text converted. Strictly, well-formed UTF-16 is converted if there is room. */
  method ConvertUtf16ToUtf8(source: seq<Unit16>, target: array<Byte>, strict: bool)
    returns (result: Result, p: nat, t: nat, ghost cs: seq<nat>)
    modifies target
    ensures p <= |source| && t <= target.Length && SameText(cs, source[..p], target[..t]) && (strict ==> AllScalar(cs))
    ensures result == ConversionOK <==> p == |source|
    ensures result == SourceExhausted <==> p == |source| - 1 && High(source[p])
    ensures result == SourceIllegal <==>
              p < |source| && strict && (Low(source[p]) || (High(source[p]) && p + 1 < |source| && !Low(source[p + 1])))
    ensures result == TargetExhausted ==>
              exists c: nat :: UnitsAt(source, p, c) && (strict ==> Scalar(c)) && t + |EncodeChar(c)| > target.Length
    ensures strict ==> forall ws :: TextOf(ws, source) && |EncodeText(ws)| <= target.Length ==>
              result == ConversionOK && cs == ws
  {
    result, p, t, cs := Convert16(source, target, strict);
    if strict {
      forall ws | TextOf(ws, source) && |EncodeText(ws)| <= target.Length
        ensures p == |source| && cs == ws
      {
        Strict16(ws, cs, source, p, t, target.Length, result);
      }
    }
  }

  lemma Strict16(ws: seq<nat>, cs: seq<nat>, source: seq<Unit16>, p: nat, t: nat, room: nat, result: Result)
    requires TextOf(ws, source) && |EncodeText(ws)| <= room && AllScalar(cs) && AllLegal(cs)
    requires p <= |source| && UnitsText(cs) == source[..p] && t == |EncodeText(cs)|
    requires result == ConversionOK <==> p == |source|
    requires result == SourceExhausted ==> p == |source| - 1 && High(source[p])
    requires result == SourceIllegal ==> Low(source[p]) || (High(source[p]) && p + 1 < |source| && !Low(source[p + 1]))
    requires result == TargetExhausted ==>
               exists c: nat :: UnitsAt(source, p, c) && Scalar(c) && t + |EncodeChar(c)| > room
    ensures p == |source| && cs == ws
  {
    hide Units, EncodeChar, Scalar, EncodeText, UnitsText, UnitsAt;
    if p < |source| {
      Stopped16(ws, cs, source, p);
      NoReason16(source, p, ws[|cs|]);
    } else {
      assert source[..p] == source;
      UnitsInjective(cs, ws);
    }
  }

  /** The loop of the conversion. */
  method Convert16(source: seq<Unit16>, target: array<Byte>, strict: bool)
    returns (result: Result, p: nat, t: nat, ghost cs: seq<nat>)
    modifies target
    ensures p <= |source| && t <= target.Length && SameText(cs, source[..p], target[..t]) && (strict ==> AllScalar(cs))
    ensures result == ConversionOK <==> p == |source|
    ensures result == SourceExhausted <==> p == |source| - 1 && High(source[p])
    ensures result == SourceIllegal <==>
              p < |source| && strict && (Low(source[p]) || (High(source[p]) && p + 1 < |source| && !Low(source[p + 1])))
    ensures result == TargetExhausted ==>
              exists c: nat :: UnitsAt(source, p, c) && (strict ==> Scalar(c)) && t + |EncodeChar(c)| > target.Length
  {
    hide Units, EncodeChar, Scalar;
    p, t, cs := 0, 0, [];
    while p < |source|
      invariant p <= |source| && t <= target.Length && SameText(cs, source[..p], target[..t])
                && (strict ==> AllScalar(cs))
    {
      var stop, ch, n := NextUnits(source, p, strict);
      if stop != ConversionOK {
        return stop, p, t, cs;
      }
      if t + CharLength(ch) > target.Length {
        assert UnitsAt(source, p, ch);
        return TargetExhausted, p, t, cs;
      }
      SameNext(cs, source[..p], target[..t], ch);
      t := WriteChar(ch, target, t);
      assert source[..p] + source[p..p + n] == source[..p + n];
      p := p + n;
      cs := cs + [ch];
    }
    result := ConversionOK;
  }

  /** A conversion that stops within well-formed bytes stops before a character of them, for lack of room. */
  lemma Stopped8(source: seq<Byte>, cs: seq<nat>, p: nat)
    requires AllScalar(cs) && AllLegal(cs) && p < |source| && EncodeText(cs) == source[..p] && DecodeText(source).Some?
    ensures !IllFormed(source[p..]) && FirstLength(source[p..]) <= |source| - p
    ensures var c := DecodeChar(source[p..][..FirstLength(source[p..])]);
            c <= MAX_LEGAL && AllLegal(DecodeText(source).value) &&
            |UnitsText(cs)| + |Units(c)| <= |UnitsText(DecodeText(source).value)|
  {
    hide Units, EncodeChar, Scalar, EncodeText, UnitsText, DecodeChar, WellFormed, Lenient, FirstLength,
         DecodeText, IllFormed;
    var s := source[p..];
    assert source == source[..p] + s;
    BytesPrefix(cs, s);
    Decodable(s);
    DecodeNext(s);
    var n := FirstLength(s);
    var c, rest := DecodeChar(s[..n]), DecodeText(s[n..]).value;
    ScalarLegal(c);
    BytesTextBack(source);
    BytesTextBack(s[n..]);
    UnitsLast(cs, c);
    UnitsCat(cs + [c], rest);
    assert cs + [c] + rest == cs + ([c] + rest);
  }

  lemma Decodable(s: seq<Byte>)
    requires s != [] && DecodeText(s).Some?
    ensures !IllFormed(s)
  {
  }

  lemma Strict8(source: seq<Byte>, cs: seq<nat>, p: nat, t: nat, room: nat, result: Result)
    requires DecodeText(source).Some? && AllScalar(cs) && AllLegal(cs) && p <= |source| && EncodeText(cs) == source[..p]
    requires AllLegal(DecodeText(source).value) && |UnitsText(DecodeText(source).value)| <= room && t == |UnitsText(cs)|
    requires result == ConversionOK <==> p == |source|
    requires result == SourceExhausted ==> p < |source| && |source| - p < FirstLength(source[p..])
    requires result == SourceIllegal ==> p < |source| && IllFormed(source[p..])
    requires result == TargetExhausted ==> p < |source| && !IllFormed(source[p..]) && NoRoom(source[p..], t, room)
    ensures p == |source| && DecodeText(source).value == cs
  {
    hide Units, Scalar, EncodeText, UnitsText, DecodeChar, WellFormed, FirstLength, DecodeText;
    if p < |source| {
      Stopped8(source, cs, p);
    } else {
      assert source[..p] == source;
      TextBack(cs);
    }
  }

  /** `ConvertUTF8toUTF16`; `cs` is the text converted. Well-formed bytes are converted if there is room. */
  method ConvertUtf8ToUtf16(source: seq<Byte>, target: array<Unit16>)
    returns (result: Result, p: nat, t: nat, ghost cs: seq<nat>)
    modifies target
    ensures p <= |source| && t <= target.Length && SameText(cs, target[..t], source[..p]) && AllScalar(cs)
    ensures result == ConversionOK <==> p == |source|
    ensures result == SourceExhausted <==> p < |source| && |source| - p < FirstLength(source[p..])
    ensures result == SourceIllegal <==>
              p < |source| && FirstLength(source[p..]) <= |source| - p && IllFormed(source[p..])
    ensures result == TargetExhausted <==>
              p < |source| && !IllFormed(source[p..]) && NoRoom(source[p..], t, target.Length)
    ensures DecodeText(source).Some? ==> AllLegal(DecodeText(source).value)
    ensures DecodeText(source).Some? && |UnitsText(DecodeText(source).value)| <= target.Length ==>
              result == ConversionOK && cs == DecodeText(source).value
  {
    result, p, t, cs := Convert8(source, target);
    if DecodeText(source).Some? {
      BytesTextBack(source);
      if |UnitsText(DecodeText(source).value)| <= target.Length {
        Strict8(source, cs, p, t, target.Length, result);
      }
    }
  }

  /** The loop of the conversion. */
  method Convert8(source: seq<Byte>, target: array<Unit16>) returns (result: Result, p: nat, t: nat, ghost cs: seq<nat>)
    modifies target
    ensures p <= |source| && t <= target.Length && SameText(cs, target[..t], source[..p]) && AllScalar(cs)
    ensures result == ConversionOK <==> p == |source|
    ensures result == SourceExhausted <==> p < |source| && |source| - p < FirstLength(source[p..])
    ensures result == SourceIllegal <==>
              p < |source| && FirstLength(source[p..]) <= |source| - p && IllFormed(source[p..])
    ensures result == TargetExhausted <==>
              p < |source| && !IllFormed(source[p..]) && NoRoom(source[p..], t, target.Length)
  {
    hide Units, EncodeChar, DecodeChar, WellFormed, Scalar, IsLegal;
    p, t, cs := 0, 0, [];
    while p < |source|
      invariant p <= |source| && t <= target.Length && SameText(cs, target[..t], source[..p]) && AllScalar(cs)
    {
      var n := Trailing(source[p]) + 1;
      if n > |source| - p {
        return SourceExhausted, p, t, cs;
      }
      assert source[p..p + n] == source[p..][..n];
      LegalIff(source[p..p + n]);
      if !IsLegal(source[p..p + n]) {
        return SourceIllegal, p, t, cs;
      }
      BytesBack(source[p..p + n]);
      var ch := DecodeChar(source[p..p + n]);
      ScalarLegal(ch);
      if t + |Units(ch)| > target.Length {
        return TargetExhausted, p, t, cs;
      }
      SameNext(cs, target[..t], source[..p], ch);
      t := WriteUnits(ch, target, t);
      assert source[..p] + source[p..p + n] == source[..p + n];
      p := p + n;
      cs := cs + [ch];
    }
    result := ConversionOK;
  }

  method WriteUnits(c: nat, target: array<Unit16>, t: nat) returns (t': nat)
    requires c <= MAX_LEGAL && t + |Units(c)| <= target.Length
    modifies target
    ensures t' == t + |Units(c)| && target[..t'] == old(target[..t]) + Units(c)
    ensures if c <= 0xFFFF then t' == t + 1 && target[t] == c
            else t' == t + 2 && Pair(target[t], target[t + 1], c)
  {
    if c <= MAX_BMP {
      target[t] := c;
      t' := t + 1;
    } else {
      target[t] := (c - HALF_BASE) / 0x400 + HIGH_START;
      target[t + 1] := (c - HALF_BASE) % 0x400 + LOW_START;
      t' := t + 2;
    }
  }

  /** UTF-16 to UTF-8 and back, strictly: with three bytes for every unit nothing stops either conversion of well-formed
      text, and it comes back. */
  method Utf16ThroughUtf8(units: seq<Unit16>, ghost ws: seq<nat>) returns (back: seq<Unit16>)
    requires TextOf(ws, units)
    ensures back == units
  {
    hide EncodeText, UnitsText, DecodeText, AllScalar, AllLegal;
    UnitsRoom(ws);
    TextBack(ws);
    var bytes := new Byte[3 * |units|];
    var result, p, t, cs := ConvertUtf16ToUtf8(units, bytes, true);
    assert units[..p] == units && cs == ws;
    var again := new Unit16[|units|];
    var result', p', t', ds := ConvertUtf8ToUtf16(bytes[..t], again);
    back := again[..t'];
  }

  /** Well-formed UTF-8 to UTF-16 and back: with a unit for every byte and as many bytes nothing stops either
      conversion, and the bytes come back. */
  method Utf8ThroughUtf16(bytes: seq<Byte>) returns (back: seq<Byte>)
    requires DecodeText(bytes).Some?
    ensures back == bytes
  {
    hide EncodeText, UnitsText, DecodeText, AllScalar, AllLegal;
    ghost var ws := DecodeText(bytes).value;
    BytesTextBack(bytes);
    UnitsRoom(ws);
    var units := new Unit16[|bytes|];
    var result, p, t, cs := ConvertUtf8ToUtf16(bytes, units);
    assert bytes[..p] == bytes && cs == ws;
    var again := new Byte[|bytes|];
    var result', p', t', ds := ConvertUtf16ToUtf8(units[..t], again, true);
    assert units[..t][..p'] == units[..t];
    back := again[..t'];
  }

  lemma {:induction false} FourEach(cs: seq<nat>)
    requires AllLegal(cs)
    ensures |EncodeText(cs)| <= 4 * |cs|
  {
    if cs != [] {
      FourEach(cs[..|cs| - 1]);
    }
  }

  lemma ScalarsFixed(text: seq<Unit32>)
    requires forall i :: 0 <= i < |text| ==> Scalar(text[i])
    ensures AllSmall(text) && NoSurrogates(text) && AllScalar(AllFixed(text)) && AllFixed(text) == text
  {
  }

  /** UTF-32 to UTF-8 and back, strictly: with four bytes for every character nothing stops either conversion, and
      the text comes back. */
  method ThroughUtf8(text: seq<Unit32>) returns (back: seq<Unit32>)
    requires forall i :: 0 <= i < |text| ==> Scalar(text[i])
    ensures back == text
  {
    hide EncodeText, EncodeChar, DecodeText, Reading, Lenient;
    ScalarsFixed(text);
    var bytes := new Byte[4 * |text|];
    var result, p, t := ConvertUtf32ToUtf8(text, bytes, true);
    if p < |text| {
      FixedLast(text, p);
      FourEach(AllFixed(text[..p + 1]));
    }
    assert text[..|text|] == text;
    TextBack(AllFixed(text));
    var units := new Unit32[|text|];
    var result', p', t', _, illegal := ConvertUtf8ToUtf32(bytes[..t], units, true, false);
    back := units[..t'];
  }
}
