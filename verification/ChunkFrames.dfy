/** The frames of src/ChunkedIO.cc: a chunk goes out as one frame or, when it is too large for a buffer, as
    several, each a four-byte length in network order followed by data. */
module ChunkFrames {
  import opened Basics

  const BUFFER_SIZE := 1024 * 1024
  const HEADER := 4
  const FLAG_PARTIAL := 0x8000_0000
  const MAX_DATA := BUFFER_SIZE - HEADER

  /** One frame; `more` marks all but the last part of an oversized chunk. */
  datatype Frame = Frame(data: seq<Byte>, more: bool)

  predicate Fits(f: Frame) {
    0 < |f.data| <= MAX_DATA
  }

  ghost predicate AllFit(fs: seq<Frame>) {
    forall i :: 0 <= i < |fs| ==> Fits(fs[i])
  }

  function Htonl(n: int): (b: seq<Byte>)
    requires 0 <= n < 0x1_0000_0000
    ensures |b| == HEADER
  {
    [n / 0x100 / 0x100 / 0x100, n / 0x100 / 0x100 % 0x100, n / 0x100 % 0x100, n % 0x100]
  }

  function Ntohl(b: seq<Byte>): (n: int)
    requires |b| == HEADER
    ensures 0 <= n < 0x1_0000_0000
  {
    ((b[0] as int * 0x100 + b[1]) * 0x100 + b[2]) * 0x100 + b[3]
  }

  lemma NtohlHtonl(n: int)
    requires 0 <= n < 0x1_0000_0000
    ensures Ntohl(Htonl(n)) == n
  {
  }

  /** Network order: the most significant byte first. */
  lemma NetworkOrder(n: int, b: seq<Byte>)
    requires 0 <= n < 0x1_0000_0000 && |b| == HEADER
    ensures b == Htonl(n) <==> n == 0x100_0000 * b[0] as int + 0x1_0000 * b[1] as int + 0x100 * b[2] as int + b[3]
    ensures b == Htonl(n) <==> n == Ntohl(b)
  {
    if Ntohl(b) == n {
      assert n / 0x100 == (b[0] as int * 0x100 + b[1]) * 0x100 + b[2];
      assert n / 0x100 / 0x100 == b[0] as int * 0x100 + b[1];
    }
    NtohlHtonl(n);
  }

  /** The length field: the flag is or-ed to a length below it. */
  function WireLen(f: Frame): (n: int)
    requires Fits(f)
    ensures 0 < n < 0x1_0000_0000 && n % FLAG_PARTIAL == |f.data| && (n >= FLAG_PARTIAL <==> f.more)
  {
    if f.more then |f.data| + FLAG_PARTIAL else |f.data|
  }

  function Encoded(f: Frame): (b: seq<Byte>)
    requires Fits(f)
    ensures |b| == HEADER + |f.data| <= BUFFER_SIZE
  {
    Htonl(WireLen(f)) + f.data
  }

  /** The bytes of a list of frames. */
  ghost function Encode(fs: seq<Frame>): seq<Byte>
    requires AllFit(fs)
  {
    if fs == [] then [] else Encoded(fs[0]) + Encode(fs[1..])
  }

  lemma {:induction false} EncodeCat(fs: seq<Frame>, gs: seq<Frame>)
    requires AllFit(fs) && AllFit(gs)
    ensures AllFit(fs + gs) && Encode(fs + gs) == Encode(fs) + Encode(gs)
    decreases |fs|
  {
    if fs == [] {
      assert fs + gs == gs;
    } else {
      EncodeCat(fs[1..], gs);
      assert (fs + gs)[1..] == fs[1..] + gs;
    }
  }

  lemma EncodeOne(f: Frame)
    requires Fits(f)
    ensures Encode([f]) == Encoded(f)
  {
    assert Encode([f]) == Encoded(f) + Encode([]);
  }

  // ----- taking frames apart -----

  /** A whole frame stands at the front of `b`. */
  predicate Available(b: seq<Byte>) {
    |b| >= HEADER && Ntohl(b[..HEADER]) % FLAG_PARTIAL <= |b| - HEADER
  }

  /** The frame at the front of `b`. */
  function First(b: seq<Byte>): Frame
    requires Available(b)
  {
    var n := Ntohl(b[..HEADER]);
    Frame(b[HEADER..HEADER + n % FLAG_PARTIAL], n >= FLAG_PARTIAL)
  }

  lemma HeaderOf(f: Frame, rest: seq<Byte>, b: seq<Byte>)
    requires Fits(f) && b <= Encoded(f) + rest && |b| >= HEADER
    ensures b[..HEADER] == Htonl(WireLen(f)) && Ntohl(b[..HEADER]) == WireLen(f)
  {
    assert b[..HEADER] == (Encoded(f) + rest)[..HEADER] == Htonl(WireLen(f));
    NtohlHtonl(WireLen(f));
  }

  /** What has arrived of a list of frames shows a whole frame exactly when all of the first one is there, and
      then it shows that one. */
  lemma FirstOf(fs: seq<Frame>, b: seq<Byte>)
    requires AllFit(fs) && b <= Encode(fs)
    ensures Available(b) <==> fs != [] && |Encoded(fs[0])| <= |b|
    ensures Available(b) ==> First(b) == fs[0] && b[|Encoded(fs[0])|..] <= Encode(fs[1..])
  {
    if fs != [] && |b| >= HEADER {
      var f, rest := fs[0], Encode(fs[1..]);
      HeaderOf(f, rest, b);
      if |Encoded(f)| <= |b| {
        var n := |f.data|;
        assert b[HEADER..HEADER + n] == (Encoded(f) + rest)[HEADER..HEADER + n] == f.data;
        assert (Encoded(f) + rest)[HEADER + n..] == rest;
      }
    }
  }

  /** As much as a buffer holds always shows a whole frame. */
  lemma FullShows(fs: seq<Frame>, b: seq<Byte>)
    requires AllFit(fs) && b <= Encode(fs) && |b| == BUFFER_SIZE
    ensures Available(b)
  {
    FirstOf(fs, b);
  }

  // ----- chunks -----

  /** The frames of a chunk. */
  ghost function Split(c: seq<Byte>): (fs: seq<Frame>)
    requires c != []
    ensures fs != [] && AllFit(fs)
    decreases |c|
  {
    if |c| <= MAX_DATA then [Frame(c, false)] else [Frame(c[..MAX_DATA], true)] + Split(c[MAX_DATA..])
  }

  /** Every frame but the last is full, and only the last is not marked. */
  lemma {:induction false} SplitPart(c: seq<Byte>, i: nat)
    requires i * (BUFFER_SIZE - 4) < |c|
    ensures i < |Split(c)| && (i + 1 == |Split(c)| <==> (i + 1) * (BUFFER_SIZE - 4) >= |c|)
    ensures var from, to := i * (BUFFER_SIZE - 4), (i + 1) * (BUFFER_SIZE - 4);
            Split(c)[i] == if to < |c| then Frame(c[from..to], true) else Frame(c[from..], false)
    decreases i
  {
    if i > 0 {
      SplitPart(c[MAX_DATA..], i - 1);
    }
  }

  ghost predicate NonEmpty(cs: seq<seq<Byte>>) {
    forall i :: 0 <= i < |cs| ==> cs[i] != []
  }

  ghost function SplitAll(cs: seq<seq<Byte>>): (fs: seq<Frame>)
    requires NonEmpty(cs)
    ensures AllFit(fs)
  {
    if cs == [] then [] else SplitAll(cs[..|cs| - 1]) + Split(cs[|cs| - 1])
  }

  /** What a receiver has put together: the chunks that are complete, and the one it is in the middle of. */
  datatype Assembly = Assembly(done: seq<seq<Byte>>, part: Option<seq<Byte>>)

  function Joined(part: Option<seq<Byte>>, data: seq<Byte>): seq<Byte> {
    match part
    case None => data
    case Some(p) => p + data
  }

  ghost function Add(a: Assembly, f: Frame): Assembly {
    if f.more then Assembly(a.done, Some(Joined(a.part, f.data)))
    else Assembly(a.done + [Joined(a.part, f.data)], None)
  }

  ghost function AddAll(a: Assembly, fs: seq<Frame>): Assembly {
    if fs == [] then a else Add(AddAll(a, fs[..|fs| - 1]), fs[|fs| - 1])
  }

  lemma AddLast(a: Assembly, fs: seq<Frame>, f: Frame)
    ensures AddAll(a, fs + [f]) == Add(AddAll(a, fs), f)
  {
    assert (fs + [f])[..|fs|] == fs;
  }

  lemma {:induction false} AddCat(a: Assembly, fs: seq<Frame>, gs: seq<Frame>)
    ensures AddAll(a, fs + gs) == AddAll(AddAll(a, fs), gs)
    decreases |gs|
  {
    var n := |gs| - 1;
    if gs == [] {
      assert fs + gs == fs;
    } else {
      AddCat(a, fs, gs[..n]);
      assert (fs + gs)[..|fs| + n] == fs + gs[..n];
    }
  }

  lemma {:induction false} AddGrows(a: Assembly, fs: seq<Frame>)
    ensures a.done <= AddAll(a, fs).done
    decreases |fs|
  {
    if fs != [] {
      AddGrows(a, fs[..|fs| - 1]);
    }
  }

  /** A part held is the beginning of the chunk completed next. */
  lemma {:induction false} PartGrows(a: Assembly, fs: seq<Frame>)
    requires a.part.Some?
    ensures var r := AddAll(a, fs);
            if |r.done| > |a.done| then a.part.value <= r.done[|a.done|]
            else |r.done| == |a.done| && r.part.Some? && a.part.value <= r.part.value
    decreases |fs|
  {
    if fs != [] {
      PartGrows(a, fs[..|fs| - 1]);
    }
  }

  /** Putting the frames of a chunk together gives the chunk. */
  lemma {:induction false} AddSplit(a: Assembly, c: seq<Byte>)
    requires c != []
    ensures AddAll(a, Split(c)) == Assembly(a.done + [Joined(a.part, c)], None)
    decreases |c|
  {
    if |c| <= MAX_DATA {
      AddLast(a, [], Frame(c, false));
      assert [] + Split(c) == Split(c);
    } else {
      var f := Frame(c[..MAX_DATA], true);
      AddLast(a, [], f);
      assert [] + [f] == [f];
      AddCat(a, [f], Split(c[MAX_DATA..]));
      AddSplit(Add(a, f), c[MAX_DATA..]);
      assert c == c[..MAX_DATA] + c[MAX_DATA..];
      assert Joined(Some(Joined(a.part, f.data)), c[MAX_DATA..]) == Joined(a.part, c);
    }
  }

  lemma AddWhole(done: seq<seq<Byte>>, c: seq<Byte>)
    requires c != []
    ensures AddAll(Assembly(done, None), Split(c)) == Assembly(done + [c], None)
  {
    AddSplit(Assembly(done, None), c);
  }

  const START := Assembly([], None)

  lemma {:induction false} AssembleSplit(cs: seq<seq<Byte>>)
    requires NonEmpty(cs)
    ensures AddAll(START, SplitAll(cs)) == Assembly(cs, None)
    decreases |cs|
  {
    hide Split, Add, Joined;
    if cs == [] {
    } else {
      var n := |cs| - 1;
      assert SplitAll(cs) == SplitAll(cs[..n]) + Split(cs[n]);
      hide SplitAll, AddAll;
      AssembleSplit(cs[..n]);
      AddCat(START, SplitAll(cs[..n]), Split(cs[n]));
      AddWhole(cs[..n], cs[n]);
      assert cs[..n] + [cs[n]] == cs;
    }
  }

  /** Whatever part of the frames of some chunks has been taken in, the chunks completed so far are the first
      of those chunks, and the part held is the beginning of the next; all of them once all frames are in. */
  lemma DeliveredPrefix(cs: seq<seq<Byte>>, gs: seq<Frame>)
    requires NonEmpty(cs) && gs <= SplitAll(cs)
    ensures AddAll(START, gs).done <= cs
    ensures var a := AddAll(START, gs); a.part.Some? ==> |a.done| < |cs| && a.part.value <= cs[|a.done|]
    ensures gs == SplitAll(cs) ==> AddAll(START, gs) == Assembly(cs, None)
  {
    var fs := SplitAll(cs);
    AssembleSplit(cs);
    assert fs == gs + fs[|gs|..];
    AddCat(START, gs, fs[|gs|..]);
    AddGrows(AddAll(START, gs), fs[|gs|..]);
    if AddAll(START, gs).part.Some? {
      PartGrows(AddAll(START, gs), fs[|gs|..]);
    }
  }

  /** Frames of the same bytes are the same frames: the encoding loses nothing. */
  lemma {:induction false} EncodeInjective(fs: seq<Frame>, gs: seq<Frame>)
    requires AllFit(fs) && AllFit(gs) && Encode(fs) == Encode(gs)
    ensures fs == gs
    decreases |fs|
  {
    if fs != [] && gs != [] {
      FirstOf(fs, Encode(fs));
      FirstOf(gs, Encode(fs));
      assert Encode(fs)[|Encoded(fs[0])|..] == Encode(fs[1..]);
      assert Encode(gs)[|Encoded(gs[0])|..] == Encode(gs[1..]);
      EncodeInjective(fs[1..], gs[1..]);
      assert fs == [fs[0]] + fs[1..] && gs == [gs[0]] + gs[1..];
    }
  }
}
