/** The base64 converter of src/Base64.cc (section 4 of RFC 4648): an encoder, and a decoder that keeps its place
    between calls. */
module Base64 {
  import opened Basics

  const PAD: Byte := 61

  /** 64 different ASCII characters, none of them the padding character. */
  ghost predicate GoodAlphabet(a: seq<Byte>) {
    && |a| == 64 && (forall i :: 0 <= i < 64 ==> a[i] < 128 && a[i] != PAD)
    && forall i, j :: 0 <= i < j < 64 ==> a[i] != a[j]
  }

  /** The table gives the position of each character of the alphabet, 0 for padding, and -1 for all others. */
  ghost predicate TableOk(a: seq<Byte>, table: seq<int>) {
    && |a| == 64 && |table| == 256 && (forall i :: 0 <= i < 64 ==> table[a[i]] == i) && table[PAD] == 0
    && (forall c: Byte :: c !in a && c != PAD ==> table[c] == -1)
    && (forall c :: 0 <= c < 256 ==> -1 <= table[c] < 64)
  }

  // ----- decoding -----

  function Prepended(b: seq<Byte>, r: (State, seq<Byte>)): (State, seq<Byte>) {
    (r.0, b + r.1)
  }

  /** Where the decoder is: the group so far, the padding seen in it, and whether a padded group has been read. */
  datatype State = State(group: seq<nat>, padding: nat, after: bool)

  const START := State([], 0, false)

  ghost predicate Fine(st: State) {
    |st.group| <= 4 && forall i :: 0 <= i < |st.group| ==> st.group[i] < 64
  }

  function Bits(group: seq<nat>): nat
    requires |group| == 4
  {
    ((group[0] * 64 + group[1]) * 64 + group[2]) * 64 + group[3]
  }

  /** The bytes of a full group, less one for each padding character. */
  function Octets(group: seq<nat>, padding: nat): (o: seq<Byte>)
    requires |group| == 4
    ensures |o| == if padding < 3 then 3 - padding else 0
  {
    var b := Bits(group);
    [b / 0x1_0000 % 0x100, b / 0x100 % 0x100, b % 0x100][..if padding < 3 then 3 - padding else 0]
  }

  /** What becomes of a full group. */
  function Flush(st: State): (State, seq<Byte>)
    requires |st.group| == 4
  {
    if st.after then (st.(group := []), []) else (State([], 0, st.padding > 0), Octets(st.group, st.padding))
  }

  function Settle(st: State): (r: (State, seq<Byte>))
    ensures |st.group| <= 4 ==> |r.0.group| < 4
  {
    if |st.group| == 4 then Flush(st) else (st, [])
  }

  /** One character: characters outside the alphabet are passed over. */
  function Take(st: State, c: Byte, table: seq<int>): State
    requires |table| == 256
  {
    var padding := if c == PAD then st.padding + 1 else st.padding;
    if table[c] >= 0 then State(st.group + [table[c]], padding, st.after) else st.(padding := padding)
  }

  /** A decoder with all the room it needs: the state it ends in, and the bytes it gives. */
  function Run(st: State, data: seq<Byte>, table: seq<int>): (r: (State, seq<Byte>))
    requires |table| == 256
    decreases |data|
  {
    var s := Settle(st);
    if data == [] then s
    else
      var r := Run(Take(s.0, data[0], table), data[1..], table);
      (r.0, s.1 + r.1)
  }

  lemma RunSettled(st: State, data: seq<Byte>, table: seq<int>)
    requires |table| == 256 && |st.group| <= 4
    ensures Run(st, data, table) == (Run(Settle(st).0, data, table).0, Settle(st).1 + Run(Settle(st).0, data, table).1)
  {
    var s := Settle(st);
    assert Settle(s.0) == (s.0, []);
    if data != [] {
      var r := Run(Take(s.0, data[0], table), data[1..], table);
      assert [] + r.1 == r.1;
    } else {
      assert s.1 + [] == s.1;
    }
  }

  lemma TakeFine(st: State, c: Byte, a: seq<Byte>, table: seq<int>)
    requires TableOk(a, table) && Fine(st) && |st.group| < 4
    ensures Fine(Take(st, c, table))
  {
  }

  lemma SettleFine(st: State)
    requires Fine(st)
    ensures Fine(Settle(st).0) && |Settle(st).0.group| < 4
  {
  }

  /** Splitting the input over two calls makes no difference. */
  lemma {:induction false} RunSplit(st: State, d: seq<Byte>, e: seq<Byte>, a: seq<Byte>, table: seq<int>)
    requires TableOk(a, table) && Fine(st)
    ensures var first := Run(st, d, table);
            var second := Run(first.0, e, table);
            Run(st, d + e, table) == (second.0, first.1 + second.1)
    decreases |d|
  {
    hide Take, Flush;
    SettleFine(st);
    var s := Settle(st);
    if d == [] {
      assert d + e == e;
      RunSettled(st, e, table);
    } else {
      assert (d + e)[1..] == d[1..] + e;
      TakeFine(s.0, d[0], a, table);
      RunSplit(Take(s.0, d[0], table), d[1..], e, a, table);
      var first := Run(Take(s.0, d[0], table), d[1..], table);
      var second := Run(first.0, e, table);
      assert s.1 + (first.1 + second.1) == s.1 + first.1 + second.1;
    }
  }

  /** The characters of the alphabet, and the padding. */
  ghost function Kept(a: seq<Byte>, data: seq<Byte>): seq<Byte> {
    if data == [] then []
    else (if data[0] in a || data[0] == PAD then [data[0]] else []) + Kept(a, data[1..])
  }

  lemma TakeOther(st: State, c: Byte, a: seq<Byte>, table: seq<int>)
    requires TableOk(a, table) && c !in a && c != PAD
    ensures Take(st, c, table) == st
  {
  }

  /** All other characters make no difference, wherever they are. */
  lemma {:induction false} RunKept(st: State, data: seq<Byte>, a: seq<Byte>, table: seq<int>)
    requires TableOk(a, table) && Fine(st)
    ensures Run(st, data, table) == Run(st, Kept(a, data), table)
    decreases |data|
  {
    hide Take, Flush, TableOk;
    TableSize(a, table);
    if data == [] {
    } else {
      var s, c, rest := Settle(st), data[0], data[1..];
      SettleFine(st);
      if c in a || c == PAD {
        TakeFine(s.0, c, a, table);
        RunKept(Take(s.0, c, table), rest, a, table);
        assert Kept(a, data)[0] == c && Kept(a, data)[1..] == Kept(a, rest);
      } else {
        TakeOther(s.0, c, a, table);
        RunKept(s.0, rest, a, table);
        RunSettled(st, Kept(a, rest), table);
        assert Kept(a, data) == Kept(a, rest);
      }
    }
  }

  lemma TableSize(a: seq<Byte>, table: seq<int>)
    requires TableOk(a, table)
    ensures |table| == 256 && |a| == 64
  {
  }

  /** Nothing that follows a padded group is decoded. */
  lemma {:induction false} RunAfter(st: State, data: seq<Byte>, a: seq<Byte>, table: seq<int>)
    requires TableOk(a, table) && Fine(st) && st.after
    ensures Run(st, data, table).1 == [] && Run(st, data, table).0.after
    decreases |data|
  {
    hide TableOk;
    TableSize(a, table);
    if data == [] {
    } else {
      var s := Settle(st);
      SettleFine(st);
      TakeFine(s.0, data[0], a, table);
      RunAfter(Take(s.0, data[0], table), data[1..], a, table);
    }
  }

  /** Every kept character goes to a group of four. */
  lemma {:induction false} GroupCount(st: State, data: seq<Byte>, a: seq<Byte>, table: seq<int>)
    requires TableOk(a, table) && Fine(st) && forall c :: c in data ==> c in a || c == PAD
    ensures |Run(st, data, table).0.group| == (|st.group| + |data|) % 4
    decreases |data|
  {
    if data == [] {
    } else {
      var s := Settle(st);
      SettleFine(st);
      TakeFine(s.0, data[0], a, table);
      TakeKept(s.0, data[0], a, table);
      hide Take, TableOk, Settle;
      GroupCount(Take(s.0, data[0], table), data[1..], a, table);
    }
  }

  lemma TakeKept(st: State, c: Byte, a: seq<Byte>, table: seq<int>)
    requires TableOk(a, table) && (c in a || c == PAD)
    ensures |Take(st, c, table).group| == |st.group| + 1
  {
    if c in a {
      var i :| 0 <= i < |a| && a[i] == c;
      assert table[a[i]] == i;
    }
  }

  /** The decoder gives at most three bytes for each of `k` whole groups, and keeps what is left of the input. */
  lemma {:induction false} RunGroups(st: State, d: seq<Byte>, a: seq<Byte>, table: seq<int>) returns (k: nat)
    requires TableOk(a, table) && Fine(st)
    ensures var r := Run(st, d, table);
            |r.1| <= 3 * k && 4 * k + |r.0.group| <= |st.group| + |d| && |r.0.group| < 4 && Fine(r.0)
    decreases |d|
  {
    var s := Settle(st);
    k := if |st.group| == 4 then 1 else 0;
    if d != [] {
      TakeFine(s.0, d[0], a, table);
      var k' := RunGroups(Take(s.0, d[0], table), d[1..], a, table);
      k := k + k';
    }
  }

  // ----- encoding -----

  /** Three bytes as four characters. */
  function Chars(a: seq<Byte>, d0: Byte, d1: Byte, d2: Byte): (c: seq<Byte>)
    requires |a| == 64
    ensures |c| == 4
  {
    var g := Group(Word(d0, d1, d2));
    [a[g[0]], a[g[1]], a[g[2]], a[g[3]]]
  }

  /** The encoding: whole groups of three bytes, then what is left, filled up with padding. */
  function Encoded(a: seq<Byte>, d: seq<Byte>): (c: seq<Byte>)
    requires |a| == 64
    decreases |d|
  {
    if d == [] then []
    else if |d| == 1 then Chars(a, d[0], 0, 0)[..2] + [PAD, PAD]
    else if |d| == 2 then Chars(a, d[0], d[1], 0)[..3] + [PAD]
    else Chars(a, d[0], d[1], d[2]) + Encoded(a, d[3..])
  }

  lemma {:induction false} EncodedLength(a: seq<Byte>, d: seq<Byte>)
    requires |a| == 64
    ensures |Encoded(a, d)| == (|d| + 2) / 3 * 4
    decreases |d|
  {
    hide Chars;
    if |d| >= 3 {
      EncodedLength(a, d[3..]);
      assert (|d| + 2) / 3 == (|d| - 1) / 3 + 1;
    }
  }

  function Word(d0: Byte, d1: Byte, d2: Byte): (b: nat)
    ensures b < 0x100_0000
  {
    (d0 as int * 0x100 + d1) * 0x100 + d2
  }

  function Group(b: nat): (g: seq<nat>)
    ensures |g| == 4 && forall i :: 0 <= i < 4 ==> g[i] < 64
  {
    [b / 0x4_0000 % 64, b / 0x1000 % 64, b / 0x40 % 64, b % 64]
  }

  /** The positions of the four characters, and what they stand for. */
  lemma GroupBack(d0: Byte, d1: Byte, d2: Byte)
    ensures var b := Word(d0, d1, d2);
            Bits(Group(b)) == b && b / 0x1_0000 % 0x100 == d0 && b / 0x100 % 0x100 == d1 && b % 0x100 == d2
  {
    hide Bits, Group;
    var q := d0 as int * 0x100 + d1;
    BitsGroup(Word(d0, d1, d2));
    Base256(q, d2);
    Base256(d0, d1);
    Shifts(Word(d0, d1, d2));
  }

  lemma BitsGroup(b: nat)
    requires b < 0x100_0000
    ensures Bits(Group(b)) == b
  {
    SixtyFours(b);
  }

  lemma Base256(q: nat, r: nat)
    requires r < 0x100
    ensures (q * 0x100 + r) / 0x100 == q && (q * 0x100 + r) % 0x100 == r
  {
  }

  lemma Shifts(b: nat)
    ensures b / 0x1_0000 == b / 0x100 / 0x100
  {
  }

  lemma Multiple(q: nat)
    ensures 64 * q % 64 == 0 && 64 * q / 64 == q
  {
  }

  lemma ShortGroup(d0: Byte, d1: Byte)
    ensures Group(Word(d0, d1, 0))[3] == 0 && Group(Word(d0, 0, 0))[2] == 0
  {
    Multiple(4 * (d0 as int * 0x100 + d1));
    Multiple(64 * (16 * d0 as int));
    Multiple(16 * d0 as int);
    assert Word(d0, d1, 0) == 64 * (4 * (d0 as int * 0x100 + d1));
    assert Word(d0, 0, 0) == 64 * (64 * (16 * d0 as int));
  }

  lemma SixtyFours(b: nat)
    requires b < 0x100_0000
    ensures ((b / 0x4_0000 % 64 * 64 + b / 0x1000 % 64) * 64 + b / 0x40 % 64) * 64 + b % 64 == b
  {
    assert b / 0x1000 == b / 0x40 / 0x40;
    assert b / 0x4_0000 == b / 0x1000 / 0x40;
  }

  lemma Step(st: State, data: seq<Byte>, table: seq<int>)
    requires |table| == 256 && |st.group| < 4 && data != []
    ensures Run(st, data, table) == Run(Take(st, data[0], table), data[1..], table)
  {
    hide Take, Flush;
    var r := Run(Take(st, data[0], table), data[1..], table);
    assert Settle(st) == (st, []);
    hide Settle;
    assert Run(st, data, table) == (r.0, [] + r.1);
    assert [] + r.1 == r.1;
  }

  /** A group of four characters is decoded as a whole. */
  lemma FourSteps(g: seq<nat>, padding: nat, c: seq<Byte>, rest: seq<Byte>, table: seq<int>)
    requires |table| == 256 && |c| == 4 && |g| == 4 && padding <= 2
    requires forall i :: 0 <= i < 4 ==> table[c[i]] == g[i] && (c[i] == PAD <==> i >= 4 - padding)
    ensures var s := State([], 0, padding > 0);
            Run(START, c + rest, table) == (Run(s, rest, table).0, Octets(g, padding) + Run(s, rest, table).1)
  {
    var st := START;
    var d := c + rest;
    Step(st, d, table);
    var st1 := Take(st, d[0], table);
    Step(st1, d[1..], table);
    var st2 := Take(st1, d[1], table);
    assert d[1..][1..] == d[2..] && d[1..][0] == d[1];
    Step(st2, d[2..], table);
    var st3 := Take(st2, d[2], table);
    assert d[2..][1..] == d[3..] && d[2..][0] == d[2];
    Step(st3, d[3..], table);
    var st4 := Take(st3, d[3], table);
    assert d[3..][1..] == rest && d[3..][0] == d[3];
    assert st4 == State(g, padding, false) by { assert [] + [g[0]] + [g[1]] + [g[2]] + [g[3]] == g; }
    RunSettled(st4, rest, table);
  }

  /** The first group of an encoding: the bytes it holds, and the characters it takes. */
  lemma FirstGroup(a: seq<Byte>, table: seq<int>, d0: Byte, d1: Byte, d2: Byte, padding: nat, rest: seq<Byte>)
    requires GoodAlphabet(a) && TableOk(a, table) && padding <= 2 && (padding >= 1 ==> d2 == 0)
             && (padding == 2 ==> d1 == 0)
    ensures var c := Chars(a, d0, d1, d2)[..4 - padding] + [PAD, PAD][..padding];
            var s := State([], 0, padding > 0);
            Run(START, c + rest, table) == (Run(s, rest, table).0, [d0, d1, d2][..3 - padding] + Run(s, rest, table).1)
  {
    hide Run, Group, Word;
    var g := Group(Word(d0, d1, d2));
    GroupBack(d0, d1, d2);
    ShortGroup(d0, d1);
    var c := Chars(a, d0, d1, d2)[..4 - padding] + [PAD, PAD][..padding];
    FourSteps(g, padding, c, rest, table);
  }

  /** Decoding what was encoded gives it back, for every alphabet. */
  lemma {:induction false} RoundTrip(a: seq<Byte>, table: seq<int>, d: seq<Byte>)
    requires GoodAlphabet(a) && TableOk(a, table)
    ensures Run(START, Encoded(a, d), table) == (State([], 0, |d| % 3 != 0), d)
    decreases |d|
  {
    hide Run, Chars;
    if d == [] {
      RunNothing(START, table);
    } else if |d| >= 3 {
      FirstGroup(a, table, d[0], d[1], d[2], 0, Encoded(a, d[3..]));
      RoundTrip(a, table, d[3..]);
      var c := Chars(a, d[0], d[1], d[2]);
      assert c[..4] + [PAD, PAD][..0] == c;
      assert d == [d[0], d[1], d[2]][..3] + d[3..];
    } else {
      var d1: Byte := if |d| > 1 then d[1] else 0;
      FirstGroup(a, table, d[0], d1, 0, 3 - |d|, []);
      RunNothing(State([], 0, true), table);
      assert Encoded(a, d) + [] == Encoded(a, d);
      assert [PAD, PAD][..3 - |d|] == if |d| == 1 then [PAD, PAD] else [PAD];
      assert [d[0], d1, 0][..|d|] + [] == d;
    }
  }

  lemma RunNothing(st: State, table: seq<int>)
    requires |table| == 256 && |st.group| < 4
    ensures Run(st, [], table) == (st, [])
  {
  }

  ghost function ByteAt(d: seq<Byte>, i: nat): int {
    if i < |d| then d[i] else 0
  }

  /** Four characters are the `i`-th group of an encoding: their positions in the alphabet, six bits each, are the bits
      of three bytes, the first ones the highest, with zeros for bytes missing at the end; and the padding character
      stands for the characters that would hold nothing else. */
  ghost predicate GroupHolds(table: seq<int>, c: seq<Byte>, d: seq<Byte>, i: nat)
    requires |table| == 256
  {
    && |c| == 4
    && 0x4_0000 * table[c[0]] + 0x1000 * table[c[1]] + 0x40 * table[c[2]] + table[c[3]]
       == 0x1_0000 * ByteAt(d, 3 * i) + 0x100 * ByteAt(d, 3 * i + 1) + ByteAt(d, 3 * i + 2)
    && forall j :: 0 <= j < 4 ==> (c[j] == PAD <==> 3 * i + j > |d|)
  }

  lemma FirstBits(a: seq<Byte>, table: seq<int>, d: seq<Byte>)
    requires GoodAlphabet(a) && TableOk(a, table) && d != []
    ensures GroupHolds(table, FirstChars(a, d), d, 0)
  {
    hide Group, Word, Bits;
    var d1: Byte, d2: Byte := ByteAt(d, 1), ByteAt(d, 2);
    var b := Word(d[0], d1, d2);
    BitsGroup(b);
    ShortGroup(d[0], d1);
    GroupSum(Group(b), d[0], d1, d2);
  }

  lemma GroupSum(g: seq<nat>, d0: Byte, d1: Byte, d2: Byte)
    requires |g| == 4 && Bits(g) == Word(d0, d1, d2)
    ensures 0x4_0000 * g[0] + 0x1000 * g[1] + 0x40 * g[2] + g[3] == 0x1_0000 * d0 as int + 0x100 * d1 as int + d2
  {
  }

  lemma Later(table: seq<int>, c: seq<Byte>, d: seq<Byte>, i: nat)
    requires |table| == 256 && |d| >= 3 && i > 0 && GroupHolds(table, c, d[3..], i - 1)
    ensures GroupHolds(table, c, d, i)
  {
    assert 3 * (i - 1) + 3 == 3 * i;
    assert ByteAt(d[3..], 3 * i - 3) == ByteAt(d, 3 * i);
    assert ByteAt(d[3..], 3 * i - 2) == ByteAt(d, 3 * i + 1);
    assert ByteAt(d[3..], 3 * i - 1) == ByteAt(d, 3 * i + 2);
  }

  /** Every group of an encoding holds its bytes. */
  lemma {:induction false} EncodedBits(a: seq<Byte>, table: seq<int>, d: seq<Byte>, i: nat)
    requires GoodAlphabet(a) && TableOk(a, table) && 3 * i < |d|
    ensures |table| == 256 && 4 * i + 4 <= |Encoded(a, d)|
    ensures GroupHolds(table, Encoded(a, d)[4 * i..4 * i + 4], d, i)
    decreases i
  {
    hide Encoded, FirstChars, TableOk, GoodAlphabet;
    TableSize(a, table);
    EncodedNext(a, d);
    var e := Encoded(a, d);
    if i == 0 {
      FirstBits(a, table, d);
      assert e[0..4] == FirstChars(a, d);
    } else {
      EncodedBits(a, table, d[3..], i - 1);
      assert e[4 * i..4 * i + 4] == Encoded(a, d[3..])[4 * i - 4..4 * i];
      Later(table, e[4 * i..4 * i + 4], d, i);
    }
  }

  /** And a group is decoded to the bytes that hold the same bits, the last ones left out for padding. */
  lemma OctetsBits(g: seq<nat>, padding: nat)
    requires |g| == 4 && forall i :: 0 <= i < 4 ==> g[i] < 64
    ensures var o := Octets(g, 0);
            && 0x1_0000 * o[0] as int + 0x100 * o[1] as int + o[2]
               == 0x4_0000 * g[0] + 0x1000 * g[1] + 0x40 * g[2] + g[3]
            && (padding <= 3 ==> Octets(g, padding) == o[..3 - padding])
  {
    var b := Bits(g);
    assert b == 0x4_0000 * g[0] + 0x1000 * g[1] + 0x40 * g[2] + g[3] < 0x100_0000;
    hide Bits;
    Bytes24(b);
  }

  lemma Bytes24(b: nat)
    requires b < 0x100_0000
    ensures 0x1_0000 * (b / 0x1_0000 % 0x100) + 0x100 * (b / 0x100 % 0x100) + b % 0x100 == b
  {
    assert b / 0x1_0000 == b / 0x100 / 0x100;
  }

  // ----- the converter -----

  /** The table when the characters at the positions `done` have been entered. */
  ghost predicate Entered(a: seq<Byte>, table: seq<int>, done: set<int>) {
    && |a| == 64 && |table| == 256 && (forall i :: i in done ==> 0 <= i < 64 && table[a[i]] == i)
    && forall c: Byte :: table[c] == -1 || (table[c] in done && 0 <= table[c] < 64 && a[table[c]] == c)
  }

  lemma EnterOne(a: seq<Byte>, table: seq<int>, done: set<int>, i: nat)
    requires GoodAlphabet(a) && Entered(a, table, done) && i < 64
    ensures Entered(a, table[a[i] := i], done + {i})
  {
  }

  lemma EnterPadding(a: seq<Byte>, table: seq<int>, done: set<int>)
    requires GoodAlphabet(a) && Entered(a, table, done) && forall i :: 0 <= i < 64 ==> i in done
    ensures TableOk(a, table[PAD := 0])
  {
    var t := table[PAD := 0];
    forall c: Byte | c !in a && c != PAD
      ensures t[c] == -1
    {
    }
    forall c | 0 <= c < 256
      ensures -1 <= t[c] < 64
    {
      var b: Byte := c;
      assert t[b] == -1 || 0 <= t[b] < 64;
    }
  }

  method Enter(a: seq<Byte>, table: array<int>, i: nat, ghost done: set<int>)
    requires GoodAlphabet(a) && Entered(a, table[..], done) && i < 64
    modifies table
    ensures Entered(a, table[..], done + {i})
  {
    hide Entered;
    EnteredSize(a, table[..], done);
    EnterOne(a, table[..], done, i);
    ghost var t := table[..];
    table[a[i]] := i;
    assert table[..] == t[a[i] := i];
  }

  lemma EnteredSize(a: seq<Byte>, table: seq<int>, done: set<int>)
    requires Entered(a, table, done)
    ensures |table| == 256
  {
  }

  /** `InitBase64Table`. */
  method InitBase64Table(a: seq<Byte>) returns (table: array<int>)
    requires GoodAlphabet(a)
    ensures fresh(table) && TableOk(a, table[..])
  {
    hide GoodAlphabet, TableOk;
    table := new int[256](_ => -1);
    ghost var done := {};
    NothingEntered(a, table[..]);
    for i := 0 to 26
      invariant Entered(a, table[..], done) && forall j :: 0 <= j < i || 26 <= j < 26 + i ==> j in done
    {
      Enter(a, table, 0 + i, done);
      done := done + {0 + i};
      Enter(a, table, 26 + i, done);
      done := done + {26 + i};
    }
    for i := 0 to 10
      invariant Entered(a, table[..], done) && forall j :: 0 <= j < 52 + i ==> j in done
    {
      Enter(a, table, 52 + i, done);
      done := done + {52 + i};
    }
    Enter(a, table, 62, done);
    Enter(a, table, 63, done + {62});
    EnterPadding(a, table[..], done + {62} + {63});
    ghost var t := table[..];
    table[PAD] := 0;
    assert table[..] == t[PAD := 0];
  }

  lemma NothingEntered(a: seq<Byte>, table: seq<int>)
    requires GoodAlphabet(a) && |table| == 256 && forall c :: 0 <= c < 256 ==> table[c] == -1
    ensures Entered(a, table, {})
  {
  }

  class Base64Converter {
    const alphabet: seq<Byte>
    var table: array?<int>
    var group: seq<nat>
    var padding: nat
    var afterPadding: bool

    ghost function Now(): State
      reads this
    {
      State(group, padding, afterPadding)
    }

    ghost predicate Valid()
      reads this, table
    {
      GoodAlphabet(alphabet) && Fine(Now()) && (table != null ==> TableOk(alphabet, table[..]))
    }

    constructor (a: seq<Byte>)
      requires GoodAlphabet(a)
      ensures Valid() && alphabet == a && Now() == START
    {
      alphabet, table := a, null;
      group, padding, afterPadding := [], 0, false;
    }

    /** Writes the bytes of the full group, if there is room for them. */
    method FlushGroup(buf: array<Byte>, n: nat) returns (ok: bool, n': nat)
      requires Fine(Now()) && |group| == 4 && !afterPadding && n <= buf.Length
      modifies `group, `padding, `afterPadding, buf
      ensures ok <==> n + |Octets(old(group), old(padding))| <= buf.Length
      ensures !ok ==> Now() == old(Now()) && n' == n && buf[..n] == old(buf[..n])
      ensures ok ==>
                Now() == Flush(old(Now())).0 && n' <= buf.Length && buf[..n'] == old(buf[..n]) + Flush(old(Now())).1
    {
      var numOctets := if padding < 3 then 3 - padding else 0;
      if n + numOctets > buf.Length {
        return false, n;
      }
      var octets := Octets(group, padding);
      forall i | 0 <= i < numOctets {
        buf[n + i] := octets[i];
      }
      n' := n + numOctets;
      group, padding, afterPadding := [], 0, padding > 0;
      ok := true;
    }

    method TakeChar(c: Byte)
      requires Valid() && table != null && |group| < 4
      modifies `group, `padding
      ensures Valid() && Now() == Take(old(Now()), c, table[..])
      ensures c !in alphabet && c != PAD ==> Now() == old(Now())
    {
      TakeFine(Now(), c, alphabet, table[..]);
      if c == PAD {
        padding := padding + 1;
      }
      var k := table[c];
      if k >= 0 {
        group := group + [k];
      }
    }

    /** `Decode` into a given buffer, from offset `from` on. Whatever the room, what is written and what a later
        call can still make of the rest are together what one call with enough room gives; and it does not stop
        early if there is room. */
    method DecodeInto(data: seq<Byte>, buf: array<Byte>, from: nat) returns (dlen: nat, n: nat)
      requires Valid() && table != null && from <= buf.Length
      modifies `group, `padding, `afterPadding, buf
      ensures Valid() && dlen <= |data| && from <= n <= buf.Length && buf[..from] == old(buf[..from])
      ensures Continues(Run(old(Now()), data, table[..]), buf[from..n], Run(Now(), data[dlen..], table[..]))
      ensures from + |Run(old(Now()), data, table[..]).1| <= buf.Length ==>
                dlen == |data| && |group| < 4 && buf[from..n] == Run(old(Now()), data, table[..]).1
    {
      hide Run, Take, Settle, Continues, GoodAlphabet;
      ghost var tb, goal := table[..], Run(Now(), data, table[..]);
      dlen, n := 0, from;
      assert data[0..] == data;
      ContinuesStart(goal, buf[from..n]);
      while true
        invariant Valid() && table == old(table) && table[..] == tb && dlen <= |data| && from <= n <= buf.Length
        invariant buf[..from] == old(buf[..from])
        invariant Continues(goal, buf[from..n], Run(Now(), data[dlen..], tb))
        decreases |data| - dlen
      {
        ContinuesSettled(goal, buf[from..n], Now(), data[dlen..], tb);
        var ok;
        ok, n := SettleGroup(buf, from, n);
        if !ok {
          break;
        }
        if dlen >= |data| {
          assert data[dlen..] == [];
          RunNothing(Now(), tb);
          ContinuesEnd(goal, buf[from..n], Now());
          break;
        }
        Step(Now(), data[dlen..], tb);
        assert data[dlen..][1..] == data[dlen + 1..];
        TakeChar(data[dlen]);
        dlen := dlen + 1;
      }
    }

    /** Decodes all of `data` into a buffer with room for it. */
    method DecodeWhole(data: seq<Byte>, buf: array<Byte>, from: nat) returns (n: nat)
      requires Valid() && table != null && from + |Run(Now(), data, table[..]).1| <= buf.Length
      modifies `group, `padding, `afterPadding, buf
      ensures Valid() && n <= buf.Length
              && (Now(), buf[..n]) == Prepended(old(buf[..from]), Run(old(Now()), data, table[..]))
      ensures |group| < 4
    {
      hide Run, Fine, GoodAlphabet;
      ghost var tb, goal := table[..], Run(Now(), data, table[..]);
      var dlen;
      dlen, n := DecodeInto(data, buf, from);
      assert data[dlen..] == [];
      RunNothing(Now(), tb);
      ContinuesEnd(goal, buf[from..n], Now());
      assert buf[..n] == buf[..from] + buf[from..n];
    }

    method NeedTable()
      requires Valid()
      modifies `table
      ensures Valid() && table != null && (old(table) != null ==> table == old(table))
              && (table == old(table) || fresh(table))
    {
      if table == null {
        table := InitBase64Table(alphabet);
      }
    }

    /** `Decode` into a buffer of its own choosing, which is never too small. */
    method Decode(data: seq<Byte>) returns (out: seq<Byte>)
      requires Valid()
      modifies this
      ensures Valid() && table != null && Run(old(Now()), data, table[..]) == (Now(), out) && |group| < 4
      ensures Run(old(Now()), Kept(alphabet, data), table[..]) == (Now(), out)
    {
      hide Run, GoodAlphabet;
      NeedTable();
      var k := RunGroups(Now(), data, alphabet, table[..]);
      var blen := (|data| + |group| + 3) / 4 * 3 + 1;
      var buf := new Byte[blen];
      var dlen, n := DecodeInto(data, buf, 0);
      out := buf[..n];
      assert buf[0..n] == out && data[dlen..] == [];
      RunNothing(Now(), table[..]);
      ContinuesEnd(Run(old(Now()), data, table[..]), out, Now());
      RunKept(old(Now()), data, alphabet, table[..]);
    }

    /** `Done`: fills up an incomplete group with padding, and deals with a full one. */
    method Done() returns (status: int, out: seq<Byte>)
      requires Valid()
      modifies this
      ensures Valid() && group == [] && (status == 0 <==> old(group) == [])
      ensures if old(group) == [] then out == [] && Now() == old(Now())
              else table != null && Run(old(Now()), Padding(4 - |old(group)|), table[..]) == (Now(), out)
    {
      if group == [] {
        return 0, [];
      }
      out := Decode(Padding(4 - |group|));
      PaddingFills(old(Now()), alphabet, table[..]);
      status := -1;
    }

    /** Deals with a full group; `ok` if there was none, or room for it. */
    method SettleGroup(buf: array<Byte>, from: nat, n: nat) returns (ok: bool, n': nat)
      requires Valid() && table != null && from <= n <= buf.Length
      modifies `group, `padding, `afterPadding, buf
      ensures Valid() && from <= n' <= buf.Length && buf[..from] == old(buf[..from]) && table[..] == old(table[..])
      ensures ok ==> |group| < 4 && Now() == Settle(old(Now())).0
      ensures ok ==> buf[from..n'] == old(buf[from..n]) + Settle(old(Now())).1
      ensures !ok ==> Now() == old(Now()) && n' == n && buf[from..n] == old(buf[from..n])
      ensures !ok ==> n + |Settle(old(Now())).1| > buf.Length
    {
      ok, n' := true, n;
      ghost var before := buf[..n];
      if |group| == 4 {
        if afterPadding {
          group := [];
        } else {
          ok, n' := FlushGroup(buf, n);
          assert before[..from] == buf[..n'][..from] && before[from..] == buf[..n'][from..][..n - from];
          assert buf[from..n'] == buf[..n'][from..];
        }
      }
    }
  }

  function Padding(n: nat): (p: seq<Byte>)
    ensures |p| == n && forall i :: 0 <= i < n ==> p[i] == PAD
  {
    seq(n, _ => PAD)
  }

  /** Padding completes a group. */
  lemma PaddingFills(st: State, a: seq<Byte>, table: seq<int>)
    requires TableOk(a, table) && Fine(st) && 0 < |st.group| <= 4
    ensures Run(st, Padding(4 - |st.group|), table).0.group == []
  {
    PaddingSteps(st, table, 4 - |st.group|);
  }

  lemma {:induction false} PaddingSteps(st: State, table: seq<int>, n: nat)
    requires |table| == 256 && table[PAD] == 0 && |st.group| + n == 4
    ensures Run(st, Padding(n), table).0.group == []
    decreases n
  {
    if n > 0 {
      Step(st, Padding(n), table);
      assert Padding(n)[1..] == Padding(n - 1);
      PaddingSteps(Take(st, PAD, table), table, n - 1);
    }
  }

  lemma ContinuesStart(goal: (State, seq<Byte>), nothing: seq<Byte>)
    requires nothing == []
    ensures Continues(goal, nothing, goal)
  {
    assert nothing + goal.1 == goal.1;
  }

  lemma ContinuesSettled(goal: (State, seq<Byte>), written: seq<Byte>, st: State, rest: seq<Byte>, table: seq<int>)
    requires |table| == 256 && |st.group| <= 4 && Continues(goal, written, Run(st, rest, table))
    ensures Continues(goal, written + Settle(st).1, Run(Settle(st).0, rest, table))
    ensures |written| + |Settle(st).1| <= |goal.1|
  {
    RunSettled(st, rest, table);
    var s := Settle(st);
    assert written + (s.1 + Run(s.0, rest, table).1) == written + s.1 + Run(s.0, rest, table).1;
  }

  lemma ContinuesEnd(goal: (State, seq<Byte>), written: seq<Byte>, st: State)
    requires Continues(goal, written, (st, []))
    ensures goal == (st, written)
  {
    assert written + [] == written;
  }

  ghost predicate Continues(goal: (State, seq<Byte>), written: seq<Byte>, r: (State, seq<Byte>)) {
    goal.0 == r.0 && goal.1 == written + r.1
  }

  /** What is left of some bytes from the `i`-th on. */
  function From(d: seq<Byte>, i: nat): seq<Byte> {
    if i <= |d| then d[i..] else []
  }

  /** `Encode` into a buffer of its own choosing. */
  method Encode(a: seq<Byte>, data: seq<Byte>) returns (buf: array<Byte>)
    requires |a| == 64
    ensures fresh(buf) && buf[..] == Encoded(a, data)
  {
    hide Encoded, Chars;
    EncodedLength(a, data);
    var blen := (|data| + 2) / 3 * 4;
    buf := new Byte[blen];
    var i, j := 0, 0;
    assert From(data, 0) == data && buf[..0] == [];
    while i < |data| && j < blen
      invariant j <= blen && buf[..j] + Encoded(a, From(data, i)) == Encoded(a, data)
      decreases |data| - i
    {
      EncodedNext(a, From(data, i));
      var d0: Byte := data[i];
      var d1: Byte := if i + 1 < |data| then data[i + 1] else 0;
      var d2: Byte := if i + 2 < |data| then data[i + 2] else 0;
      ghost var left := From(data, i);
      assert left[0] == d0 && (|left| > 1 ==> left[1] == d1) && (|left| > 2 ==> left[2] == d2);
      var c := FourChars(a, d0, d1, d2);
      i := i + 3;
      assert From(left, 3) == From(data, i);
      ghost var before := buf[..j];
      PutFour(buf, j, c[0], c[1], if i == |data| + 2 then PAD else c[2], if i >= |data| + 1 then PAD else c[3]);
      j := j + 4;
      assert buf[..j] == before + FirstChars(a, left);
    }
    EncodedEnd(a);
    assert buf[..j] + [] == buf[..j];
    assert buf[..] == buf[..j];
  }

  method FourChars(a: seq<Byte>, d0: Byte, d1: Byte, d2: Byte) returns (c: seq<Byte>)
    requires |a| == 64
    ensures c == Chars(a, d0, d1, d2)
  {
    var bit32: nat := d0 as int * 0x1_0000;
    bit32 := bit32 + d1 as int * 0x100;
    bit32 := bit32 + d2;
    c := [a[bit32 / 0x4_0000 % 64], a[bit32 / 0x1000 % 64], a[bit32 / 0x40 % 64], a[bit32 % 64]];
  }

  method PutFour(buf: array<Byte>, j: nat, c0: Byte, c1: Byte, c2: Byte, c3: Byte)
    requires j + 4 <= buf.Length
    modifies buf
    ensures buf[..j + 4] == old(buf[..j]) + [c0, c1, c2, c3]
  {
    buf[j], buf[j + 1], buf[j + 2], buf[j + 3] := c0, c1, c2, c3;
  }

  /** The four characters that the first bytes of `d` become. */
  ghost function FirstChars(a: seq<Byte>, d: seq<Byte>): (c: seq<Byte>)
    requires |a| == 64 && d != []
    ensures |c| == 4
  {
    var c := Chars(a, d[0], if |d| > 1 then d[1] else 0, if |d| > 2 then d[2] else 0);
    [c[0], c[1], if |d| == 1 then PAD else c[2], if |d| <= 2 then PAD else c[3]]
  }

  lemma EncodedNext(a: seq<Byte>, d: seq<Byte>)
    requires |a| == 64 && d != []
    ensures Encoded(a, d) == FirstChars(a, d) + Encoded(a, From(d, 3))
  {
    hide Chars;
  }

  lemma EncodedEnd(a: seq<Byte>)
    requires |a| == 64
    ensures Encoded(a, []) == []
  {
  }

  /** The decoding table of an alphabet is fixed by it. */
  lemma TableUnique(a: seq<Byte>, table: seq<int>, table': seq<int>)
    requires TableOk(a, table) && TableOk(a, table')
    ensures table == table'
  {
    forall c | 0 <= c < 256
      ensures table[c] == table'[c]
    {
      var b: Byte := c;
      if b in a {
        var i :| 0 <= i < |a| && a[i] == b;
        assert table[a[i]] == i && table'[a[i]] == i;
      }
    }
  }

  /** `s` with the padding its last group lacks. */
  ghost function Filled(s: seq<Byte>, table: seq<int>): seq<Byte>
    requires |table| == 256
  {
    var g := Run(START, s, table).0.group;
    if 0 < |g| < 4 then s + Padding(4 - |g|) else s
  }

  /** The bytes of the filled text, found in two calls, leave room for the NUL. */
  lemma FilledFits(a: seq<Byte>, s: seq<Byte>, table: seq<int>)
    requires TableOk(a, table)
    ensures |table| == 256 && |Run(START, s, table).0.group| < 4
    ensures var first := Run(START, s, table);
            var second := Run(first.0, Padding(4 - |first.0.group|), table);
            Run(START, Filled(s, table), table).1 == first.1 + (if first.0.group == [] then [] else second.1)
    ensures |Run(START, s, table).1| <= (|s| + 3) / 4 * 3
    ensures |Run(START, Filled(s, table), table).1| <= (|s| + 3) / 4 * 3
  {
    hide Run;
    var k := RunGroups(START, s, a, table);
    var first := Run(START, s, table);
    if first.0.group != [] {
      var pad := Padding(4 - |first.0.group|);
      var k' := RunGroups(first.0, pad, a, table);
      RunSplit(START, s, pad, a, table);
    }
  }

  lemma {:induction false} KeptCat(a: seq<Byte>, x: seq<Byte>, y: seq<Byte>)
    ensures Kept(a, x + y) == Kept(a, x) + Kept(a, y)
    decreases |x|
  {
    if x == [] {
      assert x + y == y;
    } else {
      var first := if x[0] in a || x[0] == PAD then [x[0]] else [];
      KeptCat(a, x[1..], y);
      assert (x + y)[1..] == x[1..] + y && (x + y)[0] == x[0];
      assert Kept(a, x) == first + Kept(a, x[1..]) && Kept(a, x + y) == first + Kept(a, x[1..] + y);
      hide Kept;
      assert first + (Kept(a, x[1..]) + Kept(a, y)) == first + Kept(a, x[1..]) + Kept(a, y);
    }
  }

  lemma {:induction false} KeptAll(a: seq<Byte>, x: seq<Byte>)
    ensures (forall c :: c in x ==> c in a || c == PAD) ==> Kept(a, x) == x
    ensures forall c :: c in Kept(a, x) ==> c in a || c == PAD
    decreases |x|
  {
    if x == [] {
    } else {
      KeptAll(a, x[1..]);
      assert x == [x[0]] + x[1..];
    }
  }

  /** A text with the padding that makes its length a multiple of four. */
  ghost function Completed(k: seq<Byte>): seq<Byte> {
    k + Padding((4 - |k| % 4) % 4)
  }

  /** The filled text is decoded as what is kept of the text, completed. */
  lemma FilledKept(a: seq<Byte>, s: seq<Byte>, table: seq<int>)
    requires TableOk(a, table)
    ensures |table| == 256
    ensures Run(START, Filled(s, table), table) == Run(START, Completed(Kept(a, s)), table)
  {
    hide Run, TableOk, Kept;
    TableSize(a, table);
    var k := Kept(a, s);
    RunKept(START, s, a, table);
    KeptAll(a, s);
    GroupCount(START, k, a, table);
    var n := (4 - |k| % 4) % 4;
    RunKept(START, Filled(s, table), a, table);
    KeptCat(a, s, Padding(n));
    KeptAll(a, Padding(n));
    if n == 0 {
      assert s == s + Padding(0) && k == k + Padding(0);
    }
  }

  /** The text of an encoding may have other characters anywhere in it. */
  lemma DecodedText(a: seq<Byte>, table: seq<int>, k: seq<Byte>, d: seq<Byte>)
    requires GoodAlphabet(a) && TableOk(a, table) && k == Encoded(a, d)
    ensures |table| == 256 && Run(START, Completed(k), table).1 == d
  {
    hide Run, Encoded, GoodAlphabet, TableOk;
    TableSize(a, table);
    EncodedLength(a, d);
    RoundTrip(a, table, d);
    assert k + Padding(0) == k;
  }

  /** Its padding may be missing. */
  lemma DecodedShort(a: seq<Byte>, table: seq<int>, k: seq<Byte>, n: nat, d: seq<Byte>)
    requires GoodAlphabet(a) && TableOk(a, table) && n <= 3 && k + Padding(n) == Encoded(a, d)
    ensures |table| == 256 && Run(START, Completed(k), table).1 == d
  {
    hide Run, Encoded, GoodAlphabet, TableOk;
    TableSize(a, table);
    EncodedLength(a, d);
    RoundTrip(a, table, d);
    assert |k| + n == (|d| + 2) / 3 * 4;
  }

  /** And anything may follow its padding. */
  lemma DecodedLong(a: seq<Byte>, table: seq<int>, k: seq<Byte>, x: seq<Byte>, d: seq<Byte>)
    requires GoodAlphabet(a) && TableOk(a, table) && |d| % 3 != 0 && k == Encoded(a, d) + x
    ensures |table| == 256 && Run(START, Completed(k), table).1 == d
  {
    hide Run, Encoded, GoodAlphabet, TableOk;
    TableSize(a, table);
    RoundTrip(a, table, d);
    var rest := x + Padding((4 - |k| % 4) % 4);
    assert Completed(k) == Encoded(a, d) + rest;
    RunSplit(START, Encoded(a, d), rest, a, table);
    RunAfter(State([], 0, true), rest, a, table);
    assert d + [] == d;
  }

  lemma DecodedWhole(a: seq<Byte>, s: seq<Byte>, table: seq<int>, r: seq<Byte>)
    requires GoodAlphabet(a) && TableOk(a, table) && r == Run(START, Filled(s, table), table).1
    ensures forall table' :: TableOk(a, table') ==> r == Run(START, Filled(s, table'), table').1
    ensures forall d :: Kept(a, s) == Encoded(a, d) ==> r == d
    ensures forall d, n: nat :: n <= 3 && Kept(a, s) + Padding(n) == Encoded(a, d) ==> r == d
    ensures forall d, x :: |d| % 3 != 0 && Kept(a, s) == Encoded(a, d) + x ==> r == d
  {
    hide Run, Encoded, GoodAlphabet, TableOk, Kept, Filled, Completed;
    TableSize(a, table);
    FilledKept(a, s, table);
    var k := Kept(a, s);
    forall table' | TableOk(a, table')
      ensures table' == table
    {
      TableUnique(a, table', table);
    }
    forall d | k == Encoded(a, d)
      ensures r == d
    {
      DecodedText(a, table, k, d);
    }
    forall d, n: nat | n <= 3 && k + Padding(n) == Encoded(a, d)
      ensures r == d
    {
      DecodedShort(a, table, k, n, d);
    }
    forall d, x | |d| % 3 != 0 && k == Encoded(a, d) + x
      ensures r == d
    {
      DecodedLong(a, table, k, x, d);
    }
  }

  /** `decode_base64`: its buffer has room for all the bytes, those of a group completed at the end, and the NUL
      after them. The result is the decoding of the text with any missing padding filled in. Decoding an encoded byte
      string gives it back, with other characters anywhere in it, without its padding, or with more text behind it. */
  method DecodeBase64(a: seq<Byte>, s: seq<Byte>) returns (r: seq<Byte>)
    requires GoodAlphabet(a)
    ensures forall table :: TableOk(a, table) ==> r == Run(START, Filled(s, table), table).1
    ensures forall d :: Kept(a, s) == Encoded(a, d) ==> r == d
    ensures forall d, n: nat :: n <= 3 && Kept(a, s) + Padding(n) == Encoded(a, d) ==> r == d
    ensures forall d, x :: |d| % 3 != 0 && Kept(a, s) == Encoded(a, d) + x ==> r == d
  {
    hide Run, Encoded, TableOk, GoodAlphabet, Filled, Kept;
    var bufLen := (|s| + 3) / 4 * 3 + 1;
    var dec := new Base64Converter(a);
    dec.NeedTable();
    ghost var tb := dec.table[..];
    FilledFits(a, s, tb);
    var rbuf := new Byte[bufLen];
    var rlen := dec.DecodeWhole(s, rbuf, 0);
    assert rbuf[..rlen] == Run(START, s, tb).1;
    if dec.group != [] {
      rlen := dec.DecodeWhole(Padding(4 - |dec.group|), rbuf, rlen);
    }
    assert rbuf[..rlen] == Run(START, Filled(s, tb), tb).1;
    rbuf[rlen] := 0;
    r := rbuf[..rlen];
    DecodedWhole(a, s, tb, r);
  }
}
