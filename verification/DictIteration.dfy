/** What an iteration over the dictionary of src/Dict.cc has returned and is still to return, while the dictionary
    changes. */
module DictIteration {
  import opened DictTables

  /** How far an iteration has come: its table and position there, the entries it still has to return because
      they went into buckets behind it, those it has returned, all it was ever to return, and those removed
      unseen. */
  datatype Progress = Progress(second: bool, bucket: int, offset: int, inserted: Chain, visited: Chain,
                               all: set<DictEntry>, lost: set<DictEntry>)

  function Table(t: Tables, second: bool): seq<Chain> {
    if second then t.tbl2 else t.tbl
  }

  ghost predicate Located(t: Tables, p: Progress) {
    |t.tbl| > 0 && 0 <= p.bucket < |Table(t, p.second)| && 0 <= p.offset
  }

  // ----- what NextEntry is going to return -----

  /** What a chain holds from an offset on: nothing, beyond its end. */
  function Tail(c: Chain, o: nat): Chain {
    if o <= |c| then c[o..] else []
  }

  function Flat(cs: seq<Chain>): Chain {
    if cs == [] then [] else cs[0] + Flat(cs[1..])
  }

  function Backward(c: Chain): Chain {
    if c == [] then [] else [c[|c| - 1]] + Backward(c[..|c| - 1])
  }

  /** What is left in the tables from the position on. */
  ghost function Ahead(t: Tables, p: Progress): Chain
    requires Located(t, p)
  {
    Tail(Table(t, p.second)[p.bucket], p.offset) + Flat(Table(t, p.second)[p.bucket + 1..])
    + if p.second then [] else Flat(t.tbl2)
  }

  /** The entries an iteration returns, in this order, if nothing changes any more: the insertions noted for it, the
      last one first, and then what is ahead of it. */
  ghost function Coming(t: Tables, p: Progress): Chain
    requires Located(t, p)
  {
    Backward(p.inserted) + Ahead(t, p)
  }

  /** If nothing changes any more, the iteration as a whole returns no entry twice, no removed entry, and every entry
      that is there. */
  ghost predicate Exact(t: Tables, m: map<HashKey, DictEntry>, p: Progress)
    requires Located(t, p)
  {
    && NoRepeats(p.visited + Coming(t, p))
    && (forall e :: e in Coming(t, p) ==> Live(m, e))
    && forall k :: k in m ==> m[k] in p.visited + Coming(t, p)
  }

  /** What has been returned and lost, of all there ever was. */
  ghost predicate Ledger(m: map<HashKey, DictEntry>, p: Progress) {
    && (forall e :: e in p.visited ==> e in p.all && e !in p.lost)
    && (forall e :: e in p.all ==> e in p.visited || Live(m, e) || e in p.lost)
    && (forall e :: e in p.lost ==> e in p.all && !Live(m, e))
    && forall k :: k in m ==> m[k] in p.all
  }

  /** While there is one table, an iteration is never beyond the end of its chain, and the insertions noted for it went
      to buckets behind it. */
  ghost predicate Settled(t: Tables, p: Progress)
    requires Located(t, p)
  {
    t.tbl2 == [] ==>
      p.offset <= |Table(t, p.second)[p.bucket]| && forall e :: e in p.inserted ==> Bucket(t, e.key) < p.bucket
  }

  ghost predicate OnTrack(t: Tables, m: map<HashKey, DictEntry>, p: Progress) {
    Located(t, p) && Exact(t, m, p) && Ledger(m, p) && Settled(t, p)
  }

  // ----- counting entries -----

  type Bag = multiset<DictEntry>

  ghost predicate Once(s: Bag) {
    forall x :: x in s ==> s[x] == 1
  }

  lemma {:induction false} OnceIff(s: Chain)
    ensures NoRepeats(s) <==> Once(multiset(s))
  {
    if s != [] {
      var n := |s| - 1;
      var x := s[n];
      OnceIff(s[..n]);
      assert s == s[..n] + [x];
      assert multiset(s) == multiset(s[..n]) + multiset{x};
      if x in s[..n] {
        assert multiset(s)[x] == multiset(s[..n])[x] + 1;
      }
      if Once(multiset(s)) {
        forall y | y in multiset(s[..n])
          ensures multiset(s[..n])[y] == 1
        {
          assert y in multiset(s);
        }
      }
    }
  }

  /** The three parts of what is ahead, counted. */
  ghost function HereBag(t: Tables, p: Progress): Bag
    requires Located(t, p)
  {
    multiset(Tail(Table(t, p.second)[p.bucket], p.offset))
  }

  ghost function LaterBag(t: Tables, p: Progress): Bag
    requires Located(t, p)
  {
    multiset(Flat(Table(t, p.second)[p.bucket + 1..]))
  }

  ghost function SecondBag(t: Tables, p: Progress): Bag {
    if p.second then multiset{} else multiset(Flat(t.tbl2))
  }

  ghost function AheadBag(t: Tables, p: Progress): Bag
    requires Located(t, p)
  {
    HereBag(t, p) + LaterBag(t, p) + SecondBag(t, p)
  }

  lemma AheadCounted(t: Tables, p: Progress)
    requires Located(t, p)
    ensures multiset(Ahead(t, p)) == AheadBag(t, p)
    ensures forall x :: x in AheadBag(t, p) ==> x in Ahead(t, p)
    ensures forall x :: x in Ahead(t, p) ==> x in AheadBag(t, p)
  {
    hide Tail, Flat;
    assert multiset(Ahead(t, p)) == AheadBag(t, p);
    forall x | x in AheadBag(t, p)
      ensures x in Ahead(t, p)
    {
      assert x in multiset(Ahead(t, p));
    }
    forall x | x in Ahead(t, p)
      ensures x in AheadBag(t, p)
    {
      assert x in multiset(Ahead(t, p));
    }
  }

  /** The entries returned and to be returned, counted. */
  ghost function Returns(t: Tables, p: Progress): Bag
    requires Located(t, p)
  {
    multiset(p.visited) + multiset(p.inserted) + AheadBag(t, p)
  }

  lemma {:induction false} BackwardSame(c: Chain)
    ensures multiset(Backward(c)) == multiset(c)
  {
    if c != [] {
      BackwardSame(c[..|c| - 1]);
      assert c == c[..|c| - 1] + [c[|c| - 1]];
    }
  }

  /** `Exact`, in terms of counts. */
  ghost predicate Tallied(t: Tables, m: map<HashKey, DictEntry>, p: Progress)
    requires Located(t, p)
  {
    && Once(Returns(t, p))
    && (forall e :: e in p.inserted ==> Live(m, e)) && (forall e :: e in AheadBag(t, p) ==> Live(m, e))
    && forall k :: k in m ==> m[k] in Returns(t, p)
  }

  lemma ExactIff(t: Tables, m: map<HashKey, DictEntry>, p: Progress)
    requires Located(t, p)
    ensures Exact(t, m, p) <==> Tallied(t, m, p)
  {
    hide Ahead, AheadBag, Backward, Once;
    BackwardSame(p.inserted);
    AheadCounted(t, p);
    var back, all := Backward(p.inserted), p.visited + Coming(t, p);
    OnceIff(all);
    assert multiset(all) == Returns(t, p);
    SameMembers(back, p.inserted);
    assert Coming(t, p) == back + Ahead(t, p);
    forall k | k in m
      ensures m[k] in all <==> m[k] in Returns(t, p)
    {
      assert m[k] in all <==> m[k] in multiset(all);
    }
    if Exact(t, m, p) {
      forall e | e in p.inserted
        ensures Live(m, e)
      {
        assert e in back && e in Coming(t, p);
      }
      forall e | e in AheadBag(t, p)
        ensures Live(m, e)
      {
        assert e in Coming(t, p);
      }
    }
    if Tallied(t, m, p) {
      forall e | e in Coming(t, p)
        ensures Live(m, e)
      {
        assert e in back || e in Ahead(t, p);
      }
    }
  }

  lemma SameMembers(a: Chain, b: Chain)
    requires multiset(a) == multiset(b)
    ensures (forall x :: x in a ==> x in b) && forall x :: x in b ==> x in a
  {
    forall x | x in a
      ensures x in b
    {
      assert x in multiset(a);
    }
    forall x | x in b
      ensures x in a
    {
      assert x in multiset(b);
    }
  }

  lemma {:induction false} FlatUpdate(cs: seq<Chain>, b: nat, c: Chain)
    requires b < |cs|
    ensures multiset(Flat(cs[b := c])) + multiset(cs[b]) == multiset(Flat(cs)) + multiset(c)
  {
    if b == 0 {
      assert cs[b := c][1..] == cs[1..];
    } else {
      var ds := cs[b := c];
      FlatUpdate(cs[1..], b - 1, c);
      assert ds[1..] == cs[1..][b - 1 := c];
      var head, rest, rest' := multiset(cs[0]), multiset(Flat(cs[1..])), multiset(Flat(ds[1..]));
      assert multiset(Flat(ds)) == head + rest' && multiset(Flat(cs)) == head + rest;
      assert head + rest' + multiset(cs[b]) == head + (rest' + multiset(cs[b]));
    }
  }

  lemma {:induction false} FlatIn(cs: seq<Chain>, x: DictEntry) returns (b: nat)
    requires x in Flat(cs)
    ensures b < |cs| && x in cs[b]
  {
    if x in cs[0] {
      b := 0;
    } else {
      b := FlatIn(cs[1..], x);
      b := b + 1;
    }
  }

  lemma {:induction false} InFlat(cs: seq<Chain>, b: nat, x: DictEntry)
    requires b < |cs| && x in cs[b]
    ensures x in Flat(cs)
  {
    if b > 0 {
      InFlat(cs[1..], b - 1, x);
    }
  }

  lemma {:induction false} FlatEmpty(cs: seq<Chain>)
    requires forall b :: 0 <= b < |cs| ==> cs[b] == []
    ensures Flat(cs) == []
  {
    if cs != [] {
      FlatEmpty(cs[1..]);
    }
  }

  /** Empty chains at the front add nothing. */
  lemma {:induction false} FlatSkip(cs: seq<Chain>, n: nat)
    requires n <= |cs| && forall b :: 0 <= b < n ==> cs[b] == []
    ensures Flat(cs) == Flat(cs[n..])
  {
    if n > 0 {
      FlatSkip(cs[1..], n - 1);
      assert cs[1..][n - 1..] == cs[n..];
    } else {
      assert cs[0..] == cs;
    }
  }

  lemma JoinOnce(a: Chain, b: Chain)
    requires NoRepeats(a) && NoRepeats(b) && forall x :: x in a ==> x !in b
    ensures NoRepeats(a + b)
  {
    forall i, j | 0 <= i < j < |a + b|
      ensures (a + b)[i] != (a + b)[j]
    {
      if i < |a| <= j {
        assert a[i] in a && b[j - |a|] in b;
      }
    }
  }

  lemma {:induction false} FlatOnce(cs: seq<Chain>)
    requires forall b :: 0 <= b < |cs| ==> NoRepeats(cs[b])
    requires forall b, c, x :: 0 <= b < c < |cs| && x in cs[b] ==> x !in cs[c]
    ensures NoRepeats(Flat(cs))
  {
    if cs != [] {
      FlatOnce(cs[1..]);
      forall x | x in cs[0]
        ensures x !in Flat(cs[1..])
      {
        if x in Flat(cs[1..]) {
          var b := FlatIn(cs[1..], x);
        }
      }
      JoinOnce(cs[0], Flat(cs[1..]));
    }
  }

  // ----- where a chain is, seen from an iteration -----

  /** The bucket of a key is one the iteration has yet to come to. */
  predicate Later(t: Tables, p: Progress, k: HashKey)
    requires |t.tbl| > 0
  {
    (Moved(t, k) && !p.second) || (Moved(t, k) == p.second && Bucket(t, k) > p.bucket)
  }

  /** The iteration stands in the bucket of a key. */
  predicate Here(t: Tables, p: Progress, k: HashKey)
    requires |t.tbl| > 0
  {
    Moved(t, k) == p.second && Bucket(t, k) == p.bucket
  }

  /** The part of the chain of `k` that is ahead, if the chain were `c`. */
  ghost function Part(t: Tables, p: Progress, k: HashKey, c: Chain): Chain
    requires Located(t, p)
  {
    if Later(t, p, k) then c else if Here(t, p, k) then Tail(c, p.offset) else []
  }

  /** One of three parts loses `u` and gains `v`. */
  ghost predicate OneChanged(x: Bag, y: Bag, z: Bag, x': Bag, y': Bag, z': Bag, u: Bag, v: Bag) {
    || (x' + u == x + v && y' == y && z' == z)
    || (x' == x && y' + u == y + v && z' == z)
    || (x' == x && y' == y && z' + u == z + v)
  }

  lemma PartChanged(x: Bag, y: Bag, z: Bag, x': Bag, y': Bag, z': Bag, u: Bag, v: Bag)
    requires OneChanged(x, y, z, x', y', z', u, v)
    ensures x' + y' + z' + u == x + y + z + v
  {
    if x' + u == x + v && y' == y && z' == z {
      assert x' + y' + z' + u == (x' + u) + (y + z) && x + y + z + v == (x + v) + (y + z);
    } else if x' == x && y' + u == y + v && z' == z {
      assert x' + y' + z' + u == (y' + u) + (x + z) && x + y + z + v == (y + v) + (x + z);
    } else {
      assert x' + y' + z' + u == (z' + u) + (x + y) && x + y + z + v == (z + v) + (x + y);
    }
  }

  lemma Cancel(a': Bag, a: Bag, x: Bag, d: Bag)
    requires a' + x == a + (x + d)
    ensures a' == a + d
  {
    assert a' == (a' + x) - x && a + d == (a + (x + d)) - x;
  }

  ghost function PartBag(t: Tables, p: Progress, k: HashKey, c: Chain): Bag
    requires Located(t, p)
  {
    multiset(Part(t, p, k, c))
  }

  lemma OtherTable(t: Tables, p: Progress, k: HashKey, c: Chain)
    requires Located(t, p) && Moved(t, k) != p.second
    ensures var t' := WithChain(t, k, c);
            && Located(t', p) && HereBag(t', p) == HereBag(t, p) && LaterBag(t', p) == LaterBag(t, p)
            && SecondBag(t', p) + PartBag(t, p, k, ChainOf(t, k)) == SecondBag(t, p) + PartBag(t, p, k, c)
  {
    if Moved(t, k) {
      FlatUpdate(t.tbl2, Bucket(t, k), c);
    }
  }

  lemma LaterBucket(t: Tables, p: Progress, k: HashKey, c: Chain)
    requires Located(t, p) && Moved(t, k) == p.second && Bucket(t, k) > p.bucket
    ensures var t' := WithChain(t, k, c);
            && Located(t', p) && HereBag(t', p) == HereBag(t, p) && SecondBag(t', p) == SecondBag(t, p)
            && LaterBag(t', p) + PartBag(t, p, k, ChainOf(t, k)) == LaterBag(t, p) + PartBag(t, p, k, c)
  {
    hide Flat, Tail;
    var ttbl, b := Table(t, p.second), Bucket(t, k);
    var rest := ttbl[p.bucket + 1..];
    assert ttbl[b := c][p.bucket + 1..] == rest[b - p.bucket - 1 := c];
    FlatUpdate(rest, b - p.bucket - 1, c);
  }

  lemma EarlierBucket(t: Tables, p: Progress, k: HashKey, c: Chain)
    requires Located(t, p) && Moved(t, k) == p.second && Bucket(t, k) <= p.bucket
    ensures var t' := WithChain(t, k, c);
            && Located(t', p) && LaterBag(t', p) == LaterBag(t, p) && SecondBag(t', p) == SecondBag(t, p)
            && HereBag(t', p) + PartBag(t, p, k, ChainOf(t, k)) == HereBag(t, p) + PartBag(t, p, k, c)
  {
    var ttbl, b := Table(t, p.second), Bucket(t, k);
    assert ttbl[b := c][p.bucket + 1..] == ttbl[p.bucket + 1..];
  }

  /** Another chain for `k` changes one of the three parts of what is ahead, or none. */
  lemma PartsWithChain(t: Tables, p: Progress, k: HashKey, c: Chain)
    requires Located(t, p)
    ensures Located(WithChain(t, k, c), p)
    ensures var t' := WithChain(t, k, c);
            OneChanged(HereBag(t, p), LaterBag(t, p), SecondBag(t, p),
                       HereBag(t', p), LaterBag(t', p), SecondBag(t', p),
                       PartBag(t, p, k, ChainOf(t, k)), PartBag(t, p, k, c))
  {
    hide HereBag, LaterBag, SecondBag, PartBag, WithChain, ChainOf;
    if Moved(t, k) != p.second {
      OtherTable(t, p, k, c);
    } else if Bucket(t, k) > p.bucket {
      LaterBucket(t, p, k, c);
    } else {
      EarlierBucket(t, p, k, c);
    }
  }

  /** Another chain for `k` changes its own part of what is ahead. */
  lemma AheadWithChain(t: Tables, p: Progress, k: HashKey, c: Chain)
    requires Located(t, p)
    ensures Located(WithChain(t, k, c), p)
    ensures AheadBag(WithChain(t, k, c), p) + PartBag(t, p, k, ChainOf(t, k)) == AheadBag(t, p) + PartBag(t, p, k, c)
  {
    hide HereBag, LaterBag, SecondBag, PartBag, WithChain, ChainOf, OneChanged;
    PartsWithChain(t, p, k, c);
    var t' := WithChain(t, k, c);
    PartChanged(HereBag(t, p), LaterBag(t, p), SecondBag(t, p), HereBag(t', p), LaterBag(t', p), SecondBag(t', p),
                PartBag(t, p, k, ChainOf(t, k)), PartBag(t, p, k, c));
  }

  /** Another offset changes the part of its own chain. */
  lemma AheadOffset(t: Tables, p: Progress, o: nat)
    requires Located(t, p)
    ensures var c := Table(t, p.second)[p.bucket];
            AheadBag(t, p.(offset := o)) + multiset(Tail(c, p.offset)) == AheadBag(t, p) + multiset(Tail(c, o))
  {
    hide Flat, Tail;
    var c := Table(t, p.second)[p.bucket];
    PartChanged(HereBag(t, p), LaterBag(t, p), SecondBag(t, p), multiset(Tail(c, o)), LaterBag(t, p), SecondBag(t, p),
                HereBag(t, p), multiset(Tail(c, o)));
  }

  /** What is ahead are entries in their places. */
  lemma AheadLive(t: Tables, m: map<HashKey, DictEntry>, p: Progress, x: DictEntry)
    requires Placed(t, m) && Located(t, p) && x in Ahead(t, p)
    ensures Live(m, x) && x in Part(t, p, x.key, ChainOf(t, x.key))
  {
    hide Placed, Flat;
    var ttbl := Table(t, p.second);
    var c := ttbl[p.bucket];
    if x in Tail(c, p.offset) {
      HereOk(t, m, p.second, p.bucket);
    } else if x in Flat(ttbl[p.bucket + 1..]) {
      var b := FlatIn(ttbl[p.bucket + 1..], x);
      HereOk(t, m, p.second, p.bucket + 1 + b);
    } else {
      var b := FlatIn(t.tbl2, x);
      HereOk(t, m, true, b);
    }
  }

  lemma HereOk(t: Tables, m: map<HashKey, DictEntry>, second: bool, b: nat)
    requires Placed(t, m) && b < |Table(t, second)|
    ensures ChainOk(t, m, second, b, Table(t, second)[b])
  {
  }

  // ----- insertions -----

  /** A new entry `e` went to the end of its chain. */
  ghost function AfterInsert(t: Tables, p: Progress, e: DictEntry): Progress
    requires |t.tbl| > 0
  {
    p.(inserted := if Bucket(t, e.key) < p.bucket then p.inserted + [e] else p.inserted, all := p.all + {e})
  }

  ghost function Appended(t: Tables, e: DictEntry): Tables
    requires |t.tbl| > 0
  {
    WithChain(t, e.key, ChainOf(t, e.key) + [e])
  }

  /** An entry at the end of the chain of `k` comes up when the iteration gets there. */
  predicate ComesUp(t: Tables, p: Progress, k: HashKey)
    requires |t.tbl| > 0
  {
    Later(t, p, k) || (Here(t, p, k) && p.offset <= |ChainOf(t, k)|)
  }

  /** The comparison of bucket numbers, made without regard to the table, puts a new entry on the list of insertions
      exactly when it does not come up otherwise. */
  predicate SafeInsert(t: Tables, p: Progress, k: HashKey)
    requires |t.tbl| > 0
  {
    Bucket(t, k) < p.bucket <==> !ComesUp(t, p, k)
  }

  ghost function If(yes: bool, e: DictEntry): Bag {
    if yes then multiset{e} else multiset{}
  }

  lemma PartInsert(t: Tables, p: Progress, k: HashKey, e: DictEntry)
    requires Located(t, p)
    ensures PartBag(t, p, k, ChainOf(t, k) + [e]) == PartBag(t, p, k, ChainOf(t, k)) + If(ComesUp(t, p, k), e)
  {
    var c := ChainOf(t, k);
    if p.offset <= |c| {
      assert Tail(c + [e], p.offset) == Tail(c, p.offset) + [e];
    }
  }

  lemma AheadInsert(t: Tables, p: Progress, e: DictEntry)
    requires Located(t, p)
    ensures Located(Appended(t, e), AfterInsert(t, p, e))
    ensures AheadBag(Appended(t, e), AfterInsert(t, p, e)) == AheadBag(t, p) + If(ComesUp(t, p, e.key), e)
  {
    AheadWithChain(t, p, e.key, ChainOf(t, e.key) + [e]);
    PartInsert(t, p, e.key, e);
    assert AheadBag(Appended(t, e), AfterInsert(t, p, e)) == AheadBag(Appended(t, e), p);
    hide AheadBag, PartBag, ComesUp, If;
    Cancel(AheadBag(Appended(t, e), p), AheadBag(t, p), PartBag(t, p, e.key, ChainOf(t, e.key)),
      If(ComesUp(t, p, e.key), e));
  }

  lemma AllAfter(t: Tables, p: Progress, e: DictEntry)
    requires |t.tbl| > 0
    ensures var p' := AfterInsert(t, p, e); p'.visited == p.visited && p'.all == p.all + {e} && p'.lost == p.lost
  {
  }

  lemma ReturnsInsert(t: Tables, p: Progress, e: DictEntry)
    requires Located(t, p)
    ensures Located(Appended(t, e), AfterInsert(t, p, e))
    ensures Returns(Appended(t, e), AfterInsert(t, p, e))
         == Returns(t, p) + If(ComesUp(t, p, e.key), e) + If(Bucket(t, e.key) < p.bucket, e)
  {
    AheadInsert(t, p, e);
    hide AheadBag, ComesUp, Located, Bucket, Appended;
  }

  lemma InsertTally(t: Tables, m: map<HashKey, DictEntry>, p: Progress, e: DictEntry)
    requires Located(t, p) && Tallied(t, m, p) && e.key !in m && e !in p.visited
    ensures Located(Appended(t, e), AfterInsert(t, p, e))
    ensures Tallied(Appended(t, e), m[e.key := e], AfterInsert(t, p, e)) <==> SafeInsert(t, p, e.key)
  {
    hide AheadBag, Tallied, Returns, If, Bucket, Moved, ComesUp, Appended;
    var t', p' := Appended(t, e), AfterInsert(t, p, e);
    var up, back := ComesUp(t, p, e.key), Bucket(t, e.key) < p.bucket;
    AheadInsert(t, p, e);
    NotYet(t, m, p, e);
    ReturnsInsert(t, p, e);
    AddedIff(t, m, p, t', p', e, up, back);
  }

  /** After an insertion, with one table or two, an iteration continued without further change still returns every entry
      once, and no other, if and only if the insertion was safe for it. */
  lemma InsertIff(t: Tables, m: map<HashKey, DictEntry>, p: Progress, e: DictEntry)
    requires Located(t, p) && Exact(t, m, p) && e.key !in m && e !in p.visited
    ensures Located(Appended(t, e), AfterInsert(t, p, e))
    ensures Exact(Appended(t, e), m[e.key := e], AfterInsert(t, p, e)) <==> SafeInsert(t, p, e.key)
  {
    ExactIff(t, m, p);
    InsertTally(t, m, p, e);
    hide *;
    ExactIff(Appended(t, e), m[e.key := e], AfterInsert(t, p, e));
  }

  lemma AddedOnce(t: Tables, m: map<HashKey, DictEntry>, p: Progress, t': Tables, p': Progress, e: DictEntry, up: bool)
    requires Located(t, p) && Located(t', p') && Tallied(t, m, p) && e.key !in m
    requires e !in Returns(t, p) && p'.inserted == p.inserted + if up then [] else [e]
    requires AheadBag(t', p') == AheadBag(t, p) + If(up, e) && Returns(t', p') == Returns(t, p) + multiset{e}
    ensures Tallied(t', m[e.key := e], p')
  {
    hide AheadBag, Located, Returns, Once;
    OnceMore(Returns(t, p), e);
  }

  /** Putting `e` in once is right, and not at all or twice is wrong. */
  lemma AddedIff(t: Tables, m: map<HashKey, DictEntry>, p: Progress, t': Tables, p': Progress,
                 e: DictEntry, up: bool, back: bool)
    requires Located(t, p) && Located(t', p') && Tallied(t, m, p) && e.key !in m
    requires e !in Returns(t, p) && p'.inserted == p.inserted + if back then [e] else []
    requires AheadBag(t', p') == AheadBag(t, p) + If(up, e)
    requires Returns(t', p') == Returns(t, p) + If(up, e) + If(back, e)
    ensures Tallied(t', m[e.key := e], p') <==> (back <==> !up)
  {
    hide AheadBag, Located, Returns;
    if up == back {
      assert m[e.key := e][e.key] == e && Returns(t', p')[e] != 1;
    } else {
      assert If(up, e) + If(back, e) == multiset{e};
      assert Returns(t', p') == Returns(t, p) + multiset{e};
      AddedOnce(t, m, p, t', p', e, up);
    }
  }

  lemma OnceMore(s: Bag, e: DictEntry)
    requires Once(s) && e !in s
    ensures Once(s + multiset{e})
  {
  }

  lemma NotYet(t: Tables, m: map<HashKey, DictEntry>, p: Progress, e: DictEntry)
    requires Located(t, p) && Tallied(t, m, p) && e.key !in m && e !in p.visited
    ensures e !in p.inserted && e !in AheadBag(t, p) && e !in Returns(t, p)
  {
  }

  // ----- removals -----

  /** Entry `i` of a bucket was removed; `h` is the bucket of its key in the first table. */
  ghost function AfterRemove(p: Progress, h: nat, i: nat, e: DictEntry): Progress {
    p.(offset := if p.bucket == h && p.offset > i then p.offset - 1 else p.offset,
       inserted := if p.bucket > h then RemoveItem(p.inserted, e) else p.inserted,
       lost := if e in p.visited then p.lost else p.lost + {e})
  }

  ghost function Cut(t: Tables, k: HashKey, i: nat): Tables
    requires |t.tbl| > 0 && i < |ChainOf(t, k)|
  {
    WithChain(t, k, RemoveAt(ChainOf(t, k), i))
  }

  lemma CutPlaced(t: Tables, m: map<HashKey, DictEntry>, k: HashKey, i: nat)
    requires Placed(t, m) && i < |ChainOf(t, k)| && ChainOf(t, k)[i].key == k
    ensures k in m && m[k] == ChainOf(t, k)[i] && Placed(Cut(t, k, i), m - {k})
    ensures |Cut(t, k, i).tbl| == |t.tbl| && |Cut(t, k, i).tbl2| == |t.tbl2|
  {
    PlacedRemove(t, m, k, i);
    SameHomes(t, k, RemoveAt(ChainOf(t, k), i), k);
  }

  /** The offset is stepped back, by comparing the bucket number of the first table, so that what is left of the
      iteration's own chain stays the same: if the entry was behind the iteration in its bucket and something is left
      there, and only then unless nothing is left anyhow. */
  predicate Fits(t: Tables, p: Progress, k: HashKey, i: nat)
    requires Located(t, p)
  {
    var h := k.hash % |t.tbl|;
    p.offset > i ==>
      if Here(t, p, k) then h == p.bucket || p.offset >= |ChainOf(t, k)|
      else h != p.bucket || p.offset > |Table(t, p.second)[p.bucket]|
  }

  predicate SafeRemove(t: Tables, p: Progress, k: HashKey, i: nat, e: DictEntry)
    requires Located(t, p)
  {
    Fits(t, p, k, i) && (e in p.inserted ==> k.hash % |t.tbl| < p.bucket)
  }

  /** The same, wherever in its chain the entry is. */
  ghost predicate SafeToRemove(t: Tables, p: Progress, e: DictEntry)
    requires Located(t, p)
  {
    forall i :: 0 <= i < |ChainOf(t, e.key)| && ChainOf(t, e.key)[i] == e ==> SafeRemove(t, p, e.key, i, e)
  }

  lemma SafeSpot(t: Tables, m: map<HashKey, DictEntry>, p: Progress, k: HashKey, i: nat, e: DictEntry)
    requires Placed(t, m) && Located(t, p) && i < |ChainOf(t, k)| && e == ChainOf(t, k)[i] && e.key == k
    ensures SafeToRemove(t, p, e) <==> SafeRemove(t, p, k, i, e)
  {
    ChainOfOk(t, m, k);
    hide SafeRemove;
  }

  lemma RemoveAtBag(c: Chain, i: nat)
    requires i < |c|
    ensures multiset(RemoveAt(c, i)) + multiset{c[i]} == multiset(c)
  {
    assert c == c[..i] + [c[i]] + c[i + 1..];
  }

  /** What is left of a chain from which an entry is taken, when the iteration stands in it. */
  lemma TailCut(c: Chain, i: nat, o: nat)
    requires i < |c|
    ensures o <= i ==> multiset(Tail(RemoveAt(c, i), o)) + multiset{c[i]} == multiset(Tail(c, o))
    ensures o > i ==> Tail(RemoveAt(c, i), o - 1) == Tail(c, o)
    ensures i < o < |c| ==> [c[o]] + Tail(RemoveAt(c, i), o) == Tail(c, o)
    ensures o >= |c| ==> Tail(c, o) == [] && Tail(RemoveAt(c, i), o) == []
  {
    var d := RemoveAt(c, i);
    if o <= i {
      RemoveAtBag(c[o..], i - o);
      assert d[o..] == RemoveAt(c[o..], i - o);
    } else if o <= |c| {
      assert d[o - 1..] == c[o..];
    }
  }

  /** Entry `i` of the chain of `k` is ahead of the iteration. */
  predicate Unseen(t: Tables, p: Progress, k: HashKey, i: nat)
    requires |t.tbl| > 0
  {
    Later(t, p, k) || (Here(t, p, k) && p.offset <= i)
  }

  lemma Swap(a: Bag, b: Bag, c: Bag, x: Bag, y: Bag, z: Bag)
    requires a + x == b + y && b + z == c + x
    ensures a + z == c + y
  {
    assert a + x + z == b + y + z && b + z + y == c + x + y;
    assert a + z == (a + x + z) - x && c + y == (c + x + y) - x && b + y + z == b + z + y;
  }

  lemma CutHere(t: Tables, p: Progress, k: HashKey, i: nat, o: nat)
    requires Located(t, p) && i < |ChainOf(t, k)| && Here(t, p, k)
    ensures Located(Cut(t, k, i), p.(offset := o))
    ensures AheadBag(Cut(t, k, i), p.(offset := o)) + multiset(Tail(ChainOf(t, k), p.offset))
         == AheadBag(t, p) + multiset(Tail(RemoveAt(ChainOf(t, k), i), o))
  {
    var c, p' := ChainOf(t, k), p.(offset := o);
    AheadWithChain(t, p', k, RemoveAt(c, i));
    AheadOffset(t, p, o);
    hide AheadBag, Tail, RemoveAt;
    Swap(AheadBag(Cut(t, k, i), p'), AheadBag(t, p'), AheadBag(t, p),
         multiset(Tail(c, o)), multiset(Tail(RemoveAt(c, i), o)), multiset(Tail(c, p.offset)));
  }

  lemma CutElsewhere(t: Tables, p: Progress, k: HashKey, i: nat)
    requires Located(t, p) && i < |ChainOf(t, k)| && !Here(t, p, k)
    ensures Located(Cut(t, k, i), p)
    ensures AheadBag(Cut(t, k, i), p) + If(Later(t, p, k), ChainOf(t, k)[i]) == AheadBag(t, p)
  {
    var c := ChainOf(t, k);
    AheadWithChain(t, p, k, RemoveAt(c, i));
    RemoveAtBag(c, i);
    var a', a := AheadBag(Cut(t, k, i), p), AheadBag(t, p);
    hide AheadBag, RemoveAt, Later, Here;
    if Later(t, p, k) {
      Drop(a', a, multiset(RemoveAt(c, i)), multiset{c[i]});
    }
  }

  lemma Drop(a': Bag, a: Bag, x: Bag, d: Bag)
    requires a' + (x + d) == a + x
    ensures a' + d == a
  {
    assert a' + d == (a' + (x + d)) - x && a == (a + x) - x;
  }

  lemma Equal(a': Bag, a: Bag, x: Bag)
    requires a' + x == a + x
    ensures a' == a
  {
    assert a' == (a' + x) - x && a == (a + x) - x;
  }

  lemma TailBack(c: Chain, o: nat)
    requires o > 0
    ensures o <= |c| ==> multiset(Tail(c, o - 1)) == multiset(Tail(c, o)) + multiset{c[o - 1]}
    ensures o > |c| ==> Tail(c, o - 1) == Tail(c, o)
  {
    if o <= |c| {
      assert Tail(c, o - 1) == [c[o - 1]] + Tail(c, o);
    }
  }

  /** One step back, from within the chain, puts the entry before the position ahead again. */
  lemma StepBack(t: Tables, p: Progress)
    requires Located(t, p) && 0 < p.offset <= |Table(t, p.second)[p.bucket]|
    ensures AheadBag(t, p.(offset := p.offset - 1)) == AheadBag(t, p)
            + multiset{Table(t, p.second)[p.bucket][p.offset - 1]}
  {
    hide AheadBag, Tail;
    var c, o := Table(t, p.second)[p.bucket], p.offset;
    AheadOffset(t, p, o - 1);
    TailBack(c, o);
    Cancel(AheadBag(t, p.(offset := o - 1)), AheadBag(t, p), multiset(Tail(c, o)), multiset{c[o - 1]});
  }

  /** From beyond its end it changes nothing. */
  lemma StepBackBeyond(t: Tables, p: Progress)
    requires Located(t, p) && p.offset > |Table(t, p.second)[p.bucket]|
    ensures AheadBag(t, p.(offset := p.offset - 1)) == AheadBag(t, p)
  {
    hide AheadBag, Tail;
    var c, o := Table(t, p.second)[p.bucket], p.offset;
    AheadOffset(t, p, o - 1);
    TailBack(c, o);
    Equal(AheadBag(t, p.(offset := o - 1)), AheadBag(t, p), multiset(Tail(c, o)));
  }

  /** The offset an iteration is left with. */
  ghost function OffsetAfter(p: Progress, h: nat, i: nat): int {
    if p.bucket == h && p.offset > i then p.offset - 1 else p.offset
  }

  lemma AfterRemoveAhead(t: Tables, p: Progress, h: nat, i: nat, e: DictEntry)
    requires Located(t, p)
    ensures Located(t, AfterRemove(p, h, i, e)) && Located(t, p.(offset := OffsetAfter(p, h, i)))
    ensures AheadBag(t, AfterRemove(p, h, i, e)) == AheadBag(t, p.(offset := OffsetAfter(p, h, i)))
  {
    hide RemoveItem, Flat, Tail;
  }

  /** If the removal fits, exactly the entry removed is no longer ahead. */
  lemma AheadRemove(t: Tables, p: Progress, k: HashKey, i: nat, e: DictEntry)
    requires Located(t, p) && i < |ChainOf(t, k)| && e == ChainOf(t, k)[i] && Fits(t, p, k, i)
    ensures Located(Cut(t, k, i), AfterRemove(p, k.hash % |t.tbl|, i, e))
    ensures AheadBag(Cut(t, k, i), AfterRemove(p, k.hash % |t.tbl|, i, e)) + If(Unseen(t, p, k, i), e) == AheadBag(t, p)
  {
    hide AheadBag, Tail, If, AfterRemove, Cut, RemoveAt;
    var h := k.hash % |t.tbl|;
    var o := OffsetAfter(p, h, i);
    if Here(t, p, k) {
      CutHere(t, p, k, i, o);
      FitsHere(AheadBag(Cut(t, k, i), p.(offset := o)), AheadBag(t, p), ChainOf(t, k), i, p.offset, o);
    } else {
      CutElsewhere(t, p.(offset := o), k, i);
      if o != p.offset {
        StepBackBeyond(t, p);
      }
    }
    AfterRemoveAhead(Cut(t, k, i), p, h, i, e);
  }

  lemma FitsHere(a': Bag, a: Bag, c: Chain, i: nat, o: nat, o': nat)
    requires i < |c| && a' + multiset(Tail(c, o)) == a + multiset(Tail(RemoveAt(c, i), o'))
    requires if o <= i then o' == o else o' == o - 1 || (o' == o && o >= |c|)
    ensures a' + If(o <= i, c[i]) == a
  {
    hide RemoveAt, Tail;
    TailCut(c, i, o);
    var x, y := multiset(Tail(RemoveAt(c, i), o')), multiset(Tail(c, o));
    if o <= i {
      Drop(a', a, x, multiset{c[i]});
    } else {
      assert x == y;
      Equal(a', a, x);
    }
  }

  /** If not, and the iteration stands in the bucket of the entry, another entry is no longer ahead either. */
  lemma AheadSkips(t: Tables, p: Progress, k: HashKey, i: nat, e: DictEntry)
    requires Located(t, p) && i < |ChainOf(t, k)| && e == ChainOf(t, k)[i] && !Fits(t, p, k, i) && Here(t, p, k)
    ensures Located(Cut(t, k, i), AfterRemove(p, k.hash % |t.tbl|, i, e)) && i < p.offset < |ChainOf(t, k)|
    ensures AheadBag(Cut(t, k, i), AfterRemove(p, k.hash % |t.tbl|, i, e)) + multiset{ChainOf(t, k)[p.offset]}
            == AheadBag(t, p)
  {
    var h, c, o := k.hash % |t.tbl|, ChainOf(t, k), p.offset;
    CutHere(t, p, k, i, o);
    TailCut(c, i, o);
    AfterRemoveAhead(Cut(t, k, i), p, h, i, e);
    var a', a := AheadBag(Cut(t, k, i), p.(offset := o)), AheadBag(t, p);
    hide AheadBag, RemoveAt;
    assert multiset(Tail(c, o)) == multiset(Tail(RemoveAt(c, i), o)) + multiset{c[o]};
    Drop(a', a, multiset(Tail(RemoveAt(c, i), o)), multiset{c[o]});
  }

  /** And if it stands elsewhere, an entry it has left behind is ahead again. */
  lemma AheadAgain(t: Tables, p: Progress, k: HashKey, i: nat, e: DictEntry)
    requires Located(t, p) && i < |ChainOf(t, k)| && e == ChainOf(t, k)[i] && !Fits(t, p, k, i) && !Here(t, p, k)
    ensures Located(Cut(t, k, i), AfterRemove(p, k.hash % |t.tbl|, i, e))
            && 0 < p.offset <= |Table(t, p.second)[p.bucket]|
    ensures AheadBag(Cut(t, k, i), AfterRemove(p, k.hash % |t.tbl|, i, e)) + If(Later(t, p, k), e)
         == AheadBag(t, p) + multiset{Table(t, p.second)[p.bucket][p.offset - 1]}
  {
    hide AheadBag;
    CutElsewhere(t, p.(offset := p.offset - 1), k, i);
    AfterRemoveAhead(Cut(t, k, i), p, k.hash % |t.tbl|, i, e);
    StepBack(t, p);
  }

  lemma {:induction false} RemoveItemBag(s: Chain, x: DictEntry)
    ensures multiset(RemoveItem(s, x)) + If(x in s, x) == multiset(s)
  {
    if s != [] {
      assert s == [s[0]] + s[1..];
      assert multiset(s) == multiset{s[0]} + multiset(s[1..]);
      if s[0] != x {
        RemoveItemBag(s[1..], x);
        var rest := RemoveItem(s[1..], x);
        assert RemoveItem(s, x) == [s[0]] + rest;
        assert multiset([s[0]] + rest) == multiset{s[0]} + multiset(rest);
        assert x in s <==> x in s[1..];
      }
    }
  }

  lemma LocatedCut(t: Tables, p: Progress, k: HashKey, i: nat, e: DictEntry)
    requires Located(t, p) && i < |ChainOf(t, k)|
    ensures Located(Cut(t, k, i), AfterRemove(p, k.hash % |t.tbl|, i, e))
  {
  }

  lemma LostAfter(p: Progress, h: nat, i: nat, e: DictEntry)
    ensures var p' := AfterRemove(p, h, i, e);
            && p'.visited == p.visited && p'.all == p.all
            && p'.lost == p.lost + if e in p.visited then {} else {e}
  {
  }

  /** What is no longer there is only what was removed. */
  lemma RemovedAlone(t: Tables, m: map<HashKey, DictEntry>, p: Progress, t': Tables, p': Progress, e: DictEntry,
                     ahead: bool, noted: bool)
    requires Located(t, p) && Located(t', p') && Tallied(t, m, p) && Live(m, e) && forall k :: k in m ==> m[k].key == k
    requires p'.visited == p.visited && multiset(p'.inserted) + If(noted, e) == multiset(p.inserted)
    requires AheadBag(t', p') + If(ahead, e) == AheadBag(t, p)
    requires (e in p.inserted ==> noted) && (e in AheadBag(t, p) ==> ahead)
    ensures Tallied(t', m - {e.key}, p')
  {
    hide AheadBag, Located, If;
    var r, r' := Returns(t, p), Returns(t', p');
    Swept(multiset(p.visited), multiset(p'.inserted), AheadBag(t', p'), If(noted, e), If(ahead, e));
    Fewer(r, r', e, noted, ahead);
    AllGone(multiset(p'.inserted), multiset(p.inserted), r, e, noted);
    AllGone(AheadBag(t', p'), AheadBag(t, p), r, e, ahead);
    forall x | x in p'.inserted
      ensures Live(m - {e.key}, x)
    {
      assert x in multiset(p'.inserted) && x in multiset(p.inserted) && x in p.inserted;
    }
    forall x | x in AheadBag(t', p')
      ensures Live(m - {e.key}, x)
    {
      assert x in AheadBag(t, p);
    }
  }

  /** A part of what is returned, in which an entry was at most once, without that entry. */
  lemma AllGone(part': Bag, part: Bag, r: Bag, e: DictEntry, gone: bool)
    requires part' + If(gone, e) == part && part[e] <= r[e] <= 1 && (e in part ==> gone)
    ensures e !in part' && forall x :: x in part' ==> x in part
  {
  }

  lemma Swept(v: Bag, i: Bag, a: Bag, x: Bag, y: Bag)
    ensures v + i + a + x + y == v + (i + x) + (a + y)
  {
  }

  lemma Fewer(r: Bag, r': Bag, e: DictEntry, noted: bool, ahead: bool)
    requires Once(r) && r' + If(noted, e) + If(ahead, e) == r
    ensures Once(r') && (forall x :: x in r && x != e ==> x in r') && r[e] <= 1
  {
    forall x | x in r'
      ensures r'[x] == 1
    {
      assert (r' + If(noted, e) + If(ahead, e))[x] == r[x];
      assert x in r;
    }
    forall x | x in r && x != e
      ensures x in r'
    {
      assert (r' + If(noted, e) + If(ahead, e))[x] == r[x];
    }
  }

  lemma UnseenIs(t: Tables, m: map<HashKey, DictEntry>, p: Progress, k: HashKey, i: nat, e: DictEntry)
    requires Placed(t, m) && Located(t, p) && i < |ChainOf(t, k)| && e == ChainOf(t, k)[i] && e.key == k
    ensures e in AheadBag(t, p) ==> Unseen(t, p, k, i)
  {
    ChainOfOk(t, m, k);
    AheadCounted(t, p);
    hide Placed, Ahead, AheadBag;
    if e in AheadBag(t, p) {
      AheadLive(t, m, p, e);
    }
  }

  lemma NotedAfter(p: Progress, h: nat, i: nat, e: DictEntry)
    ensures multiset(AfterRemove(p, h, i, e).inserted) + If(p.bucket > h && e in p.inserted, e) == multiset(p.inserted)
    ensures AfterRemove(p, h, i, e).visited == p.visited
    ensures p.bucket <= h ==> AfterRemove(p, h, i, e).inserted == p.inserted
  {
    if p.bucket > h {
      RemoveItemBag(p.inserted, e);
    }
  }

  lemma RemoveKeeps(t: Tables, m: map<HashKey, DictEntry>, p: Progress, k: HashKey, i: nat, e: DictEntry)
    requires Placed(t, m) && Located(t, p) && Tallied(t, m, p) && i < |ChainOf(t, k)| && e == ChainOf(t, k)[i]
             && e.key == k
    requires SafeRemove(t, p, k, i, e)
    ensures Located(Cut(t, k, i), AfterRemove(p, k.hash % |t.tbl|, i, e))
    ensures Tallied(Cut(t, k, i), m - {k}, AfterRemove(p, k.hash % |t.tbl|, i, e))
  {
    ChainOfOk(t, m, k);
    hide Tallied, Cut, AheadBag, AfterRemove, ChainOf, If, Unseen, Fits, ChainOk;
    var h := k.hash % |t.tbl|;
    AheadRemove(t, p, k, i, e);
    UnseenIs(t, m, p, k, i, e);
    NotedAfter(p, h, i, e);
    RemovedAlone(t, m, p, Cut(t, k, i), AfterRemove(p, h, i, e), e,
                 Unseen(t, p, k, i), p.bucket > h && e in p.inserted);
  }

  lemma Missed(t: Tables, m: map<HashKey, DictEntry>, p: Progress, t': Tables, p': Progress, e: DictEntry, x: DictEntry,
               noted: bool)
    requires Located(t, p) && Located(t', p') && Tallied(t, m, p) && Live(m, x) && x.key != e.key
    requires p'.visited == p.visited && multiset(p'.inserted) + If(noted, e) == multiset(p.inserted)
    requires AheadBag(t', p') + multiset{x} == AheadBag(t, p)
    ensures !Tallied(t', m - {e.key}, p')
  {
    hide AheadBag, Located;
    var r, r' := Returns(t, p), Returns(t', p');
    assert r' + If(noted, e) + multiset{x} == r;
    assert r[x] == 1 && (r' + If(noted, e) + multiset{x})[x] == r[x];
    assert (m - {e.key})[x.key] == x && x !in r';
  }

  lemma Repeated(t: Tables, m: map<HashKey, DictEntry>, p: Progress, t': Tables, p': Progress, e: DictEntry,
                 x: DictEntry, noted: bool, ahead: bool)
    requires Located(t, p) && Located(t', p') && Tallied(t, m, p) && Live(m, x) && x != e
    requires p'.visited == p.visited && multiset(p'.inserted) + If(noted, e) == multiset(p.inserted)
    requires AheadBag(t', p') + If(ahead, e) == AheadBag(t, p) + multiset{x}
    ensures !Tallied(t', m - {e.key}, p')
  {
    hide AheadBag, Located;
    var r, r' := Returns(t, p), Returns(t', p');
    assert (multiset(p'.inserted) + If(noted, e))[x] == multiset(p.inserted)[x];
    assert (AheadBag(t', p') + If(ahead, e))[x] == (AheadBag(t, p) + multiset{x})[x];
    assert m[x.key] in r && r[x] == 1 && r'[x] == 2 && x in r';
  }

  /** A removal that does not fit makes the iteration skip an entry or come to one again. */
  lemma CountLost(t: Tables, m: map<HashKey, DictEntry>, p: Progress, k: HashKey, i: nat, e: DictEntry)
    requires Placed(t, m) && Located(t, p) && Tallied(t, m, p) && i < |ChainOf(t, k)| && e == ChainOf(t, k)[i]
             && e.key == k
    requires !Fits(t, p, k, i)
    ensures Located(Cut(t, k, i), AfterRemove(p, k.hash % |t.tbl|, i, e))
    ensures !Tallied(Cut(t, k, i), m - {k}, AfterRemove(p, k.hash % |t.tbl|, i, e))
  {
    ChainOfOk(t, m, k);
    HereOk(t, m, p.second, p.bucket);
    hide Tallied, Cut, AheadBag, AfterRemove, If, Fits, Placed, WithChain;
    var h := k.hash % |t.tbl|;
    NotedAfter(p, h, i, e);
    if Here(t, p, k) {
      AheadSkips(t, p, k, i, e);
      Missed(t, m, p, Cut(t, k, i), AfterRemove(p, h, i, e), e, ChainOf(t, k)[p.offset],
             p.bucket > h && e in p.inserted);
    } else {
      AheadAgain(t, p, k, i, e);
      Repeated(t, m, p, Cut(t, k, i), AfterRemove(p, h, i, e), e, Table(t, p.second)[p.bucket][p.offset - 1],
               p.bucket > h && e in p.inserted, Later(t, p, k));
    }
  }

  lemma RemoveTally(t: Tables, m: map<HashKey, DictEntry>, p: Progress, k: HashKey, i: nat, e: DictEntry)
    requires Placed(t, m) && Located(t, p) && Tallied(t, m, p) && i < |ChainOf(t, k)| && e == ChainOf(t, k)[i]
             && e.key == k
    ensures Located(Cut(t, k, i), AfterRemove(p, k.hash % |t.tbl|, i, e))
    ensures Tallied(Cut(t, k, i), m - {k}, AfterRemove(p, k.hash % |t.tbl|, i, e)) <==> SafeRemove(t, p, k, i, e)
  {
    hide Cut, AheadBag, Fits, Placed, WithChain, ChainOf, Returns;
    if SafeRemove(t, p, k, i, e) {
      RemoveKeeps(t, m, p, k, i, e);
    } else if !Fits(t, p, k, i) {
      CountLost(t, m, p, k, i, e);
    } else {
      AheadRemove(t, p, k, i, e);
      assert e in AfterRemove(p, k.hash % |t.tbl|, i, e).inserted && !Live(m - {k}, e);
    }
  }

  /** After a removal, with one table or two, an iteration continued without further change still returns every entry
      once, and no other, if and only if the removal was safe for it. */
  lemma RemoveIff(t: Tables, m: map<HashKey, DictEntry>, p: Progress, k: HashKey, i: nat, e: DictEntry)
    requires Placed(t, m) && Located(t, p) && Exact(t, m, p) && i < |ChainOf(t, k)| && e == ChainOf(t, k)[i]
             && e.key == k
    ensures Located(Cut(t, k, i), AfterRemove(p, k.hash % |t.tbl|, i, e))
    ensures Exact(Cut(t, k, i), m - {k}, AfterRemove(p, k.hash % |t.tbl|, i, e)) <==> SafeRemove(t, p, k, i, e)
  {
    ExactIff(t, m, p);
    RemoveTally(t, m, p, k, i, e);
    hide *;
    ExactIff(Cut(t, k, i), m - {k}, AfterRemove(p, k.hash % |t.tbl|, i, e));
  }

  // ----- what stays true of an iteration -----

  lemma LedgerInsert(t: Tables, m: map<HashKey, DictEntry>, p: Progress, e: DictEntry)
    requires Ledger(m, p) && |t.tbl| > 0 && e.key !in m && e !in p.all
    ensures Ledger(m[e.key := e], AfterInsert(t, p, e))
  {
    hide Bucket;
  }

  lemma LedgerRemove(m: map<HashKey, DictEntry>, p: Progress, h: nat, i: nat, e: DictEntry)
    requires Ledger(m, p) && Live(m, e) && forall k :: k in m ==> m[k].key == k
    ensures Ledger(m - {e.key}, AfterRemove(p, h, i, e))
  {
    LiveRemove(m, e);
  }

  lemma SettledInsert(t: Tables, p: Progress, e: DictEntry)
    requires Located(t, p) && Settled(t, p)
    ensures Located(Appended(t, e), AfterInsert(t, p, e)) && Settled(Appended(t, e), AfterInsert(t, p, e))
  {
  }

  lemma SettledRemove(t: Tables, p: Progress, k: HashKey, i: nat, e: DictEntry)
    requires Located(t, p) && Settled(t, p) && i < |ChainOf(t, k)| && NoRepeats(p.inserted)
    ensures var p' := AfterRemove(p, k.hash % |t.tbl|, i, e); Located(Cut(t, k, i), p') && Settled(Cut(t, k, i), p')
  {
    RemovedItem(p.inserted, e);
  }

  lemma NotedOnce(t: Tables, m: map<HashKey, DictEntry>, p: Progress)
    requires Located(t, p) && Exact(t, m, p)
    ensures NoRepeats(p.inserted)
  {
    ExactIff(t, m, p);
    OnceIff(p.inserted);
    hide Located, AheadBag, Exact;
    forall x | x in multiset(p.inserted)
      ensures multiset(p.inserted)[x] == 1
    {
      assert multiset(p.inserted)[x] <= Returns(t, p)[x];
    }
  }

  /** An insertion keeps the iteration on track if it is safe, and otherwise spoils it. */
  lemma TrackInsert(t: Tables, m: map<HashKey, DictEntry>, p: Progress, e: DictEntry)
    requires OnTrack(t, m, p) && e.key !in m && e !in p.all
    ensures var t', m', p' := Appended(t, e), m[e.key := e], AfterInsert(t, p, e);
            && Located(t', p') && (SafeInsert(t, p, e.key) ==> OnTrack(t', m', p'))
            && (!SafeInsert(t, p, e.key) ==> !Exact(t', m', p'))
  {
    InsertIff(t, m, p, e);
    LedgerInsert(t, m, p, e);
    SettledInsert(t, p, e);
    hide *;
    assert OnTrack(t, m, p);
  }

  lemma TrackRemove(t: Tables, m: map<HashKey, DictEntry>, p: Progress, k: HashKey, i: nat, e: DictEntry)
    requires Placed(t, m) && OnTrack(t, m, p) && i < |ChainOf(t, k)| && e == ChainOf(t, k)[i] && e.key == k
    ensures var t', m', p' := Cut(t, k, i), m - {k}, AfterRemove(p, k.hash % |t.tbl|, i, e);
            && Located(t', p') && (SafeToRemove(t, p, e) ==> OnTrack(t', m', p'))
            && (!SafeToRemove(t, p, e) ==> !Exact(t', m', p'))
  {
    hide Exact, Ledger, Settled, Cut, AfterRemove, SafeRemove, SafeToRemove;
    ChainOfOk(t, m, k);
    SafeSpot(t, m, p, k, i, e);
    RemoveIff(t, m, p, k, i, e);
    LedgerRemove(m, p, k.hash % |t.tbl|, i, e);
    NotedOnce(t, m, p);
    SettledRemove(t, p, k, i, e);
  }

  /** With one table every change is safe. */
  lemma OneTableSafe(t: Tables, m: map<HashKey, DictEntry>, p: Progress)
    requires OnTrack(t, m, p) && t.tbl2 == []
    ensures forall k :: SafeInsert(t, p, k)
    ensures forall k :: k in m && m[k].key == k ==> SafeToRemove(t, p, m[k])
  {
    hide Exact, Ledger;
  }

  lemma TrackStart(t: Tables, m: map<HashKey, DictEntry>, p: Progress)
    requires Placed(t, m)
    requires !p.second && p.bucket == 0 && p.offset == 0 && p.inserted == [] && p.visited == [] && p.lost == {}
    requires (forall k :: k in m ==> m[k] in p.all) && forall e :: e in p.all ==> Live(m, e)
    ensures OnTrack(t, m, p)
  {
    hide Exact, Placed;
    StartExact(t, m, p);
  }

  lemma StartExact(t: Tables, m: map<HashKey, DictEntry>, p: Progress)
    requires Placed(t, m) && !p.second && p.bucket == 0 && p.offset == 0 && p.inserted == [] && p.visited == []
    ensures Located(t, p) && Exact(t, m, p)
  {
    StartLocated(t, m);
    StartComing(t, p);
    TablesOnce(t, m);
    TablesCover(t, m);
    hide *;
    ExactAlone(t, m, p);
  }

  lemma ExactAlone(t: Tables, m: map<HashKey, DictEntry>, p: Progress)
    requires Located(t, p) && p.visited == [] && NoRepeats(Coming(t, p))
    requires (forall e :: e in Coming(t, p) ==> Live(m, e)) && forall k :: k in m ==> m[k] in Coming(t, p)
    ensures Exact(t, m, p)
  {
    hide Coming, Located;
    assert p.visited + Coming(t, p) == Coming(t, p);
  }

  lemma StartLocated(t: Tables, m: map<HashKey, DictEntry>)
    requires Placed(t, m)
    ensures |t.tbl| > 0
  {
  }

  lemma TablesCover(t: Tables, m: map<HashKey, DictEntry>)
    requires Placed(t, m)
    ensures forall k :: k in m ==> m[k] in Flat(t.tbl) + Flat(t.tbl2)
  {
    forall k | k in m
      ensures m[k] in Flat(t.tbl) + Flat(t.tbl2)
    {
      InFlat(if Moved(t, k) then t.tbl2 else t.tbl, Bucket(t, k), m[k]);
    }
  }

  lemma StartComing(t: Tables, p: Progress)
    requires |t.tbl| > 0 && !p.second && p.bucket == 0 && p.offset == 0 && p.inserted == []
    ensures Located(t, p) && Coming(t, p) == Flat(t.tbl) + Flat(t.tbl2)
  {
    assert Tail(t.tbl[0], 0) == t.tbl[0];
  }

  /** The tables hold every entry once. */
  lemma TablesOnce(t: Tables, m: map<HashKey, DictEntry>)
    requires Placed(t, m)
    ensures NoRepeats(Flat(t.tbl) + Flat(t.tbl2)) && forall e :: e in Flat(t.tbl) + Flat(t.tbl2) ==> Live(m, e)
  {
    forall e | e in Flat(t.tbl)
      ensures Live(m, e) && !Moved(t, e.key)
    {
      var b := FlatIn(t.tbl, e);
      HereOk(t, m, false, b);
    }
    forall e | e in Flat(t.tbl2)
      ensures Live(m, e) && Moved(t, e.key)
    {
      var b := FlatIn(t.tbl2, e);
      HereOk(t, m, true, b);
    }
    FlatOnce(t.tbl);
    FlatOnce(t.tbl2);
    JoinOnce(Flat(t.tbl), Flat(t.tbl2));
  }

  // ----- NextEntry, with one table or two -----

  lemma ComingInserted(t: Tables, p: Progress, p': Progress)
    requires Located(t, p) && p.inserted != []
    requires p' == p.(inserted := p.inserted[..|p.inserted| - 1], visited := p'.visited)
    ensures Coming(t, p) == [p.inserted[|p.inserted| - 1]] + Coming(t, p')
  {
    hide Tail, Flat;
  }

  lemma ComingIs(t: Tables, p: Progress, x: Chain)
    requires Located(t, p) && p.inserted == []
    requires x == Tail(Table(t, p.second)[p.bucket], p.offset) + Flat(Table(t, p.second)[p.bucket + 1..])
    ensures Coming(t, p) == [] + (x + if p.second then [] else Flat(t.tbl2))
  {
    hide Tail, Flat;
  }

  lemma ComingHere(t: Tables, p: Progress, p': Progress)
    requires Located(t, p) && p.inserted == [] && p.offset < |Table(t, p.second)[p.bucket]|
    requires p' == p.(offset := p.offset + 1, visited := p'.visited)
    ensures Coming(t, p) == [Table(t, p.second)[p.bucket][p.offset]] + Coming(t, p')
  {
    hide Flat, Coming;
    var c, later := Table(t, p.second)[p.bucket], Flat(Table(t, p.second)[p.bucket + 1..]);
    var x, others := Tail(c, p.offset + 1) + later, if p.second then [] else Flat(t.tbl2);
    assert Tail(c, p.offset) == [c[p.offset]] + Tail(c, p.offset + 1);
    assert [c[p.offset]] + x == Tail(c, p.offset) + later;
    ComingIs(t, p, [c[p.offset]] + x);
    ComingIs(t, p', x);
    assert [] + ([c[p.offset]] + x + others) == [c[p.offset]] + ([] + (x + others));
  }

  /** The current bucket and those up to `b` hold nothing more. */
  ghost predicate Skipped(t: Tables, p: Progress, b: nat) {
    && Located(t, p) && p.inserted == [] && p.bucket < b <= |Table(t, p.second)|
    && p.offset >= |Table(t, p.second)[p.bucket]|
    && forall i :: p.bucket < i < b ==> Table(t, p.second)[i] == []
  }

  lemma ComingLater(t: Tables, p: Progress, b: nat)
    requires Skipped(t, p, b) && b < |Table(t, p.second)|
    ensures Coming(t, p) == Coming(t, p.(bucket := b, offset := 0))
  {
    hide Flat, Coming;
    var ttbl, x := Table(t, p.second), Flat(Table(t, p.second)[p.bucket + 1..]);
    FlatFrom(ttbl, p.bucket + 1, b);
    assert x == [] + x;
    ComingIs(t, p, x);
    ComingIs(t, p.(bucket := b, offset := 0), x);
  }

  lemma FlatFrom(cs: seq<Chain>, a: nat, b: nat)
    requires a <= b < |cs| && forall i :: a <= i < b ==> cs[i] == []
    ensures Flat(cs[a..]) == cs[b] + Flat(cs[b + 1..])
  {
    FlatSkip(cs[a..], b - a);
    assert cs[a..][b - a..] == cs[b..] && cs[b..][0] == cs[b] && cs[b..][1..] == cs[b + 1..];
  }

  /** When the first table is done, the second one is still to come. */
  lemma ComingSecond(t: Tables, p: Progress)
    requires Skipped(t, p, |t.tbl|) && !p.second && t.tbl2 != []
    ensures Located(t, p.(second := true, bucket := 0, offset := 0))
    ensures Coming(t, p) == Coming(t, p.(second := true, bucket := 0, offset := 0))
  {
    FlatEmpty(t.tbl[p.bucket + 1..]);
    assert Tail(t.tbl2[0], 0) == t.tbl2[0];
  }

  lemma ComingOver(t: Tables, p: Progress)
    requires Skipped(t, p, |Table(t, p.second)|) && (p.second || t.tbl2 == [])
    ensures Coming(t, p) == []
  {
    FlatEmpty(Table(t, p.second)[p.bucket + 1..]);
  }

  /** Moving on to where the same entries are still to come keeps an iteration on track. */
  lemma SameComing(t: Tables, m: map<HashKey, DictEntry>, p: Progress, p': Progress)
    requires Located(t, p) && Located(t, p') && Coming(t, p) == Coming(t, p') && t.tbl2 != []
    requires p'.visited == p.visited && p'.all == p.all && p'.lost == p.lost
    ensures OnTrack(t, m, p) ==> OnTrack(t, m, p')
  {
    hide Coming;
  }

  /** The iteration stands right behind `e`. */
  ghost predicate Past(t: Tables, p: Progress, e: DictEntry) {
    Located(t, p) && var c := Table(t, p.second)[p.bucket]; 0 < p.offset <= |c| && c[p.offset - 1] == e
  }

  /** `e` is returned next. */
  ghost predicate Returned(t: Tables, p: Progress, p': Progress, e: DictEntry) {
    && Located(t, p) && Located(t, p') && Coming(t, p) == [e] + Coming(t, p')
    && p'.visited == p.visited + [e] && p'.all == p.all && p'.lost == p.lost
  }

  lemma TrackReturned(t: Tables, m: map<HashKey, DictEntry>, p: Progress, p': Progress, e: DictEntry)
    requires OnTrack(t, m, p) && Returned(t, p, p', e) && Settled(t, p')
    ensures OnTrack(t, m, p') && Live(m, e) && e !in p.visited
  {
    hide Coming, Settled;
    var all := p.visited + Coming(t, p);
    assert e in Coming(t, p) && m[e.key] == e;
    assert all == p'.visited + Coming(t, p') && all[|p.visited|] == e;
    assert forall i :: 0 <= i < |p.visited| ==> all[i] == p.visited[i];
  }

  /** An iteration that finds nothing more has returned, once each, exactly the entries that were there at its
      start or came later, apart from those removed before they were seen. */
  lemma TrackFinished(t: Tables, m: map<HashKey, DictEntry>, p: Progress)
    requires OnTrack(t, m, p) && Coming(t, p) == []
    ensures NoRepeats(p.visited) && (forall e :: e in p.visited ==> e in p.all && e !in p.lost)
    ensures forall e :: e in p.all && e !in p.lost ==> e in p.visited
    ensures forall k :: k in m ==> m[k] in p.visited
  {
    hide Coming, Settled;
    assert p.visited + [] == p.visited;
    forall e | e in p.all && e !in p.lost
      ensures e in p.visited
    {
      if Live(m, e) {
        assert m[e.key] == e;
      }
    }
  }

  // ----- changes that are not safe -----

  ghost function MissTables(a: DictEntry): Tables {
    Tables([[], [], []], [[a], [], [], [], [], [], []], 1)
  }

  ghost function MissProgress(a: DictEntry): Progress {
    Progress(true, 0, 1, [], [a], {a}, {})
  }

  lemma MissComing(a: DictEntry)
    ensures Located(MissTables(a), MissProgress(a)) && Coming(MissTables(a), MissProgress(a)) == []
  {
    var t, p := MissTables(a), MissProgress(a);
    FlatEmpty(t.tbl2[1..]);
    hide Flat;
    assert Tail([a], 1) == [];
  }

  lemma MissTracked(a: DictEntry)
    requires a.key == HashKey([], 0)
    ensures OnTrack(MissTables(a), map[a.key := a], MissProgress(a))
  {
    hide Coming, MissTables, Bucket;
    MissComing(a);
    assert MissTables(a).tbl2 != [];
    assert MissProgress(a).visited + [] == [a];
  }

  lemma MissPlaced(a: DictEntry)
    requires a.key == HashKey([], 0)
    ensures Placed(MissTables(a), map[a.key := a])
  {
    var t := MissTables(a);
    assert Moved(t, a.key) && Bucket(t, a.key) == 0;
  }

  /** A resize from three buckets to seven is under way, the first of the three has been moved, and an iteration has
      returned `a` from the second table. An entry that goes to the first table now is never returned. */
  lemma InsertMissed(a: DictEntry, e: DictEntry)
    requires a.key == HashKey([], 0) && e.key == HashKey([], 1)
    ensures var t, m, p := MissTables(a), map[a.key := a], MissProgress(a);
            && Placed(t, m) && OnTrack(t, m, p) && !SafeInsert(t, p, e.key)
            && var t', p' := Appended(t, e), AfterInsert(t, p, e); Located(t', p') && Coming(t', p') == []
  {
    MissTracked(a);
    MissPlaced(a);
    hide Placed, OnTrack;
    FlatEmpty(MissTables(a).tbl2[1..]);
    assert Tail([a], 1) == [];
  }

  ghost function SkipTables(a: DictEntry, b: DictEntry): Tables {
    Tables([[], [], []], [[], [a, b], [], [], [], [], []], 1)
  }

  ghost function SkipProgress(a: DictEntry, b: DictEntry): Progress {
    Progress(true, 1, 1, [], [a], {a, b}, {})
  }

  lemma SkipHomes(a: DictEntry, b: DictEntry)
    requires a.key == HashKey([], 15) && b.key == HashKey([], 36)
    ensures var t := SkipTables(a, b);
            && Moved(t, a.key) && Moved(t, b.key) && Bucket(t, a.key) == 1 && Bucket(t, b.key) == 1
            && ChainOf(t, a.key) == [a, b] && ChainOf(t, b.key) == [a, b] && a.key.hash % 3 == 0
  {
  }

  lemma SkipPlaced(a: DictEntry, b: DictEntry)
    requires a.key == HashKey([], 15) && b.key == HashKey([], 36)
    ensures Placed(SkipTables(a, b), map[a.key := a, b.key := b])
  {
    SkipHomes(a, b);
    var t, m := SkipTables(a, b), map[a.key := a, b.key := b];
    hide Moved, Bucket, ChainOf;
    assert ChainOk(t, m, true, 1, [a, b]);
  }

  lemma SkipTracked(a: DictEntry, b: DictEntry)
    requires a.key == HashKey([], 15) && b.key == HashKey([], 36)
    ensures OnTrack(SkipTables(a, b), map[a.key := a, b.key := b], SkipProgress(a, b))
  {
    var t, p := SkipTables(a, b), SkipProgress(a, b);
    FlatEmpty(t.tbl2[2..]);
    assert Tail([a, b], 1) == [b] && Coming(t, p) == [b];
    assert p.visited + Coming(t, p) == [a, b];
  }

  /** In such a state an iteration has returned `a`, the first of two entries of a chain. When `a` is removed, `b` is
      never returned. */
  lemma RemoveSkips(a: DictEntry, b: DictEntry)
    requires a.key == HashKey([], 15) && b.key == HashKey([], 36)
    ensures var t, p, m := SkipTables(a, b), SkipProgress(a, b), map[a.key := a, b.key := b];
            && Placed(t, m) && OnTrack(t, m, p) && !SafeToRemove(t, p, a) && ChainOf(t, a.key) == [a, b]
            && var t', p' := Cut(t, a.key, 0), AfterRemove(p, a.key.hash % 3, 0, a);
               Located(t', p') && Coming(t', p') == []
  {
    SkipPlaced(a, b);
    SkipTracked(a, b);
    SkipHomes(a, b);
    hide Placed, OnTrack, Moved, Bucket, ChainOf;
    var t, p := SkipTables(a, b), SkipProgress(a, b);
    assert ChainOf(t, a.key)[0] == a && !SafeRemove(t, p, a.key, 0, a);
    SkipAfter(a, b);
  }

  lemma SkipAfter(a: DictEntry, b: DictEntry)
    requires a.key == HashKey([], 15) && b.key == HashKey([], 36)
    ensures ChainOf(SkipTables(a, b), a.key) == [a, b]
    ensures var t', p' := Cut(SkipTables(a, b), a.key, 0), AfterRemove(SkipProgress(a, b), a.key.hash % 3, 0, a);
            Located(t', p') && Coming(t', p') == []
  {
    assert RemoveAt([a, b], 0) == [b];
    var t', p' := Cut(SkipTables(a, b), a.key, 0), AfterRemove(SkipProgress(a, b), a.key.hash % 3, 0, a);
    assert t'.tbl2[1] == [b] && Tail([b], 1) == [];
    FlatEmpty(t'.tbl2[2..]);
  }
}
