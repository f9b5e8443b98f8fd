/** Two runs of the dictionary of src/Dict.cc, from its constructor on, in which a robust iteration goes wrong while
    there are two tables. */
module DictReplays {
  import opened DictTables
  import opened DictIteration
  import opened Dictionaries
  import DictRuns

  /** All keys have the hash `v`, which belongs to the first bucket. */
  ghost predicate Crowded(t: Tables, m: map<HashKey, DictEntry>, v: nat) {
    Placed(t, m) && v % |t.tbl| == 0 && forall k :: k in m ==> k.hash == v
  }

  lemma AtHome(t: Tables, m: map<HashKey, DictEntry>, v: nat, second: bool, b: nat)
    requires Crowded(t, m, v) && b < |Table(t, second)| && Table(t, second)[b] != []
    ensures second == (t.tbl2 != [] && t.next > 0) && b == v % |Table(t, second)|
  {
    HereOk(t, m, second, b);
    var e := Table(t, second)[b][0];
    assert Moved(t, e.key) == second && Bucket(t, e.key) == b;
  }

  /** As long as no chain has been moved they are all in that bucket. */
  lemma AllInFirst(t: Tables, m: map<HashKey, DictEntry>, v: nat)
    requires Crowded(t, m, v) && t.next == 0
    ensures Total(t.tbl) == |t.tbl[0]| && Total(t.tbl2) == 0
  {
    var others := t.tbl[0 := []];
    forall b | 0 <= b < |t.tbl|
      ensures others[b] == []
    {
      if t.tbl[b] != [] {
        AtHome(t, m, v, false, b);
      }
    }
    TotalUpdate(t.tbl, 0, []);
    TotalEmpty(others);
    forall b | 0 <= b < |t.tbl2|
      ensures t.tbl2[b] == []
    {
      if t.tbl2[b] != [] {
        AtHome(t, m, v, true, b);
      }
    }
    TotalEmpty(t.tbl2);
  }

  lemma FirstChain(d: Dictionary, v: nat)
    requires d.Valid() && d.tblNextInd == 0 && v % |d.tbl| == 0 && forall k :: k in d.entryOf ==> k.hash == v
    ensures |d.tbl| > 0 && |d.tbl[0]| == |d.entryOf|
  {
    hide Placed;
    d.CoreFacts(0);
    AllInFirst(d.T(), d.entryOf, v);
  }

  /** Fills a new dictionary with keys of one hash until the chain they make up is moved to a second table. */
  method Crowd(d: Dictionary, v: nat)
    requires d.Valid() && d.entryOf == map[] && d.cookies == [] && d.tbl2 == [] && |d.tbl| >= 3 && v % |d.tbl| == 0
    modifies d
    ensures d.Valid() && d.NonNull() && d.cookies == [] && |d.tbl| == |old(d.tbl)|
    ensures |d.tbl2| > 2 * |d.tbl| && d.tblNextInd == 1
    ensures |d.entryOf| >= 2 && forall k :: k in d.entryOf ==> k.hash == v && fresh(d.entryOf[k])
  {
    hide Dictionary.Valid;
    var n := 3 * |d.tbl|;
    for i := 0 to n
      invariant d.Valid() && d.NonNull() && d.cookies == [] && |d.tbl| == |old(d.tbl)| && |d.entryOf| == i
      invariant forall k :: k in d.entryOf ==> k.hash == v && |k.bytes| < i && fresh(d.entryOf[k])
      invariant if i < n then d.tbl2 == [] else |d.tbl2| > 2 * |d.tbl| && d.tblNextInd == 0
    {
      var _ := d.Insert(HashKey(seq(i, _ => 0), v), 1);
    }
    FirstChain(d, v);
    var _ := d.Insert(HashKey(seq(n, _ => 0), v), 1);
  }

  /** Once it has been moved, an iteration that has returned an entry stands in the second table. */
  lemma StandsInSecond(t: Tables, m: map<HashKey, DictEntry>, v: nat, p: Progress, e: DictEntry)
    requires Crowded(t, m, v) && t.tbl2 != [] && t.next == 1 && Past(t, p, e)
    ensures p.second && p.bucket == v % |t.tbl2| && Live(m, e) && ChainOf(t, e.key) == t.tbl2[p.bucket]
    ensures NoRepeats(t.tbl2[p.bucket])
  {
    hide Placed;
    assert |t.tbl| > 0;
    HereOk(t, m, p.second, p.bucket);
  }

  /** An entry that goes to the first table, not before the bucket where the iteration stands in the second one. */
  lemma Overlooked(t: Tables, p: Progress, e: DictEntry)
    requires Located(t, p) && p.second && !Moved(t, e.key) && p.bucket <= Bucket(t, e.key)
    ensures Located(Appended(t, e), AfterInsert(t, p, e))
    ensures Coming(Appended(t, e), AfterInsert(t, p, e)) == Coming(t, p)
  {
    hide Flat, Tail, Backward;
  }

  /** A dictionary is filled, a robust iteration starts, and it has returned its first entry. */
  method Begin(spread: bool) returns (d: Dictionary, c: IterCookie, e: DictEntry, v: nat)
    ensures fresh(d) && fresh(c) && (forall k :: k in d.entryOf ==> fresh(d.entryOf[k]))
    ensures d.Valid() && d.NonNull() && d.cookies == [c] && CookieOk(d.T(), d.entryOf, c)
    ensures Crowded(d.T(), d.entryOf, v) && |d.entryOf| >= 2
    ensures v == (if spread then |d.tbl| else 0) && 3 <= |d.tbl| && 2 * |d.tbl| < |d.tbl2| && d.tblNextInd == 1
    ensures c.clean && Past(d.T(), c.View(), e) && c.inserted == [] && c.visited == [e]
    ensures c.all == d.Entries() && c.lost == {}
  {
    hide Dictionary.Valid, Placed, OnTrack, Coming, Past;
    d := new Dictionary(false, 3);
    v := if spread then |d.tbl| else 0;
    Crowd(d, v);
    c := d.InitForIteration();
    d.MakeRobustCookie(c);
    d.OrderFacts(HashKey([], 0));
    var e' := d.NextEntry(c);
    e := e';
  }

  lemma FirstOrLater(t: Tables, k: HashKey)
    requires |t.tbl| >= 3 && t.next == 1 && k.hash == 1
    ensures !Moved(t, k) && Bucket(t, k) == 1
  {
  }

  lemma NotAmong(m: map<HashKey, DictEntry>, s: Chain, x: DictEntry)
    requires (forall e :: e in s ==> Live(m, e)) && x.key !in m
    ensures x !in s
  {
  }

  /** The iteration is over and has not returned `x`, which it was to return and which is still there. */
  ghost predicate LeftOut(d: Dictionary, c: IterCookie, x: DictEntry)
    reads d, c
  {
    c !in d.cookies && x in d.Entries() && x in c.all && x !in c.lost && x !in c.visited
  }

  method Finish(d: Dictionary, c: IterCookie, ghost x: DictEntry)
    requires d.Valid() && CookieOk(d.T(), d.entryOf, c)
    requires x in d.Entries() && x in c.all && x !in c.lost && x !in c.visited && x !in Coming(d.T(), c.View())
    modifies d`cookies, c
    ensures d.Valid() && LeftOut(d, c, x)
  {
    hide Dictionary.Valid, CookieOk, Coming;
    var _ := DictRuns.Drain(d, c);
  }

  /** The next insertion goes to the first table. The iteration goes on to its end without returning the new entry. */
  method MissedRun() returns (d: Dictionary, c: IterCookie, ghost x: DictEntry)
    ensures d.Valid() && LeftOut(d, c, x)
  {
    hide Dictionary.Valid, Placed, OnTrack, Coming, Appended, AfterInsert, Past, Moved, Bucket, Live;
    var e, v;
    d, c, e, v := Begin(false);
    ghost var t, m, p := d.T(), d.entryOf, c.View();
    SnapsAre(d.cookies);
    StandsInSecond(t, m, 0, p, e);
    DictRuns.ComingLive(d, c);
    ghost var s := [e] + Coming(t, p);
    var k := HashKey([], 1);
    FirstOrLater(t, k);
    assert k !in m;
    var _ := d.Insert(k, 1);
    x := d.entryOf[k];
    NotAmong(m, s, x);
    assert PutIn(Snap(p, true), c, x, t, d.T());
    Overlooked(t, p, x);
    DictRuns.UnderwayOk(d, c);
    Finish(d, c, x);
  }

  /** In the second table the keys share a bucket that has another number. */
  lemma OnlyChain(t: Tables, m: map<HashKey, DictEntry>, v: nat, b: nat)
    requires Crowded(t, m, v) && t.tbl2 != [] && t.next == 1 && b == v % |t.tbl2|
    ensures Flat(t.tbl2[b + 1..]) == []
  {
    forall i | b < i < |t.tbl2|
      ensures t.tbl2[i] == []
    {
      if t.tbl2[i] != [] {
        AtHome(t, m, v, true, i);
      }
    }
    FlatEmpty(t.tbl2[b + 1..]);
  }

  lemma CountWithin(s: set<HashKey>, k: HashKey)
    requires s <= {k}
    ensures |s| <= 1
  {
    assert s == {} || s == {k};
  }

  lemma AnotherEntry(t: Tables, m: map<HashKey, DictEntry>, e: DictEntry) returns (k: HashKey)
    requires Placed(t, m) && |m| >= 2
    ensures k in m && m[k] != e
  {
    if m.Keys <= {e.key} {
      CountWithin(m.Keys, e.key);
    }
    k :| k in m && k != e.key;
  }

  /** The iteration has returned `e`, and the next entry of the chain is still to come. */
  lemma NextInChain(t: Tables, m: map<HashKey, DictEntry>, v: nat, p: Progress, e: DictEntry)
    requires Crowded(t, m, v) && t.tbl2 != [] && t.next == 1 && |m| >= 2
    requires OnTrack(t, m, p) && Past(t, p, e) && p.inserted == [] && p.visited == [e]
    ensures p.second && p.bucket == v % |t.tbl2| && p.offset < |t.tbl2[p.bucket]|
  {
    hide Placed, Flat, Coming, NoRepeats, Live;
    StandsInSecond(t, m, v, p, e);
    OnlyChain(t, m, v, p.bucket);
    var c := t.tbl2[p.bucket];
    ComingIs(t, p, Tail(c, p.offset));
    var k := AnotherEntry(t, m, e);
    assert m[k] in [e] + Coming(t, p);
  }

  /** If `e` is removed now, that entry moves to where the iteration has already been. */
  lemma Skips(t: Tables, m: map<HashKey, DictEntry>, v: nat, p: Progress, e: DictEntry, i: nat)
    requires Crowded(t, m, v) && t.tbl2 != [] && t.next == 1 && v % |t.tbl2| != 0
    requires Past(t, p, e) && p.inserted == [] && p.second && p.offset < |t.tbl2[p.bucket]|
    requires i < |ChainOf(t, e.key)| && ChainOf(t, e.key)[i] == e
    ensures var x := t.tbl2[p.bucket][p.offset];
            var t', p' := Cut(t, e.key, i), AfterRemove(p, e.key.hash % |t.tbl|, i, e);
            Live(m, x) && x.key != e.key && Located(t', p') && x !in Coming(t', p')
  {
    hide Placed, Flat, Coming;
    StandsInSecond(t, m, v, p, e);
    OnlyChain(t, m, v, p.bucket);
    HereOk(t, m, true, p.bucket);
    var c, o := t.tbl2[p.bucket], p.offset;
    assert i == o - 1;
    var t', p' := Cut(t, e.key, i), AfterRemove(p, e.key.hash % |t.tbl|, i, e);
    assert t'.tbl2 == t.tbl2[p.bucket := RemoveAt(c, i)] && t'.tbl2[p.bucket + 1..] == t.tbl2[p.bucket + 1..];
    assert Tail(RemoveAt(c, i), o) == c[o + 1..];
    ComingIs(t', p', c[o + 1..]);
  }

  lemma SmallMod(a: nat, b: nat)
    requires a < b
    ensures a % b == a
  {
  }

  /** The entry returned is removed. The iteration goes on to its end without returning the next one, which has been
      there all the time. */
  method SkippedRun() returns (d: Dictionary, c: IterCookie, ghost x: DictEntry)
    ensures d.Valid() && LeftOut(d, c, x)
  {
    hide Dictionary.Valid, Placed, Crowded, OnTrack, Coming, Cut, AfterRemove, Past, CookieOk;
    var e, v;
    d, c, e, v := Begin(true);
    ghost var t, m, p := d.T(), d.entryOf, c.View();
    SnapsAre(d.cookies);
    DictRuns.UnderwayOk(d, c);
    StandsInSecond(t, m, v, p, e);
    NextInChain(t, m, v, p, e);
    x := t.tbl2[p.bucket][p.offset];
    var _ := d.Remove(e.key);
    assert Forgotten(Snap(p, true), c, e, t, d.T());
    ghost var i :| TakenOut(Snap(p, true), c, e, i, t, d.T());
    SmallMod(v, |t.tbl2|);
    Skips(t, m, v, p, e, i);
    assert d.entryOf[x.key] == x;
    DictRuns.UnderwayOk(d, c);
    Finish(d, c, x);
  }
}
