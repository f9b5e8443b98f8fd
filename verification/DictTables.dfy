/** Where the chained hash table of src/Dict.cc keeps its entries: one table, or two while it grows. */
module DictTables {

  /** A key together with the hash its caller supplies; the table compares both. */
  datatype HashKey = HashKey(bytes: seq<int>, hash: nat)

  const NULL := 0

  class DictEntry {
    const key: HashKey
    var value: int

    constructor (k: HashKey, v: int)
      ensures key == k && value == v
    {
      key, value := k, v;
    }
  }

  type Chain = seq<DictEntry>

  predicate NoRepeats<T(==)>(s: seq<T>) {
    forall i, j :: 0 <= i < j < |s| ==> s[i] != s[j]
  }

  /** The bucket arrays: `tbl2` is empty unless a resize is in progress, and `next` is the first bucket of
      `tbl` that has not been moved yet. */
  datatype Tables = Tables(tbl: seq<Chain>, tbl2: seq<Chain>, next: nat)

  ghost predicate Shaped(t: Tables) {
    |t.tbl| > 0 && (t.tbl2 != [] ==> t.next <= |t.tbl|)
  }

  /** Whether a key lives in the second table. */
  predicate Moved(t: Tables, k: HashKey)
    requires |t.tbl| > 0
  {
    t.tbl2 != [] && k.hash % |t.tbl| < t.next
  }

  /** The bucket of a key, in the table where it lives. */
  function Bucket(t: Tables, k: HashKey): (b: nat)
    requires |t.tbl| > 0
    ensures b < if Moved(t, k) then |t.tbl2| else |t.tbl|
  {
    if Moved(t, k) then k.hash % |t.tbl2| else k.hash % |t.tbl|
  }

  function ChainOf(t: Tables, k: HashKey): Chain
    requires |t.tbl| > 0
  {
    if Moved(t, k) then t.tbl2[Bucket(t, k)] else t.tbl[Bucket(t, k)]
  }

  function WithChain(t: Tables, k: HashKey, c: Chain): Tables
    requires |t.tbl| > 0
  {
    if Moved(t, k) then t.(tbl2 := t.tbl2[Bucket(t, k) := c]) else t.(tbl := t.tbl[Bucket(t, k) := c])
  }

  /** The entries of one chain all belong there, once each, and are the entries of their keys. */
  ghost predicate ChainOk(t: Tables, m: map<HashKey, DictEntry>, second: bool, b: nat, c: Chain)
    requires |t.tbl| > 0
  {
    && NoRepeats(c)
    && forall i :: 0 <= i < |c| ==>
         Moved(t, c[i].key) == second && Bucket(t, c[i].key) == b && c[i].key in m && m[c[i].key] == c[i]
  }

  /** `m` gives the entry of every key present, and each sits in exactly the table and bucket of its key. */
  ghost predicate Placed(t: Tables, m: map<HashKey, DictEntry>) {
    && Shaped(t)
    && (forall k :: k in m ==> m[k].key == k && m[k] in ChainOf(t, k))
    && (forall b :: 0 <= b < |t.tbl| ==> ChainOk(t, m, false, b, t.tbl[b]))
    && (forall b :: 0 <= b < |t.tbl2| ==> ChainOk(t, m, true, b, t.tbl2[b]))
  }

  lemma ChainOfOk(t: Tables, m: map<HashKey, DictEntry>, k: HashKey)
    requires Placed(t, m)
    ensures ChainOk(t, m, Moved(t, k), Bucket(t, k), ChainOf(t, k))
    ensures k in m <==> exists i :: 0 <= i < |ChainOf(t, k)| && ChainOf(t, k)[i].key == k
  {
    if k in m {
      var i :| 0 <= i < |ChainOf(t, k)| && ChainOf(t, k)[i] == m[k];
    }
  }

  /** Replacing the chain of `k` moves no key. */
  lemma SameHomes(t: Tables, k: HashKey, c: Chain, k': HashKey)
    requires |t.tbl| > 0
    ensures |WithChain(t, k, c).tbl| == |t.tbl| && |WithChain(t, k, c).tbl2| == |t.tbl2|
    ensures Moved(WithChain(t, k, c), k') == Moved(t, k') && Bucket(WithChain(t, k, c), k') == Bucket(t, k')
    ensures ChainOf(WithChain(t, k, c), k') ==
            if Moved(t, k') == Moved(t, k) && Bucket(t, k') == Bucket(t, k) then c else ChainOf(t, k')
  {
  }

  lemma ChainOkKept(t: Tables, m: map<HashKey, DictEntry>, k: HashKey, c: Chain, m': map<HashKey, DictEntry>,
                    second: bool, b: nat, d: Chain)
    requires |t.tbl| > 0 && ChainOk(t, m, second, b, d)
    requires Moved(t, k) != second || Bucket(t, k) != b
    requires forall x :: x in m && x != k ==> x in m' && m'[x] == m[x]
    ensures ChainOk(WithChain(t, k, c), m', second, b, d)
  {
    forall i | 0 <= i < |d|
      ensures Moved(WithChain(t, k, c), d[i].key) == second && Bucket(WithChain(t, k, c), d[i].key) == b
      ensures d[i].key in m' && m'[d[i].key] == d[i]
    {
      SameHomes(t, k, c, d[i].key);
    }
  }

  /** Replacing the chain of one key, and its entry in the map, keeps everything placed. */
  lemma PlacedUpdate(t: Tables, m: map<HashKey, DictEntry>, k: HashKey, c: Chain, m': map<HashKey, DictEntry>)
    requires Placed(t, m)
    requires forall x :: x != k ==> (x in m <==> x in m') && (x in m ==> m'[x] == m[x])
    requires ChainOk(t, m', Moved(t, k), Bucket(t, k), c)
    requires forall e :: e in ChainOf(t, k) && e.key != k ==> e in c
    requires k in m' ==> m'[k].key == k && m'[k] in c
    ensures Placed(WithChain(t, k, c), m')
  {
    var t' := WithChain(t, k, c);
    SameHomes(t, k, c, k);
    forall x | x in m'
      ensures m'[x].key == x && m'[x] in ChainOf(t', x)
    {
      SameHomes(t, k, c, x);
    }
    forall b | 0 <= b < |t'.tbl|
      ensures ChainOk(t', m', false, b, t'.tbl[b])
    {
      PlacedChain(t, m, k, c, m', false, b);
    }
    forall b | 0 <= b < |t'.tbl2|
      ensures ChainOk(t', m', true, b, t'.tbl2[b])
    {
      PlacedChain(t, m, k, c, m', true, b);
    }
  }

  lemma PlacedChain(t: Tables, m: map<HashKey, DictEntry>, k: HashKey, c: Chain, m': map<HashKey, DictEntry>,
                    second: bool, b: nat)
    requires Placed(t, m) && ChainOk(t, m', Moved(t, k), Bucket(t, k), c)
    requires forall x :: x != k ==> (x in m <==> x in m') && (x in m ==> m'[x] == m[x])
    requires b < if second then |t.tbl2| else |t.tbl|
    ensures var t' := WithChain(t, k, c);
            |t'.tbl| == |t.tbl| && |t'.tbl2| == |t.tbl2|
              && ChainOk(t', m', second, b, if second then t'.tbl2[b] else t'.tbl[b])
  {
    if Moved(t, k) == second && Bucket(t, k) == b {
      forall i | 0 <= i < |c|
        ensures Moved(WithChain(t, k, c), c[i].key) == second && Bucket(WithChain(t, k, c), c[i].key) == b
      {
        SameHomes(t, k, c, c[i].key);
      }
    } else {
      ChainOkKept(t, m, k, c, m', second, b, if second then t.tbl2[b] else t.tbl[b]);
    }
  }

  function RemoveAt(s: Chain, i: nat): Chain
    requires i < |s|
  {
    s[..i] + s[i + 1..]
  }

  lemma RemovedAt(s: Chain, i: nat)
    requires i < |s| && NoRepeats(s)
    ensures NoRepeats(RemoveAt(s, i)) && |RemoveAt(s, i)| == |s| - 1
    ensures forall x :: x in RemoveAt(s, i) ==> x in s && x != s[i]
    ensures forall x :: x in s && x != s[i] ==> x in RemoveAt(s, i)
  {
    var r := RemoveAt(s, i);
    assert forall j :: 0 <= j < |r| ==> r[j] == if j < i then s[j] else s[j + 1];
    forall x | x in s && x != s[i]
      ensures x in r
    {
      var j :| 0 <= j < |s| && s[j] == x;
      assert x == if j < i then r[j] else r[j - 1];
    }
  }

  lemma PlacedInsert(t: Tables, m: map<HashKey, DictEntry>, e: DictEntry)
    requires Placed(t, m) && e.key !in m
    ensures Placed(WithChain(t, e.key, ChainOf(t, e.key) + [e]), m[e.key := e])
  {
    ChainOfOk(t, m, e.key);
    PlacedUpdate(t, m, e.key, ChainOf(t, e.key) + [e], m[e.key := e]);
  }

  lemma PlacedRemove(t: Tables, m: map<HashKey, DictEntry>, k: HashKey, i: nat)
    requires Placed(t, m) && i < |ChainOf(t, k)| && ChainOf(t, k)[i].key == k
    ensures k in m && m[k] == ChainOf(t, k)[i]
    ensures Placed(WithChain(t, k, RemoveAt(ChainOf(t, k), i)), m - {k})
  {
    var c := ChainOf(t, k);
    ChainOfOk(t, m, k);
    RemovedAt(c, i);
    var r := RemoveAt(c, i);
    forall j | 0 <= j < |r|
      ensures r[j] in c && r[j] != c[i]
    {
      assert r[j] in r;
    }
    forall e | e in c && e.key != k
      ensures e in r
    {
    }
    PlacedUpdate(t, m, k, r, m - {k});
  }

  /** The number of entries in a table. */
  ghost function Total(tbl: seq<Chain>): nat {
    if tbl == [] then 0 else Total(tbl[..|tbl| - 1]) + |tbl[|tbl| - 1]|
  }

  lemma {:induction false} TotalUpdate(tbl: seq<Chain>, b: nat, c: Chain)
    requires b < |tbl|
    ensures Total(tbl[b := c]) == Total(tbl) - |tbl[b]| + |c|
    decreases |tbl|
  {
    var n := |tbl| - 1;
    if b == n {
      assert tbl[b := c][..n] == tbl[..n];
    } else {
      TotalUpdate(tbl[..n], b, c);
      assert tbl[b := c][..n] == tbl[..n][b := c];
    }
  }

  lemma {:induction false} TotalEmpty(tbl: seq<Chain>)
    requires forall b :: 0 <= b < |tbl| ==> tbl[b] == []
    ensures Total(tbl) == 0
    decreases |tbl|
  {
    if tbl != [] {
      TotalEmpty(tbl[..|tbl| - 1]);
    }
  }

  ghost predicate Live(m: map<HashKey, DictEntry>, e: DictEntry) {
    e.key in m && m[e.key] == e
  }

  /** `BaseList::remove`: takes out the first occurrence, if there is one. */
  function RemoveItem<T(==)>(s: seq<T>, x: T): seq<T> {
    if s == [] then [] else if s[0] == x then s[1..] else [s[0]] + RemoveItem(s[1..], x)
  }

  lemma {:induction false} RemovedItem<T>(s: seq<T>, x: T)
    requires NoRepeats(s)
    ensures NoRepeats(RemoveItem(s, x)) && (forall y :: y in RemoveItem(s, x) ==> y in s && y != x)
    ensures forall y :: y in s && y != x ==> y in RemoveItem(s, x)
    ensures |RemoveItem(s, x)| == if x in s then |s| - 1 else |s|
    decreases |s|
  {
    if s != [] {
      RemovedItem(s[1..], x);
      assert s == [s[0]] + s[1..];
      assert s[0] !in s[1..];
      var r := RemoveItem(s, x);
      if s[0] != x {
        var r' := RemoveItem(s[1..], x);
        forall i, j | 0 <= i < j < |r|
          ensures r[i] != r[j]
        {
          assert r[j] == r'[j - 1] && r[j] in r';
        }
      }
    }
  }

  lemma LiveRemove(m: map<HashKey, DictEntry>, e: DictEntry)
    requires Live(m, e) && forall k :: k in m ==> m[k].key == k
    ensures forall x: DictEntry :: Live(m - {e.key}, x) <==> Live(m, x) && x != e
  {
  }

  lemma SizeRemove(m: map<HashKey, DictEntry>, k: HashKey)
    requires k in m
    ensures |m| == |m - {k}| + 1
  {
    assert m == (m - {k})[k := m[k]];
  }

  // ----- resizing -----

  /** The order list holds every entry once. */
  ghost predicate OrderOk(order: Chain, m: map<HashKey, DictEntry>) {
    && NoRepeats(order) && |order| == |m|
    && (forall e :: e in order ==> Live(m, e)) && (forall k :: k in m ==> m[k] in order)
  }

  /** The keys left once bucket `b` of the first table has been emptied. */
  ghost function WithoutBucket(n: nat, b: nat, m: map<HashKey, DictEntry>): map<HashKey, DictEntry>
    requires n > 0
  {
    map k | k in m && k.hash % n != b :: m[k]
  }

  /** The tables just after the next bucket has been taken out for moving. */
  ghost function Emptied(t: Tables): Tables
    requires t.next < |t.tbl|
  {
    t.(tbl := t.tbl[t.next := []], next := t.next + 1)
  }

  lemma EmptiedHomes(t: Tables, k: HashKey)
    requires t.next < |t.tbl| && t.tbl2 != [] && k.hash % |t.tbl| != t.next
    ensures Moved(Emptied(t), k) == Moved(t, k) && Bucket(Emptied(t), k) == Bucket(t, k)
    ensures ChainOf(Emptied(t), k) == ChainOf(t, k)
  {
  }

  lemma EmptiedChain(t: Tables, m: map<HashKey, DictEntry>, second: bool, b: nat, c: Chain)
    requires t.next < |t.tbl| && t.tbl2 != [] && ChainOk(t, m, second, b, c) && (second || b != t.next)
    ensures ChainOk(Emptied(t), WithoutBucket(|t.tbl|, t.next, m), second, b, c)
  {
    forall i | 0 <= i < |c|
      ensures c[i].key.hash % |t.tbl| != t.next
      ensures Moved(Emptied(t), c[i].key) == second && Bucket(Emptied(t), c[i].key) == b
    {
      EmptiedHomes(t, c[i].key);
    }
  }

  lemma PlacedEmptied(t: Tables, m: map<HashKey, DictEntry>)
    requires Placed(t, m) && t.tbl2 != [] && t.next < |t.tbl|
    ensures Placed(Emptied(t), WithoutBucket(|t.tbl|, t.next, m))
  {
    var t', m' := Emptied(t), WithoutBucket(|t.tbl|, t.next, m);
    forall k | k in m'
      ensures m'[k].key == k && m'[k] in ChainOf(t', k)
    {
      EmptiedHomes(t, k);
    }
    forall b | 0 <= b < |t'.tbl|
      ensures ChainOk(t', m', false, b, t'.tbl[b])
    {
      if b != t.next {
        EmptiedChain(t, m, false, b, t.tbl[b]);
      }
    }
    forall b | 0 <= b < |t'.tbl2|
      ensures ChainOk(t', m', true, b, t'.tbl2[b])
    {
      EmptiedChain(t, m, true, b, t.tbl2[b]);
    }
  }

  /** The keys of bucket `b` that the first `j` entries of its chain bring back. */
  ghost function Restored(n: nat, b: nat, m: map<HashKey, DictEntry>, c: Chain): map<HashKey, DictEntry>
    requires n > 0
  {
    map k | k in m && (k.hash % n != b || m[k] in c) :: m[k]
  }

  lemma {:induction false} ChainSize(t: Tables, m: map<HashKey, DictEntry>, c: Chain)
    requires |t.tbl| > 0 && NoRepeats(c) && forall k :: k in m ==> m[k].key == k
    requires forall i :: 0 <= i < |c| ==> Live(m, c[i]) && c[i].key.hash % |t.tbl| == t.next
    ensures |Restored(|t.tbl|, t.next, m, c)| == |WithoutBucket(|t.tbl|, t.next, m)| + |c|
    decreases |c|
  {
    var n := |c| - 1;
    if c == [] {
      assert Restored(|t.tbl|, t.next, m, c) == WithoutBucket(|t.tbl|, t.next, m);
    } else {
      ChainSize(t, m, c[..n]);
      RestoredSnoc(|t.tbl|, t.next, m, c, n);
    }
  }

  lemma RestoredSnoc(n: nat, b: nat, m: map<HashKey, DictEntry>, c: Chain, j: nat)
    requires n > 0 && j < |c| && NoRepeats(c) && Live(m, c[j]) && c[j].key.hash % n == b
    requires forall k :: k in m ==> m[k].key == k
    ensures c[j].key !in Restored(n, b, m, c[..j])
    ensures Restored(n, b, m, c[..j + 1]) == Restored(n, b, m, c[..j])[c[j].key := c[j]]
    ensures j + 1 == |c| ==> c[..j + 1] == c
  {
    assert c[..j + 1] == c[..j] + [c[j]];
    assert c[j] !in c[..j];
  }

  lemma RestoredAll(t: Tables, m: map<HashKey, DictEntry>)
    requires Placed(t, m) && t.next < |t.tbl|
    ensures Restored(|t.tbl|, t.next, m, t.tbl[t.next]) == m
  {
    forall k | k in m
      ensures k.hash % |t.tbl| != t.next || m[k] in t.tbl[t.next]
    {
    }
  }

  lemma TakeOut(t: Tables, m: map<HashKey, DictEntry>)
    requires Placed(t, m) && t.tbl2 != [] && t.next < |t.tbl|
    ensures var chain := t.tbl[t.next];
            var m' := Restored(|t.tbl|, t.next, m, []);
            && Placed(Emptied(t), m') && |m| == |m'| + |chain| && Total(t.tbl) == Total(Emptied(t).tbl) + |chain|
            && NoRepeats(chain) && (forall k :: k in m ==> m[k].key == k)
            && (forall i :: 0 <= i < |chain| ==> Live(m, chain[i]) && chain[i].key.hash % |t.tbl| == t.next)
  {
    var chain := t.tbl[t.next];
    PlacedEmptied(t, m);
    assert WithoutBucket(|t.tbl|, t.next, m) == Restored(|t.tbl|, t.next, m, []);
    TotalUpdate(t.tbl, t.next, []);
    assert ChainOk(t, m, false, t.next, chain);
    ChainSize(t, m, chain);
    RestoredAll(t, m);
  }

  lemma PlacedStart(tbl: seq<Chain>, m: map<HashKey, DictEntry>, next: nat, tbl2: seq<Chain>)
    requires Placed(Tables(tbl, [], next), m) && tbl2 != [] && forall b :: 0 <= b < |tbl2| ==> tbl2[b] == []
    ensures Placed(Tables(tbl, tbl2, 0), m)
  {
    hide ChainOk, Moved, Bucket;
    var t, t' := Tables(tbl, [], next), Tables(tbl, tbl2, 0);
    forall k | k in m
      ensures ChainOf(t', k) == ChainOf(t, k)
    {
      NotMoved(t, t', k);
    }
    forall b | 0 <= b < |tbl|
      ensures ChainOk(t', m, false, b, tbl[b])
    {
      NothingMoved(t, t', m, b, tbl[b]);
    }
    forall b | 0 <= b < |tbl2|
      ensures ChainOk(t', m, true, b, tbl2[b])
    {
      NothingThere(t', m, b);
    }
  }

  lemma NotMoved(t: Tables, t': Tables, k: HashKey)
    requires t.tbl == t'.tbl && |t.tbl| > 0 && t.tbl2 == [] && t'.next == 0
    ensures ChainOf(t', k) == ChainOf(t, k)
  {
  }

  lemma NothingThere(t: Tables, m: map<HashKey, DictEntry>, b: nat)
    requires |t.tbl| > 0
    ensures ChainOk(t, m, true, b, [])
  {
  }

  lemma NothingMoved(t: Tables, t': Tables, m: map<HashKey, DictEntry>, b: nat, c: Chain)
    requires |t.tbl| == |t'.tbl| > 0 && t.tbl2 == [] && t'.next == 0 && ChainOk(t, m, false, b, c)
    ensures ChainOk(t', m, false, b, c)
  {
    forall i | 0 <= i < |c|
      ensures !Moved(t', c[i].key) && Bucket(t', c[i].key) == b
    {
    }
  }

  lemma PlacedFinish(t: Tables, m: map<HashKey, DictEntry>)
    requires Placed(t, m) && t.tbl2 != [] && t.next == |t.tbl|
    ensures forall b :: 0 <= b < |t.tbl| ==> t.tbl[b] == []
    ensures Placed(Tables(t.tbl2, [], t.next), m)
  {
    forall b | 0 <= b < |t.tbl|
      ensures t.tbl[b] == []
    {
      var c := t.tbl[b];
      assert |c| > 0 ==> Moved(t, c[0].key);
      assert ChainOk(t, m, false, b, c);
    }
    forall b | 0 <= b < |t.tbl2|
      ensures ChainOk(Tables(t.tbl2, [], t.next), m, false, b, t.tbl2[b])
    {
      assert ChainOk(t, m, true, b, t.tbl2[b]);
    }
  }

  /** The keys of a list of entries. */
  function KeysOf(c: Chain): (r: seq<HashKey>)
    ensures |r| == |c| && forall i :: 0 <= i < |c| ==> r[i] == c[i].key
  {
    seq(|c|, i requires 0 <= i < |c| => c[i].key)
  }

  lemma OrderInsert(order: Chain, m: map<HashKey, DictEntry>, e: DictEntry)
    requires OrderOk(order, m) && e.key !in m
    ensures OrderOk(order + [e], m[e.key := e])
  {
    assert forall x :: x in order ==> x.key in m;
  }

  lemma OrderRemove(order: Chain, m: map<HashKey, DictEntry>, e: DictEntry)
    requires OrderOk(order, m) && Live(m, e) && forall k :: k in m ==> m[k].key == k
    ensures OrderOk(RemoveItem(order, e), m - {e.key})
  {
    RemovedItem(order, e);
    LiveRemove(m, e);
    assert m[e.key] in order;
    SizeRemove(m, e.key);
  }

  /** In an order list, removing the entry of a key removes that key and no other. */
  lemma KeysRemoved(order: Chain, m: map<HashKey, DictEntry>, k: HashKey)
    requires OrderOk(order, m) && forall x :: x in m ==> m[x].key == x
    ensures k in m ==> KeysOf(RemoveItem(order, m[k])) == RemoveItem(KeysOf(order), k)
    ensures k !in m ==> KeysOf(order) == RemoveItem(KeysOf(order), k)
  {
    forall i | 0 <= i < |order|
      ensures order[i].key in m && order[i] == m[order[i].key]
    {
      assert order[i] in order;
    }
    KeysTaken(order, m, k);
  }

  lemma {:induction false} KeysTaken(c: Chain, m: map<HashKey, DictEntry>, k: HashKey)
    requires forall i :: 0 <= i < |c| ==> c[i].key in m && c[i] == m[c[i].key]
    ensures k in m && m[k].key == k ==> KeysOf(RemoveItem(c, m[k])) == RemoveItem(KeysOf(c), k)
    ensures k !in m ==> KeysOf(c) == RemoveItem(KeysOf(c), k)
    decreases |c|
  {
    if c != [] {
      KeysTaken(c[1..], m, k);
      assert KeysOf(c)[1..] == KeysOf(c[1..]);
    }
  }

  method EmptyTable(n: nat) returns (t: seq<Chain>)
    ensures |t| == n && forall b :: 0 <= b < n ==> t[b] == []
  {
    t := seq(n, _ => []);
  }

  // ----- table sizes -----

  lemma SquareMonotone(i: nat, j: nat)
    requires i <= j
    ensures i * i <= j * j
  {
    assert j * j - i * i == (j - i) * (j + i);
  }

  /** No odd or even number from 3 up to the root of `n` divides it. */
  ghost predicate Indivisible(n: nat) {
    forall j: nat :: 3 <= j && j * j <= n ==> n % j != 0
  }

  /** `IsPrime`: trial division from 3 on, meant for odd numbers. */
  method IsPrime(n: nat) returns (b: bool)
    ensures b <==> Indivisible(n)
  {
    var j := 3;
    while j * j <= n
      invariant 3 <= j && forall i: nat :: 3 <= i < j ==> n % i != 0
      decreases n + 1 - j
    {
      if n % j == 0 {
        return false;
      }
      j := j + 1;
    }
    forall i: nat | 3 <= i && i * i <= n
      ensures n % i != 0
    {
      if i >= j {
        SquareMonotone(j, i);
      }
    }
    b := true;
  }

  const PRIME_THRESH := 1000

  ghost predicate NoneDivides(n: nat, lo: nat, hi: nat)
    requires 0 < lo
    decreases hi - lo
  {
    lo >= hi || (n % lo != 0 && NoneDivides(n, lo + 1, hi))
  }

  lemma {:induction false} NotDivided(n: nat, lo: nat, hi: nat, j: nat)
    requires 0 < lo <= j < hi && NoneDivides(n, lo, hi)
    ensures n % j != 0
    decreases j - lo
  {
    if lo < j {
      NotDivided(n, lo + 1, hi, j);
    }
  }

  lemma LargestNeeded()
    ensures Indivisible(1009)
  {
    assert NoneDivides(1009, 3, 13) && NoneDivides(1009, 13, 23) && NoneDivides(1009, 23, 32);
    hide NoneDivides;
    forall j: nat | 3 <= j && j * j <= 1009
      ensures 1009 % j != 0
    {
      if j >= 32 {
        SquareMonotone(32, j);
      } else {
        var lo := if j < 13 then 3 else if j < 23 then 13 else 23;
        NotDivided(1009, lo, if lo == 23 then 32 else lo + 10, j);
      }
    }
  }

  ghost function NextOdd(n: nat): nat {
    if n % 2 == 0 then n + 1 else n
  }

  /** The next odd number that trial division cannot split, or just the next odd number beyond the threshold. */
  ghost predicate IsNextPrime(n: nat, p: nat) {
    && n <= p && p % 2 == 1
    && if NextOdd(n) > PRIME_THRESH then p == NextOdd(n)
       else Indivisible(p) && forall q :: n <= q < p && q % 2 == 1 ==> !Indivisible(q)
  }

  /** `NextPrime`. */
  method NextPrime(n: nat) returns (p: nat)
    ensures IsNextPrime(n, p)
  {
    hide Indivisible;
    p := if n % 2 == 0 then n + 1 else n;
    if p > PRIME_THRESH {
      return;
    }
    LargestNeeded();
    var prime := IsPrime(p);
    while !prime
      invariant n <= p <= 1009 && p % 2 == 1 && (prime <==> Indivisible(p))
      invariant forall q :: n <= q < p && q % 2 == 1 ==> !Indivisible(q)
      decreases 1009 - p, !prime
    {
      p := p + 2;
      prime := IsPrime(p);
    }
  }
}
