/** The dictionary of src/Dict.cc: a chained hash table that grows step by step, keeps an insertion order if
    asked to, and supports iterations that survive changes. */
module Dictionaries {
  import opened DictTables
  import opened DictIteration

  class IterCookie {
    var second: bool
    var bucket: int
    var offset: int
    var inserted: Chain
    // what the iteration has returned, was ever to return, and lost to removal; and whether the dictionary has
    // kept its place for it: with two tables, a change that is not safe spoils the cookie
    ghost var visited: Chain
    ghost var all: set<DictEntry>
    ghost var lost: set<DictEntry>
    ghost var clean: bool

    constructor (ghost entries: set<DictEntry>)
      ensures View() == Progress(false, 0, 0, [], [], entries, {}) && clean
    {
      second, bucket, offset, inserted := false, 0, 0, [];
      visited, all, lost, clean := [], entries, {}, true;
    }

    ghost function View(): Progress
      reads this
    {
      Progress(second, bucket, offset, inserted, visited, all, lost)
    }

    /** An entry has been appended to bucket `h`. */
    method NoteInsert(e: DictEntry, h: nat, ghost t: Tables)
      requires |t.tbl| > 0 && h == Bucket(t, e.key)
      modifies this
      ensures View() == AfterInsert(t, old(View()), e) && clean == (old(clean) && SafeInsert(t, old(View()), e.key))
    {
      clean := clean && SafeInsert(t, View(), e.key);
      if h < bucket {
        inserted := inserted + [e];
      }
      all := all + {e};
    }

    /** Entry `i` of a bucket has been removed; `h` is the bucket of its key in the first table. */
    method NoteRemove(e: DictEntry, h: nat, i: nat, ghost t: Tables)
      requires Located(t, View())
      modifies this
      ensures View() == AfterRemove(old(View()), h, i, e) && clean == (old(clean) && SafeToRemove(t, old(View()), e))
    {
      clean := clean && SafeToRemove(t, View(), e);
      if bucket == h {
        if offset > i {
          offset := offset - 1;
        }
      }
      if bucket > h {
        inserted := RemoveItem(inserted, e);
      }
      lost := if e in visited then lost else lost + {e};
    }
  }

  ghost predicate CookieOk(t: Tables, m: map<HashKey, DictEntry>, c: IterCookie)
    reads c
  {
    Located(t, c.View()) && (c.clean ==> OnTrack(t, m, c.View()))
  }

  /** A cookie at some earlier time. */
  datatype Snap = Snap(p: Progress, clean: bool)

  ghost function SnapsOf(cs: seq<IterCookie>): seq<Snap>
    reads cs
  {
    if cs == [] then [] else SnapsOf(cs[..|cs| - 1]) + [Snap(cs[|cs| - 1].View(), cs[|cs| - 1].clean)]
  }

  lemma {:induction false} SnapsAre(cs: seq<IterCookie>)
    ensures |SnapsOf(cs)| == |cs| && forall i :: 0 <= i < |cs| ==> SnapsOf(cs)[i] == Snap(cs[i].View(), cs[i].clean)
  {
    if cs != [] {
      SnapsAre(cs[..|cs| - 1]);
    }
  }

  /** Where a new entry has left a cookie and the tables. */
  ghost predicate PutIn(b: Snap, c: IterCookie, e: DictEntry, t: Tables, t': Tables)
    requires |t.tbl| > 0
    reads c
  {
    c.View() == AfterInsert(t, b.p, e) && t' == Appended(t, e)
  }

  /** What an insertion has done to a cookie: a new entry joins those it is to return, and spoils it if it is not
      safe. */
  ghost predicate Noted(b: Snap, c: IterCookie, added: set<DictEntry>, t: Tables, t': Tables)
    reads c
  {
    && c.visited == b.p.visited && c.lost == b.p.lost && c.all == b.p.all + added && |t.tbl| > 0
    && c.clean == (b.clean && forall e :: e in added ==> SafeInsert(t, b.p, e.key))
    && forall e :: e in added ==> PutIn(b, c, e, t, t')
  }

  /** Where the removal of entry `i` of a chain has left a cookie and the tables. */
  ghost predicate TakenOut(b: Snap, c: IterCookie, e: DictEntry, i: int, t: Tables, t': Tables)
    requires |t.tbl| > 0
    reads c
  {
    && 0 <= i < |ChainOf(t, e.key)| && ChainOf(t, e.key)[i] == e
    && c.View() == AfterRemove(b.p, e.key.hash % |t.tbl|, i, e) && t' == Cut(t, e.key, i)
  }

  /** What a removal has done to a cookie: an entry it has not returned is lost to it. */
  ghost predicate Forgotten(b: Snap, c: IterCookie, e: DictEntry, t: Tables, t': Tables)
    reads c
  {
    && c.visited == b.p.visited && c.all == b.p.all && Located(t, b.p)
    && c.clean == (b.clean && SafeToRemove(t, b.p, e))
    && c.lost == b.p.lost + (if e in c.visited then {} else {e})
    && exists i :: TakenOut(b, c, e, i, t, t')
  }

  /** A cookie is given up as spoiled only when the iteration, continued without further change, would return an entry
      twice, a removed entry, or not every entry. */
  ghost predicate Judged(b: Snap, c: IterCookie, t: Tables, m: map<HashKey, DictEntry>)
    reads c
  {
    b.clean && !c.clean ==> Located(t, c.View()) && !Exact(t, m, c.View())
  }

  ghost predicate Longer(cs: seq<Chain>, cs': seq<Chain>) {
    |cs'| == |cs| && forall b :: 0 <= b < |cs| ==> |cs[b]| <= |cs'[b]|
  }

  lemma StillTracked(t: Tables, m: map<HashKey, DictEntry>, cookies: seq<IterCookie>, c: IterCookie)
    requires NoRepeats(cookies) && forall i :: 0 <= i < |cookies| ==> CookieOk(t, m, cookies[i])
    ensures NoRepeats(RemoveItem(cookies, c)) && c !in RemoveItem(cookies, c)
    ensures forall i :: 0 <= i < |RemoveItem(cookies, c)| ==> CookieOk(t, m, RemoveItem(cookies, c)[i])
  {
    RemovedItem(cookies, c);
    forall i | 0 <= i < |RemoveItem(cookies, c)|
      ensures CookieOk(t, m, RemoveItem(cookies, c)[i])
    {
      assert RemoveItem(cookies, c)[i] in cookies;
    }
  }

  class Dictionary {
    var tbl: seq<Chain>
    var tbl2: seq<Chain>
    var tblNextInd: nat
    var numEntries: int
    var numEntries2: int
    var threshEntries: int
    var threshEntries2: int
    const ordered: bool
    var order: Chain
    var cookies: seq<IterCookie>

    // the entry of every key present
    ghost var entryOf: map<HashKey, DictEntry>

    ghost function T(): Tables
      reads `tbl, `tbl2, `tblNextInd
    {
      Tables(tbl, tbl2, tblNextInd)
    }

    /** Every robust cookie is in place. */
    ghost predicate Tracked()
      reads `tbl, `tbl2, `tblNextInd, `entryOf, `cookies, cookies
    {
      NoRepeats(cookies) && forall i :: 0 <= i < |cookies| ==> CookieOk(T(), entryOf, cookies[i])
    }

    ghost predicate Counted(limbo: nat)
      reads `tbl, `tbl2, `numEntries, `numEntries2, `entryOf
    {
      numEntries == Total(tbl) + limbo && numEntries2 == Total(tbl2) && numEntries + numEntries2 == |entryOf| + limbo
    }

    /** What holds even while a chain is being moved; `limbo` entries are then in neither table. */
    ghost predicate Core(limbo: nat)
      reads `tbl, `tbl2, `tblNextInd, `numEntries, `numEntries2, `entryOf, `cookies, cookies
    {
      Placed(T(), entryOf) && Tracked() && Counted(limbo)
    }

    lemma CoreFacts(limbo: nat)
      requires Core(limbo)
      ensures Placed(T(), entryOf) && Shaped(T()) && NoRepeats(cookies)
              && forall k :: k in entryOf ==> entryOf[k].key == k
    {
    }

    /** A table may hold three entries for each bucket before it grows. */
    ghost predicate Dense()
      reads `tbl, `tbl2, `threshEntries, `threshEntries2
    {
      threshEntries == 3 * |tbl| && (tbl2 != [] ==> threshEntries2 == 3 * |tbl2|)
    }

    ghost predicate Valid()
      reads this, cookies
    {
      && Core(0) && Dense() && (tbl2 != [] ==> tblNextInd < |tbl|)
      && (if ordered then OrderOk(order, entryOf) else order == [])
    }

    ghost function Entries(): set<DictEntry>
      reads `entryOf
    {
      set k | k in entryOf :: entryOf[k]
    }

    /** The finite map the dictionary stands for. */
    ghost function Contents(): map<HashKey, int>
      reads `entryOf, Entries()
    {
      map k | k in entryOf :: entryOf[k].value
    }

    /** No entry holds a null value; `Insert` and `Remove` use null for "absent". */
    ghost predicate NonNull()
      reads `entryOf, Entries()
    {
      forall k :: k in entryOf ==> entryOf[k].value != NULL
    }

    constructor (isOrdered: bool, initialSize: nat)
      ensures Valid() && ordered == isOrdered && entryOf == map[] && order == [] && cookies == []
      ensures IsNextPrime(initialSize, |tbl|) && tbl2 == []
    {
      var n := NextPrime(initialSize);
      ordered := isOrdered;
      var fresh1 := EmptyTable(n);
      tbl, tbl2, tblNextInd := fresh1, [], 0;
      numEntries, numEntries2 := 0, 0;
      threshEntries, threshEntries2 := 3 * n, 0;
      order, cookies, entryOf := [], [], map[];
      new;
      TotalEmpty(fresh1);
    }

    // ----- looking up -----

    /** Finds a key in a chain. */
    method Find(c: Chain, k: HashKey) returns (i: int)
      ensures -1 <= i < |c|
      ensures i >= 0 ==> c[i].key == k
      ensures i < 0 ==> forall j :: 0 <= j < |c| ==> c[j].key != k
    {
      for j := 0 to |c|
        invariant forall l :: 0 <= l < j ==> c[l].key != k
      {
        if c[j].key.hash == k.hash && |c[j].key.bytes| == |k.bytes| && c[j].key.bytes == k.bytes {
          return j;
        }
      }
      i := -1;
    }

    /** The chain where a key lives. */
    method Locate(k: HashKey) returns (c: Chain)
      requires Shaped(T())
      ensures c == ChainOf(T(), k)
    {
      var h := k.hash % |tbl|;
      if tbl2 == [] || h >= tblNextInd {
        c := tbl[h];
      } else {
        c := tbl2[k.hash % |tbl2|];
      }
    }

    method Lookup(k: HashKey) returns (v: int)
      requires Valid()
      ensures v == if k in Contents() then Contents()[k] else NULL
    {
      var c := Locate(k);
      var i := Find(c, k);
      ChainOfOk(T(), entryOf, k);
      v := if i >= 0 then c[i].value else NULL;
    }

    function Length(): (n: int)
      reads this, cookies
      requires Valid()
      ensures n == |entryOf|
    {
      if tbl2 != [] then numEntries + numEntries2 else numEntries
    }

    /** `NthEntry`: of an ordered dictionary, the `n`-th key in the order of insertion. */
    method NthEntry(n: int) returns (k: HashKey, v: int)
      requires Valid()
      ensures ordered && 0 <= n < |entryOf| ==> k == KeysOf(order)[n] && k in Contents() && v == Contents()[k]
      ensures !(ordered && 0 <= n < |entryOf|) ==> v == NULL
    {
      if !ordered || n < 0 || n >= Length() {
        return HashKey([], 0), NULL;
      }
      var entry := order[n];
      assert entry in order && Live(entryOf, entry);
      return entry.key, entry.value;
    }

    /** What a change has done to every robust cookie. */
    ghost predicate AllNoted(bs: seq<Snap>, added: set<DictEntry>, t: Tables, t': Tables, m: map<HashKey, DictEntry>)
      reads `cookies, cookies
    {
      && |bs| == |cookies|
      && forall i :: 0 <= i < |cookies| ==> Noted(bs[i], cookies[i], added, t, t') && Judged(bs[i], cookies[i], t', m)
    }

    ghost predicate AllForgotten(bs: seq<Snap>, e: DictEntry, t: Tables, t': Tables, m: map<HashKey, DictEntry>)
      reads `cookies, cookies
    {
      && |bs| == |cookies|
      && forall i :: 0 <= i < |cookies| ==> Forgotten(bs[i], cookies[i], e, t, t') && Judged(bs[i], cookies[i], t', m)
    }

    lemma NothingNoted()
      requires |tbl| > 0
      ensures AllNoted(SnapsOf(cookies), {}, T(), T(), entryOf)
    {
      SnapsAre(cookies);
    }

    // ----- inserting -----

    /** Tells the robust cookies about an entry appended to bucket `h`. */
    method NoteInsert(e: DictEntry, h: nat, ghost t: Tables)
      requires NoRepeats(cookies) && |t.tbl| > 0 && h == Bucket(t, e.key)
      modifies cookies
      ensures forall i :: 0 <= i < |cookies| ==> cookies[i].View() == AfterInsert(t, old(cookies[i].View()), e)
      ensures forall i :: 0 <= i < |cookies| ==>
              cookies[i].clean == (old(cookies[i].clean) && SafeInsert(t, old(cookies[i].View()), e.key))
    {
      hide AfterInsert, Bucket, SafeInsert;
      for i := 0 to |cookies|
        invariant forall j :: i <= j < |cookies| ==> unchanged(cookies[j])
        invariant forall j :: 0 <= j < i ==> cookies[j].View() == AfterInsert(t, old(cookies[j].View()), e)
        invariant forall j :: 0 <= j < i ==>
                  cookies[j].clean == (old(cookies[j].clean) && SafeInsert(t, old(cookies[j].View()), e.key))
      {
        cookies[i].NoteInsert(e, h, t);
      }
    }

    /** The bucket of a key in the table where it belongs. */
    method Home(k: HashKey) returns (h: nat)
      requires |tbl| > 0
      ensures h == Bucket(T(), k)
    {
      h := k.hash % |tbl|;
      if tbl2 != [] && h < tblNextInd {
        h := k.hash % |tbl2|;
      }
    }

    /** Prepares the cookies for `e` going to the end of its chain. */
    method TrackAppended(e: DictEntry, h: nat, ghost t: Tables)
      requires NoRepeats(cookies) && |t.tbl| > 0 && h == Bucket(t, e.key) && e.key !in entryOf
      requires forall i :: 0 <= i < |cookies| ==> CookieOk(t, entryOf, cookies[i]) && e !in cookies[i].all
      modifies cookies
      ensures forall i :: 0 <= i < |cookies| ==> CookieOk(Appended(t, e), entryOf[e.key := e], cookies[i])
      ensures AllNoted(old(SnapsOf(cookies)), {e}, t, Appended(t, e), entryOf[e.key := e])
    {
      hide OnTrack, Exact, Appended, AfterInsert, SafeInsert, Bucket, AheadBag, ComesUp, If, Located;
      ghost var bs := SnapsOf(cookies);
      SnapsAre(cookies);
      NoteInsert(e, h, t);
      forall i | 0 <= i < |cookies|
        ensures CookieOk(Appended(t, e), entryOf[e.key := e], cookies[i])
        ensures Judged(bs[i], cookies[i], Appended(t, e), entryOf[e.key := e])
        ensures Noted(bs[i], cookies[i], {e}, t, Appended(t, e))
      {
        var p := old(cookies[i].View());
        AheadInsert(t, p, e);
        AllAfter(t, p, e);
        if old(cookies[i].clean) {
          TrackInsert(t, entryOf, p, e);
        }
      }
    }

    /** Puts the entry of a new key at the end of its chain. */
    method Place(e: DictEntry)
      requires Placed(T(), entryOf) && e.key !in entryOf
      modifies `tbl, `tbl2, `numEntries, `numEntries2
      ensures T() == Appended(old(T()), e)
      ensures numEntries + numEntries2 == old(numEntries) + old(numEntries2) + 1
      ensures numEntries2 == old(numEntries2) + if Moved(old(T()), e.key) then 1 else 0
      ensures numEntries - Total(tbl) == old(numEntries) - Total(old(tbl))
      ensures numEntries2 - Total(tbl2) == old(numEntries2) - Total(old(tbl2))
    {
      var h := e.key.hash % |tbl|;
      if tbl2 == [] || h >= tblNextInd {
        TotalUpdate(tbl, h, tbl[h] + [e]);
        tbl := tbl[h := tbl[h] + [e]];
        numEntries := numEntries + 1;
      } else {
        h := e.key.hash % |tbl2|;
        TotalUpdate(tbl2, h, tbl2[h] + [e]);
        tbl2 := tbl2[h := tbl2[h] + [e]];
        numEntries2 := numEntries2 + 1;
      }
    }

    /** The part of the internal `Insert` that runs when the key is new. */
    method AppendEntry(e: DictEntry, ghost limbo: nat)
      requires Core(limbo) && e.key !in entryOf && forall i :: 0 <= i < |cookies| ==> e !in cookies[i].all
      modifies `tbl, `tbl2, `numEntries, `numEntries2, `entryOf, cookies
      ensures Core(limbo) && entryOf == old(entryOf)[e.key := e] && T() == Appended(old(T()), e)
      ensures numEntries2 == old(numEntries2) + if Moved(old(T()), e.key) then 1 else 0
      ensures AllNoted(old(SnapsOf(cookies)), {e}, old(T()), T(), entryOf)
    {
      hide CookieOk, Total, WithChain, ChainOf, Bucket, AllNoted, SnapsOf;
      CoreFacts(limbo);
      ghost var t := T();
      PlacedInsert(t, entryOf, e);
      var h := Home(e.key);
      TrackAppended(e, h, t);
      Place(e);
      entryOf := entryOf[e.key := e];
    }

    method UpdateValue(entry: DictEntry, v: int, ghost limbo: nat)
      requires Core(limbo) && Live(entryOf, entry)
      modifies entry
      ensures Core(limbo) && entry.value == v
    {
      entry.value := v;
    }

    /** The internal `Insert`: updates the entry of a key already present, or appends the new one. */
    method InsertEntry(e: DictEntry, ghost limbo: nat) returns (oldValue: int)
      requires Core(limbo) && forall i :: 0 <= i < |cookies| ==> e !in cookies[i].all
      modifies `tbl, `tbl2, `numEntries, `numEntries2, `entryOf, cookies, Entries()
      ensures Core(limbo) && |tbl2| == |old(tbl2)| && Longer(old(tbl), tbl)
      ensures e.key in old(entryOf) ==> entryOf == old(entryOf) && oldValue == old(entryOf[e.key].value)
      ensures e.key !in old(entryOf) ==> entryOf == old(entryOf)[e.key := e] && oldValue == NULL
      ensures forall x :: x in old(Entries()) ==> x.value == if x.key == e.key then e.value else old(x.value)
      ensures AllNoted(old(SnapsOf(cookies)), if e.key in old(entryOf) then {} else {e}, old(T()), T(), entryOf)
    {
      hide Core, Placed, AllNoted, SnapsOf;
      CoreFacts(limbo);
      var c := Locate(e.key);
      var i := Find(c, e.key);
      ChainOfOk(T(), entryOf, e.key);
      if i >= 0 {
        NothingNoted();
        var entry := c[i];
        oldValue := entry.value;
        UpdateValue(entry, e.value, limbo);
      } else {
        AppendEntry(e, limbo);
        oldValue := NULL;
      }
    }

    /** Moves the next chain of the first table to the second one. */
    method MoveChain() returns (moved: nat)
      requires Core(0) && tbl2 != [] && tblNextInd < |tbl| && cookies == []
      modifies `tbl, `tbl2, `tblNextInd, `numEntries, `numEntries2, `entryOf
      ensures Core(0) && entryOf == old(entryOf) && |tbl2| == |old(tbl2)| && |tbl| == |old(tbl)|
      ensures tblNextInd == old(tblNextInd) + 1 && numEntries2 == old(numEntries2) + moved
      ensures moved == |old(tbl)[old(tblNextInd)]|
    {
      hide Placed, Tracked, Counted, Live;
      ghost var t, m := T(), entryOf;
      var chain := TakeChain();
      assert chain[..0] == [];
      var j := 0;
      while j < |chain|
        invariant 0 <= j <= |chain| && Moving(t, m, chain, j) && numEntries2 == old(numEntries2) + j
      {
        MoveEntry(t, m, chain, j);
        j := j + 1;
      }
      assert chain[..j] == chain;
      RestoredAll(t, m);
      moved := |chain|;
    }

    /** The first `j` entries of a chain taken out have reached the second table. */
    ghost predicate Moving(t: Tables, m: map<HashKey, DictEntry>, chain: Chain, j: nat)
      reads this, cookies
    {
      && j <= |chain| && |t.tbl| > 0 && cookies == [] && Core(|chain| - j)
      && entryOf == Restored(|t.tbl|, t.next, m, chain[..j])
      && |tbl| == |t.tbl| && tblNextInd == t.next + 1 && |tbl2| == |t.tbl2| > 0
      && NoRepeats(chain) && (forall k :: k in m ==> m[k].key == k)
      && (forall i :: 0 <= i < |chain| ==> Live(m, chain[i]) && chain[i].key.hash % |t.tbl| == t.next)
    }

    method MoveEntry(ghost t: Tables, ghost m: map<HashKey, DictEntry>, chain: Chain, j: nat)
      requires Moving(t, m, chain, j) && j < |chain|
      modifies `tbl, `tbl2, `numEntries, `numEntries2, `entryOf
      ensures Moving(t, m, chain, j + 1) && numEntries2 == old(numEntries2) + 1
    {
      RestoredSnoc(|t.tbl|, t.next, m, chain, j);
      AppendEntry(chain[j], |chain| - j);
      numEntries := numEntries - 1;
    }

    /** Takes the next chain out of the first table; its entries are then in neither table. */
    method TakeChain() returns (chain: Chain)
      requires Core(0) && tbl2 != [] && tblNextInd < |tbl| && cookies == []
      modifies `tbl, `tblNextInd, `entryOf
      ensures chain == old(tbl)[old(tblNextInd)] && T() == Emptied(old(T())) && Core(|chain|)
      ensures entryOf == Restored(|tbl|, old(tblNextInd), old(entryOf), [])
      ensures NoRepeats(chain) && (forall k :: k in old(entryOf) ==> old(entryOf)[k].key == k)
      ensures forall i :: 0 <= i < |chain| ==>
                Live(old(entryOf), chain[i]) && chain[i].key.hash % |tbl| == old(tblNextInd)
    {
      hide Placed, Restored, NoRepeats, Live;
      ghost var t, m := T(), entryOf;
      chain := tbl[tblNextInd];
      TakeOut(t, m);
      tblNextInd := tblNextInd + 1;
      tbl := tbl[tblNextInd - 1 := []];
      entryOf := Restored(|tbl|, t.next, m, []);
    }

    /** `MoveChains`: moves whole chains until enough entries have gone over. */
    method MoveChains()
      requires Valid() && tbl2 != []
      modifies `tbl, `tbl2, `tblNextInd, `numEntries, `numEntries2, `threshEntries, `threshEntries2, `entryOf
      ensures Valid() && entryOf == old(entryOf) && (cookies != [] ==> T() == old(T()))
      ensures cookies == [] && tbl2 == [] ==> |tbl| == |old(tbl2)|
      ensures cookies == [] && tbl2 != [] ==> |tbl| == |old(tbl)| && |tbl2| == |old(tbl2)|
      ensures cookies == [] && tbl2 != [] ==> tblNextInd > old(tblNextInd) && numEntries2 >= old(numEntries2) + 8
      ensures cookies == [] && |old(tbl)[old(tblNextInd)]| >= 8 && old(tblNextInd) + 1 < |old(tbl)| ==>
                tbl2 != [] && tblNextInd == old(tblNextInd) + 1
    {
      if |cookies| > 0 {
        return;
      }
      MoveEnough();
      if tblNextInd >= |tbl| {
        FinishChangeSize();
      }
    }

    /** The loop of `MoveChains`, whose test comes last. */
    method MoveEnough()
      requires Core(0) && tbl2 != [] && cookies == [] && tblNextInd < |tbl|
      modifies `tbl, `tbl2, `tblNextInd, `numEntries, `numEntries2, `entryOf
      ensures Core(0) && entryOf == old(entryOf) && |tbl2| == |old(tbl2)| && |tbl| == |old(tbl)|
      ensures old(tblNextInd) < tblNextInd <= |tbl| && (tblNextInd == |tbl| || numEntries2 >= old(numEntries2) + 8)
      ensures |old(tbl)[old(tblNextInd)]| >= 8 ==> tblNextInd == old(tblNextInd) + 1
    {
      var num: int := 8;
      var more := true;
      while more
        invariant Core(0) && entryOf == old(entryOf) && |tbl2| == |old(tbl2)| && |tbl| == |old(tbl)|
        invariant old(tblNextInd) <= tblNextInd <= |tbl| && (more ==> tblNextInd < |tbl|)
        invariant numEntries2 == old(numEntries2) + 8 - num
        invariant !more ==> old(tblNextInd) < tblNextInd && (num <= 0 || tblNextInd == |tbl|)
        invariant tblNextInd == old(tblNextInd) ==> tbl == old(tbl) && num == 8
        invariant |old(tbl)[old(tblNextInd)]| >= 8 ==> tblNextInd == old(tblNextInd) + if more then 0 else 1
        decreases |tbl| - tblNextInd, more
      {
        var moved := MoveChain();
        num := num - moved;
        more := num > 0 && tblNextInd < |tbl|;
      }
    }

    /** `FinishChangeSize`: the second table takes the place of the first, which is empty by now. */
    method FinishChangeSize()
      requires Core(0) && Dense() && tbl2 != [] && tblNextInd == |tbl| && cookies == []
      requires if ordered then OrderOk(order, entryOf) else order == []
      modifies `tbl, `tbl2, `numEntries, `numEntries2, `threshEntries, `threshEntries2
      ensures Valid() && tbl == old(tbl2) && tbl2 == []
    {
      hide Placed, OrderOk;
      PlacedFinish(T(), entryOf);
      TotalEmpty(tbl);
      assert numEntries == 0;
      tbl, tbl2 := tbl2, [];
      numEntries, numEntries2 := numEntries2, 0;
      threshEntries, threshEntries2 := threshEntries2, 0;
      assert T() == Tables(tbl, [], tblNextInd);
    }

    /** `Init2` and the thresholds of an empty second table. */
    method BeginResize(n: nat, empty: seq<Chain>)
      requires Valid() && tbl2 == [] && cookies == [] && |empty| == n > 0 && forall b :: 0 <= b < n ==> empty[b] == []
      modifies `tbl2, `tblNextInd, `numEntries2, `threshEntries2
      ensures Valid() && tbl2 == empty && tblNextInd == 0
    {
      hide Placed, OrderOk;
      assert |tbl| > 0 by { CoreFacts(0); }
      PlacedStart(tbl, entryOf, tblNextInd, empty);
      TotalEmpty(empty);
      tbl2 := empty;
      numEntries2 := 0;
      tblNextInd := 0;
      threshEntries2 := 3 * n;
      assert T() == Tables(tbl, empty, 0);
    }

    /** `StartChangeSize`: sets up an empty second table, unless an iteration is in progress. */
    method StartChangeSize(newSize: nat)
      requires Valid() && tbl2 == []
      modifies `tbl2, `tblNextInd, `numEntries2, `threshEntries2
      ensures Valid() && (cookies != [] ==> T() == old(T()))
      ensures cookies == [] ==> IsNextPrime(newSize, |tbl2|) && tblNextInd == 0
    {
      if |cookies| == 0 {
        var n := NextPrime(newSize);
        var empty := EmptyTable(n);
        BeginResize(n, empty);
      }
    }

    /** The public `Insert` up to its resize logic. */
    method InsertAndOrder(e: DictEntry) returns (oldVal: int)
      requires Valid() && NonNull() && e.value != NULL && e !in Entries()
      requires forall i :: 0 <= i < |cookies| ==> e !in cookies[i].all
      modifies `tbl, `tbl2, `numEntries, `numEntries2, `entryOf, `order, cookies, Entries()
      ensures Valid() && e.value == old(e.value) && |tbl2| == |old(tbl2)| && Longer(old(tbl), tbl)
      ensures entryOf == if e.key in old(entryOf) then old(entryOf) else old(entryOf)[e.key := e]
      ensures forall x :: x in old(Entries()) ==> x.value == if x.key == e.key then e.value else old(x.value)
      ensures oldVal == if e.key in old(entryOf) then old(entryOf[e.key].value) else NULL
      ensures order == old(order) + if ordered && e.key !in old(entryOf) then [e] else []
      ensures AllNoted(old(SnapsOf(cookies)), if e.key in old(entryOf) then {} else {e}, old(T()), T(), entryOf)
    {
      hide Core, OrderOk, AllNoted, SnapsOf;
      ghost var m := entryOf;
      oldVal := InsertEntry(e, 0);
      if oldVal == NULL && ordered {
        OrderInsert(order, m, e);
        order := order + [e];
      }
    }

    /** The resize logic of `Insert`. */
    method Grow()
      requires Valid()
      modifies `tbl, `tbl2, `tblNextInd, `numEntries, `numEntries2, `threshEntries, `threshEntries2, `entryOf
      ensures Valid() && entryOf == old(entryOf) && (cookies != [] ==> T() == old(T()))
      ensures old(tbl2) == [] && cookies == [] ==> (tbl2 != [] <==> old(numEntries) >= old(threshEntries))
      ensures old(tbl2) == [] && tbl2 != [] ==> IsNextPrime(2 * |tbl| + 1, |tbl2|) && tblNextInd == 0
      ensures old(tbl2) == [] ==> tbl == old(tbl)
      ensures cookies == [] && old(tbl2) != [] && old(tblNextInd) + 1 < |old(tbl)|
              && |old(tbl)[old(tblNextInd)]| >= 8 ==>
                tbl2 != [] && |tbl| == |old(tbl)| && |tbl2| == |old(tbl2)| && tblNextInd == old(tblNextInd) + 1
    {
      hide Valid, IsNextPrime;
      if tbl2 != [] {
        MoveChains();
      } else if numEntries >= threshEntries {
        StartChangeSize(|tbl| * 2 + 1);
      }
    }

    /** `Insert` up to its resize logic. */
    method InsertKey(k: HashKey, val: int) returns (oldVal: int)
      requires Valid() && NonNull() && val != NULL
      modifies `tbl, `tbl2, `numEntries, `numEntries2, `entryOf, `order, cookies, Entries()
      ensures Valid() && NonNull() && |tbl2| == |old(tbl2)| && Longer(old(tbl), tbl)
      ensures Contents() == old(Contents())[k := val]
      ensures oldVal == if k in old(Contents()) then old(Contents())[k] else NULL
      ensures KeysOf(order) == KeysOf(old(order)) + if ordered && k !in old(Contents()) then [k] else []
      ensures k in entryOf && entryOf[k].key == k && (k in old(entryOf) || fresh(entryOf[k]))
      ensures entryOf == if k in old(entryOf) then old(entryOf) else old(entryOf)[k := entryOf[k]]
      ensures forall x :: x in Entries() ==> x in old(Entries()) || fresh(x)
      ensures AllNoted(old(SnapsOf(cookies)), if k in old(Contents()) then {} else {entryOf[k]}, old(T()), T(), entryOf)
    {
      hide Valid, AllNoted, SnapsOf;
      Keyed();
      var e := new DictEntry(k, val);
      oldVal := InsertAndOrder(e);
    }

    lemma OneTable()
      requires Valid()
      ensures tbl2 == [] ==> numEntries == |entryOf| && threshEntries == 3 * |tbl|
    {
    }

    /** `Insert`: sets the value of a key and returns the previous one, or null. */
    method Insert(k: HashKey, val: int) returns (oldVal: int)
      requires Valid() && NonNull() && val != NULL
      modifies this, cookies, Entries()
      ensures Valid() && NonNull() && cookies == old(cookies) && (cookies != [] ==> (tbl2 == [] <==> old(tbl2) == []))
      ensures cookies == [] && old(tbl2) == [] ==> |tbl| == |old(tbl)| && (tbl2 != [] <==> |entryOf| >= 3 * |tbl|)
      ensures cookies == [] && old(tbl2) == [] && tbl2 != [] ==> IsNextPrime(2 * |tbl| + 1, |tbl2|) && tblNextInd == 0
      ensures cookies == [] && old(tbl2) != [] && old(tblNextInd) + 1 < |old(tbl)|
              && |old(tbl)[old(tblNextInd)]| >= 8 ==>
                tbl2 != [] && |tbl| == |old(tbl)| && |tbl2| == |old(tbl2)| && tblNextInd == old(tblNextInd) + 1
      ensures Contents() == old(Contents())[k := val]
      ensures oldVal == if k in old(Contents()) then old(Contents())[k] else NULL
      ensures KeysOf(order) == KeysOf(old(order)) + if ordered && k !in old(Contents()) then [k] else []
      ensures k in entryOf && entryOf[k].key == k && (k in old(entryOf) || fresh(entryOf[k]))
      ensures entryOf == if k in old(entryOf) then old(entryOf) else old(entryOf)[k := entryOf[k]]
      ensures forall x :: x in Entries() ==> x in old(Entries()) || fresh(x)
      ensures AllNoted(old(SnapsOf(cookies)), if k in old(Contents()) then {} else {entryOf[k]}, old(T()), T(), entryOf)
    {
      hide Valid, KeysOf, Noted, Judged, SnapsOf;
      oldVal := InsertKey(k, val);
      ghost var m := Contents();
      OneTable();
      Grow();
      assert Contents() == m;
    }

    lemma Keyed()
      requires Valid()
      ensures forall k :: k in entryOf ==> entryOf[k].key == k
    {
    }

    // ----- removing -----

    lemma OrderFacts(k: HashKey)
      requires Valid()
      ensures Placed(T(), entryOf) && Shaped(T()) && |tbl| > 0
      ensures k in entryOf ==>
                entryOf[k].key == k && KeysOf(RemoveItem(order, entryOf[k])) == RemoveItem(KeysOf(order), k)
      ensures k !in entryOf ==> KeysOf(order) == RemoveItem(KeysOf(order), k)
    {
      if ordered {
        KeysRemoved(order, entryOf, k);
      }
    }

    /** Takes entry `i` out of the chain of `k`. */
    method Unlink(k: HashKey, i: nat)
      requires Shaped(T()) && i < |ChainOf(T(), k)|
      modifies `tbl, `tbl2, `numEntries, `numEntries2
      ensures T() == Cut(old(T()), k, i)
      ensures numEntries + numEntries2 == old(numEntries) + old(numEntries2) - 1
      ensures numEntries - Total(tbl) == old(numEntries) - Total(old(tbl))
      ensures numEntries2 - Total(tbl2) == old(numEntries2) - Total(old(tbl2))
    {
      var h := k.hash % |tbl|;
      if tbl2 == [] || h >= tblNextInd {
        TotalUpdate(tbl, h, RemoveAt(tbl[h], i));
        tbl := tbl[h := RemoveAt(tbl[h], i)];
        numEntries := numEntries - 1;
      } else {
        h := k.hash % |tbl2|;
        TotalUpdate(tbl2, h, RemoveAt(tbl2[h], i));
        tbl2 := tbl2[h := RemoveAt(tbl2[h], i)];
        numEntries2 := numEntries2 - 1;
      }
    }

    /** Tells the robust cookies about a removed entry. */
    method NoteRemove(e: DictEntry, h: nat, i: nat, ghost t: Tables)
      requires NoRepeats(cookies) && forall j :: 0 <= j < |cookies| ==> Located(t, cookies[j].View())
      modifies cookies
      ensures forall j :: 0 <= j < |cookies| ==> cookies[j].View() == AfterRemove(old(cookies[j].View()), h, i, e)
      ensures forall j :: 0 <= j < |cookies| ==>
              cookies[j].clean == (old(cookies[j].clean) && SafeToRemove(t, old(cookies[j].View()), e))
    {
      hide AfterRemove, SafeToRemove;
      for l := 0 to |cookies|
        invariant forall j :: l <= j < |cookies| ==> unchanged(cookies[j])
        invariant forall j :: 0 <= j < l ==> cookies[j].View() == AfterRemove(old(cookies[j].View()), h, i, e)
        invariant forall j :: 0 <= j < l ==>
                  cookies[j].clean == (old(cookies[j].clean) && SafeToRemove(t, old(cookies[j].View()), e))
      {
        cookies[l].NoteRemove(e, h, i, t);
      }
    }

    /** Prepares the cookies for entry `i` of the chain of `k` being cut out. */
    method TrackCut(k: HashKey, h: nat, i: nat, e: DictEntry, ghost t: Tables)
      requires |t.tbl| > 0 && Placed(t, entryOf) && i < |ChainOf(t, k)| && e == ChainOf(t, k)[i] && e.key == k
      requires h == k.hash % |t.tbl|
      requires NoRepeats(cookies) && forall j :: 0 <= j < |cookies| ==> CookieOk(t, entryOf, cookies[j])
      modifies cookies
      ensures forall j :: 0 <= j < |cookies| ==> CookieOk(Cut(t, k, i), entryOf - {k}, cookies[j])
      ensures AllForgotten(old(SnapsOf(cookies)), e, t, Cut(t, k, i), entryOf - {k})
    {
      hide OnTrack, Placed, Exact, AfterRemove, SafeToRemove, Cut;
      ghost var bs := SnapsOf(cookies);
      SnapsAre(cookies);
      NoteRemove(e, h, i, t);
      forall j | 0 <= j < |cookies|
        ensures CookieOk(Cut(t, k, i), entryOf - {k}, cookies[j])
        ensures Judged(bs[j], cookies[j], Cut(t, k, i), entryOf - {k})
        ensures Forgotten(bs[j], cookies[j], e, t, Cut(t, k, i))
      {
        assert TakenOut(bs[j], cookies[j], e, i, t, Cut(t, k, i));
        var p := old(cookies[j].View());
        LocatedCut(t, p, k, i, e);
        LostAfter(p, h, i, e);
        if old(cookies[j].clean) {
          TrackRemove(t, entryOf, p, k, i, e);
        }
      }
    }

    /** Cuts an entry out of its chain and adjusts the cookies. */
    method CutOut(k: HashKey, i: nat, e: DictEntry)
      requires Core(0) && |tbl| > 0 && i < |ChainOf(T(), k)| && e == ChainOf(T(), k)[i] && e.key == k
      modifies `tbl, `tbl2, `numEntries, `numEntries2, `entryOf, cookies
      ensures Core(0) && Live(old(entryOf), e) && entryOf == old(entryOf) - {k}
      ensures |tbl| == |old(tbl)| && |tbl2| == |old(tbl2)|
      ensures AllForgotten(old(SnapsOf(cookies)), e, old(T()), T(), entryOf)
    {
      hide Placed, CookieOk, Total, ChainOf, AllForgotten, Cut, NoRepeats, Moved, Bucket, SnapsOf;
      CoreFacts(0);
      ghost var t, m := T(), entryOf;
      CutPlaced(t, m, k, i);
      TrackCut(k, k.hash % |tbl|, i, e, t);
      Unlink(k, i);
      entryOf := entryOf - {k};
      SizeRemove(m, k);
    }

    /** `DoRemove` and the count kept by its caller. */
    method DoRemove(k: HashKey, i: nat, e: DictEntry)
      requires Valid() && |tbl| > 0 && i < |ChainOf(T(), k)| && e == ChainOf(T(), k)[i] && e.key == k
      modifies `tbl, `tbl2, `numEntries, `numEntries2, `entryOf, `order, cookies
      ensures Valid() && Live(old(entryOf), e) && entryOf == old(entryOf) - {k} && |tbl2| == |old(tbl2)|
      ensures order == RemoveItem(old(order), e)
      ensures AllForgotten(old(SnapsOf(cookies)), e, old(T()), T(), entryOf)
    {
      hide Core, OrderOk, AllForgotten, ChainOf, SnapsOf;
      CoreFacts(0);
      ghost var m := entryOf;
      CutOut(k, i, e);
      if ordered {
        OrderRemove(order, m, e);
        order := RemoveItem(order, e);
      }
    }

    /** `Remove`: takes a key out and returns the value it had, or null. */
    method Remove(k: HashKey) returns (v: int)
      requires Valid() && NonNull()
      modifies this, cookies
      ensures Valid() && NonNull() && cookies == old(cookies) && (tbl2 == [] <==> old(tbl2) == [])
      ensures Contents() == old(Contents()) - {k} && entryOf == old(entryOf) - {k}
      ensures v == if k in old(Contents()) then old(Contents())[k] else NULL
      ensures KeysOf(order) == RemoveItem(KeysOf(old(order)), k)
      ensures forall x :: x in Entries() ==> x in old(Entries())
      ensures k in old(entryOf) ==> AllForgotten(old(SnapsOf(cookies)), old(entryOf)[k], old(T()), T(), entryOf)
      ensures k !in old(entryOf) ==> forall j :: 0 <= j < |cookies| ==> unchanged(cookies[j])
    {
      hide Valid, ChainOk, Placed, KeysOf, RemoveItem, AllForgotten, SnapsOf;
      OrderFacts(k);
      var c := Locate(k);
      var i := Find(c, k);
      ChainOfOk(T(), entryOf, k);
      if i >= 0 {
        var entry := c[i];
        v := entry.value;
        DoRemove(k, i, entry);
      } else {
        v := NULL;
      }
    }

    // ----- iterating -----

    method InitForIteration() returns (c: IterCookie)
      requires Valid()
      ensures fresh(c) && c.clean && CookieOk(T(), entryOf, c)
      ensures c.inserted == [] && c.visited == [] && c.all == Entries() && c.lost == {}
    {
      c := new IterCookie(Entries());
      TrackStart(T(), entryOf, c.View());
    }

    /** `MakeRobustCookie`: from now on changes to the dictionary are noted in the cookie. */
    method MakeRobustCookie(c: IterCookie)
      requires Valid() && CookieOk(T(), entryOf, c) && c !in cookies
      modifies `cookies
      ensures Valid() && cookies == old(cookies) + [c]
    {
      hide Placed, CookieOk, Counted, OrderOk;
      cookies := cookies + [c];
    }

    /** What an entry returned leaves behind: it was the next one to come, and if the iteration is not spoiled it is
        there and is returned for the first time. */
    twostate predicate Yielded(c: IterCookie, new e: DictEntry)
      reads `tbl, `tbl2, `tblNextInd, `entryOf, c
    {
      && CookieOk(T(), entryOf, c) && c.clean == old(c.clean) && Returned(T(), old(c.View()), c.View(), e)
      && (old(c.inserted) == [] ==> c.inserted == [] && Past(T(), c.View(), e))
      && (c.clean ==> Live(entryOf, e) && e !in old(c.visited))
    }

    /** And what the end of an iteration leaves. */
    twostate predicate Ended(c: IterCookie)
      reads `tbl, `tbl2, `tblNextInd, `entryOf, c
    {
      && c.visited == old(c.visited) && c.all == old(c.all) && c.lost == old(c.lost) && c.clean == old(c.clean)
      && CookieOk(T(), entryOf, c) && Located(T(), old(c.View())) && Coming(T(), old(c.View())) == []
      && (c.clean ==> Complete(c))
    }

    /** Returns an entry inserted behind the iteration. */
    method TakeInserted(c: IterCookie) returns (e: DictEntry)
      requires CookieOk(T(), entryOf, c) && c.inserted != []
      modifies c
      ensures Yielded(c, e)
    {
      hide OnTrack, Coming;
      ghost var p := c.View();
      var n := |c.inserted| - 1;
      e := c.inserted[n];
      c.inserted := c.inserted[..n];
      c.visited := c.visited + [e];
      ComingInserted(T(), p, c.View());
      Taken(p, c, e);
    }

    /** An entry taken keeps the cookie in place. */
    lemma Taken(p: Progress, c: IterCookie, e: DictEntry)
      requires Returned(T(), p, c.View(), e) && (c.clean ==> OnTrack(T(), entryOf, p))
      requires c.inserted == [] ==> c.offset <= |Table(T(), c.second)[c.bucket]| || p.inserted != []
      requires p.inserted != [] ==> c.second == p.second && c.bucket == p.bucket && c.offset == p.offset
      requires c.inserted == if p.inserted == [] then [] else p.inserted[..|p.inserted| - 1]
      ensures CookieOk(T(), entryOf, c) && (c.clean ==> Live(entryOf, e) && e !in p.visited)
    {
      hide Exact, Ledger, Coming;
      if c.clean {
        TrackReturned(T(), entryOf, p, c.View(), e);
      }
    }

    /** Returns the entry at the current position. */
    method TakeHere(c: IterCookie) returns (e: DictEntry)
      requires CookieOk(T(), entryOf, c) && c.inserted == [] && c.offset < |Table(T(), c.second)[c.bucket]|
      modifies c
      ensures Yielded(c, e)
    {
      hide OnTrack, Coming;
      ghost var p := c.View();
      var ttbl := if c.second then tbl2 else tbl;
      e := ttbl[c.bucket][c.offset];
      c.offset := c.offset + 1;
      c.visited := c.visited + [e];
      ComingHere(T(), p, c.View());
      Taken(p, c, e);
    }

    /** Returns the first entry of a later bucket. */
    method TakeFirst(c: IterCookie, b: nat) returns (e: DictEntry)
      requires CookieOk(T(), entryOf, c) && Skipped(T(), c.View(), b)
      requires b < |Table(T(), c.second)| && Table(T(), c.second)[b] != []
      modifies c
      ensures Yielded(c, e)
    {
      hide OnTrack, Coming;
      ghost var p := c.View();
      ComingLater(T(), p, b);
      var ttbl := if c.second then tbl2 else tbl;
      e := ttbl[b][0];
      c.bucket := b;
      c.offset := 1;
      c.visited := c.visited + [e];
      ComingHere(T(), p.(bucket := b, offset := 0), c.View());
      Taken(p, c, e);
    }

    /** The next bucket after `b` that holds anything. */
    method NextFull(ttbl: seq<Chain>, b: nat) returns (n: nat)
      requires b < |ttbl|
      ensures b < n <= |ttbl| && (n < |ttbl| ==> ttbl[n] != []) && forall i :: b < i < n ==> ttbl[i] == []
    {
      n := b + 1;
      while n < |ttbl| && |ttbl[n]| == 0
        invariant b < n <= |ttbl| && forall i :: b < i < n ==> ttbl[i] == []
      {
        n := n + 1;
      }
    }

    /** An iteration that is over has returned every entry it was to return, once, apart from those lost. */
    ghost predicate Complete(c: IterCookie)
      reads `entryOf, c
    {
      && NoRepeats(c.visited) && (forall e :: e in c.visited ==> e in c.all && e !in c.lost)
      && (forall e :: e in c.all && e !in c.lost ==> e in c.visited)
      && forall k :: k in entryOf ==> entryOf[k] in c.visited
    }

    /** Goes on from the current position to the end of the tables. */
    method Advance(c: IterCookie) returns (e: DictEntry?)
      requires CookieOk(T(), entryOf, c) && c.inserted == []
      modifies c
      ensures e != null ==> Yielded(c, e)
      ensures e == null ==> Ended(c)
      decreases !c.second
    {
      hide OnTrack, Coming, Complete;
      var ttbl := if c.second then tbl2 else tbl;
      if |ttbl[c.bucket]| > c.offset {
        e := TakeHere(c);
        return;
      }
      var b := NextFull(ttbl, c.bucket);
      if b < |ttbl| {
        e := TakeFirst(c, b);
      } else if !c.second && tbl2 != [] {
        e := OnToSecond(c);
      } else {
        ComingOver(T(), c.View());
        Over(c);
        e := null;
      }
    }

    lemma Over(c: IterCookie)
      requires CookieOk(T(), entryOf, c) && Coming(T(), c.View()) == []
      ensures c.clean ==> Complete(c)
    {
      if c.clean {
        TrackFinished(T(), entryOf, c.View());
      }
    }

    /** Starts on the second table when the first is done. */
    method OnToSecond(c: IterCookie) returns (e: DictEntry?)
      requires CookieOk(T(), entryOf, c) && c.inserted == [] && !c.second && tbl2 != []
      requires Skipped(T(), c.View(), |tbl|)
      modifies c
      ensures e != null ==> Yielded(c, e)
      ensures e == null ==> Ended(c)
      decreases !c.second, 0
    {
      hide Coming, Complete, Skipped, Exact, Ledger;
      ghost var p := c.View();
      ComingSecond(T(), p);
      c.second := true;
      c.bucket, c.offset := 0, 0;
      SameComing(T(), entryOf, p, c.View());
      e := Advance(c);
    }

    /** `NextEntry`: the next entry of an iteration; when there is none, the cookie is dropped. */
    method NextEntry(c: IterCookie) returns (e: DictEntry?)
      requires Valid() && CookieOk(T(), entryOf, c)
      modifies `cookies, c
      ensures Valid()
      ensures e != null ==> Yielded(c, e) && cookies == old(cookies)
      ensures e == null ==> Ended(c) && cookies == RemoveItem(old(cookies), c) && c !in cookies
    {
      hide Placed, CookieOk, Counted, OrderOk, Complete, OnTrack, Coming;
      if |c.inserted| > 0 {
        e := TakeInserted(c);
        return;
      }
      e := Advance(c);
      if e == null {
        StillTracked(T(), entryOf, cookies, c);
        cookies := RemoveItem(cookies, c);
      }
    }
  }
}
