/** Whole runs of the dictionary of src/Dict.cc: any sequence of changes, with or without an iteration going on. */
module DictRuns {
  import opened DictTables
  import opened DictIteration
  import opened Dictionaries

  datatype Op = Put(key: HashKey, value: int) | Del(key: HashKey) | Get(key: HashKey)

  ghost predicate Proper(ops: seq<Op>) {
    forall i :: 0 <= i < |ops| && ops[i].Put? ==> ops[i].value != NULL
  }

  /** A plain finite map after an operation, and the value the operation returns. */
  ghost function Effect(m: map<HashKey, int>, op: Op): map<HashKey, int> {
    match op
    case Put(k, v) => m[k := v]
    case Del(k) => m - {k}
    case Get(_) => m
  }

  ghost function Answer(m: map<HashKey, int>, op: Op): int {
    if op.key in m then m[op.key] else NULL
  }

  /** The keys in the order of their insertion. */
  ghost function EffectOnOrder(m: map<HashKey, int>, keys: seq<HashKey>, op: Op): seq<HashKey> {
    match op
    case Put(k, _) => if k in m then keys else keys + [k]
    case Del(k) => RemoveItem(keys, k)
    case Get(_) => keys
  }

  ghost function MapAfter(m: map<HashKey, int>, ops: seq<Op>): map<HashKey, int> {
    if ops == [] then m else Effect(MapAfter(m, ops[..|ops| - 1]), ops[|ops| - 1])
  }

  ghost function AnswersOf(m: map<HashKey, int>, ops: seq<Op>): seq<int> {
    if ops == [] then []
    else AnswersOf(m, ops[..|ops| - 1]) + [Answer(MapAfter(m, ops[..|ops| - 1]), ops[|ops| - 1])]
  }

  ghost function OrderAfter(m: map<HashKey, int>, keys: seq<HashKey>, ops: seq<Op>): seq<HashKey> {
    if ops == [] then keys
    else EffectOnOrder(MapAfter(m, ops[..|ops| - 1]), OrderAfter(m, keys, ops[..|ops| - 1]), ops[|ops| - 1])
  }

  method Perform(d: Dictionary, op: Op) returns (out: int)
    requires d.Valid() && d.NonNull() && (op.Put? ==> op.value != NULL)
    modifies d, d.cookies, d.Entries()
    ensures d.Valid() && d.NonNull() && d.cookies == old(d.cookies)
    ensures d.Contents() == Effect(old(d.Contents()), op) && out == Answer(old(d.Contents()), op)
    ensures d.ordered ==> KeysOf(d.order) == EffectOnOrder(old(d.Contents()), KeysOf(old(d.order)), op)
    ensures forall e :: e in d.Entries() ==> e in old(d.Entries()) || fresh(e)
  {
    hide Dictionary.Valid;
    match op
    case Put(k, v) => out := d.Insert(k, v);
    case Del(k) => out := d.Remove(k);
    case Get(k) => out := d.Lookup(k);
  }

  /** Through every run the dictionary agrees with a plain finite map, and an ordered one with a list of keys. */
  method Run(d: Dictionary, ops: seq<Op>) returns (out: seq<int>)
    requires d.Valid() && d.NonNull() && Proper(ops)
    modifies d, d.cookies, d.Entries()
    ensures d.Valid() && d.NonNull()
    ensures d.Contents() == MapAfter(old(d.Contents()), ops) && out == AnswersOf(old(d.Contents()), ops)
    ensures d.ordered ==> KeysOf(d.order) == OrderAfter(old(d.Contents()), KeysOf(old(d.order)), ops)
  {
    hide Dictionary.Valid, Effect, Answer, EffectOnOrder;
    out := [];
    ghost var m, keys := d.Contents(), KeysOf(d.order);
    for i := 0 to |ops|
      invariant d.Valid() && d.NonNull() && d.cookies == old(d.cookies)
      invariant forall e :: e in d.Entries() ==> e in old(d.Entries()) || fresh(e)
      invariant d.Contents() == MapAfter(m, ops[..i]) && out == AnswersOf(m, ops[..i])
      invariant d.ordered ==> KeysOf(d.order) == OrderAfter(m, keys, ops[..i])
    {
      var answer := Perform(d, ops[i]);
      out := out + [answer];
      assert ops[..i + 1][..i] == ops[..i];
    }
    assert ops[..|ops|] == ops;
  }

  // ----- iterations -----

  /** Lets an iteration run to its end. It does end, with the entries that were to come; and if nothing has spoiled it,
      they are there and it is complete. */
  method Drain(d: Dictionary, c: IterCookie) returns (out: Chain)
    requires d.Valid() && CookieOk(d.T(), d.entryOf, c)
    modifies d`cookies, c
    ensures d.Valid() && c !in d.cookies && Located(d.T(), old(c.View())) && out == Coming(d.T(), old(c.View()))
    ensures c.visited == old(c.visited) + out && c.all == old(c.all) && c.lost == old(c.lost) && c.clean == old(c.clean)
    ensures c.clean ==> d.Complete(c) && forall e :: e in out ==> Live(d.entryOf, e)
  {
    hide Dictionary.Valid, OnTrack, Dictionary.Complete, Coming, Located;
    ComingLive(d, c);
    out := [];
    ghost var t, p := d.T(), c.View();
    var e := d.NextEntry(c);
    while e != null
      invariant d.Valid() && c.clean == old(c.clean) && c.all == old(c.all) && c.lost == old(c.lost)
      invariant e != null ==> CookieOk(t, d.entryOf, c) && c.visited == old(c.visited) + out + [e]
      invariant e != null ==> Coming(t, p) == out + [e] + Coming(t, c.View())
      invariant e == null ==> (c.clean ==> d.Complete(c)) && c.visited == old(c.visited) + out && Coming(t, p) == out
      invariant e == null ==> c !in d.cookies
      decreases |Coming(t, p)| - |out|, e != null
    {
      out := out + [e];
      e := d.NextEntry(c);
    }
  }

  lemma ComingLive(d: Dictionary, c: IterCookie)
    requires CookieOk(d.T(), d.entryOf, c)
    ensures Located(d.T(), c.View())
    ensures c.clean ==> forall e :: e in Coming(d.T(), c.View()) ==> Live(d.entryOf, e)
  {
  }

  /** What stays true of an iteration while it is under way; while there is one table nothing spoils it. */
  ghost predicate Underway(d: Dictionary, c: IterCookie)
    reads d, d.cookies, c
  {
    d.Valid() && c in d.cookies && (d.tbl2 == [] ==> c.clean)
  }

  lemma UnderwayOk(d: Dictionary, c: IterCookie)
    requires Underway(d, c)
    ensures CookieOk(d.T(), d.entryOf, c) && NoRepeats(d.cookies) && |d.tbl| > 0
    ensures forall j :: 0 <= j < |d.cookies| ==> CookieOk(d.T(), d.entryOf, d.cookies[j])
    ensures Located(d.T(), c.View()) && (c.clean ==> OnTrack(d.T(), d.entryOf, c.View()))
    ensures forall k :: k in d.entryOf ==> d.entryOf[k].key == k
    ensures c.clean ==> forall k :: k in d.entryOf ==> d.entryOf[k] in c.all
  {
    var j :| 0 <= j < |d.cookies| && d.cookies[j] == c;
  }

  /** The entries of the dictionary, those an iteration has returned, all there have been since its start, those removed
      unseen, and whether nothing has spoiled it. */
  datatype Moment = Moment(entries: map<HashKey, DictEntry>, visited: Chain, all: set<DictEntry>, lost: set<DictEntry>,
                           clean: bool)

  ghost function Now(d: Dictionary, c: IterCookie): Moment
    reads d`entryOf, c
  {
    Moment(d.entryOf, c.visited, c.all, c.lost, c.clean)
  }

  /** A change is safe for an iteration that stands at `p`. */
  ghost predicate Safe(t: Tables, m: map<HashKey, DictEntry>, p: Progress, op: Op)
    requires Located(t, p)
  {
    match op
    case Put(k, _) => k in m || SafeInsert(t, p, k)
    case Del(k) => k in m ==> SafeToRemove(t, p, m[k])
    case Get(_) => true
  }

  /** What a change does: a new key adds its entry, and a key removed loses its entry to the iteration unless it has
      been returned. */
  ghost predicate Changed(op: Op, a: Moment, b: Moment) {
    && (b.clean ==> a.clean)
    && match op
       case Put(k, _) =>
         if k in a.entries then b == a
         else k in b.entries && var e := b.entries[k];
              e.key == k && e !in a.all && b == Moment(a.entries[k := e], a.visited, a.all + {e}, a.lost, b.clean)
       case Del(k) =>
         if k !in a.entries then b == a
         else var e := a.entries[k];
              b == Moment(a.entries - {k}, a.visited, a.all, a.lost + if e in a.visited then {} else {e}, b.clean)
       case Get(_) => b == a
  }

  /** What a change has done to an iteration that was at `b`, at the moment `a`, with the tables `t`: it has spoiled
      the iteration if and only if it was not safe for it, and that is if and only if the iteration, continued without
      further change, would no longer return every entry once, and no other. */
  ghost predicate Handled(d: Dictionary, c: IterCookie, op: Op, t: Tables, b: Snap, a: Moment)
    reads d, d.cookies, c
  {
    && Underway(d, c) && Changed(op, a, Now(d, c)) && Located(t, b.p) && Located(d.T(), c.View())
    && (d.tbl2 == [] <==> t.tbl2 == []) && c.clean == (b.clean && Safe(t, a.entries, b.p, op))
    && (b.clean ==> (c.clean <==> Exact(d.T(), d.entryOf, c.View())))
  }

  method InsertDuring(d: Dictionary, c: IterCookie, k: HashKey, v: int)
    requires Underway(d, c) && d.NonNull() && v != NULL
    modifies d, d.cookies, d.Entries()
    ensures Handled(d, c, Put(k, v), old(d.T()), old(Snap(c.View(), c.clean)), old(Now(d, c)))
    ensures d.NonNull() && d.cookies == old(d.cookies)
    ensures forall e :: e in c.all ==> e in old(c.all) || fresh(e)
    ensures forall e :: e in d.Entries() ==> e in old(d.Entries()) || fresh(e)
  {
    hide Dictionary.Valid, OnTrack, SafeInsert, SafeToRemove, Exact, Located, Changed, CookieOk, PutIn, TakenOut;
    UnderwayOk(d, c);
    ghost var t, m, b, a := d.T(), d.entryOf, Snap(c.View(), c.clean), Now(d, c);
    ghost var j :| 0 <= j < |d.cookies| && d.cookies[j] == c;
    SnapsAre(d.cookies);
    AlwaysSafe(t, m, b);
    var _ := d.Insert(k, v);
    assert Noted(b, c, if k in m then {} else {d.entryOf[k]}, t, d.T()) && Judged(b, c, d.T(), d.entryOf);
    PutChanged(k, v, a, Now(d, c));
    UnderwayOk(d, c);
    TrackExact(d.T(), d.entryOf, c.View());
  }

  method RemoveDuring(d: Dictionary, c: IterCookie, k: HashKey)
    requires Underway(d, c) && d.NonNull()
    modifies d, d.cookies
    ensures Handled(d, c, Del(k), old(d.T()), old(Snap(c.View(), c.clean)), old(Now(d, c)))
    ensures d.NonNull() && d.cookies == old(d.cookies) && c.all == old(c.all)
    ensures forall e :: e in d.Entries() ==> e in old(d.Entries())
  {
    hide Dictionary.Valid, OnTrack, SafeInsert, SafeToRemove, Exact, Located, Changed, CookieOk, PutIn, TakenOut;
    UnderwayOk(d, c);
    ghost var t, m, b, a := d.T(), d.entryOf, Snap(c.View(), c.clean), Now(d, c);
    ghost var j :| 0 <= j < |d.cookies| && d.cookies[j] == c;
    SnapsAre(d.cookies);
    AlwaysSafe(t, m, b);
    var _ := d.Remove(k);
    assert k in m ==> Forgotten(b, c, m[k], t, d.T()) && Judged(b, c, d.T(), d.entryOf);
    DelChanged(k, a, Now(d, c));
    UnderwayOk(d, c);
    TrackExact(d.T(), d.entryOf, c.View());
  }

  /** A change during an iteration. */
  method Change(d: Dictionary, c: IterCookie, op: Op)
    requires Underway(d, c) && d.NonNull() && (op.Put? ==> op.value != NULL)
    modifies d, d.cookies, d.Entries()
    ensures Handled(d, c, op, old(d.T()), old(Snap(c.View(), c.clean)), old(Now(d, c)))
    ensures d.NonNull() && d.cookies == old(d.cookies)
    ensures forall e :: e in c.all ==> e in old(c.all) || fresh(e)
    ensures forall e :: e in d.Entries() ==> e in old(d.Entries()) || fresh(e)
  {
    hide Dictionary.Valid, OnTrack, Exact, Located, CookieOk;
    match op
    case Put(k, v) =>
      InsertDuring(d, c, k, v);
    case Del(k) =>
      RemoveDuring(d, c, k);
    case Get(k) =>
      UnderwayOk(d, c);
      TrackExact(d.T(), d.entryOf, c.View());
      var _ := d.Lookup(k);
  }

  lemma AlwaysSafe(t: Tables, m: map<HashKey, DictEntry>, b: Snap)
    requires |t.tbl| > 0 && Located(t, b.p) && (b.clean ==> OnTrack(t, m, b.p)) && (t.tbl2 == [] ==> b.clean)
    requires forall k :: k in m ==> m[k].key == k
    ensures t.tbl2 == [] ==> (forall k :: SafeInsert(t, b.p, k)) && forall k :: k in m ==> SafeToRemove(t, b.p, m[k])
  {
    hide OnTrack, SafeInsert, SafeToRemove;
    if t.tbl2 == [] {
      OneTableSafe(t, m, b.p);
    }
  }

  lemma TrackExact(t: Tables, m: map<HashKey, DictEntry>, p: Progress)
    requires Located(t, p)
    ensures OnTrack(t, m, p) ==> Exact(t, m, p)
  {
  }

  lemma PutChanged(k: HashKey, v: int, a: Moment, a': Moment)
    requires k in a'.entries && a'.entries[k].key == k && (k in a.entries || a'.entries[k] !in a.all)
    requires a'.entries == if k in a.entries then a.entries else a.entries[k := a'.entries[k]]
    requires a'.visited == a.visited && a'.lost == a.lost && (a'.clean ==> a.clean)
             && (k in a.entries ==> a'.clean == a.clean)
    requires a'.all == a.all + if k in a.entries then {} else {a'.entries[k]}
    ensures Changed(Put(k, v), a, a')
  {
  }

  lemma DelChanged(k: HashKey, a: Moment, a': Moment)
    requires a'.entries == a.entries - {k} && a'.visited == a.visited && a'.all == a.all && (a'.clean ==> a.clean)
    requires k !in a.entries ==> a'.lost == a.lost && a'.clean == a.clean
    requires k in a.entries ==> a'.lost == a.lost + if a.entries[k] in a.visited then {} else {a.entries[k]}
    ensures Changed(Del(k), a, a')
  {
    assert k !in a.entries ==> a.entries - {k} == a.entries;
  }

  datatype Step = Change(op: Op) | Turn(cookie: nat) | Start

  /** What a step does to the iteration watched: a change as above, a turn may return an entry, which is there and is
      new unless the iteration is spoiled, and the start of another iteration does nothing. */
  ghost predicate StepOk(s: Step, a: Moment, b: Moment) {
    match s
    case Change(op) => Changed(op, a, b)
    case Turn(_) =>
      || b == a
      || (b.visited != [] && var e := b.visited[|b.visited| - 1];
          b == a.(visited := a.visited + [e]) && (a.clean ==> Live(a.entries, e) && e !in a.visited))
    case Start => b == a
  }

  /** A step of any robust iteration; `done` when it was the last of `c`. */
  method Turn(d: Dictionary, c: IterCookie, j: nat) returns (done: bool)
    requires Underway(d, c)
    modifies d`cookies, d.cookies
    ensures !done ==> Underway(d, c)
    ensures done ==> d.Valid() && (c.clean ==> d.Complete(c))
    ensures StepOk(Step.Turn(j), old(Now(d, c)), Now(d, c))
    ensures forall i :: 0 <= i < |d.cookies| ==> d.cookies[i] in old(d.cookies)
  {
    hide Dictionary.Valid, CookieOk, Dictionary.Complete, Coming;
    UnderwayOk(d, c);
    done := false;
    if j < |d.cookies| {
      var c' := d.cookies[j];
      RemovedItem(d.cookies, c');
      ghost var rest := RemoveItem(d.cookies, c');
      assert forall i :: 0 <= i < |rest| ==> rest[i] in rest;
      var e := d.NextEntry(c');
      done := e == null && c' == c;
    }
  }

  /** Another robust iteration starts. */
  method StartAnother(d: Dictionary, c: IterCookie)
    requires Underway(d, c)
    modifies d`cookies
    ensures Underway(d, c) && d.cookies[..|d.cookies| - 1] == old(d.cookies) && fresh(d.cookies[|d.cookies| - 1])
  {
    hide Dictionary.Valid, CookieOk;
    var c' := d.InitForIteration();
    d.MakeRobustCookie(c');
  }

  /** The moments of an iteration from its start on, one step after the other. */
  ghost predicate Follows(steps: seq<Step>, trace: seq<Moment>) {
    && 0 < |trace| <= |steps| + 1
    && forall i :: 0 <= i < |trace| - 1 ==> StepOk(steps[i], trace[i], trace[i + 1])
  }

  lemma FollowsOn(steps: seq<Step>, trace: seq<Moment>, a: Moment)
    requires Follows(steps, trace) && |trace| <= |steps| && StepOk(steps[|trace| - 1], trace[|trace| - 1], a)
    ensures Follows(steps, trace + [a])
  {
  }

  /** What has been lost to an iteration stays lost, and what it has returned stays returned. */
  lemma {:induction false} LostForGood(steps: seq<Step>, trace: seq<Moment>, i: nat, j: nat)
    requires Follows(steps, trace) && i <= j < |trace|
    ensures trace[i].lost <= trace[j].lost && trace[i].all <= trace[j].all && trace[i].visited <= trace[j].visited
    decreases j
  {
    if i < j {
      LostForGood(steps, trace, i, j - 1);
      assert StepOk(steps[j - 1], trace[j - 1], trace[j]);
    }
  }

  /** An iteration made robust at its start, under any interleaving of changes with steps of it and of any other
      robust iterations, old or new, with one table or two. At each moment the entries there have been since its start
      and those removed unseen follow from the steps. A finished iteration that no change has spoiled has returned,
      once each, exactly the former without the latter; and with one table no change spoils it. */
  method RunSteps(d: Dictionary, steps: seq<Step>) returns (c: IterCookie, done: bool, ghost trace: seq<Moment>)
    requires d.Valid() && d.NonNull()
    requires forall i :: 0 <= i < |steps| && steps[i].Change? && steps[i].op.Put? ==> steps[i].op.value != NULL
    modifies d, d.cookies, d.Entries()
    ensures d.Valid() && fresh(c) && (old(d.tbl2) == [] ==> c.clean)
    ensures Follows(steps, trace) && trace[0] == Moment(old(d.entryOf), [], old(d.Entries()), {}, true)
    ensures trace[|trace| - 1] == Now(d, c) && (!done ==> |trace| == |steps| + 1 && CookieOk(d.T(), d.entryOf, c))
    ensures done && c.clean ==> d.Complete(c)
  {
    hide Dictionary.Valid, CookieOk, Dictionary.Complete, Changed, StepOk, Follows, Exact, Located;
    c := d.InitForIteration();
    d.MakeRobustCookie(c);
    trace := [Now(d, c)];
    FollowsStart(steps, trace[0]);
    done := false;
    var n := 0;
    while n < |steps| && !done
      invariant 0 <= n <= |steps| && d.NonNull() && d.Valid() && |trace| == n + 1
      invariant !done ==> Underway(d, c) && (d.tbl2 == [] <==> old(d.tbl2) == [])
      invariant old(d.tbl2) == [] ==> c.clean
      invariant done && c.clean ==> d.Complete(c)
      invariant forall j :: 0 <= j < |d.cookies| ==> d.cookies[j] in old(d.cookies) || fresh(d.cookies[j])
      invariant forall e :: e in d.Entries() ==> e in old(d.Entries()) || fresh(e)
      invariant Follows(steps, trace) && trace[n] == Now(d, c)
      invariant trace[0] == Moment(old(d.entryOf), [], old(d.Entries()), {}, true)
      decreases |steps| - n
    {
      done := TakeStep(d, c, steps[n]);
      FollowsOn(steps, trace, Now(d, c));
      trace := trace + [Now(d, c)];
      n := n + 1;
    }
    if !done {
      UnderwayOk(d, c);
    }
  }

  lemma FollowsStart(steps: seq<Step>, a: Moment)
    ensures Follows(steps, [a])
  {
  }

  method TakeStep(d: Dictionary, c: IterCookie, s: Step) returns (done: bool)
    requires Underway(d, c) && d.NonNull() && (s.Change? && s.op.Put? ==> s.op.value != NULL)
    modifies d, d.cookies, d.Entries()
    ensures d.Valid() && d.NonNull() && StepOk(s, old(Now(d, c)), Now(d, c)) && (old(d.tbl2) == [] ==> c.clean)
    ensures !done ==> Underway(d, c) && (d.tbl2 == [] <==> old(d.tbl2) == [])
    ensures done && c.clean ==> d.Complete(c)
    ensures forall j :: 0 <= j < |d.cookies| ==> d.cookies[j] in old(d.cookies) || fresh(d.cookies[j])
    ensures forall e :: e in d.Entries() ==> e in old(d.Entries()) || fresh(e)
  {
    hide Dictionary.Valid, CookieOk, Dictionary.Complete, Changed, Exact, Located;
    done := false;
    match s {
      case Change(op) => Change(d, c, op);
      case Turn(j) => done := Turn(d, c, j);
      case Start => StartAnother(d, c);
    }
  }

  /** With one table, such an iteration continued to its end has returned, once each, exactly the entries there have
      been since its start without those removed unseen, and among them all that are there; and each was there when it
      was returned. */
  method RunIteration(d: Dictionary, steps: seq<Step>) returns (c: IterCookie, ghost trace: seq<Moment>)
    requires d.Valid() && d.NonNull() && d.tbl2 == []
    requires forall i :: 0 <= i < |steps| && steps[i].Change? && steps[i].op.Put? ==> steps[i].op.value != NULL
    modifies d, d.cookies, d.Entries()
    ensures d.Valid() && NoRepeats(c.visited) && Follows(steps, trace)
    ensures trace[0] == Moment(old(d.entryOf), [], old(d.Entries()), {}, true)
    ensures var last := trace[|trace| - 1];
            && last.clean && d.entryOf == last.entries && last.visited <= c.visited
            && (forall e :: e in c.visited ==> e in last.all && e !in last.lost)
            && (forall e :: e in last.all && e !in last.lost ==> e in c.visited)
            && (forall k :: k in last.entries ==> last.entries[k] in c.visited)
            && forall i :: |last.visited| <= i < |c.visited| ==> Live(last.entries, c.visited[i])
  {
    hide Dictionary.Valid, CookieOk, Follows, Coming, Located;
    var done;
    c, done, trace := RunSteps(d, steps);
    if !done {
      var out := Drain(d, c);
      assert forall i :: 0 <= i < |out| ==> out[i] in out;
    }
  }
}
