/** `NFA_State` and `NFA_Machine` of src/NFA.cc. States live in a pool and are named by their IDs,
    which the source draws from one counter. */
module NfaMachines {
  import opened NfaGraphs
  import opened NfaConstructions

  /** The marks of a copy in progress: distinct new states, one for each marked state of `own`. */
  ghost predicate MarksOk(own: set<int>, base: int, g: Graph, m: map<int, int>) {
    && m.Keys <= own
    && (forall x :: x in m ==> base < m[x] && m[x] in g)
    && (forall x, y :: x in m && y in m && m[x] == m[y] ==> x == y)
  }

  ghost predicate Grown(m: map<int, int>, m': map<int, int>) {
    forall x :: x in m ==> x in m' && m'[x] == m[x]
  }

  /** State `y` of the original graph has been copied completely. */
  ghost predicate CopiedAt(g0: Graph, g: Graph, m: map<int, int>, y: int) {
    && y in m && y in g0 && Covers(m, g0[y].next)
    && m[y] in g && g[m[y]] == Node(g0[y].sym, NO_ACCEPT, Image(m, g0[y].next))
  }

  /** The states marked since `m0` are reachable from `x` and, apart from `x` itself, copied completely. */
  ghost predicate Copying(g0: Graph, g: Graph, m0: map<int, int>, m: map<int, int>, x: int, i: nat) {
    && x in m && x in g0 && i <= |g0[x].next| && m[x] in g && Covers(m, g0[x].next[..i])
    && g[m[x]] == Node(g0[x].sym, NO_ACCEPT, Image(m, g0[x].next[..i]))
    && forall y :: y in m && y !in m0 && y != x ==> CopiedAt(g0, g, m, y) && Reach(g0, x, y)
  }

  lemma CopyingAt(g0: Graph, g: Graph, m0: map<int, int>, m: map<int, int>, x: int, i: nat)
    requires Copying(g0, g, m0, m, x, i)
    ensures x in m && x in g0 && m[x] in g
  {
  }

  lemma CopyingStart(g0: Graph, g: Graph, m0: map<int, int>, m: map<int, int>, x: int)
    requires x in g0 && m.Keys == m0.Keys + {x} && m[x] in g && g[m[x]] == Node(g0[x].sym, NO_ACCEPT, [])
    ensures Copying(g0, g, m0, m, x, 0)
  {
  }

  lemma CopyingDone(g0: Graph, g: Graph, m0: map<int, int>, m: map<int, int>, x: int, i: nat)
    requires Copying(g0, g, m0, m, x, i) && x in g0 && i == |g0[x].next|
    ensures forall y :: y in m && y !in m0 ==> CopiedAt(g0, g, m, y) && Reach(g0, x, y)
  {
    hide Reach;
    ReachSelf(g0, x);
    assert g0[x].next[..i] == g0[x].next;
  }

  lemma ImageGrown(m: map<int, int>, m': map<int, int>, s: seq<int>)
    requires Grown(m, m') && Covers(m, s)
    ensures Covers(m', s) && Image(m', s) == Image(m, s)
  {
    forall i | 0 <= i < |s|
      ensures s[i] in m' && m'[s[i]] == m[s[i]]
    {
      var x := s[i];
    }
  }

  lemma CopiedKept(g0: Graph, g: Graph, g': Graph, m: map<int, int>, m': map<int, int>, y: int)
    requires CopiedAt(g0, g, m, y) && Grown(m, m') && m[y] in g' && g'[m[y]] == g[m[y]]
    ensures CopiedAt(g0, g', m', y)
  {
    ImageGrown(m, m', g0[y].next);
  }

  /** One more successor of `x` has been copied, from marks `m` to marks `m'`, and linked in. */
  lemma CopyStep(g0: Graph, own: set<int>, base: int, g: Graph, g1: Graph, g2: Graph,
                 m0: map<int, int>, m: map<int, int>, m': map<int, int>, x: int, i: nat)
    requires Copying(g0, g, m0, m, x, i) && i < |g0[x].next|
    requires Agree(g, g1, g.Keys) && Grown(m, m') && MarksOk(own, base, g1, m')
    requires var c := g0[x].next[i];
             c in m' && (forall y :: y in m' && y !in m ==> CopiedAt(g0, g1, m', y) && Reach(g0, c, y)) &&
             m'[x] in g1 && g2 == g1[m'[x] := g1[m'[x]].(next := g1[m'[x]].next + [m'[c]])]
    ensures Copying(g0, g2, m0, m', x, i + 1)
  {
    var next := g0[x].next;
    ImageGrown(m, m', next[..i]);
    assert next[..i + 1] == next[..i] + [next[i]];
    assert Image(m', next[..i + 1]) == Image(m', next[..i]) + [m'[next[i]]];
    forall y | y in m' && y !in m0 && y != x
      ensures CopiedAt(g0, g2, m', y) && Reach(g0, x, y)
    {
      assert m'[y] != m'[x];
      if y in m {
        CopiedKept(g0, g, g2, m, m', y);
      } else {
        CopiedKept(g0, g1, g2, m', m', y);
        var c := next[i];
        assert c in next;
        ReachCons(g0, x, c, y);
      }
    }
  }

  lemma MarkShrinks(own: set<int>, m: map<int, int>, m': map<int, int>, x: int)
    requires Grown(m, m') && x in own && x in m' && x !in m
    ensures own - m'.Keys < own - m.Keys
  {
    assert x in own - m.Keys && x !in own - m'.Keys;
    assert forall z :: z in own - m'.Keys ==> z in own - m.Keys;
  }

  /** No state that lost its mark between `before` and `after` has a marked successor left. */
  ghost predicate SuccessorsCleared(g: Graph, before: set<int>, after: set<int>) {
    forall y :: y in before && y !in after ==> y in g && forall z :: z in g[y].next ==> z !in after
  }

  lemma ClearedTrans(g: Graph, a: set<int>, b: set<int>, c: set<int>)
    requires c <= b <= a && SuccessorsCleared(g, a, b) && SuccessorsCleared(g, b, c)
    ensures SuccessorsCleared(g, a, c)
  {
  }

  /** Once the first state is unmarked, nothing it reaches is marked any more. */
  lemma {:induction false} ClearedAlong(g: Graph, before: set<int>, after: set<int>, p: seq<int>)
    requires Path(g, p) && Closed(g, before) && SuccessorsCleared(g, before, after) && p[0] in before && p[0] !in after
    ensures p[|p| - 1] !in after
    decreases |p|
  {
    if |p| > 1 {
      var x, y := p[0], p[1];
      ClosedStep(g, before, x, y);
      assert x in before && x !in after && y in g[x].next;
      ClearedAlong(g, before, after, p[1..]);
    }
  }

  const NO_UPPER_BOUND := -1

  class StatePool {
    var nodes: Graph
    var lastId: int
    var mark: map<int, int>
    // the labels states may carry: those of the pattern, and epsilon
    ghost var allowed: set<Label>

    ghost predicate Valid()
      reads `nodes, `lastId, `allowed
    {
      && 0 <= lastId && Whole(nodes) && Epsilon in allowed
      && forall x :: x in nodes ==> 1 <= x <= lastId && nodes[x].sym in allowed
    }

    constructor ()
      ensures Valid() && nodes == map[] && mark == map[] && allowed == {Epsilon}
    {
      nodes, lastId, mark, allowed := map[], 0, map[], {Epsilon};
    }

    method NewState(l: Label) returns (id: int)
      requires Valid() && l in allowed
      modifies `nodes, `lastId
      ensures Valid() && id == lastId == old(lastId) + 1
      ensures nodes == old(nodes)[id := Node(l, NO_ACCEPT, [])]
    {
      lastId := lastId + 1;
      id := lastId;
      nodes := nodes[id := Node(l, NO_ACCEPT, [])];
    }

    method AddXtion(x: int, y: int)
      requires Valid() && x in nodes && y in nodes
      modifies `nodes
      ensures Valid() && nodes == old(nodes)[x := old(nodes)[x].(next := old(nodes)[x].next + [y])]
    {
      nodes := nodes[x := nodes[x].(next := nodes[x].next + [y])];
    }

    /** `NFA_State::DeepCopy`: copies what `x` reaches through unmarked states, marking as it goes. */
    method DeepCopy(x: int, ghost g0: Graph, ghost own: set<int>, ghost base: int) returns (copy: int)
      requires CopyInv(g0, own, base) && x in own
      modifies `nodes, `lastId, `mark
      ensures CopyInv(g0, own, base) && old(lastId) <= lastId && Agree(old(nodes), nodes, old(nodes).Keys)
      ensures Grown(old(mark), mark)
      ensures x in mark && copy == mark[x]
      ensures forall y :: y in mark && y !in old(mark) ==> CopiedAt(g0, nodes, mark, y) && Reach(g0, x, y)
      decreases own - mark.Keys, 0
    {
      hide Copying, CopiedAt, Closed, Reach;
      if x in mark {
        return mark[x];
      }
      copy := NewState(nodes[x].sym);
      mark := mark[x := copy];
      CopyingStart(g0, nodes, old(mark), mark, x);
      var i := 0;
      while i < |nodes[x].next|
        invariant CopyInv(g0, own, base) && old(lastId) < lastId && Agree(old(nodes), nodes, old(nodes).Keys)
        invariant Grown(old(mark), mark) && x in mark && copy == mark[x] && copy !in old(nodes)
        invariant 0 <= i <= |nodes[x].next| && Copying(g0, nodes, old(mark), mark, x, i)
      {
        MarkShrinks(own, old(mark), mark, x);
        CopySuccessor(x, i, copy, g0, own, base, old(mark));
        i := i + 1;
      }
      CopyingDone(g0, nodes, old(mark), mark, x, i);
    }

    ghost predicate CopyInv(g0: Graph, own: set<int>, base: int)
      reads this
    {
      && Valid() && Closed(g0, own) && Agree(g0, nodes, own)
      && base <= lastId && (forall y :: y in own ==> y <= base)
      && MarksOk(own, base, nodes, mark)
    }

    /** The loop body of `DeepCopy`: copies successor `i` of `x` and hangs it into the copy of `x`. */
    method CopySuccessor(x: int, i: nat, copy: int, ghost g0: Graph, ghost own: set<int>, ghost base: int,
                         ghost m0: map<int, int>)
      requires CopyInv(g0, own, base) && x in own
      requires Copying(g0, nodes, m0, mark, x, i) && i < |g0[x].next| && copy == mark[x]
      modifies `nodes, `lastId, `mark
      ensures CopyInv(g0, own, base) && old(lastId) <= lastId && Grown(old(mark), mark)
      ensures forall y :: y in old(nodes) && y != copy ==> y in nodes && nodes[y] == old(nodes)[y]
      ensures Copying(g0, nodes, m0, mark, x, i + 1)
      decreases own - mark.Keys, 1
    {
      hide Copying, CopiedAt, Closed, Reach;
      ghost var g, m := nodes, mark;
      CopyingAt(g0, g, m0, m, x, i);
      ClosedStep(g0, own, x, g0[x].next[i]);
      var c := DeepCopy(nodes[x].next[i], g0, own, base);
      ghost var g1 := nodes;
      AddXtion(copy, c);
      CopyStep(g0, own, base, g, g1, nodes, m0, m, mark, x, i);
    }

    /** `NFA_State::ClearMarks`: unmarks what `x` reaches through marked states. */
    method ClearMarks(x: int, ghost own: set<int>)
      requires Valid() && Closed(nodes, own) && x in own && mark.Keys <= own
      modifies `mark
      ensures mark.Keys <= old(mark).Keys && x !in mark
      ensures SuccessorsCleared(nodes, old(mark).Keys, mark.Keys)
      decreases mark.Keys
    {
      if x in mark {
        mark := mark - {x};
        var i := 0;
        while i < |nodes[x].next|
          invariant 0 <= i <= |nodes[x].next| && mark.Keys <= old(mark).Keys - {x}
          invariant SuccessorsCleared(nodes, old(mark).Keys - {x}, mark.Keys)
          invariant forall j :: 0 <= j < i ==> nodes[x].next[j] !in mark
        {
          ghost var m := mark.Keys;
          ClosedStep(nodes, own, x, nodes[x].next[i]);
          ClearMarks(nodes[x].next[i], own);
          ClearedTrans(nodes, old(mark).Keys - {x}, m, mark.Keys);
          i := i + 1;
        }
        assert forall z :: z in nodes[x].next ==> z !in mark;
      }
    }
  }

  /** A machine: a closed set of unaccepting states whose final state the first one reaches. */
  ghost predicate Sound(g: Graph, a: int, f: int, own: set<int>) {
    && Closed(g, own) && a in own && f in own && Reach(g, a, f)
    && forall x :: x in own ==> g[x].accept == NO_ACCEPT
  }

  lemma OwnStates(g: Graph, own: set<int>)
    requires Closed(g, own)
    ensures Agree(g, g, own) && forall x :: x in own ==> x in g
  {
  }

  lemma AgreeClosed(g: Graph, g': Graph, own: set<int>)
    requires Agree(g, g', g.Keys) && Closed(g, own)
    ensures Agree(g, g', own)
  {
  }

  lemma SoundFrame(g: Graph, g': Graph, a: int, f: int, own: set<int>)
    requires Sound(g, a, f, own) && Agree(g, g', own)
    ensures Sound(g', a, f, own) && Lang(g', a, f) == Lang(g, a, f)
  {
    LangFrame(g, g', own, a, f);
    ReachKept(g, g', own, a, f);
  }

  lemma EdgeReach(g: Graph, g': Graph, own: set<int>, a: int, f: int, s: int)
    requires Closed(g, own) && a in own && Reach(g, a, f) && EdgeAdded(g, g', own, f, s) && s in g'
    ensures Reach(g', a, s)
  {
    ReachKept(g, g', own, a, f);
    ReachSelf(g', s);
    ReachCons(g', f, s, s);
    var p :| PathFromTo(g', a, f, p);
    ReachTrans(g', a, f, s, p);
  }

  lemma AppendSound(g: Graph, g': Graph, own: set<int>, a: int, f: int, s: int)
    requires Sound(g, a, f, own) && s !in own && EdgeAdded(g, g', own, f, s)
    requires s in g' && g'[s].next == [] && g'[s].accept == NO_ACCEPT
    ensures Sound(g', a, s, own + {s}) && Lang(g', a, s) == Cat(Lang(g, a, f), ReadBy(g'[s].sym))
  {
    AppendLang(g, g', own, a, f, s);
    EdgeReach(g, g', own, a, f, s);
  }

  lemma LinkSound(g: Graph, g': Graph, own1: set<int>, own2: set<int>, a1: int, f1: int, a2: int, f2: int)
    requires Sound(g, a1, f1, own1) && Sound(g, a2, f2, own2) && own1 !! own2
    requires EdgeAdded(g, g', own1, f1, a2) && Agree(g, g', own2)
    ensures Sound(g', a1, f2, own1 + own2) && Lang(g', a1, f2) == Cat(Lang(g, a1, f1), Lang(g, a2, f2))
  {
    LinkLang(g, g', own1, own2, a1, f1, a2, f2);
    EdgeReach(g, g', own1, a1, f1, a2);
    SoundFrame(g, g', a2, f2, own2);
    var p :| PathFromTo(g', a1, a2, p);
    ReachTrans(g', a1, a2, f2, p);
  }

  lemma PrependSound(g: Graph, g': Graph, own: set<int>, a: int, f: int, e: int)
    requires Sound(g, a, f, own) && Agree(g, g', own) && e !in own
    requires e in g' && g'[e] == Node(Epsilon, NO_ACCEPT, [a])
    ensures Sound(g', e, f, own + {e}) && Lang(g', e, f) == Lang(g, a, f)
  {
    SoundFrame(g, g', a, f, own);
    ReachCons(g', e, a, f);
    forall w
      ensures w in Lang(g', e, f) <==> w in Lang(g, a, f)
    {
      ForkLang(g', e, f, w);
    }
  }

  lemma OptionalSound(g: Graph, g': Graph, own: set<int>, e: int, f: int)
    requires Sound(g, e, f, own) && EdgeAdded(g, g', own, e, f) && e != f
    requires g[e].sym.Epsilon? && g[f].sym.Epsilon? && g[f].next == []
    requires forall x :: x in own ==> e !in g[x].next
    ensures Sound(g', e, f, own) && Lang(g', e, f) == Lang(g, e, f) + EmptyWord
  {
    OptionalLang(g, g', own, e, f);
    ReachKept(g, g', own, e, f);
  }

  lemma LoopSound(g: Graph, g': Graph, own: set<int>, a: int, f: int)
    requires Sound(g, a, f, own) && EdgeAdded(g, g', own, f, a) && g[f].next == []
    ensures Sound(g', a, f, own) && Lang(g', a, f) == Plus(Lang(g, a, f))
  {
    LoopLang(g, g', own, a, f);
    ReachKept(g, g', own, a, f);
  }

  /** From `g` to `g'` a machine went from the states `own` to the states `own'`: it took over `gained`,
      the rest of what it acquired is new, and no other state was touched. */
  ghost predicate Local(g: Graph, last: int, own: set<int>, g': Graph, last': int, own': set<int>, gained: set<int>) {
    && Agree(g, g', g.Keys - own - gained)
    && own <= own' && (forall x :: x in own' ==> x in own || x in gained || last < x <= last')
    && last <= last'
  }

  lemma LocalTrans(g0: Graph, l0: int, o0: set<int>, g1: Graph, l1: int, o1: set<int>, g2: Graph, l2: int, o2: set<int>,
                   gained1: set<int>, gained2: set<int>, gained: set<int>)
    requires Local(g0, l0, o0, g1, l1, o1, gained1) && Local(g1, l1, o1, g2, l2, o2, gained2)
    requires forall x :: x in gained1 || x in gained2 ==> x in gained || l0 < x <= l2
    requires forall x :: x in g0 ==> x <= l0
    ensures Local(g0, l0, o0, g2, l2, o2, gained)
  {
    forall x | x in g0.Keys - o0 - gained
      ensures x in g2 && g2[x] == g0[x]
    {
      assert x in g0.Keys - o0 - gained1;
      assert x in g1.Keys - o1 - gained2;
    }
  }

  ghost function Range(m: map<int, int>): set<int> {
    set x | x in m :: m[x]
  }

  lemma {:induction false} PathCopy(g0: Graph, g: Graph, m: map<int, int>, p: seq<int>)
    requires Path(g0, p) && p[0] in m && forall y :: y in m ==> CopiedAt(g0, g, m, y)
    ensures p[|p| - 1] in m && Reach(g, m[p[0]], m[p[|p| - 1]])
    decreases |p|
  {
    var x := p[0];
    assert CopiedAt(g0, g, m, x);
    if |p| == 1 {
      ReachSelf(g, m[x]);
    } else {
      var y := p[1];
      ImageMember(m, g0[x].next, y);
      PathCopy(g0, g, m, p[1..]);
      ReachCons(g, m[x], m[y], m[p[|p| - 1]]);
    }
  }

  /** What `DeepCopy` leaves behind is a machine of its own with the same language. */
  lemma DuplicateSound(g0: Graph, g: Graph, own: set<int>, m: map<int, int>, a: int, f: int)
    requires Sound(g0, a, f, own) && Agree(g0, g, own) && m.Keys <= own && a in m
    requires forall y :: y in m ==> CopiedAt(g0, g, m, y)
    requires forall x, y :: x in m && y in m && m[x] == m[y] ==> x == y
    ensures f in m && Sound(g, m[a], m[f], Range(m)) && Lang(g, m[a], m[f]) == Lang(g0, a, f)
    ensures Closed(g, m.Keys)
  {
    var p :| PathFromTo(g0, a, f, p);
    PathCopy(g0, g, m, p);
    forall x | x in m
      ensures x in g && g[x] == g0[x] && CopiedAt(g0, g, m, x)
    {
    }
    assert Copies(g, m);
    CopiesClosed(g, m);
    LangFrame(g0, g, own, a, f);
    CopyLang(g, m, a, f);
    ValuesClosed(g, m);
    forall v | v in Range(m)
      ensures v in g && g[v].accept == NO_ACCEPT
    {
      var x :| x in m && m[x] == v;
    }
  }

  lemma ValuesClosed(g: Graph, m: map<int, int>)
    requires Copies(g, m)
    ensures Closed(g, Range(m))
  {
    forall v, z | v in Range(m) && v in g && z in g[v].next
      ensures z in Range(m)
    {
      var x :| x in m && m[x] == v;
      var next := Image(m, g[x].next);
      var i :| 0 <= i < |next| && next[i] == z;
      var y := g[x].next[i];
      assert m[y] == z;
    }
  }

  lemma NothingMarked(g: Graph, m: set<int>, m': set<int>, a: int)
    requires Closed(g, m) && m' <= m && a in m && a !in m' && SuccessorsCleared(g, m, m')
    requires forall y :: y in m ==> Reach(g, a, y)
    ensures m' == {}
  {
    forall y | y in m
      ensures y !in m'
    {
      var p :| PathFromTo(g, a, y, p);
      ClearedAlong(g, m, m', p);
    }
  }

  /** A set of states is disjoint from those a machine gains, unless it held some of them before. */
  lemma StillDisjoint(g: Graph, last: int, other: set<int>, own: set<int>, own': set<int>, gained: set<int>)
    requires Closed(g, other) && (forall x :: x in g ==> x <= last) && other !! own && other !! gained
    requires forall x :: x in own' ==> x in own || x in gained || last < x
    ensures own' !! other
  {
    forall x | x in other
      ensures x !in own'
    {
      assert x in g;
    }
  }

  /** Another machine survives what this one does. */
  lemma OtherKept(g: Graph, last: int, own: set<int>, g': Graph, last': int, own': set<int>, gained: set<int>,
                  a: int, f: int, other: set<int>)
    requires Local(g, last, own, g', last', own', gained) && (forall x :: x in g ==> x <= last)
    requires Sound(g, a, f, other) && other !! own && other !! gained
    ensures Sound(g', a, f, other) && Lang(g', a, f) == Lang(g, a, f) && own' !! other
  {
    StillDisjoint(g, last, other, own, own', gained);
    assert forall x :: x in other ==> x in g && x in g.Keys - own - gained;
    SoundFrame(g, g', a, f, other);
  }

  /** A new state `f` of this machine is linked to the state `s` of another one, which this one takes over. */
  lemma LocalLinked(g0: Graph, l0: int, o0: set<int>, g: Graph, l: int, own: set<int>, g': Graph, f: int, s: int,
                    other: set<int>)
    requires Local(g0, l0, o0, g, l, own, {}) && f in own && f !in g0 && f !in other
    requires Agree(g, g, own) && Agree(g, g, other) && g' == g[f := g[f].(next := g[f].next + [s])]
    ensures EdgeAdded(g, g', own, f, s) && Agree(g, g', other) && Local(g0, l0, o0, g', l, own + other, other)
  {
    assert forall x :: x in g0.Keys - o0 - other ==> x in g0.Keys - o0 - {};
  }

  /** Seen from a machine that stays put, what another one does only touches the other one's states. */
  lemma LocalOther(g: Graph, last: int, own: set<int>, g': Graph, last': int, other: set<int>, other': set<int>)
    requires Local(g, last, other, g', last', other', {}) && (forall x :: x in own ==> x in g)
    ensures Local(g, last, own, g', last', own, other)
  {
    assert forall x :: x in g.Keys - own - other ==> x in g.Keys - other - {};
  }

  /** The words `MakeRepl` is to accept. */
  ghost function Replicas(l: iset<Word>, lower: nat, upper: int): iset<Word> {
    if upper == NO_UPPER_BOUND then AtLeast(l, lower)
    else if upper < lower then Repeat(l, lower, lower)
    else Repeat(l, lower, upper)
  }

  lemma ReplicasExact(l: iset<Word>, lower: nat, upper: int, r: iset<Word>)
    requires upper != NO_UPPER_BOUND && upper <= lower && 1 <= lower
    requires r == Pow(l, if lower - 1 <= 0 then 1 else lower - 1 + 1)
    ensures r == Replicas(l, lower, upper)
  {
    RepeatOne(l, lower);
  }

  class NfaMachine {
    const pool: StatePool
    var first: int
    var final: int
    ghost var own: set<int>

    ghost predicate Valid()
      reads this, pool
    {
      pool.Valid() && pool.mark == map[] && Sound(pool.nodes, first, final, own)
    }

    ghost function Language(): iset<Word>
      reads this, pool
    {
      Lang(pool.nodes, first, final)
    }

    constructor (p: StatePool, l: Label)
      requires p.Valid() && p.mark == map[] && l in p.allowed
      modifies p`nodes, p`lastId
      ensures pool == p && Valid() && Language() == ReadBy(l)
      ensures Agree(old(p.nodes), p.nodes, old(p.nodes).Keys)
      ensures own == {p.lastId} && p.lastId == old(p.lastId) + 1
    {
      pool := p;
      var s := p.NewState(l);
      first, final := s, s;
      own := {s};
      new;
      ReachSelf(p.nodes, s);
      SingleLang(p.nodes, s);
    }

    constructor FromStates(p: StatePool, a: int, f: int, ghost states: set<int>)
      ensures pool == p && first == a && final == f && own == states
    {
      pool, first, final, own := p, a, f, states;
    }

    method InsertEpsilon()
      requires Valid()
      modifies this, pool`nodes, pool`lastId
      ensures Valid() && Language() == old(Language())
      ensures Local(old(pool.nodes), old(pool.lastId), old(own), pool.nodes, pool.lastId, own, {})
      ensures final == old(final) && own == old(own) + {first} && first !in old(own)
      ensures pool.nodes[first] == Node(Epsilon, NO_ACCEPT, [old(first)])
      ensures Agree(old(pool.nodes), pool.nodes, old(pool.nodes).Keys)
    {
      var e := pool.NewState(Epsilon);
      pool.AddXtion(e, first);
      PrependSound(old(pool.nodes), pool.nodes, own, first, final, e);
      first := e;
      own := own + {e};
    }

    method AppendState(s: int)
      requires Valid() && s in pool.nodes && s !in own && pool.nodes[s].next == [] && pool.nodes[s].accept == NO_ACCEPT
      modifies this, pool`nodes
      ensures Valid() && Language() == Cat(old(Language()), ReadBy(old(pool.nodes[s].sym)))
      ensures first == old(first) && final == s && own == old(own) + {s}
      ensures EdgeAdded(old(pool.nodes), pool.nodes, old(own), old(final), s)
      ensures Agree(old(pool.nodes), pool.nodes, old(pool.nodes).Keys - {old(final)})
    {
      pool.AddXtion(final, s);
      AppendSound(old(pool.nodes), pool.nodes, own, first, final, s);
      final := s;
      own := own + {s};
    }

    method AppendEpsilon()
      requires Valid()
      modifies this, pool`nodes, pool`lastId
      ensures Valid() && Language() == old(Language())
      ensures Local(old(pool.nodes), old(pool.lastId), old(own), pool.nodes, pool.lastId, own, {})
      ensures first == old(first) && final !in old(own) && final !in old(pool.nodes) && own == old(own) + {final}
      ensures pool.nodes[final] == Node(Epsilon, NO_ACCEPT, [])
      ensures EdgeAdded(old(pool.nodes), pool.nodes, old(own), old(final), final)
    {
      var s := pool.NewState(Epsilon);
      SoundFrame(old(pool.nodes), pool.nodes, first, final, own);
      AppendState(s);
      CatEpsilon(old(Language()));
    }

    method AppendMachine(m: NfaMachine)
      requires Valid() && m.Valid() && m != this && m.pool == pool && own !! m.own
      modifies this, pool`nodes, pool`lastId
      ensures Valid() && Language() == Cat(old(Language()), old(m.Language()))
      ensures Local(old(pool.nodes), old(pool.lastId), old(own), pool.nodes, pool.lastId, own, m.own)
    {
      hide Lang, Reach, Cat, Closed, Agree, Local, EdgeAdded;
      AppendEpsilon();
      ghost var g := pool.nodes;
      OtherKept(old(pool.nodes), old(pool.lastId), old(own), g, pool.lastId, own, {}, m.first, m.final, m.own);
      OwnStates(g, own);
      OwnStates(g, m.own);
      pool.AddXtion(final, m.first);
      LocalLinked(old(pool.nodes), old(pool.lastId), old(own), g, pool.lastId, own, pool.nodes, final, m.first, m.own);
      LinkSound(g, pool.nodes, own, m.own, first, final, m.first, m.final);
      final := m.final;
      own := own + m.own;
    }

    method MakeOptional()
      requires Valid()
      modifies this, pool`nodes, pool`lastId
      ensures Valid() && Language() == old(Language()) + EmptyWord
      ensures Local(old(pool.nodes), old(pool.lastId), old(own), pool.nodes, pool.lastId, own, {})
    {
      InsertEpsilon();
      AppendEpsilon();
      ghost var g := pool.nodes;
      pool.AddXtion(first, final);
      OptionalSound(g, pool.nodes, own, first, final);
    }

    method MakePositiveClosure()
      requires Valid()
      modifies this, pool`nodes, pool`lastId
      ensures Valid() && Language() == Plus(old(Language()))
      ensures Local(old(pool.nodes), old(pool.lastId), old(own), pool.nodes, pool.lastId, own, {})
    {
      AppendEpsilon();
      ghost var g := pool.nodes;
      pool.AddXtion(final, first);
      LoopSound(g, pool.nodes, own, first, final);
    }

    method MakeClosure()
      requires Valid()
      modifies this, pool`nodes, pool`lastId
      ensures Valid() && Language() == Star(old(Language()))
      ensures Local(old(pool.nodes), old(pool.lastId), old(own), pool.nodes, pool.lastId, own, {})
    {
      MakePositiveClosure();
      StarOfPlus(old(Language()));
      ghost var g, l, o := pool.nodes, pool.lastId, own;
      MakeOptional();
      LocalTrans(old(pool.nodes), old(pool.lastId), old(own), g, l, o, pool.nodes, pool.lastId, own, {}, {}, {});
    }

    /** `DuplicateMachine`: a disjoint copy, cycles included. */
    method DuplicateMachine() returns (m: NfaMachine)
      requires Valid()
      modifies pool`nodes, pool`lastId, pool`mark
      ensures Valid() && Language() == old(Language())
      ensures fresh(m) && m.pool == pool && m.Valid() && m.Language() == Language()
      ensures Agree(old(pool.nodes), pool.nodes, old(pool.nodes).Keys)
      ensures old(pool.lastId) <= pool.lastId && forall x :: x in m.own ==> old(pool.lastId) < x <= pool.lastId
    {
      hide Lang, Reach, Closed, CopiedAt;
      ghost var g0, base := pool.nodes, pool.lastId;
      OwnStates(g0, own);
      var copy := pool.DeepCopy(first, g0, own, base);
      ghost var marks := pool.mark;
      DuplicateSound(g0, pool.nodes, own, marks, first, final);
      SoundFrame(g0, pool.nodes, first, final, own);
      m := new NfaMachine.FromStates(pool, copy, pool.mark[final], Range(marks));
      pool.ClearMarks(first, own);
      MarkedReach(g0, pool.nodes, own, marks.Keys, first);
      NothingMarked(pool.nodes, marks.Keys, pool.mark.Keys, first);
      assert pool.mark == map[];
    }

    /** A machine set aside for appending: sound, with language `l`, and disjoint from this one. */
    ghost predicate Apart(m: NfaMachine, l: iset<Word>)
      reads this, pool, m
    {
      && m != this && m.pool == pool && own !! m.own
      && Sound(pool.nodes, m.first, m.final, m.own) && Lang(pool.nodes, m.first, m.final) == l
    }

    ghost predicate AllApart(ms: seq<NfaMachine>, l: iset<Word>)
      reads this, pool, ms
    {
      && (forall i :: 0 <= i < |ms| ==> Apart(ms[i], l))
      && (forall i, j :: 0 <= i < j < |ms| ==> ms[i].own !! ms[j].own)
    }

    static ghost predicate AllAbove(ms: seq<NfaMachine>, base: int)
      reads ms
    {
      forall i, x :: 0 <= i < |ms| && x in ms[i].own ==> base < x
    }

    /** Adds one more copy to those set aside. */
    method AddCopy(copies: seq<NfaMachine>, ghost base: int) returns (more: seq<NfaMachine>)
      requires Valid() && AllApart(copies, Language()) && AllAbove(copies, base) && base <= pool.lastId
      modifies pool`nodes, pool`lastId, pool`mark
      ensures Valid() && Language() == old(Language())
      ensures |more| == |copies| + 1 && AllApart(more, Language()) && AllAbove(more, base)
      ensures Agree(old(pool.nodes), pool.nodes, old(pool.nodes).Keys) && old(pool.lastId) <= pool.lastId
    {
      hide Agree, Lang, Closed;
      ghost var g := pool.nodes;
      var c := DuplicateMachine();
      StillDisjoint(g, old(pool.lastId), own, {}, c.own, {});
      forall k | 0 <= k < |copies|
        ensures Apart(copies[k], Language()) && copies[k].own !! c.own
      {
        var m := copies[k];
        assert old(Apart(m, Language()));
        AgreeClosed(g, pool.nodes, m.own);
        SoundFrame(g, pool.nodes, m.first, m.final, m.own);
        StillDisjoint(g, old(pool.lastId), m.own, {}, c.own, {});
      }
      assert Apart(c, Language());
      more := copies + [c];
    }

    method MakeCopies(n: nat) returns (copies: seq<NfaMachine>)
      requires Valid()
      modifies pool`nodes, pool`lastId, pool`mark
      ensures Valid() && Language() == old(Language())
      ensures |copies| == n && AllApart(copies, Language()) && AllAbove(copies, old(pool.lastId))
      ensures Agree(old(pool.nodes), pool.nodes, old(pool.nodes).Keys) && old(pool.lastId) <= pool.lastId
    {
      copies := [];
      for i := 0 to n
        invariant Valid() && Language() == old(Language())
        invariant |copies| == i && AllApart(copies, Language()) && AllAbove(copies, old(pool.lastId))
        invariant Agree(old(pool.nodes), pool.nodes, old(pool.nodes).Keys) && old(pool.lastId) <= pool.lastId
      {
        copies := AddCopy(copies, old(pool.lastId));
      }
    }

    /** Appends the first of the machines set aside. */
    method AppendCopy(copies: seq<NfaMachine>, ghost l: iset<Word>, ghost n: nat, ghost g0: Graph, ghost l0: int,
                      ghost o0: set<int>)
      requires Valid() && copies != [] && AllApart(copies, l) && AllAbove(copies, l0) && Language() == Pow(l, n)
      requires Local(g0, l0, o0, pool.nodes, pool.lastId, own, {}) && (forall x :: x in g0 ==> x <= l0)
      modifies this, pool`nodes, pool`lastId, pool`mark
      ensures Valid() && Language() == Pow(l, n + 1) && AllApart(copies[1..], l) && AllAbove(copies[1..], l0)
      ensures Local(g0, l0, o0, pool.nodes, pool.lastId, own, {})
    {
      ghost var g, last, o := pool.nodes, pool.lastId, own;
      var c := copies[0];
      assert Apart(c, l);
      assert forall x :: x in c.own ==> x in g;
      AppendMachine(c);
      PowSnoc(l, n);
      forall k | 1 <= k < |copies|
        ensures Apart(copies[k], l)
      {
        var m := copies[k];
        assert old(Apart(m, l));
        StillDisjoint(g, last, m.own, o, own, c.own);
        assert forall x :: x in m.own ==> x in g && x in g.Keys - o - c.own;
        SoundFrame(g, pool.nodes, m.first, m.final, m.own);
      }
      LocalTrans(g0, l0, o0, g, last, o, pool.nodes, pool.lastId, own, {}, c.own, {});
    }

    method AppendCopies(copies: seq<NfaMachine>, ghost l: iset<Word>, ghost g0: Graph, ghost l0: int,
                        ghost o0: set<int>)
      requires Valid() && AllApart(copies, l) && AllAbove(copies, l0) && Language() == l
      requires Local(g0, l0, o0, pool.nodes, pool.lastId, own, {}) && (forall x :: x in g0 ==> x <= l0)
      modifies this, pool`nodes, pool`lastId, pool`mark
      ensures Valid() && Language() == Pow(l, |copies| + 1)
      ensures Local(g0, l0, o0, pool.nodes, pool.lastId, own, {})
    {
      PowOne(l);
      for i := 0 to |copies|
        invariant Valid() && AllApart(copies[i..], l) && AllAbove(copies[i..], l0) && Language() == Pow(l, i + 1)
        invariant Local(g0, l0, o0, pool.nodes, pool.lastId, own, {})
      {
        AppendCopy(copies[i..], l, i + 1, g0, l0, o0);
        assert copies[i..][1..] == copies[i + 1..];
      }
    }

    /** `LinkCopies`: all copies are made before any of them is appended. */
    method LinkCopies(n: int)
      requires Valid()
      modifies this, pool`nodes, pool`lastId, pool`mark
      ensures Valid() && Language() == Pow(old(Language()), if n <= 0 then 1 else n + 1)
      ensures Local(old(pool.nodes), old(pool.lastId), old(own), pool.nodes, pool.lastId, own, {})
    {
      PowOne(Language());
      if n > 0 {
        var copies := MakeCopies(n);
        AppendCopies(copies, old(Language()), old(pool.nodes), old(pool.lastId), own);
      }
    }

    /** Makes a machine set aside optional, or closes it under repetition. */
    method Loosen(m: NfaMachine, star: bool, ghost l: iset<Word>)
      requires Valid() && Apart(m, l)
      modifies m, pool`nodes, pool`lastId, pool`mark
      ensures Valid() && Language() == old(Language()) && Apart(m, if star then Star(l) else l + EmptyWord)
      ensures Local(old(pool.nodes), old(pool.lastId), own, pool.nodes, pool.lastId, own, old(m.own))
      ensures forall x :: x in m.own ==> x in old(m.own) || old(pool.lastId) < x <= pool.lastId
    {
      ghost var g, last, mo := pool.nodes, pool.lastId, m.own;
      assert forall x :: x in own ==> x in g;
      if star {
        m.MakeClosure();
      } else {
        m.MakeOptional();
      }
      OtherKept(g, last, mo, pool.nodes, pool.lastId, m.own, {}, first, final, own);
      LocalOther(g, last, own, pool.nodes, pool.lastId, mo, m.own);
    }

    /** Appends `m` after it has been made optional, or closed under repetition. */
    method AppendLoose(m: NfaMachine, star: bool, ghost l: iset<Word>)
      requires Valid() && Apart(m, l)
      modifies this, m, pool`nodes, pool`lastId, pool`mark
      ensures Valid() && Language() == Cat(old(Language()), if star then Star(l) else l + EmptyWord)
      ensures Local(old(pool.nodes), old(pool.lastId), old(own), pool.nodes, pool.lastId, own, old(m.own))
    {
      ghost var mo := m.own;
      Loosen(m, star, l);
      ghost var g, last := pool.nodes, pool.lastId;
      AppendMachine(m);
      LocalTrans(old(pool.nodes), old(pool.lastId), old(own), g, last, old(own), pool.nodes, pool.lastId, own, mo,
        m.own, mo);
    }

    /** `MakeRepl`: at least `lower` repetitions, and at most `upper` unless that is `NO_UPPER_BOUND`. */
    method MakeRepl(lower: int, upper: int)
      requires Valid() && 1 <= lower
      modifies this, pool`nodes, pool`lastId, pool`mark
      ensures Valid() && Language() == Replicas(old(Language()), lower, upper)
      ensures Local(old(pool.nodes), old(pool.lastId), old(own), pool.nodes, pool.lastId, own, {})
    {
      ghost var l := Language();
      if upper > lower || upper == NO_UPPER_BOUND {
        var dup := CopySelfAside();
        ReplWith(dup, lower, upper, l, old(pool.nodes), old(pool.lastId), old(own));
      } else {
        LinkExactly(lower, upper);
      }
    }

    method LinkExactly(lower: int, ghost upper: int)
      requires Valid() && 1 <= lower && upper != NO_UPPER_BOUND && upper <= lower
      modifies this, pool`nodes, pool`lastId, pool`mark
      ensures Valid() && Language() == Replicas(old(Language()), lower, upper)
      ensures Local(old(pool.nodes), old(pool.lastId), old(own), pool.nodes, pool.lastId, own, {})
    {
      ghost var l := Language();
      LinkCopies(lower - 1);
      ReplicasExact(l, lower, upper, Language());
    }

    /** `MakeRepl` once the copy it needs has been set aside. */
    method ReplWith(dup: NfaMachine, lower: int, upper: int, ghost l: iset<Word>, ghost g0: Graph, ghost l0: int,
                    ghost o0: set<int>)
      requires Valid() && 1 <= lower && (upper > lower || upper == NO_UPPER_BOUND) && Language() == l && Apart(dup, l)
      requires Local(g0, l0, o0, pool.nodes, pool.lastId, own, {}) && (forall x :: x in g0 ==> x <= l0)
      requires forall x :: x in dup.own ==> l0 < x
      modifies this, dup, pool`nodes, pool`lastId, pool`mark
      ensures Valid() && Language() == Replicas(l, lower, upper)
      ensures Local(g0, l0, o0, pool.nodes, pool.lastId, own, {})
    {
      LinkCopiesKeeping(lower - 1, dup, l, g0, l0, o0);
      if upper == NO_UPPER_BOUND {
        AppendStar(dup, lower, l, g0, l0, o0);
      } else {
        AppendOptionals(dup, lower, upper, l, g0, l0, o0);
      }
    }

    method AppendStar(dup: NfaMachine, ghost lower: nat, ghost l: iset<Word>, ghost g0: Graph, ghost l0: int,
                      ghost o0: set<int>)
      requires Valid() && Apart(dup, l) && Language() == Pow(l, lower)
      requires Local(g0, l0, o0, pool.nodes, pool.lastId, own, {}) && (forall x :: x in g0 ==> x <= l0)
      requires forall x :: x in dup.own ==> l0 < x
      modifies this, dup, pool`nodes, pool`lastId, pool`mark
      ensures Valid() && Language() == AtLeast(l, lower)
      ensures Local(g0, l0, o0, pool.nodes, pool.lastId, own, {})
    {
      ghost var g, last, o, mo := pool.nodes, pool.lastId, own, dup.own;
      AppendLoose(dup, true, l);
      AtLeastStar(l, lower);
      LocalTrans(g0, l0, o0, g, last, o, pool.nodes, pool.lastId, own, {}, mo, {});
    }

    method CopySelfAside() returns (dup: NfaMachine)
      requires Valid()
      modifies pool`nodes, pool`lastId, pool`mark
      ensures Valid() && Language() == old(Language()) && fresh(dup) && Apart(dup, Language())
      ensures Local(old(pool.nodes), old(pool.lastId), own, pool.nodes, pool.lastId, own, {})
      ensures forall x :: x in dup.own ==> old(pool.lastId) < x <= pool.lastId
    {
      dup := DuplicateMachine();
      StillDisjoint(old(pool.nodes), old(pool.lastId), own, {}, dup.own, {});
    }

    /** `LinkCopies` while a machine is set aside. */
    method LinkCopiesKeeping(n: int, dup: NfaMachine, ghost l: iset<Word>, ghost g0: Graph, ghost l0: int,
                             ghost o0: set<int>)
      requires Valid() && Language() == l && Apart(dup, l) && 0 <= n
      requires Local(g0, l0, o0, pool.nodes, pool.lastId, own, {}) && (forall x :: x in g0 ==> x <= l0)
      modifies this, pool`nodes, pool`lastId, pool`mark
      ensures Valid() && Language() == Pow(l, n + 1) && Apart(dup, l)
      ensures Local(g0, l0, o0, pool.nodes, pool.lastId, own, {})
    {
      ghost var g, last, o := pool.nodes, pool.lastId, own;
      LinkCopies(n);
      OtherKept(g, last, o, pool.nodes, pool.lastId, own, {}, dup.first, dup.final, dup.own);
      LocalTrans(g0, l0, o0, g, last, o, pool.nodes, pool.lastId, own, {}, {}, {});
    }

    method AppendOptionals(dup: NfaMachine, lower: int, upper: int, ghost l: iset<Word>, ghost g0: Graph,
                           ghost l0: int, ghost o0: set<int>)
      requires Valid() && 1 <= lower < upper && Apart(dup, l) && Language() == Pow(l, lower)
      requires Local(g0, l0, o0, pool.nodes, pool.lastId, own, {}) && (forall x :: x in g0 ==> x <= l0)
      requires forall x :: x in dup.own ==> l0 < x
      modifies this, dup, pool`nodes, pool`lastId, pool`mark
      ensures Valid() && Language() == Repeat(l, lower, upper)
      ensures Local(g0, l0, o0, pool.nodes, pool.lastId, own, {})
    {
      RepeatOne(l, lower);
      var u := upper;
      while u > lower
        invariant lower <= u <= upper && Valid() && Language() == Repeat(l, lower, lower + upper - u)
        invariant u > lower ==> Apart(dup, l) && forall x :: x in dup.own ==> l0 < x
        invariant Local(g0, l0, o0, pool.nodes, pool.lastId, own, {})
        decreases u
      {
        RepeatSnoc(l, lower, lower + upper - u);
        u := u - 1;
        AppendOptional(dup, u == lower, l, g0, l0, o0);
      }
    }

    /** Appends one optional repetition; only the last one may use up `dup` itself. */
    method AppendOptional(dup: NfaMachine, useUp: bool, ghost l: iset<Word>, ghost g0: Graph, ghost l0: int,
                          ghost o0: set<int>)
      requires Valid() && Apart(dup, l) && forall x :: x in dup.own ==> l0 < x
      requires Local(g0, l0, o0, pool.nodes, pool.lastId, own, {}) && (forall x :: x in g0 ==> x <= l0)
      modifies this, dup, pool`nodes, pool`lastId, pool`mark
      ensures Valid() && Language() == Cat(old(Language()), l + EmptyWord)
      ensures !useUp ==> Apart(dup, l) && dup.own == old(dup.own)
      ensures Local(g0, l0, o0, pool.nodes, pool.lastId, own, {})
    {
      ghost var g, last, o := pool.nodes, pool.lastId, own;
      var dup2 := dup;
      if !useUp {
        dup2 := CopyAside(dup, l);
      }
      ghost var g1, last1, mo := pool.nodes, pool.lastId, dup2.own;
      AppendLoose(dup2, false, l);
      if !useUp {
        OtherKept(g1, last1, o, pool.nodes, pool.lastId, own, mo, dup.first, dup.final, dup.own);
      }
      assert Local(g, last, o, g1, last1, o, {});
      LocalTrans(g0, l0, o0, g, last, o, g1, last1, o, {}, {}, {});
      LocalTrans(g0, l0, o0, g1, last1, o, pool.nodes, pool.lastId, own, {}, mo, {});
    }

    /** Copies a machine set aside. */
    method CopyAside(dup: NfaMachine, ghost l: iset<Word>) returns (m: NfaMachine)
      requires Valid() && Apart(dup, l)
      modifies pool`nodes, pool`lastId, pool`mark
      ensures Valid() && Language() == old(Language()) && Apart(dup, l) && Apart(m, l) && fresh(m) && dup.own !! m.own
      ensures Agree(old(pool.nodes), pool.nodes, old(pool.nodes).Keys) && old(pool.lastId) <= pool.lastId
      ensures forall x :: x in m.own ==> old(pool.lastId) < x <= pool.lastId
    {
      ghost var g := pool.nodes;
      m := dup.DuplicateMachine();
      SoundFrame(g, pool.nodes, first, final, own);
      StillDisjoint(g, old(pool.lastId), own, {}, m.own, {});
      StillDisjoint(g, old(pool.lastId), dup.own, {}, m.own, {});
    }
  }

  lemma MarkedReach(g0: Graph, g: Graph, own: set<int>, m: set<int>, a: int)
    requires Closed(g0, own) && a in own && Agree(g0, g, own) && forall y :: y in m ==> Reach(g0, a, y)
    ensures forall y :: y in m ==> Reach(g, a, y)
  {
    forall y | y in m
      ensures Reach(g, a, y)
    {
      ReachKept(g0, g, own, a, y);
    }
  }

  lemma SingleLang(g: Graph, s: int)
    requires s in g && g[s].next == []
    ensures Lang(g, s, s) == ReadBy(g[s].sym)
  {
    forall w
      ensures w in Lang(g, s, s) <==> Reads(g[s].sym, w)
    {
      if Reads(g[s].sym, w) {
        assert w[..Width(g[s].sym)] == w;
        assert WalkFromTo(g, s, s, [s], w);
      }
      if p :| WalkFromTo(g, s, s, p, w) {
        assert w[..Width(g[s].sym)] == w;
      }
    }
  }

  lemma CatEpsilon(l: iset<Word>)
    ensures Cat(l, ReadBy(Epsilon)) == l
  {
    assert ReadBy(Epsilon) == EmptyWord;
    CatEmptyRight(l);
  }

  /** Two machines that meet in one dead-end state, behind a new first state that leads to both. */
  lemma AlternateSound(g: Graph, g': Graph, own1: set<int>, own2: set<int>, a1: int, f1: int, a2: int, f2: int, e: int,
                       s: int)
    requires Sound(g, a1, f1, own1) && Sound(g, a2, f2, own2)
    requires e !in own1 && e !in own2 && s !in own1 && s !in own2 && e != s
    requires EdgeAdded(g, g', own1, f1, s) && EdgeAdded(g, g', own2, f2, s)
    requires e in g' && g'[e] == Node(Epsilon, NO_ACCEPT, [a1, a2]) && s in g' && g'[s] == Node(Epsilon, NO_ACCEPT, [])
    ensures Sound(g', e, s, own1 + own2 + {e, s}) && Lang(g', e, s) == Lang(g, a1, f1) + Lang(g, a2, f2)
  {
    AppendSound(g, g', own1, a1, f1, s);
    AppendSound(g, g', own2, a2, f2, s);
    CatEpsilon(Lang(g, a1, f1));
    CatEpsilon(Lang(g, a2, f2));
    ForkClosed(g', own1 + {s}, own2 + {s}, e, s, a1, a2);
    assert own1 + {s} + (own2 + {s}) + {e} == own1 + own2 + {e, s};
    ForkTwo(g', e, s, a1, a2);
  }

  lemma AlternateLocal(g0: Graph, last: int, g: Graph, g': Graph, own1: set<int>, own2: set<int>, f1: int, f2: int,
                       e: int, s: int)
    requires Agree(g0, g, g0.Keys) && Agree(g, g', g.Keys - {f1, f2}) && f1 in own1 && f2 in own2
    requires e == last + 1 && s == last + 2
    ensures Local(g0, last, own1, g', s, own1 + own2 + {e, s}, own2)
  {
    assert forall x :: x in g0.Keys - own1 - own2 ==> x in g.Keys - {f1, f2};
  }

  lemma ForkClosed(g: Graph, own1: set<int>, own2: set<int>, e: int, s: int, a1: int, a2: int)
    requires Sound(g, a1, s, own1) && Sound(g, a2, s, own2)
    requires e in g && g[e] == Node(Epsilon, NO_ACCEPT, [a1, a2])
    ensures Sound(g, e, s, own1 + own2 + {e})
  {
    assert g[e].next[0] == a1;
    ReachCons(g, e, a1, s);
  }

  lemma ForkTwo(g: Graph, e: int, s: int, a1: int, a2: int)
    requires e in g && g[e].sym == Epsilon && g[e].next == [a1, a2] && e != s
    ensures Lang(g, e, s) == Lang(g, a1, s) + Lang(g, a2, s)
  {
    forall w
      ensures w in Lang(g, e, s) <==> w in Lang(g, a1, s) || w in Lang(g, a2, s)
    {
      ForkLang(g, e, s, w);
      assert g[e].next[0] == a1 && g[e].next[1] == a2;
    }
  }

  /** The new first and final states of an alternative. */
  method NewFork(m1: NfaMachine, m2: NfaMachine) returns (e: int, s: int)
    requires m1.Valid() && m2.Valid() && m1.pool == m2.pool
    modifies m1.pool`nodes, m1.pool`lastId
    ensures m1.Valid() && m2.Valid() && m1.Language() == old(m1.Language()) && m2.Language() == old(m2.Language())
    ensures e == old(m1.pool.lastId) + 1 && s == e + 1 == m1.pool.lastId
    ensures Agree(old(m1.pool.nodes), m1.pool.nodes, old(m1.pool.nodes).Keys)
    ensures e in m1.pool.nodes && m1.pool.nodes[e] == Node(Epsilon, NO_ACCEPT, [m1.first, m2.first])
    ensures s in m1.pool.nodes && m1.pool.nodes[s] == Node(Epsilon, NO_ACCEPT, [])
  {
    hide Lang, Reach, Closed;
    var pool := m1.pool;
    ghost var g := pool.nodes;
    OwnStates(g, m1.own);
    OwnStates(g, m2.own);
    e := pool.NewState(Epsilon);
    s := pool.NewState(Epsilon);
    pool.AddXtion(e, m1.first);
    pool.AddXtion(e, m2.first);
    SoundFrame(g, pool.nodes, m1.first, m1.final, m1.own);
    SoundFrame(g, pool.nodes, m2.first, m2.final, m2.own);
  }

  /** `make_alternate` on two machines. */
  method MakeAlternate(m1: NfaMachine, m2: NfaMachine) returns (m: NfaMachine)
    requires m1 != m2 && m1.Valid() && m2.Valid() && m1.pool == m2.pool && m1.own !! m2.own
    modifies m1, m2, m1.pool`nodes, m1.pool`lastId
    ensures fresh(m) && m.pool == m1.pool && m.Valid() && m.Language() == old(m1.Language()) + old(m2.Language())
    ensures Local(old(m1.pool.nodes), old(m1.pool.lastId), old(m1.own), m.pool.nodes, m.pool.lastId, m.own, old(m2.own))
  {
    ghost var own1, own2, f1, f2 := m1.own, m2.own, m1.final, m2.final;
    assert forall x :: x in own1 || x in own2 ==> x in m1.pool.nodes;
    var e, s := NewFork(m1, m2);
    ghost var g := m1.pool.nodes;
    JoinFinals(m1, m2, s);
    AlternateLocal(old(m1.pool.nodes), old(m1.pool.lastId), g, m1.pool.nodes, own1, own2, f1, f2, e, s);
    AlternateSound(g, m1.pool.nodes, own1, own2, m1.first, old(m1.final), m2.first, old(m2.final), e, s);
    m := new NfaMachine.FromStates(m1.pool, e, s, own1 + own2 + {e, s});
  }

  /** Hangs the dead-end state `s` behind both final states. */
  method JoinFinals(m1: NfaMachine, m2: NfaMachine, s: int)
    requires m1 != m2 && m1.Valid() && m2.Valid() && m1.pool == m2.pool && m1.own !! m2.own
    requires s in m1.pool.nodes && s !in m1.own && s !in m2.own && m1.pool.nodes[s] == Node(Epsilon, NO_ACCEPT, [])
    modifies m1, m2, m1.pool`nodes
    ensures m1.pool.Valid() && m1.first == old(m1.first) && m2.first == old(m2.first)
    ensures EdgeAdded(old(m1.pool.nodes), m1.pool.nodes, old(m1.own), old(m1.final), s)
    ensures EdgeAdded(old(m1.pool.nodes), m1.pool.nodes, old(m2.own), old(m2.final), s)
    ensures Agree(old(m1.pool.nodes), m1.pool.nodes, old(m1.pool.nodes).Keys - {old(m1.final), old(m2.final)})
  {
    ghost var g := m1.pool.nodes;
    m1.AppendState(s);
    assert forall x :: x in m2.own ==> x in g && x in g.Keys - {old(m1.final)};
    SoundFrame(g, m1.pool.nodes, m2.first, m2.final, m2.own);
    m2.AppendState(s);
  }

  /** `AddAccept`: hangs the accepting value off an epsilon state, so that it is seen after the last symbol. */
  method AddAccept(m: NfaMachine, v: int)
    requires m.Valid() && v != NO_ACCEPT
    modifies m, m.pool`nodes, m.pool`lastId
    ensures m.pool.Valid() && m.first in m.own && Closed(m.pool.nodes, m.own)
    ensures forall w :: w in old(m.Language()) <==> Reached(m.pool.nodes, m.first, w, m.final)
    ensures forall x :: x in m.own ==> m.pool.nodes[x].accept == if x == m.final then v else NO_ACCEPT
    ensures m.final in m.own && m.pool.nodes[m.final].sym.Epsilon?
  {
    if !m.pool.nodes[m.final].sym.Epsilon? {
      m.AppendEpsilon();
    }
    var pool := m.pool;
    ghost var g := pool.nodes;
    pool.nodes := pool.nodes[m.final := pool.nodes[m.final].(accept := v)];
    forall w
      ensures w in Lang(g, m.first, m.final) <==> Reached(pool.nodes, m.first, w, m.final)
    {
      ReachedIffAccepted(g, m.first, w, m.final);
      ReachedSameShape(g, pool.nodes, m.first, w, m.final);
      ReachedSameShape(pool.nodes, g, m.first, w, m.final);
    }
  }
}
