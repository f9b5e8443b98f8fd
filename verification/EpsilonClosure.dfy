/** The epsilon closures of src/NFA.cc, cached per state and merged into sorted lists. */
module EpsilonClosures {
  import opened NfaGraphs

  /** States that a closure keeps: those that read a symbol or accept. */
  predicate Core(g: Graph, x: int) {
    x in g && (!g[x].sym.Epsilon? || g[x].accept != NO_ACCEPT)
  }

  /** `y` is `x` or reached from it through epsilon states. */
  ghost predicate EpsReach(g: Graph, x: int, y: int) {
    Reached(g, x, [], y)
  }

  predicate NoDuplicates(s: seq<int>) {
    forall i, j :: 0 <= i < j < |s| ==> s[i] != s[j]
  }

  /** The kept states an epsilon path away from `x`. */
  ghost predicate IsClosure(g: Graph, x: int, r: seq<int>) {
    NoDuplicates(r) && forall y :: y in r <==> Core(g, y) && EpsReach(g, x, y)
  }

  ghost predicate IsClosureOf(g: Graph, s: set<int>, r: set<int>) {
    forall y :: y in r <==> Core(g, y) && exists x :: x in s && EpsReach(g, x, y)
  }

  function Kept(g: Graph, s: seq<int>): (r: seq<int>)
    requires forall i :: 0 <= i < |s| ==> s[i] in g
    ensures forall y :: y in r <==> y in s && Core(g, y)
    ensures NoDuplicates(s) ==> NoDuplicates(r)
  {
    if s == [] then []
    else
      var n := |s| - 1;
      Kept(g, s[..n]) + (if Core(g, s[n]) then [s[n]] else [])
  }

  /** The work list: distinct states of the graph, all an epsilon path away from `x`, the first `i` of them
      followed up. */
  ghost predicate Worked(g: Graph, x: int, states: seq<int>, i: nat) {
    && NoDuplicates(states) && i <= |states| && x in states
    && (forall k :: 0 <= k < |states| ==> states[k] in g && EpsReach(g, x, states[k]))
    && (forall k :: 0 <= k < i && g[states[k]].sym.Epsilon? ==> forall y :: y in g[states[k]].next ==> y in states)
  }

  lemma {:induction false} WorkedAll(g: Graph, x: int, states: seq<int>, y: int, n: nat)
    requires Worked(g, x, states, |states|) && ReachedIn(g, x, [], y, n)
    ensures y in states
    decreases n
  {
    if n > 0 {
      var z :| z in g && y in g[z].next && ReachedThrough(g, x, [], z, n);
      WorkedAll(g, x, states, z, n - 1);
      var k :| 0 <= k < |states| && states[k] == z;
    }
  }

  lemma WorkedClosure(g: Graph, x: int, states: seq<int>, r: seq<int>)
    requires Worked(g, x, states, |states|) && r == Kept(g, states)
    ensures IsClosure(g, x, r)
  {
    forall y
      ensures y in r <==> Core(g, y) && EpsReach(g, x, y)
    {
      if n: nat :| ReachedIn(g, x, [], y, n) {
        WorkedAll(g, x, states, y, n);
      }
      if y in states {
        var k :| 0 <= k < |states| && states[k] == y;
      }
    }
  }

  ghost function Elements(s: seq<int>): set<int> {
    set x | x in s
  }

  lemma DistinctLength(g: Graph, s: seq<int>)
    requires NoDuplicates(s) && forall i :: 0 <= i < |s| ==> s[i] in g
    ensures |s| <= |g.Keys| && |Elements(s)| == |s|
  {
    DistinctCount(s);
    assert forall x :: x in Elements(s) ==> x in g.Keys;
    SubsetSize(Elements(s), g.Keys);
  }

  lemma {:induction false} DistinctCount(s: seq<int>)
    requires NoDuplicates(s)
    ensures |Elements(s)| == |s|
    decreases |s|
  {
    if s == [] {
      assert Elements(s) == {};
    } else {
      var n := |s| - 1;
      DistinctCount(s[..n]);
      assert Elements(s) == Elements(s[..n]) + {s[n]};
      assert s[n] !in s[..n];
    }
  }

  lemma SubsetSize(a: set<int>, b: set<int>)
    requires a <= b
    ensures |a| <= |b|
  {
    assert a + (b - a) == b;
  }

  class Closures {
    const g: Graph
    var mark: set<int>
    var epsclosure: map<int, seq<int>>

    ghost predicate Valid()
      reads this
    {
      && Whole(g) && mark == {}
      && forall x :: x in epsclosure ==> x in g && IsClosure(g, x, epsclosure[x])
    }

    constructor (graph: Graph)
      requires Whole(graph)
      ensures g == graph && Valid()
    {
      g := graph;
      mark := {};
      epsclosure := map[];
    }

    /** Follows up one state of the work list. */
    method FollowUp(x: int, states: seq<int>, i: nat) returns (more: seq<int>)
      requires Whole(g) && Worked(g, x, states, i) && i < |states| && mark == Elements(states)
      modifies `mark
      ensures Worked(g, x, more, i + 1) && states <= more && mark == Elements(more)
    {
      more := states;
      var ns := states[i];
      if g[ns].sym.Epsilon? {
        var next := g[ns].next;
        for j := 0 to |next|
          invariant states <= more && Worked(g, x, more, i) && mark == Elements(more)
          invariant forall k :: 0 <= k < j ==> next[k] in more
        {
          var nxt := next[j];
          if nxt !in mark {
            assert nxt in next;
            EpsMove(g, x, ns, nxt);
            AddWork(g, x, more, i, nxt);
            more := more + [nxt];
            mark := mark + {nxt};
          }
        }
        assert forall y :: y in next ==> y in more;
      }
    }

    /** `EpsilonClosure`: a work list of marked states, cached once it is done. */
    method EpsilonClosure(x: int) returns (r: seq<int>)
      requires Valid() && x in g
      modifies this
      ensures Valid() && IsClosure(g, x, r)
      ensures x in epsclosure && epsclosure[x] == r
    {
      hide Reached, IsClosure;
      if x in epsclosure {
        return epsclosure[x];
      }
      r := [];
      var states := [x];
      mark := {x};
      ReachedStart(g, x);
      var i := 0;
      while i < |states|
        invariant 0 <= i && Worked(g, x, states, i) && mark == Elements(states)
        invariant r == Kept(g, states[..i])
        invariant unchanged(`epsclosure)
        decreases |g.Keys| - i
      {
        DistinctLength(g, states);
        ghost var s0 := states;
        states := FollowUp(x, states, i);
        assert states[..i] == s0[..i];
        assert states[..i + 1][..i] == states[..i];
        var ns := states[i];
        if !g[ns].sym.Epsilon? || g[ns].accept != NO_ACCEPT {
          r := r + [ns];
        }
        i := i + 1;
      }
      assert states[..i] == states;
      WorkedClosure(g, x, states, r);
      ClearStates(states);
      epsclosure := epsclosure[x := r];
    }

    /** `epsilon_closure` of a list of states: the union of their closures, sorted and without duplicates. */
    method EpsilonClosureOf(states: seq<int>) returns (closure: seq<int>)
      requires Valid() && forall i :: 0 <= i < |states| ==> states[i] in g
      modifies this
      ensures Valid() && Decreasing(closure) && IsClosureOf(g, Elements(states), Elements(closure))
    {
      closure := [];
      var closuremap: set<int> := {};
      for i := 0 to |states|
        invariant Valid() && Decreasing(closure) && closuremap == Elements(closure)
        invariant IsClosureOf(g, Elements(states[..i]), Elements(closure))
      {
        var stateclosure := EpsilonClosure(states[i]);
        ClosureUnion(g, states, i, stateclosure, closure);
        closure, closuremap := InsertAll(closure, closuremap, stateclosure);
      }
      assert states[..|states|] == states;
    }

    /** Clears the markers of the work list. */
    method ClearStates(states: seq<int>)
      requires mark == Elements(states)
      modifies `mark
      ensures mark == {}
    {
      for i := 0 to |states|
        invariant mark <= Elements(states[i..])
      {
        mark := mark - {states[i]};
        assert Elements(states[i..]) == {states[i]} + Elements(states[i + 1..]);
      }
    }
  }

  lemma EpsMove(g: Graph, x: int, y: int, z: int)
    requires EpsReach(g, x, y) && y in g && g[y].sym.Epsilon? && z in g[y].next && z in g
    ensures EpsReach(g, x, z)
  {
    var e: Word := [];
    assert e + e == e;
    ReachedMove(g, x, e, y, z, e);
  }

  lemma AddWork(g: Graph, x: int, states: seq<int>, i: nat, y: int)
    requires Worked(g, x, states, i) && y in g && EpsReach(g, x, y) && y !in states
    ensures Worked(g, x, states + [y], i) && Elements(states + [y]) == Elements(states) + {y}
  {
  }

  /** IDs in decreasing order, the canonical list of a set of states. */
  predicate Decreasing(s: seq<int>) {
    forall i, j :: 0 <= i < j < |s| ==> s[i] > s[j]
  }

  /** `sortedinsert` with `NFA_state_cmp_neg`: appends, then moves the new ID up while it is the larger one. */
  method SortedInsert(s: seq<int>, a: int) returns (r: seq<int>)
    requires Decreasing(s) && a !in s
    ensures Decreasing(r) && Elements(r) == Elements(s) + {a}
  {
    r := s + [a];
    assert Elements(r) == Elements(s) + {a};
    var i := |r| - 1;
    while i > 0
      invariant 0 <= i < |r| == |s| + 1 && r[i] == a
      invariant r[..i] == s[..i] && r[i + 1..] == s[i..]
      invariant forall k :: i < k < |r| ==> a > r[k]
    {
      if r[i] <= r[i - 1] {
        break;
      }
      r := r[i := r[i - 1]][i - 1 := r[i]];
      i := i - 1;
    }
    Inserted(s, a, i, r);
  }

  /** Adds the states that are not yet in the map. */
  method InsertAll(closure: seq<int>, closuremap: set<int>, more: seq<int>) returns (r: seq<int>, rmap: set<int>)
    requires Decreasing(closure) && closuremap == Elements(closure)
    ensures Decreasing(r) && rmap == Elements(r) && Elements(r) == Elements(closure) + Elements(more)
  {
    r, rmap := closure, closuremap;
    for j := 0 to |more|
      invariant Decreasing(r) && rmap == Elements(r) && Elements(r) == Elements(closure) + Elements(more[..j])
    {
      assert more[..j + 1] == more[..j] + [more[j]];
      assert Elements(more[..j + 1]) == Elements(more[..j]) + {more[j]};
      if more[j] !in rmap {
        rmap := rmap + {more[j]};
        r := SortedInsert(r, more[j]);
      }
    }
    assert more[..|more|] == more;
  }

  lemma ClosureUnion(g: Graph, states: seq<int>, i: nat, c: seq<int>, r: seq<int>)
    requires i < |states| && IsClosure(g, states[i], c) && IsClosureOf(g, Elements(states[..i]), Elements(r))
    ensures IsClosureOf(g, Elements(states[..i + 1]), Elements(r) + Elements(c))
  {
    var x := states[i];
    assert states[..i + 1] == states[..i] + [x];
    forall y
      ensures y in Elements(r) + Elements(c) <==>
              Core(g, y) && exists z :: z in Elements(states[..i + 1]) && EpsReach(g, z, y)
    {
      if y in Elements(c) {
        assert x in Elements(states[..i + 1]) && EpsReach(g, x, y);
      }
      if y in Elements(r) {
        var z :| z in Elements(states[..i]) && EpsReach(g, z, y);
        assert z in Elements(states[..i + 1]);
      }
      if Core(g, y) {
        if z :| z in Elements(states[..i + 1]) && EpsReach(g, z, y) {
          assert z == x || z in Elements(states[..i]);
        }
      }
    }
  }

  lemma Inserted(s: seq<int>, a: int, i: nat, r: seq<int>)
    requires Decreasing(s) && a !in s && i <= |s| && |r| == |s| + 1
    requires r[..i] == s[..i] && r[i] == a && r[i + 1..] == s[i..]
    requires (forall k :: i < k < |r| ==> a > r[k]) && (i > 0 ==> a <= r[i - 1])
    ensures Decreasing(r) && Elements(r) == Elements(s) + {a}
  {
    assert r == s[..i] + [a] + s[i..];
    assert s == s[..i] + s[i..];
    ElementsInsert(s[..i], a, s[i..]);
    InsertedOrder(s, a, i, r);
  }

  lemma ElementsInsert(p: seq<int>, a: int, q: seq<int>)
    ensures Elements(p + [a] + q) == Elements(p + q) + {a}
  {
  }

  lemma InsertedOrder(s: seq<int>, a: int, i: nat, r: seq<int>)
    requires Decreasing(s) && a !in s && i <= |s| && r == s[..i] + [a] + s[i..]
    requires (forall k :: i < k < |r| ==> a > r[k]) && (i > 0 ==> a <= r[i - 1])
    ensures Decreasing(r)
  {
    if i > 0 {
      assert r[i - 1] == s[i - 1] && s[i - 1] in s;
      assert a < s[i - 1];
    }
    forall k, l | 0 <= k < l < |r|
      ensures r[k] > r[l]
    {
      assert r[k] == if k < i then s[k] else if k == i then a else s[k - 1];
      assert r[l] == if l < i then s[l] else if l == i then a else s[l - 1];
    }
  }
}
