/** What the graph surgery of src/NFA.cc does to the language of a machine. */
module NfaConstructions {
  import opened NfaGraphs

  /** `g'` is `g` with one more edge from `f`, to `s`, as far as the states of `own` are concerned. */
  ghost predicate EdgeAdded(g: Graph, g': Graph, own: set<int>, f: int, s: int) {
    && f in own
    && (forall x :: x in own ==> x in g && x in g')
    && (forall x :: x in own && x != f ==> g'[x] == g[x])
    && g'[f] == g[f].(next := g[f].next + [s])
  }

  lemma EdgeAddedAt(g: Graph, g': Graph, own: set<int>, f: int, s: int, x: int)
    requires EdgeAdded(g, g', own, f, s) && x in own
    ensures x in g && x in g' && g'[x].sym == g[x].sym
    ensures forall y :: y in g[x].next ==> y in g'[x].next
    ensures forall y :: y in g'[x].next ==> y in g[x].next || (x == f && y == s)
  {
  }

  /** Walks survive a new edge. */
  lemma WalkKept(g: Graph, g': Graph, own: set<int>, f: int, s: int, p: seq<int>, w: Word)
    requires EdgeAdded(g, g', own, f, s) && Closed(g, own) && Walk(g, p, w) && p[0] in own
    ensures Walk(g', p, w)
  {
    WalkStays(g, own, p, w);
    WalkEdges(g, p, w);
    forall i | 0 <= i < |p|
      ensures p[i] in g' && g'[p[i]].sym == g[p[i]].sym && (i < |p| - 1 ==> p[i + 1] in g'[p[i]].next)
    {
      EdgeAddedAt(g, g', own, f, s, p[i]);
    }
    WalkFrame(g, g', p, w);
  }

  /** A walk that stays in `own` and never takes the new edge is a walk of the old graph. */
  lemma WalkBack(g: Graph, g': Graph, own: set<int>, f: int, s: int, p: seq<int>, w: Word)
    requires EdgeAdded(g, g', own, f, s) && Walk(g', p, w)
    requires forall i :: 0 <= i < |p| ==> p[i] in own
    requires forall i {:trigger p[i + 1]} :: 0 <= i < |p| - 1 ==> p[i] != f || p[i + 1] != s
    ensures Walk(g, p, w)
  {
    WalkEdges(g', p, w);
    forall i | 0 <= i < |p|
      ensures p[i] in g && g'[p[i]].sym == g[p[i]].sym && (i < |p| - 1 ==> p[i + 1] in g[p[i]].next)
    {
      EdgeAddedAt(g, g', own, f, s, p[i]);
    }
    WalkFrame(g', g, p, w);
  }

  // ----- AppendState -----

  lemma AppendIn(g: Graph, g': Graph, own: set<int>, a: int, f: int, s: int, u: Word, v: Word)
    requires Closed(g, own) && a in own && s !in own && EdgeAdded(g, g', own, f, s)
    requires s in g' && Reads(g'[s].sym, v) && u in Lang(g, a, f)
    ensures u + v in Lang(g', a, s)
  {
    var p :| WalkFromTo(g, a, f, p, u);
    WalkKept(g, g', own, f, s, p, u);
    EdgeAddedAt(g, g', own, f, s, f);
    assert v[..Width(g'[s].sym)] == v;
    assert Walk(g', [s], v);
    WalkJoin(g', p, u, [s], v);
    assert WalkFromTo(g', a, s, p + [s], u + v);
  }

  lemma AppendOut(g: Graph, g': Graph, own: set<int>, a: int, f: int, s: int, w: Word)
    requires Closed(g, own) && a in own && s !in own && EdgeAdded(g, g', own, f, s)
    requires s in g' && g'[s].next == [] && w in Lang(g', a, s)
    ensures w in Cat(Lang(g, a, f), ReadBy(g'[s].sym))
  {
    hide Walk, Closed, EdgeAdded, Reads, Cat;
    var p :| WalkFromTo(g', a, s, p, w);
    var _ := WalkUncons(g', p, w);
    var n := |p| - 1;
    AppendClosed(g, g', own, f, s);
    StaysBefore(g', own, s, p, w);
    WalkNodes(g', p, w, n - 1);
    var k := WalkSplit(g', p, w, n);
    var q := p[..n];
    assert forall i :: 0 <= i < n ==> q[i] == p[i] && q[i] in own;
    WalkBack(g, g', own, f, s, q, w[..k]);
    OnlyFinal(g, g', own, f, s, p[n - 1]);
    assert WalkFromTo(g, a, f, q, w[..k]);
    assert p[n..] == [s];
    OneStep(g', s, w[k..]);
    CatIntro(Lang(g, a, f), ReadBy(g'[s].sym), w[..k], w[k..]);
    assert w == w[..k] + w[k..];
  }

  lemma AppendClosed(g: Graph, g': Graph, own: set<int>, f: int, s: int)
    requires Closed(g, own) && EdgeAdded(g, g', own, f, s) && s in g' && g'[s].next == []
    ensures Closed(g', own + {s})
  {
  }

  lemma OneStep(g: Graph, s: int, w: Word)
    requires s in g && Walk(g, [s], w)
    ensures Reads(g[s].sym, w)
  {
    assert w[..Width(g[s].sym)] == w;
  }

  lemma StaysBefore(g: Graph, own: set<int>, s: int, p: seq<int>, w: Word)
    requires Closed(g, own + {s}) && s in g && g[s].next == [] && Walk(g, p, w) && p[0] in own
    ensures forall i :: 0 <= i < |p| - 1 ==> p[i] in own
  {
    WalkStays(g, own + {s}, p, w);
    WalkEdges(g, p, w);
    forall i | 0 <= i < |p| - 1
      ensures p[i] in own
    {
      assert p[i + 1] in g[p[i]].next;
    }
  }

  lemma OnlyFinal(g: Graph, g': Graph, own: set<int>, f: int, s: int, x: int)
    requires Closed(g, own) && s !in own && EdgeAdded(g, g', own, f, s) && x in own && x in g' && s in g'[x].next
    ensures x == f
  {
  }

  /** Hanging the fresh state `s` behind the final state appends what `s` reads. */
  lemma AppendLang(g: Graph, g': Graph, own: set<int>, a: int, f: int, s: int)
    requires Closed(g, own) && a in own && s !in own && EdgeAdded(g, g', own, f, s)
    requires s in g' && g'[s].next == []
    ensures Closed(g', own + {s})
    ensures Lang(g', a, s) == Cat(Lang(g, a, f), ReadBy(g'[s].sym))
  {
    forall w
      ensures w in Lang(g', a, s) <==> w in Cat(Lang(g, a, f), ReadBy(g'[s].sym))
    {
      if w in Lang(g', a, s) {
        AppendOut(g, g', own, a, f, s, w);
      }
      if w in Cat(Lang(g, a, f), ReadBy(g'[s].sym)) {
        var k :| 0 <= k <= |w| && w[..k] in Lang(g, a, f) && w[k..] in ReadBy(g'[s].sym);
        AppendIn(g, g', own, a, f, s, w[..k], w[k..]);
        assert w == w[..k] + w[k..];
      }
    }
  }

  // ----- linking two machines -----

  lemma {:induction false} FirstIn(p: seq<int>, s: set<int>, i: nat) returns (k: nat)
    requires i < |p| && p[|p| - 1] in s && forall j :: 0 <= j < i ==> p[j] !in s
    ensures i <= k < |p| && p[k] in s && forall j :: 0 <= j < k ==> p[j] !in s
    decreases |p| - i
  {
    if p[i] in s {
      k := i;
    } else {
      k := FirstIn(p, s, i + 1);
    }
  }

  lemma LinkIn(g: Graph, g': Graph, own1: set<int>, own2: set<int>, a1: int, f1: int, a2: int, f2: int, u: Word,
               v: Word)
    requires Closed(g, own1) && Closed(g, own2) && a1 in own1 && a2 in own2
    requires EdgeAdded(g, g', own1, f1, a2) && Agree(g, g', own2)
    requires u in Lang(g, a1, f1) && v in Lang(g, a2, f2)
    ensures u + v in Lang(g', a1, f2)
  {
    var p :| WalkFromTo(g, a1, f1, p, u);
    var q :| WalkFromTo(g, a2, f2, q, v);
    WalkKept(g, g', own1, f1, a2, p, u);
    AgreeWalk(g, g', own2, q, v);
    EdgeAddedAt(g, g', own1, f1, a2, f1);
    WalkJoin(g', p, u, q, v);
    assert WalkFromTo(g', a1, f2, p + q, u + v);
  }

  lemma LinkOut(g: Graph, g': Graph, own1: set<int>, own2: set<int>, a1: int, f1: int, a2: int, f2: int, w: Word)
    requires Closed(g, own1) && Closed(g, own2) && own1 !! own2 && a1 in own1 && a2 in own2 && f2 in own2
    requires EdgeAdded(g, g', own1, f1, a2) && Agree(g, g', own2)
    requires Closed(g', own1 + own2) && w in Lang(g', a1, f2)
    ensures w in Cat(Lang(g, a1, f1), Lang(g, a2, f2))
  {
    hide Walk, Closed, EdgeAdded, Agree, Cat;
    var p :| WalkFromTo(g', a1, f2, p, w);
    var _ := WalkUncons(g', p, w);
    WalkStays(g', own1 + own2, p, w);
    var i := FirstIn(p, own2, 0);
    assert forall j :: 0 <= j < i ==> p[j] in own1;
    WalkNodes(g', p, w, i - 1);
    CrossEdge(g, g', own1, own2, f1, a2, p[i - 1], p[i]);
    var k := WalkSplit(g', p, w, i);
    var q := p[..i];
    assert forall j :: 0 <= j < i ==> q[j] == p[j] && q[j] in own1;
    WalkBack(g, g', own1, f1, a2, q, w[..k]);
    assert WalkFromTo(g, a1, f1, q, w[..k]);
    LangFrame(g, g', own2, a2, f2);
    assert WalkFromTo(g', a2, f2, p[i..], w[k..]);
    assert w[k..] in Lang(g', a2, f2);
    CatIntro(Lang(g, a1, f1), Lang(g, a2, f2), w[..k], w[k..]);
    assert w == w[..k] + w[k..];
  }

  lemma CrossEdge(g: Graph, g': Graph, own1: set<int>, own2: set<int>, f: int, s: int, x: int, y: int)
    requires Closed(g, own1) && own1 !! own2 && EdgeAdded(g, g', own1, f, s)
    requires x in own1 && x in g' && y in own2 && y in g'[x].next
    ensures x == f && y == s
  {
    EdgeAddedAt(g, g', own1, f, s, x);
  }

  /** An edge from the final state of one machine to the first state of another concatenates them. */
  lemma LinkLang(g: Graph, g': Graph, own1: set<int>, own2: set<int>, a1: int, f1: int, a2: int, f2: int)
    requires Closed(g, own1) && Closed(g, own2) && own1 !! own2 && a1 in own1 && a2 in own2 && f2 in own2
    requires EdgeAdded(g, g', own1, f1, a2) && Agree(g, g', own2)
    ensures Closed(g', own1 + own2)
    ensures Lang(g', a1, f2) == Cat(Lang(g, a1, f1), Lang(g, a2, f2))
  {
    forall w
      ensures w in Lang(g', a1, f2) <==> w in Cat(Lang(g, a1, f1), Lang(g, a2, f2))
    {
      if w in Lang(g', a1, f2) {
        LinkOut(g, g', own1, own2, a1, f1, a2, f2, w);
      }
      if w in Cat(Lang(g, a1, f1), Lang(g, a2, f2)) {
        var k :| 0 <= k <= |w| && w[..k] in Lang(g, a1, f1) && w[k..] in Lang(g, a2, f2);
        LinkIn(g, g', own1, own2, a1, f1, a2, f2, w[..k], w[k..]);
        assert w == w[..k] + w[k..];
      }
    }
  }

  // ----- the loop of MakePositiveClosure -----

  lemma LoopOnce(g: Graph, g': Graph, own: set<int>, a: int, f: int, p: seq<int>, w: Word)
    requires Closed(g, own) && a in own && EdgeAdded(g, g', own, f, a) && WalkFromTo(g', a, f, p, w)
    requires forall i :: 0 <= i < |p| - 1 ==> p[i] != f
    requires Closed(g', own)
    ensures w in Lang(g, a, f)
  {
    WalkStays(g', own, p, w);
    WalkBack(g, g', own, f, a, p, w);
    assert WalkFromTo(g, a, f, p, w);
  }

  lemma {:induction false} LoopOut(g: Graph, g': Graph, own: set<int>, a: int, f: int, p: seq<int>, w: Word)
    requires Closed(g, own) && a in own && EdgeAdded(g, g', own, f, a) && g[f].next == []
    requires Closed(g', own) && WalkFromTo(g', a, f, p, w)
    ensures w in Plus(Lang(g, a, f))
    decreases |p|
  {
    var i := FirstIn(p, {f}, 0);
    if i == |p| - 1 {
      LoopOnce(g, g', own, a, f, p, w);
      PlusOne(Lang(g, a, f), w);
    } else {
      var k := LoopCut(g, g', own, a, f, p, w, i);
      LoopOnce(g, g', own, a, f, p[..i + 1], w[..k]);
      LoopOut(g, g', own, a, f, p[i + 1..], w[k..]);
      PlusCons(Lang(g, a, f), w, k);
    }
  }

  lemma PlusOne(l: iset<Word>, w: Word)
    requires w in l
    ensures w in Plus(l)
  {
    PowOne(l);
    assert w in Pow(l, 1);
  }

  lemma PlusCons(l: iset<Word>, w: Word, k: nat)
    requires k <= |w| && w[..k] in l && w[k..] in Plus(l)
    ensures w in Plus(l)
  {
    var m: nat :| m >= 1 && w[k..] in Pow(l, m);
    PowCons(l, m, w, k);
  }

  lemma LoopCut(g: Graph, g': Graph, own: set<int>, a: int, f: int, p: seq<int>, w: Word, i: nat) returns (k: nat)
    requires EdgeAdded(g, g', own, f, a) && g[f].next == [] && WalkFromTo(g', a, f, p, w)
    requires i < |p| - 1 && p[i] == f
    ensures k <= |w| && WalkFromTo(g', a, f, p[..i + 1], w[..k]) && WalkFromTo(g', a, f, p[i + 1..], w[k..])
  {
    k := WalkSplit(g', p, w, i + 1);
    WalkNodes(g', p, w, i);
    assert g'[f].next == [a];
  }

  lemma PowCons(l: iset<Word>, m: nat, w: Word, k: nat)
    requires k <= |w| && w[..k] in l && w[k..] in Pow(l, m)
    ensures w in Pow(l, m + 1)
  {
    CatIntro(l, Pow(l, m), w[..k], w[k..]);
    assert w == w[..k] + w[k..];
  }

  lemma {:induction false} LoopIn(g: Graph, g': Graph, own: set<int>, a: int, f: int, n: nat, w: Word)
    requires Closed(g, own) && a in own && EdgeAdded(g, g', own, f, a)
    requires n >= 1 && w in Pow(Lang(g, a, f), n)
    ensures w in Lang(g', a, f)
    decreases n
  {
    hide Walk, Closed;
    var l := Lang(g, a, f);
    var k :| 0 <= k <= |w| && w[..k] in l && w[k..] in Pow(l, n - 1);
    var p :| WalkFromTo(g, a, f, p, w[..k]);
    WalkKept(g, g', own, f, a, p, w[..k]);
    if n == 1 {
      assert w[..k] == w;
      assert WalkFromTo(g', a, f, p, w);
    } else {
      LoopIn(g, g', own, a, f, n - 1, w[k..]);
      var q :| WalkFromTo(g', a, f, q, w[k..]);
      EdgeAddedAt(g, g', own, f, a, f);
      LoopJoin(g', a, f, p, w[..k], q, w[k..]);
      assert w == w[..k] + w[k..];
    }
  }

  lemma LoopJoin(g: Graph, a: int, f: int, p: seq<int>, u: Word, q: seq<int>, v: Word)
    requires WalkFromTo(g, a, f, p, u) && WalkFromTo(g, a, f, q, v) && f in g && a in g[f].next
    ensures u + v in Lang(g, a, f)
  {
    WalkJoin(g, p, u, q, v);
    assert WalkFromTo(g, a, f, p + q, u + v);
  }

  /** An edge from a dead-end final state back to the first state makes the positive closure. */
  lemma LoopLang(g: Graph, g': Graph, own: set<int>, a: int, f: int)
    requires Closed(g, own) && a in own && EdgeAdded(g, g', own, f, a) && g[f].next == []
    ensures Closed(g', own)
    ensures Lang(g', a, f) == Plus(Lang(g, a, f))
  {
    forall w
      ensures w in Lang(g', a, f) <==> w in Plus(Lang(g, a, f))
    {
      if p :| WalkFromTo(g', a, f, p, w) {
        LoopOut(g, g', own, a, f, p, w);
      }
      if n: nat :| n >= 1 && w in Pow(Lang(g, a, f), n) {
        LoopIn(g, g', own, a, f, n, w);
      }
    }
  }

  // ----- a new first state -----

  /** An epsilon state reads what its successors read. */
  lemma ForkLang(g: Graph, e: int, f: int, w: Word)
    requires e in g && g[e].sym.Epsilon? && e != f
    ensures w in Lang(g, e, f) <==> exists a :: a in g[e].next && w in Lang(g, a, f)
  {
    if p :| WalkFromTo(g, e, f, p, w) {
      var a := p[1];
      assert WalkFromTo(g, a, f, p[1..], w);
      assert a in g[e].next && w in Lang(g, a, f);
    }
    if a :| a in g[e].next && w in Lang(g, a, f) {
      var p :| WalkFromTo(g, a, f, p, w);
      assert Walk(g, [e], []);
      WalkJoin(g, [e], [], p, w);
      assert [] + w == w;
      assert WalkFromTo(g, e, f, [e] + p, w);
    }
  }

  /** A dead-end epsilon state reads the empty word on its way to itself. */
  lemma DeadEnd(g: Graph, f: int)
    requires f in g && g[f].sym.Epsilon? && g[f].next == []
    ensures Lang(g, f, f) == EmptyWord
  {
    assert WalkFromTo(g, f, f, [f], []);
  }

  /** A shortcut edge from a source state to a dead end adds the empty word. */
  lemma OptionalLang(g: Graph, g': Graph, own: set<int>, e: int, f: int)
    requires Closed(g, own) && EdgeAdded(g, g', own, e, f) && f in own && e != f
    requires g[e].sym.Epsilon? && g[f].sym.Epsilon? && g[f].next == []
    requires forall x :: x in own ==> e !in g[x].next
    ensures Closed(g', own)
    ensures Lang(g', e, f) == Lang(g, e, f) + EmptyWord
  {
    assert Closed(g, own - {e}) && Agree(g, g', own - {e});
    DeadEnd(g', f);
    forall w
      ensures w in Lang(g', e, f) <==> w in Lang(g, e, f) || w in EmptyWord
    {
      ForkLang(g, e, f, w);
      ForkLang(g', e, f, w);
      if a :| a in g[e].next && w in Lang(g, a, f) {
        LangFrame(g, g', own - {e}, a, f);
        assert a in g'[e].next && w in Lang(g', a, f);
      }
      if a :| a in g'[e].next && w in Lang(g', a, f) {
        if a != f {
          LangFrame(g, g', own - {e}, a, f);
          assert a in g[e].next && w in Lang(g, a, f);
        }
      }
      if w in EmptyWord {
        assert f in g'[e].next && w in Lang(g', f, f);
      }
    }
  }

  // ----- copying -----

  ghost predicate Covers(m: map<int, int>, s: seq<int>) {
    forall i :: 0 <= i < |s| ==> s[i] in m
  }

  ghost function Image(m: map<int, int>, s: seq<int>): (r: seq<int>)
    requires Covers(m, s)
    ensures |r| == |s| && forall i :: 0 <= i < |s| ==> r[i] == m[s[i]]
  {
    seq(|s|, i requires 0 <= i < |s| => m[s[i]])
  }

  /** `m` maps the states of its closed domain to copies of them. */
  ghost predicate Copies(g: Graph, m: map<int, int>) {
    && (forall x :: x in m ==> x in g && Covers(m, g[x].next))
    && (forall x :: x in m ==> m[x] in g && g[m[x]].sym == g[x].sym && g[m[x]].next == Image(m, g[x].next))
    && (forall x, y :: x in m && y in m && m[x] == m[y] ==> x == y)
  }

  lemma {:induction false} CopyWalk(g: Graph, m: map<int, int>, p: seq<int>, w: Word)
    requires Copies(g, m) && Walk(g, p, w) && p[0] in m
    requires Covers(m, p)
    ensures Walk(g, Image(m, p), w)
    decreases |p|
  {
    var x := p[0];
    assert x in m && g[m[x]].sym == g[x].sym;
    if |p| > 1 {
      var y := p[1];
      CopyWalk(g, m, p[1..], w[Width(g[x].sym)..]);
      assert Image(m, p)[1..] == Image(m, p[1..]);
      ImageMember(m, g[x].next, y);
    }
  }

  lemma CopiesClosed(g: Graph, m: map<int, int>)
    requires Copies(g, m)
    ensures Closed(g, m.Keys)
  {
    forall x, y | x in m && y in g[x].next
      ensures y in m
    {
      ImageMember(m, g[x].next, y);
    }
  }

  lemma ImageMember(m: map<int, int>, s: seq<int>, y: int)
    requires Covers(m, s) && y in s
    ensures y in m && m[y] in Image(m, s)
  {
    var i :| 0 <= i < |s| && s[i] == y;
    assert Image(m, s)[i] == m[y];
  }

  lemma {:induction false} CopyWalkBack(g: Graph, m: map<int, int>, a: int, q: seq<int>, w: Word) returns (p: seq<int>)
    requires Copies(g, m) && a in m && Walk(g, q, w) && q[0] == m[a]
    ensures |p| == |q| && p[0] == a && Covers(m, p) && Image(m, p) == q
    ensures Walk(g, p, w)
    decreases |q|
  {
    if |q| == 1 {
      p := [a];
    } else {
      var y := q[1];
      var next := Image(m, g[a].next);
      assert y in next;
      var i :| 0 <= i < |next| && next[i] == y;
      var b := g[a].next[i];
      var r := CopyWalkBack(g, m, b, q[1..], w[Width(g[a].sym)..]);
      p := [a] + r;
      assert p[1..] == r;
    }
  }

  /** The copy of a machine reads the machine's language. */
  lemma CopyLang(g: Graph, m: map<int, int>, a: int, b: int)
    requires Copies(g, m) && a in m && b in m
    ensures Lang(g, m[a], m[b]) == Lang(g, a, b)
  {
    forall w
      ensures w in Lang(g, m[a], m[b]) <==> w in Lang(g, a, b)
    {
      if p :| WalkFromTo(g, a, b, p, w) {
        CopiesClosed(g, m);
        WalkStays(g, m.Keys, p, w);
        CopyWalk(g, m, p, w);
        assert WalkFromTo(g, m[a], m[b], Image(m, p), w);
      }
      if q :| WalkFromTo(g, m[a], m[b], q, w) {
        var p := CopyWalkBack(g, m, a, q, w);
        var z := p[|p| - 1];
        assert m[z] == Image(m, p)[|p| - 1] == m[b];
        assert WalkFromTo(g, a, b, p, w);
      }
    }
  }
}
