/** Epsilon-NFAs as graphs, the words their paths read, and the algebra of the languages the
    constructions of src/NFA.cc are meant to build. */
module NfaGraphs {

  type Word = seq<int>

  /** A character class as the pattern gives it; `index` is its place in the matcher's list of classes. */
  datatype CharClass = CharClass(index: nat, syms: seq<int>, negated: bool)

  /** What a state reads before it moves on. */
  datatype Label = Epsilon | Symbol(c: int) | Class(ccl: CharClass)

  datatype Node = Node(sym: Label, accept: int, next: seq<int>)

  type Graph = map<int, Node>

  const NO_ACCEPT := 0

  predicate Matches(l: Label, c: int) {
    match l
    case Epsilon => false
    case Symbol(s) => s == c
    case Class(ccl) => (c in ccl.syms) != ccl.negated
  }

  function Width(l: Label): nat {
    if l.Epsilon? then 0 else 1
  }

  /** The words a single state reads. */
  predicate Reads(l: Label, w: Word) {
    if l.Epsilon? then w == [] else |w| == 1 && Matches(l, w[0])
  }

  /** The states of `p`, in order and each read to its end, read `w`. */
  ghost predicate Walk(g: Graph, p: seq<int>, w: Word)
    decreases |p|
  {
    && p != [] && p[0] in g
    && var l := g[p[0]].sym;
       && Width(l) <= |w| && Reads(l, w[..Width(l)])
       && if |p| == 1 then |w| == Width(l) else p[1] in g[p[0]].next && Walk(g, p[1..], w[Width(l)..])
  }

  ghost predicate WalkFromTo(g: Graph, a: int, b: int, p: seq<int>, w: Word) {
    Walk(g, p, w) && p[0] == a && p[|p| - 1] == b
  }

  ghost predicate Accepts(g: Graph, a: int, b: int, w: Word) {
    exists p :: WalkFromTo(g, a, b, p, w)
  }

  /** The language of a machine with first state `a` and final state `b`. */
  ghost function Lang(g: Graph, a: int, b: int): iset<Word> {
    iset w | Accepts(g, a, b, w)
  }

  lemma {:induction false} WalkJoin(g: Graph, p: seq<int>, u: Word, q: seq<int>, v: Word)
    requires Walk(g, p, u) && Walk(g, q, v) && p[|p| - 1] in g && q[0] in g[p[|p| - 1]].next
    ensures Walk(g, p + q, u + v)
    decreases |p|
  {
    var k := Width(g[p[0]].sym);
    assert (u + v)[..k] == u[..k];
    assert (p + q)[1..] == p[1..] + q;
    assert (u + v)[k..] == u[k..] + v;
    if |p| == 1 {
      assert p[1..] + q == q;
      assert u[k..] + v == v;
    } else {
      WalkJoin(g, p[1..], u[k..], q, v);
    }
  }

  lemma {:induction false} WalkNodes(g: Graph, p: seq<int>, w: Word, i: nat)
    requires Walk(g, p, w) && i < |p|
    ensures p[i] in g
    ensures i + 1 < |p| ==> p[i + 1] in g[p[i]].next
    decreases i
  {
    if i > 0 {
      WalkNodes(g, p[1..], w[Width(g[p[0]].sym)..], i - 1);
    }
  }

  lemma WalkUncons(g: Graph, p: seq<int>, w: Word) returns (n: nat)
    requires Walk(g, p, w)
    ensures |p| > 0 && p[0] in g && n == Width(g[p[0]].sym) <= |w| && Reads(g[p[0]].sym, w[..n])
    ensures Walk(g, p[..1], w[..n])
    ensures |p| > 1 ==> p[1] in g[p[0]].next && Walk(g, p[1..], w[n..])
  {
    n := Width(g[p[0]].sym);
    assert w[..n][..n] == w[..n];
  }

  lemma WalkCons(g: Graph, p: seq<int>, w: Word, n: nat)
    requires |p| > 1 && p[0] in g && n == Width(g[p[0]].sym) <= |w| && Reads(g[p[0]].sym, w[..n])
    requires p[1] in g[p[0]].next && Walk(g, p[1..], w[n..])
    ensures Walk(g, p, w)
  {
  }

  lemma {:induction false} WalkSplit(g: Graph, p: seq<int>, w: Word, i: nat) returns (k: nat)
    requires Walk(g, p, w) && 0 < i < |p|
    ensures k <= |w|
    ensures Walk(g, p[..i], w[..k]) && Walk(g, p[i..], w[k..])
    decreases i
  {
    hide Walk, Reads;
    var n := WalkUncons(g, p, w);
    if i == 1 {
      k := n;
    } else {
      var k' := WalkSplit(g, p[1..], w[n..], i - 1);
      k := n + k';
      assert p[..i][1..] == p[1..][..i - 1];
      assert w[..k][..n] == w[..n];
      assert w[..k][n..] == w[n..][..k'];
      WalkCons(g, p[..i], w[..k], n);
      assert w[n..][k'..] == w[k..];
      assert p[1..][i - 1..] == p[i..];
    }
  }

  /** A walk depends only on the labels and edges it uses. */
  lemma {:induction false} WalkFrame(g: Graph, g': Graph, p: seq<int>, w: Word)
    requires Walk(g, p, w)
    requires forall i :: 0 <= i < |p| ==> p[i] in g && p[i] in g' && g'[p[i]].sym == g[p[i]].sym
    requires forall i :: 0 <= i < |p| - 1 ==> p[i + 1] in g'[p[i]].next
    ensures Walk(g', p, w)
    decreases |p|
  {
    if |p| > 1 {
      WalkFrame(g, g', p[1..], w[Width(g[p[0]].sym)..]);
    }
  }

  /** `own` is closed under the edges of `g`. */
  ghost predicate Closed(g: Graph, own: set<int>) {
    forall x :: x in own ==> x in g && forall y :: y in g[x].next ==> y in own
  }

  lemma ClosedStep(g: Graph, own: set<int>, x: int, y: int)
    requires Closed(g, own) && x in own && x in g && y in g[x].next
    ensures y in own
  {
  }

  lemma {:induction false} WalkStays(g: Graph, own: set<int>, p: seq<int>, w: Word)
    requires Walk(g, p, w) && Closed(g, own) && p[0] in own
    ensures forall i :: 0 <= i < |p| ==> p[i] in own
    decreases |p|
  {
    if |p| > 1 {
      ClosedStep(g, own, p[0], p[1]);
      WalkStays(g, own, p[1..], w[Width(g[p[0]].sym)..]);
      assert forall i :: 1 <= i < |p| ==> p[i] == p[1..][i - 1];
    }
  }

  /** Every edge leads to a state. */
  ghost predicate Whole(g: Graph) {
    forall x :: x in g ==> forall y :: y in g[x].next ==> y in g
  }

  /** The two graphs have the same states in `own`. */
  ghost predicate Agree(g: Graph, g': Graph, own: set<int>) {
    forall x :: x in own ==> x in g && x in g' && g'[x] == g[x]
  }

  lemma AgreeAt(g: Graph, g': Graph, own: set<int>, x: int)
    requires Agree(g, g', own) && x in own
    ensures x in g && x in g' && g'[x] == g[x]
  {
  }

  lemma LangFrame(g: Graph, g': Graph, own: set<int>, a: int, b: int)
    requires Closed(g, own) && a in own && Agree(g, g', own)
    ensures Closed(g', own) && Lang(g', a, b) == Lang(g, a, b)
  {
    forall w
      ensures w in Lang(g', a, b) <==> w in Lang(g, a, b)
    {
      if p :| WalkFromTo(g, a, b, p, w) {
        AgreeWalk(g, g', own, p, w);
        assert WalkFromTo(g', a, b, p, w);
      }
      if p :| WalkFromTo(g', a, b, p, w) {
        AgreeWalk(g', g, own, p, w);
        assert WalkFromTo(g, a, b, p, w);
      }
    }
  }

  lemma AgreeWalk(g: Graph, g': Graph, own: set<int>, p: seq<int>, w: Word)
    requires Walk(g, p, w) && Closed(g, own) && p[0] in own && Agree(g, g', own)
    ensures Walk(g', p, w)
  {
    WalkStays(g, own, p, w);
    WalkEdges(g, p, w);
    forall i | 0 <= i < |p|
      ensures p[i] in g' && g'[p[i]] == g[p[i]]
    {
      AgreeAt(g, g', own, p[i]);
    }
    WalkFrame(g, g', p, w);
  }

  lemma WalkEdges(g: Graph, p: seq<int>, w: Word)
    requires Walk(g, p, w)
    ensures forall i :: 0 <= i < |p| ==> p[i] in g
    ensures forall i {:trigger p[i + 1]} :: 0 <= i < |p| - 1 ==> p[i + 1] in g[p[i]].next
  {
    forall i | 0 <= i < |p|
      ensures p[i] in g && (i + 1 < |p| ==> p[i + 1] in g[p[i]].next)
    {
      WalkNodes(g, p, w, i);
    }
  }

  // ----- language algebra -----

  ghost function Cat(a: iset<Word>, b: iset<Word>): iset<Word> {
    iset w, k | 0 <= k <= |w| && w[..k] in a && w[k..] in b :: w
  }

  ghost function ReadBy(l: Label): iset<Word> {
    iset w | Reads(l, w)
  }

  ghost const EmptyWord: iset<Word> := iset{[]}

  ghost function Pow(a: iset<Word>, n: nat): iset<Word> {
    if n == 0 then EmptyWord else Cat(a, Pow(a, n - 1))
  }

  ghost function Plus(a: iset<Word>): iset<Word> {
    iset w, n: nat | n >= 1 && w in Pow(a, n) :: w
  }

  ghost function Star(a: iset<Word>): iset<Word> {
    iset w, n: nat | w in Pow(a, n) :: w
  }

  /** At least `lo` words of `a`, and at most `hi`. */
  ghost function Repeat(a: iset<Word>, lo: nat, hi: nat): iset<Word> {
    iset w, n: nat | lo <= n <= hi && w in Pow(a, n) :: w
  }

  ghost function AtLeast(a: iset<Word>, lo: nat): iset<Word> {
    iset w, n: nat | lo <= n && w in Pow(a, n) :: w
  }

  lemma CatIntro(a: iset<Word>, b: iset<Word>, u: Word, v: Word)
    requires u in a && v in b
    ensures u + v in Cat(a, b)
  {
    var w := u + v;
    assert w[..|u|] == u && w[|u|..] == v;
  }

  lemma CatElim(a: iset<Word>, b: iset<Word>, w: Word) returns (k: nat)
    requires w in Cat(a, b)
    ensures k <= |w| && w[..k] in a && w[k..] in b
  {
    k :| 0 <= k <= |w| && w[..k] in a && w[k..] in b;
  }

  lemma CatAssoc(a: iset<Word>, b: iset<Word>, c: iset<Word>)
    ensures Cat(Cat(a, b), c) == Cat(a, Cat(b, c))
  {
    hide Cat;
    forall w
      ensures w in Cat(Cat(a, b), c) <==> w in Cat(a, Cat(b, c))
    {
      if w in Cat(Cat(a, b), c) {
        var k := CatElim(Cat(a, b), c, w);
        var j := CatElim(a, b, w[..k]);
        CatIntro(b, c, w[..k][j..], w[k..]);
        CatIntro(a, Cat(b, c), w[..k][..j], w[..k][j..] + w[k..]);
        assert w == w[..k][..j] + (w[..k][j..] + w[k..]);
      }
      if w in Cat(a, Cat(b, c)) {
        var k := CatElim(a, Cat(b, c), w);
        var j := CatElim(b, c, w[k..]);
        CatIntro(a, b, w[..k], w[k..][..j]);
        CatIntro(Cat(a, b), c, w[..k] + w[k..][..j], w[k..][j..]);
        assert w == (w[..k] + w[k..][..j]) + w[k..][j..];
      }
    }
  }

  lemma CatEmptyRight(a: iset<Word>)
    ensures Cat(a, EmptyWord) == a
  {
    forall w
      ensures w in Cat(a, EmptyWord) <==> w in a
    {
      if w in a {
        CatIntro(a, EmptyWord, w, []);
        assert w + [] == w;
      }
      if w in Cat(a, EmptyWord) {
        var k := CatElim(a, EmptyWord, w);
        assert w[..k] == w;
      }
    }
  }

  lemma CatEmptyLeft(a: iset<Word>)
    ensures Cat(EmptyWord, a) == a
  {
    forall w
      ensures w in Cat(EmptyWord, a) <==> w in a
    {
      if w in a {
        CatIntro(EmptyWord, a, [], w);
        assert [] + w == w;
      }
      if w in Cat(EmptyWord, a) {
        var k := CatElim(EmptyWord, a, w);
        assert w[k..] == w;
      }
    }
  }

  lemma PowOne(a: iset<Word>)
    ensures Pow(a, 1) == a
  {
    CatEmptyRight(a);
    assert Pow(a, 1) == Cat(a, Pow(a, 0));
  }

  lemma {:induction false} PowAdd(a: iset<Word>, m: nat, n: nat)
    ensures Cat(Pow(a, m), Pow(a, n)) == Pow(a, m + n)
    decreases m
  {
    if m == 0 {
      CatEmptyLeft(Pow(a, n));
    } else {
      CatAssoc(a, Pow(a, m - 1), Pow(a, n));
      PowAdd(a, m - 1, n);
    }
  }

  lemma PowSnoc(a: iset<Word>, n: nat)
    ensures Cat(Pow(a, n), a) == Pow(a, n + 1)
  {
    PowAdd(a, n, 1);
    PowOne(a);
  }

  /** The empty word or a positive closure: the star. */
  lemma StarOfPlus(a: iset<Word>)
    ensures Plus(a) + EmptyWord == Star(a)
  {
    forall w
      ensures w in Plus(a) + EmptyWord <==> w in Star(a)
    {
      if w in EmptyWord {
        assert w in Pow(a, 0);
      }
    }
  }

  lemma RepeatOne(a: iset<Word>, lo: nat)
    ensures Repeat(a, lo, lo) == Pow(a, lo)
  {
  }

  /** One more optional word raises the upper bound by one. */
  lemma RepeatSnoc(a: iset<Word>, lo: nat, hi: nat)
    requires lo <= hi
    ensures Cat(Repeat(a, lo, hi), a + EmptyWord) == Repeat(a, lo, hi + 1)
  {
    forall w
      ensures w in Cat(Repeat(a, lo, hi), a + EmptyWord) <==> w in Repeat(a, lo, hi + 1)
    {
      if w in Cat(Repeat(a, lo, hi), a + EmptyWord) {
        var k := CatElim(Repeat(a, lo, hi), a + EmptyWord, w);
        var n: nat :| lo <= n <= hi && w[..k] in Pow(a, n);
        if w[k..] in a {
          CatIntro(Pow(a, n), a, w[..k], w[k..]);
          PowSnoc(a, n);
          assert w == w[..k] + w[k..];
          assert w in Pow(a, n + 1);
        } else {
          assert w[..k] == w;
        }
      }
      if n: nat :| lo <= n <= hi + 1 && w in Pow(a, n) {
        RepeatPeel(a, lo, hi, n, w);
      }
    }
  }

  lemma RepeatPeel(a: iset<Word>, lo: nat, hi: nat, n: nat, w: Word)
    requires lo <= hi && lo <= n <= hi + 1 && w in Pow(a, n)
    ensures w in Cat(Repeat(a, lo, hi), a + EmptyWord)
  {
    if n <= hi {
      assert w in Repeat(a, lo, hi);
      CatIntro(Repeat(a, lo, hi), a + EmptyWord, w, []);
      assert w + [] == w;
    } else {
      PowSnoc(a, hi);
      var k := CatElim(Pow(a, hi), a, w);
      assert w[..k] in Repeat(a, lo, hi);
      CatIntro(Repeat(a, lo, hi), a + EmptyWord, w[..k], w[k..]);
      assert w == w[..k] + w[k..];
    }
  }

  lemma AtLeastStar(a: iset<Word>, lo: nat)
    ensures Cat(Pow(a, lo), Star(a)) == AtLeast(a, lo)
  {
    hide Cat, Pow;
    forall w
      ensures w in Cat(Pow(a, lo), Star(a)) <==> w in AtLeast(a, lo)
    {
      if w in Cat(Pow(a, lo), Star(a)) {
        var k := CatElim(Pow(a, lo), Star(a), w);
        var n: nat :| w[k..] in Pow(a, n);
        CatIntro(Pow(a, lo), Pow(a, n), w[..k], w[k..]);
        PowAdd(a, lo, n);
        assert w == w[..k] + w[k..];
      }
      if n: nat :| lo <= n && w in Pow(a, n) {
        PowAdd(a, lo, n - lo);
        var k := CatElim(Pow(a, lo), Pow(a, n - lo), w);
        assert w[k..] in Star(a);
        CatIntro(Pow(a, lo), Star(a), w[..k], w[k..]);
        assert w == w[..k] + w[k..];
      }
    }
  }

  // ----- reachability -----

  ghost predicate Path(g: Graph, p: seq<int>)
    decreases |p|
  {
    p != [] && p[0] in g && (|p| > 1 ==> p[1] in g[p[0]].next && Path(g, p[1..]))
  }

  ghost predicate PathFromTo(g: Graph, a: int, b: int, p: seq<int>) {
    Path(g, p) && p[0] == a && p[|p| - 1] == b
  }

  ghost predicate Reach(g: Graph, a: int, b: int) {
    exists p :: PathFromTo(g, a, b, p)
  }

  lemma ReachSelf(g: Graph, a: int)
    requires a in g
    ensures Reach(g, a, a)
  {
    assert PathFromTo(g, a, a, [a]);
  }

  lemma ReachCons(g: Graph, a: int, b: int, c: int)
    requires a in g && b in g[a].next && Reach(g, b, c)
    ensures Reach(g, a, c)
  {
    var p :| PathFromTo(g, b, c, p);
    assert ([a] + p)[1..] == p;
    assert PathFromTo(g, a, c, [a] + p);
  }

  lemma {:induction false} ReachTrans(g: Graph, a: int, b: int, c: int, p: seq<int>)
    requires PathFromTo(g, a, b, p) && Reach(g, b, c)
    ensures Reach(g, a, c)
    decreases |p|
  {
    if |p| > 1 {
      ReachTrans(g, p[1], b, c, p[1..]);
      ReachCons(g, a, p[1], c);
    }
  }

  /** A set closed under edges holds whatever its members reach. */
  lemma {:induction false} PathStays(g: Graph, own: set<int>, p: seq<int>)
    requires Path(g, p) && Closed(g, own) && p[0] in own
    ensures p[|p| - 1] in own
    decreases |p|
  {
    if |p| > 1 {
      ClosedStep(g, own, p[0], p[1]);
      PathStays(g, own, p[1..]);
    }
  }

  /** Reachability survives more edges. */
  lemma {:induction false} PathKept(g: Graph, g': Graph, own: set<int>, p: seq<int>)
    requires Path(g, p) && Closed(g, own) && p[0] in own
    requires forall x :: x in own ==> x in g && x in g' && forall y :: y in g[x].next ==> y in g'[x].next
    ensures Path(g', p)
    decreases |p|
  {
    var x := p[0];
    assert x in own;
    if |p| > 1 {
      ClosedStep(g, own, p[0], p[1]);
      var y := p[1];
      assert y in g[x].next;
      PathKept(g, g', own, p[1..]);
    }
  }

  lemma ReachKept(g: Graph, g': Graph, own: set<int>, a: int, b: int)
    requires Closed(g, own) && a in own && Reach(g, a, b)
    requires forall x :: x in own ==> x in g && x in g' && forall y :: y in g[x].next ==> y in g'[x].next
    ensures Reach(g', a, b)
  {
    var p :| PathFromTo(g, a, b, p);
    PathKept(g, g', own, p);
    assert PathFromTo(g', a, b, p);
  }

  // ----- simulation -----

  /** From `a`, in `n` moves, the states left behind read `w` and `x` is about to be read. */
  ghost predicate ReachedIn(g: Graph, a: int, w: Word, x: int, n: nat)
    decreases n
  {
    && x in g
    && if n == 0 then x == a && w == []
       else exists z :: z in g && x in g[z].next && ReachedThrough(g, a, w, z, n)
  }

  ghost predicate ReachedThrough(g: Graph, a: int, w: Word, z: int, n: nat)
    requires z in g && n > 0
    decreases n, 0
  {
    var k := |w| - Width(g[z].sym);
    0 <= k && Reads(g[z].sym, w[k..]) && ReachedIn(g, a, w[..k], z, n - 1)
  }

  /** An NFA started in `a` can be in state `x` after reading `w`. */
  ghost predicate Reached(g: Graph, a: int, w: Word, x: int) {
    exists n: nat :: ReachedIn(g, a, w, x, n)
  }

  lemma {:induction false} ReachedReads(g: Graph, a: int, w: Word, x: int, n: nat, v: Word)
    requires ReachedIn(g, a, w, x, n) && Reads(g[x].sym, v)
    ensures w + v in Lang(g, a, x)
    decreases n
  {
    assert v[..Width(g[x].sym)] == v;
    assert Walk(g, [x], v);
    if n == 0 {
      assert w + v == v;
      assert WalkFromTo(g, a, x, [x], v);
    } else {
      var z :| z in g && x in g[z].next && ReachedThrough(g, a, w, z, n);
      var k := |w| - Width(g[z].sym);
      assert w == w[..k] + w[k..];
      ReachedReads(g, a, w[..k], z, n - 1, w[k..]);
      var p :| WalkFromTo(g, a, z, p, w);
      WalkJoin(g, p, w, [x], v);
      assert WalkFromTo(g, a, x, p + [x], w + v);
    }
  }

  lemma {:induction false} WalkReaches(g: Graph, a: int, x: int, p: seq<int>, u: Word) returns (k: nat)
    requires WalkFromTo(g, a, x, p, u)
    ensures k <= |u| && x in g && Reads(g[x].sym, u[k..]) && ReachedIn(g, a, u[..k], x, |p| - 1)
    decreases |p|
  {
    if |p| == 1 {
      k := 0;
      assert u[..Width(g[x].sym)] == u;
    } else {
      var n := |p| - 1;
      WalkNodes(g, p, u, n - 1);
      k := WalkSplit(g, p, u, n);
      assert p[n..] == [x];
      assert u[k..][..Width(g[x].sym)] == u[k..];
      var z := p[n - 1];
      var j := WalkReaches(g, a, z, p[..n], u[..k]);
      assert u[..k][..j] == u[..j];
      assert ReachedThrough(g, a, u[..k], z, n);
    }
  }

  /** For an epsilon state, being reached and being the end of a walk are the same. */
  lemma ReachedIffAccepted(g: Graph, a: int, w: Word, x: int)
    requires x in g && g[x].sym.Epsilon?
    ensures w in Lang(g, a, x) <==> Reached(g, a, w, x)
  {
    if p :| WalkFromTo(g, a, x, p, w) {
      var k := WalkReaches(g, a, x, p, w);
      assert w[..k] == w;
    }
    if n: nat :| ReachedIn(g, a, w, x, n) {
      ReachedReads(g, a, w, x, n, []);
      assert w + [] == w;
    }
  }

  /** Accepting values play no part in what is reached. */
  lemma ReachedSameShape(g: Graph, g': Graph, a: int, w: Word, x: int)
    requires g'.Keys == g.Keys && forall y :: y in g ==> g'[y].sym == g[y].sym && g'[y].next == g[y].next
    ensures Reached(g, a, w, x) ==> Reached(g', a, w, x)
  {
    if n: nat :| ReachedIn(g, a, w, x, n) {
      ReachedInSameShape(g, g', a, w, x, n);
    }
  }

  lemma {:induction false} ReachedInSameShape(g: Graph, g': Graph, a: int, w: Word, x: int, n: nat)
    requires g'.Keys == g.Keys && forall y :: y in g ==> g'[y].sym == g[y].sym && g'[y].next == g[y].next
    requires ReachedIn(g, a, w, x, n)
    ensures ReachedIn(g', a, w, x, n)
    decreases n
  {
    if n > 0 {
      var z :| z in g && x in g[z].next && ReachedThrough(g, a, w, z, n);
      ReachedInSameShape(g, g', a, w[..|w| - Width(g[z].sym)], z, n - 1);
      assert ReachedThrough(g', a, w, z, n);
    }
  }

  lemma ReachedStart(g: Graph, a: int)
    requires a in g
    ensures Reached(g, a, [], a)
  {
    assert ReachedIn(g, a, [], a, 0);
  }

  lemma ReachedMove(g: Graph, a: int, w: Word, x: int, y: int, v: Word)
    requires Reached(g, a, w, x) && x in g && y in g[x].next && y in g && Reads(g[x].sym, v)
    ensures Reached(g, a, w + v, y)
  {
    var n: nat :| ReachedIn(g, a, w, x, n);
    var u := w + v;
    assert u[..|w|] == w && u[|w|..] == v;
    assert ReachedThrough(g, a, u, x, n + 1);
    assert ReachedIn(g, a, u, y, n + 1);
  }

  lemma {:induction false} ReachedOn(g: Graph, a: int, w: Word, z: int, y: int, n: nat)
    requires Reached(g, a, w, z) && ReachedIn(g, z, [], y, n)
    ensures Reached(g, a, w, y)
    decreases n
  {
    if n > 0 {
      var x :| x in g && y in g[x].next && ReachedThrough(g, z, [], x, n);
      ReachedOn(g, a, w, z, x, n - 1);
      ReachedMove(g, a, w, x, y, []);
      assert w + [] == w;
    }
  }

  /** State `x`, reached before symbol `c`, has a successor `z` from which `y` is an epsilon path away. */
  ghost predicate Via(g: Graph, a: int, w: Word, c: int, y: int, x: int, z: int) {
    x in g && z in g && Reached(g, a, w, x) && Matches(g[x].sym, c) && z in g[x].next && Reached(g, z, [], y)
  }

  lemma ViaReached(g: Graph, a: int, w: Word, c: int, y: int, x: int, z: int)
    requires Via(g, a, w, c, y, x, z)
    ensures Reached(g, a, w + [c], y)
  {
    ReachedMove(g, a, w, x, z, [c]);
    var n: nat :| ReachedIn(g, z, [], y, n);
    ReachedOn(g, a, w + [c], z, y, n);
  }

  lemma {:induction false} ReachedVia(g: Graph, a: int, w: Word, c: int, y: int, n: nat) returns (x: int, z: int)
    requires ReachedIn(g, a, w + [c], y, n)
    ensures Via(g, a, w, c, y, x, z)
    decreases n
  {
    var u := w + [c];
    var p :| p in g && y in g[p].next && ReachedThrough(g, a, u, p, n);
    if g[p].sym.Epsilon? {
      assert u[..|u|] == u;
      x, z := ReachedVia(g, a, w, c, p, n - 1);
      var e: Word := [];
      assert e + e == e;
      ReachedMove(g, z, e, p, y, e);
    } else {
      x, z := p, y;
      assert u[..|w|] == w && u[|w|..] == [c];
      assert ReachedIn(g, a, w, p, n - 1);
      ReachedStart(g, y);
    }
  }
}
