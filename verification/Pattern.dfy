/** Patterns: the actions of the grammar in src/re-parse.y and the matchers of src/RE.cc. */
module Patterns {
  import opened NfaGraphs
  import opened NfaConstructions
  import opened NfaMachines
  import opened EquivClasses
  import opened EpsilonClosures
  import opened LazyDfa

  const SYM_BOL := 256
  const SYM_EOL := 257
  const NUM_SYM := 258

  datatype Regex =
    | Empty
    | Char(c: int)
    | CharSet(syms: seq<int>, negated: bool)
    | Str(cs: seq<int>)
    | Alt(l: Regex, r: Regex)
    | Series(l: Regex, r: Regex)
    | Closure(e: Regex)
    | PosClosure(e: Regex)
    | Option(e: Regex)
    | Between(e: Regex, lo: int, hi: int)
    | From(e: Regex, lo: int)
    | Times(e: Regex, n: int)

  ghost predicate InAlphabet(s: seq<int>) {
    forall i :: 0 <= i < |s| ==> 0 <= s[i] < NUM_SYM
  }

  /** What the scanner and the grammar guarantee: symbols of the alphabet, sorted character classes whose
      negation excludes both anchors, and repetition counts that make sense. */
  ghost predicate WellFormed(r: Regex) {
    match r
    case Empty => true
    case Char(c) => 0 <= c < NUM_SYM
    case CharSet(syms, negated) =>
      StrictlySorted(syms) && InAlphabet(syms) && (negated ==> SYM_BOL in syms && SYM_EOL in syms)
    case Str(cs) => InAlphabet(cs)
    case Alt(l, r') => WellFormed(l) && WellFormed(r')
    case Series(l, r') => WellFormed(l) && WellFormed(r')
    case Closure(e) => WellFormed(e)
    case PosClosure(e) => WellFormed(e)
    case Option(e) => WellFormed(e)
    case Between(e, lo, hi) => WellFormed(e) && 0 <= lo <= hi
    case From(e, lo) => WellFormed(e) && 0 <= lo
    case Times(e, n) => WellFormed(e) && 0 <= n
  }

  /** The words a pattern stands for. */
  ghost function Denotes(r: Regex): iset<Word> {
    match r
    case Empty => EmptyWord
    case Char(c) => iset{[c]}
    case CharSet(syms, negated) => iset w: Word | |w| == 1 && (w[0] in syms) != negated
    case Str(cs) => iset{cs}
    case Alt(l, r') => Denotes(l) + Denotes(r')
    case Series(l, r') => Cat(Denotes(l), Denotes(r'))
    case Closure(e) => Star(Denotes(e))
    case PosClosure(e) => Plus(Denotes(e))
    case Option(e) => Denotes(e) + EmptyWord
    case Between(e, lo, hi) => if 0 <= lo && 0 <= hi then Repeat(Denotes(e), lo, hi) else iset{}
    case From(e, lo) => if 0 <= lo then AtLeast(Denotes(e), lo) else iset{}
    case Times(e, n) => if 0 <= n then Pow(Denotes(e), n) else iset{}
  }

  /** A label whose symbols the partition tells apart and whose character class is on the list. */
  ghost predicate LabelOk(l: Label, used: seq<set<int>>, ccls: seq<CharClass>) {
    match l
    case Epsilon => true
    case Symbol(s) => 0 <= s < NUM_SYM && {s} in used
    case Class(ccl) =>
      && ccl.index < |ccls| && ccls[ccl.index] == ccl
      && StrictlySorted(ccl.syms) && InAlphabet(ccl.syms) && Elems(ccl.syms) in used
  }

  lemma LabelsKept(ls: set<Label>, used: seq<set<int>>, ccls: seq<CharClass>, s: set<int>, more: seq<CharClass>)
    requires forall l :: l in ls ==> LabelOk(l, used, ccls)
    ensures forall l :: l in ls ==> LabelOk(l, used + [s], ccls + more)
  {
    forall l | l in ls
      ensures LabelOk(l, used + [s], ccls + more)
    {
      assert LabelOk(l, used, ccls);
    }
  }

  /** Since `g0` only new states were made, and `own` are some of them. */
  ghost predicate NewOnly(g0: Graph, l0: int, g: Graph, l: int, own: set<int>) {
    Agree(g0, g, g0.Keys) && l0 <= l && forall x :: x in own ==> l0 < x <= l
  }

  lemma NewStays(g0: Graph, l0: int, g1: Graph, l1: int, own1: set<int>, g2: Graph, l2: int, own2: set<int>,
                 gained: set<int>)
    requires NewOnly(g0, l0, g1, l1, own1) && Local(g1, l1, own1, g2, l2, own2, gained)
    requires (forall x :: x in g0 ==> x <= l0) && forall x :: x in gained ==> l0 < x <= l1
    ensures NewOnly(g0, l0, g2, l2, own2)
  {
    forall x | x in g0
      ensures x in g2 && g2[x] == g0[x]
    {
      assert x in g1.Keys - own1 - gained;
    }
  }

  lemma NewAfter(g0: Graph, l0: int, g1: Graph, l1: int, own1: set<int>, g2: Graph, l2: int, own2: set<int>)
    requires NewOnly(g0, l0, g1, l1, own1) && NewOnly(g1, l1, g2, l2, own2)
    ensures NewOnly(g0, l0, g2, l2, own1) && NewOnly(g0, l0, g2, l2, own2) && own1 !! own2
  {
    forall x | x in own1
      ensures x !in own2
    {
    }
  }

  lemma SymbolWord(c: int)
    ensures ReadBy(Symbol(c)) == iset{[c]}
  {
    forall w: Word
      ensures w in ReadBy(Symbol(c)) <==> w == [c]
    {
    }
  }

  lemma StringSnoc(cs: Word, i: nat)
    requires i < |cs|
    ensures Cat(iset{cs[..i]}, ReadBy(Symbol(cs[i]))) == iset{cs[..i + 1]}
  {
    SymbolWord(cs[i]);
    var a, b: iset<Word> := iset{cs[..i]}, iset{[cs[i]]};
    assert cs[..i + 1] == cs[..i] + [cs[i]];
    forall w: Word
      ensures w in Cat(a, b) <==> w == cs[..i + 1]
    {
      if w in Cat(a, b) {
        var k := CatElim(a, b, w);
        assert w == w[..k] + w[k..];
      }
      if w == cs[..i + 1] {
        CatIntro(a, b, cs[..i], [cs[i]]);
      }
    }
  }

  class Compiler {
    const pool: StatePool
    const ec: EquivClass
    var ccls: seq<CharClass>

    ghost predicate Valid()
      reads this, pool, ec, ec.fwd, ec.bck, ec.cclFlags
    {
      && pool.Valid() && pool.mark == map[]
      && ec.Valid() && ec.size == NUM_SYM && ec.numEcs == 0
      && (forall i :: 0 <= i < |ccls| ==> InAlphabet(ccls[i].syms))
      && forall l :: l in pool.allowed ==> LabelOk(l, ec.used, ccls)
    }

    constructor ()
      ensures Valid() && fresh(pool) && fresh(ec) && fresh(ec.fwd) && fresh(ec.bck) && fresh(ec.cclFlags)
      ensures fresh(ec.rep) && fresh(ec.equivClass)
    {
      pool := new StatePool();
      ec := new EquivClass(NUM_SYM);
      ccls := [];
    }

    /** Admits a character transition, giving the character a class of its own. */
    method AllowSymbol(c: int)
      requires Valid() && 0 <= c < NUM_SYM
      modifies pool`allowed, ec, ec.fwd, ec.bck
      ensures Valid() && Symbol(c) in pool.allowed && old(pool.allowed) <= pool.allowed
    {
      LabelsKept(pool.allowed, ec.used, ccls, {c}, []);
      assert ccls + [] == ccls;
      ec.UniqueChar(c);
      assert ec.used[|ec.used| - 1] == {c};
      pool.allowed := pool.allowed + {Symbol(c)};
    }

    /** Admits a character class, telling its members apart from the other symbols. */
    method AllowClass(syms: seq<int>, negated: bool) returns (ccl: CharClass)
      requires Valid() && StrictlySorted(syms) && InAlphabet(syms)
      modifies `ccls, pool`allowed, ec, ec.fwd, ec.bck, ec.cclFlags
      ensures Valid() && Class(ccl) in pool.allowed && ccl.syms == syms && ccl.negated == negated
      ensures old(pool.allowed) <= pool.allowed
    {
      ccl := CharClass(|ccls|, syms, negated);
      LabelsKept(pool.allowed, ec.used, ccls, Elems(syms), [ccl]);
      ccls := ccls + [ccl];
      ec.CclUse(syms);
      assert ec.used[|ec.used| - 1] == Elems(syms);
      pool.allowed := pool.allowed + {Class(ccl)};
    }

    /** `m` is a new machine of this compiler, made of states newer than `l0`, with language `l`. */
    ghost predicate Made(m: NfaMachine, l: iset<Word>, g0: Graph, l0: int)
      reads this, pool, m
    {
      m.pool == pool && m.Valid() && m.Language() == l && NewOnly(g0, l0, pool.nodes, pool.lastId, m.own)
    }

    method NewMachine(l: Label) returns (m: NfaMachine)
      requires Valid() && l in pool.allowed
      modifies pool`nodes, pool`lastId
      ensures Valid() && fresh(m) && Made(m, ReadBy(l), old(pool.nodes), old(pool.lastId))
    {
      m := new NfaMachine(pool, l);
    }

    method EmptyMachine() returns (m: NfaMachine)
      requires Valid()
      modifies pool`nodes, pool`lastId
      ensures Valid() && fresh(m) && Made(m, EmptyWord, old(pool.nodes), old(pool.lastId))
    {
      m := NewMachine(Epsilon);
      assert ReadBy(Epsilon) == EmptyWord;
    }

    /** Appends a new state that reads `l`. */
    method AppendLabel(m: NfaMachine, l: Label, ghost lang: iset<Word>, ghost g0: Graph, ghost l0: int)
      requires Valid() && l in pool.allowed && (forall x :: x in g0 ==> x <= l0) && Made(m, lang, g0, l0)
      modifies m, pool`nodes, pool`lastId
      ensures Valid() && Made(m, Cat(lang, ReadBy(l)), g0, l0)
    {
      ghost var g, last, o := pool.nodes, pool.lastId, m.own;
      var s := pool.NewState(l);
      SoundFrame(g, pool.nodes, m.first, m.final, m.own);
      m.AppendState(s);
      AppendedNew(g0, l0, g, last, o, pool.nodes, m.own, s);
    }

    /** One more character of a quoted string. */
    method AppendChar(m: NfaMachine, cs: seq<int>, i: nat, ghost g0: Graph, ghost l0: int)
      requires Valid() && i < |cs| && InAlphabet(cs) && (forall x :: x in g0 ==> x <= l0)
      requires Made(m, iset{cs[..i]}, g0, l0)
      modifies m, pool`nodes, pool`lastId, pool`allowed, ec, ec.fwd, ec.bck
      ensures Valid() && Made(m, iset{cs[..i + 1]}, g0, l0)
    {
      AllowSymbol(cs[i]);
      AppendLabel(m, Symbol(cs[i]), iset{cs[..i]}, g0, l0);
      StringSnoc(cs, i);
    }

    method StringMachine(cs: seq<int>) returns (m: NfaMachine)
      requires Valid() && InAlphabet(cs)
      modifies pool`nodes, pool`lastId, pool`allowed, ec, ec.fwd, ec.bck
      ensures Valid() && fresh(m) && Made(m, iset{cs}, old(pool.nodes), old(pool.lastId))
    {
      m := EmptyMachine();
      assert cs[..0] == [];
      for i := 0 to |cs|
        invariant Valid() && Made(m, iset{cs[..i]}, old(pool.nodes), old(pool.lastId)) && fresh(m)
      {
        AppendChar(m, cs, i, old(pool.nodes), old(pool.lastId));
      }
      assert cs[..|cs|] == cs;
    }

    method CompileLeaf(r: Regex) returns (m: NfaMachine)
      requires Valid() && WellFormed(r) && (r.Empty? || r.Char? || r.CharSet? || r.Str?)
      modifies `ccls, pool, ec, ec.fwd, ec.bck, ec.cclFlags
      ensures Valid() && fresh(m) && Made(m, Denotes(r), old(pool.nodes), old(pool.lastId))
    {
      match r
      case Empty => m := EmptyMachine();
      case Char(c) =>
        AllowSymbol(c);
        m := NewMachine(Symbol(c));
        SymbolWord(c);
      case CharSet(syms, negated) =>
        var ccl := AllowClass(syms, negated);
        m := NewMachine(Class(ccl));
        assert ReadBy(Class(ccl)) == Denotes(r);
      case Str(cs) => m := StringMachine(cs);
    }

    /** The machines of both operands. */
    method CompilePair(r: Regex) returns (m1: NfaMachine, m2: NfaMachine)
      requires Valid() && WellFormed(r) && (r.Alt? || r.Series?)
      modifies `ccls, pool, ec, ec.fwd, ec.bck, ec.cclFlags
      ensures Valid() && fresh(m1) && fresh(m2) && m1 != m2 && m1.own !! m2.own
      ensures Made(m1, Denotes(r.l), old(pool.nodes), old(pool.lastId))
      ensures Made(m2, Denotes(r.r), old(pool.nodes), old(pool.lastId))
      decreases r, 0
    {
      m1 := Compile(r.l);
      ghost var g, last := pool.nodes, pool.lastId;
      m2 := Compile(r.r);
      SoundFrame(g, pool.nodes, m1.first, m1.final, m1.own);
      NewAfter(old(pool.nodes), old(pool.lastId), g, last, m1.own, pool.nodes, pool.lastId, m2.own);
    }

    method Join(m1: NfaMachine, m2: NfaMachine, alt: bool, ghost a: iset<Word>, ghost b: iset<Word>, ghost g0: Graph,
                ghost l0: int)
      returns (m: NfaMachine)
      requires Valid() && m1 != m2 && m1.own !! m2.own && Made(m1, a, g0, l0) && Made(m2, b, g0, l0)
      requires forall x :: x in g0 ==> x <= l0
      modifies m1, m2, pool`nodes, pool`lastId
      ensures Valid() && Made(m, if alt then a + b else Cat(a, b), g0, l0) && (m == m1 || fresh(m))
    {
      ghost var g, last, o1, o2 := pool.nodes, pool.lastId, m1.own, m2.own;
      if alt {
        m := MakeAlternate(m1, m2);
      } else {
        m1.AppendMachine(m2);
        m := m1;
      }
      NewStays(g0, l0, g, last, o1, pool.nodes, pool.lastId, m.own, o2);
    }

    /** The postfix operators that always change the machine. */
    method Postfix(m: NfaMachine, r: Regex, ghost a: iset<Word>, ghost g0: Graph, ghost l0: int)
      requires Valid() && Made(m, a, g0, l0) && (forall x :: x in g0 ==> x <= l0)
      requires r.Closure? || r.PosClosure? || r.Option?
      modifies m, pool`nodes, pool`lastId
      ensures Valid()
      ensures Made(m, if r.Closure? then Star(a) else if r.PosClosure? then Plus(a) else a + EmptyWord, g0, l0)
    {
      ghost var g, last, o := pool.nodes, pool.lastId, m.own;
      if r.Closure? {
        m.MakeClosure();
      } else if r.PosClosure? {
        m.MakePositiveClosure();
      } else {
        m.MakeOptional();
      }
      NewStays(g0, l0, g, last, o, pool.nodes, pool.lastId, m.own, {});
    }

    method Replicate(m: NfaMachine, lo: int, hi: int, ghost a: iset<Word>, ghost g0: Graph, ghost l0: int)
      requires Valid() && Made(m, a, g0, l0) && (forall x :: x in g0 ==> x <= l0) && 1 <= lo
      modifies m, pool`nodes, pool`lastId, pool`mark
      ensures Valid() && Made(m, Replicas(a, lo, hi), g0, l0)
    {
      ghost var g, last, o := pool.nodes, pool.lastId, m.own;
      m.MakeRepl(lo, hi);
      NewStays(g0, l0, g, last, o, pool.nodes, pool.lastId, m.own, {});
    }

    method Power(m: NfaMachine, n: int, ghost a: iset<Word>, ghost g0: Graph, ghost l0: int)
      requires Valid() && Made(m, a, g0, l0) && (forall x :: x in g0 ==> x <= l0) && 1 <= n
      modifies m, pool`nodes, pool`lastId, pool`mark
      ensures Valid() && Made(m, Pow(a, n), g0, l0)
    {
      hide NewOnly, Local, Pow;
      ghost var g, last, o := pool.nodes, pool.lastId, m.own;
      m.LinkCopies(n - 1);
      NewStays(g0, l0, g, last, o, pool.nodes, pool.lastId, m.own, {});
    }

    /** The counted repetitions, with the special cases for zero. */
    method Counted(m: NfaMachine, r: Regex, ghost a: iset<Word>, ghost g0: Graph, ghost l0: int)
      returns (m': NfaMachine)
      requires Valid() && Made(m, a, g0, l0) && (forall x :: x in g0 ==> x <= l0)
      requires (r.Between? && 0 <= r.lo <= r.hi) || (r.From? && 0 <= r.lo) || (r.Times? && 0 <= r.n)
      modifies m, pool`nodes, pool`lastId, pool`mark
      ensures Valid() && (m' == m || fresh(m'))
      ensures r.Between? ==> Made(m', Repeat(a, r.lo, r.hi), g0, l0)
      ensures r.From? ==> Made(m', AtLeast(a, r.lo), g0, l0)
      ensures r.Times? ==> Made(m', Pow(a, r.n), g0, l0)
    {
      m' := m;
      match r {
        case Between(_, lo, hi) =>
          m' := CountedBetween(m, lo, hi, a, g0, l0);
        case From(_, lo) =>
          if lo == 0 {
            Postfix(m, Closure(Empty), a, g0, l0);
            StarAtLeast(a);
          } else {
            Replicate(m, lo, NO_UPPER_BOUND, a, g0, l0);
          }
        case Times(_, n) =>
          if n == 0 {
            m' := Discard(m, a, g0, l0);
          } else {
            Power(m, n, a, g0, l0);
          }
      }
    }

    /** Throws a machine away and starts over with an empty one. */
    method Discard(m: NfaMachine, ghost a: iset<Word>, ghost g0: Graph, ghost l0: int) returns (m': NfaMachine)
      requires Valid() && Made(m, a, g0, l0)
      modifies pool`nodes, pool`lastId
      ensures Valid() && fresh(m') && Made(m', Pow(a, 0), g0, l0)
    {
      ghost var g, last := pool.nodes, pool.lastId;
      m' := EmptyMachine();
      NewAfter(g0, l0, g, last, m.own, pool.nodes, pool.lastId, m'.own);
    }

    method CountedBetween(m: NfaMachine, lo: int, hi: int, ghost a: iset<Word>, ghost g0: Graph, ghost l0: int)
      returns (m': NfaMachine)
      requires Valid() && Made(m, a, g0, l0) && (forall x :: x in g0 ==> x <= l0) && 0 <= lo <= hi
      modifies m, pool`nodes, pool`lastId, pool`mark
      ensures Valid() && (m' == m || fresh(m')) && Made(m', Repeat(a, lo, hi), g0, l0)
    {
      m' := m;
      if lo > 0 {
        Replicate(m, lo, hi, a, g0, l0);
      } else if hi == 0 {
        m' := Discard(m, a, g0, l0);
        RepeatOne(a, 0);
      } else {
        Replicate(m, 1, hi, a, g0, l0);
        Postfix(m, Option(Empty), Repeat(a, 1, hi), g0, l0);
        RepeatFromZero(a, hi);
      }
    }

    /** The actions of the grammar, bottom up. */
    method Compile(r: Regex) returns (m: NfaMachine)
      requires Valid() && WellFormed(r)
      modifies `ccls, pool, ec, ec.fwd, ec.bck, ec.cclFlags
      ensures Valid() && fresh(m) && Made(m, Denotes(r), old(pool.nodes), old(pool.lastId))
      decreases r, 1
    {
      if r.Empty? || r.Char? || r.CharSet? || r.Str? {
        m := CompileLeaf(r);
      } else if r.Alt? || r.Series? {
        var m1, m2 := CompilePair(r);
        m := Join(m1, m2, r.Alt?, Denotes(r.l), Denotes(r.r), old(pool.nodes), old(pool.lastId));
      } else {
        m := CompileRepeated(r);
      }
    }

    method CompileRepeated(r: Regex) returns (m: NfaMachine)
      requires Valid() && WellFormed(r)
      requires r.Closure? || r.PosClosure? || r.Option? || r.Between? || r.From? || r.Times?
      modifies `ccls, pool, ec, ec.fwd, ec.bck, ec.cclFlags
      ensures Valid() && fresh(m) && Made(m, Denotes(r), old(pool.nodes), old(pool.lastId))
      decreases r, 0
    {
      m := Compile(r.e);
      if r.Closure? || r.PosClosure? || r.Option? {
        Postfix(m, r, Denotes(r.e), old(pool.nodes), old(pool.lastId));
      } else {
        m := Counted(m, r, Denotes(r.e), old(pool.nodes), old(pool.lastId));
      }
    }
  }

  lemma StarAtLeast(a: iset<Word>)
    ensures Star(a) == AtLeast(a, 0)
  {
  }

  lemma RepeatFromZero(a: iset<Word>, hi: nat)
    ensures Repeat(a, 1, hi) + EmptyWord == Repeat(a, 0, hi)
  {
    forall w: Word
      ensures w in Repeat(a, 1, hi) + EmptyWord <==> w in Repeat(a, 0, hi)
    {
      if w in EmptyWord {
        assert w in Pow(a, 0);
      }
    }
  }

  lemma AppendedNew(g0: Graph, l0: int, g: Graph, last: int, own: set<int>, g': Graph, own': set<int>, s: int)
    requires NewOnly(g0, l0, g, last, own) && (forall x :: x in g0 ==> x <= l0) && s == last + 1 && own' == own + {s}
    requires forall x :: x in g && x !in own ==> x in g' && g'[x] == g[x]
    ensures NewOnly(g0, l0, g', s, own')
  {
  }

  // ----- from machine to matcher -----

  lemma {:induction false} ReachedStays(g: Graph, own: set<int>, a: int, w: Word, x: int, n: nat)
    requires Closed(g, own) && a in own && ReachedIn(g, a, w, x, n)
    ensures x in own
    decreases n
  {
    if n > 0 {
      var z :| z in g && x in g[z].next && ReachedThrough(g, a, w, z, n);
      ReachedStays(g, own, a, w[..|w| - Width(g[z].sym)], z, n - 1);
      ClosedStep(g, own, z, x);
    }
  }

  /** Only the final state accepts, so the accepting values say whether the word is in the language. */
  lemma AcceptIff(g: Graph, own: set<int>, a: int, f: int, v: int, w: Word)
    requires Closed(g, own) && a in own && f in own && v != NO_ACCEPT
    requires forall x :: x in own ==> g[x].accept == if x == f then v else NO_ACCEPT
    ensures AcceptValues(g, a, w) == if Reached(g, a, w, f) then {v} else {}
  {
    forall x | x in g && Reached(g, a, w, x) && g[x].accept != NO_ACCEPT
      ensures x == f
    {
      var n: nat :| ReachedIn(g, a, w, x, n);
      ReachedStays(g, own, a, w, x, n);
    }
    if Reached(g, a, w, f) {
      assert f in g && g[f].accept == v;
      assert v in AcceptValues(g, a, w);
    }
  }

  /** The table of a finished partition. */
  ghost predicate TableOf(t: SymbolTable, lab: seq<int>, ccls: seq<CharClass>) {
    && |lab| == NUM_SYM && Classes(lab, 0, t.rep, t.cls) && t.numClasses == Leaders(lab, NUM_SYM)
    && |t.ccls| == |ccls|
    && forall i :: 0 <= i < |ccls| ==> InAlphabet(ccls[i].syms) && t.ccls[i] == Converted(ccls[i].syms, t.rep, t.cls)
  }

  lemma TableClasses(t: SymbolTable, lab: seq<int>, used: seq<set<int>>, ccls: seq<CharClass>)
    requires TableOf(t, lab, ccls) && Separates(lab, used)
    ensures 0 < t.numClasses && forall c :: 0 <= c < |t.cls| ==> 0 <= t.cls[c] < t.numClasses
  {
    forall c | 0 <= c < |t.cls|
      ensures 0 <= t.cls[c] < t.numClasses
    {
      ClassesCoarsest(lab, used, 0, t.rep, t.cls, c, c);
    }
    ClassesCoarsest(lab, used, 0, t.rep, t.cls, 0, 0);
  }

  lemma SymbolFaithful(t: SymbolTable, lab: seq<int>, used: seq<set<int>>, ccls: seq<CharClass>, s: int, c: int)
    requires TableOf(t, lab, ccls) && Separates(lab, used) && 0 <= s < NUM_SYM && {s} in used && 0 <= c < NUM_SYM
    ensures s == c <==> t.rep[s] == s && t.cls[s] == t.cls[c]
  {
    var i :| 0 <= i < |used| && used[i] == {s};
    ClassesCoarsest(lab, used, 0, t.rep, t.cls, s, c);
    assert s in used[i] && (s in used[i] <==> t.rep[s] in used[i]);
    if t.cls[s] == t.cls[c] {
      assert s in used[i] <==> c in used[i];
    }
  }

  /** Symbol compression preserves matching, label by label. */
  lemma LabelFaithful(t: SymbolTable, lab: seq<int>, used: seq<set<int>>, ccls: seq<CharClass>, l: Label, c: int)
    requires TableOf(t, lab, ccls) && Separates(lab, used) && LabelOk(l, used, ccls) && 0 <= c < NUM_SYM
    ensures Matches(l, c) <==> MatchesClass(t, l, t.cls[c])
  {
    match l
    case Epsilon =>
    case Symbol(s) => SymbolFaithful(t, lab, used, ccls, s, c);
    case Class(ccl) => ConvertedFaithful(lab, used, 0, ccl.syms, t.rep, t.cls, c);
  }

  lemma LabelKnown(t: SymbolTable, lab: seq<int>, used: seq<set<int>>, ccls: seq<CharClass>, l: Label)
    requires TableOf(t, lab, ccls) && Separates(lab, used) && LabelOk(l, used, ccls)
    ensures Known(t, l)
  {
    TableClasses(t, lab, used, ccls);
    match l
    case Epsilon =>
    case Symbol(s) =>
    case Class(ccl) =>
      var r := t.ccls[ccl.index];
      ConvertedSorted(lab, 0, ccl.syms, t.rep, t.cls);
      forall i | 0 <= i < |r|
        ensures 0 <= r[i] < t.numClasses
      {
        ConvertedMember(ccl.syms, t.rep, t.cls, r[i]);
      }
  }

  lemma GraphFaithful(t: SymbolTable, lab: seq<int>, used: seq<set<int>>, ccls: seq<CharClass>, g: Graph,
                      allowed: set<Label>)
    requires TableOf(t, lab, ccls) && Separates(lab, used)
    requires (forall l :: l in allowed ==> LabelOk(l, used, ccls)) && forall x :: x in g ==> g[x].sym in allowed
    ensures KnownGraph(t, g) && Faithful(t, g)
  {
    forall x | x in g
      ensures Known(t, g[x].sym)
    {
      LabelKnown(t, lab, used, ccls, g[x].sym);
    }
    forall x, c | x in g && 0 <= c < |t.cls|
      ensures Matches(g[x].sym, c) <==> MatchesClass(t, g[x].sym, t.cls[c])
    {
      LabelFaithful(t, lab, used, ccls, g[x].sym, c);
    }
  }

  /** `ConvertCCLs` */
  method ConvertCCLs(ec: EquivClass, ccls: seq<CharClass>) returns (r: seq<seq<int>>)
    requires ec.Shape() && ec.size == NUM_SYM && forall i :: 0 <= i < |ccls| ==> InAlphabet(ccls[i].syms)
    ensures |r| == |ccls|
    ensures forall i :: 0 <= i < |ccls| ==>
              InAlphabet(ccls[i].syms) && r[i] == Converted(ccls[i].syms, ec.rep[..], ec.equivClass[..])
  {
    r := [];
    for i := 0 to |ccls|
      invariant |r| == i
      invariant forall k :: 0 <= k < i ==>
                  InAlphabet(ccls[k].syms) && r[k] == Converted(ccls[k].syms, ec.rep[..], ec.equivClass[..])
    {
      var c := ec.ConvertCCL(ccls[i].syms);
      r := r + [c];
    }
  }

  /** The accepting values reached on a word tell whether it is in the language. */
  ghost predicate Recognizes(g: Graph, a: int, l: iset<Word>) {
    forall w :: AcceptValues(g, a, w) == if w in l then {1} else {}
  }

  ghost predicate Ready(dfa: DfaMachine, r: Regex)
    reads dfa, dfa.closures, dfa.states
  {
    && dfa.Valid() && dfa.Covered() && dfa.start != null && |dfa.table.cls| == NUM_SYM
    && Recognizes(dfa.closures.g, dfa.first, Denotes(r))
  }

  /** Finishes the partition and converts the character classes. */
  method FinishTable(comp: Compiler) returns (t: SymbolTable)
    requires comp.Valid()
    modifies comp.ec`numEcs, comp.ec.rep, comp.ec.equivClass
    ensures TableOf(t, comp.ec.lab, comp.ccls) && KnownGraph(t, comp.pool.nodes) && Faithful(t, comp.pool.nodes)
    ensures 0 < t.numClasses && forall c :: 0 <= c < |t.cls| ==> 0 <= t.cls[c] < t.numClasses
  {
    var n := comp.ec.BuildECs();
    var converted := ConvertCCLs(comp.ec, comp.ccls);
    t := SymbolTable(comp.ec.rep[..], comp.ec.equivClass[..], n, converted);
    GraphFaithful(t, comp.ec.lab, comp.ec.used, comp.ccls, comp.pool.nodes, comp.pool.allowed);
    TableClasses(t, comp.ec.lab, comp.ec.used, comp.ccls);
  }

  /** The machine of a whole pattern, with its accepting value. */
  method CompileAccepting(comp: Compiler, r: Regex) returns (first: int)
    requires comp.Valid() && WellFormed(r)
    modifies comp`ccls, comp.pool, comp.ec, comp.ec.fwd, comp.ec.bck, comp.ec.cclFlags
    ensures comp.Valid() && first in comp.pool.nodes && Recognizes(comp.pool.nodes, first, Denotes(r))
  {
    var m := comp.Compile(r);
    AddAccept(m, 1);
    first := m.first;
    forall w
      ensures AcceptValues(comp.pool.nodes, first, w) == if w in Denotes(r) then {1} else {}
    {
      AcceptIff(comp.pool.nodes, m.own, first, m.final, 1, w);
    }
  }

  /** `Specific_RE_Matcher::Compile` on a parsed pattern. */
  method CompilePattern(r: Regex) returns (dfa: DfaMachine)
    requires WellFormed(r)
    ensures Ready(dfa, r) && fresh(dfa) && fresh(dfa.closures) && forall e :: e in dfa.states ==> fresh(e)
  {
    var comp := new Compiler();
    var first := CompileAccepting(comp, r);
    var t := FinishTable(comp);
    var closures := new Closures(comp.pool.nodes);
    dfa := new DfaMachine(closures, t, first);
  }

  // ----- matching -----

  ghost predicate Bytes(s: seq<int>) {
    forall i :: 0 <= i < |s| ==> 0 <= s[i] < 256
  }

  /** What the machine has read when the first `k` bytes of the subject are behind it. */
  function Prefix(s: seq<int>, k: nat): Word
    requires k <= |s|
  {
    [SYM_BOL] + s[..k]
  }

  function Subject(s: seq<int>): Word {
    Prefix(s, |s|) + [SYM_EOL]
  }

  /** Some prefix of the subject, not yet closed by the end anchor, is a word of the pattern. */
  ghost predicate Hits(r: Regex, s: seq<int>, k: int) {
    0 <= k <= |s| && Prefix(s, k) in Denotes(r)
  }

  lemma PrefixNext(s: seq<int>, k: nat)
    requires k < |s|
    ensures Prefix(s, k + 1) == Prefix(s, k) + [s[k]]
  {
  }

  lemma {:induction false} StuckMore(g: Graph, a: int, s: seq<int>, k: nat, n: nat)
    requires k <= n <= |s| && Stuck(g, a, Prefix(s, k))
    ensures Stuck(g, a, Prefix(s, n))
    decreases n - k
  {
    if k < n {
      PrefixNext(s, k);
      StuckStays(g, a, Prefix(s, k), s[k]);
      StuckMore(g, a, s, k + 1, n);
    }
  }

  lemma StuckRejects(g: Graph, a: int, l: iset<Word>, w: Word)
    requires Recognizes(g, a, l) && Stuck(g, a, w)
    ensures w !in l
  {
    assert AcceptValues(g, a, w) == {};
  }

  /** Once jammed, no longer prefix is a match, and neither is the whole subject. */
  lemma JamRejects(g: Graph, a: int, r: Regex, s: seq<int>, k: nat)
    requires Recognizes(g, a, Denotes(r)) && k <= |s| && Stuck(g, a, Prefix(s, k))
    ensures (forall j :: k <= j <= |s| ==> !Hits(r, s, j)) && Subject(s) !in Denotes(r)
  {
    forall j | k <= j <= |s|
      ensures !Hits(r, s, j)
    {
      StuckMore(g, a, s, k, j);
      StuckRejects(g, a, Denotes(r), Prefix(s, j));
    }
    StuckMore(g, a, s, k, |s|);
    StuckStays(g, a, Prefix(s, |s|), SYM_EOL);
    StuckRejects(g, a, Denotes(r), Subject(s));
  }

  /** Whether the machine accepts where it stands. */
  method Accepting(dfa: DfaMachine, x: Target, ghost r: Regex, ghost w: Word) returns (yes: bool)
    requires Ready(dfa, r) && dfa.After(w, x)
    ensures yes <==> w in Denotes(r)
  {
    if x.Goto? {
      SimAccepts(dfa.closures.g, dfa.first, w, Elements(x.state.nfaStates));
      yes := x.state.accept != {};
    } else {
      StuckRejects(dfa.closures.g, dfa.first, Denotes(r), w);
      yes := false;
    }
  }

  /** The first step of every matcher: the beginning of the subject. */
  method Begin(dfa: DfaMachine, ghost r: Regex, s: seq<int>) returns (x: Target)
    requires Ready(dfa, r)
    modifies dfa`cache, dfa`stateCount, dfa`states, dfa.closures, dfa.states
    ensures Ready(dfa, r) && dfa.After(Prefix(s, 0), x)
            && forall e :: e in dfa.states ==> e in old(dfa.states) || fresh(e)
  {
    SimStart(dfa.closures.g, dfa.first, Elements(dfa.start.nfaStates));
    x := dfa.Step(Goto(dfa.start), SYM_BOL, []);
    assert Prefix(s, 0) == [] + [SYM_BOL];
  }

  /** One byte further. */
  method Advance(dfa: DfaMachine, ghost r: Regex, s: seq<int>, k: nat, x: Target) returns (y: Target)
    requires Ready(dfa, r) && Bytes(s) && k < |s| && dfa.After(Prefix(s, k), x)
    modifies dfa`cache, dfa`stateCount, dfa`states, dfa.closures, dfa.states
    ensures Ready(dfa, r) && dfa.After(Prefix(s, k + 1), y)
            && forall e :: e in dfa.states ==> e in old(dfa.states) || fresh(e)
  {
    y := dfa.Step(x, s[k], Prefix(s, k));
    PrefixNext(s, k);
  }

  /** The last step of every matcher: the end of the subject. */
  method End(dfa: DfaMachine, ghost r: Regex, s: seq<int>, x: Target) returns (yes: bool)
    requires Ready(dfa, r) && dfa.After(Prefix(s, |s|), x)
    modifies dfa`cache, dfa`stateCount, dfa`states, dfa.closures, dfa.states
    ensures Ready(dfa, r) && (yes <==> Subject(s) in Denotes(r))
    ensures forall e :: e in dfa.states ==> e in old(dfa.states) || fresh(e)
  {
    var y := dfa.Step(x, SYM_EOL, Prefix(s, |s|));
    yes := Accepting(dfa, y, r, Subject(s));
  }

  /** `MatchAll`: whether the whole subject is a word of the pattern. */
  method MatchAll(dfa: DfaMachine, ghost r: Regex, s: seq<int>) returns (yes: bool)
    requires Ready(dfa, r) && Bytes(s)
    modifies dfa`cache, dfa`stateCount, dfa`states, dfa.closures, dfa.states
    ensures Ready(dfa, r) && (yes <==> Subject(s) in Denotes(r))
  {
    var d := Begin(dfa, r, s);
    var k := 0;
    while d != Jam && k < |s|
      invariant 0 <= k <= |s| && Ready(dfa, r) && dfa.After(Prefix(s, k), d)
      invariant forall e :: e in dfa.states ==> e in old(dfa.states) || fresh(e)
    {
      d := Advance(dfa, r, s, k, d);
      k := k + 1;
    }
    if d != Jam {
      yes := End(dfa, r, s, d);
    } else {
      JamRejects(dfa.closures.g, dfa.first, r, s, k);
      yes := false;
    }
  }

  /** One byte further, and whether the prefix up to there matches. */
  method AdvanceAndTest(dfa: DfaMachine, ghost r: Regex, s: seq<int>, k: nat, x: Target) returns (y: Target, yes: bool)
    requires Ready(dfa, r) && Bytes(s) && k < |s| && dfa.After(Prefix(s, k), x)
    modifies dfa`cache, dfa`stateCount, dfa`states, dfa.closures, dfa.states
    ensures Ready(dfa, r) && dfa.After(Prefix(s, k + 1), y)
            && forall e :: e in dfa.states ==> e in old(dfa.states) || fresh(e)
    ensures yes <==> Hits(r, s, k + 1)
  {
    y := Advance(dfa, r, s, k, x);
    yes := Accepting(dfa, y, r, Prefix(s, k + 1));
  }

  /** Walks on until a prefix matches, the machine jams, or the subject ends. */
  method ScanFirst(dfa: DfaMachine, ghost r: Regex, s: seq<int>, x: Target) returns (k: nat, d: Target, hit: bool)
    requires Ready(dfa, r) && Bytes(s) && dfa.After(Prefix(s, 0), x)
    modifies dfa`cache, dfa`stateCount, dfa`states, dfa.closures, dfa.states
    ensures Ready(dfa, r) && forall e :: e in dfa.states ==> e in old(dfa.states) || fresh(e)
    ensures k <= |s| && dfa.After(Prefix(s, k), d)
    ensures if hit then k >= 1 && Hits(r, s, k) else d == Jam || k == |s|
    ensures forall j :: 1 <= j <= k && Hits(r, s, j) ==> hit && j == k
  {
    hide Ready, DfaMachine.After, Prefix, Bytes, Hits;
    d, k, hit := x, 0, false;
    while !hit && d != Jam && k < |s|
      invariant 0 <= k <= |s| && Ready(dfa, r) && dfa.After(Prefix(s, k), d)
      invariant forall e :: e in dfa.states ==> e in old(dfa.states) || fresh(e)
      invariant hit ==> k >= 1 && Hits(r, s, k)
      invariant forall j :: 1 <= j <= k && Hits(r, s, j) ==> hit && j == k
      decreases |s| - k
    {
      d, hit := AdvanceAndTest(dfa, r, s, k, d);
      k := k + 1;
    }
  }

  /** `Match`: the end of the first match, counting a match of the whole subject only as a last resort. */
  method Match(dfa: DfaMachine, ghost r: Regex, s: seq<int>) returns (pos: int)
    requires Ready(dfa, r) && Bytes(s)
    modifies dfa`cache, dfa`stateCount, dfa`states, dfa.closures, dfa.states
    ensures Ready(dfa, r) && 0 <= pos
    ensures forall k :: 1 <= k <= |s| && Hits(r, s, k) ==> 1 <= pos <= k
    ensures pos > 0 ==>
              (1 <= pos <= |s| && Hits(r, s, pos)) || (Subject(s) in Denotes(r) && pos == if |s| > 0 then |s| else 1)
    ensures pos == 0 ==> Subject(s) !in Denotes(r)
  {
    var x := Begin(dfa, r, s);
    var k, d, hit := ScanFirst(dfa, r, s, x);
    pos := 0;
    if hit {
      pos := k;
    } else if d == Jam {
      JamRejects(dfa.closures.g, dfa.first, r, s, k);
    } else {
      var whole := End(dfa, r, s, d);
      if whole {
        pos := if |s| > 0 then |s| else 1;
      }
    }
  }

  /** `len` is the longest of the first `k` prefixes that match, or -1. */
  ghost predicate IsLongest(r: Regex, s: seq<int>, k: int, len: int) {
    && -1 <= len <= k && (len >= 0 ==> Hits(r, s, len))
    && forall j :: 0 <= j <= k && Hits(r, s, j) ==> j <= len
  }

  lemma LongestStep(r: Regex, s: seq<int>, k: nat, len: int)
    requires IsLongest(r, s, k, len)
    ensures IsLongest(r, s, k + 1, if Hits(r, s, k + 1) then k + 1 else len)
  {
  }

  /** Walks to the end of the subject or a jam, remembering the last prefix that matched. */
  method ScanLongest(dfa: DfaMachine, ghost r: Regex, s: seq<int>, x: Target, first: int)
    returns (k: nat, d: Target, len: int)
    requires Ready(dfa, r) && Bytes(s) && dfa.After(Prefix(s, 0), x) && first == if Hits(r, s, 0) then 0 else -1
    modifies dfa`cache, dfa`stateCount, dfa`states, dfa.closures, dfa.states
    ensures Ready(dfa, r) && forall e :: e in dfa.states ==> e in old(dfa.states) || fresh(e)
    ensures k <= |s| && dfa.After(Prefix(s, k), d) && (d == Jam || k == |s|)
    ensures IsLongest(r, s, k, len)
  {
    hide Ready, DfaMachine.After, Prefix, Bytes, Hits;
    d, k, len := x, 0, first;
    while d != Jam && k < |s|
      invariant 0 <= k <= |s| && Ready(dfa, r) && dfa.After(Prefix(s, k), d)
      invariant forall e :: e in dfa.states ==> e in old(dfa.states) || fresh(e)
      invariant IsLongest(r, s, k, len)
    {
      LongestStep(r, s, k, len);
      var yes;
      d, yes := AdvanceAndTest(dfa, r, s, k, d);
      k := k + 1;
      if yes {
        len := k;
      }
    }
  }

  /** `LongestMatch`: the length of the longest prefix that matches, or -1. */
  method LongestMatch(dfa: DfaMachine, ghost r: Regex, s: seq<int>) returns (len: int)
    requires Ready(dfa, r) && Bytes(s)
    modifies dfa`cache, dfa`stateCount, dfa`states, dfa.closures, dfa.states
    ensures Ready(dfa, r) && -1 <= len <= |s|
    ensures Subject(s) in Denotes(r) ==> len == |s|
    ensures forall k :: Hits(r, s, k) ==> k <= len
    ensures len >= 0 ==> Hits(r, s, len) || (len == |s| && Subject(s) in Denotes(r))
  {
    var x := Begin(dfa, r, s);
    if x == Jam {
      JamRejects(dfa.closures.g, dfa.first, r, s, 0);
      return -1;
    }
    var yes := Accepting(dfa, x, r, Prefix(s, 0));
    var k, d, best := ScanLongest(dfa, r, s, x, if yes then 0 else -1);
    len := FinishLongest(dfa, r, s, k, d, best);
  }

  method FinishLongest(dfa: DfaMachine, ghost r: Regex, s: seq<int>, k: nat, d: Target, best: int) returns (len: int)
    requires Ready(dfa, r) && k <= |s| && dfa.After(Prefix(s, k), d) && (d == Jam || k == |s|)
             && IsLongest(r, s, k, best)
    modifies dfa`cache, dfa`stateCount, dfa`states, dfa.closures, dfa.states
    ensures Ready(dfa, r) && -1 <= len <= |s|
    ensures Subject(s) in Denotes(r) ==> len == |s|
    ensures forall j :: Hits(r, s, j) ==> j <= len
    ensures len >= 0 ==> Hits(r, s, len) || (len == |s| && Subject(s) in Denotes(r))
  {
    len := best;
    if d == Jam {
      JamRejects(dfa.closures.g, dfa.first, r, s, k);
    } else {
      var whole := End(dfa, r, s, d);
      if whole {
        len := |s|;
      }
    }
  }
}
