/** The lazily built DFA of src/DFA.cc over the equivalence classes of src/EquivClass.cc. */
module LazyDfa {
  import opened NfaGraphs
  import opened EquivClasses
  import opened EpsilonClosures

  /** The finished symbol partition: representatives, class numbers, and the character classes
      rewritten as lists of class numbers. */
  datatype SymbolTable = SymbolTable(rep: seq<int>, cls: seq<int>, numClasses: nat, ccls: seq<seq<int>>)

  /** State labels the table knows about. */
  ghost predicate Known(t: SymbolTable, l: Label) {
    match l
    case Epsilon => true
    case Symbol(s) => 0 <= s < |t.rep| == |t.cls| && 0 <= t.cls[s] < t.numClasses
    case Class(ccl) =>
      && ccl.index < |t.ccls| && StrictlySorted(t.ccls[ccl.index])
      && forall i :: 0 <= i < |t.ccls[ccl.index]| ==> 0 <= t.ccls[ccl.index][i] < t.numClasses
  }

  ghost predicate KnownGraph(t: SymbolTable, g: Graph) {
    forall x :: x in g ==> Known(t, g[x].sym)
  }

  /** Whether a state with label `l` reads class number `k`. */
  predicate MatchesClass(t: SymbolTable, l: Label, k: int) {
    match l
    case Epsilon => false
    case Symbol(s) => 0 <= s < |t.rep| == |t.cls| && t.rep[s] == s && t.cls[s] == k
    case Class(ccl) => ccl.index < |t.ccls| && (k in t.ccls[ccl.index]) != ccl.negated
  }

  /** Reading a symbol and reading its class number are the same for every state. */
  ghost predicate Faithful(t: SymbolTable, g: Graph) {
    forall x, c :: x in g && 0 <= c < |t.cls| ==> (Matches(g[x].sym, c) <==> MatchesClass(t, g[x].sym, t.cls[c]))
  }

  /** The successors of the states of `s` that read class number `k`. */
  ghost function Follow(t: SymbolTable, g: Graph, s: set<int>, k: int): set<int> {
    set z | z in g && exists x :: x in s && x in g && MatchesClass(t, g[x].sym, k) && z in g[x].next
  }

  ghost predicate Inhabited(s: set<int>) {
    exists z :: z in s
  }

  // ----- the cache key -----

  /** The decimal digits of `id`, least significant first. */
  function Digit(id: nat): char {
    '0' + (id % 10) as char
  }

  function Digits(id: nat): (r: string)
    ensures |r| >= 1
  {
    [Digit(id)] + if id / 10 > 0 then Digits(id / 10) else []
  }

  /** The text fed to the hash: every ID followed by a delimiter. */
  function Tag(ids: seq<int>): string
    requires forall i :: 0 <= i < |ids| ==> 0 <= ids[i]
  {
    if ids == [] then "\0" else Digits(ids[0]) + "&" + Tag(ids[1..])
  }

  lemma TagNext(ids: seq<int>, i: nat)
    requires i <= |ids| && forall j :: 0 <= j < |ids| ==> 0 <= ids[j]
    ensures i < |ids| ==> Tag(ids[i..]) == Digits(ids[i]) + "&" + Tag(ids[i + 1..])
    ensures i == |ids| ==> Tag(ids[i..]) == "\0"
    ensures ids[0..] == ids
  {
    if i < |ids| {
      assert ids[i..][1..] == ids[i + 1..];
    }
  }

  lemma {:induction false} DigitsPrefix(m: nat, n: nat, u: string, v: string)
    requires Digits(m) + "&" + u == Digits(n) + "&" + v
    ensures m == n && u == v
    decreases m
  {
    var p, q := Digits(m) + "&" + u, Digits(n) + "&" + v;
    assert p[0] == Digits(m)[0] == '0' + (m % 10) as char;
    assert q[0] == Digits(n)[0] == '0' + (n % 10) as char;
    assert m % 10 == n % 10;
    var p' := if m / 10 > 0 then Digits(m / 10) else [];
    var q' := if n / 10 > 0 then Digits(n / 10) else [];
    assert p[1..] == p' + "&" + u;
    assert q[1..] == q' + "&" + v;
    assert p[1] == if m / 10 > 0 then '0' + (m / 10 % 10) as char else '&';
    assert q[1] == if n / 10 > 0 then '0' + (n / 10 % 10) as char else '&';
    if m / 10 > 0 && n / 10 > 0 {
      DigitsPrefix(m / 10, n / 10, u, v);
    } else {
      assert p[2..] == u && q[2..] == v;
    }
  }

  /** Different lists of IDs have different tags. */
  lemma {:induction false} TagInjective(s: seq<int>, t: seq<int>)
    requires (forall i :: 0 <= i < |s| ==> 0 <= s[i]) && (forall i :: 0 <= i < |t| ==> 0 <= t[i])
    requires Tag(s) == Tag(t)
    ensures s == t
    decreases |s|
  {
    assert Tag(s)[0] == if s == [] then '\0' else '0' + (s[0] % 10) as char;
    assert Tag(t)[0] == if t == [] then '\0' else '0' + (t[0] % 10) as char;
    if s != [] && t != [] {
      DigitsPrefix(s[0], t[0], Tag(s[1..]), Tag(t[1..]));
      TagInjective(s[1..], t[1..]);
      assert s == [s[0]] + s[1..] && t == [t[0]] + t[1..];
    }
  }

  lemma {:induction false} DigitsLength(id: nat, bound: nat, k: nat)
    requires k >= 1 && id < bound && bound == Pow10(k)
    ensures |Digits(id)| <= k
    decreases k
  {
    if id / 10 > 0 {
      DigitsLength(id / 10, Pow10(k - 1), k - 1);
    }
  }

  function Pow10(k: nat): nat {
    if k == 0 then 1 else 10 * Pow10(k - 1)
  }

  /** The buffer of 11 bytes per state and one more is large enough for IDs of up to ten digits. */
  lemma {:induction false} TagFits(ids: seq<int>)
    requires forall i :: 0 <= i < |ids| ==> 0 <= ids[i] < 10000000000
    ensures |Tag(ids)| <= |ids| * 11 + 1
    decreases |ids|
  {
    if ids != [] {
      assert Pow10(10) == 10000000000 by {
        assert Pow10(5) == 100000;
        assert Pow10(10) == 10 * (10 * (10 * (10 * (10 * Pow10(5)))));
      }
      DigitsLength(ids[0], 10000000000, 10);
      TagFits(ids[1..]);
    }
  }

  // ----- meta equivalence classes -----

  /** The partition tells apart the class numbers that label `l` treats differently. */
  ghost predicate Registered(t: SymbolTable, l: Label, used: seq<set<int>>) {
    match l
    case Epsilon => true
    case Symbol(s) => 0 <= s < |t.rep| == |t.cls| ==> (t.rep[s] == s ==> {t.cls[s]} in used)
    case Class(ccl) => ccl.index < |t.ccls| ==> Elems(t.ccls[ccl.index]) in used
  }

  /** Class numbers in one meta class are read by the same states. */
  lemma MetaSound(t: SymbolTable, l: Label, used: seq<set<int>>, k: int, r: int)
    requires Registered(t, l, used) && Indistinct(used, k, r)
    ensures MatchesClass(t, l, k) <==> MatchesClass(t, l, r)
  {
    match l
    case Epsilon =>
    case Symbol(s) =>
      if 0 <= s < |t.rep| == |t.cls| && t.rep[s] == s {
        var i :| 0 <= i < |used| && used[i] == {t.cls[s]};
        assert k in used[i] <==> r in used[i];
      }
    case Class(ccl) =>
      if ccl.index < |t.ccls| {
        var i :| 0 <= i < |used| && used[i] == Elems(t.ccls[ccl.index]);
        assert k in used[i] <==> r in used[i];
      }
  }

  /** Class number `k` and its representative are read by the same states of `s`. */
  ghost predicate MetaOk(t: SymbolTable, g: Graph, s: seq<int>, metaRep: seq<int>) {
    && |metaRep| == t.numClasses
    && forall k :: 0 <= k < t.numClasses ==>
         && 0 <= metaRep[k] < t.numClasses
         && forall i :: 0 <= i < |s| && s[i] in g ==>
              (MatchesClass(t, g[s[i]].sym, k) <==> MatchesClass(t, g[s[i]].sym, metaRep[k]))
  }

  lemma MetaBuilt(t: SymbolTable, g: Graph, s: seq<int>, used: seq<set<int>>, lab: seq<int>, rep: seq<int>,
                  cls: seq<int>)
    requires |lab| == t.numClasses && Classes(lab, 0, rep, cls) && Separates(lab, used)
    requires forall i :: 0 <= i < |s| && s[i] in g ==> Registered(t, g[s[i]].sym, used)
    ensures MetaOk(t, g, s, rep)
  {
    forall k | 0 <= k < t.numClasses
      ensures 0 <= rep[k] < t.numClasses && Indistinct(used, k, rep[k])
    {
      ClassesCoarsest(lab, used, 0, rep, cls, k, k);
    }
    forall k, i | 0 <= k < t.numClasses && 0 <= i < |s| && s[i] in g
      ensures MatchesClass(t, g[s[i]].sym, k) <==> MatchesClass(t, g[s[i]].sym, rep[k])
    {
      MetaSound(t, g[s[i]].sym, used, k, rep[k]);
    }
  }

  lemma RegisteredMore(t: SymbolTable, l: Label, used: seq<set<int>>, more: set<int>)
    requires Registered(t, l, used)
    ensures Registered(t, l, used + [more])
  {
  }

  /** Tells apart what one label treats differently. */
  method UseLabel(meta: EquivClass, t: SymbolTable, l: Label)
    requires meta.Valid() && meta.size == t.numClasses && Known(t, l)
    modifies meta, meta.fwd, meta.bck, meta.cclFlags
    ensures meta.Valid() && meta.numEcs == old(meta.numEcs) && Registered(t, l, meta.used)
    ensures meta.used == old(meta.used) || exists more :: meta.used == old(meta.used) + [more]
  {
    match l
    case Epsilon =>
    case Symbol(s) =>
      if t.rep[s] == s {
        meta.UniqueChar(t.cls[s]);
        assert meta.used[|meta.used| - 1] == {t.cls[s]};
      }
    case Class(ccl) =>
      meta.CclUse(t.ccls[ccl.index]);
      assert meta.used[|meta.used| - 1] == Elems(t.ccls[ccl.index]);
  }

  /** `SymPartition`: the equivalence classes of equivalence classes of one DFA state. */
  method SymPartition(t: SymbolTable, g: Graph, s: seq<int>) returns (metaRep: seq<int>)
    requires KnownGraph(t, g) && 0 < t.numClasses && forall i :: 0 <= i < |s| ==> s[i] in g
    ensures MetaOk(t, g, s, metaRep)
  {
    var meta := new EquivClass(t.numClasses);
    for i := 0 to |s|
      invariant meta.Valid() && meta.size == t.numClasses && meta.numEcs == 0
      invariant fresh(meta) && fresh(meta.fwd) && fresh(meta.bck) && fresh(meta.cclFlags)
      invariant forall j :: 0 <= j < i ==> Registered(t, g[s[j]].sym, meta.used)
    {
      ghost var used := meta.used;
      var n := s[i];
      UseLabel(meta, t, g[n].sym);
      if meta.used != used {
        var more :| meta.used == used + [more];
        forall j | 0 <= j < i
          ensures Registered(t, g[s[j]].sym, meta.used)
        {
          RegisteredMore(t, g[s[j]].sym, used, more);
        }
      }
    }
    var n := meta.BuildECs();
    metaRep := meta.rep[..];
    MetaBuilt(t, g, s, meta.used, meta.lab, metaRep, meta.equivClass[..]);
  }

  // ----- follow sets -----

  /** The scan of a negated class: stops at the first entry that is not below `k`. */
  method AbsentFrom(syms: seq<int>, k: int) returns (absent: bool)
    requires StrictlySorted(syms)
    ensures absent <==> k !in syms
  {
    var j := 0;
    while j < |syms|
      invariant 0 <= j <= |syms| && forall i :: 0 <= i < j ==> syms[i] < k
    {
      if syms[j] >= k {
        break;
      }
      j := j + 1;
    }
    absent := j >= |syms| || syms[j] > k;
  }

  /** The scan of a plain class: stops at `k` or beyond it. */
  method PresentIn(syms: seq<int>, k: int) returns (present: bool)
    requires StrictlySorted(syms)
    ensures present <==> k in syms
  {
    for j := 0 to |syms|
      invariant forall i :: 0 <= i < j ==> syms[i] < k
    {
      if syms[j] > k {
        return false;
      }
      if syms[j] == k {
        return true;
      }
    }
    present := false;
  }

  method ReadsClass(t: SymbolTable, l: Label, k: int) returns (yes: bool)
    requires Known(t, l)
    ensures yes <==> MatchesClass(t, l, k)
  {
    match l
    case Epsilon => yes := false;
    case Symbol(s) => yes := t.rep[s] == s && k == t.cls[s];
    case Class(ccl) =>
      if ccl.negated {
        yes := AbsentFrom(t.ccls[ccl.index], k);
      } else {
        yes := PresentIn(t.ccls[ccl.index], k);
      }
  }

  lemma FollowSnoc(t: SymbolTable, g: Graph, s: seq<int>, i: nat, k: int)
    requires i < |s| && s[i] in g && Whole(g)
    ensures Follow(t, g, Elements(s[..i + 1]), k) ==
            Follow(t, g, Elements(s[..i]), k) + if MatchesClass(t, g[s[i]].sym, k) then Elements(g[s[i]].next) else {}
  {
    var n := s[i];
    assert Elements(s[..i + 1]) == Elements(s[..i]) + {n};
    forall z
      ensures z in Follow(t, g, Elements(s[..i + 1]), k) <==>
              z in Follow(t, g, Elements(s[..i]), k) || (MatchesClass(t, g[n].sym, k) && z in g[n].next)
    {
      if MatchesClass(t, g[n].sym, k) && z in g[n].next {
        assert n in Elements(s[..i + 1]);
      }
    }
  }

  /** `SymFollowSet`: the successors on class number `k`, in list order and with repetitions. */
  method SymFollowSet(t: SymbolTable, g: Graph, s: seq<int>, k: int) returns (ns: seq<int>)
    requires KnownGraph(t, g) && Whole(g) && forall i :: 0 <= i < |s| ==> s[i] in g
    ensures Elements(ns) == Follow(t, g, Elements(s), k)
  {
    ns := [];
    for i := 0 to |s|
      invariant Elements(ns) == Follow(t, g, Elements(s[..i]), k)
    {
      var n := s[i];
      FollowSnoc(t, g, s, i, k);
      var yes := ReadsClass(t, g[n].sym, k);
      if yes {
        assert Elements(ns + g[n].next) == Elements(ns) + Elements(g[n].next);
        ns := ns + g[n].next;
      }
    }
    assert s[..|s|] == s;
  }

  // ----- the machine -----

  /** An entry of a transition table: not computed yet, no way on, or the next state. */
  datatype Target = Uncomputed | Jam | Goto(state: DfaState)

  class DfaState {
    const stateNum: int
    const nfaStates: seq<int>
    const accept: set<int>
    const metaRep: seq<int>
    var xtions: seq<Target>

    constructor (num: int, states: seq<int>, acc: set<int>, meta: seq<int>)
      ensures stateNum == num && nfaStates == states && accept == acc && metaRep == meta
      ensures |xtions| == |meta| && forall k :: 0 <= k < |meta| ==> xtions[k] == Uncomputed
    {
      stateNum, nfaStates, accept, metaRep := num, states, acc, meta;
      xtions := seq(|meta|, _ => Uncomputed);
    }
  }

  /** The accepting values among a set of states. */
  ghost function AcceptsOf(g: Graph, s: set<int>): set<int> {
    set x | x in s && x in g && g[x].accept != NO_ACCEPT :: g[x].accept
  }

  ghost predicate CoreList(g: Graph, s: seq<int>) {
    Decreasing(s) && forall i :: 0 <= i < |s| ==> 0 <= s[i] && Core(g, s[i])
  }

  class DfaMachine {
    const closures: Closures
    const table: SymbolTable
    var cache: map<string, DfaState>
    var stateCount: int
    const first: int
    var start: DfaState?
    ghost var states: set<DfaState>

    /** A recorded transition leads to the closure of the follow set, or jams exactly when that is empty. */
    ghost predicate XtionOk(d: DfaState, k: int, x: Target)
      reads `states
    {
      match x
      case Uncomputed => true
      case Jam => Follow(table, closures.g, Elements(d.nfaStates), k) == {}
      case Goto(e) =>
        && e in states && Inhabited(Follow(table, closures.g, Elements(d.nfaStates), k))
        && IsClosureOf(closures.g, Follow(table, closures.g, Elements(d.nfaStates), k), Elements(e.nfaStates))
    }

    ghost predicate StateOk(d: DfaState)
      reads `states, d
    {
      && CoreList(closures.g, d.nfaStates) && d.accept == AcceptsOf(closures.g, Elements(d.nfaStates))
      && MetaOk(table, closures.g, d.nfaStates, d.metaRep)
      && |d.xtions| == table.numClasses
      && forall k :: 0 <= k < table.numClasses ==> XtionOk(d, k, d.xtions[k])
    }

    ghost predicate Fixed() {
      && KnownGraph(table, closures.g) && 0 < table.numClasses && Whole(closures.g)
      && forall x :: x in closures.g ==> 0 <= x
    }

    ghost predicate Valid()
      reads this, closures, states
    {
      && Fixed() && closures.Valid()
      && (start != null ==>
            start in states && first in closures.g && IsClosureOf(closures.g, {first}, Elements(start.nfaStates)))
      && (forall d :: d in states ==> StateOk(d) && Tag(d.nfaStates) in cache && cache[Tag(d.nfaStates)] == d)
      && (forall t :: t in cache ==>
            cache[t] in states && CoreList(closures.g, cache[t].nfaStates) && t == Tag(cache[t].nfaStates))
    }

    constructor (c: Closures, t: SymbolTable, a: int)
      requires KnownGraph(t, c.g) && 0 < t.numClasses && c.Valid() && (forall x :: x in c.g ==> 0 <= x) && a in c.g
      modifies c
      ensures Valid() && closures == c && table == t && first == a && start != null
      ensures forall e :: e in states ==> fresh(e)
    {
      closures, table, first, start := c, t, a, null;
      cache, stateCount, states := map[], 0, {};
      new;
      var x := NextTarget([a]);
      assert a in Elements([a]);
      assert Elements([a]) == {a};
      start := x.state;
    }

    /** `DFA_State_Cache::Lookup`: spells the tag of a state list. */
    method SpellTag(s: seq<int>) returns (tag: string)
      requires CoreList(closures.g, s)
      ensures tag == Tag(s)
    {
      hide Tag, Digits, Decreasing;
      TagNext(s, |s|);
      tag := "";
      for i := 0 to |s|
        invariant tag + Tag(s[i..]) == Tag(s)
      {
        var n := s[i];
        TagNext(s, i);
        if !closures.g[n].sym.Epsilon? || closures.g[n].accept != NO_ACCEPT {
          var digits := SpellDigits(n);
          assert tag + (digits + "&" + Tag(s[i + 1..])) == (tag + digits + "&") + Tag(s[i + 1..]);
          tag := tag + digits + "&";
        }
      }
      tag := tag + "\0";
    }

    /** Gathers the accepting values of a state set. */
    method CollectAccepts(s: seq<int>) returns (accept: set<int>)
      requires CoreList(closures.g, s)
      ensures accept == AcceptsOf(closures.g, Elements(s))
    {
      accept := {};
      for i := 0 to |s|
        invariant accept == AcceptsOf(closures.g, Elements(s[..i]))
      {
        var n := s[i];
        assert Elements(s[..i + 1]) == Elements(s[..i]) + {n};
        var acc := closures.g[n].accept;
        if acc != NO_ACCEPT {
          accept := accept + {acc};
        }
      }
      assert s[..|s|] == s;
    }

    /** A new state with nothing computed, filed under its tag. */
    method AddState(s: seq<int>, tag: string) returns (d: DfaState)
      requires Valid() && CoreList(closures.g, s) && tag == Tag(s) && tag !in cache
      modifies `cache, `stateCount, `states
      ensures Valid() && states == old(states) + {d} && d.nfaStates == s && fresh(d)
    {
      var accept := CollectAccepts(s);
      var metaRep := SymPartition(table, closures.g, s);
      d := new DfaState(stateCount, s, accept, metaRep);
      stateCount := stateCount + 1;
      ghost var before := states;
      cache := cache[tag := d];
      states := states + {d};
      assert StateOk(d);
      forall e | e in before
        ensures StateOk(e) && Tag(e.nfaStates) in cache && cache[Tag(e.nfaStates)] == e
      {
        assert old(StateOk(e));
      }
    }

    /** `StateSetToDFA_State`: the state for a set, from the cache or new. */
    method StateSetToDfaState(s: seq<int>) returns (d: DfaState)
      requires Valid() && CoreList(closures.g, s)
      modifies `cache, `stateCount, `states
      ensures Valid() && states == old(states) + {d} && d.nfaStates == s && (d in old(states) || fresh(d))
      ensures forall e :: e in old(states) && e.nfaStates == s ==> d == e
    {
      var tag := SpellTag(s);
      if tag in cache {
        d := cache[tag];
        TagInjective(s, d.nfaStates);
      } else {
        d := AddState(s, tag);
      }
    }

    /** `AddXtion` */
    method AddXtion(d: DfaState, k: int, x: Target)
      requires Valid() && d in states && 0 <= k < table.numClasses && XtionOk(d, k, x)
      modifies d
      ensures Valid() && d.xtions == old(d.xtions)[k := x]
    {
      hide MetaOk, CoreList, Fixed, XtionOk, IsClosureOf, Tag, AcceptsOf, Closures.Valid;
      d.xtions := d.xtions[k := x];
    }

    /** The state for the closure of a follow list, or a jam. */
    method NextTarget(ns: seq<int>) returns (x: Target)
      requires Valid() && forall i :: 0 <= i < |ns| ==> ns[i] in closures.g
      modifies `cache, `stateCount, `states, closures
      ensures Valid() && old(states) <= states && forall e :: e in states ==> e in old(states) || fresh(e)
      ensures x == Jam ==> Elements(ns) == {}
      ensures x != Jam ==> x.Goto? && x.state in states && Inhabited(Elements(ns))
      ensures x != Jam ==> IsClosureOf(closures.g, Elements(ns), Elements(x.state.nfaStates))
    {
      if |ns| > 0 {
        assert ns[0] in Elements(ns);
        var stateSet := closures.EpsilonClosureOf(ns);
        ClosureCore(closures.g, Elements(ns), stateSet);
        var next := StateSetToDfaState(stateSet);
        x := Goto(next);
      } else {
        x := Jam;
      }
    }

    /** Computes and records the entry of a meta representative. */
    method ComputeEntry(d: DfaState, k: int) returns (x: Target)
      requires Valid() && d in states && 0 <= k < table.numClasses
      modifies `cache, `stateCount, `states, closures, d
      ensures Valid() && old(states) <= states && (forall e :: e in states ==> e in old(states) || fresh(e))
      ensures x != Uncomputed && XtionOk(d, k, x) && d.xtions == old(d.xtions)[k := x]
    {
      var ns := SymFollowSet(table, closures.g, d.nfaStates, k);
      ElementsInGraph(table, closures.g, d.nfaStates, k, ns);
      x := NextTarget(ns);
      AddXtion(d, k, x);
    }

    lemma MetaEntry(d: DfaState, sym: int)
      requires Valid() && d in states && 0 <= sym < table.numClasses
      ensures |d.xtions| == table.numClasses == |d.metaRep| && 0 <= d.metaRep[sym] < table.numClasses
      ensures XtionOk(d, d.metaRep[sym], d.xtions[d.metaRep[sym]])
      ensures forall x :: XtionOk(d, d.metaRep[sym], x) ==> XtionOk(d, sym, x)
    {
      assert StateOk(d);
      FollowMeta(table, closures.g, d.nfaStates, d.metaRep, sym);
    }

    /** `ComputeXtion`: shares the entry of the meta representative, computing that first if need be. */
    method ComputeXtion(d: DfaState, sym: int) returns (x: Target)
      requires Valid() && d in states && 0 <= sym < table.numClasses
      modifies `cache, `stateCount, `states, closures, d
      ensures Valid() && old(states) <= states && (forall e :: e in states ==> e in old(states) || fresh(e))
      ensures x != Uncomputed && XtionOk(d, sym, x)
      ensures d.xtions == old(d.xtions)[d.metaRep[sym] := x][sym := x]
      ensures old(d.xtions[d.metaRep[sym]]) != Uncomputed ==>
                x == old(d.xtions[d.metaRep[sym]]) && states == old(states)
    {
      hide Valid, XtionOk;
      MetaEntry(d, sym);
      var equivSym := d.metaRep[sym];
      if d.xtions[equivSym] != Uncomputed {
        x := d.xtions[equivSym];
        AddXtion(d, sym, x);
        return;
      }
      x := ComputeEntry(d, equivSym);
      MetaEntry(d, sym);
      if sym != equivSym {
        AddXtion(d, sym, x);
      }
    }

    /** `DFA_State::Xtion`: the lazy lookup. */
    method Xtion(d: DfaState, sym: int) returns (x: Target)
      requires Valid() && d in states && 0 <= sym < table.numClasses
      modifies `cache, `stateCount, `states, closures, d
      ensures Valid() && old(states) <= states && (forall e :: e in states ==> e in old(states) || fresh(e))
      ensures x != Uncomputed && XtionOk(d, sym, x) && d.xtions[sym] == x
      ensures old(d.xtions[sym]) != Uncomputed ==> d.xtions == old(d.xtions) && states == old(states)
    {
      if d.xtions[sym] == Uncomputed {
        x := ComputeXtion(d, sym);
      } else {
        x := d.xtions[sym];
      }
    }

    /** Where the machine stands after `w`: in the state of the NFA's state set, or jammed with no NFA state left. */
    ghost predicate After(w: Word, x: Target)
      reads `states
    {
      match x
      case Uncomputed => false
      case Jam => Stuck(closures.g, first, w)
      case Goto(d) => d in states && IsSim(closures.g, first, w, Elements(d.nfaStates)) && !Stuck(closures.g, first, w)
    }

    ghost predicate Covered()
    {
      Faithful(table, closures.g) && forall c :: 0 <= c < |table.cls| ==> 0 <= table.cls[c] < table.numClasses
    }

    /** One step of a matcher's loop. */
    method Step(x: Target, c: int, ghost w: Word) returns (y: Target)
      requires Valid() && Covered() && 0 <= c < |table.cls| && After(w, x)
      modifies `cache, `stateCount, `states, closures, states
      ensures Valid() && After(w + [c], y) && (forall e :: e in states ==> e in old(states) || fresh(e))
    {
      if x.Jam? {
        y := Jam;
        StuckStays(closures.g, first, w, c);
      } else {
        var d := x.state;
        y := Xtion(d, table.cls[c]);
        if y.Jam? {
          SimJam(table, closures.g, first, w, c, Elements(d.nfaStates));
        } else {
          SimStep(table, closures.g, first, w, c, Elements(d.nfaStates), Elements(y.state.nfaStates));
          SimMoves(table, closures.g, first, w, c, Elements(d.nfaStates));
        }
      }
    }

    /** Walks the machine over `w`, whatever part of it has been computed before. */
    method Run(w: Word) returns (x: Target)
      requires Valid() && Covered() && start != null && forall i :: 0 <= i < |w| ==> 0 <= w[i] < |table.cls|
      modifies `cache, `stateCount, `states, closures, states
      ensures Valid() && (forall e :: e in states ==> e in old(states) || fresh(e))
      ensures x == Jam <==> Stuck(closures.g, first, w)
      ensures x != Jam ==> x.Goto? && x.state in states && x.state.accept == AcceptValues(closures.g, first, w)
    {
      hide MetaOk, XtionOk, Fixed, IsSim, Stuck, IsClosureOf, Closures.Valid, CoreList, Tag, Faithful;
      x := Goto(start);
      SimStart(closures.g, first, Elements(start.nfaStates));
      for i := 0 to |w|
        invariant Valid() && After(w[..i], x) && (forall e :: e in states ==> e in old(states) || fresh(e))
      {
        assert w[..i + 1] == w[..i] + [w[i]];
        x := Step(x, w[i], w[..i]);
      }
      assert w[..|w|] == w;
      if x.Goto? {
        SimAccepts(closures.g, first, w, Elements(x.state.nfaStates));
      }
    }
  }

  // ----- the simulation theorem -----

  /** `s` holds the kept states an NFA started in `a` can be in after reading `w`. */
  ghost predicate IsSim(g: Graph, a: int, w: Word, s: set<int>) {
    forall x :: x in s <==> Core(g, x) && Reached(g, a, w, x)
  }

  /** The accepting values the NFA reaches on `w`. */
  ghost function AcceptValues(g: Graph, a: int, w: Word): set<int> {
    set x | x in g && Reached(g, a, w, x) && g[x].accept != NO_ACCEPT :: g[x].accept
  }

  ghost predicate Stuck(g: Graph, a: int, w: Word) {
    forall x :: !Reached(g, a, w, x)
  }

  lemma SimStart(g: Graph, a: int, s: set<int>)
    requires a in g && IsClosureOf(g, {a}, s)
    ensures IsSim(g, a, [], s) && !Stuck(g, a, [])
  {
    assert ReachedIn(g, a, [], a, 0) && Reached(g, a, [], a);
    forall x
      ensures x in s <==> Core(g, x) && Reached(g, a, [], x)
    {
      if Core(g, x) && Reached(g, a, [], x) {
        assert a in {a} && EpsReach(g, a, x);
      }
    }
  }

  lemma FollowIff(t: SymbolTable, g: Graph, a: int, w: Word, c: int, s: set<int>, z: int)
    requires IsSim(g, a, w, s) && Faithful(t, g) && 0 <= c < |t.cls|
    ensures z in Follow(t, g, s, t.cls[c]) <==>
            z in g && exists x :: x in g && Reached(g, a, w, x) && Matches(g[x].sym, c) && z in g[x].next
  {
    if z in Follow(t, g, s, t.cls[c]) {
      var x :| x in s && x in g && MatchesClass(t, g[x].sym, t.cls[c]) && z in g[x].next;
      assert Matches(g[x].sym, c);
    }
    if z in g {
      if x :| x in g && Reached(g, a, w, x) && Matches(g[x].sym, c) && z in g[x].next {
        assert Core(g, x) && x in s;
        assert MatchesClass(t, g[x].sym, t.cls[c]);
      }
    }
  }

  lemma SimStep(t: SymbolTable, g: Graph, a: int, w: Word, c: int, s: set<int>, r: set<int>)
    requires IsSim(g, a, w, s) && Faithful(t, g) && 0 <= c < |t.cls|
    requires IsClosureOf(g, Follow(t, g, s, t.cls[c]), r)
    ensures IsSim(g, a, w + [c], r)
  {
    forall y
      ensures y in r <==> Core(g, y) && Reached(g, a, w + [c], y)
    {
      if y in r {
        var z :| z in Follow(t, g, s, t.cls[c]) && EpsReach(g, z, y);
        FollowIff(t, g, a, w, c, s, z);
        var x :| x in g && Reached(g, a, w, x) && Matches(g[x].sym, c) && z in g[x].next;
        ViaReached(g, a, w, c, y, x, z);
      }
      if Core(g, y) {
        if n: nat :| ReachedIn(g, a, w + [c], y, n) {
          var x, z := ReachedVia(g, a, w, c, y, n);
          FollowIff(t, g, a, w, c, s, z);
          assert z in Follow(t, g, s, t.cls[c]) && EpsReach(g, z, y);
        }
      }
    }
  }

  lemma SimJam(t: SymbolTable, g: Graph, a: int, w: Word, c: int, s: set<int>)
    requires IsSim(g, a, w, s) && Faithful(t, g) && 0 <= c < |t.cls|
    requires Follow(t, g, s, t.cls[c]) == {}
    ensures Stuck(g, a, w + [c])
  {
    forall y
      ensures !Reached(g, a, w + [c], y)
    {
      if n: nat :| ReachedIn(g, a, w + [c], y, n) {
        var x, z := ReachedVia(g, a, w, c, y, n);
        FollowIff(t, g, a, w, c, s, z);
      }
    }
  }

  lemma SimMoves(t: SymbolTable, g: Graph, a: int, w: Word, c: int, s: set<int>)
    requires IsSim(g, a, w, s) && Faithful(t, g) && 0 <= c < |t.cls|
    requires Inhabited(Follow(t, g, s, t.cls[c]))
    ensures !Stuck(g, a, w + [c])
  {
    var z :| z in Follow(t, g, s, t.cls[c]);
    FollowIff(t, g, a, w, c, s, z);
    var x :| x in g && Reached(g, a, w, x) && Matches(g[x].sym, c) && z in g[x].next;
    assert ReachedIn(g, z, [], z, 0);
    ViaReached(g, a, w, c, z, x, z);
  }

  lemma StuckStays(g: Graph, a: int, w: Word, c: int)
    requires Stuck(g, a, w)
    ensures Stuck(g, a, w + [c])
  {
    forall y
      ensures !Reached(g, a, w + [c], y)
    {
      if n: nat :| ReachedIn(g, a, w + [c], y, n) {
        var x, z := ReachedVia(g, a, w, c, y, n);
      }
    }
  }

  lemma SimAccepts(g: Graph, a: int, w: Word, s: set<int>)
    requires IsSim(g, a, w, s)
    ensures AcceptsOf(g, s) == AcceptValues(g, a, w)
  {
    forall v
      ensures v in AcceptsOf(g, s) <==> v in AcceptValues(g, a, w)
    {
      if v in AcceptValues(g, a, w) {
        var x :| x in g && Reached(g, a, w, x) && g[x].accept != NO_ACCEPT && g[x].accept == v;
        assert Core(g, x) && x in s;
      }
    }
  }

  lemma ElementsInGraph(t: SymbolTable, g: Graph, s: seq<int>, k: int, ns: seq<int>)
    requires Elements(ns) == Follow(t, g, Elements(s), k)
    ensures forall i :: 0 <= i < |ns| ==> ns[i] in g
  {
    forall i | 0 <= i < |ns|
      ensures ns[i] in g
    {
      var x := ns[i];
      assert x in Elements(ns);
    }
  }

  lemma FollowMeta(t: SymbolTable, g: Graph, s: seq<int>, metaRep: seq<int>, k: int)
    requires MetaOk(t, g, s, metaRep) && 0 <= k < t.numClasses
    ensures Follow(t, g, Elements(s), k) == Follow(t, g, Elements(s), metaRep[k])
  {
    forall x | x in Elements(s) && x in g
      ensures MatchesClass(t, g[x].sym, k) <==> MatchesClass(t, g[x].sym, metaRep[k])
    {
      var i :| 0 <= i < |s| && s[i] == x;
    }
  }

  lemma ClosureCore(g: Graph, s: set<int>, r: seq<int>)
    requires IsClosureOf(g, s, Elements(r)) && Decreasing(r) && forall x :: x in g ==> 0 <= x
    ensures CoreList(g, r)
  {
    forall i | 0 <= i < |r|
      ensures 0 <= r[i] && Core(g, r[i])
    {
      var x := r[i];
      assert x in Elements(r);
    }
  }

  /** The digit loop of the tag. */
  method SpellDigits(n: nat) returns (r: string)
    ensures r == Digits(n)
  {
    hide Digit;
    var id := n / 10;
    r := [Digit(n)];
    while id > 0
      invariant 0 <= id && r + (if id > 0 then Digits(id) else []) == Digits(n)
    {
      assert r + Digits(id) == r + [Digit(id)] + if id / 10 > 0 then Digits(id / 10) else [];
      r := r + [Digit(id)];
      id := id / 10;
    }
  }
}
