/** The symbol partition of src/EquivClass.cc: classes of symbols kept as
    doubly linked lists threaded through two integer arrays. */
module EquivClasses {

  /** Symbols `x` and `y` are told apart by none of the sets in `used`. */
  ghost predicate Indistinct(used: seq<set<int>>, x: int, y: int) {
    forall i :: 0 <= i < |used| ==> (x in used[i] <==> y in used[i])
  }

  /** `y` is the least symbol above `x` that carries the label of `x`, or `|lab| + 1` if there is none. */
  ghost predicate IsNext(lab: seq<int>, x: int, y: int)
    requires 0 <= x < |lab|
  {
    && x < y
    && (if y < |lab| then lab[y] == lab[x] else y == |lab| + 1)
    && forall z :: x < z < y && z < |lab| ==> lab[z] != lab[x]
  }

  /** `y` is the greatest symbol below `x` that carries the label of `x`, or `|lab| + 1` if there is none. */
  ghost predicate IsPrev(lab: seq<int>, x: int, y: int)
    requires 0 <= x < |lab|
  {
    if y == |lab| + 1 then
      forall z :: 0 <= z < x ==> lab[z] != lab[x]
    else
      && 0 <= y < x
      && lab[y] == lab[x]
      && forall z :: y < z < x ==> lab[z] != lab[x]
  }

  /** The labels once the members of `s` have been told apart from the other symbols. */
  ghost function Refine(lab: seq<int>, s: set<int>): (r: seq<int>)
    ensures |r| == |lab|
    ensures forall x {:trigger r[x]} :: 0 <= x < |lab| ==> r[x] == 2 * lab[x] + (if x in s then 1 else 0)
  {
    seq(|lab|, x requires 0 <= x < |lab| => 2 * lab[x] + (if x in s then 1 else 0))
  }

  predicate StrictlySorted(s: seq<int>) {
    forall i, j :: 0 <= i < j < |s| ==> s[i] < s[j]
  }

  ghost function Elems(s: seq<int>): set<int> {
    set x | x in s
  }

  /** `fwd` and `bck` thread every class, in increasing order, as a doubly linked list. */
  ghost predicate Linked(lab: seq<int>, fwd: seq<int>, bck: seq<int>) {
    && |fwd| == |bck| == |lab|
    && (forall x :: 0 <= x < |lab| ==> IsNext(lab, x, fwd[x]))
    && (forall x :: 0 <= x < |lab| ==> IsPrev(lab, x, bck[x]))
  }

  /** Two symbols carry one label exactly when nothing in `used` tells them apart. */
  ghost predicate Separates(lab: seq<int>, used: seq<set<int>>) {
    forall x, y :: 0 <= x < |lab| && 0 <= y < |lab| ==> (lab[x] == lab[y] <==> Indistinct(used, x, y))
  }

  lemma RefineSeparates(lab: seq<int>, used: seq<set<int>>, s: set<int>)
    requires Separates(lab, used)
    ensures Separates(Refine(lab, s), used + [s])
  {
    forall x, y | 0 <= x < |lab| && 0 <= y < |lab|
      ensures Refine(lab, s)[x] == Refine(lab, s)[y] <==> Indistinct(used + [s], x, y)
    {
      IndistinctExtend(used, s, x, y);
    }
  }

  lemma IndistinctExtend(used: seq<set<int>>, s: set<int>, x: int, y: int)
    ensures Indistinct(used + [s], x, y) <==> Indistinct(used, x, y) && (x in s <==> y in s)
  {
    if Indistinct(used + [s], x, y) {
      forall i | 0 <= i < |used|
        ensures x in used[i] <==> y in used[i]
      {
        assert (used + [s])[i] == used[i];
      }
      assert (used + [s])[|used|] == s;
    }
  }

  /** The list updates that cut `sym` out of its class. */
  ghost function CutFwd(fwd: seq<int>, bck: seq<int>, sym: int): seq<int>
    requires 0 <= sym < |fwd| == |bck| && (0 <= bck[sym] < |fwd| || bck[sym] == |fwd| + 1)
  {
    (if bck[sym] == |fwd| + 1 then fwd else fwd[bck[sym] := fwd[sym]])[sym := |fwd| + 1]
  }

  ghost function CutBck(fwd: seq<int>, bck: seq<int>, sym: int): seq<int>
    requires 0 <= sym < |fwd| == |bck| && (0 <= fwd[sym] < |fwd| || fwd[sym] == |fwd| + 1)
  {
    (if fwd[sym] == |fwd| + 1 then bck else bck[fwd[sym] := bck[sym]])[sym := |fwd| + 1]
  }

  lemma CutLinked(lab: seq<int>, fwd: seq<int>, bck: seq<int>, sym: int)
    requires Linked(lab, fwd, bck) && 0 <= sym < |lab|
    ensures Linked(Refine(lab, {sym}), CutFwd(fwd, bck, sym), CutBck(fwd, bck, sym))
  {
    var r := Refine(lab, {sym});
    assert IsNext(lab, sym, fwd[sym]) && IsPrev(lab, sym, bck[sym]);
    forall x | 0 <= x < |lab|
      ensures IsNext(r, x, CutFwd(fwd, bck, sym)[x])
    {
      assert IsNext(lab, x, fwd[x]);
    }
    forall x | 0 <= x < |lab|
      ensures IsPrev(r, x, CutBck(fwd, bck, sym)[x])
    {
      assert IsPrev(lab, x, bck[x]);
    }
  }

  /** The labels once the members of `s` have left the class labelled `c`. */
  ghost function Bump(lab: seq<int>, c: int, s: set<int>): (r: seq<int>)
    ensures |r| == |lab|
    ensures forall x {:trigger r[x]} :: 0 <= x < |lab| ==> r[x] == 2 * lab[x] + (if lab[x] == c && x in s then 1 else 0)
  {
    seq(|lab|, x requires 0 <= x < |lab| => 2 * lab[x] + (if lab[x] == c && x in s then 1 else 0))
  }

  /** `e` is the last member of class `c` below `k` whose membership in `s` is `b`. */
  ghost predicate IsLast(lab: seq<int>, c: int, s: set<int>, b: bool, k: int, e: int) {
    if e == |lab| + 1 then
      forall z :: 0 <= z < k && z < |lab| && lab[z] == c ==> (z in s) != b
    else
      && 0 <= e < k && e < |lab| && lab[e] == c && (e in s) == b
      && forall z :: e < z < k && z < |lab| && lab[z] == c ==> (z in s) != b
  }

  /** The lists while the class of `sym` is being split: members below `k` hang in one of the two new
      lists, which end in `oldEc` and `newEc`; the rest still hangs in the old one. */
  ghost predicate Splitting(lab: seq<int>, s: set<int>, sym: int, k: int, oldEc: int, newEc: int, fwd: seq<int>,
                            bck: seq<int>) {
    && |fwd| == |bck| == |lab|
    && 0 <= sym < |lab| && sym < k && sym in s
    && (if k < |lab| then lab[k] == lab[sym] else k == |lab| + 1)
    && IsLast(lab, lab[sym], s, false, k, oldEc)
    && IsLast(lab, lab[sym], s, true, k, newEc) && sym <= newEc < |lab|
    && IsPrev(lab, sym, bck[sym])
    && (forall z :: 0 <= z < sym && lab[z] == lab[sym] ==> z !in s)
    && SplitFwd(lab, s, sym, k, oldEc, newEc, fwd)
    && SplitBck(lab, s, sym, k, bck)
  }

  ghost predicate SplitFwd(lab: seq<int>, s: set<int>, sym: int, k: int, oldEc: int, newEc: int, fwd: seq<int>)
    requires |fwd| == |lab| && 0 <= sym < |lab|
  {
    forall x :: 0 <= x < |lab| && x != oldEc && x != newEc ==>
      if lab[x] == lab[sym] && k <= x then IsNext(lab, x, fwd[x])
      else IsNext(Bump(lab, lab[sym], s), x, fwd[x])
  }

  ghost predicate SplitBck(lab: seq<int>, s: set<int>, sym: int, k: int, bck: seq<int>)
    requires |bck| == |lab| && 0 <= sym < |lab|
  {
    forall x :: 0 <= x < |lab| && x != sym && (lab[x] == lab[sym] ==> x < k) ==>
      IsPrev(Bump(lab, lab[sym], s), x, bck[x])
  }

  lemma SplitInit(lab: seq<int>, s: set<int>, sym: int, fwd: seq<int>, bck: seq<int>)
    requires Linked(lab, fwd, bck) && 0 <= sym < |lab| && sym in s
    requires forall z :: 0 <= z < sym && lab[z] == lab[sym] ==> z !in s
    ensures Splitting(lab, s, sym, fwd[sym], bck[sym], sym, fwd, bck)
  {
    var r := Bump(lab, lab[sym], s);
    assert IsNext(lab, sym, fwd[sym]) && IsPrev(lab, sym, bck[sym]);
    forall x | 0 <= x < |lab| && x != sym && x != bck[sym]
      ensures if lab[x] == lab[sym] && fwd[sym] <= x then IsNext(lab, x, fwd[x]) else IsNext(r, x, fwd[x])
    {
      assert IsNext(lab, x, fwd[x]);
    }
    forall x | 0 <= x < |lab| && x != sym && (lab[x] == lab[sym] ==> x < fwd[sym])
      ensures IsPrev(r, x, bck[x])
    {
      assert IsPrev(lab, x, bck[x]);
    }
  }

  /** The list `k` joins ends in this symbol. */
  ghost function Tail(s: set<int>, k: int, oldEc: int, newEc: int): int {
    if k in s then newEc else oldEc
  }

  ghost function Relink(fwd: seq<int>, e: int, y: int): seq<int>
    requires e == |fwd| + 1 || 0 <= e < |fwd|
  {
    if e == |fwd| + 1 then fwd else fwd[e := y]
  }

  lemma StepLast(lab: seq<int>, c: int, s: set<int>, b: bool, k: int, k': int, e: int)
    requires 0 <= k < |lab| && lab[k] == c && IsNext(lab, k, k') && IsLast(lab, c, s, b, k, e)
    ensures IsLast(lab, c, s, b, k', if (k in s) == b then k else e)
  {
  }

  lemma StepFwd(lab: seq<int>, s: set<int>, sym: int, k: int, oldEc: int, newEc: int, fwd: seq<int>, x: int)
    requires |fwd| == |lab| && 0 <= sym < k < |lab| && lab[k] == lab[sym] && 0 <= x < |lab|
    requires IsLast(lab, lab[sym], s, false, k, oldEc) && IsLast(lab, lab[sym], s, true, k, newEc)
    requires SplitFwd(lab, s, sym, k, oldEc, newEc, fwd) && IsNext(lab, k, fwd[k])
    requires x != k && x != (if k in s then oldEc else newEc)
    ensures var y := Relink(fwd, Tail(s, k, oldEc, newEc), k)[x];
            if lab[x] == lab[sym] && fwd[k] <= x then IsNext(lab, x, y) else IsNext(Bump(lab, lab[sym], s), x, y)
  {
  }

  lemma StepBck(lab: seq<int>, s: set<int>, sym: int, k: int, k': int, oldEc: int, newEc: int, bck: seq<int>, x: int)
    requires |bck| == |lab| && 0 <= sym < k < |lab| && lab[k] == lab[sym] && 0 <= x < |lab|
    requires IsLast(lab, lab[sym], s, false, k, oldEc) && IsLast(lab, lab[sym], s, true, k, newEc)
    requires SplitBck(lab, s, sym, k, bck) && IsNext(lab, k, k')
    requires x != sym && (lab[x] == lab[sym] ==> x < k')
    ensures IsPrev(Bump(lab, lab[sym], s), x, bck[k := Tail(s, k, oldEc, newEc)][x])
  {
  }

  /** One symbol moves over to the end of its new list. */
  lemma SplitStep(lab: seq<int>, s: set<int>, sym: int, k: int, oldEc: int, newEc: int, fwd: seq<int>, bck: seq<int>)
    requires Splitting(lab, s, sym, k, oldEc, newEc, fwd, bck) && k < |lab|
    ensures var e := Tail(s, k, oldEc, newEc);
            k < fwd[k] && (e == |lab| + 1 || 0 <= e < k) &&
            Splitting(lab, s, sym, fwd[k], if k in s then oldEc else k, if k in s then k else newEc,
                      Relink(fwd, e, k), bck[k := e])
  {
    assert k != oldEc && k != newEc;
    assert IsNext(lab, k, fwd[k]);
    StepLast(lab, lab[sym], s, false, k, fwd[k], oldEc);
    StepLast(lab, lab[sym], s, true, k, fwd[k], newEc);
    forall x | 0 <= x < |lab| && x != k && x != (if k in s then oldEc else newEc)
      ensures var y := Relink(fwd, Tail(s, k, oldEc, newEc), k)[x];
              if lab[x] == lab[sym] && fwd[k] <= x then IsNext(lab, x, y) else IsNext(Bump(lab, lab[sym], s), x, y)
    {
      StepFwd(lab, s, sym, k, oldEc, newEc, fwd, x);
    }
    forall x | 0 <= x < |lab| && x != sym && (lab[x] == lab[sym] ==> x < fwd[k])
      ensures IsPrev(Bump(lab, lab[sym], s), x, bck[k := Tail(s, k, oldEc, newEc)][x])
    {
      StepBck(lab, s, sym, k, fwd[k], oldEc, newEc, bck, x);
    }
  }

  lemma FinishFwd(lab: seq<int>, s: set<int>, sym: int, k: int, oldEc: int, newEc: int, fwd: seq<int>, x: int)
    requires |fwd| == |lab| <= k && 0 <= sym < |lab| && 0 <= x < |lab|
    requires IsLast(lab, lab[sym], s, false, k, oldEc) && IsLast(lab, lab[sym], s, true, k, newEc)
    requires SplitFwd(lab, s, sym, k, oldEc, newEc, fwd)
    ensures IsNext(Bump(lab, lab[sym], s), x, if x == oldEc || x == newEc then |lab| + 1 else fwd[x])
  {
  }

  lemma FinishBck(lab: seq<int>, s: set<int>, sym: int, k: int, bck: seq<int>, x: int)
    requires |bck| == |lab| <= k && 0 <= sym < |lab| && 0 <= x < |lab| && sym in s
    requires forall z :: 0 <= z < sym && lab[z] == lab[sym] ==> z !in s
    requires SplitBck(lab, s, sym, k, bck)
    ensures IsPrev(Bump(lab, lab[sym], s), x, if x == sym then |lab| + 1 else bck[x])
  {
  }

  lemma SplitFinish(lab: seq<int>, s: set<int>, sym: int, k: int, oldEc: int, newEc: int, fwd: seq<int>, bck: seq<int>)
    requires Splitting(lab, s, sym, k, oldEc, newEc, fwd, bck) && |lab| <= k
    ensures 0 <= sym < |lab| && 0 <= newEc < |lab| && (oldEc == |lab| + 1 || 0 <= oldEc < |lab|)
    ensures bck[sym] != |lab| + 1 ==> oldEc != |lab| + 1
    ensures Linked(Bump(lab, lab[sym], s), Relink(fwd, oldEc, |lab| + 1)[newEc := |lab| + 1], bck[sym := |lab| + 1])
  {
    var fwd' := Relink(fwd, oldEc, |lab| + 1)[newEc := |lab| + 1];
    var bck' := bck[sym := |lab| + 1];
    forall x | 0 <= x < |lab|
      ensures IsNext(Bump(lab, lab[sym], s), x, fwd'[x])
    {
      FinishFwd(lab, s, sym, k, oldEc, newEc, fwd, x);
    }
    forall x | 0 <= x < |lab|
      ensures IsPrev(Bump(lab, lab[sym], s), x, bck'[x])
    {
      FinishBck(lab, s, sym, k, bck, x);
    }
  }

  /** Flags record the members of the pivot's class found below `k`. */
  ghost predicate Flagged(lab: seq<int>, csyms: seq<int>, i: nat, k: int, before: seq<int>, after: seq<int>) {
    && |before| == |after| && i < |csyms| <= |after| && (forall m :: 0 <= m < |csyms| ==> 0 <= csyms[m] < |lab|)
    && forall m :: 0 <= m < |after| ==>
         after[m] == if i < m < |csyms| && lab[csyms[m]] == lab[csyms[i]] && csyms[m] < k then 1 else before[m]
  }

  lemma FlagInit(lab: seq<int>, csyms: seq<int>, i: nat, k: int, flags: seq<int>)
    requires i < |csyms| <= |flags| && StrictlySorted(csyms) && (forall m :: 0 <= m < |csyms| ==> 0 <= csyms[m] < |lab|)
    requires IsNext(lab, csyms[i], k)
    ensures Flagged(lab, csyms, i, k, flags, flags)
  {
  }

  lemma FlagEnd(lab: seq<int>, csyms: seq<int>, i: nat, k: int, before: seq<int>, flags: seq<int>)
    requires Flagged(lab, csyms, i, k, before, flags) && |lab| <= k
    ensures Flagged(lab, csyms, i, |lab|, before, flags)
  {
  }

  lemma FlagStep(lab: seq<int>, csyms: seq<int>, i: nat, j: nat, k: int, k': int, before: seq<int>, flags: seq<int>)
    requires Flagged(lab, csyms, i, k, before, flags) && StrictlySorted(csyms)
    requires 0 <= k < |lab| && lab[k] == lab[csyms[i]] && IsNext(lab, k, k')
    requires i < j <= |csyms| && (forall m :: i < m < j ==> csyms[m] < k) && (j < |csyms| ==> k <= csyms[j])
    requires csyms[i] < k
    ensures Flagged(lab, csyms, i, k', before, if j < |csyms| && csyms[j] == k then flags[j := 1] else flags)
  {
  }

  lemma FoundIff(csyms: seq<int>, i: nat, j: nat, k: int)
    requires StrictlySorted(csyms) && i < j <= |csyms| && csyms[i] < k
    requires (forall m :: i < m < j ==> csyms[m] < k) && (j < |csyms| ==> k <= csyms[j])
    ensures k in Elems(csyms) <==> j < |csyms| && csyms[j] == k
  {
    if k in Elems(csyms) {
      var m :| 0 <= m < |csyms| && csyms[m] == k;
    }
  }

  lemma NoneBelow(lab: seq<int>, csyms: seq<int>, i: nat)
    requires StrictlySorted(csyms) && i < |csyms| && (forall m :: 0 <= m < |csyms| ==> 0 <= csyms[m] < |lab|)
    requires forall m :: 0 <= m < i ==> lab[csyms[m]] != lab[csyms[i]]
    ensures forall z :: 0 <= z < csyms[i] && lab[z] == lab[csyms[i]] ==> z !in Elems(csyms)
  {
    forall z | 0 <= z < csyms[i] && z in csyms
      ensures lab[z] != lab[csyms[i]]
    {
      var m :| 0 <= m < |csyms| && csyms[m] == z;
    }
  }

  lemma {:induction false} SortedLength(csyms: seq<int>, n: nat)
    requires StrictlySorted(csyms) && (forall m :: 0 <= m < |csyms| ==> 0 <= csyms[m] < n)
    ensures |csyms| <= n
    decreases n
  {
    if csyms != [] {
      var last := csyms[|csyms| - 1];
      SortedLength(csyms[..|csyms| - 1], last);
    }
  }

  /** The symbols that carry the label of `sym`. */
  ghost function Members(lab: seq<int>, sym: int): set<int>
    requires 0 <= sym < |lab|
  {
    set x | 0 <= x < |lab| && lab[x] == lab[sym]
  }

  /** The classes in `done` have been split by membership in `s`, the others not yet. */
  ghost predicate Progress(lab0: seq<int>, lab: seq<int>, s: set<int>, done: set<int>) {
    && |lab0| == |lab|
    && (forall x, y :: 0 <= x < |lab| && 0 <= y < |lab| ==>
          (lab[x] == lab[y] <==> lab0[x] == lab0[y] && (x in done ==> (x in s <==> y in s))))
    && (forall x, y :: 0 <= x < |lab| && 0 <= y < |lab| && lab0[x] == lab0[y] ==> (x in done <==> y in done))
  }

  /** The members before `i` are done, and the flags mark the later ones that are. */
  ghost predicate Todo(csyms: seq<int>, i: nat, done: set<int>, flags: seq<int>) {
    && i <= |csyms| <= |flags|
    && (forall m :: 0 <= m < i ==> csyms[m] in done)
    && (forall m :: 0 <= m < |flags| ==> flags[m] == if i <= m < |csyms| && csyms[m] in done then 1 else 0)
  }

  lemma PassReady(csyms: seq<int>, i: nat, lab0: seq<int>, lab: seq<int>, s: set<int>, done: set<int>, flags: seq<int>)
    requires Progress(lab0, lab, s, done) && Todo(csyms, i, done, flags) && i < |csyms| && csyms[i] !in done
    requires forall m :: 0 <= m < |csyms| ==> 0 <= csyms[m] < |lab|
    ensures forall m :: 0 <= m < i ==> lab[csyms[m]] != lab[csyms[i]]
    ensures forall m :: i < m < |csyms| && lab[csyms[m]] == lab[csyms[i]] ==> flags[m] == 0
  {
  }

  lemma ProgressStep(lab0: seq<int>, lab: seq<int>, s: set<int>, done: set<int>, sym: int)
    requires Progress(lab0, lab, s, done) && 0 <= sym < |lab| && sym !in done
    ensures Progress(lab0, Bump(lab, lab[sym], s), s, done + Members(lab0, sym))
  {
    var r := Bump(lab, lab[sym], s);
    assert forall x :: 0 <= x < |lab| ==> (lab[x] == lab[sym] <==> lab0[x] == lab0[sym]);
  }

  lemma TodoStep(csyms: seq<int>, i: nat, lab0: seq<int>, lab: seq<int>, s: set<int>, done: set<int>, flags: seq<int>,
                 flags': seq<int>)
    requires Progress(lab0, lab, s, done) && Todo(csyms, i, done, flags) && i < |csyms| && csyms[i] !in done
    requires StrictlySorted(csyms) && Flagged(lab, csyms, i, |lab|, flags, flags')
    ensures Todo(csyms, i + 1, done + Members(lab0, csyms[i]), flags')
  {
    assert forall x :: 0 <= x < |lab| ==> (lab[x] == lab[csyms[i]] <==> lab0[x] == lab0[csyms[i]]);
  }

  lemma ProgressDone(lab0: seq<int>, lab: seq<int>, csyms: seq<int>, done: set<int>, used: seq<set<int>>)
    requires Progress(lab0, lab, Elems(csyms), done) && Separates(lab0, used)
    requires forall m :: 0 <= m < |csyms| ==> csyms[m] in done
    ensures Separates(lab, used + [Elems(csyms)])
  {
    forall x, y | 0 <= x < |lab| && 0 <= y < |lab|
      ensures lab[x] == lab[y] <==> Indistinct(used + [Elems(csyms)], x, y)
    {
      IndistinctExtend(used, Elems(csyms), x, y);
    }
  }

  /** `r` is the least symbol of the class of `x`. */
  ghost predicate IsLeader(lab: seq<int>, x: int, r: int)
    requires 0 <= x < |lab|
  {
    0 <= r <= x && lab[r] == lab[x] && forall z :: 0 <= z < r ==> lab[z] != lab[x]
  }

  /** The number of classes with a member below `n`. */
  ghost function Leaders(lab: seq<int>, n: nat): nat
    requires n <= |lab|
  {
    if n == 0 then 0 else Leaders(lab, n - 1) + (if IsLeader(lab, n - 1, n - 1) then 1 else 0)
  }

  lemma {:induction false} LeadersMonotone(lab: seq<int>, m: nat, n: nat)
    requires m < n <= |lab|
    ensures Leaders(lab, m) <= Leaders(lab, n)
    ensures IsLeader(lab, m, m) ==> Leaders(lab, m) < Leaders(lab, n)
    decreases n
  {
    if m < n - 1 {
      LeadersMonotone(lab, m, n - 1);
    }
  }

  /** The finished tables: least members as representatives, and classes numbered from `base` in their order. */
  ghost predicate Classes(lab: seq<int>, base: nat, rep: seq<int>, cls: seq<int>) {
    && |rep| == |cls| == |lab|
    && forall x :: 0 <= x < |lab| ==> IsLeader(lab, x, rep[x]) && cls[x] == base + Leaders(lab, rep[x])
  }

  /** The tables once the classes that begin below `n` are numbered. */
  ghost predicate ClassesBelow(lab: seq<int>, base: nat, n: nat, rep: seq<int>, cls: seq<int>) {
    && |rep| == |cls| == |lab|
    && forall x, r :: 0 <= x < |lab| && r < n && IsLeader(lab, x, r) ==> rep[x] == r && cls[x] == base + Leaders(lab, r)
  }

  lemma {:induction false} LeaderExists(lab: seq<int>, x: int, n: nat)
    requires 0 <= x < |lab| && n <= x && forall z :: 0 <= z < n ==> lab[z] != lab[x]
    ensures exists r :: IsLeader(lab, x, r)
    decreases x - n
  {
    if lab[n] == lab[x] {
      assert IsLeader(lab, x, n);
    } else {
      LeaderExists(lab, x, n + 1);
    }
  }

  lemma NextAfter(lab: seq<int>, fwd: seq<int>, bck: seq<int>, i: int)
    requires Linked(lab, fwd, bck) && 0 <= i < |lab|
    ensures IsNext(lab, i, fwd[i])
  {
  }

  /** The class led by `i` is numbered up to `j`, as all the classes that begin before it are. */
  ghost predicate Numbering(lab: seq<int>, base: nat, i: int, j: int, rep: seq<int>, cls: seq<int>) {
    && 0 <= i < |lab| && ClassesBelow(lab, base, i, rep, cls)
    && forall x :: i <= x < j && x < |lab| && lab[x] == lab[i] ==> rep[x] == i && cls[x] == base + Leaders(lab, i)
  }

  lemma NumberingStart(lab: seq<int>, base: nat, i: int, j: int, rep: seq<int>, cls: seq<int>)
    requires 0 <= i < |lab| && ClassesBelow(lab, base, i, rep, cls) && IsLeader(lab, i, i) && IsNext(lab, i, j)
    ensures i < j && (if j < |lab| then lab[j] == lab[i] else j == |lab| + 1)
    ensures |rep| == |cls| == |lab|
    ensures Numbering(lab, base, i, j, rep[i := i], cls[i := base + Leaders(lab, i)])
    ensures Leaders(lab, i + 1) == Leaders(lab, i) + 1
  {
  }

  lemma NumberingStep(lab: seq<int>, base: nat, i: int, j: int, j': int, rep: seq<int>, cls: seq<int>)
    requires Numbering(lab, base, i, j, rep, cls) && i < j < |lab| && lab[j] == lab[i] && IsLeader(lab, i, i)
    requires IsNext(lab, j, j')
    ensures Numbering(lab, base, i, j', rep[j := i], cls[j := cls[i]])
  {
    forall x, r | 0 <= x < |lab| && r < i && IsLeader(lab, x, r)
      ensures x != j
    {
    }
  }

  lemma NumberingDone(lab: seq<int>, base: nat, i: int, j: int, rep: seq<int>, cls: seq<int>)
    requires Numbering(lab, base, i, j, rep, cls) && |lab| <= j && IsLeader(lab, i, i)
    ensures ClassesBelow(lab, base, i + 1, rep, cls)
  {
  }

  lemma NilIffLeader(lab: seq<int>, fwd: seq<int>, bck: seq<int>, i: int)
    requires Linked(lab, fwd, bck) && 0 <= i < |lab|
    ensures bck[i] == |lab| + 1 <==> IsLeader(lab, i, i)
  {
    assert IsPrev(lab, i, bck[i]);
  }

  lemma SkipFollower(lab: seq<int>, base: nat, n: nat, rep: seq<int>, cls: seq<int>)
    requires n < |lab| && ClassesBelow(lab, base, n, rep, cls) && !IsLeader(lab, n, n)
    ensures ClassesBelow(lab, base, n + 1, rep, cls)
  {
    forall x, r | 0 <= x < |lab| && r < n + 1 && IsLeader(lab, x, r)
      ensures rep[x] == r && cls[x] == base + Leaders(lab, r)
    {
      LeaderSelf(lab, x, r);
    }
  }

  lemma AllNumbered(lab: seq<int>, base: nat, rep: seq<int>, cls: seq<int>)
    requires ClassesBelow(lab, base, |lab|, rep, cls)
    ensures Classes(lab, base, rep, cls)
  {
    forall x | 0 <= x < |lab|
      ensures IsLeader(lab, x, rep[x]) && cls[x] == base + Leaders(lab, rep[x])
    {
      LeaderExists(lab, x, 0);
    }
  }

  /** The partition `BuildECs` leaves behind is the coarsest one that respects every set in use. */
  lemma ClassesCoarsest(lab: seq<int>, used: seq<set<int>>, base: nat, rep: seq<int>, cls: seq<int>, x: int, y: int)
    requires Classes(lab, base, rep, cls) && Separates(lab, used)
    requires 0 <= x < |lab| && 0 <= y < |lab|
    ensures cls[x] == cls[y] <==> Indistinct(used, x, y)
    ensures rep[x] == rep[y] <==> Indistinct(used, x, y)
    ensures rep[x] <= x && Indistinct(used, x, rep[x]) && (Indistinct(used, x, y) ==> rep[x] <= y)
    ensures rep[x] < rep[y] <==> cls[x] < cls[y]
    ensures base <= cls[x] < base + Leaders(lab, |lab|)
  {
    LeaderSelf(lab, x, rep[x]);
    LeaderSelf(lab, y, rep[y]);
    if rep[x] < rep[y] {
      LeadersMonotone(lab, rep[x], rep[y]);
    } else if rep[y] < rep[x] {
      LeadersMonotone(lab, rep[y], rep[x]);
    }
    LeadersMonotone(lab, rep[x], |lab|);
  }

  lemma LeaderSelf(lab: seq<int>, x: int, r: int)
    requires 0 <= x < |lab| && IsLeader(lab, x, r)
    ensures IsLeader(lab, r, r)
  {
  }

  /** The numbers of the representatives in `csyms`. */
  function Converted(csyms: seq<int>, rep: seq<int>, cls: seq<int>): seq<int>
    requires |rep| == |cls| && forall m :: 0 <= m < |csyms| ==> 0 <= csyms[m] < |rep|
  {
    if csyms == [] then [] else
    var n := |csyms| - 1;
    Converted(csyms[..n], rep, cls) + (if rep[csyms[n]] == csyms[n] then [cls[csyms[n]]] else [])
  }

  lemma {:induction false} ConvertedMember(csyms: seq<int>, rep: seq<int>, cls: seq<int>, k: int)
    requires |rep| == |cls| && forall m :: 0 <= m < |csyms| ==> 0 <= csyms[m] < |rep|
    ensures k in Converted(csyms, rep, cls) <==>
            exists m :: 0 <= m < |csyms| && rep[csyms[m]] == csyms[m] && cls[csyms[m]] == k
  {
    if csyms != [] {
      var n := |csyms| - 1;
      ConvertedMember(csyms[..n], rep, cls, k);
      if m :| 0 <= m < |csyms| && rep[csyms[m]] == csyms[m] && cls[csyms[m]] == k {
        assert m == n || csyms[..n][m] == csyms[m];
      }
    }
  }

  lemma {:induction false} ConvertedSorted(lab: seq<int>, base: nat, csyms: seq<int>, rep: seq<int>, cls: seq<int>)
    requires Classes(lab, base, rep, cls) && StrictlySorted(csyms)
    requires forall m :: 0 <= m < |csyms| ==> 0 <= csyms[m] < |lab|
    ensures StrictlySorted(Converted(csyms, rep, cls))
  {
    if csyms != [] {
      var n := |csyms| - 1;
      var init := Converted(csyms[..n], rep, cls);
      ConvertedSorted(lab, base, csyms[..n], rep, cls);
      if rep[csyms[n]] == csyms[n] {
        forall k | k in init
          ensures k < cls[csyms[n]]
        {
          ConvertedMember(csyms[..n], rep, cls, k);
          var m :| 0 <= m < n && rep[csyms[m]] == csyms[m] && cls[csyms[m]] == k;
          LeaderSelf(lab, csyms[m], csyms[m]);
          LeadersMonotone(lab, csyms[m], csyms[n]);
        }
        assert forall i :: 0 <= i < |init| ==> init[i] in init;
      }
    }
  }

  /** A used character class holds a symbol exactly when its converted list holds the number of the symbol's class. */
  lemma ConvertedFaithful(lab: seq<int>, used: seq<set<int>>, base: nat, csyms: seq<int>, rep: seq<int>, cls: seq<int>,
                          c: int)
    requires Classes(lab, base, rep, cls) && Separates(lab, used) && Elems(csyms) in used
    requires forall m :: 0 <= m < |csyms| ==> 0 <= csyms[m] < |lab|
    requires 0 <= c < |lab|
    ensures c in csyms <==> cls[c] in Converted(csyms, rep, cls)
  {
    ConvertedMember(csyms, rep, cls, cls[c]);
    ClassesCoarsest(lab, used, base, rep, cls, c, rep[c]);
    var u :| 0 <= u < |used| && used[u] == Elems(csyms);
    assert c in used[u] <==> rep[c] in used[u];
    if c in csyms {
      var m :| 0 <= m < |csyms| && csyms[m] == rep[c];
      LeaderSelf(lab, c, rep[c]);
      assert rep[rep[c]] == rep[c];
    } else if m :| 0 <= m < |csyms| && rep[csyms[m]] == csyms[m] && cls[csyms[m]] == cls[c] {
      ClassesCoarsest(lab, used, base, rep, cls, c, csyms[m]);
    }
  }

  class EquivClass {
    const size: nat
    const fwd: array<int>
    const bck: array<int>
    const equivClass: array<int>
    const rep: array<int>
    const cclFlags: array<int>
    var numEcs: nat

    // the symbol sets told apart so far, and one label for each class of the resulting partition
    ghost var used: seq<set<int>>
    ghost var lab: seq<int>

    ghost predicate Shape() {
      && 0 < size
      && fwd.Length == size && bck.Length == size
      && equivClass.Length == size && rep.Length == size && cclFlags.Length == size
      && fwd != bck && fwd != equivClass && fwd != rep && fwd != cclFlags
      && bck != equivClass && bck != rep && bck != cclFlags
      && equivClass != rep && equivClass != cclFlags && rep != cclFlags
    }

    ghost predicate Valid()
      reads `used, `lab, fwd, bck, cclFlags
    {
      && Shape()
      && |lab| == size
      && Linked(lab, fwd[..], bck[..])
      && Separates(lab, used)
      && (forall x :: 0 <= x < size ==> cclFlags[x] == 0)
    }

    constructor (n: nat)
      requires 0 < n
      ensures Valid() && size == n && used == [] && numEcs == 0
      ensures fresh(fwd) && fresh(bck) && fresh(equivClass) && fresh(rep) && fresh(cclFlags)
    {
      size := n;
      numEcs := 0;
      used := [];
      lab := seq(n, _ => 0);
      fwd := new int[n](i => if i < n - 1 then i + 1 else n + 1);
      bck := new int[n](i => if i > 0 then i - 1 else n + 1);
      equivClass := new int[n](_ => n + 1);
      rep := new int[n](_ => n + 1);
      cclFlags := new int[n](_ => 0);
    }

    method UniqueChar(sym: int)
      requires Valid() && 0 <= sym < size
      modifies this, fwd, bck
      ensures Valid() && used == old(used) + [{sym}] && numEcs == old(numEcs)
    {
      var nil := size + 1;
      assert IsNext(lab, sym, fwd[..][sym]) && IsPrev(lab, sym, bck[..][sym]);
      if fwd[sym] != nil {
        bck[fwd[sym]] := bck[sym];
      }
      if bck[sym] != nil {
        fwd[bck[sym]] := fwd[sym];
      }
      fwd[sym] := nil;
      bck[sym] := nil;
      assert fwd[..] == CutFwd(old(fwd[..]), old(bck[..]), sym);
      assert bck[..] == CutBck(old(fwd[..]), old(bck[..]), sym);
      CutLinked(lab, old(fwd[..]), old(bck[..]), sym);
      RefineSeparates(lab, used, {sym});
      lab := Refine(lab, {sym});
      used := used + [{sym}];
    }

    /** Moves on from `j` to where symbol `k` is, or would be, in the sorted class. */
    method Seek(csyms: seq<int>, i: nat, j: nat, k: int) returns (r: nat)
      requires StrictlySorted(csyms) && |csyms| <= size == cclFlags.Length
      requires i < j <= |csyms| && (forall m :: i < m < j ==> csyms[m] < k)
      requires forall m :: i < m < |csyms| && csyms[m] == k ==> cclFlags[m] == 0
      ensures j <= r <= |csyms| && (forall m :: i < m < r ==> csyms[m] < k)
      ensures r < |csyms| ==> k <= csyms[r]
    {
      r := j;
      while r < |csyms| && csyms[r] <= k && !(csyms[r] == k && cclFlags[r] == 0)
        invariant j <= r <= |csyms| && (forall m :: i < m < r ==> csyms[m] < k)
      {
        r := r + 1;
      }
    }

    /** Hangs symbol `k` behind `e`. */
    method Hang(k: int, e: int)
      requires Shape() && 0 <= k < size && (e == size + 1 || 0 <= e < size)
      modifies fwd, bck
      ensures fwd[..] == Relink(old(fwd[..]), e, k) && bck[..] == old(bck[..])[k := e]
    {
      bck[k] := e;
      if e != size + 1 {
        fwd[e] := k;
      }
    }

    /** Ends both lists of a split class. */
    method EndLists(sym: int, oldEc: int, newEc: int)
      requires Shape() && 0 <= sym < size && 0 <= newEc < size && (oldEc == size + 1 || 0 <= oldEc < size)
      requires bck[sym] != size + 1 ==> oldEc != size + 1
      modifies fwd, bck
      ensures fwd[..] == Relink(old(fwd[..]), oldEc, size + 1)[newEc := size + 1]
      ensures bck[..] == old(bck[..])[sym := size + 1]
    {
      if bck[sym] != size + 1 || oldEc != bck[sym] {
        bck[sym] := size + 1;
        fwd[oldEc] := size + 1;
      }
      fwd[newEc] := size + 1;
    }

    method FinishSplit(ghost s: set<int>, ghost k: int, sym: int, oldEc: int, newEc: int)
      requires Shape() && |lab| == size <= k && 0 <= sym < size
      requires Splitting(lab, s, sym, k, oldEc, newEc, fwd[..], bck[..])
      modifies fwd, bck
      ensures Linked(Bump(lab, lab[sym], s), fwd[..], bck[..])
    {
      hide Linked, Splitting;
      SplitFinish(lab, s, sym, k, oldEc, newEc, fwd[..], bck[..]);
      EndLists(sym, oldEc, newEc);
    }

    /** Moves the companion `k` of the pivot `csyms[i]` to its new list. */
    method MoveOver(csyms: seq<int>, i: nat, j: nat, k: int, oldEc: int, newEc: int, ghost before: seq<int>)
      returns (j': nat, k': int, oldEc': int, newEc': int)
      requires Shape() && |lab| == size && |csyms| <= size && StrictlySorted(csyms)
      requires i < j <= |csyms| && (forall m :: i < m < j ==> csyms[m] < k)
      requires 0 <= k < size && Splitting(lab, Elems(csyms), csyms[i], k, oldEc, newEc, fwd[..], bck[..])
      requires Flagged(lab, csyms, i, k, before, cclFlags[..])
      requires forall m :: i < m < |csyms| && lab[csyms[m]] == lab[csyms[i]] ==> before[m] == 0
      modifies fwd, bck, cclFlags
      ensures k < k' && Splitting(lab, Elems(csyms), csyms[i], k', oldEc', newEc', fwd[..], bck[..])
      ensures i < j' <= |csyms| && (forall m :: i < m < j' ==> csyms[m] < k')
      ensures Flagged(lab, csyms, i, k', before, cclFlags[..])
    {
      j' := Seek(csyms, i, j, k);
      SplitStep(lab, Elems(csyms), csyms[i], k, oldEc, newEc, fwd[..], bck[..]);
      FoundIff(csyms, i, j', k);
      ghost var flags := cclFlags[..];
      k' := fwd[k];
      oldEc', newEc' := oldEc, newEc;
      if j' < |csyms| && csyms[j'] == k {
        Hang(k, newEc);
        newEc' := k;
        cclFlags[j'] := 1;
      } else {
        Hang(k, oldEc);
        oldEc' := k;
      }
      FlagStep(lab, csyms, i, j', k, k', before, flags);
      assert cclFlags[..] == if j' < |csyms| && csyms[j'] == k then flags[j' := 1] else flags;
    }

    /** One pass of `CCL_Use`: splits the class of the pivot `csyms[i]` into its members inside and
        outside the character class, and flags the members found. */
    method SplitClass(csyms: seq<int>, i: nat)
      requires Shape() && |lab| == size && Linked(lab, fwd[..], bck[..])
      requires StrictlySorted(csyms) && |csyms| <= size && (forall m :: 0 <= m < |csyms| ==> 0 <= csyms[m] < size)
      requires i < |csyms|
      requires forall m :: 0 <= m < i ==> lab[csyms[m]] != lab[csyms[i]]
      requires forall m :: i < m < |csyms| && lab[csyms[m]] == lab[csyms[i]] ==> cclFlags[m] == 0
      modifies fwd, bck, cclFlags
      ensures Linked(Bump(lab, lab[csyms[i]], Elems(csyms)), fwd[..], bck[..])
      ensures Flagged(lab, csyms, i, size, old(cclFlags[..]), cclFlags[..])
    {
      var sym := csyms[i];
      var oldEc := bck[sym];
      var newEc := sym;
      var j := i + 1;
      var k := fwd[sym];
      NoneBelow(lab, csyms, i);
      assert IsNext(lab, sym, fwd[..][sym]);
      FlagInit(lab, csyms, i, k, cclFlags[..]);
      assert sym in Elems(csyms);
      SplitInit(lab, Elems(csyms), sym, fwd[..], bck[..]);
      while k != 0 && k < size
        invariant Splitting(lab, Elems(csyms), sym, k, oldEc, newEc, fwd[..], bck[..])
        invariant i < j <= |csyms| && (forall m :: i < m < j ==> csyms[m] < k)
        invariant Flagged(lab, csyms, i, k, old(cclFlags[..]), cclFlags[..])
        decreases size - k
      {
        j, k, oldEc, newEc := MoveOver(csyms, i, j, k, oldEc, newEc, old(cclFlags[..]));
      }
      FlagEnd(lab, csyms, i, k, old(cclFlags[..]), cclFlags[..]);
      FinishSplit(Elems(csyms), k, sym, oldEc, newEc);
    }

    /** Clears the flags of the members after `i` that are done, up to the next one to process. */
    method NextMember(csyms: seq<int>, i: nat, ghost done: set<int>) returns (r: nat)
      requires |csyms| <= cclFlags.Length && Todo(csyms, i, done, cclFlags[..])
      modifies cclFlags
      ensures i <= r <= |csyms| && Todo(csyms, r, done, cclFlags[..]) && (r < |csyms| ==> csyms[r] !in done)
    {
      r := i;
      while r < |csyms| && cclFlags[r] != 0
        invariant i <= r <= |csyms|
        invariant Todo(csyms, r, done, cclFlags[..])
      {
        cclFlags[r] := 0;
        r := r + 1;
      }
    }

    /** `CCL_Use`: tells the members of a sorted character class apart from the other symbols. */
    method CclUse(csyms: seq<int>)
      requires Valid() && StrictlySorted(csyms) && (forall m :: 0 <= m < |csyms| ==> 0 <= csyms[m] < size)
      modifies this, fwd, bck, cclFlags
      ensures Valid() && used == old(used) + [Elems(csyms)] && numEcs == old(numEcs)
    {
      SortedLength(csyms, size);
      ghost var s := Elems(csyms);
      ghost var lab0 := lab;
      ghost var done: set<int> := {};
      var i := 0;
      while i < |csyms|
        invariant 0 <= i <= |csyms| <= size
        invariant |lab| == size && Linked(lab, fwd[..], bck[..])
        invariant Progress(lab0, lab, s, done)
        invariant Todo(csyms, i, done, cclFlags[..])
        invariant i < |csyms| ==> csyms[i] !in done
        invariant used == old(used) && numEcs == old(numEcs)
      {
        PassReady(csyms, i, lab0, lab, s, done, cclFlags[..]);
        ghost var flags := cclFlags[..];
        SplitClass(csyms, i);
        ProgressStep(lab0, lab, s, done, csyms[i]);
        TodoStep(csyms, i, lab0, lab, s, done, flags, cclFlags[..]);
        done := done + Members(lab0, csyms[i]);
        lab := Bump(lab, lab[csyms[i]], s);
        i := NextMember(csyms, i + 1, done);
      }
      ProgressDone(lab0, lab, csyms, done, used);
      used := used + [s];
    }

    /** Numbers the class led by `i`. */
    method NumberClass(i: int, ghost base: nat)
      requires Valid() && 0 <= i < size && IsLeader(lab, i, i)
      requires numEcs == base + Leaders(lab, i)
      requires ClassesBelow(lab, base, i, rep[..], equivClass[..])
      modifies `numEcs, equivClass, rep
      ensures numEcs == base + Leaders(lab, i + 1)
      ensures ClassesBelow(lab, base, i + 1, rep[..], equivClass[..])
    {
      hide Linked, ClassesBelow, Numbering, IsLeader, Separates;
      NextAfter(lab, fwd[..], bck[..], i);
      NumberingStart(lab, base, i, fwd[i], rep[..], equivClass[..]);
      ghost var r, c := rep[..], equivClass[..];
      equivClass[i] := numEcs;
      numEcs := numEcs + 1;
      rep[i] := i;
      var j := fwd[i];
      assert rep[..] == r[i := i] && equivClass[..] == c[i := base + Leaders(lab, i)];
      while j != size + 1
        invariant i < j && (if j < size then lab[j] == lab[i] else j == size + 1)
        invariant numEcs == base + Leaders(lab, i + 1) && Numbering(lab, base, i, j, rep[..], equivClass[..])
        decreases size + 1 - j
      {
        j := NumberMember(i, j, base);
      }
      NumberingDone(lab, base, i, j, rep[..], equivClass[..]);
    }

    /** Gives one more member of the class led by `i` its number and representative. */
    method NumberMember(i: int, j: int, ghost base: nat) returns (j': int)
      requires Valid() && 0 <= i < j < size && lab[j] == lab[i] && IsLeader(lab, i, i)
      requires Numbering(lab, base, i, j, rep[..], equivClass[..])
      modifies equivClass, rep
      ensures j < j' && (if j' < size then lab[j'] == lab[i] else j' == size + 1)
      ensures Numbering(lab, base, i, j', rep[..], equivClass[..])
    {
      NextAfter(lab, fwd[..], bck[..], j);
      ghost var r, c := rep[..], equivClass[..];
      equivClass[j] := equivClass[i];
      rep[j] := i;
      j' := fwd[j];
      assert rep[..] == r[j := i] && equivClass[..] == c[j := c[i]];
      NumberingStep(lab, base, i, j, j', r, c);
    }

    method VisitSymbol(i: int, ghost base: nat)
      requires Valid() && 0 <= i < size && numEcs == base + Leaders(lab, i)
      requires ClassesBelow(lab, base, i, rep[..], equivClass[..])
      modifies `numEcs, equivClass, rep
      ensures numEcs == base + Leaders(lab, i + 1)
      ensures ClassesBelow(lab, base, i + 1, rep[..], equivClass[..])
    {
      NilIffLeader(lab, fwd[..], bck[..], i);
      if bck[i] == size + 1 {
        NumberClass(i, base);
      } else {
        SkipFollower(lab, base, i, rep[..], equivClass[..]);
      }
    }

    /** `BuildECs`: numbers the classes in the order of their least members. */
    method BuildECs() returns (n: nat)
      requires Valid()
      modifies `numEcs, equivClass, rep
      ensures Valid() && n == numEcs == old(numEcs) + Leaders(lab, size)
      ensures Classes(lab, old(numEcs), rep[..], equivClass[..])
    {
      ghost var base := numEcs;
      for i := 0 to size
        invariant Valid() && numEcs == base + Leaders(lab, i)
        invariant ClassesBelow(lab, base, i, rep[..], equivClass[..])
      {
        VisitSymbol(i, base);
      }
      AllNumbered(lab, base, rep[..], equivClass[..]);
      n := numEcs;
    }

    /** `ConvertCCL`: the class numbers of a character class, listed through the representatives it holds. */
    method ConvertCCL(csyms: seq<int>) returns (r: seq<int>)
      requires Shape() && forall m :: 0 <= m < |csyms| ==> 0 <= csyms[m] < size
      ensures r == Converted(csyms, rep[..], equivClass[..])
    {
      r := [];
      for i := 0 to |csyms|
        invariant r == Converted(csyms[..i], rep[..], equivClass[..])
      {
        var sym := csyms[i];
        assert csyms[..i + 1][..i] == csyms[..i];
        if rep[sym] == sym {
          r := r + [equivClass[sym]];
        }
      }
      assert csyms[..|csyms|] == csyms;
    }
  }
}
