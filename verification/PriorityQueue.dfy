/** The heap of src/PriorityQueue.cc, whose slots are numbered from 0 although children and parents are found by
    shifting: slot 0 has the one child 1, and every other slot `b` the children `2b` and `2b + 1`. */
module PriorityQueues {

  /** A time, or less than any (`-HUGE_VAL`). */
  datatype Time = Least | At(t: real)

  predicate Less(a: Time, b: Time) {
    b.At? && (a.Least? || a.t < b.t)
  }

  /** Times that elements may be queued with, in order. */
  predicate InTime(a: Time, b: Time) {
    a.At? && b.At? && a.t <= b.t
  }

  function Parent(bin: nat): nat {
    bin / 2
  }

  function LeftChild(bin: nat): nat {
    2 * bin
  }

  function RightChild(bin: nat): nat {
    LeftChild(bin) + 1
  }

  // ----- the order of the times in the slots -----

  /** No slot holds an earlier time than its parent. */
  ghost predicate Ordered(ts: seq<Time>) {
    forall i :: 1 <= i < |ts| ==> !Less(ts[i], ts[Parent(i)])
  }

  /** Ordered but for slot `b`, which may be too early for where it is. */
  ghost predicate OrderedAbove(ts: seq<Time>, b: nat) {
    && b < |ts|
    && (forall i :: 1 <= i < |ts| && i != b ==> !Less(ts[i], ts[Parent(i)]))
    && (forall i :: 1 <= i < |ts| && i != b && Parent(i) == b ==> !Less(ts[i], ts[Parent(b)]))
  }

  /** Ordered but for slot `b`, which may be too late for where it is. */
  ghost predicate OrderedBelow(ts: seq<Time>, b: nat) {
    && b < |ts|
    && (forall i :: 1 <= i < |ts| && Parent(i) != b ==> !Less(ts[i], ts[Parent(i)]))
    && (b > 0 ==> forall i :: 1 <= i < |ts| && Parent(i) == b ==> !Less(ts[i], ts[Parent(b)]))
  }

  function Swapped<T>(s: seq<T>, i: nat, j: nat): (r: seq<T>)
    requires i < |s| && j < |s|
    ensures |r| == |s|
  {
    s[i := s[j]][j := s[i]]
  }

  /** The top of an ordered heap is the least. */
  lemma {:induction false} TopLeast(ts: seq<Time>, i: nat)
    requires Ordered(ts) && i < |ts|
    ensures !Less(ts[i], ts[0])
    decreases i
  {
    if i > 0 {
      TopLeast(ts, Parent(i));
    }
  }

  lemma UpStep(ts: seq<Time>, b: nat)
    requires OrderedAbove(ts, b) && b > 0 && Less(ts[b], ts[Parent(b)])
    ensures OrderedAbove(Swapped(ts, Parent(b), b), Parent(b))
  {
    var p := Parent(b);
    var ts' := Swapped(ts, p, b);
    forall i | 1 <= i < |ts'| && i != p
      ensures !Less(ts'[i], ts'[Parent(i)])
    {
    }
    forall i | 1 <= i < |ts'| && i != p && Parent(i) == p
      ensures !Less(ts'[i], ts'[Parent(p)])
    {
      assert p > 0 ==> !Less(ts[p], ts[Parent(p)]);
    }
  }

  lemma UpDone(ts: seq<Time>, b: nat)
    requires OrderedAbove(ts, b) && (b > 0 ==> !Less(ts[b], ts[Parent(b)]))
    ensures Ordered(ts)
  {
  }

  /** No child of `b` is earlier than slot `c`. */
  ghost predicate NoneEarlier(ts: seq<Time>, b: nat, c: nat) {
    c < |ts| && forall i :: 1 <= i < |ts| && i != b && Parent(i) == b ==> !Less(ts[i], ts[c])
  }

  /** `c` is the child of `b` to change places with. */
  ghost predicate SinksTo(ts: seq<Time>, b: nat, c: nat) {
    b < c < |ts| && Parent(c) == b && Less(ts[c], ts[b]) && NoneEarlier(ts, b, c)
  }

  /** The earlier child takes the place of a slot that is too late. */
  lemma DownStep(ts: seq<Time>, b: nat, c: nat)
    requires OrderedBelow(ts, b) && SinksTo(ts, b, c)
    ensures OrderedBelow(Swapped(ts, c, b), c)
  {
    var ts' := Swapped(ts, c, b);
    forall i | 1 <= i < |ts'| && Parent(i) != c
      ensures !Less(ts'[i], ts'[Parent(i)])
    {
      assert b > 0 ==> !Less(ts[c], ts[Parent(b)]);
    }
    forall i | 1 <= i < |ts'| && i != c && Parent(i) == c
      ensures !Less(ts'[i], ts'[Parent(c)])
    {
      assert !Less(ts[i], ts[Parent(i)]);
    }
  }

  lemma DownDone(ts: seq<Time>, b: nat)
    requires OrderedBelow(ts, b) && NoneEarlier(ts, b, b)
    ensures Ordered(ts)
  {
  }

  lemma SwapKeeps<T>(s: seq<T>, i: nat, j: nat)
    requires i < |s| && j < |s|
    ensures multiset(Swapped(s, i, j)) == multiset(s)
  {
  }

  // ----- the queue -----

  class PqElement {
    var time: Time
    var offset: int

    constructor (t: Time)
      ensures time == t && offset == -1
    {
      time, offset := t, -1;
    }
  }

  ghost function TimesOf(es: seq<PqElement>): (ts: seq<Time>)
    reads es`time
    ensures |ts| == |es| && forall i :: 0 <= i < |es| ==> ts[i] == es[i].time
  {
    if es == [] then [] else TimesOf(es[..|es| - 1]) + [es[|es| - 1].time]
  }

  lemma TimesSwapped(es: seq<PqElement>, i: nat, j: nat)
    requires i < |es| && j < |es|
    ensures TimesOf(Swapped(es, i, j)) == Swapped(TimesOf(es), i, j)
  {
    hide TimesOf;
  }

  class PriorityQueue {
    var heap: array<PqElement?>
    var heapSize: nat
    var peakHeapSize: nat
    var maxHeapSize: nat
    // the elements in the slots in use
    ghost var slots: seq<PqElement>

    /** Each element in use is in its slot and knows which one. */
    ghost predicate Linked()
      reads this, heap, slots
    {
      && |slots| <= heap.Length == maxHeapSize
      && forall i :: 0 <= i < |slots| ==> heap[i] == slots[i] && slots[i].offset == i
    }

    ghost predicate Valid()
      reads this, heap, slots
    {
      && Linked() && heapSize == |slots| <= peakHeapSize && |slots| < maxHeapSize
      && Ordered(TimesOf(slots)) && AllAt(slots)
    }

    constructor (initialSize: nat)
      requires initialSize > 0
      ensures Valid() && slots == [] && fresh(heap)
    {
      maxHeapSize := initialSize;
      heap := new PqElement?[initialSize](_ => null);
      heapSize, peakHeapSize, slots := 0, 0, [];
    }

    method Swap(i: nat, j: nat)
      requires Linked() && i < |slots| && j < |slots| && i != j
      modifies `slots, heap, slots`offset
      ensures Linked() && slots == Swapped(old(slots), i, j)
    {
      var t := heap[i];
      heap[i] := heap[j];
      heap[i].offset := i;
      heap[j] := t;
      t.offset := j;
      slots := Swapped(slots, i, j);
    }

    /** The swap seen from the times, and from the elements. */
    method Exchange(i: nat, j: nat)
      requires Linked() && i < |slots| && j < |slots| && i != j
      modifies `slots, heap, slots`offset
      ensures Linked() && TimesOf(slots) == Swapped(old(TimesOf(slots)), i, j)
      ensures multiset(slots) == multiset(old(slots)) && |slots| == |old(slots)|
      ensures forall k :: 0 <= k < |slots| ==> slots[k] in old(slots)
    {
      hide Swapped;
      SwapKeeps(slots, i, j);
      TimesSwapped(slots, i, j);
      Swap(i, j);
      SameMembers(slots, old(slots));
    }

    /** `BubbleUp`: lets the element of a slot rise to where it belongs. */
    method BubbleUp(bin: nat)
      requires Linked() && OrderedAbove(TimesOf(slots), bin)
      modifies `slots, heap, slots`offset
      ensures Linked() && Ordered(TimesOf(slots)) && multiset(slots) == multiset(old(slots))
      decreases bin
    {
      hide Ordered, OrderedAbove, Swapped;
      if bin == 0 {
        UpDone(TimesOf(slots), bin);
        return;
      }
      InRange(TimesOf(slots), bin);
      var p := Parent(bin);
      if Less(heap[bin].time, heap[p].time) {
        UpStep(TimesOf(slots), bin);
        Exchange(p, bin);
        BubbleUp(p);
      } else {
        UpDone(TimesOf(slots), bin);
      }
    }

    /** `BubbleDown`: lets the element of a slot sink to where it belongs. (Below a left child without a brother
        there is nothing left to do.) */
    method BubbleDown(bin: nat)
      requires Linked() && heapSize == |slots| && OrderedBelow(TimesOf(slots), bin)
      modifies `slots, heap, slots`offset
      ensures Linked() && heapSize == |slots| && Ordered(TimesOf(slots)) && multiset(slots) == multiset(old(slots))
      decreases |slots| - bin
    {
      hide Ordered, OrderedBelow, Swapped, NoneEarlier, SinksTo;
      BelowRange(TimesOf(slots), bin);
      var c := SinkTo(bin);
      if c != bin {
        DownStep(TimesOf(slots), bin, c);
        Exchange(c, bin);
        BubbleDown(c);
      } else {
        DownDone(TimesOf(slots), bin);
      }
    }

    /** The child to change places with, or the slot itself if it is in place. Slot 0 is its own left child, but
        it never is too late for itself. */
    method SinkTo(bin: nat) returns (c: nat)
      requires Linked() && heapSize == |slots| && bin < |slots|
      ensures if c == bin then NoneEarlier(TimesOf(slots), bin, bin) else SinksTo(TimesOf(slots), bin, c)
      ensures c < |slots| && (c != bin ==> bin < c)
    {
      var v := heap[bin].time;
      var l, r := LeftChild(bin), RightChild(bin);
      assert forall i {:trigger Parent(i)} :: Parent(i) == bin ==> i == l || i == r;
      c := bin;
      if l >= heapSize {
        return;
      }
      if r >= heapSize {
        if Less(heap[l].time, v) {
          c := l;
        }
      } else {
        var lv, rv := heap[l].time, heap[r].time;
        if Less(lv, rv) {
          if Less(lv, v) {
            c := l;
          }
        } else if Less(rv, v) {
          c := r;
        }
      }
    }

    /** `Top`: an element with the least time, or none. */
    method Top() returns (e: PqElement?)
      requires Valid()
      ensures e == null <==> slots == []
      ensures e != null ==> e in slots && forall x :: x in slots ==> InTime(e.time, x.time)
    {
      if heapSize == 0 {
        return null;
      }
      TopIsLeast();
      e := heap[0];
    }

    lemma TopIsLeast()
      requires slots != [] && Ordered(TimesOf(slots))
      ensures forall x :: x in slots ==> !Less(x.time, slots[0].time)
    {
      forall x | x in slots
        ensures !Less(x.time, slots[0].time)
      {
        var i :| 0 <= i < |slots| && slots[i] == x;
        TopLeast(TimesOf(slots), i);
      }
    }

    /** `Resize`: a larger array with the same elements. */
    method Resize(newSize: nat)
      requires maxHeapSize == heap.Length <= newSize && |slots| <= maxHeapSize
      requires forall i :: 0 <= i < |slots| ==> heap[i] == slots[i] && slots[i].offset == i
      modifies `heap, `maxHeapSize
      ensures fresh(heap) && maxHeapSize == heap.Length == newSize
      ensures forall i :: 0 <= i < |slots| ==> heap[i] == slots[i] && slots[i].offset == i
    {
      var tmp := new PqElement?[newSize](_ => null);
      for i := 0 to maxHeapSize
        invariant forall j :: 0 <= j < i ==> tmp[j] == heap[j]
        modifies tmp
      {
        tmp[i] := heap[i];
      }
      heap := tmp;
      maxHeapSize := newSize;
    }

    /** Puts an element behind the others. */
    method Append(e: PqElement)
      requires Linked() && heapSize == |slots| < maxHeapSize && e !in slots
      modifies `slots, heap, e`offset
      ensures Linked() && slots == old(slots) + [e] && TimesOf(slots) == old(TimesOf(slots)) + [e.time]
    {
      heap[heapSize] := e;
      e.offset := heapSize;
      slots := slots + [e];
    }

    /** Counts the element added, and makes room for the next. */
    method Count()
      requires Linked() && heapSize + 1 == |slots| && Ordered(TimesOf(slots)) && AllAt(slots)
      modifies `heapSize, `peakHeapSize, `heap, `maxHeapSize
      ensures Valid() && (heap == old(heap) || fresh(heap))
    {
      hide Ordered, TimesOf, AllAt;
      heapSize := heapSize + 1;
      if heapSize > peakHeapSize {
        peakHeapSize := heapSize;
      }
      if heapSize >= maxHeapSize {
        Resize(maxHeapSize * 2);
      }
    }

    /** `Add`: the element goes to the end and rises from there. */
    method Add(e: PqElement)
      requires Valid() && e !in slots && e.time.At?
      modifies this, heap, slots`offset, e`offset
      ensures Valid() && multiset(slots) == multiset(old(slots)) + multiset{e}
      ensures heap == old(heap) || fresh(heap)
    {
      hide Ordered, OrderedAbove, Linked, AllAt;
      ghost var es := slots + [e];
      AddedLast(TimesOf(slots), e.time);
      OneMoreAt(slots, e);
      Append(e);
      BubbleUp(heapSize);
      AllAtStill(slots, es);
      Count();
    }

    /** Takes the first element out by putting the last in its place. */
    method ReplaceTop() returns (top: PqElement)
      requires Linked() && heapSize == |slots| > 0
      modifies `slots, `heapSize, heap, slots`offset
      ensures top == old(slots)[0] && top !in slots && heapSize == |slots| == |old(slots)| - 1
      ensures Linked() && multiset(slots) == multiset(old(slots)) - multiset{top}
      ensures forall i :: 1 <= i < |slots| ==> slots[i] == old(slots)[i]
      ensures forall i :: 0 <= i < |slots| ==> slots[i] in old(slots)
    {
      hide WithoutTop;
      WithoutTopOk(slots);
      top := heap[0];
      heapSize := heapSize - 1;
      var last := heap[heapSize];
      heap[0] := last;
      last.offset := 0;
      slots := WithoutTop(slots);
    }

    /** The same, seen from the order. */
    method DropTop() returns (top: PqElement)
      requires Linked() && heapSize == |slots| > 0 && Ordered(TimesOf(slots))
      modifies `slots, `heapSize, heap, slots`offset
      ensures top == old(slots)[0] && top !in slots && heapSize == |slots|
      ensures Linked() && multiset(slots) == multiset(old(slots)) - multiset{top}
      ensures heapSize > 0 ==> OrderedBelow(TimesOf(slots), 0)
      ensures forall i :: 0 <= i < |slots| ==> slots[i] in old(slots)
    {
      hide Ordered, OrderedBelow, Linked;
      ghost var ts := TimesOf(slots);
      top := ReplaceTop();
      if heapSize > 0 {
        TopReplaced(ts, TimesOf(slots));
      }
    }

    /** Puts the order right again below the top. */
    method Settle()
      requires Linked() && heapSize == |slots| && (heapSize > 0 ==> OrderedBelow(TimesOf(slots), 0))
      modifies `slots, heap, slots`offset
      ensures Linked() && heapSize == |slots| && Ordered(TimesOf(slots)) && multiset(slots) == multiset(old(slots))
      ensures forall i :: 0 <= i < |slots| ==> slots[i] in old(slots)
    {
      hide Ordered, OrderedBelow;
      if heapSize > 0 {
        BubbleDown(0);
      } else {
        NothingOrdered(TimesOf(slots));
      }
      SameMembers(slots, old(slots));
    }

    method Forget(e: PqElement)
      requires Linked() && Ordered(TimesOf(slots)) && e !in slots
      modifies e`offset
      ensures Linked() && Ordered(TimesOf(slots)) && e.offset == -1
    {
      hide Ordered;
      e.offset := -1;
      assert TimesOf(slots) == old(TimesOf(slots));
    }

    /** What `Remove` does at the top. */
    method RemoveTop() returns (top: PqElement)
      requires Linked() && heapSize == |slots| > 0 && Ordered(TimesOf(slots))
      modifies `slots, `heapSize, heap, slots`offset
      ensures Linked() && heapSize == |slots| && Ordered(TimesOf(slots))
      ensures top == old(slots)[0] && top.offset == -1 && top !in slots
      ensures multiset(slots) == multiset(old(slots)) - multiset{top}
    {
      hide Ordered, OrderedBelow, Linked;
      top := DropTop();
      Settle();
      Forget(top);
    }

    /** `Remove`: takes out an element with the least time. */
    method Remove() returns (e: PqElement?)
      requires Valid()
      modifies `slots, `heapSize, heap, slots`offset
      ensures Valid() && (e == null <==> old(slots) == [])
      ensures e == null ==> slots == old(slots)
      ensures e != null ==> e in old(slots) && e.offset == -1 && multiset(slots) == multiset(old(slots)) - multiset{e}
      ensures e != null ==> forall x :: x in old(slots) ==> InTime(e.time, x.time)
    {
      if heapSize == 0 {
        return null;
      }
      TopIsLeast();
      ghost var es := slots;
      e := RemoveTop();
      FewerMembers(slots, es, e);
    }

    /** Emptying the queue gives all its elements in the order of their times. */
    method Drain() returns (out: seq<PqElement>)
      requires Valid()
      modifies `slots, `heapSize, heap, slots`offset
      ensures Valid() && slots == [] && multiset(out) == multiset(old(slots))
      ensures forall i, j :: 0 <= i < j < |out| ==> InTime(out[i].time, out[j].time)
    {
      hide Valid, Emptying;
      out := [];
      EmptyingStart(slots);
      while true
        invariant Valid() && Emptying(out, slots, old(slots))
        invariant forall i :: 0 <= i < |slots| ==> slots[i] in old(slots)
        decreases |slots|
      {
        ghost var es := slots;
        var e := Remove();
        if e == null {
          break;
        }
        FewerMembers(slots, es, e);
        EmptyingStep(out, es, old(slots), e, slots);
        out := out + [e];
      }
      EmptyingEnd(out, old(slots));
    }

    /** `MinimizeTime`, then up to the top. */
    method Raise(e: PqElement)
      requires Valid() && e in slots
      modifies `slots, heap, slots`offset, e`time
      ensures Linked() && |slots| == |old(slots)| && Ordered(TimesOf(slots)) && multiset(slots) == multiset(old(slots))
      ensures slots[0] == e && forall x :: x in slots && x != e ==> x.time.At?
    {
      hide Ordered, OrderedAbove;
      ghost var es, b := slots, e.offset;
      Minimized(TimesOf(slots), b);
      e.time := Least;
      assert TimesOf(slots) == old(TimesOf(slots))[b := Least];
      BubbleUp(e.offset);
      SameMembers(slots, es);
      SameMembers(es, slots);
      assert e == es[b];
      TopIsLeast();
    }

    /** Raises an element to the top and removes it there. */
    method TakeOut(e: PqElement)
      requires Valid() && e in slots
      modifies `slots, `heapSize, heap, slots`offset, e`time
      ensures Valid() && e.offset == -1 && multiset(slots) == multiset(old(slots)) - multiset{e}
    {
      hide Ordered, TimesOf;
      ghost var es := slots;
      Raise(e);
      ghost var raised := slots;
      SameMembers(slots, es);
      var top := RemoveTop();
      FewerMembers(slots, raised, e);
    }

    /** `Remove` of a given element: it comes back if it is in the queue. */
    method RemoveElement(e: PqElement) returns (r: PqElement?)
      requires Valid()
      modifies `slots, `heapSize, heap, slots`offset, e`time
      ensures Valid() && (if e in old(slots) then r == e else r == null)
      ensures r != null ==> e.offset == -1 && multiset(slots) == multiset(old(slots)) - multiset{e}
      ensures r == null ==> slots == old(slots) && e.time == old(e.time)
    {
      hide Ordered, TimesOf, AllAt;
      if e.offset < 0 || e.offset >= heapSize || heap[e.offset] != e {
        return null;
      }
      TakeOut(e);
      r := e;
    }
  }

  lemma Minimized(ts: seq<Time>, b: nat)
    requires Ordered(ts) && b < |ts|
    ensures OrderedAbove(ts[b := Least], b)
  {
  }

  /** `out` has been taken, in order, from among `all`, and `rest` is left. */
  ghost predicate Emptying(out: seq<PqElement>, rest: seq<PqElement>, all: seq<PqElement>)
    reads out`time, rest`time
  {
    && multiset(out) + multiset(rest) == multiset(all)
    && (forall i, j :: 0 <= i < j < |out| ==> InTime(out[i].time, out[j].time))
    && (forall i, x :: 0 <= i < |out| && x in rest ==> InTime(out[i].time, x.time))
  }

  lemma EmptyingStart(all: seq<PqElement>)
    ensures Emptying([], all, all)
  {
  }

  lemma EmptyingStep(out: seq<PqElement>, rest: seq<PqElement>, all: seq<PqElement>, e: PqElement,
                     rest': seq<PqElement>)
    requires Emptying(out, rest, all) && e in rest && multiset(rest') == multiset(rest) - multiset{e}
    requires (forall x :: x in rest ==> InTime(e.time, x.time)) && forall i :: 0 <= i < |rest'| ==> rest'[i] in rest
    ensures Emptying(out + [e], rest', all)
  {
    assert e in multiset(rest);
    assert multiset(out + [e]) == multiset(out) + multiset{e};
  }

  lemma EmptyingEnd(out: seq<PqElement>, all: seq<PqElement>)
    requires Emptying(out, [], all)
    ensures multiset(out) == multiset(all) && forall i, j :: 0 <= i < j < |out| ==> InTime(out[i].time, out[j].time)
  {
  }

  lemma OneMoreAt(es: seq<PqElement>, e: PqElement)
    requires AllAt(es) && e.time.At?
    ensures AllAt(es + [e]) && multiset(es + [e]) == multiset(es) + multiset{e}
  {
  }

  lemma AllAtStill(es: seq<PqElement>, es': seq<PqElement>)
    requires multiset(es) == multiset(es') && AllAt(es')
    ensures AllAt(es) && |es| == |es'|
  {
    SameMembers(es, es');
  }

  ghost predicate AllAt(es: seq<PqElement>)
    reads es`time
  {
    forall i :: 0 <= i < |es| ==> es[i].time.At?
  }

  lemma FewerMembers<T>(s: seq<T>, s': seq<T>, x: T)
    requires multiset(s) == multiset(s') - multiset{x} && x in s'
    ensures |s| == |s'| - 1 && forall i :: 0 <= i < |s| ==> s[i] in s'
  {
    forall i | 0 <= i < |s|
      ensures s[i] in s'
    {
      assert s[i] in multiset(s);
      assert s[i] in multiset(s');
    }
    assert |multiset(s)| == |s| && |multiset(s')| == |s'| && x in multiset(s');
  }

  lemma AddedLast(ts: seq<Time>, t: Time)
    requires Ordered(ts)
    ensures OrderedAbove(ts + [t], |ts|)
  {
  }

  lemma NothingOrdered(ts: seq<Time>)
    requires ts == []
    ensures Ordered(ts)
  {
  }

  lemma TopReplaced(ts: seq<Time>, ts': seq<Time>)
    requires Ordered(ts) && 0 < |ts'| < |ts| && forall i :: 1 <= i < |ts'| ==> ts'[i] == ts[i]
    ensures OrderedBelow(ts', 0)
  {
  }

  /** The elements once the last has taken the place of the first. */
  ghost function WithoutTop(es: seq<PqElement>): (r: seq<PqElement>)
    requires |es| > 0
  {
    es[0 := es[|es| - 1]][..|es| - 1]
  }

  lemma WithoutTopOk(es: seq<PqElement>)
    requires |es| > 0 && forall i :: 0 <= i < |es| ==> es[i].offset == i
    ensures var r := WithoutTop(es);
            && |r| == |es| - 1 && (|r| > 0 ==> r[0] == es[|es| - 1]) && (forall i :: 1 <= i < |r| ==> r[i] == es[i])
            && es[0] !in r && (forall i :: 0 <= i < |r| ==> r[i] in es) && multiset(r) == multiset(es) - multiset{es[0]}
  {
    var n := |es| - 1;
    var r := WithoutTop(es);
    if n > 0 {
      assert r == [es[n]] + es[1..n];
      assert es == [es[0]] + es[1..n] + [es[n]];
    } else {
      assert es == [es[0]] && r == [];
    }
  }

  lemma InRange(ts: seq<Time>, b: nat)
    requires OrderedAbove(ts, b)
    ensures b < |ts|
  {
  }

  lemma BelowRange(ts: seq<Time>, b: nat)
    requires OrderedBelow(ts, b)
    ensures b < |ts|
  {
  }

  lemma SameMembers<T>(s: seq<T>, s': seq<T>)
    requires multiset(s) == multiset(s')
    ensures |s| == |s'| && forall i :: 0 <= i < |s| ==> s[i] in s'
  {
    forall i | 0 <= i < |s|
      ensures s[i] in s'
    {
      assert s[i] in multiset(s);
    }
    assert |s| == |multiset(s)| && |s'| == |multiset(s')|;
  }
}
