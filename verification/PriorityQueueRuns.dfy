/** Runs of a priority queue against a bag that always gives up one of its earliest elements. */
module PriorityQueueRuns {
  import opened PriorityQueues

  /** What a caller does: schedule a new element, take the first one due, or cancel the `k`-th one scheduled. */
  datatype Op = Schedule(at: real) | TakeFirst | Cancel(k: nat)

  /** The bag of queued elements and the elements scheduled so far, oldest first. */
  datatype Moment = Moment(bag: multiset<PqElement>, made: seq<PqElement>)

  type Times = map<PqElement, Time>

  /** What a bag ordered by time does on `op`: `e` is the element put in or given back, null if there is none. */
  ghost predicate Next(times: Times, m: Moment, op: Op, e: PqElement?, m': Moment) {
    match op
    case Schedule(at) =>
      e != null && e !in m.bag && e in times && times[e] == At(at) && m' == Moment(m.bag + multiset{e}, m.made + [e])
    case TakeFirst =>
      if m.bag == multiset{} then e == null && m' == m
      else e != null && e in m.bag && Earliest(times, m.bag, e) && m' == Moment(m.bag - multiset{e}, m.made)
    case Cancel(k) =>
      if k < |m.made| && m.made[k] in m.bag then e == m.made[k] && m' == Moment(m.bag - multiset{m.made[k]}, m.made)
      else e == null && m' == m
  }

  ghost predicate Earliest(times: Times, bag: multiset<PqElement>, e: PqElement) {
    e in times && forall x :: x in bag ==> x in times && InTime(times[e], times[x])
  }

  ghost predicate Extends(times: Times, times': Times) {
    forall x :: x in times ==> x in times' && times'[x] == times[x]
  }

  lemma NextLater(times: Times, times': Times, m: Moment, op: Op, e: PqElement?, m': Moment)
    requires Next(times, m, op, e, m') && Extends(times, times')
    ensures Next(times', m, op, e, m')
  {
  }

  /** The queued elements still have the times they were scheduled for. */
  ghost predicate Known(q: PriorityQueue, times: Times)
    reads q`slots, q.slots`time
  {
    forall i :: 0 <= i < |q.slots| ==> q.slots[i] in times && times[q.slots[i]] == q.slots[i].time
  }

  method ScheduleAt(q: PriorityQueue, at: real, ghost times: Times, ghost made: seq<PqElement>)
    returns (e: PqElement, ghost times': Times)
    requires q.Valid() && Known(q, times)
    modifies q, q.heap, q.slots`offset
    ensures q.Valid() && Known(q, times') && Extends(times, times') && fresh(e)
            && (q.heap == old(q.heap) || fresh(q.heap))
    ensures forall x :: x in q.slots ==> x in old(q.slots) || x == e
    ensures Next(times', Moment(multiset(old(q.slots)), made), Schedule(at), e, Moment(multiset(q.slots), made + [e]))
  {
    hide PriorityQueue.Valid;
    e := new PqElement(At(at));
    times' := times[e := At(at)];
    q.Add(e);
    SameMembers(q.slots, old(q.slots) + [e]);
    forall i | 0 <= i < |q.slots|
      ensures q.slots[i] in times' && times'[q.slots[i]] == q.slots[i].time
    {
      var x := q.slots[i];
      assert x in old(q.slots) + [e];
    }
  }

  method TakeOne(q: PriorityQueue, ghost times: Times, ghost made: seq<PqElement>) returns (e: PqElement?)
    requires q.Valid() && Known(q, times)
    modifies q, q.heap, q.slots`offset
    ensures q.Valid() && Known(q, times) && q.heap == old(q.heap)
    ensures forall x :: x in q.slots ==> x in old(q.slots)
    ensures Next(times, Moment(multiset(old(q.slots)), made), TakeFirst, e, Moment(multiset(q.slots), made))
  {
    hide PriorityQueue.Valid;
    e := q.Remove();
    if e != null {
      FewerMembers(q.slots, old(q.slots), e);
      forall x | x in multiset(old(q.slots))
        ensures x in times && InTime(times[e], times[x])
      {
        assert x in old(q.slots);
      }
    }
  }

  method CancelOne(q: PriorityQueue, k: nat, made: seq<PqElement>, ghost times: Times) returns (e: PqElement?)
    requires q.Valid() && Known(q, times)
    modifies q, q.heap, q.slots`offset, made`time
    ensures q.Valid() && Known(q, times) && q.heap == old(q.heap)
    ensures forall x :: x in q.slots ==> x in old(q.slots)
    ensures Next(times, Moment(multiset(old(q.slots)), made), Cancel(k), e, Moment(multiset(q.slots), made))
  {
    e := null;
    if k < |made| {
      var x := made[k];
      e := q.RemoveElement(x);
      if e != null {
        FewerMembers(q.slots, old(q.slots), x);
        assert x !in q.slots;
      }
    }
  }

  method Act(q: PriorityQueue, op: Op, made: seq<PqElement>, ghost times: Times)
    returns (e: PqElement?, made': seq<PqElement>, ghost times': Times)
    requires q.Valid() && Known(q, times)
    modifies q, q.heap, q.slots`offset, made`time
    ensures q.Valid() && Known(q, times') && Extends(times, times') && (q.heap == old(q.heap) || fresh(q.heap))
    ensures forall x :: x in q.slots ==> x in old(q.slots) || fresh(x)
    ensures made <= made' && forall i :: |made| <= i < |made'| ==> fresh(made'[i])
    ensures Next(times', Moment(multiset(old(q.slots)), made), op, e, Moment(multiset(q.slots), made'))
  {
    hide PriorityQueue.Valid, Next;
    made', times' := made, times;
    match op {
      case Schedule(at) =>
        var x;
        x, times' := ScheduleAt(q, at, times, made);
        e, made' := x, made + [x];
      case TakeFirst =>
        e := TakeOne(q, times, made);
      case Cancel(k) =>
        e := CancelOne(q, k, made, times);
    }
  }

  /** Every run of the queue, from any state, does what the bag does at every step. */
  method Run(q: PriorityQueue, ops: seq<Op>)
    returns (out: seq<PqElement?>, ghost trace: seq<Moment>, ghost times: Times)
    requires q.Valid()
    modifies q, q.heap, q.slots`offset
    ensures q.Valid() && |out| == |ops| && |trace| == |ops| + 1
    ensures trace[0] == Moment(multiset(old(q.slots)), []) && trace[|ops|].bag == multiset(q.slots)
    ensures forall x :: x in old(q.slots) ==> x in times && times[x] == old(x.time)
    ensures forall i :: 0 <= i < |ops| ==> Next(times, trace[i], ops[i], out[i], trace[i + 1])
  {
    hide PriorityQueue.Valid, Next;
    var made: seq<PqElement> := [];
    out := [];
    times := map x | x in q.slots :: x.time;
    trace := [Moment(multiset(q.slots), made)];
    for n := 0 to |ops|
      invariant q.Valid() && Known(q, times) && |out| == n && |trace| == n + 1
      invariant trace[0] == Moment(multiset(old(q.slots)), []) && trace[n] == Moment(multiset(q.slots), made)
      invariant q.heap == old(q.heap) || fresh(q.heap)
      invariant forall i :: 0 <= i < |made| ==> fresh(made[i])
      invariant forall x :: x in q.slots ==> x in old(q.slots) || fresh(x)
      invariant forall x :: x in old(q.slots) ==> x in times && times[x] == old(x.time)
      invariant forall i :: 0 <= i < n ==> Next(times, trace[i], ops[i], out[i], trace[i + 1])
    {
      ghost var times0 := times;
      var e;
      e, made, times := Act(q, ops[n], made, times);
      forall i | 0 <= i < n
        ensures Next(times, trace[i], ops[i], out[i], trace[i + 1])
      {
        NextLater(times0, times, trace[i], ops[i], out[i], trace[i + 1]);
      }
      out, trace := out + [e], trace + [Moment(multiset(q.slots), made)];
    }
  }
}
