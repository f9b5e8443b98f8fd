/** `CompositeHash` of src/CompHash.cc: how much room a key may take, and how it is written into a buffer. */
module CompositeHashes {
  import opened Basics
  import opened CompKeys

  // ----- sizes -----

  /** `SizeAlign`: the offset after something of the given size, aligned to it. */
  function SizeAlign(offset: nat, size: nat): (r: nat)
    requires Width(size)
    ensures r >= offset + size
  {
    Align(offset, size) + size
  }

  lemma SizeAlignMonotone(p: nat, q: nat, size: nat)
    requires Width(size) && p <= q
    ensures Align(p, size) + size <= SizeAlign(q, size)
  {
    AlignMonotone(p, q, size);
  }

  function FieldOf(v: Option<Val>, i: nat): Option<Val> {
    if v.Some? && v.value.RecordVal? && i < |v.value.vals| then v.value.vals[i] else None
  }

  /** No list is met without its value: the code would not survive that. */
  ghost predicate Sizable(t: Type, v: Option<Val>)
    decreases t
  {
    match t
    case Record(fields) => forall i :: 0 <= i < |fields| ==> Sizable(fields[i].ty, FieldOf(v, i))
    case Vector(elem) =>
      v.Some? && v.value.VectorVal? ==>
        forall i :: 0 <= i < |v.value.elems| ==> Sizable(elem, v.value.elems[i]) || v.value.elems[i].None?
    case List(types) =>
      && v.Some?
      && (v.value.ListVal? && |v.value.items| == |types| ==>
            forall i :: 0 <= i < |types| ==> Sizable(types[i], Some(v.value.items[i])))
    case _ => true
  }

  /** `SingleTypeKeySize`: the size so far, plus room for a value, or for any value of a type of fixed size; 0 if
      the value does not go with the type or there is no telling. */
  function KeySize(t: Type, v: Option<Val>, sz: nat, optional: bool, fixed: bool): (r: nat)
    requires Sizable(t, v)
    ensures r != 0 ==> r >= if optional then sz + 1 else sz
    decreases t, 1, 0
  {
    var s := if optional then SizeAlign(sz, 1) else sz;
    match t
    case Scalar(kind) =>
      if v.Some? && !(v.value.ScalarVal? && v.value.skind == kind) then 0 else SizeAlign(s, EIGHT)
    case Words(kind) =>
      if v.Some? && !(v.value.WordsVal? && v.value.wkind == kind) then 0
      else SizeAlign(s, WORD) + WORD * (WordCount(kind) - 1)
    case Str =>
      if v.None? then (if optional && !fixed then s else 0)
      else if v.value.StrVal? then SizeAlign(s, WORD) + |v.value.bytes| else 0
    case Record(fields) =>
      if v.Some? && !(v.value.RecordVal? && |v.value.vals| == |fields|) then 0
      else FieldsSize(t, v, 0, s, fixed)
    case Vector(_) =>
      if v.None? then (if optional && !fixed then s else 0)
      else if v.value.VectorVal? then ElemsSize(t, v.value.elems, 0, SizeAlign(s, WORD), fixed) else 0
    case List(types) =>
      if v.value.ListVal? && |v.value.items| == |types| then
        ItemsSize(types, Some(v.value.items), 0, SizeAlign(s, WORD), fixed)
      else 0
  }

  function FieldsSize(t: Type, v: Option<Val>, i: nat, sz: nat, fixed: bool): (r: nat)
    requires t.Record? && i <= |t.fields| && Sizable(t, v)
    ensures r != 0 ==> r >= sz
    decreases t, 0, |t.fields| - i
  {
    if i == |t.fields| then sz
    else
      var s := KeySize(t.fields[i].ty, FieldOf(v, i), sz, t.fields[i].optional, fixed);
      if s == 0 then 0 else FieldsSize(t, v, i + 1, s, fixed)
  }

  function ElemSize(t: Type, elems: seq<Option<Val>>, i: nat, sz: nat, fixed: bool): (r: nat)
    requires t.Vector? && i < |elems| && Sizable(t, Some(VectorVal(elems)))
    ensures r != 0 ==> r >= sz
    decreases t, 0, 0
  {
    var head := SizeAlign(SizeAlign(sz, WORD), WORD);
    if elems[i].Some? then KeySize(t.elem, elems[i], head, false, fixed) else head
  }

  function ElemsSize(t: Type, elems: seq<Option<Val>>, i: nat, sz: nat, fixed: bool): (r: nat)
    requires t.Vector? && i <= |elems| && Sizable(t, Some(VectorVal(elems)))
    ensures r != 0 ==> r >= sz
    decreases t, 0, |elems| - i
  {
    if i == |elems| then sz
    else
      var s := ElemSize(t, elems, i, sz, fixed);
      if s == 0 then 0 else ElemsSize(t, elems, i + 1, s, fixed)
  }

  function ItemsSize(types: seq<Type>, items: Option<seq<Val>>, i: nat, sz: nat, fixed: bool): (r: nat)
    requires i <= |types| && (items.Some? ==> |items.value| == |types|)
    requires forall j :: 0 <= j < |types| ==> Sizable(types[j], ItemOf(items, j))
    ensures r != 0 ==> r >= sz
    decreases types, 0, |types| - i
  {
    if i == |types| then sz
    else
      var s := KeySize(types[i], ItemOf(items, i), sz, false, fixed);
      if s == 0 then 0 else ItemsSize(types, items, i + 1, s, fixed)
  }

  function ItemOf(items: Option<seq<Val>>, i: nat): Option<Val> {
    if items.Some? && i < |items.value| then Some(items.value[i]) else None
  }

  // ----- writing -----

  /** `AlignAndPad`: writes zeros up to the next aligned offset. */
  method AlignAndPad(buf: array<Byte>, p: nat, size: nat) returns (q: nat)
    requires Width(size) && Align(p, size) <= buf.Length
    modifies buf
    ensures q == Align(p, size) && buf[..q] == old(buf[..p]) + Zeros(q - p)
  {
    q := p;
    while Align(q, size) != q
      invariant p <= q <= Align(p, size) == Align(q, size) && buf[..q] == old(buf[..p]) + Zeros(q - p)
      decreases Align(p, size) - q
    {
      AlignOn(q, size);
      buf[q] := 0;
      q := q + 1;
      assert buf[..q] == buf[..q - 1] + [0];
    }
  }

  lemma AlignOn(q: nat, size: nat)
    requires Width(size) && Align(q, size) != q
    ensures q < Align(q, size) == Align(q + 1, size)
  {
    NextRemainder(q);
  }

  lemma NextRemainder(q: nat)
    ensures q % WORD != 0 ==> (q + 1) % WORD == if q % WORD == 3 then 0 else q % WORD + 1
    ensures q % EIGHT != 0 ==> (q + 1) % EIGHT == if q % EIGHT == 7 then 0 else q % EIGHT + 1
  {
  }

  method Store(buf: array<Byte>, p: nat, b: seq<Byte>) returns (q: nat)
    requires p + |b| <= buf.Length
    modifies buf
    ensures q == p + |b| && buf[..q] == old(buf[..p]) + b
  {
    forall i | 0 <= i < |b| {
      buf[p + i] := b[i];
    }
    q := p + |b|;
  }

  /** Writes a number, aligned to its size. */
  method Put(buf: array<Byte>, p: nat, size: nat, n: nat) returns (q: nat)
    requires Width(size) && Align(p, size) + size <= buf.Length
    modifies buf
    ensures q == Align(p, size) + size && buf[..q] == old(buf[..p]) + Aligned(p, size, Bytes(n, size))
  {
    q := AlignAndPad(buf, p, size);
    q := Store(buf, q, Bytes(n, size));
  }

  lemma ThenThen(b: seq<Byte>, c: seq<Byte>, e: Option<seq<Byte>>)
    ensures Then(b, Then(c, e)) == Then(b + c, e)
  {
    if e.Some? {
      assert b + (c + e.value) == b + c + e.value;
    }
  }

  /** The size was found for this very value, or for any value of its type. */
  ghost predicate Allows(w: Option<Val>, v: Option<Val>, fixed: bool) {
    w == v || (fixed && w.None?)
  }

  /** There is room in the buffer for what the size counts. */
  ghost predicate Room(buf: array<Byte>, p: nat, sz: nat, total: nat) {
    p <= sz && 0 < total <= buf.Length
  }

  /** The buffer holds what it held before and then the encoding. */
  ghost predicate Wrote(b: seq<Byte>, q: nat, before: seq<Byte>, e: Option<seq<Byte>>) {
    e.Some? && q == |before| + |e.value| <= |b| && b[..q] == before + e.value
  }

  lemma ThenDone(b: seq<Byte>, q: nat, before: seq<Byte>, e: Option<seq<Byte>>)
    requires q <= |b| && Then(b[..q], Some([])) == Then(before, e)
    ensures Wrote(b, q, before, e)
  {
    assert b[..q] + [] == b[..q];
  }

  lemma WroteAlone(b: seq<Byte>, q: nat, before: seq<Byte>, e: Option<seq<Byte>>)
    requires Wrote(b, q, before, e) && |before| == 0
    ensures e == Some(b[..q])
  {
    assert before == [] && [] + e.value == e.value;
  }

  method HashWords(buf: array<Byte>, p: nat, words: seq<nat>, ghost sz: nat) returns (q: nat)
    requires |words| > 0 && Room(buf, p, sz, SizeAlign(sz, WORD) + WORD * (|words| - 1))
    modifies buf
    ensures q <= SizeAlign(sz, WORD) + WORD * (|words| - 1)
            && Wrote(buf[..], q, old(buf[..p]), Some(EncodeWords(words, p)))
  {
    SizeAlignMonotone(p, sz, WORD);
    q := p;
    ghost var all := Then(buf[..p], Some(EncodeWords(words, p)));
    assert words[0..] == words;
    for i := 0 to |words|
      invariant (i == 0 && q == p) || (i > 0 && q == Align(p, WORD) + WORD * i)
      invariant q <= buf.Length && Then(buf[..q], Some(EncodeWords(words[i..], q))) == all
    {
      hide Bytes, Align;
      WordsNext(words, i, q);
      ThenThen(buf[..q], WordAt(q, words[i]), Some(EncodeWords(words[i + 1..], q + |WordAt(q, words[i])|)));
      AlignAgain(p, i);
      q := Put(buf, q, WORD, words[i]);
    }
    assert words[|words|..] == [];
    ThenDone(buf[..], q, old(buf[..p]), Some(EncodeWords(words, p)));
  }

  lemma WordsNext(words: seq<nat>, i: nat, q: nat)
    requires i < |words|
    ensures EncodeWords(words[i..], q) == WordAt(q, words[i]) + EncodeWords(words[i + 1..], q + |WordAt(q, words[i])|)
  {
    assert words[i..][1..] == words[i + 1..];
  }

  lemma AlignAgain(p: nat, i: nat)
    ensures Align(Align(p, WORD) + WORD * i, WORD) == Align(p, WORD) + WORD * i
  {
  }

  method HashScalar(buf: array<Byte>, p: nat, t: Type, v: Val, ghost w: Option<Val>, ghost sz: nat, ghost fixed: bool)
    returns (ok: bool, q: nat)
    requires t.Scalar? && Allows(w, Some(v), fixed) && Sizable(t, w)
             && Room(buf, p, sz, KeySize(t, w, sz, false, fixed))
    modifies buf
    ensures ok <==> EncodeVal(t, v, p).Some?
    ensures ok <==> OfKind(v, t)
    ensures ok ==> q <= KeySize(t, w, sz, false, fixed) && Wrote(buf[..], q, old(buf[..p]), EncodeVal(t, v, p))
  {
    if v.ScalarVal? && v.skind == t.skind {
      SizeAlignMonotone(p, sz, EIGHT);
      q := Put(buf, p, EIGHT, v.bits);
      ok := true;
    } else {
      ok, q := false, p;
    }
  }

  method HashWordsVal(buf: array<Byte>, p: nat, t: Type, v: Val, ghost w: Option<Val>, ghost sz: nat, ghost fixed: bool)
    returns (ok: bool, q: nat)
    requires t.Words? && Allows(w, Some(v), fixed) && Sizable(t, w) && Room(buf, p, sz, KeySize(t, w, sz, false, fixed))
    modifies buf
    ensures ok <==> EncodeVal(t, v, p).Some?
    ensures ok <==> OfKind(v, t)
    ensures ok ==> q <= KeySize(t, w, sz, false, fixed) && Wrote(buf[..], q, old(buf[..p]), EncodeVal(t, v, p))
  {
    if v.WordsVal? && v.wkind == t.wkind && |v.words| == WordCount(t.wkind) {
      q := HashWords(buf, p, v.words, sz);
      ok := true;
    } else {
      ok, q := false, p;
    }
  }

  method HashStr(buf: array<Byte>, p: nat, t: Type, v: Val, ghost w: Option<Val>, ghost sz: nat, ghost fixed: bool)
    returns (ok: bool, q: nat)
    requires t.Str? && Allows(w, Some(v), fixed) && Sizable(t, w) && Room(buf, p, sz, KeySize(t, w, sz, false, fixed))
    modifies buf
    ensures ok <==> EncodeVal(t, v, p).Some?
    ensures ok <==> OfKind(v, t)
    ensures ok ==> q <= KeySize(t, w, sz, false, fixed) && Wrote(buf[..], q, old(buf[..p]), EncodeVal(t, v, p))
  {
    if v.StrVal? {
      SizeAlignMonotone(p, sz, WORD);
      q := Put(buf, p, WORD, |v.bytes|);
      q := Store(buf, q, v.bytes);
      ok := true;
    } else {
      ok, q := false, p;
    }
  }

  /** `SingleValHash`, apart from the mark of an optional value. */
  method HashVal(buf: array<Byte>, p: nat, t: Type, v: Val, ghost w: Option<Val>, ghost sz: nat, ghost fixed: bool)
    returns (ok: bool, q: nat)
    requires Allows(w, Some(v), fixed) && Sizable(t, w) && Room(buf, p, sz, KeySize(t, w, sz, false, fixed))
    modifies buf
    ensures ok <==> EncodeVal(t, v, p).Some?
    ensures ok ==> q <= KeySize(t, w, sz, false, fixed) && Wrote(buf[..], q, old(buf[..p]), EncodeVal(t, v, p))
    decreases t, 2, 0
  {
    hide EncodeVal, KeySize, Sizable;
    match t
    case Scalar(_) => ok, q := HashScalar(buf, p, t, v, w, sz, fixed);
    case Words(_) => ok, q := HashWordsVal(buf, p, t, v, w, sz, fixed);
    case Str => ok, q := HashStr(buf, p, t, v, w, sz, fixed);
    case Record(_) => ok, q := HashRecord(buf, p, t, v, w, sz, fixed);
    case Vector(_) => ok, q := HashVector(buf, p, t, v, w, sz, fixed);
    case List(_) => ok, q := HashList(buf, p, t, v, w, sz, fixed);
  }

  /** `SingleValHash`: writes a value, preceded by a mark if it is optional. */
  method SingleValHash(buf: array<Byte>, p: nat, t: Type, v: Option<Val>, optional: bool, ghost w: Option<Val>,
                       ghost sz: nat, ghost fixed: bool)
    returns (ok: bool, q: nat)
    requires Allows(w, v, fixed) && Sizable(t, w) && Room(buf, p, sz, KeySize(t, w, sz, optional, fixed))
    modifies buf
    ensures ok <==> Encode(t, v, optional, p).Some?
    ensures ok && v.Some? ==> OfKind(v.value, t)
    ensures ok ==> q <= KeySize(t, w, sz, optional, fixed)
    ensures ok ==> Wrote(buf[..], q, old(buf[..p]), Encode(t, v, optional, p))
    decreases t, 3, 0
  {
    hide EncodeVal, KeySize, Sizable;
    if optional {
      ghost var before := buf[..p];
      q := Store(buf, p, [if v.Some? then 1 else 0]);
      if v.None? {
        return true, q;
      }
      OptionalSize(t, w, sz, fixed);
      ok, q := HashVal(buf, q, t, v.value, w, SizeAlign(sz, 1), fixed);
      if ok {
        EncodesOfKind(t, v.value, p + 1);
        assert before + [1] + EncodeVal(t, v.value, p + 1).value == before + ([1] + EncodeVal(t, v.value, p + 1).value);
      }
    } else if v.None? {
      return false, p;
    } else {
      ok, q := HashVal(buf, p, t, v.value, w, sz, fixed);
      if ok {
        EncodesOfKind(t, v.value, p);
      }
    }
  }

  lemma OptionalSize(t: Type, w: Option<Val>, sz: nat, fixed: bool)
    requires Sizable(t, w) && (w.Some? || fixed)
    ensures KeySize(t, w, sz, true, fixed) == KeySize(t, w, SizeAlign(sz, 1), false, fixed)
  {
  }

  method HashFields(buf: array<Byte>, p: nat, t: Type, vals: seq<Option<Val>>, ghost w: Option<Val>, ghost sz: nat,
                    ghost fixed: bool)
    returns (ok: bool, q: nat)
    requires t.Record? && |vals| == |t.fields| && Allows(w, Some(RecordVal(vals)), fixed) && Sizable(t, w)
    requires Room(buf, p, sz, FieldsSize(t, w, 0, sz, fixed))
    modifies buf
    ensures ok <==> EncodeFields(t, vals, 0, p).Some?
    ensures ok ==> q <= FieldsSize(t, w, 0, sz, fixed) && Wrote(buf[..], q, old(buf[..p]), EncodeFields(t, vals, 0, p))
    decreases t, 0, 1
  {
    hide Encode, KeySize;
    q := p;
    ghost var s := sz;
    ghost var total := FieldsSize(t, w, 0, sz, fixed);
    ghost var all := Then(buf[..p], EncodeFields(t, vals, 0, p));
    for i := 0 to |vals|
      invariant Room(buf, q, s, total) && FieldsSize(t, w, i, s, fixed) == total && q <= buf.Length
      invariant Then(buf[..q], EncodeFields(t, vals, i, q)) == all
    {
      ghost var f := t.fields[i];
      ghost var e := Encode(f.ty, vals[i], f.optional, q);
      ghost var before := buf[..q];
      ok, q := SingleValHash(buf, q, t.fields[i].ty, vals[i], t.fields[i].optional, FieldOf(w, i), s, fixed);
      if !ok {
        return;
      }
      ThenThen(before, e.value, EncodeFields(t, vals, i + 1, q));
      s := KeySize(f.ty, FieldOf(w, i), s, f.optional, fixed);
    }
    ThenDone(buf[..], q, old(buf[..p]), EncodeFields(t, vals, 0, p));
    ok := true;
  }

  method HashRecord(buf: array<Byte>, p: nat, t: Type, v: Val, ghost w: Option<Val>, ghost sz: nat, ghost fixed: bool)
    returns (ok: bool, q: nat)
    requires t.Record? && Allows(w, Some(v), fixed) && Sizable(t, w)
             && Room(buf, p, sz, KeySize(t, w, sz, false, fixed))
    modifies buf
    ensures ok <==> EncodeVal(t, v, p).Some?
    ensures ok ==> q <= KeySize(t, w, sz, false, fixed) && Wrote(buf[..], q, old(buf[..p]), EncodeVal(t, v, p))
    decreases t, 1, 0
  {
    hide EncodeFields, FieldsSize, Sizable;
    if v.RecordVal? && |v.vals| == |t.fields| {
      ok, q := HashFields(buf, p, t, v.vals, w, sz, fixed);
    } else {
      ok, q := false, p;
    }
  }

  method HashItems(buf: array<Byte>, p: nat, types: seq<Type>, items: seq<Val>, ghost w: Option<seq<Val>>,
                   ghost sz: nat, ghost fixed: bool)
    returns (ok: bool, q: nat)
    requires |items| == |types| && (w == Some(items) || (fixed && w.None?))
    requires forall j :: 0 <= j < |types| ==> Sizable(types[j], ItemOf(w, j))
    requires Room(buf, p, sz, ItemsSize(types, w, 0, sz, fixed))
    modifies buf
    ensures ok <==> EncodeItems(List(types), items, 0, p).Some?
    ensures ok ==> q <= ItemsSize(types, w, 0, sz, fixed)
    ensures ok ==> Wrote(buf[..], q, old(buf[..p]), EncodeItems(List(types), items, 0, p))
    decreases types, 0, 1
  {
    hide EncodeVal, KeySize, Sizable;
    q := p;
    ghost var s := sz;
    ghost var total := ItemsSize(types, w, 0, sz, fixed);
    ghost var all := Then(buf[..p], EncodeItems(List(types), items, 0, p));
    for i := 0 to |items|
      invariant Room(buf, q, s, total) && ItemsSize(types, w, i, s, fixed) == total && q <= buf.Length
      invariant Then(buf[..q], EncodeItems(List(types), items, i, q)) == all
    {
      ghost var e := EncodeVal(types[i], items[i], q);
      ghost var before := buf[..q];
      ok, q := HashVal(buf, q, types[i], items[i], ItemOf(w, i), s, fixed);
      if !ok {
        return;
      }
      ThenThen(before, e.value, EncodeItems(List(types), items, i + 1, q));
      s := KeySize(types[i], ItemOf(w, i), s, false, fixed);
    }
    ThenDone(buf[..], q, old(buf[..p]), EncodeItems(List(types), items, 0, p));
    ok := true;
  }

  method HashList(buf: array<Byte>, p: nat, t: Type, v: Val, ghost w: Option<Val>, ghost sz: nat, ghost fixed: bool)
    returns (ok: bool, q: nat)
    requires t.List? && Allows(w, Some(v), fixed) && Sizable(t, w) && Room(buf, p, sz, KeySize(t, w, sz, false, fixed))
    modifies buf
    ensures ok <==> EncodeVal(t, v, p).Some?
    ensures ok ==> q <= KeySize(t, w, sz, false, fixed) && Wrote(buf[..], q, old(buf[..p]), EncodeVal(t, v, p))
    decreases t, 1, 0
  {
    hide EncodeItems, ItemsSize;
    if v.ListVal? && |v.items| == |t.types| {
      SizeAlignMonotone(p, sz, WORD);
      ghost var n := WordAt(p, |v.items|);
      ThenThen(buf[..p], n, EncodeItems(t, v.items, 0, p + |n|));
      q := Put(buf, p, WORD, |v.items|);
      ok, q := HashItems(buf, q, t.types, v.items, Some(v.items), SizeAlign(sz, WORD), fixed);
    } else {
      ok, q := false, p;
    }
  }

  /** One element of a vector: its index, whether it is there, and the element. */
  method HashElem(buf: array<Byte>, p: nat, t: Type, elems: seq<Option<Val>>, i: nat, ghost sz: nat, ghost fixed: bool)
    returns (ok: bool, q: nat)
    requires t.Vector? && i < |elems| && Sizable(t, Some(VectorVal(elems)))
             && Room(buf, p, sz, ElemSize(t, elems, i, sz, fixed))
    modifies buf
    ensures ok <==> EncodeElem(t, elems, i, p).Some?
    ensures ok ==> q <= ElemSize(t, elems, i, sz, fixed) && Wrote(buf[..], q, old(buf[..p]), EncodeElem(t, elems, i, p))
    decreases t, 0, 0
  {
    hide EncodeVal, KeySize, ElemHead, SizeAlign;
    ghost var before, head := buf[..p], ElemHead(elems, i, p);
    q := HashHead(buf, p, elems, i, sz);
    ok := true;
    if elems[i].Some? {
      ok, q := HashVal(buf, q, t.elem, elems[i].value, elems[i], SizeAlign(SizeAlign(sz, WORD), WORD), fixed);
      if ok {
        ThenThen(before, head, Some(EncodeVal(t.elem, elems[i].value, p + |head|).value));
      }
    }
  }

  method HashHead(buf: array<Byte>, p: nat, elems: seq<Option<Val>>, i: nat, ghost sz: nat) returns (q: nat)
    requires i < |elems| && p <= sz && SizeAlign(SizeAlign(sz, WORD), WORD) <= buf.Length
    modifies buf
    ensures q <= SizeAlign(SizeAlign(sz, WORD), WORD) && Wrote(buf[..], q, old(buf[..p]), Some(ElemHead(elems, i, p)))
  {
    hide Bytes, Align;
    SizeAlignMonotone(p, sz, WORD);
    ghost var before := buf[..p];
    q := Put(buf, p, WORD, i);
    SizeAlignMonotone(q, SizeAlign(sz, WORD), WORD);
    ghost var have := WordAt(q, if elems[i].Some? then 1 else 0);
    q := Put(buf, q, WORD, if elems[i].Some? then 1 else 0);
    assert before + WordAt(p, i) + have == before + (WordAt(p, i) + have);
  }

  method HashElems(buf: array<Byte>, p: nat, t: Type, elems: seq<Option<Val>>, ghost sz: nat, ghost fixed: bool)
    returns (ok: bool, q: nat)
    requires t.Vector? && Sizable(t, Some(VectorVal(elems))) && Room(buf, p, sz, ElemsSize(t, elems, 0, sz, fixed))
    modifies buf
    ensures ok <==> EncodeElems(t, elems, 0, p).Some?
    ensures ok ==> q <= ElemsSize(t, elems, 0, sz, fixed)
    ensures ok ==> Wrote(buf[..], q, old(buf[..p]), EncodeElems(t, elems, 0, p))
    decreases t, 0, 1
  {
    hide EncodeElem, ElemSize, Sizable;
    q := p;
    ghost var s := sz;
    ghost var total := ElemsSize(t, elems, 0, sz, fixed);
    ghost var all := Then(buf[..p], EncodeElems(t, elems, 0, p));
    for i := 0 to |elems|
      invariant Room(buf, q, s, total) && ElemsSize(t, elems, i, s, fixed) == total && q <= buf.Length
      invariant Then(buf[..q], EncodeElems(t, elems, i, q)) == all
    {
      ghost var e := EncodeElem(t, elems, i, q);
      ghost var before := buf[..q];
      ok, q := HashElem(buf, q, t, elems, i, s, fixed);
      if !ok {
        return;
      }
      ThenThen(before, e.value, EncodeElems(t, elems, i + 1, q));
      s := ElemSize(t, elems, i, s, fixed);
    }
    ThenDone(buf[..], q, old(buf[..p]), EncodeElems(t, elems, 0, p));
    ok := true;
  }

  method HashVector(buf: array<Byte>, p: nat, t: Type, v: Val, ghost w: Option<Val>, ghost sz: nat, ghost fixed: bool)
    returns (ok: bool, q: nat)
    requires t.Vector? && Allows(w, Some(v), fixed) && Sizable(t, w)
             && Room(buf, p, sz, KeySize(t, w, sz, false, fixed))
    modifies buf
    ensures ok <==> EncodeVal(t, v, p).Some?
    ensures ok ==> q <= KeySize(t, w, sz, false, fixed) && Wrote(buf[..], q, old(buf[..p]), EncodeVal(t, v, p))
    decreases t, 1, 0
  {
    hide EncodeElems, ElemsSize;
    if v.VectorVal? {
      SizeAlignMonotone(p, sz, WORD);
      ghost var n := WordAt(p, |v.elems|);
      ThenThen(buf[..p], n, EncodeElems(t, v.elems, 0, p + |n|));
      q := Put(buf, p, WORD, |v.elems|);
      ok, q := HashElems(buf, q, t, v.elems, SizeAlign(sz, WORD), fixed);
    } else {
      ok, q := false, p;
    }
  }

  // ----- the hash -----

  ghost predicate AllSizable(types: seq<Type>, items: Option<seq<Val>>) {
    forall j :: 0 <= j < |types| ==> Sizable(types[j], ItemOf(items, j))
  }

  /** An index of several types, with its buffer if all its keys have one size to fit them all. */
  class CompositeHash {
    const types: seq<Type>
    const size: nat
    const key: array?<Byte>

    ghost predicate Valid() {
      && AllSizable(types, None) && size == ItemsSize(types, None, 0, 0, true)
      && (if size > 0 then key != null && key.Length >= size else key == null)
    }

    constructor (ts: seq<Type>)
      requires AllSizable(ts, None)
      ensures Valid() && types == ts
    {
      types := ts;
      var sz := ItemsSize(ts, None, 0, 0, true);
      size := sz;
      if sz > 0 {
        key := new Byte[(sz / EIGHT + 1) * EIGHT];
      } else {
        key := null;
      }
    }

    /** `ComputeHash`: the key of a list of values. What the buffer held before does not matter, and nothing is
        written outside it. */
    method ComputeHash(vals: seq<Val>) returns (k: Option<seq<Byte>>)
      requires Valid() && AllSizable(types, Some(vals))
      modifies if key == null then {} else {key}
      ensures k.Some? ==> k == Key(types, vals)
      ensures k.None? <==> Key(types, vals).None? || (size == 0 && ItemsSize(types, Some(vals), 0, 0, false) == 0)
      ensures k.Some? ==> OfKinds(vals, types)
      ensures types != [] && Storable(vals, types) ==> (k.Some? <==> HaveTypes(vals, types) && Keyable(types, vals))
      ensures types != [] && HaveTypes(vals, types) ==> (k.Some? <==> Keyable(types, vals))
    {
      hide ItemsSize, EncodeItems, Sizable, OfKinds, Storable, Keyable;
      if |vals| != |types| {
        return None;
      }
      OnlyTyped(types, vals);
      if types != [] && HaveTypes(vals, types) {
        KeyableIff(types, vals);
      }
      if key != null {
        var ok, n := HashItems(key, 0, types, vals, None, 0, true);
        k := if ok then Some(key[..n]) else None;
        if ok {
          WroteAlone(key[..], n, old(key[..0]), Key(types, vals));
          assert key[..][..n] == key[..n];
        }
      } else {
        var sz := ItemsSize(types, Some(vals), 0, 0, false);
        if sz == 0 {
          return None;
        }
        var buf := new Byte[(sz / EIGHT + 1) * EIGHT];
        assert buf[..0] == [];
        var ok, n := HashItems(buf, 0, types, vals, Some(vals), 0, false);
        k := if ok then Some(buf[..n]) else None;
        if ok {
          WroteAlone(buf[..], n, [], Key(types, vals));
          assert buf[..][..n] == buf[..n];
        }
      }
    }
  }

  lemma OnlyTyped(types: seq<Type>, vals: seq<Val>)
    ensures Key(types, vals).Some? ==> OfKinds(vals, types)
    ensures Key(types, vals).Some? && Storable(vals, types) ==> HaveTypes(vals, types)
  {
    if Key(types, vals).Some? {
      KeyOfKinds(types, vals);
      if Storable(vals, types) {
        HaveTypesIff(vals, types);
      }
    }
  }

  // ----- which values have a size -----

  /** A value of the type may be missing without keeping a size from being found: what has no size of its own
      must itself be optional. */
  ghost predicate MayLack(t: Type, optional: bool) {
    match t
    case Record(fields) => forall i :: 0 <= i < |fields| ==> MayLack(fields[i].ty, fields[i].optional)
    case Str => optional
    case Vector(_) => optional
    case List(_) => false
    case _ => true
  }

  ghost predicate Measurable(t: Type, v: Option<Val>, optional: bool)
    decreases t
  {
    if v.None? then MayLack(t, optional)
    else
      match t
      case Record(fields) =>
        forall i :: 0 <= i < |fields| ==> Measurable(fields[i].ty, FieldOf(v, i), fields[i].optional)
      case Vector(elem) =>
        v.value.VectorVal? ==>
          forall i :: 0 <= i < |v.value.elems| && v.value.elems[i].Some? ==> Measurable(elem, v.value.elems[i], false)
      case List(types) =>
        v.value.ListVal? && |v.value.items| == |types| ==>
          forall i :: 0 <= i < |types| ==> Measurable(types[i], Some(v.value.items[i]), false)
      case _ => true
  }

  /** A value of the right type has a size exactly when everything that is missing in it may be. */
  lemma {:induction false} SizeIff(t: Type, v: Option<Val>, sz: nat, optional: bool)
    requires Solid(t) && MayHaveType(v, t) && Sizable(t, v)
    ensures KeySize(t, v, sz, optional, false) != 0 <==> Measurable(t, v, optional)
    ensures KeySize(t, v, sz, optional, false) == 0 || KeySize(t, v, sz, optional, false) > sz
    decreases t, 1, 0
  {
    var s := if optional then SizeAlign(sz, 1) else sz;
    match t
    case Record(fields) =>
      FieldsSizeIff(t, v, 0, s);
    case Vector(_) =>
      if v.Some? {
        ElemsSizeIff(t, v.value.elems, 0, SizeAlign(s, WORD));
      }
    case List(types) =>
      ItemsSizeIff(types, v.value.items, 0, SizeAlign(s, WORD));
    case _ =>
  }

  lemma {:induction false} FieldsSizeIff(t: Type, v: Option<Val>, i: nat, sz: nat)
    requires t.Record? && i <= |t.fields| && Sizable(t, v)
    requires forall j :: 0 <= j < |t.fields| ==> Solid(t.fields[j].ty) && MayHaveType(FieldOf(v, j), t.fields[j].ty)
    requires i > 0 ==> sz > 0
    ensures i < |t.fields| || sz > 0 ==>
              (FieldsSize(t, v, i, sz, false) != 0 <==>
               forall j :: i <= j < |t.fields| ==> Measurable(t.fields[j].ty, FieldOf(v, j), t.fields[j].optional))
    ensures i < |t.fields| ==> FieldsSize(t, v, i, sz, false) == 0 || FieldsSize(t, v, i, sz, false) > sz
    decreases t, 0, |t.fields| - i
  {
    hide KeySize, Measurable, Solid, MayHaveType;
    if i < |t.fields| {
      SizeIff(t.fields[i].ty, FieldOf(v, i), sz, t.fields[i].optional);
      var s := KeySize(t.fields[i].ty, FieldOf(v, i), sz, t.fields[i].optional, false);
      if s != 0 {
        FieldsSizeIff(t, v, i + 1, s);
      }
    }
  }

  lemma {:induction false} ElemsSizeIff(t: Type, elems: seq<Option<Val>>, i: nat, sz: nat)
    requires t.Vector? && i <= |elems| && Sizable(t, Some(VectorVal(elems))) && sz > 0
    requires Solid(t.elem) && forall j :: 0 <= j < |elems| ==> MayHaveType(elems[j], t.elem)
    ensures ElemsSize(t, elems, i, sz, false) != 0 <==>
            forall j :: i <= j < |elems| && elems[j].Some? ==> Measurable(t.elem, elems[j], false)
    decreases t, 0, |elems| - i
  {
    hide KeySize, Measurable, Solid, MayHaveType;
    if i < |elems| {
      if elems[i].Some? {
        SizeIff(t.elem, elems[i], SizeAlign(SizeAlign(sz, WORD), WORD), false);
      }
      var s := ElemSize(t, elems, i, sz, false);
      if s != 0 {
        ElemsSizeIff(t, elems, i + 1, s);
      }
    }
  }

  lemma {:induction false} ItemsSizeIff(types: seq<Type>, items: seq<Val>, i: nat, sz: nat)
    requires |items| == |types| && i <= |types| && AllSizable(types, Some(items)) && (i < |types| || sz > 0)
    requires forall j :: 0 <= j < |types| ==> Solid(types[j]) && HasType(items[j], types[j])
    ensures ItemsSize(types, Some(items), i, sz, false) != 0 <==>
            forall j :: i <= j < |types| ==> Measurable(types[j], Some(items[j]), false)
    decreases types, 0, |types| - i
  {
    hide KeySize, Measurable, Solid, HasType;
    if i < |types| {
      SizeIff(types[i], Some(items[i]), sz, false);
      var s := KeySize(types[i], Some(items[i]), sz, false, false);
      if s != 0 {
        ItemsSizeIff(types, items, i + 1, s);
      }
    }
  }

  /** All values of the type take the same room. */
  ghost predicate FixedSize(t: Type) {
    match t
    case Record(fields) => forall i :: 0 <= i < |fields| ==> FixedSize(fields[i].ty)
    case Str => false
    case Vector(_) => false
    case List(_) => false
    case _ => true
  }

  /** A size is found without a value exactly for those types. */
  lemma {:induction false} StaticIff(t: Type, sz: nat, optional: bool)
    requires Solid(t) && Sizable(t, None)
    ensures KeySize(t, None, sz, optional, true) != 0 <==> FixedSize(t)
    ensures KeySize(t, None, sz, optional, true) == 0 || KeySize(t, None, sz, optional, true) > sz
    decreases t, 1, 0
  {
    if t.Record? {
      FieldsStaticIff(t, 0, if optional then SizeAlign(sz, 1) else sz);
    }
  }

  lemma {:induction false} FieldsStaticIff(t: Type, i: nat, sz: nat)
    requires t.Record? && i <= |t.fields| && Sizable(t, None) && (i > 0 ==> sz > 0)
    requires forall j :: 0 <= j < |t.fields| ==> Solid(t.fields[j].ty)
    ensures i < |t.fields| || sz > 0 ==>
              (FieldsSize(t, None, i, sz, true) != 0 <==> forall j :: i <= j < |t.fields| ==> FixedSize(t.fields[j].ty))
    ensures i < |t.fields| ==> FieldsSize(t, None, i, sz, true) == 0 || FieldsSize(t, None, i, sz, true) > sz
    decreases t, 0, |t.fields| - i
  {
    hide KeySize, Solid;
    if i < |t.fields| {
      StaticIff(t.fields[i].ty, sz, t.fields[i].optional);
      var s := KeySize(t.fields[i].ty, None, sz, t.fields[i].optional, true);
      if s != 0 {
        FieldsStaticIff(t, i + 1, s);
      }
    }
  }

  lemma {:induction false} ItemsStaticIff(types: seq<Type>, i: nat, sz: nat)
    requires i <= |types| && AllSizable(types, None) && (i < |types| || sz > 0)
    requires forall j :: 0 <= j < |types| ==> Solid(types[j])
    ensures ItemsSize(types, None, i, sz, true) != 0 <==> forall j :: i <= j < |types| ==> FixedSize(types[j])
    decreases |types| - i
  {
    hide KeySize, Solid, FixedSize;
    if i < |types| {
      StaticIff(types[i], sz, false);
      var s := KeySize(types[i], None, sz, false, true);
      if s != 0 {
        ItemsStaticIff(types, i + 1, s);
      }
    }
  }

  /** With such a type a size is found for every value, whatever is missing in it. */
  lemma {:induction false} FixedMeasurable(t: Type, v: Option<Val>, optional: bool)
    requires FixedSize(t)
    ensures Measurable(t, v, optional) && MayLack(t, optional)
    decreases t
  {
    if t.Record? {
      forall i | 0 <= i < |t.fields|
        ensures Measurable(t.fields[i].ty, FieldOf(v, i), t.fields[i].optional)
                && MayLack(t.fields[i].ty, t.fields[i].optional)
      {
        FixedMeasurable(t.fields[i].ty, FieldOf(v, i), t.fields[i].optional);
      }
    }
  }

  /** Typed values get a key if and only if nothing that must be there is missing, and nothing else is missing that
      keeps a size from being found. */
  ghost predicate Keyable(types: seq<Type>, vals: seq<Val>)
    requires |vals| == |types|
  {
    forall j :: 0 <= j < |types| ==> Complete(types[j], vals[j]) && Measurable(types[j], Some(vals[j]), false)
  }

  lemma KeyableIff(types: seq<Type>, vals: seq<Val>)
    requires types != [] && HaveTypes(vals, types) && AllSizable(types, None) && AllSizable(types, Some(vals))
    ensures Keyable(types, vals) <==>
            Key(types, vals).Some?
              && (ItemsSize(types, None, 0, 0, true) != 0 || ItemsSize(types, Some(vals), 0, 0, false) != 0)
  {
    hide ItemsSize, Measurable, FixedSize, Solid, HasType, Complete, EncodeItems;
    ItemsEncodeIff(List(types), vals, 0, 0);
    ItemsSizeIff(types, vals, 0, 0);
    ItemsStaticIff(types, 0, 0);
    if ItemsSize(types, None, 0, 0, true) != 0 {
      forall j | 0 <= j < |types|
        ensures Measurable(types[j], Some(vals[j]), false)
      {
        FixedMeasurable(types[j], Some(vals[j]), false);
      }
    }
  }

  /** So a value may be complete, with an encoding that could be read back, and yet get no key: when it lacks an
      optional record that must hold a string. */
  lemma KeylessExample()
    ensures var inner := Record([Field(Str, false)]);
            var t := Record([Field(inner, true), Field(Str, false)]);
            var v := RecordVal([None, Some(StrVal([]))]);
            && HaveTypes([v], [t]) && Complete(t, v) && Key([t], [v]).Some?
            && AllSizable([t], None) && AllSizable([t], Some([v]))
            && ItemsSize([t], None, 0, 0, true) == 0 && ItemsSize([t], Some([v]), 0, 0, false) == 0
            && !Keyable([t], [v])
  {
    var inner := Record([Field(Str, false)]);
    var t := Record([Field(inner, true), Field(Str, false)]);
    var v := RecordVal([None, Some(StrVal([]))]);
    KeylessSizable(inner, t, v);
    assert !MayLack(inner.fields[0].ty, inner.fields[0].optional);
    assert !Measurable(t.fields[0].ty, FieldOf(Some(v), 0), t.fields[0].optional);
    assert !Measurable([t][0], Some([v][0]), false);
    ItemsEncodeIff(List([t]), [v], 0, 0);
    KeyableIff([t], [v]);
  }

  lemma {:induction false} KeylessSizable(inner: Type, t: Type, v: Val)
    requires inner == Record([Field(Str, false)]) && t == Record([Field(inner, true), Field(Str, false)])
    ensures Solid(t) && AllSizable([t], Some([v])) && AllSizable([t], None)
  {
    assert Sizable(inner, None) && Solid(inner);
    assert forall w :: Sizable(Str, w);
    assert Sizable(t, Some(v)) && Sizable(t, None);
  }

  // ----- what the size is -----

  /** No field is missing. */
  ghost predicate Full(t: Type, v: Val)
    decreases t
  {
    match t
    case Record(fields) =>
      v.RecordVal? && |v.vals| == |fields| ==>
        forall i :: 0 <= i < |fields| ==> v.vals[i].Some? && Full(fields[i].ty, v.vals[i].value)
    case Vector(elem) =>
      v.VectorVal? ==> forall i :: 0 <= i < |v.elems| && v.elems[i].Some? ==> Full(elem, v.elems[i].value)
    case List(types) =>
      v.ListVal? && |v.items| == |types| ==> forall i :: 0 <= i < |types| ==> Full(types[i], v.items[i])
    case _ => true
  }

  lemma {:induction false} WordsLength(words: seq<nat>, p: nat)
    requires words != []
    ensures |EncodeWords(words, p)| == Align(p, WORD) - p + WORD * |words|
    decreases |words|
  {
    hide Bytes, Aligned;
    var q := p + |WordAt(p, words[0])|;
    assert q == Align(p, WORD) + WORD;
    if |words| == 1 {
      assert EncodeWords(words[1..], q) == [];
    } else {
      WordsLength(words[1..], q);
    }
  }

  /** The size of a value without missing fields is the offset at which its encoding ends. */
  lemma {:induction false} SizeExact(t: Type, v: Val, sz: nat, optional: bool)
    requires Solid(t) && HasType(v, t) && Sizable(t, Some(v)) && Full(t, v)
    ensures Encode(t, Some(v), optional, sz).Some?
    ensures KeySize(t, Some(v), sz, optional, false) == sz + |Encode(t, Some(v), optional, sz).value| > sz
    decreases t, 1, 0
  {
    hide Bytes, Aligned, EncodeFields, EncodeElems, EncodeItems, FieldsSize, ElemsSize, ItemsSize, EncodeWords;
    var s := if optional then SizeAlign(sz, 1) else sz;
    assert s == if optional then sz + 1 else sz;
    match t
    case Words(kind) => WordsLength(v.words, s);
    case Record(fields) => FieldsExact(t, v.vals, 0, s);
    case Vector(_) => ElemsExact(t, v.elems, 0, SizeAlign(s, WORD));
    case List(_) => ItemsExact(t, v.items, 0, SizeAlign(s, WORD));
    case _ =>
  }

  lemma {:induction false} FieldsExact(t: Type, vals: seq<Option<Val>>, i: nat, sz: nat)
    requires t.Record? && |vals| == |t.fields| && i <= |vals| && Sizable(t, Some(RecordVal(vals)))
    requires forall j :: 0 <= j < |vals| ==>
               Solid(t.fields[j].ty) && vals[j].Some? && HasType(vals[j].value, t.fields[j].ty)
               && Full(t.fields[j].ty, vals[j].value)
    ensures EncodeFields(t, vals, i, sz).Some?
    ensures FieldsSize(t, Some(RecordVal(vals)), i, sz, false) == sz + |EncodeFields(t, vals, i, sz).value|
    ensures i < |vals| ==> |EncodeFields(t, vals, i, sz).value| > 0
    decreases t, 0, |vals| - i
  {
    hide KeySize, Encode, Solid, HasType, Full;
    if i < |vals| {
      SizeExact(t.fields[i].ty, vals[i].value, sz, t.fields[i].optional);
      FieldsExact(t, vals, i + 1, KeySize(t.fields[i].ty, vals[i], sz, t.fields[i].optional, false));
    }
  }

  lemma HeadLength(elems: seq<Option<Val>>, i: nat, sz: nat)
    requires i < |elems|
    ensures sz + |ElemHead(elems, i, sz)| == SizeAlign(SizeAlign(sz, WORD), WORD)
  {
    hide Bytes, Aligned, Align;
  }

  lemma ElemSizable(t: Type, elems: seq<Option<Val>>, i: nat)
    requires t.Vector? && i < |elems| && Sizable(t, Some(VectorVal(elems)))
    ensures elems[i].Some? ==> Sizable(t.elem, elems[i])
  {
  }

  lemma {:induction false} ElemsExact(t: Type, elems: seq<Option<Val>>, i: nat, sz: nat)
    requires t.Vector? && i <= |elems| && Sizable(t, Some(VectorVal(elems))) && Solid(t.elem)
    requires forall j :: 0 <= j < |elems| && elems[j].Some? ==>
               HasType(elems[j].value, t.elem) && Full(t.elem, elems[j].value)
    ensures EncodeElems(t, elems, i, sz).Some?
    ensures ElemsSize(t, elems, i, sz, false) == sz + |EncodeElems(t, elems, i, sz).value|
    decreases t, 0, |elems| - i
  {
    hide KeySize, EncodeVal, Solid, HasType, Full, ElemHead, SizeAlign, Sizable;
    if i < |elems| {
      var head := SizeAlign(SizeAlign(sz, WORD), WORD);
      HeadLength(elems, i, sz);
      ElemSizable(t, elems, i);
      if elems[i].Some? {
        SizeExact(t.elem, elems[i].value, head, false);
      }
      ElemsExact(t, elems, i + 1, ElemSize(t, elems, i, sz, false));
    }
  }

  lemma {:induction false} ItemsExact(t: Type, items: seq<Val>, i: nat, sz: nat)
    requires t.List? && |items| == |t.types| && i <= |items| && AllSizable(t.types, Some(items))
    requires forall j :: 0 <= j < |items| ==>
               Solid(t.types[j]) && HasType(items[j], t.types[j]) && Full(t.types[j], items[j])
    ensures EncodeItems(t, items, i, sz).Some?
    ensures ItemsSize(t.types, Some(items), i, sz, false) == sz + |EncodeItems(t, items, i, sz).value|
    decreases t, 0, |items| - i
  {
    hide KeySize, EncodeVal, Solid, HasType, Full, Sizable;
    if i < |items| {
      SizeExact(t.types[i], items[i], sz, false);
      ItemsExact(t, items, i + 1, KeySize(t.types[i], Some(items[i]), sz, false, false));
    }
  }

  /** So the buffer made for the key of values without missing fields is filled to the end, apart from rounding. */
  lemma KeyExact(types: seq<Type>, vals: seq<Val>)
    requires HaveTypes(vals, types) && AllSizable(types, Some(vals))
    requires forall i :: 0 <= i < |vals| ==> Full(types[i], vals[i])
    ensures Key(types, vals).Some? && |Key(types, vals).value| == ItemsSize(types, Some(vals), 0, 0, false)
  {
    ItemsExact(List(types), vals, 0, 0);
  }
}
