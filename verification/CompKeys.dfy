/** The byte keys of src/CompHash.cc: values laid out after each other, each aligned for its type, and the way back. */
module CompKeys {
  import opened Basics

  // ----- types and values -----

  /** Types kept in eight bytes, and types kept in four-byte words. */
  datatype ScalarKind = INT | UNSIGNED | DOUBLE
  datatype WordsKind = ADDR | SUBNET | FUNC

  datatype Field = Field(ty: Type, optional: bool)

  datatype Type =
    | Scalar(skind: ScalarKind)
    | Words(wkind: WordsKind)
    | Str
    | Record(fields: seq<Field>)
    | Vector(elem: Type)
    | List(types: seq<Type>)

  /** A scalar is known by its bit pattern; record fields and vector elements may be absent. */
  datatype Val =
    | ScalarVal(skind: ScalarKind, bits: nat)
    | WordsVal(wkind: WordsKind, words: seq<nat>)
    | StrVal(bytes: seq<Byte>)
    | RecordVal(vals: seq<Option<Val>>)
    | VectorVal(elems: seq<Option<Val>>)
    | ListVal(items: seq<Val>)

  function WordCount(kind: WordsKind): nat {
    match kind
    case ADDR => 4
    case SUBNET => 5
    case FUNC => 1
  }

  ghost predicate HasType(v: Val, t: Type)
    decreases t, 1
  {
    match t
    case Scalar(kind) => v.ScalarVal? && v.skind == kind && v.bits < 0x1_0000_0000_0000_0000
    case Words(kind) =>
      v.WordsVal? && v.wkind == kind && |v.words| == WordCount(kind)
        && forall i :: 0 <= i < |v.words| ==> v.words[i] < 0x1_0000_0000
    case Str => v.StrVal? && |v.bytes| < 0x8000_0000
    case Record(fields) =>
      v.RecordVal? && |v.vals| == |fields| && forall i :: 0 <= i < |fields| ==> MayHaveType(v.vals[i], fields[i].ty)
    case Vector(elem) =>
      v.VectorVal? && |v.elems| < 0x1_0000_0000 && forall i :: 0 <= i < |v.elems| ==> MayHaveType(v.elems[i], elem)
    case List(types) =>
      v.ListVal? && |v.items| == |types| < 0x8000_0000 && forall i :: 0 <= i < |types| ==> HasType(v.items[i], types[i])
  }

  ghost predicate MayHaveType(v: Option<Val>, t: Type)
    decreases t, 2
  {
    v.Some? ==> HasType(v.value, t)
  }

  /** The value goes with the type: its kind and the number of its parts, all the way down. */
  ghost predicate OfKind(v: Val, t: Type)
    decreases t
  {
    match t
    case Scalar(kind) => v.ScalarVal? && v.skind == kind
    case Words(kind) => v.WordsVal? && v.wkind == kind && |v.words| == WordCount(kind)
    case Str => v.StrVal?
    case Record(fields) =>
      v.RecordVal? && |v.vals| == |fields|
        && forall i :: 0 <= i < |fields| && v.vals[i].Some? ==> OfKind(v.vals[i].value, fields[i].ty)
    case Vector(elem) =>
      v.VectorVal? && forall i :: 0 <= i < |v.elems| && v.elems[i].Some? ==> OfKind(v.elems[i].value, elem)
    case List(types) =>
      v.ListVal? && |v.items| == |types| && forall i :: 0 <= i < |types| ==> OfKind(v.items[i], types[i])
  }

  /** The numbers in a value are those its representation has room for. */
  ghost predicate Stored(v: Val)
    decreases v
  {
    match v
    case ScalarVal(_, bits) => bits < 0x1_0000_0000_0000_0000
    case WordsVal(_, words) => forall i :: 0 <= i < |words| ==> words[i] < 0x1_0000_0000
    case StrVal(bytes) => |bytes| < 0x8000_0000
    case RecordVal(vals) => forall i :: 0 <= i < |vals| && vals[i].Some? ==> Stored(vals[i].value)
    case VectorVal(elems) =>
      |elems| < 0x1_0000_0000 && forall i :: 0 <= i < |elems| && elems[i].Some? ==> Stored(elems[i].value)
    case ListVal(items) => |items| < 0x8000_0000 && forall i :: 0 <= i < |items| ==> Stored(items[i])
  }

  lemma {:induction false} HasTypeIff(v: Val, t: Type)
    ensures HasType(v, t) <==> OfKind(v, t) && Stored(v)
    decreases t
  {
    match t
    case Record(fields) =>
      if v.RecordVal? && |v.vals| == |fields| {
        forall i | 0 <= i < |fields| && v.vals[i].Some?
          ensures HasType(v.vals[i].value, fields[i].ty)
                  <==> OfKind(v.vals[i].value, fields[i].ty) && Stored(v.vals[i].value)
        {
          HasTypeIff(v.vals[i].value, fields[i].ty);
        }
      }
    case Vector(elem) =>
      if v.VectorVal? {
        forall i | 0 <= i < |v.elems| && v.elems[i].Some?
          ensures HasType(v.elems[i].value, elem) <==> OfKind(v.elems[i].value, elem) && Stored(v.elems[i].value)
        {
          HasTypeIff(v.elems[i].value, elem);
        }
      }
    case List(types) =>
      if v.ListVal? && |v.items| == |types| {
        forall i | 0 <= i < |types|
          ensures HasType(v.items[i], types[i]) <==> OfKind(v.items[i], types[i]) && Stored(v.items[i])
        {
          HasTypeIff(v.items[i], types[i]);
        }
      }
    case _ =>
  }

  /** Every record has a field. */
  ghost predicate Solid(t: Type) {
    match t
    case Record(fields) => |fields| > 0 && forall i :: 0 <= i < |fields| ==> Solid(fields[i].ty)
    case Vector(elem) => Solid(elem)
    case List(types) => forall i :: 0 <= i < |types| ==> Solid(types[i])
    case _ => true
  }

  // ----- numbers in memory -----

  /** A number in `k` bytes, least significant first. */
  function Bytes(n: nat, k: nat): (b: seq<Byte>)
    ensures |b| == k
  {
    if k == 0 then [] else [n % 256] + Bytes(n / 256, k - 1)
  }

  function Number(b: seq<Byte>): nat {
    if b == [] then 0 else b[0] as int + 256 * Number(b[1..])
  }

  function Pow256(k: nat): nat {
    if k == 0 then 1 else 256 * Pow256(k - 1)
  }

  lemma {:induction false} NumberBytes(n: nat, k: nat)
    requires n < Pow256(k)
    ensures Number(Bytes(n, k)) == n
    decreases k
  {
    if k > 0 {
      NumberBytes(n / 256, k - 1);
      assert Bytes(n, k)[1..] == Bytes(n / 256, k - 1);
    }
  }

  // ----- alignment -----

  const WORD := 4
  const EIGHT := 8

  /** The sizes that things are aligned to. */
  predicate Width(size: nat) {
    size == 1 || size == WORD || size == EIGHT
  }

  lemma Multiples(p: nat)
    ensures (p - p % WORD + WORD) % WORD == 0 && (p - p % EIGHT + EIGHT) % EIGHT == 0
  {
    assert p - p % WORD + WORD == WORD * (p / WORD + 1);
    assert p - p % EIGHT + EIGHT == EIGHT * (p / EIGHT + 1);
  }

  /** `Align`: the next address that is a multiple of the size; the low bits are the remainder. */
  function Align(p: nat, size: nat): (q: nat)
    requires Width(size)
    ensures p <= q < p + size && (size == WORD ==> q % WORD == 0) && (size == EIGHT ==> q % EIGHT == 0)
  {
    Multiples(p);
    var offset := if size == EIGHT then p % EIGHT else if size == WORD then p % WORD else 0;
    if offset > 0 then p - offset + size else p
  }

  lemma AlignMonotone(p: nat, q: nat, size: nat)
    requires Width(size) && p <= q
    ensures Align(p, size) <= Align(q, size)
  {
  }

  function Zeros(n: nat): (z: seq<Byte>)
    ensures |z| == n
  {
    seq(n, _ => 0)
  }

  /** What is written at `p` for something of `size` bytes that must be aligned to its size. */
  function Aligned(p: nat, size: nat, b: seq<Byte>): (e: seq<Byte>)
    requires Width(size)
    ensures |e| == Align(p, size) - p + |b|
  {
    Zeros(Align(p, size) - p) + b
  }

  function WordAt(p: nat, n: nat): seq<Byte> {
    Aligned(p, WORD, Bytes(n, WORD))
  }

  // ----- encoding -----

  /** `SingleValHash`: the bytes it writes from offset `p` on, or none if the value does not go with the type or
      lacks a field it must have. */
  function Encode(t: Type, v: Option<Val>, optional: bool, p: nat): (r: Option<seq<Byte>>)
    decreases t, 2, 0
  {
    if !optional then
      (if v.None? then None else EncodeVal(t, v.value, p))
    else if v.None? then Some([0])
    else
      var e := EncodeVal(t, v.value, p + 1);
      if e.None? then None else Some([1] + e.value)
  }

  function EncodeVal(t: Type, v: Val, p: nat): (r: Option<seq<Byte>>)
    decreases t, 1, 0
  {
    match t
    case Scalar(kind) =>
      if v.ScalarVal? && v.skind == kind then Some(Aligned(p, EIGHT, Bytes(v.bits, EIGHT))) else None
    case Words(kind) =>
      if v.WordsVal? && v.wkind == kind && |v.words| == WordCount(kind) then Some(EncodeWords(v.words, p)) else None
    case Str =>
      if v.StrVal? then Some(WordAt(p, |v.bytes|) + v.bytes) else None
    case Record(fields) =>
      if v.RecordVal? && |v.vals| == |fields| then EncodeFields(t, v.vals, 0, p) else None
    case Vector(_) =>
      if v.VectorVal? then
        var n := WordAt(p, |v.elems|);
        Then(n, EncodeElems(t, v.elems, 0, p + |n|))
      else None
    case List(types) =>
      if v.ListVal? && |v.items| == |types| then
        var n := WordAt(p, |v.items|);
        Then(n, EncodeItems(t, v.items, 0, p + |n|))
      else None
  }

  function Then(b: seq<Byte>, e: Option<seq<Byte>>): Option<seq<Byte>> {
    if e.None? then None else Some(b + e.value)
  }

  function EncodeWords(words: seq<nat>, p: nat): seq<Byte> {
    if words == [] then [] else WordAt(p, words[0]) + EncodeWords(words[1..], p + |WordAt(p, words[0])|)
  }

  /** The fields from the `i`-th on. */
  function EncodeFields(t: Type, vals: seq<Option<Val>>, i: nat, p: nat): (r: Option<seq<Byte>>)
    requires t.Record? && |vals| == |t.fields| && i <= |vals|
    decreases t, 0, |vals| - i
  {
    if i == |vals| then Some([])
    else
      var e := Encode(t.fields[i].ty, vals[i], t.fields[i].optional, p);
      if e.None? then None else Then(e.value, EncodeFields(t, vals, i + 1, p + |e.value|))
  }

  /** One element: its index, whether it is there, and the element. */
  function EncodeElem(t: Type, elems: seq<Option<Val>>, i: nat, p: nat): (r: Option<seq<Byte>>)
    requires t.Vector? && i < |elems|
    decreases t, 0, 0
  {
    var head := ElemHead(elems, i, p);
    if elems[i].None? then Some(head) else Then(head, EncodeVal(t.elem, elems[i].value, p + |head|))
  }

  /** The elements from the `i`-th on. */
  function EncodeElems(t: Type, elems: seq<Option<Val>>, i: nat, p: nat): (r: Option<seq<Byte>>)
    requires t.Vector? && i <= |elems|
    decreases t, 0, |elems| - i
  {
    if i == |elems| then Some([])
    else
      var e := EncodeElem(t, elems, i, p);
      if e.None? then None else Then(e.value, EncodeElems(t, elems, i + 1, p + |e.value|))
  }

  function ElemHead(elems: seq<Option<Val>>, i: nat, p: nat): seq<Byte>
    requires i < |elems|
  {
    var index := WordAt(p, i);
    index + WordAt(p + |index|, if elems[i].Some? then 1 else 0)
  }

  function EncodeItems(t: Type, items: seq<Val>, i: nat, p: nat): (r: Option<seq<Byte>>)
    requires t.List? && |items| == |t.types| && i <= |items|
    decreases t, 0, |items| - i
  {
    if i == |items| then Some([])
    else
      var e := EncodeVal(t.types[i], items[i], p);
      if e.None? then None else Then(e.value, EncodeItems(t, items, i + 1, p + |e.value|))
  }

  // ----- recovering -----

  datatype Recovered<T> = Bad | Got(value: T, pos: nat)

  function ReadBytes(b: seq<Byte>, p: nat, n: nat): Recovered<seq<Byte>> {
    if p + n <= |b| then Got(b[p..p + n], p + n) else Bad
  }

  function ReadNumber(b: seq<Byte>, p: nat, size: nat): Recovered<nat>
    requires Width(size)
  {
    var r := ReadBytes(b, Align(p, size), size);
    if r.Bad? then Bad else Got(Number(r.value), r.pos)
  }

  /** `RecoverOneVal`: the value at offset `p`, absent if it is optional and marked so. */
  function Recover(b: seq<Byte>, t: Type, optional: bool, p: nat): (r: Recovered<Option<Val>>)
    decreases t, 2, 0
  {
    if p >= |b| then Bad
    else if !optional then Present(RecoverVal(b, t, p))
    else if b[p] == 0 then Got(None, p + 1)
    else Present(RecoverVal(b, t, p + 1))
  }

  function Present(r: Recovered<Val>): Recovered<Option<Val>> {
    if r.Bad? then Bad else Got(Some(r.value), r.pos)
  }

  function RecoverVal(b: seq<Byte>, t: Type, p: nat): (r: Recovered<Val>)
    decreases t, 1, 0
  {
    match t
    case Scalar(kind) =>
      var r := ReadNumber(b, p, EIGHT);
      if r.Bad? then Bad else Got(ScalarVal(kind, r.value), r.pos)
    case Words(kind) =>
      var r := RecoverWords(b, WordCount(kind), p);
      if r.Bad? then Bad else Got(WordsVal(kind, r.value), r.pos)
    case Str =>
      var n := ReadNumber(b, p, WORD);
      if n.Bad? then Bad
      else
        var r := ReadBytes(b, n.pos, n.value);
        if r.Bad? then Bad else Got(StrVal(r.value), r.pos)
    case Record(fields) =>
      var r := RecoverFields(b, t, 0, p);
      if r.Bad? then Bad else Got(RecordVal(r.value), r.pos)
    case Vector(_) =>
      var n := ReadNumber(b, p, WORD);
      if n.Bad? then Bad
      else
        var r := RecoverElems(b, t, n.value, n.pos, []);
        if r.Bad? then Bad else Got(VectorVal(r.value), r.pos)
    case List(types) =>
      var n := ReadNumber(b, p, WORD);
      if n.Bad? || n.value > |types| then Bad
      else
        var r := RecoverItems(b, t, 0, n.value, n.pos);
        if r.Bad? then Bad else Got(ListVal(r.value), r.pos)
  }

  function RecoverWords(b: seq<Byte>, n: nat, p: nat): Recovered<seq<nat>>
    decreases n
  {
    if n == 0 then Got([], p)
    else
      var w := ReadNumber(b, p, WORD);
      if w.Bad? then Bad
      else
        var r := RecoverWords(b, n - 1, w.pos);
        if r.Bad? then Bad else Got([w.value] + r.value, r.pos)
  }

  function RecoverFields(b: seq<Byte>, t: Type, i: nat, p: nat): (r: Recovered<seq<Option<Val>>>)
    requires t.Record? && i <= |t.fields|
    decreases t, 0, |t.fields| - i
  {
    if i == |t.fields| then Got([], p)
    else
      var f := Recover(b, t.fields[i].ty, t.fields[i].optional, p);
      if f.Bad? then Bad
      else
        var r := RecoverFields(b, t, i + 1, f.pos);
        if r.Bad? then Bad else Got([f.value] + r.value, r.pos)
  }

  /** A vector grows to the index assigned. */
  function Assign(elems: seq<Option<Val>>, index: nat, v: Option<Val>): seq<Option<Val>> {
    if index < |elems| then elems[index := v] else elems + seq(index - |elems|, _ => None) + [v]
  }

  /** `n` more elements. */
  function RecoverElems(b: seq<Byte>, t: Type, n: nat, p: nat,
                        elems: seq<Option<Val>>): (r: Recovered<seq<Option<Val>>>)
    requires t.Vector?
    decreases t, 0, n
  {
    if n == 0 then Got(elems, p)
    else
      var index := ReadNumber(b, p, WORD);
      if index.Bad? then Bad
      else
        var have := ReadNumber(b, index.pos, WORD);
        if have.Bad? then Bad
        else if have.value == 0 then RecoverElems(b, t, n - 1, have.pos, Assign(elems, index.value, None))
        else
          var v := Recover(b, t.elem, false, have.pos);
          if v.Bad? then Bad else RecoverElems(b, t, n - 1, v.pos, Assign(elems, index.value, v.value))
  }

  function RecoverItems(b: seq<Byte>, t: Type, i: nat, n: nat, p: nat): (r: Recovered<seq<Val>>)
    requires t.List? && i <= n <= |t.types|
    decreases t, 0, n - i
  {
    if i == n then Got([], p)
    else
      var v := Recover(b, t.types[i], false, p);
      if v.Bad? || v.value.None? then Bad
      else
        var r := RecoverItems(b, t, i + 1, n, v.pos);
        if r.Bad? then Bad else Got([v.value.value] + r.value, r.pos)
  }

  // ----- the way back -----

  /** `e` stands in `b` at offset `p`. */
  ghost predicate At(b: seq<Byte>, p: nat, e: seq<Byte>) {
    p + |e| <= |b| && b[p..p + |e|] == e
  }

  lemma AtSplit(b: seq<Byte>, p: nat, e: seq<Byte>, f: seq<Byte>)
    requires At(b, p, e + f)
    ensures At(b, p, e) && At(b, p + |e|, f)
  {
    assert b[p..p + |e|] == b[p..p + |e| + |f|][..|e|];
    assert b[p + |e|..p + |e| + |f|] == b[p..p + |e| + |f|][|e|..];
  }

  lemma Pow256Words()
    ensures Pow256(WORD) == 0x1_0000_0000 && Pow256(EIGHT) == 0x1_0000_0000_0000_0000
  {
    assert Pow256(2) == 256 * Pow256(1);
    assert Pow256(4) == 256 * (256 * Pow256(2));
    assert Pow256(6) == 256 * (256 * Pow256(4));
    assert Pow256(8) == 256 * (256 * Pow256(6));
  }

  lemma ReadBack(b: seq<Byte>, p: nat, size: nat, n: nat)
    requires Width(size) && n < Pow256(size) && At(b, p, Aligned(p, size, Bytes(n, size)))
    ensures ReadNumber(b, p, size) == Got(n, p + |Aligned(p, size, Bytes(n, size))|)
  {
    AtSplit(b, p, Zeros(Align(p, size) - p), Bytes(n, size));
    NumberBytes(n, size);
  }

  lemma ReadThere(b: seq<Byte>, p: nat, e: seq<Byte>)
    requires At(b, p, e)
    ensures ReadBytes(b, p, |e|) == Got(e, p + |e|)
  {
  }

  lemma ReadWord(b: seq<Byte>, p: nat, n: nat)
    requires n < 0x1_0000_0000 && At(b, p, WordAt(p, n))
    ensures ReadNumber(b, p, WORD) == Got(n, p + |WordAt(p, n)|)
  {
    Pow256Words();
    ReadBack(b, p, WORD, n);
  }

  /** Whatever is encoded takes at least a byte. */
  lemma {:induction false} NotEmpty(t: Type, v: Option<Val>, optional: bool, p: nat)
    requires Solid(t) && Encode(t, v, optional, p).Some?
    ensures |Encode(t, v, optional, p).value| > 0
    decreases t
  {
    if !optional {
      if t.Record? {
        assert EncodeFields(t, v.value.vals, 0, p).Some?;
        NotEmpty(t.fields[0].ty, v.value.vals[0], t.fields[0].optional, p);
      }
    }
  }

  lemma {:induction false} WordsBack(b: seq<Byte>, words: seq<nat>, p: nat)
    requires (forall i :: 0 <= i < |words| ==> words[i] < 0x1_0000_0000) && At(b, p, EncodeWords(words, p))
    ensures RecoverWords(b, |words|, p) == Got(words, p + |EncodeWords(words, p)|)
    decreases |words|
  {
    if words != [] {
      var w := WordAt(p, words[0]);
      AtSplit(b, p, w, EncodeWords(words[1..], p + |w|));
      ReadWord(b, p, words[0]);
      WordsBack(b, words[1..], p + |w|);
      assert words == [words[0]] + words[1..];
    }
  }

  /** Recovering gives back what was encoded, wherever it starts and whatever surrounds it. */
  lemma {:induction false} Back(b: seq<Byte>, t: Type, v: Option<Val>, optional: bool, p: nat)
    requires Solid(t) && MayHaveType(v, t) && Encode(t, v, optional, p).Some?
             && At(b, p, Encode(t, v, optional, p).value)
    ensures Recover(b, t, optional, p) == Got(v, p + |Encode(t, v, optional, p).value|)
    decreases t, 2, 0
  {
    hide EncodeVal, RecoverVal, Solid, HasType;
    NotEmpty(t, v, optional, p);
    if !optional {
      BackVal(b, t, v.value, p);
    } else if v.Some? {
      AtSplit(b, p, [1], EncodeVal(t, v.value, p + 1).value);
      assert b[p..p + 1] == [1];
      BackVal(b, t, v.value, p + 1);
    } else {
      assert b[p..p + 1] == [0];
    }
  }

  lemma {:induction false} BackVal(b: seq<Byte>, t: Type, v: Val, p: nat)
    requires Solid(t) && HasType(v, t) && EncodeVal(t, v, p).Some? && At(b, p, EncodeVal(t, v, p).value)
    ensures RecoverVal(b, t, p) == Got(v, p + |EncodeVal(t, v, p).value|)
    decreases t, 1, 0
  {
    hide Align, Aligned, WordAt, Bytes, ReadNumber, Pow256, Encode, Recover, EncodeFields, EncodeElems, EncodeItems, At;
    match t
    case Scalar(kind) =>
      Pow256Words();
      ReadBack(b, p, EIGHT, v.bits);
    case Words(kind) =>
      WordsBack(b, v.words, p);
    case Str =>
      AtSplit(b, p, WordAt(p, |v.bytes|), v.bytes);
      ReadWord(b, p, |v.bytes|);
      ReadThere(b, p + |WordAt(p, |v.bytes|)|, v.bytes);
    case Record(fields) =>
      BackFields(b, t, v.vals, 0, p);
      assert v.vals[0..] == v.vals;
    case Vector(_) =>
      var n := WordAt(p, |v.elems|);
      AtSplit(b, p, n, EncodeElems(t, v.elems, 0, p + |n|).value);
      ReadWord(b, p, |v.elems|);
      assert v.elems[..0] == [];
      BackElems(b, t, v.elems, 0, p + |n|);
    case List(types) =>
      var n := WordAt(p, |v.items|);
      AtSplit(b, p, n, EncodeItems(t, v.items, 0, p + |n|).value);
      ReadWord(b, p, |v.items|);
      BackItems(b, t, v.items, 0, p + |n|);
      assert v.items[0..] == v.items;
  }

  lemma {:induction false} BackFields(b: seq<Byte>, t: Type, vals: seq<Option<Val>>, i: nat, p: nat)
    requires t.Record? && |vals| == |t.fields| && i <= |vals|
    requires forall j :: 0 <= j < |vals| ==> Solid(t.fields[j].ty) && MayHaveType(vals[j], t.fields[j].ty)
    requires EncodeFields(t, vals, i, p).Some? && At(b, p, EncodeFields(t, vals, i, p).value)
    ensures RecoverFields(b, t, i, p) == Got(vals[i..], p + |EncodeFields(t, vals, i, p).value|)
    decreases t, 0, |vals| - i
  {
    hide Encode, Recover, At, Solid, MayHaveType;
    if i == |vals| {
      assert vals[i..] == [];
    } else {
      var e := Encode(t.fields[i].ty, vals[i], t.fields[i].optional, p).value;
      AtSplit(b, p, e, EncodeFields(t, vals, i + 1, p + |e|).value);
      Back(b, t.fields[i].ty, vals[i], t.fields[i].optional, p);
      BackFields(b, t, vals, i + 1, p + |e|);
      assert vals[i..] == [vals[i]] + vals[i + 1..];
    }
  }

  lemma {:induction false} BackElems(b: seq<Byte>, t: Type, elems: seq<Option<Val>>, i: nat, p: nat)
    requires t.Vector? && i <= |elems| < 0x1_0000_0000 && Solid(t.elem)
    requires forall j :: 0 <= j < |elems| ==> MayHaveType(elems[j], t.elem)
    requires EncodeElems(t, elems, i, p).Some? && At(b, p, EncodeElems(t, elems, i, p).value)
    ensures RecoverElems(b, t, |elems| - i, p, elems[..i]) == Got(elems, p + |EncodeElems(t, elems, i, p).value|)
    decreases t, 0, |elems| - i
  {
    hide EncodeElems, RecoverElems, ElemHead, Encode, Recover, At, Assign, Solid, MayHaveType;
    if i == |elems| {
      ElemsEnd(b, t, elems, p);
    } else {
      var head := ElemHead(elems, i, p);
      var e, rest := ElemsUnfold(t, elems, i, p);
      AtSplit(b, p, head, e + rest);
      AtSplit(b, p + |head|, e, rest);
      HeadBack(b, elems, i, p);
      if elems[i].Some? {
        Back(b, t.elem, elems[i], false, p + |head|);
      }
      RecoverStep(b, t, elems, i, p, p + |head|, p + |head| + |e|);
      BackElems(b, t, elems, i + 1, p + |head| + |e|);
    }
  }

  lemma ElemsEnd(b: seq<Byte>, t: Type, elems: seq<Option<Val>>, p: nat)
    requires t.Vector?
    ensures EncodeElems(t, elems, |elems|, p) == Some([]) && RecoverElems(b, t, 0, p, elems[..|elems|]) == Got(elems, p)
  {
    assert elems[..|elems|] == elems;
  }

  lemma ElemsUnfold(t: Type, elems: seq<Option<Val>>, i: nat, p: nat) returns (e: seq<Byte>, rest: seq<Byte>)
    requires t.Vector? && i < |elems| && EncodeElems(t, elems, i, p).Some?
    ensures var head := ElemHead(elems, i, p);
            && EncodeElems(t, elems, i, p).value == head + (e + rest)
            && EncodeElems(t, elems, i + 1, p + |head| + |e|) == Some(rest)
            && if elems[i].None? then e == [] else Encode(t.elem, elems[i], false, p + |head|) == Some(e)
  {
    hide ElemHead, EncodeVal, WordAt;
    var head := ElemHead(elems, i, p);
    e := if elems[i].None? then [] else EncodeVal(t.elem, elems[i].value, p + |head|).value;
    rest := EncodeElems(t, elems, i + 1, p + |head| + |e|).value;
    assert head + e + rest == head + (e + rest);
    assert elems[i].None? ==> head + rest == head + (e + rest);
  }

  lemma RecoverStep(b: seq<Byte>, t: Type, elems: seq<Option<Val>>, i: nat, p: nat, q: nat, r: nat)
    requires t.Vector? && i < |elems|
    requires var index := ReadNumber(b, p, WORD);
             index.Got? && index.value == i && ReadNumber(b, index.pos, WORD) == Got(if elems[i].Some? then 1 else 0, q)
    requires if elems[i].None? then r == q else Recover(b, t.elem, false, q) == Got(elems[i], r)
    ensures RecoverElems(b, t, |elems| - i, p, elems[..i]) == RecoverElems(b, t, |elems| - i - 1, r, elems[..i + 1])
  {
    assert Assign(elems[..i], i, elems[i]) == elems[..i + 1];
  }

  lemma HeadBack(b: seq<Byte>, elems: seq<Option<Val>>, i: nat, p: nat)
    requires i < |elems| < 0x1_0000_0000 && At(b, p, ElemHead(elems, i, p))
    ensures var index := ReadNumber(b, p, WORD);
            index.Got? && index.value == i
            && ReadNumber(b, index.pos, WORD) == Got(if elems[i].Some? then 1 else 0, p + |ElemHead(elems, i, p)|)
  {
    var have := if elems[i].Some? then 1 else 0;
    AtSplit(b, p, WordAt(p, i), WordAt(p + |WordAt(p, i)|, have));
    ReadWord(b, p, i);
    ReadWord(b, p + |WordAt(p, i)|, have);
  }

  lemma {:induction false} BackItems(b: seq<Byte>, t: Type, items: seq<Val>, i: nat, p: nat)
    requires t.List? && |items| == |t.types| && i <= |items|
    requires forall j :: 0 <= j < |items| ==> Solid(t.types[j]) && HasType(items[j], t.types[j])
    requires EncodeItems(t, items, i, p).Some? && At(b, p, EncodeItems(t, items, i, p).value)
    ensures RecoverItems(b, t, i, |items|, p) == Got(items[i..], p + |EncodeItems(t, items, i, p).value|)
    decreases t, 0, |items| - i
  {
    hide EncodeVal, Recover, At, Solid, HasType;
    if i == |items| {
      assert items[i..] == [];
    } else {
      var e := EncodeVal(t.types[i], items[i], p).value;
      AtSplit(b, p, e, EncodeItems(t, items, i + 1, p + |e|).value);
      Back(b, t.types[i], Some(items[i]), false, p);
      BackItems(b, t, items, i + 1, p + |e|);
      assert items[i..] == [items[i]] + items[i + 1..];
    }
  }

  // ----- whole keys -----

  /** `ComputeHash` of a list of values, for an index of several types: the bytes of its key. */
  function Key(types: seq<Type>, vals: seq<Val>): Option<seq<Byte>> {
    if |vals| == |types| then EncodeItems(List(types), vals, 0, 0) else None
  }

  /** `RecoverVals`. */
  function RecoverVals(types: seq<Type>, key: seq<Byte>): Option<seq<Val>> {
    var r := RecoverItems(key, List(types), 0, |types|, 0);
    if r.Bad? || r.pos != |key| then None else Some(r.value)
  }

  ghost predicate HaveTypes(vals: seq<Val>, types: seq<Type>) {
    |vals| == |types| && forall i :: 0 <= i < |vals| ==> Solid(types[i]) && HasType(vals[i], types[i])
  }

  /** The values come back from their key, which is read to its end. */
  lemma KeyBack(types: seq<Type>, vals: seq<Val>)
    requires HaveTypes(vals, types) && Key(types, vals).Some?
    ensures RecoverVals(types, Key(types, vals).value) == Some(vals)
  {
    var b := Key(types, vals).value;
    assert b[0..0 + |b|] == b;
    BackItems(b, List(types), vals, 0, 0);
    assert vals[0..] == vals;
  }

  /** Different values have different keys. */
  lemma KeyInjective(types: seq<Type>, vals: seq<Val>, vals': seq<Val>)
    requires HaveTypes(vals, types) && HaveTypes(vals', types)
    requires Key(types, vals).Some? && Key(types, vals) == Key(types, vals')
    ensures vals == vals'
  {
    KeyBack(types, vals);
    KeyBack(types, vals');
  }

  /** Every field that must be there is there. */
  ghost predicate Complete(t: Type, v: Val)
    decreases t
  {
    match t
    case Record(fields) =>
      v.RecordVal? && |v.vals| == |fields| ==>
        forall i :: 0 <= i < |fields| ==>
          (v.vals[i].None? ==> fields[i].optional) && (v.vals[i].Some? ==> Complete(fields[i].ty, v.vals[i].value))
    case Vector(elem) =>
      v.VectorVal? ==> forall i :: 0 <= i < |v.elems| && v.elems[i].Some? ==> Complete(elem, v.elems[i].value)
    case List(types) =>
      v.ListVal? && |v.items| == |types| ==> forall i :: 0 <= i < |types| ==> Complete(types[i], v.items[i])
    case _ => true
  }

  /** A value of the right type has an encoding exactly when no field it must have is missing. */
  lemma {:induction false} EncodesIff(t: Type, v: Val, p: nat)
    requires HasType(v, t)
    ensures EncodeVal(t, v, p).Some? <==> Complete(t, v)
    decreases t, 1, 0
  {
    hide Align, Aligned, WordAt, Bytes;
    match t
    case Record(fields) => FieldsEncodeIff(t, v.vals, 0, p);
    case Vector(elem) => ElemsEncodeIff(t, v.elems, 0, p + |WordAt(p, |v.elems|)|);
    case List(types) => ItemsEncodeIff(t, v.items, 0, p + |WordAt(p, |v.items|)|);
    case _ =>
  }

  lemma {:induction false} FieldsEncodeIff(t: Type, vals: seq<Option<Val>>, i: nat, p: nat)
    requires t.Record? && |vals| == |t.fields| && i <= |vals|
             && forall j :: 0 <= j < |vals| ==> MayHaveType(vals[j], t.fields[j].ty)
    ensures EncodeFields(t, vals, i, p).Some? <==>
            forall j :: i <= j < |vals| ==>
              (vals[j].None? ==> t.fields[j].optional) && (vals[j].Some? ==> Complete(t.fields[j].ty, vals[j].value))
    decreases t, 0, |vals| - i
  {
    if i < |vals| {
      var f := t.fields[i];
      if vals[i].Some? {
        EncodesIff(f.ty, vals[i].value, if f.optional then p + 1 else p);
      }
      var e := Encode(f.ty, vals[i], f.optional, p);
      if e.Some? {
        FieldsEncodeIff(t, vals, i + 1, p + |e.value|);
      }
    }
  }

  lemma {:induction false} ElemsEncodeIff(t: Type, elems: seq<Option<Val>>, i: nat, p: nat)
    requires t.Vector? && i <= |elems| && forall j :: 0 <= j < |elems| ==> MayHaveType(elems[j], t.elem)
    ensures EncodeElems(t, elems, i, p).Some? <==>
            forall j :: i <= j < |elems| && elems[j].Some? ==> Complete(t.elem, elems[j].value)
    decreases t, 0, |elems| - i
  {
    hide ElemHead;
    if i < |elems| {
      if elems[i].Some? {
        EncodesIff(t.elem, elems[i].value, p + |ElemHead(elems, i, p)|);
      }
      var e := EncodeElem(t, elems, i, p);
      if e.Some? {
        ElemsEncodeIff(t, elems, i + 1, p + |e.value|);
      }
    }
  }

  lemma {:induction false} ItemsEncodeIff(t: Type, items: seq<Val>, i: nat, p: nat)
    requires t.List? && |items| == |t.types| && i <= |items|
             && forall j :: 0 <= j < |items| ==> HasType(items[j], t.types[j])
    ensures EncodeItems(t, items, i, p).Some? <==> forall j :: i <= j < |items| ==> Complete(t.types[j], items[j])
    decreases t, 0, |items| - i
  {
    if i < |items| {
      EncodesIff(t.types[i], items[i], p);
      var e := EncodeVal(t.types[i], items[i], p);
      if e.Some? {
        ItemsEncodeIff(t, items, i + 1, p + |e.value|);
      }
    }
  }

  /** Only a value that goes with the type has an encoding. */
  lemma {:induction false} EncodesOfKind(t: Type, v: Val, p: nat)
    requires EncodeVal(t, v, p).Some?
    ensures OfKind(v, t)
    decreases t, 1, 0
  {
    hide Align, Aligned, WordAt, Bytes;
    match t
    case Record(fields) => FieldsOfKind(t, v.vals, 0, p);
    case Vector(elem) => ElemsOfKind(t, v.elems, 0, p + |WordAt(p, |v.elems|)|);
    case List(types) => ItemsOfKind(t, v.items, 0, p + |WordAt(p, |v.items|)|);
    case _ =>
  }

  lemma {:induction false} FieldsOfKind(t: Type, vals: seq<Option<Val>>, i: nat, p: nat)
    requires t.Record? && |vals| == |t.fields| && i <= |vals| && EncodeFields(t, vals, i, p).Some?
    ensures forall j :: i <= j < |vals| && vals[j].Some? ==> OfKind(vals[j].value, t.fields[j].ty)
    decreases t, 0, |vals| - i
  {
    if i < |vals| {
      var f := t.fields[i];
      if vals[i].Some? {
        EncodesOfKind(f.ty, vals[i].value, if f.optional then p + 1 else p);
      }
      FieldsOfKind(t, vals, i + 1, p + |Encode(f.ty, vals[i], f.optional, p).value|);
    }
  }

  lemma {:induction false} ElemsOfKind(t: Type, elems: seq<Option<Val>>, i: nat, p: nat)
    requires t.Vector? && i <= |elems| && EncodeElems(t, elems, i, p).Some?
    ensures forall j :: i <= j < |elems| && elems[j].Some? ==> OfKind(elems[j].value, t.elem)
    decreases t, 0, |elems| - i
  {
    hide ElemHead;
    if i < |elems| {
      if elems[i].Some? {
        EncodesOfKind(t.elem, elems[i].value, p + |ElemHead(elems, i, p)|);
      }
      ElemsOfKind(t, elems, i + 1, p + |EncodeElem(t, elems, i, p).value|);
    }
  }

  lemma {:induction false} ItemsOfKind(t: Type, items: seq<Val>, i: nat, p: nat)
    requires t.List? && |items| == |t.types| && i <= |items| && EncodeItems(t, items, i, p).Some?
    ensures forall j :: i <= j < |items| ==> OfKind(items[j], t.types[j])
    decreases t, 0, |items| - i
  {
    if i < |items| {
      EncodesOfKind(t.types[i], items[i], p);
      ItemsOfKind(t, items, i + 1, p + |EncodeVal(t.types[i], items[i], p).value|);
    }
  }

  /** The values go with the types of the index. */
  ghost predicate OfKinds(vals: seq<Val>, types: seq<Type>) {
    |vals| == |types| && forall i :: 0 <= i < |vals| ==> OfKind(vals[i], types[i])
  }

  /** Values have a key only if they go with the types. */
  lemma KeyOfKinds(types: seq<Type>, vals: seq<Val>)
    requires Key(types, vals).Some?
    ensures OfKinds(vals, types)
  {
    ItemsOfKind(List(types), vals, 0, 0);
  }

  /** The types of the index are proper, and the values can be there. */
  ghost predicate Storable(vals: seq<Val>, types: seq<Type>) {
    && (forall i :: 0 <= i < |types| ==> Solid(types[i])) && forall i :: 0 <= i < |vals| ==> Stored(vals[i])
  }

  lemma HaveTypesIff(vals: seq<Val>, types: seq<Type>)
    requires Storable(vals, types)
    ensures HaveTypes(vals, types) <==> OfKinds(vals, types)
  {
    hide Solid, HasType, OfKind, Stored;
    if |vals| == |types| {
      forall i | 0 <= i < |vals|
        ensures HasType(vals[i], types[i]) <==> OfKind(vals[i], types[i])
      {
        HasTypeIff(vals[i], types[i]);
      }
    }
  }
}
