/** The A50 tree of src/Anon.cc, as a set of nodes: each stands for a stretch of the address space, and together they
    keep the map they stand for prefix-preserving. */
module AnonTree {
  import opened AnonBits

  // ----- outputs -----

  lemma XorOne(x: nat)
    ensures Xor(x, 1) == if x % 2 == 0 then x + 1 else x - 1
  {
    XorZero(x / 2, 0);
    XorNone(x / 2);
    assert Xor(x, 1) == 2 * Xor(x / 2, 0) + (x % 2 + 1) % 2;
  }

  lemma {:induction false} XorNone(x: nat)
    ensures Xor(x, 0) == x
    decreases x
  {
    if x > 0 {
      XorNone(x / 2);
    }
  }

  lemma {:induction false} ShrBound(x: nat, m: nat, n: nat)
    requires x < Pow2(m + n)
    ensures Shr(x, n) < Pow2(m)
    decreases n
  {
    if n > 0 {
      ShrBound(x / 2, m, n - 1);
    }
  }

  lemma {:induction false} Pow2Monotone(m: nat, n: nat)
    requires m <= n
    ensures Pow2(m) <= Pow2(n)
    decreases n
  {
    if m < n {
      Pow2Monotone(m, n - 1);
    }
  }

  /** The random bits of an output: what is left of 31 of them after the shift stays below the flipped bit. */
  lemma RandomBits(r: Addr, s: nat)
    requires 1 <= s <= 31
    ensures Shr(r % 0x8000_0000, s) < Pow2(32 - s)
  {
    Pow2Word();
    assert Pow2(32) == 2 * Pow2(31);
    ShrBound(r % 0x8000_0000, 31 - s, s);
    Pow2Monotone(31 - s, 32 - s);
  }

  /** `make_output`: keeps the bits before `s`, flips bit `s`, and takes the others from the random word. */
  function MakeOutput(o: Addr, s: nat, r: Addr): (o': int)
    requires 1 <= s <= 32
  {
    if s == 32 then Xor(o, 1)
    else Shl(Xor(Shr(o, 32 - s), 1), 32 - s) + Shr(r % 0x8000_0000, s)
  }

  lemma HalfWord()
    ensures Pow2(31) == 0x8000_0000
  {
    Pow2Word();
    assert Pow2(32) == 2 * Pow2(31);
  }

  /** Below its top bit a random word goes on being one. */
  lemma WordBit(r: Addr, k: nat)
    requires 1 <= k <= 32
    ensures Bit(r % 0x8000_0000, k) == (k >= 2 && Bit(r, k))
  {
    hide Shr, Shl, Pow2;
    HalfWord();
    var w, b := r % 0x8000_0000, r / 0x8000_0000;
    if k == 1 {
      ShrSmall(w, 31);
    } else {
      ShlIs(b, 31);
      assert r == Shl(b, 31) + w;
      ShrShlPart(b, 31, w, 32 - k);
      ShlIs(b, k - 1);
    }
  }

  /** Bit by bit: the bits before `s` are kept, bit `s` is flipped, the next one is 0, and the others are those of the
      number drawn, from its second bit on. */
  lemma MakeOutputBits(o: Addr, s: nat, r: Addr, k: nat)
    requires 1 <= s <= 32 && 1 <= k <= 32
    ensures 0 <= MakeOutput(o, s, r) < WORDS
    ensures Bit(MakeOutput(o, s, r), k)
            == if k < s then Bit(o, k) else if k == s then !Bit(o, k) else k >= s + 2 && Bit(r, k - s)
  {
    hide Shr, Shl, Xor;
    MakeOutputOk(o, s, r);
    var o' := MakeOutput(o, s, r);
    if k <= s {
      BitIs(o, o', k);
    } else {
      var h, w := Xor(Shr(o, 32 - s), 1), r % 0x8000_0000;
      ShrShlPart(h, 32 - s, Shr(w, s), 32 - k);
      ShrTwice(w, s, 32 - k);
      ShlIs(h, k - s);
      EvenPlus(Shl(h, k - s) / 2, Shr(w, 32 - (k - s)));
      WordBit(r, k - s);
    }
  }

  lemma FlippedBit(o: Addr, o': Addr, s: nat)
    requires 1 <= s <= 32 && Top(o', s) == Xor(Top(o, s), 1)
    ensures Common(o, o') == s - 1
  {
    XorOne(Top(o, s));
    TopStep(o, s - 1);
    TopStep(o', s - 1);
    CommonIs(o, o', s - 1);
  }

  /** An output shares exactly the bits before `s` with the one it is made from, whatever was drawn. */
  lemma MakeOutputOk(o: Addr, s: nat, r: Addr)
    requires 1 <= s <= 32
    ensures 0 <= MakeOutput(o, s, r) < WORDS && Common(o, MakeOutput(o, s, r)) == s - 1
  {
    var n := 32 - s;
    var t := Shr(o, n);
    Pow2Word();
    ShrBound(o, s, n);
    Pow2Monotone(1, s);
    XorBound(t, 1, s);
    if s == 32 {
      FlippedBit(o, MakeOutput(o, s, r), s);
    } else {
      RandomBits(r, s);
      var low := Shr(r % 0x8000_0000, s);
      ShlBound(Xor(t, 1), n, low, s);
      ShrShl(Xor(t, 1), n, low);
      FlippedBit(o, MakeOutput(o, s, r), s);
    }
  }

  // ----- the tree, node by node -----

  /** The stretch of a path that a node stands for: the prefixes of its address of length `up` to `plen`. */
  datatype Span = Span(input: Addr, up: nat, plen: nat)

  /** No known address leaves the path inside the stretch. */
  ghost predicate Covered(y: Addr, s: Span) {
    Common(y, s.input) >= s.up ==> Common(y, s.input) >= s.plen
  }

  /** Two stretches have no prefix in common. */
  ghost predicate Apart(s: Span, t: Span) {
    var u := if s.up < t.up then t.up else s.up;
    Common(s.input, t.input) < u || s.plen < u || t.plen < u
  }

  /** `a` leaves the path of a node inside its stretch `s`, after `c` bits. */
  ghost predicate Leaves(a: Addr, s: Span, c: nat) {
    Common(a, s.input) == c && s.up <= c < s.plen <= 32
  }

  /** The three stretches a node is cut into when it becomes a peer. */
  function Stem(s: Span, c: nat, x: Addr): Span {
    Span(x, s.up, c)
  }

  function Twig(a: Addr, c: nat): Span {
    Span(a, c + 1, 32)
  }

  function Rest(s: Span, c: nat): Span {
    s.(up := c + 1)
  }

  lemma PeerOther(a: Addr, s: Span, c: nat, t: Span)
    requires Leaves(a, s, c) && Covered(s.input, t) && Covered(t.input, s) && Apart(s, t) && t.plen <= 32
    ensures Covered(a, t)
  {
    CommonThree(a, s.input, t.input);
    CommonThree(s.input, a, t.input);
    CommonSelf(a, s.input);
    CommonSelf(t.input, s.input);
    if Common(a, t.input) == c < 32 && t.input != s.input {
      CommonTwo(a, s.input, t.input);
    }
    CommonSelf(s.input, s.input);
  }

  lemma PeerKnown(a: Addr, s: Span, c: nat, y: Addr)
    requires Leaves(a, s, c) && Covered(y, s)
    ensures y != a && Common(y, a) <= c && Covered(y, Twig(a, c)) && Covered(y, Rest(s, c))
    ensures Covered(y, Stem(s, c, s.input)) && Covered(y, Stem(s, c, a))
  {
    CommonThree(y, a, s.input);
    CommonThree(y, s.input, a);
    CommonSelf(s.input, a);
  }

  lemma PeerSelf(a: Addr, s: Span, c: nat)
    requires Leaves(a, s, c)
    ensures Covered(a, Twig(a, c)) && Covered(a, Rest(s, c)) && Covered(a, Stem(s, c, s.input))
            && Covered(a, Stem(s, c, a))
  {
    CommonSelf(a, a);
  }

  lemma PeerApart(a: Addr, s: Span, c: nat, t: Span)
    requires Leaves(a, s, c) && Covered(t.input, s) && Apart(s, t)
    ensures Apart(Twig(a, c), t) && Apart(Rest(s, c), t) && Apart(Stem(s, c, s.input), t) && Apart(Stem(s, c, a), t)
  {
    PeerKnown(a, s, c, t.input);
    CommonSelf(a, t.input);
    CommonSelf(s.input, t.input);
    CommonThree(a, s.input, t.input);
    CommonThree(s.input, a, t.input);
    CommonSelf(a, s.input);
  }

  lemma ApartSymmetric(s: Span, t: Span)
    ensures Apart(s, t) == Apart(t, s)
  {
    CommonSelf(s.input, t.input);
  }

  lemma PeersApart(a: Addr, s: Span, c: nat, x: Addr)
    requires Leaves(a, s, c)
    ensures Apart(Twig(a, c), Rest(s, c)) && Apart(Twig(a, c), Stem(s, c, x)) && Apart(Rest(s, c), Stem(s, c, x))
  {
  }

  /** The stretches of all nodes, and the addresses known. */
  ghost predicate SpansOk<K>(spans: map<K, Span>, m: map<Addr, Addr>) {
    && (forall n :: n in spans ==> spans[n].up <= spans[n].plen <= 32 && spans[n].input in m)
    && (forall n, y :: n in spans && y in m ==> Covered(y, spans[n]))
    && (forall n, n' :: n in spans && n' in spans && n != n' ==> Apart(spans[n], spans[n']))
  }

  /** The stretches after node `n` has been cut in three and its upper part has got the address `x`. */
  ghost function Cut<K>(spans: map<K, Span>, n: K, twig: K, rest: K, a: Addr, c: nat, x: Addr): map<K, Span>
    requires n in spans
  {
    spans[n := Stem(spans[n], c, x)][twig := Twig(a, c)][rest := Rest(spans[n], c)]
  }

  ghost predicate Cuttable<K>(spans: map<K, Span>, m: map<Addr, Addr>, n: K, twig: K, rest: K, a: Addr, c: nat,
                              x: Addr) {
    && SpansOk(spans, m) && n in spans && twig !in spans && rest !in spans && twig != rest
    && Leaves(a, spans[n], c) && (x == a || x == spans[n].input)
  }

  lemma CutCovers<K>(spans: map<K, Span>, m: map<Addr, Addr>, n: K, twig: K, rest: K, a: Addr, c: nat, x: Addr, k: K,
                     y: Addr)
    requires Cuttable(spans, m, n, twig, rest, a, c, x) && k in Cut(spans, n, twig, rest, a, c, x) && (y in m || y == a)
    ensures Covered(y, Cut(spans, n, twig, rest, a, c, x)[k])
  {
    var s := spans[n];
    PeerSelf(a, s, c);
    if y != a {
      PeerKnown(a, s, c, y);
    } else if k != n && k != twig && k != rest {
      PeerOther(a, s, c, spans[k]);
    }
  }

  lemma CutApart<K>(spans: map<K, Span>, m: map<Addr, Addr>, n: K, twig: K, rest: K, a: Addr, c: nat, x: Addr, k: K,
                    k': K)
    requires Cuttable(spans, m, n, twig, rest, a, c, x) && k != k'
    requires k in Cut(spans, n, twig, rest, a, c, x) && k' in Cut(spans, n, twig, rest, a, c, x)
    ensures Apart(Cut(spans, n, twig, rest, a, c, x)[k], Cut(spans, n, twig, rest, a, c, x)[k'])
  {
    hide Apart;
    var s := spans[n];
    var spans' := Cut(spans, n, twig, rest, a, c, x);
    PeersApart(a, s, c, x);
    ApartSymmetric(spans'[k], spans'[k']);
    if k != n && k != twig && k != rest {
      PeerApart(a, s, c, spans[k]);
    }
    if k' != n && k' != twig && k' != rest {
      PeerApart(a, s, c, spans[k']);
    }
  }

  /** Cutting a node where `a` leaves its path keeps the stretches in order, with `a` among the addresses. */
  lemma CutOk<K>(spans: map<K, Span>, m: map<Addr, Addr>, n: K, twig: K, rest: K, a: Addr, c: nat, x: Addr, o: Addr)
    requires Cuttable(spans, m, n, twig, rest, a, c, x)
    ensures SpansOk(Cut(spans, n, twig, rest, a, c, x), m[a := o]) && a !in m
  {
    hide Covered, Apart;
    var spans' := Cut(spans, n, twig, rest, a, c, x);
    forall k, y | k in spans' && y in m[a := o]
      ensures Covered(y, spans'[k])
    {
      CutCovers(spans, m, n, twig, rest, a, c, x, k, y);
    }
    forall k, k' | k in spans' && k' in spans' && k != k'
      ensures Apart(spans'[k], spans'[k'])
    {
      CutApart(spans, m, n, twig, rest, a, c, x, k, k');
    }
    if a in m {
      PeerKnown(a, spans[n], c, a);
    }
  }

  // ----- the mapping -----

  /** Outputs share exactly as many leading bits as inputs. */
  ghost predicate Preserving(m: map<Addr, Addr>) {
    forall x, y :: x in m && y in m ==> Common(m[x], m[y]) == Common(x, y)
  }

  /** A prefix-preserving mapping is one to one. */
  lemma PreservingInjective(m: map<Addr, Addr>, x: Addr, y: Addr)
    requires Preserving(m) && x in m && y in m && m[x] == m[y]
    ensures x == y
  {
    CommonSelf(m[x], m[y]);
    CommonSelf(x, y);
  }

  /** A new address whose prefix with `x` no other shares keeps the mapping prefix-preserving. */
  lemma PreservingPeer(m: map<Addr, Addr>, a: Addr, x: Addr, o: Addr)
    requires Preserving(m) && x in m && a !in m && Common(m[x], o) == Common(x, a)
    requires forall y :: y in m ==> Common(y, x) != Common(a, x)
    ensures Preserving(m[a := o])
  {
    CommonSelf(a, a);
    CommonSelf(o, o);
    forall y | y in m
      ensures Common(m[y], o) == Common(y, a) && Common(o, m[y]) == Common(a, y)
    {
      CommonSelf(x, a);
      CommonThree(y, x, a);
      CommonThree(m[y], m[x], o);
      CommonSelf(y, a);
      CommonSelf(m[y], o);
    }
  }
}
