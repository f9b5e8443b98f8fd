/** The anonymizers of src/Anon.cc that keep prefixes: the A50 tree with its random outputs, and PrefixMD5. */
module Anonymizers {
  import opened AnonBits
  import opened AnonTree

  class Node {
    var input: Addr
    var output: Addr
    var child0: Node?
    var child1: Node?

    constructor (i: Addr, o: Addr, left: Node?, right: Node?)
      ensures input == i && output == o && child0 == left && child1 == right
    {
      input, output, child0, child1 := i, o, left, right;
    }
  }

  const ALL_ONES: Addr := 0xFFFF_FFFF

  /** The addresses that never get into the tree. */
  predicate Special(a: Addr) {
    a == 0 || a == ALL_ONES
  }

  /** How a child stands to its parent. */
  ghost predicate ChildOk(parent: Span, child: Span, bit: bool) {
    && parent.plen < 32 && child.up == parent.plen + 1
    && Common(parent.input, child.input) >= parent.plen && Bit(child.input, parent.plen + 1) == bit
  }

  /** Only the first bits of the inputs matter for that. */
  lemma ChildKept(parent: Span, child: Span, bit: bool, x: Addr, y: Addr)
    requires ChildOk(parent, child, bit) && Common(parent.input, x) >= parent.plen && Common(child.input, y) >= child.up
    ensures ChildOk(parent.(input := x), child.(input := y), bit)
  {
    var k := parent.plen;
    CommonSelf(parent.input, x);
    CommonThree(x, parent.input, child.input);
    CommonThree(x, child.input, y);
    BitIs(child.input, y, k + 1);
  }

  /** Where two children part. */
  lemma ChildrenPart(parent: Span, s: Span, t: Span)
    requires ChildOk(parent, s, false) && ChildOk(parent, t, true)
    ensures Common(s.input, t.input) == parent.plen
  {
    CommonSelf(parent.input, s.input);
    CommonThree(s.input, parent.input, t.input);
    BitIs(s.input, t.input, parent.plen + 1);
  }

  /** The way down from a node that `a` does not leave. */
  lemma WayDown(parent: Span, child: Span, bit: bool, a: Addr)
    requires ChildOk(parent, child, bit) && Common(a, parent.input) >= parent.plen && Bit(a, parent.plen + 1) == bit
    ensures Common(a, child.input) >= child.up
  {
    CommonThree(a, parent.input, child.input);
    BitIs(a, child.input, parent.plen + 1);
  }

  /** A node has no children and ends at a full address, or it has two that part right after its stretch. */
  ghost predicate Linked(spans: map<Node, Span>, n: Node, left: Node?, right: Node?)
    requires n in spans
  {
    if left == null || right == null then left == null && right == null && spans[n].plen == 32
    else
      && left in spans && right in spans
      && ChildOk(spans[n], spans[left], false) && ChildOk(spans[n], spans[right], true)
  }

  lemma RestParent(parent: Span, child: Span, bit: bool, c: nat)
    requires ChildOk(parent, child, bit)
    ensures ChildOk(Rest(parent, c), child, bit)
  {
  }

  lemma ChildAfterCut(spans: map<Node, Span>, m: map<Addr, Addr>, n: Node, twig: Node, rest: Node, a: Addr, c: nat,
                      x: Addr, parent: Span, child: Node, bit: bool)
    requires Cuttable(spans, m, n, twig, rest, a, c, x) && child in spans && ChildOk(parent, spans[child], bit)
    ensures ChildOk(parent, Cut(spans, n, twig, rest, a, c, x)[child], bit)
  {
    if child == n {
      CommonSelf(parent.input, parent.input);
      CommonSelf(x, x);
      CommonSelf(a, spans[n].input);
      ChildKept(parent, spans[n], bit, parent.input, x);
    }
  }

  lemma LinkedAfterCut(spans: map<Node, Span>, m: map<Addr, Addr>, n: Node, twig: Node, rest: Node, a: Addr, c: nat,
                       x: Addr, k: Node, left: Node?, right: Node?)
    requires Cuttable(spans, m, n, twig, rest, a, c, x) && k in spans && Linked(spans, k, left, right)
    ensures Linked(Cut(spans, n, twig, rest, a, c, x), if k == n then rest else k, left, right)
  {
    hide ChildOk;
    if left != null && right != null {
      var parent := if k == n then Rest(spans[n], c) else spans[k];
      RestParent(spans[k], spans[left], false, c);
      RestParent(spans[k], spans[right], true, c);
      ChildAfterCut(spans, m, n, twig, rest, a, c, x, parent, left, false);
      ChildAfterCut(spans, m, n, twig, rest, a, c, x, parent, right, true);
    }
  }

  lemma PeersLinked(spans: map<Node, Span>, m: map<Addr, Addr>, n: Node, twig: Node, rest: Node, a: Addr, c: nat,
                    x: Addr)
    requires Cuttable(spans, m, n, twig, rest, a, c, x)
    ensures var bit := Bit(a, c + 1);
            Linked(Cut(spans, n, twig, rest, a, c, x), n, if bit then rest else twig, if bit then twig else rest)
  {
    var s := spans[n];
    CommonSelf(a, s.input);
    CommonSelf(x, x);
    BitIs(a, s.input, c + 1);
  }

  /** No address in the tree leaves the path where `a` does. */
  lemma AloneThere(spans: map<Node, Span>, m: map<Addr, Addr>, n: Node, a: Addr, c: nat)
    requires SpansOk(spans, m) && n in spans && Leaves(a, spans[n], c)
    ensures forall y :: y in m ==> Common(y, spans[n].input) != Common(a, spans[n].input)
  {
    forall y | y in m
      ensures Common(y, spans[n].input) != Common(a, spans[n].input)
    {
      assert Covered(y, spans[n]);
    }
  }

  /** No address known shares more bits with `a` than `b` does. */
  ghost predicate Nearest(m: map<Addr, Addr>, a: Addr, b: Addr) {
    b in m && forall y :: y in m ==> Common(a, y) <= Common(a, b)
  }

  /** After bit `s` and a zero come the bits of a number drawn, from its second bit on. */
  ghost predicate Random(o: Addr, s: nat, r: Addr) {
    forall k :: s < k <= 32 ==> (Bit(o, k) <==> k >= s + 2 && Bit(r, k - s))
  }

  /** `o` parts from the output of `b` where `a` parts from `b`; its other bits are drawn, if there are any. */
  ghost predicate Branches(m: map<Addr, Addr>, a: Addr, b: Addr, o: Addr, before: seq<Addr>, after: seq<Addr>) {
    && Nearest(m, a, b) && Common(m[b], o) == Common(b, a) < 32
    && var s := Common(a, b) + 1;
       if s == 32 then after == before
       else |after| == |before| + 1 && before == after[..|before|] && Random(o, s, after[|before|])
  }

  /** The output of a new address, given the numbers drawn before and after: every bit of it is fixed. */
  ghost predicate FromDraws(m: map<Addr, Addr>, a: Addr, o: Addr, before: seq<Addr>, after: seq<Addr>) {
    if m == map[] then after == before + [o] else exists b :: Branches(m, a, b, o, before, after)
  }

  lemma NearestHere(spans: map<Node, Span>, m: map<Addr, Addr>, n: Node, a: Addr, c: nat)
    requires SpansOk(spans, m) && n in spans && Leaves(a, spans[n], c)
    ensures Nearest(m, a, spans[n].input)
  {
    var x := spans[n].input;
    AloneThere(spans, m, n, a, c);
    forall y | y in m
      ensures Common(a, y) <= Common(a, x)
    {
      CommonSelf(x, a);
      CommonThree(y, x, a);
      CommonSelf(y, a);
    }
  }

  class A50 {
    var root: Node?
    const zeros: Node
    const ones: Node
    // the nodes of the tree and the stretches they stand for, the addresses in the tree and their outputs
    ghost var spans: map<Node, Span>
    ghost var members: map<Addr, Addr>
    // the random numbers so far
    ghost var drawn: seq<Addr>

    ghost predicate NodeOk(n: Node)
      reads `spans, `members, n
    {
      && n in spans && n.input == spans[n].input && n.input in members && members[n.input] == n.output
      && Linked(spans, n, n.child0, n.child1)
    }

    ghost predicate Valid()
      reads this, spans.Keys, zeros, ones
    {
      && zeros !in spans && ones !in spans && zeros.output == 0 && ones.output == ALL_ONES
      && (if root == null then spans == map[] && members == map[] else root in spans && spans[root].up == 0)
      && (forall n :: n in spans ==> NodeOk(n))
      && SpansOk(spans, members) && Preserving(members)
      && forall y :: y in members ==> !Special(y)
    }

    constructor ()
      ensures Valid() && members == map[] && drawn == [] && fresh(zeros) && fresh(ones)
    {
      zeros := new Node(0, 0, null, null);
      ones := new Node(ALL_ONES, ALL_ONES, null, null);
      root, spans, members, drawn := null, map[], map[], [];
    }

    /** `rand32`: any word. */
    method Rand32() returns (r: Addr)
      modifies `drawn
      ensures drawn == old(drawn) + [r]
    {
      r :| true;
      drawn := drawn + [r];
    }

    /** Cuts a node in three: a new one for `a`, a new one with all the node had, and itself above them. */
    method Graft(a: Addr, o: Addr, n: Node, ghost c: nat, bitvalue: bool) returns (twig: Node, rest: Node)
      requires n in spans
      modifies n, `spans, `members
      ensures fresh(twig) && fresh(rest) && twig != rest
      ensures twig.input == a && twig.output == o && twig.child0 == null && twig.child1 == null
      ensures rest.input == old(n.input) && rest.output == old(n.output) && rest.child0 == old(n.child0)
              && rest.child1 == old(n.child1)
      ensures n.input == (if bitvalue then a else old(n.input)) && n.output == if bitvalue then o else old(n.output)
      ensures n.child0 == (if bitvalue then rest else twig) && n.child1 == if bitvalue then twig else rest
      ensures spans == Cut(old(spans), n, twig, rest, a, c, n.input) && members == old(members)[a := o]
    {
      twig := new Node(a, o, null, null);
      rest := new Node(n.input, n.output, n.child0, n.child1);
      var down0, down1 := if bitvalue then rest else twig, if bitvalue then twig else rest;
      n.input := down1.input;
      n.output := down1.output;
      n.child0 := down0;
      n.child1 := down1;
      spans := Cut(spans, n, twig, rest, a, c, n.input);
      members := members[a := o];
    }

    /** `make_output`. */
    method DrawOutput(output: Addr, swivel: nat) returns (o: Addr)
      requires 1 <= swivel <= 32
      modifies `drawn
      ensures Common(output, o) == swivel - 1
      ensures if swivel == 32 then drawn == old(drawn)
              else exists r :: drawn == old(drawn) + [r] && Random(o, swivel, r)
    {
      hide MakeOutput, Bit;
      var random: Addr := 0;
      if swivel < 32 {
        random := Rand32();
      }
      MakeOutputOk(output, swivel, random);
      o := MakeOutput(output, swivel, random);
      forall k | swivel < k <= 32
        ensures Bit(o, k) <==> k >= swivel + 2 && Bit(random, k - swivel)
      {
        MakeOutputBits(output, swivel, random, k);
      }
    }

    /** The output for an address that leaves the path of `n`, and its first bit of its own. */
    method PeerOutput(a: Addr, n: Node) returns (o: Addr, bitvalue: bool)
      requires a != n.input
      modifies `drawn
      ensures Common(n.output, o) == Common(n.input, a) && Common(a, n.input) < 32
              && bitvalue == Bit(a, Common(a, n.input) + 1)
      ensures var s := Common(a, n.input) + 1;
              if s == 32 then drawn == old(drawn) else exists r :: drawn == old(drawn) + [r] && Random(o, s, r)
    {
      CommonSelf(a, n.input);
      FirstBitXor(a, n.input);
      var swivel := BiFfs(Xor(a, n.input));
      bitvalue := Shr(a, 32 - swivel) % 2 == 1;
      assert swivel == Common(a, n.input) + 1 && bitvalue == Bit(a, swivel);
      hide Bit, Common, Random, Xor, Shr;
      o := DrawOutput(n.output, swivel);
    }

    /** Attaches `a` where it leaves the path of `n`. */
    method Attach(a: Addr, o: Addr, n: Node, ghost c: nat, bitvalue: bool) returns (d: Node)
      requires Valid() && n in spans && !Special(a) && Leaves(a, spans[n], c)
      requires Common(n.output, o) == Common(n.input, a) && bitvalue == Bit(a, c + 1)
      modifies this, n
      ensures Valid() && (forall k :: k in spans ==> k in old(spans) || fresh(k)) && root == old(root)
      ensures d in spans && d.input == a && d.output == o && a !in old(members) && members == old(members)[a := o]
      ensures drawn == old(drawn)
    {
      hide Leaves, SpansOk, Linked, Preserving, Bit, Special, Cut;
      var twig, rest := Graft(a, o, n, c, bitvalue);
      ghost var x := n.input;
      PeerState(old(spans), old(members), n, twig, rest, a, c, x, o);
      forall k | k in spans
        ensures NodeOk(k)
      {
        if k != twig && k != rest && k != n {
          assert old(NodeOk(k));
          LinkedAfterCut(old(spans), old(members), n, twig, rest, a, c, x, k, k.child0, k.child1);
        } else if k == rest {
          LinkedAfterCut(old(spans), old(members), n, twig, rest, a, c, x, n, rest.child0, rest.child1);
        }
      }
      d := twig;
    }

    /** `make_peer`: cuts the stretch of a node where `a` leaves it, and hangs `a` there. */
    method MakePeer(a: Addr, n: Node) returns (d: Node)
      requires Valid() && n in spans && !Special(a) && Leaves(a, spans[n], Common(a, n.input))
      modifies this, n
      ensures Valid() && (forall k :: k in spans ==> k in old(spans) || fresh(k))
      ensures d in spans && d.input == a && a !in old(members) && members == old(members)[a := d.output]
      ensures FromDraws(old(members), a, d.output, old(drawn), drawn)
    {
      hide SpansOk, Linked, Preserving, Bit, Special, Random, Nearest;
      CommonSelf(a, a);
      KnownHere(n);
      NearestHere(spans, members, n, a, Common(a, n.input));
      CommonSelf(a, n.input);
      ghost var m, b := members, n.input;
      var o, bitvalue := PeerOutput(a, n);
      d := Attach(a, o, n, Common(a, n.input), bitvalue);
      assert Branches(m, a, b, o, old(drawn), drawn);
    }

    /** The first address becomes the root. */
    method Plant(a: Addr) returns (r: Node)
      requires Valid() && root == null && !Special(a)
      modifies this
      ensures Valid() && (forall k :: k in spans ==> fresh(k))
      ensures r in spans && r.input == a && members == map[a := r.output]
      ensures FromDraws(old(members), a, r.output, old(drawn), drawn)
    {
      var random := Rand32();
      r := new Node(a, random, null, null);
      root := r;
      spans := map[r := Span(a, 0, 32)];
      members := map[a := random];
      CommonSelf(a, a);
      CommonSelf(random, random);
    }

    /** The swivel of a node's children is the bit after its stretch. */
    method Swivel(n: Node) returns (swivel: int)
      requires NodeOk(n) && n.child0 != null && n.child1 != null && NodeOk(n.child0) && NodeOk(n.child1)
      ensures swivel == spans[n].plen + 1
    {
      ChildrenPart(spans[n], spans[n.child0], spans[n.child1]);
      CommonSelf(n.child0.input, n.child1.input);
      FirstBitXor(n.child0.input, n.child1.input);
      swivel := BiFfs(Xor(n.child0.input, n.child1.input));
    }

    /** One round of the loop of `find_node`: the child to go on with, or none if `a` leaves the path here. */
    method Descend(a: Addr, n: Node) returns (next: Node?)
      requires Valid() && n in spans && Common(a, n.input) >= spans[n].up && n.input != a
      ensures next == null ==> Leaves(a, spans[n], Common(a, n.input))
      ensures next != null ==>
                next in spans && spans[n].up < spans[next].up <= 32 && Common(a, next.input) >= spans[next].up
    {
      hide SpansOk, Preserving, Special, ChildOk;
      StretchOk(n);
      assert NodeOk(n);
      CommonSelf(a, n.input);
      if n.child0 == null {
        return null;
      }
      assert NodeOk(n.child0) && NodeOk(n.child1);
      var swivel := Swivel(n);
      FirstBitXor(a, n.input);
      var differs := BiFfs(Xor(a, n.input));
      if differs < swivel {
        return null;
      }
      var bit := Shr(a, 32 - swivel) % 2 == 1;
      next := if bit then n.child1 else n.child0;
      WayDown(spans[n], spans[next], bit, a);
      ChildLower(spans[n], spans[next], bit);
    }

    /** The loop of `find_node`. */
    method Search(a: Addr) returns (r: Node)
      requires Valid() && root != null && !Special(a)
      modifies this, spans.Keys
      ensures Valid() && (forall k :: k in spans ==> k in old(spans) || fresh(k))
      ensures r in spans && r.input == a && a in members && r.output == members[a]
      ensures members == if a in old(members) then old(members) else old(members)[a := r.output]
      ensures if a in old(members) then drawn == old(drawn)
              else FromDraws(old(members), a, r.output, old(drawn), drawn)
    {
      hide Valid, Special, FromDraws;
      var n: Node := root;
      RootOk();
      while n.input != a
        invariant Valid() && n in spans && Common(a, n.input) >= spans[n].up && spans[n].up <= 32
        invariant spans == old(spans) && members == old(members) && drawn == old(drawn)
        decreases 32 - spans[n].up
      {
        var next := Descend(a, n);
        if next == null {
          r := MakePeer(a, n);
          return;
        }
        n := next;
      }
      KnownHere(n);
      r := n;
    }

    lemma RootOk()
      requires Valid() && root != null
      ensures root in spans && spans[root].up == 0
    {
    }

    lemma KnownHere(n: Node)
      requires Valid() && n in spans
      ensures n.input in members && members[n.input] == n.output
    {
      assert NodeOk(n);
    }

    lemma StretchOk(n: Node)
      requires Valid() && n in spans
      ensures spans[n].up <= spans[n].plen <= 32
    {
    }

    /** `find_node`: the node of an address that is in the tree, or else a new one. */
    method FindNode(a: Addr) returns (r: Node)
      requires Valid()
      modifies this, spans.Keys
      ensures Valid() && (forall k :: k in spans ==> k in old(spans) || fresh(k))
      ensures Special(a) ==> r.output == a && members == old(members)
      ensures !Special(a) ==> a in members && r.input == a && r.output == members[a]
      ensures !Special(a) ==> members == if a in old(members) then old(members) else old(members)[a := r.output]
      ensures if Special(a) || a in old(members) then drawn == old(drawn)
              else FromDraws(old(members), a, r.output, old(drawn), drawn)
    {
      if a == 0 || a == ALL_ONES {
        r := if a % 2 == 0 then zeros else ones;
      } else if root == null {
        r := Plant(a);
      } else {
        r := Search(a);
      }
    }
  }

  lemma ChildLower(parent: Span, child: Span, bit: bool)
    requires ChildOk(parent, child, bit)
    ensures child.up == parent.plen + 1 <= 32
  {
  }

  /** The whole state after `a` has been attached below `n`. */
  lemma PeerState(spans: map<Node, Span>, m: map<Addr, Addr>, n: Node, twig: Node, rest: Node, a: Addr, c: nat,
                  x: Addr, o: Addr)
    requires Cuttable(spans, m, n, twig, rest, a, c, x) && Preserving(m)
    requires spans[n].input in m && Common(m[spans[n].input], o) == Common(spans[n].input, a)
    ensures a !in m && SpansOk(Cut(spans, n, twig, rest, a, c, x), m[a := o]) && Preserving(m[a := o])
    ensures var bit := Bit(a, c + 1);
            Linked(Cut(spans, n, twig, rest, a, c, x), n, if bit then rest else twig, if bit then twig else rest)
    ensures Linked(Cut(spans, n, twig, rest, a, c, x), twig, null, null)
    ensures forall k :: k in Cut(spans, n, twig, rest, a, c, x) ==> k in spans || k == twig || k == rest
    ensures forall k :: k in spans ==> k in Cut(spans, n, twig, rest, a, c, x)
    ensures forall k :: k in spans && k != n ==> Cut(spans, n, twig, rest, a, c, x)[k] == spans[k]
    ensures var spans' := Cut(spans, n, twig, rest, a, c, x);
            && spans'[n] == Stem(spans[n], c, x) && twig in spans' && spans'[twig].input == a
            && rest in spans' && spans'[rest].input == spans[n].input
  {
    hide SpansOk, Linked, Preserving;
    CutOk(spans, m, n, twig, rest, a, c, x, o);
    AloneThere(spans, m, n, a, c);
    PreservingPeer(m, a, spans[n].input, o);
    PeersLinked(spans, m, n, twig, rest, a, c, x);
    TwigLinked(Cut(spans, n, twig, rest, a, c, x), twig);
  }

  lemma TwigLinked(spans: map<Node, Span>, k: Node)
    requires k in spans && spans[k].plen == 32
    ensures Linked(spans, k, null, null)
  {
  }

  /** `AnonymizeIPAddr_A50` with the mapping its base class keeps. */
  class Anonymizer {
    const tree: A50
    var mapping: map<Addr, Addr>

    ghost predicate Valid()
      reads this, tree, tree.spans.Keys, tree.zeros, tree.ones
    {
      && tree.Valid()
      && forall x :: x in mapping ==>
           if Special(x) then mapping[x] == x else x in tree.members && tree.members[x] == mapping[x]
    }

    constructor ()
      ensures Valid() && mapping == map[] && fresh(tree) && forall k :: k in tree.spans ==> fresh(k)
    {
      tree := new A50();
      mapping := map[];
    }

    /** `Anonymize`: answers from the mapping, or from the tree. */
    method Anonymize(addr: Addr) returns (o: Addr)
      requires Valid()
      modifies this, tree, tree.spans.Keys
      ensures Valid() && forall k :: k in tree.spans ==> k in old(tree.spans) || fresh(k)
      ensures addr in mapping && mapping[addr] == o
      ensures addr in old(mapping) ==> mapping == old(mapping)
      ensures addr !in old(mapping) ==> mapping == old(mapping)[addr := o]
      ensures addr !in old(mapping) && !Special(addr) && addr !in old(tree.members) ==>
                FromDraws(old(tree.members), addr, o, old(tree.drawn), tree.drawn)
    {
      hide A50.Valid, FromDraws;
      if addr in mapping {
        return mapping[addr];
      }
      var n := tree.FindNode(addr);
      o := n.output;
      mapping := mapping[addr := o];
    }

    /** Whatever is asked in whatever order, and whatever was drawn: the answers share exactly as many leading
        bits as the addresses, and an address asked again gets the same answer. */
    method AnonymizeAll(addrs: seq<Addr>) returns (outs: seq<Addr>)
      requires Valid()
      modifies this, tree, tree.spans.Keys
      ensures Valid() && |outs| == |addrs|
      ensures forall i, j :: 0 <= i < |addrs| && 0 <= j < |addrs| && !Special(addrs[i]) && !Special(addrs[j]) ==>
                Common(outs[i], outs[j]) == Common(addrs[i], addrs[j])
      ensures forall i :: 0 <= i < |addrs| && addrs[i] in old(mapping) ==> outs[i] == old(mapping)[addrs[i]]
    {
      hide A50.Valid;
      outs := [];
      for i := 0 to |addrs|
        invariant Valid() && |outs| == i && forall k :: k in tree.spans ==> k in old(tree.spans) || fresh(k)
        invariant forall x :: x in old(mapping) ==> x in mapping && mapping[x] == old(mapping)[x]
        invariant forall j :: 0 <= j < i ==> addrs[j] in mapping && mapping[addrs[j]] == outs[j]
      {
        var o := Anonymize(addrs[i]);
        outs := outs + [o];
      }
      MappingPreserves();
    }

    lemma MappingPreserves()
      requires Valid()
      ensures forall x, y :: x in mapping && y in mapping && !Special(x) && !Special(y) ==>
                Common(mapping[x], mapping[y]) == Common(x, y)
    {
    }
  }

  // ----- PrefixMD5 -----

  /** The keyed function: the low bit of a digest of a length and a padded prefix. */
  type Keyed = (nat, nat) -> bool

  function Flip(bit: nat, f: bool): nat {
    if f then (bit + 1) % 2 else bit % 2
  }

  /** A prefix of `i` bits, padded with a one and zeros. */
  function Pad(t: nat, i: nat): nat
    requires i < 32
  {
    Shl(2 * t + 1, 31 - i)
  }

  /** The first `k` bits of the output, given those of the input. */
  ghost function FlipBits(key: Keyed, t: nat, k: nat): nat
    requires k <= 32
  {
    if k == 0 then 0 else 2 * FlipBits(key, t / 2, k - 1) + Flip(t % 2, key(k, Pad(t / 2, k - 1)))
  }

  /** The first `k` bits of the input, given those of the output. */
  ghost function UnflipBits(key: Keyed, u: nat, k: nat): nat
    requires k <= 32
  {
    if k == 0 then 0
    else
      var t := UnflipBits(key, u / 2, k - 1);
      2 * t + Flip(u % 2, key(k, Pad(t, k - 1)))
  }

  lemma FlipTwice(t: nat, bit: nat, f: bool)
    requires bit < 2
    ensures (2 * t + Flip(bit, f)) / 2 == t && Flip((2 * t + Flip(bit, f)) % 2, f) == bit
  {
  }

  /** Each undoes the other, so PrefixMD5 is one to one and reaches every address. */
  lemma {:induction false} FlipUnflip(key: Keyed, u: nat, k: nat)
    requires k <= 32 && u < Pow2(k)
    ensures UnflipBits(key, u, k) < Pow2(k) && FlipBits(key, UnflipBits(key, u, k), k) == u
    decreases k
  {
    hide Pad;
    if k > 0 {
      FlipUnflip(key, u / 2, k - 1);
      var t := UnflipBits(key, u / 2, k - 1);
      FlipTwice(t, u % 2, key(k, Pad(t, k - 1)));
    }
  }

  lemma {:induction false} UnflipFlip(key: Keyed, t: nat, k: nat)
    requires k <= 32 && t < Pow2(k)
    ensures FlipBits(key, t, k) < Pow2(k) && UnflipBits(key, FlipBits(key, t, k), k) == t
    decreases k
  {
    hide Pad;
    if k > 0 {
      UnflipFlip(key, t / 2, k - 1);
      var u, f := FlipBits(key, t / 2, k - 1), key(k, Pad(t / 2, k - 1));
      FlipTwice(u, t % 2, f);
      var v := 2 * u + Flip(t % 2, f);
      assert FlipBits(key, t, k) == v && v < 2 * Pow2(k - 1);
      hide FlipBits, Flip;
      assert UnflipBits(key, v, k) == 2 * (t / 2) + t % 2;
    }
  }

  ghost function PrefixMd5(key: Keyed, a: Addr): (o: Addr)
  {
    Pow2Word();
    UnflipFlip(key, a, 32);
    FlipBits(key, a, 32)
  }

  lemma {:induction false} FlipTop(key: Keyed, t: nat, j: nat, k: nat)
    requires j <= k <= 32
    ensures Shr(FlipBits(key, t, k), k - j) == FlipBits(key, Shr(t, k - j), j)
    decreases k - j
  {
    if j < k {
      FlipTop(key, t / 2, j, k - 1);
      assert FlipBits(key, t, k) / 2 == FlipBits(key, t / 2, k - 1);
    }
  }

  /** PrefixMD5 keeps the length of common prefixes, for every keyed function. */
  lemma PrefixMd5Preserves(key: Keyed, a: Addr, b: Addr)
    ensures Common(PrefixMd5(key, a), PrefixMd5(key, b)) == Common(a, b)
  {
    hide FlipBits, UnflipBits, Common, Shr, Pow2;
    var c := Common(a, b);
    var x, y := PrefixMd5(key, a), PrefixMd5(key, b);
    CommonIff(a, b, c);
    FlipTop(key, a, c, 32);
    FlipTop(key, b, c, 32);
    if c < 32 {
      CommonIff(a, b, c + 1);
      FlipTop(key, a, c + 1, 32);
      FlipTop(key, b, c + 1, 32);
      TopBound(a, c + 1);
      TopBound(b, c + 1);
      UnflipFlip(key, Top(a, c + 1), c + 1);
      UnflipFlip(key, Top(b, c + 1), c + 1);
    }
    CommonIs(x, y, c);
  }

  /** What is hashed for bit `i + 1`: the bits before it, a one, and zeros. */
  lemma PadBits(a: Addr, i: nat, k: nat)
    requires i < 32 && 1 <= k <= 32
    ensures Pad(Top(a, i), i) < WORDS
    ensures Bit(Pad(Top(a, i), i), k) == if k <= i then Bit(a, k) else k == i + 1
  {
    hide Shl, Shr, Pow2;
    var t, m := Top(a, i), 31 - i;
    PadFits(a, i);
    if k > i + 1 {
      ShrShlPart(2 * t + 1, m, 0, 32 - k);
      ShrNone(32 - k);
      ShlIs(2 * t + 1, k - i - 1);
    } else {
      ShrShl(2 * t + 1, m, 0);
      EvenPlus(t, 1);
      if k <= i {
        ShrTwice(Shl(2 * t + 1, m), m, i + 1 - k);
        ShrOdd(t, i - k);
        ShrTwice(a, 32 - i, i - k);
      }
    }
  }

  lemma PadFits(a: Addr, i: nat)
    requires i < 32
    ensures Pad(Top(a, i), i) < WORDS && 0 < Pow2(31 - i)
  {
    hide Shl, Top;
    TopBound(a, i);
    Pow2Word();
    ShlBound(2 * Top(a, i) + 1, 31 - i, 0, i + 1);
  }

  lemma ShrOdd(t: nat, n: nat)
    ensures Shr(2 * t + 1, n + 1) == Shr(t, n)
  {
  }

  lemma {:induction false} ShrNone(n: nat)
    ensures Shr(0, n) == 0
    decreases n
  {
    if n > 0 {
      ShrNone(n - 1);
    }
  }

  lemma PrefixMd5Bit(key: Keyed, a: Addr, k: nat)
    requires 1 <= k <= 32
    ensures Bit(PrefixMd5(key, a), k) <==> (Bit(a, k) != key(k, Pad(Top(a, k - 1), k - 1)))
  {
    hide Pad, Shr;
    FlipTop(key, a, k, 32);
    TopStep(a, k - 1);
    var t, f := Top(a, k), key(k, Pad(Top(a, k - 1), k - 1));
    var u := FlipBits(key, t / 2, k - 1);
    assert FlipBits(key, t, k) == 2 * u + Flip(t % 2, f);
    hide FlipBits;
    EvenPlus(u, Flip(t % 2, f));
  }

  /** PrefixMD5 bit by bit: each bit is flipped or not as the keyed function of its number and of the bits before it,
      padded, says. */
  lemma PrefixMd5Bits(key: Keyed, a: Addr, k: nat) returns (padded: Addr)
    requires 1 <= k <= 32
    ensures Bit(PrefixMd5(key, a), k) <==> (Bit(a, k) != key(k, padded))
    ensures forall j :: 1 <= j <= 32 ==> (Bit(padded, j) <==> if j < k then Bit(a, j) else j == k)
  {
    hide Pad, PrefixMd5, Top;
    PrefixMd5Bit(key, a, k);
    PadBits(a, k - 1, k);
    padded := Pad(Top(a, k - 1), k - 1);
    forall j | 1 <= j <= 32
      ensures Bit(padded, j) <==> if j < k then Bit(a, j) else j == k
    {
      PadBits(a, k - 1, j);
    }
  }

  lemma TopBound(a: Addr, k: nat)
    requires k <= 32
    ensures Top(a, k) < Pow2(k)
  {
    Pow2Word();
    ShrBound(a, k, 32 - k);
  }

  /** PrefixMD5 is onto. */
  lemma PrefixMd5Onto(key: Keyed, o: Addr) returns (a: Addr)
    ensures PrefixMd5(key, a) == o
  {
    Pow2Word();
    FlipUnflip(key, o, 32);
    a := UnflipBits(key, o, 32);
  }

  /** The low `n` bits. */
  ghost function Low(x: nat, n: nat): (r: nat)
    ensures r < Pow2(n)
  {
    if n == 0 then 0 else 2 * Low(x / 2, n - 1) + x % 2
  }

  lemma {:induction false} ShlSplit(t: nat, x: nat, n: nat)
    ensures Shl(t, n + 1) + Low(x, n + 1) == Shl(2 * t + Shr(x, n) % 2, n) + Low(x, n)
    decreases n
  {
    if n == 0 {
      assert Shl(t, 1) == 2 * Shl(t, 0) && Low(x, 1) == 2 * Low(x / 2, 0) + x % 2;
    } else {
      ShlSplit(t, x / 2, n - 1);
    }
  }

  lemma {:induction false} LowAll(x: nat, n: nat)
    requires x < Pow2(n)
    ensures Low(x, n) == x
    decreases n
  {
    if n > 0 {
      LowAll(x / 2, n - 1);
    }
  }

  lemma {:induction false} ShlMore(t: nat, n: nat)
    ensures Shl(t, n + 1) == Shl(2 * t, n) && Shl(t, n + 1) + Shl(1, n) == Shl(2 * t + 1, n)
    decreases n
  {
    if n > 0 {
      ShlMore(t, n - 1);
    } else {
      assert Shl(t, 1) == 2 * Shl(t, 0);
    }
  }

  lemma {:induction false} XorShl(t: nat, f: nat, n: nat, r: nat)
    requires r < Pow2(n)
    ensures Xor(Shl(t, n) + r, Shl(f, n)) == Shl(Xor(t, f), n) + r
    decreases n
  {
    hide Xor;
    if n > 0 {
      XorShl(t, f, n - 1, r / 2);
      XorHalf(Shl(t, n) + r, Shl(f, n));
      assert (Shl(t, n) + r) / 2 == Shl(t, n - 1) + r / 2 && (Shl(t, n) + r) % 2 == r % 2;
    }
  }

  lemma XorHalf(x: nat, y: nat)
    ensures Xor(x, y) == 2 * Xor(x / 2, y / 2) + (x % 2 + y % 2) % 2
  {
  }

  lemma XorFlip(t: nat, bit: nat, f: bool)
    requires bit < 2
    ensures Xor(2 * t + bit, if f then 1 else 0) == 2 * t + Flip(bit, f)
  {
    XorOne(2 * t + bit);
    XorNone(2 * t + bit);
  }

  /** What the loop of PrefixMD5 has after `i` bits: those flipped, the others as they were. */
  ghost function Halfway(key: Keyed, input: Addr, i: nat): nat
    requires i <= 32
  {
    Shl(FlipBits(key, Top(input, i), i), 32 - i) + Low(input, 32 - i)
  }

  lemma HalfwayStep(key: Keyed, input: Addr, i: nat, pad: nat)
    requires i < 32 && pad == Shl(Top(input, i), 32 - i) + Shl(1, 31 - i)
    ensures Xor(Halfway(key, input, i), Shl(if key(i + 1, pad) then 1 else 0, 31 - i)) == Halfway(key, input, i + 1)
  {
    hide Shl, Shr, Low, Xor, Flip;
    var n := 31 - i;
    var t := FlipBits(key, Top(input, i), i);
    var bit := Shr(input, n) % 2;
    ShlMore(Top(input, i), n);
    assert pad == Pad(Top(input, i), i);
    var f := key(i + 1, pad);
    ShlSplit(t, input, n);
    XorShl(2 * t + bit, if f then 1 else 0, n, Low(input, n));
    XorFlip(t, bit, f);
    TopStep(input, i);
  }

  lemma HalfwayBound(key: Keyed, input: Addr, i: nat)
    requires i <= 32
    ensures Halfway(key, input, i) < WORDS
    ensures Halfway(key, input, 0) == input && Halfway(key, input, 32) == PrefixMd5(key, input)
  {
    TopBound(input, i);
    UnflipFlip(key, Top(input, i), i);
    ShlBound(FlipBits(key, Top(input, i), i), 32 - i, Low(input, 32 - i), i);
    Pow2Word();
    LowAll(input, 32);
    ShlNothing(32);
  }

  lemma {:induction false} ShlNothing(n: nat)
    ensures Shl(0, n) == 0
    decreases n
  {
    if n > 0 {
      ShlNothing(n - 1);
    }
  }

  /** `AnonymizeIPAddr_PrefixMD5::anonymize`. */
  method AnonymizePrefixMd5(key: Keyed, input: Addr) returns (output: Addr)
    ensures output == PrefixMd5(key, input)
  {
    hide PrefixMd5, Halfway;
    HalfwayBound(key, input, 0);
    output := input;
    for i := 0 to 32
      invariant output == Halfway(key, input, i)
    {
      var prefix := Shl(Shr(input, 32 - i), 32 - i) + Shl(1, 31 - i);
      var bit := if key(i + 1, prefix) then 1 else 0;
      HalfwayStep(key, input, i, prefix);
      HalfwayBound(key, input, i + 1);
      output := Xor(output, Shl(bit, 31 - i));
    }
  }
}
