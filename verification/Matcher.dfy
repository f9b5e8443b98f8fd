/** `RE_Matcher`: the wrapped patterns behind MatchExactly and MatchAnywhere, and what they decide. */
module Matchers {
  import opened NfaGraphs
  import opened Patterns
  import opened LazyDfa
  import opened EquivClasses

  /** The pattern text `^?(r)$?`. */
  function Exactly(r: Regex): Regex {
    Series(Series(Option(Char(SYM_BOL)), r), Option(Char(SYM_EOL)))
  }

  /** The class `.`, which leaves out the newline and both anchors. */
  const Dot := CharSet([10, SYM_BOL, SYM_EOL], true)

  /** The pattern text `^?(.|\n)*(r)`. */
  function Anywhere(r: Regex): Regex {
    Series(Series(Option(Char(SYM_BOL)), Closure(Alt(Dot, Char(10)))), r)
  }

  ghost predicate NoAnchors(w: Word) {
    SYM_BOL !in w && SYM_EOL !in w
  }

  /** Patterns written without `^` and `$`. */
  ghost predicate AnchorFree(r: Regex) {
    match r
    case Empty => true
    case Char(c) => c != SYM_BOL && c != SYM_EOL
    case CharSet(syms, negated) => negated || (SYM_BOL !in syms && SYM_EOL !in syms)
    case Str(cs) => NoAnchors(cs)
    case Alt(l, r') => AnchorFree(l) && AnchorFree(r')
    case Series(l, r') => AnchorFree(l) && AnchorFree(r')
    case Closure(e) => AnchorFree(e)
    case PosClosure(e) => AnchorFree(e)
    case Option(e) => AnchorFree(e)
    case Between(e, lo, hi) => AnchorFree(e)
    case From(e, lo) => AnchorFree(e)
    case Times(e, n) => AnchorFree(e)
  }

  ghost predicate Plain(a: iset<Word>) {
    forall w :: w in a ==> NoAnchors(w)
  }

  lemma CatPlain(a: iset<Word>, b: iset<Word>)
    requires Plain(a) && Plain(b)
    ensures Plain(Cat(a, b))
  {
    forall w | w in Cat(a, b)
      ensures NoAnchors(w)
    {
      var k := CatElim(a, b, w);
      assert w == w[..k] + w[k..];
      assert NoAnchors(w[..k]) && NoAnchors(w[k..]);
    }
  }

  lemma {:induction false} PowPlain(a: iset<Word>, n: nat)
    requires Plain(a)
    ensures Plain(Pow(a, n))
    decreases n
  {
    if n > 0 {
      PowPlain(a, n - 1);
      CatPlain(a, Pow(a, n - 1));
    }
  }

  lemma PowsPlain(a: iset<Word>)
    requires Plain(a)
    ensures forall n: nat :: Plain(Pow(a, n))
  {
    forall n: nat
      ensures Plain(Pow(a, n))
    {
      PowPlain(a, n);
    }
  }

  /** The words of an anchor-free pattern hold no anchor. */
  lemma {:induction false} AnchorFreePlain(r: Regex)
    requires WellFormed(r) && AnchorFree(r)
    ensures Plain(Denotes(r))
    decreases r
  {
    match r
    case Empty =>
    case Char(c) =>
    case CharSet(syms, negated) =>
      forall w | w in Denotes(r)
        ensures NoAnchors(w)
      {
        assert w == [w[0]];
      }
    case Str(cs) =>
    case Alt(l, r') => AnchorFreePlain(l); AnchorFreePlain(r');
    case Series(l, r') => AnchorFreePlain(l); AnchorFreePlain(r'); CatPlain(Denotes(l), Denotes(r'));
    case Closure(e) => AnchorFreePlain(e); PowsPlain(Denotes(e));
    case PosClosure(e) => AnchorFreePlain(e); PowsPlain(Denotes(e));
    case Option(e) => AnchorFreePlain(e);
    case Between(e, lo, hi) => AnchorFreePlain(e); PowsPlain(Denotes(e));
    case From(e, lo) => AnchorFreePlain(e); PowsPlain(Denotes(e));
    case Times(e, n) => AnchorFreePlain(e); PowsPlain(Denotes(e));
  }

  /** An optional symbol in front. */
  lemma OptionalFirst(c: int, a: iset<Word>, w: Word)
    ensures w in Cat(iset{[c]} + EmptyWord, a) <==> w in a || (w != [] && w[0] == c && w[1..] in a)
  {
    var o: iset<Word> := iset{[c]} + EmptyWord;
    if w in Cat(o, a) {
      var k := CatElim(o, a, w);
      assert w[..k] == [c] || w[..k] == [];
      if w[..k] == [] {
        assert w[k..] == w;
      } else {
        assert w[0] == w[..k][0];
      }
    }
    if w in a {
      CatIntro(o, a, [], w);
      assert [] + w == w;
    }
    if w != [] && w[0] == c && w[1..] in a {
      CatIntro(o, a, [c], w[1..]);
      assert [c] + w[1..] == w;
    }
  }

  /** An optional symbol at the end. */
  lemma OptionalLast(c: int, a: iset<Word>, w: Word)
    ensures w in Cat(a, iset{[c]} + EmptyWord) <==> w in a || (w != [] && w[|w| - 1] == c && w[..|w| - 1] in a)
  {
    var o: iset<Word> := iset{[c]} + EmptyWord;
    if w in Cat(a, o) {
      var k := CatElim(a, o, w);
      assert w[k..] == [c] || w[k..] == [];
      if w[k..] == [] {
        assert w[..k] == w;
      } else {
        assert k == |w| - 1 && w[k] == w[k..][0];
      }
    }
    if w in a {
      CatIntro(a, o, w, []);
      assert w + [] == w;
    }
    if w != [] && w[|w| - 1] == c && w[..|w| - 1] in a {
      CatIntro(a, o, w[..|w| - 1], [c]);
      assert w[..|w| - 1] + [c] == w;
    }
  }

  lemma OptionChar(c: int)
    ensures Denotes(Option(Char(c))) == iset{[c]} + EmptyWord
  {
  }

  /** The subject matches the wrapped pattern when it is a word of the pattern, with or without its anchors. */
  lemma ExactlyIff(r: Regex, s: seq<int>)
    ensures Subject(s) in Denotes(Exactly(r)) <==>
            || s in Denotes(r) || [SYM_BOL] + s in Denotes(r)
            || s + [SYM_EOL] in Denotes(r) || [SYM_BOL] + s + [SYM_EOL] in Denotes(r)
  {
    var w := Subject(s);
    var front := Denotes(Series(Option(Char(SYM_BOL)), r));
    OptionChar(SYM_BOL);
    OptionChar(SYM_EOL);
    assert front == Cat(iset{[SYM_BOL]} + EmptyWord, Denotes(r));
    assert Denotes(Exactly(r)) == Cat(front, iset{[SYM_EOL]} + EmptyWord);
    assert s[..|s|] == s;
    assert w == [SYM_BOL] + s + [SYM_EOL];
    assert w[..|w| - 1] == [SYM_BOL] + s;
    assert ([SYM_BOL] + s)[1..] == s;
    assert w[1..] == s + [SYM_EOL];
    OptionalLast(SYM_EOL, front, w);
    OptionalFirst(SYM_BOL, Denotes(r), w);
    OptionalFirst(SYM_BOL, Denotes(r), [SYM_BOL] + s);
  }

  lemma ExactlyPlain(r: Regex, s: seq<int>)
    requires WellFormed(r) && AnchorFree(r)
    ensures Subject(s) in Denotes(Exactly(r)) <==> s in Denotes(r)
  {
    ExactlyIff(r, s);
    AnchorFreePlain(r);
    assert SYM_BOL == ([SYM_BOL] + s)[0] && SYM_BOL == ([SYM_BOL] + s + [SYM_EOL])[0];
    assert SYM_EOL == (s + [SYM_EOL])[|s|];
  }

  /** `MatchExactly` decides whether the subject is a word of the pattern, with or without its anchors. */
  method MatchExactly(r: Regex, s: seq<int>) returns (yes: bool)
    requires WellFormed(r) && Bytes(s)
    ensures yes <==> || s in Denotes(r) || [SYM_BOL] + s in Denotes(r)
                     || s + [SYM_EOL] in Denotes(r) || [SYM_BOL] + s + [SYM_EOL] in Denotes(r)
    ensures AnchorFree(r) ==> (yes <==> s in Denotes(r))
  {
    var dfa := CompilePattern(Exactly(r));
    yes := MatchAll(dfa, Exactly(r), s);
    ExactlyIff(r, s);
    if AnchorFree(r) {
      ExactlyPlain(r, s);
    }
  }

  /** Single symbols other than the anchors. */
  ghost const AnySymbol: iset<Word> := iset w: Word | |w| == 1 && NoAnchors(w)

  lemma AnyDenotes()
    ensures Denotes(Alt(Dot, Char(10))) == AnySymbol
  {
    forall w: Word
      ensures w in Denotes(Alt(Dot, Char(10))) <==> w in AnySymbol
    {
      if |w| == 1 {
        assert w == [w[0]];
      }
    }
  }

  lemma {:induction false} AnyStar(w: Word)
    ensures w in Pow(AnySymbol, |w|) <==> NoAnchors(w)
    decreases |w|
  {
    if w != [] {
      AnyStar(w[1..]);
      assert w == [w[0]] + w[1..];
      if NoAnchors(w) {
        assert NoAnchors([w[0]]) && NoAnchors(w[1..]);
        CatIntro(AnySymbol, Pow(AnySymbol, |w| - 1), [w[0]], w[1..]);
      }
      if w in Pow(AnySymbol, |w|) {
        PowPlain(AnySymbol, |w|);
      }
    }
  }

  /** `(.|\n)*` reads exactly the words without anchors. */
  lemma AnyClosure(w: Word)
    ensures w in Denotes(Closure(Alt(Dot, Char(10)))) <==> NoAnchors(w)
  {
    AnyDenotes();
    AnyStar(w);
    if n: nat :| w in Pow(AnySymbol, n) {
      PowPlain(AnySymbol, n);
    }
  }

  /** The pattern ends with the text `t`, followed by the end anchor or not, wherever in it, or before it, it starts. */
  ghost predicate Within(r: Regex, t: Word, e: Word) {
    [SYM_BOL] + t + e in Denotes(r) || exists i :: 0 <= i <= |t| && t[i..] + e in Denotes(r)
  }

  /** What stands before the pattern in `Anywhere`. */
  ghost const Front: iset<Word> := Denotes(Series(Option(Char(SYM_BOL)), Closure(Alt(Dot, Char(10)))))

  lemma FrontIff(w: Word)
    ensures w in Front <==> NoAnchors(w) || (w != [] && w[0] == SYM_BOL && NoAnchors(w[1..]))
  {
    var any := Denotes(Closure(Alt(Dot, Char(10))));
    OptionChar(SYM_BOL);
    assert Front == Cat(iset{[SYM_BOL]} + EmptyWord, any);
    OptionalFirst(SYM_BOL, any, w);
    AnyClosure(w);
    if w != [] {
      AnyClosure(w[1..]);
    }
  }

  lemma FrontNoEol(w: Word)
    requires w in Front
    ensures SYM_EOL !in w
  {
    FrontIff(w);
    if w != [] {
      assert w == [w[0]] + w[1..];
    }
  }

  lemma AnywhereCat(r: Regex)
    ensures Denotes(Anywhere(r)) == Cat(Front, Denotes(r))
  {
  }

  lemma AnywhereIn(r: Regex, t: Word, e: Word)
    requires Bytes(t) && Within(r, t, e)
    ensures [SYM_BOL] + t + e in Denotes(Anywhere(r))
  {
    hide Denotes;
    AnywhereCat(r);
    var w := [SYM_BOL] + t + e;
    if w in Denotes(r) {
      FrontIff([]);
      CatIntro(Front, Denotes(r), [], w);
      assert [] + w == w;
    } else {
      var i :| 0 <= i <= |t| && t[i..] + e in Denotes(r);
      var u := [SYM_BOL] + t[..i];
      assert u[1..] == t[..i];
      FrontIff(u);
      CatIntro(Front, Denotes(r), u, t[i..] + e);
      assert u + (t[i..] + e) == w;
    }
  }

  lemma AnywhereOut(r: Regex, t: Word, e: Word)
    requires (e == [] || e == [SYM_EOL]) && [SYM_BOL] + t + e in Denotes(Anywhere(r))
    ensures Within(r, t, e)
  {
    hide Denotes;
    AnywhereCat(r);
    var w := [SYM_BOL] + t + e;
    var j := CatElim(Front, Denotes(r), w);
    FrontNoEol(w[..j]);
    if j == 0 {
      assert w[j..] == w;
    } else {
      assert w[j - 1] == w[..j][j - 1];
      assert w[j..] == t[j - 1..] + e;
    }
  }

  /** Some stretch of the subject that ends at `k` is a word of the pattern. */
  ghost predicate MatchEndsAt(r: Regex, s: seq<int>, k: int) {
    exists i :: 0 <= i <= k <= |s| && s[i..k] in Denotes(r)
  }

  /** A pattern without anchors ends at `k` just when a word of it does, and never needs the end anchor. */
  lemma WithinPlain(r: Regex, s: seq<int>, k: nat)
    requires WellFormed(r) && AnchorFree(r) && k <= |s|
    ensures Within(r, s[..k], []) <==> MatchEndsAt(r, s, k)
    ensures !Within(r, s, [SYM_EOL])
  {
    AnchorFreePlain(r);
    assert ([SYM_BOL] + s[..k] + [])[0] == SYM_BOL && ([SYM_BOL] + s + [SYM_EOL])[0] == SYM_BOL;
    forall i | 0 <= i <= k
      ensures s[..k][i..] + [] == s[i..k]
    {
    }
    forall i | 0 <= i <= |s|
      ensures s[i..] + [SYM_EOL] !in Denotes(r)
    {
      assert (s[i..] + [SYM_EOL])[|s| - i] == SYM_EOL;
    }
  }

  lemma DotWellFormed()
    ensures WellFormed(Closure(Alt(Dot, Char(10))))
  {
    assert WellFormed(Dot);
    assert WellFormed(Alt(Dot, Char(10)));
  }

  lemma AnywhereHits(r: Regex, s: seq<int>, k: nat)
    requires Bytes(s) && k <= |s|
    ensures Hits(Anywhere(r), s, k) <==> Within(r, s[..k], [])
    ensures Subject(s) in Denotes(Anywhere(r)) <==> Within(r, s, [SYM_EOL])
  {
    assert Prefix(s, k) == [SYM_BOL] + s[..k] + [] && s[..|s|] == s;
    if Within(r, s[..k], []) {
      AnywhereIn(r, s[..k], []);
    }
    if Hits(Anywhere(r), s, k) {
      AnywhereOut(r, s[..k], []);
    }
    if Within(r, s, [SYM_EOL]) {
      AnywhereIn(r, s, [SYM_EOL]);
    }
    if Subject(s) in Denotes(Anywhere(r)) {
      AnywhereOut(r, s, [SYM_EOL]);
    }
  }

  /** `MatchAnywhere` finds the least position, beyond the first byte, at which a match ends; a match that needs the
      end of the subject is reported there, and as 1 on an empty subject. */
  method MatchAnywhere(r: Regex, s: seq<int>) returns (pos: int)
    requires WellFormed(r) && Bytes(s)
    ensures 0 <= pos
    ensures forall k :: 1 <= k <= |s| && Within(r, s[..k], []) ==> 1 <= pos <= k
    ensures pos > 0 ==>
              || (pos <= |s| && Within(r, s[..pos], []))
              || (Within(r, s, [SYM_EOL]) && pos == if |s| > 0 then |s| else 1)
    ensures pos == 0 ==> !Within(r, s, [SYM_EOL])
    ensures AnchorFree(r) ==> pos <= |s| && (pos > 0 ==> MatchEndsAt(r, s, pos))
    ensures AnchorFree(r) ==> forall k :: 1 <= k <= |s| && MatchEndsAt(r, s, k) ==> 1 <= pos <= k
  {
    hide Within, MatchEndsAt, Denotes, Anywhere;
    AnywhereWellFormed(r);
    var dfa := CompilePattern(Anywhere(r));
    pos := Match(dfa, Anywhere(r), s);
    forall k | 0 <= k <= |s|
      ensures Hits(Anywhere(r), s, k) <==> Within(r, s[..k], [])
      ensures Subject(s) in Denotes(Anywhere(r)) <==> Within(r, s, [SYM_EOL])
      ensures AnchorFree(r) ==> (Within(r, s[..k], []) <==> MatchEndsAt(r, s, k)) && !Within(r, s, [SYM_EOL])
    {
      AnywhereHits(r, s, k);
      if AnchorFree(r) {
        WithinPlain(r, s, k);
      }
    }
    assert s[..|s|] == s;
  }

  lemma AnywhereWellFormed(r: Regex)
    requires WellFormed(r)
    ensures WellFormed(Anywhere(r))
  {
    DotWellFormed();
  }
}
