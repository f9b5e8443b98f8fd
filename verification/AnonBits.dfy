/** The 32-bit words of src/Anon.cc as numbers: shifts, exclusive or, the position of the first set bit, and the
    length of the prefix two addresses share. */
module AnonBits {

  const WORDS := 0x1_0000_0000

  type Addr = a: int | 0 <= a < WORDS

  function Pow2(n: nat): (p: nat)
    ensures p > 0
  {
    if n == 0 then 1 else 2 * Pow2(n - 1)
  }

  lemma {:induction false} Pow2Add(m: nat, n: nat)
    ensures Pow2(m + n) == Pow2(m) * Pow2(n)
    decreases m
  {
    if m > 0 {
      Pow2Add(m - 1, n);
    }
  }

  lemma Pow2Word()
    ensures Pow2(32) == WORDS
  {
    assert Pow2(1) == 2 * Pow2(0) == 2;
    Pow2Add(1, 1);
    Pow2Add(2, 2);
    Pow2Add(4, 4);
    Pow2Add(8, 8);
    Pow2Add(16, 16);
  }

  /** Shifts to the right and to the left. */
  function Shr(x: nat, n: nat): nat {
    if n == 0 then x else Shr(x / 2, n - 1)
  }

  function Shl(x: nat, n: nat): nat {
    if n == 0 then x else 2 * Shl(x, n - 1)
  }

  function Xor(x: nat, y: nat): nat {
    if x == 0 && y == 0 then 0 else 2 * Xor(x / 2, y / 2) + (x % 2 + y % 2) % 2
  }

  lemma {:induction false} ShrTwice(x: nat, m: nat, n: nat)
    ensures Shr(Shr(x, m), n) == Shr(x, m + n)
    decreases m
  {
    if m > 0 {
      ShrTwice(x / 2, m - 1, n);
    }
  }

  lemma ShrOne(x: nat, n: nat)
    ensures Shr(x, n + 1) == Shr(x, n) / 2
  {
    ShrTwice(x, n, 1);
    assert Shr(Shr(x, n), 1) == Shr(Shr(x, n) / 2, 0);
  }

  lemma {:induction false} ShrSmall(x: nat, n: nat)
    requires x < Pow2(n)
    ensures Shr(x, n) == 0
    decreases n
  {
    if n > 0 {
      ShrSmall(x / 2, n - 1);
    }
  }

  /** Shifting there and back, with something below. */
  lemma {:induction false} ShrShl(t: nat, n: nat, r: nat)
    requires r < Pow2(n)
    ensures Shr(Shl(t, n) + r, n) == t
    decreases n
  {
    if n > 0 {
      assert (Shl(t, n) + r) / 2 == Shl(t, n - 1) + r / 2;
      ShrShl(t, n - 1, r / 2);
    }
  }

  /** Shifting back only part of the way. */
  lemma {:induction false} ShrShlPart(t: nat, n: nat, r: nat, k: nat)
    requires k <= n
    ensures Shr(Shl(t, n) + r, k) == Shl(t, n - k) + Shr(r, k)
    decreases k
  {
    if k > 0 {
      assert (Shl(t, n) + r) / 2 == Shl(t, n - 1) + r / 2;
      ShrShlPart(t, n - 1, r / 2, k - 1);
    }
  }

  lemma EvenPlus(x: nat, y: nat)
    ensures (2 * x + y) % 2 == y % 2
  {
  }

  lemma {:induction false} ShlIs(t: nat, n: nat)
    ensures Shl(t, n) == t * Pow2(n) && (n > 0 ==> Shl(t, n) % 2 == 0)
    decreases n
  {
    if n > 0 {
      ShlIs(t, n - 1);
    }
  }

  lemma {:induction false} ShlBound(t: nat, n: nat, r: nat, m: nat)
    requires t < Pow2(m) && r < Pow2(n)
    ensures Shl(t, n) + r < Pow2(m + n)
    decreases n
  {
    if n > 0 {
      ShlBound(t, n - 1, r / 2, m);
    }
  }

  lemma {:induction false} XorZero(x: nat, y: nat)
    ensures Xor(x, y) == 0 <==> x == y
    decreases x + y
  {
    if x != 0 || y != 0 {
      XorZero(x / 2, y / 2);
    }
  }

  lemma {:induction false} XorBound(x: nat, y: nat, n: nat)
    requires x < Pow2(n) && y < Pow2(n)
    ensures Xor(x, y) < Pow2(n)
    decreases n
  {
    if n > 0 {
      XorBound(x / 2, y / 2, n - 1);
    }
  }

  lemma {:induction false} ShrXor(x: nat, y: nat, n: nat)
    ensures Shr(Xor(x, y), n) == Xor(Shr(x, n), Shr(y, n))
    decreases n
  {
    if n > 0 {
      assert Xor(x, y) / 2 == Xor(x / 2, y / 2);
      ShrXor(x / 2, y / 2, n - 1);
    }
  }

  // ----- bi_ffs -----

  /** The number of bits below the first set one. */
  ghost function Log2(v: nat): (n: nat)
    requires v > 0
    ensures Shr(v, n) == 1
  {
    if v == 1 then 0 else 1 + Log2(v / 2)
  }

  lemma {:induction false} LogIs(v: nat, n: nat)
    requires v > 0 && Shr(v, n) == 1
    ensures Log2(v) == n
    decreases n
  {
    if n > 0 {
      if v == 1 {
        ShrSmall(0, n - 1);
      } else {
        LogIs(v / 2, n - 1);
      }
    }
  }

  lemma {:induction false} LogBound(v: nat, n: nat)
    requires 0 < v < Pow2(n)
    ensures Log2(v) < n
    decreases n
  {
    if v > 1 {
      LogBound(v / 2, n - 1);
    }
  }

  /** The position of the first set bit, counted from 1 at the top; 0 if there is none. */
  ghost function FirstBit(v: Addr): int {
    if v == 0 then 0 else 32 - Log2(v)
  }

  /** The table of `bi_ffs`: the first set bit of a nibble. */
  function Bval(v: nat): nat
    requires v < 16
  {
    [0, 4, 3, 3, 2, 2, 2, 2, 1, 1, 1, 1, 1, 1, 1, 1][v]
  }

  lemma BvalOk(v: nat)
    requires 0 < v < 16
    ensures 1 <= Bval(v) <= 4 && Shr(v, 4 - Bval(v)) == 1
  {
    ShrOne(v, 0);
    ShrOne(v, 1);
    ShrOne(v, 2);
  }

  lemma ShrFour(v: nat)
    ensures Shr(v, 4) == v / 0x10
  {
    ShrOne(v, 0);
    ShrOne(v, 1);
    ShrOne(v, 2);
    ShrOne(v, 3);
  }

  lemma ShrConstants(v: nat)
    ensures Shr(v, 4) == v / 0x10 && Shr(v, 8) == v / 0x100 && Shr(v, 16) == v / 0x1_0000
  {
    ShrFour(v);
    ShrTwice(v, 4, 4);
    ShrFour(v / 0x10);
    ShrTwice(v, 8, 4);
    ShrFour(v / 0x100);
    ShrTwice(v, 12, 4);
    ShrFour(v / 0x1000);
  }

  /** `bi_ffs`: finds the first set bit by halving; a mask test on what is known to fit twice the width of the
      mask's zeros is a comparison. */
  method BiFfs(value: Addr) returns (r: int)
    ensures r == FirstBit(value)
  {
    hide Shr;
    if value < 0x1_0000 && value == 0 {
      return 0;
    }
    var add, v := 0, value;
    ShrConstants(value);
    ShrNothing(value);
    if v < 0x1_0000 {
      add := add + 16;
    } else {
      v := v / 0x1_0000;
    }
    assert v == Shr(value, 16 - add);
    ShrConstants(v);
    ShrTwice(value, 16 - add, 8);
    if v < 0x100 {
      add := add + 8;
    } else {
      v := v / 0x100;
    }
    assert v == Shr(value, 24 - add);
    ShrConstants(v);
    ShrTwice(value, 24 - add, 4);
    if v < 0x10 {
      add := add + 4;
    } else {
      v := v / 0x10;
    }
    BvalOk(v);
    ShrTwice(value, 28 - add, 4 - Bval(v));
    LogIs(value, 32 - add - Bval(v));
    r := add + Bval(v);
  }

  lemma ShrNothing(v: nat)
    ensures Shr(v, 0) == v
  {
  }

  // ----- prefixes -----

  /** The first `k` bits. */
  ghost function Top(a: Addr, k: nat): nat
    requires k <= 32
  {
    Shr(a, 32 - k)
  }

  ghost function CommonFrom(a: Addr, b: Addr, k: nat): (c: nat)
    requires k <= 32
    ensures c <= k && (c > 0 ==> Top(a, c) == Top(b, c)) && (c < k ==> Top(a, c + 1) != Top(b, c + 1))
  {
    if k == 0 || Top(a, k) == Top(b, k) then k else CommonFrom(a, b, k - 1)
  }

  /** The length of the prefix two addresses share. */
  ghost function Common(a: Addr, b: Addr): (c: nat)
    ensures c <= 32
  {
    CommonFrom(a, b, 32)
  }

  lemma TopNone(a: Addr)
    ensures Top(a, 0) == 0 && Top(a, 32) == a
  {
    Pow2Word();
    ShrSmall(a, 32);
  }

  lemma TopStep(a: Addr, k: nat)
    requires k < 32
    ensures Top(a, k) == Top(a, k + 1) / 2
  {
    ShrOne(a, 31 - k);
  }

  lemma {:induction false} TopDown(a: Addr, b: Addr, j: nat, k: nat)
    requires j <= k <= 32 && Top(a, k) == Top(b, k)
    ensures Top(a, j) == Top(b, j)
    decreases k - j
  {
    if j < k {
      TopStep(a, k - 1);
      TopStep(b, k - 1);
      TopDown(a, b, j, k - 1);
    }
  }

  /** Two addresses agree in their first `k` bits exactly when their common prefix is that long. */
  lemma CommonIff(a: Addr, b: Addr, k: nat)
    requires k <= 32
    ensures Top(a, k) == Top(b, k) <==> k <= Common(a, b)
  {
    var c := Common(a, b);
    TopNone(a);
    TopNone(b);
    if k <= c {
      TopDown(a, b, k, c);
    } else if Top(a, k) == Top(b, k) {
      TopDown(a, b, c + 1, k);
    }
  }

  lemma CommonIs(a: Addr, b: Addr, c: nat)
    requires c <= 32 && Top(a, c) == Top(b, c) && (c < 32 ==> Top(a, c + 1) != Top(b, c + 1))
    ensures Common(a, b) == c
  {
    CommonIff(a, b, c);
    if c < 32 {
      CommonIff(a, b, c + 1);
    }
  }

  /** The facts about common prefixes that the tree rests on: any three addresses behave like an ultrametric
      space over two symbols. */
  lemma CommonSelf(a: Addr, b: Addr)
    ensures Common(a, b) == Common(b, a) && (Common(a, b) == 32 <==> a == b)
  {
    CommonIff(a, b, Common(b, a));
    CommonIff(b, a, Common(b, a));
    CommonIff(a, b, Common(a, b));
    CommonIff(b, a, Common(a, b));
    TopNone(a);
    TopNone(b);
    CommonIff(a, b, 32);
  }

  lemma CommonThree(a: Addr, b: Addr, c: Addr)
    ensures Common(a, c) >= Common(a, b) || Common(a, c) >= Common(b, c)
    ensures Common(a, b) != Common(b, c) ==>
            Common(a, c) == if Common(a, b) < Common(b, c) then Common(a, b) else Common(b, c)
  {
    var m := if Common(a, b) < Common(b, c) then Common(a, b) else Common(b, c);
    CommonIff(a, b, m);
    CommonIff(b, c, m);
    CommonIff(a, c, m);
    if Common(a, b) != Common(b, c) {
      CommonIff(a, b, m + 1);
      CommonIff(b, c, m + 1);
      CommonIff(a, c, m + 1);
    }
  }

  lemma CommonTwo(a: Addr, b: Addr, c: Addr)
    requires Common(a, b) == Common(a, c) < 32
    ensures Common(b, c) > Common(a, b)
  {
    var m := Common(a, b);
    CommonIff(a, b, m);
    CommonIff(a, c, m);
    CommonIff(a, b, m + 1);
    CommonIff(a, c, m + 1);
    TopStep(a, m);
    TopStep(b, m);
    TopStep(c, m);
    CommonIff(b, c, m + 1);
  }

  /** Bit `k` of an address, counted from 1 at the top. */
  ghost predicate Bit(a: Addr, k: nat)
    requires 1 <= k <= 32
  {
    Top(a, k) % 2 == 1
  }

  lemma BitIs(a: Addr, b: Addr, k: nat)
    requires 1 <= k <= 32
    ensures Common(a, b) >= k ==> Bit(a, k) == Bit(b, k)
    ensures Common(a, b) == k - 1 ==> Bit(a, k) != Bit(b, k)
    ensures Common(a, b) >= k - 1 && Bit(a, k) == Bit(b, k) ==> Common(a, b) >= k
  {
    CommonIff(a, b, k);
    CommonIff(a, b, k - 1);
    TopStep(a, k - 1);
    TopStep(b, k - 1);
  }

  /** The first bit in which two addresses differ comes right after their common prefix. */
  lemma FirstBitXor(a: Addr, b: Addr)
    requires a != b
    ensures Xor(a, b) < WORDS && FirstBit(Xor(a, b)) == Common(a, b) + 1
  {
    Pow2Word();
    XorBound(a, b, 32);
    XorZero(a, b);
    var v := Xor(a, b);
    LogBound(v, 32);
    var n := Log2(v);
    ShrXor(a, b, n);
    ShrXor(a, b, n + 1);
    ShrOne(v, n);
    XorZero(Shr(a, n), Shr(b, n));
    XorZero(Shr(a, n + 1), Shr(b, n + 1));
    CommonIs(a, b, 31 - n);
  }
}
