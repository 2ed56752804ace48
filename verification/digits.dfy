/**
  Positional arithmetic over digit lists.

  A digit list is stored least-significant digit first, as the byte array
  engine stores it internally; `w` is the number of bits one digit carries.
  Scaling by a power of two is written with the shift operators the engine
  itself uses (`<<`, `>>` and masking with `2^n - 1`), each defined by
  recursion on the shift distance, so that almost every fact about them is
  linear. `ShlIsMul` is the one link to multiplication.
 */
module Digits {

  // ---------------------------------------------------------------------
  // Shifts
  // ---------------------------------------------------------------------

  /** `x << n`: x times 2^n. */
  function Shl(x: nat, n: nat): nat
  {
    if n == 0 then x else 2 * Shl(x, n - 1)
  }

  /**
    A left shift never makes a number smaller, at least doubles it when the
    distance is positive, and is zero exactly for zero. Kept as a lemma
    rather than on Shl itself so that proofs only pay for it where it is used.
   */
  lemma {:induction false} ShlBounds(x: nat, n: nat)
    ensures Shl(x, n) >= x
    ensures n >= 1 ==> Shl(x, n) >= 2 * x
    ensures x == 0 <==> Shl(x, n) == 0
  {
    if n > 0 {
      ShlBounds(x, n - 1);
    }
  }

  /** 2 to the power `n`. */
  function Pow2(n: nat): (r: nat)
    ensures r >= 1
    ensures n >= 1 ==> r >= 2
  {
    ShlBounds(1, n);
    Shl(1, n)
  }

  lemma {:induction false} ShlAdd(x: nat, y: nat, n: nat)
    ensures Shl(x + y, n) == Shl(x, n) + Shl(y, n)
  {
    if n > 0 {
      ShlAdd(x, y, n - 1);
    }
  }

  lemma {:induction false} ShlShl(x: nat, a: nat, b: nat)
    ensures Shl(Shl(x, a), b) == Shl(x, a + b)
  {
    if b > 0 {
      ShlShl(x, a, b - 1);
    }
  }

  lemma {:induction false} ShlMonotone(x: nat, y: nat, n: nat)
    ensures x <= y ==> Shl(x, n) <= Shl(y, n)
  {
    if x <= y {
      ShlAdd(x, y - x, n);
    }
  }

  /** Numbers that differ in the quotient differ by at least a whole 2^n after shifting. */
  lemma {:induction false} ShlGap(x: nat, y: nat, n: nat)
    ensures x < y ==> Shl(x, n) + Pow2(n) <= Shl(y, n)
  {
    if x < y {
      ShlAdd(x, 1, n);
      ShlMonotone(x + 1, y, n);
    }
  }

  /** A power of two with an exponent made of two parts. */
  lemma {:induction false} ShlPow2(a: nat, b: nat)
    ensures Pow2(a + b) == Shl(Pow2(a), b)
  {
    ShlShl(1, a, b);
  }

  /** A shift is a multiplication by a power of two. */
  lemma {:induction false} ShlIsMul(x: nat, n: nat)
    ensures Shl(x, n) == x * Pow2(n)
  {
    if n > 0 {
      ShlIsMul(x, n - 1);
      assert Pow2(n) == 2 * Pow2(n - 1);
      MulTwo(x, Pow2(n - 1));
    }
  }

  lemma {:induction false} MulTwo(x: nat, p: nat)
    ensures 2 * (x * p) == x * (2 * p)
  {
  }

  /** `x >> n`: the bits of x above the lowest n. */
  function Shr(x: nat, n: nat): nat
  {
    if n == 0 then x else Shr(x / 2, n - 1)
  }

  /** Shifting right then left loses only what fits below 2^n. */
  lemma {:induction false} ShrSplit(x: nat, n: nat)
    ensures Shl(Shr(x, n), n) <= x < Shl(Shr(x, n), n) + Pow2(n)
  {
    if n > 0 {
      ShrSplit(x / 2, n - 1);
      assert Pow2(n) == 2 * Pow2(n - 1);
    }
  }

  /** `x & (2^n - 1)`: the lowest n bits of x; x is the high part shifted back plus these. */
  function Low(x: nat, n: nat): (r: nat)
    ensures r < Pow2(n)
    ensures x == Shl(Shr(x, n), n) + r
  {
    ShrSplit(x, n);
    x - Shl(Shr(x, n), n)
  }

  /** High and low parts are determined by the split equation. */
  lemma {:induction false} ShrLowUnique(x: nat, n: nat, q: nat, r: nat)
    requires r < Pow2(n) && x == Shl(q, n) + r
    ensures Shr(x, n) == q && Low(x, n) == r
  {
    var q' := Shr(x, n);
    var r' := Low(x, n);
    ShlGap(q, q', n);
    ShlGap(q', q, n);
  }

  /** A number below 2^n has no bits above the lowest n. */
  lemma {:induction false} ShrSmall(x: nat, n: nat)
    requires x < Pow2(n)
    ensures Shr(x, n) == 0 && Low(x, n) == x
  {
    ShlBounds(0, n);
    ShrLowUnique(x, n, 0, x);
  }

  /** A nonzero number shifted right by at least one bit gets smaller. */
  lemma {:induction false} ShrShrinks(x: nat, n: nat)
    requires n >= 1
    ensures Shr(x, n) <= x
    ensures x > 0 ==> Shr(x, n) < x
  {
    ShrSplit(x, n);
    ShlBounds(Shr(x, n), n);
  }

  /** A number below 2^n shifted right by m fits in n - m bits. */
  lemma {:induction false} ShrBound(x: nat, m: nat, n: nat)
    requires m <= n && x < Pow2(n)
    ensures Shr(x, m) < Pow2(n - m)
  {
    ShrSplit(x, m);
    ShlPow2(n - m, m);
    assert n - m + m == n;
    ShlMonotone(Pow2(n - m), Shr(x, m), m);
  }

  /** Shifting x left by e, split at bit n: the low n bits stay, the rest moves up by n. */
  lemma {:induction false} ShlSplit(x: nat, n: nat, e: nat)
    ensures Shl(x, e) == Shl(Low(x, n), e) + Shl(Shr(x, n), n + e)
  {
    ShlAdd(Shl(Shr(x, n), n), Low(x, n), e);
    ShlShl(Shr(x, n), n, e);
  }

  /** ShlSplit with the high part's distance given as an exact term. */
  lemma {:induction false} ShlSplitAt(x: nat, n: nat, e: nat, f: nat)
    requires f == n + e
    ensures Shl(x, e) == Shl(Low(x, n), e) + Shl(Shr(x, n), f)
  {
    ShlSplit(x, n, e);
  }

  /** ShlShl with the combined distance given as an exact term. */
  lemma {:induction false} ShlAddAt(x: nat, y: nat, n: nat, z: nat)
    requires z == x + y
    ensures Shl(z, n) == Shl(x, n) + Shl(y, n)
  {
    ShlAdd(x, y, n);
  }

  lemma {:induction false} ShlShlAt(x: nat, a: nat, b: nat, f: nat)
    requires f == a + b
    ensures Shl(Shl(x, a), b) == Shl(x, f)
  {
    ShlShl(x, a, b);
  }

  // ---------------------------------------------------------------------
  // Digit lists
  // ---------------------------------------------------------------------

  /** Every digit fits in `w` bits. */
  predicate Bounded(s: seq<nat>, w: nat) {
    forall i :: 0 <= i < |s| ==> s[i] < Pow2(w)
  }

  /** The unsigned number a least-significant-first digit list denotes. */
  function Value(s: seq<nat>, w: nat): nat
  {
    if |s| == 0 then 0 else s[0] + Shl(Value(s[1..], w), w)
  }

  /** `w * k` by repeated addition: the bit offset of digit k when each digit has w bits. */
  function Times(w: nat, k: nat): nat
  {
    if k == 0 then 0 else Times(w, k - 1) + w
  }

  /** Times grows with the digit count. */
  lemma {:induction false} TimesMonotone(w: nat, j: nat, k: nat)
    requires j <= k
    ensures Times(w, j) <= Times(w, k)
  {
    if j < k {
      TimesMonotone(w, j, k - 1);
    }
  }

  lemma {:induction false} Pow2Monotone(a: nat, b: nat)
    requires a <= b
    ensures Pow2(a) <= Pow2(b)
  {
    ShlPow2(a, b - a);
    assert a + (b - a) == b;
    ShlBounds(Pow2(a), b - a);
  }

  /** One more digit is w more bits. */
  lemma {:induction false} TimesAppend(w: nat, s: seq<nat>, x: nat)
    ensures Times(w, |s + [x]|) == Times(w, |s|) + w
  {
    assert |s + [x]| - 1 == |s|;
  }

  /** Splitting a digit list at position k splits its value. */
  lemma {:induction false} ValueSplit(s: seq<nat>, k: nat, w: nat)
    requires k <= |s|
    ensures Value(s, w) == Value(s[..k], w) + Shl(Value(s[k..], w), Times(w, k))
  {
    if k > 0 {
      var rest, low := Value(s[k..], w), Value(s[..k][1..], w);
      assert Value(s[1..], w) == low + Shl(rest, Times(w, k - 1)) by {
        ValueSplit(s[1..], k - 1, w);
        assert s[1..][..k - 1] == s[..k][1..];
        assert s[1..][k - 1..] == s[k..];
      }
      assert Shl(Value(s[1..], w), w) == Shl(low, w) + Shl(rest, Times(w, k)) by {
        ShlAdd(low, Shl(rest, Times(w, k - 1)), w);
        ShlShl(rest, Times(w, k - 1), w);
      }
      assert Value(s[..k], w) == s[0] + Shl(low, w);
    }
  }

  /** Appending a digit at the high end adds it at weight 2^(w*|s|). */
  lemma {:induction false} ValueAppend(s: seq<nat>, x: nat, w: nat)
    ensures Value(s + [x], w) == Value(s, w) + Shl(x, Times(w, |s|))
  {
    var t := s + [x];
    ValueSplit(t, |s|, w);
    assert t[..|s|] == s;
    assert t[|s|..] == [x];
    assert [x][1..] == [];
    ShlBounds(0, w);
  }

  /** A bounded digit list of length n denotes a number below 2^(w*n). */
  lemma {:induction false} ValueBound(s: seq<nat>, w: nat)
    requires Bounded(s, w)
    ensures Value(s, w) < Pow2(Times(w, |s|))
  {
    if |s| > 0 {
      var n := |s| - 1;
      var v1 := Value(s[1..], w);
      ValueBound(s[1..], w);
      ShlMonotone(v1 + 1, Pow2(Times(w, n)), w);
      ShlAdd(v1, 1, w);
      ShlPow2(Times(w, n), w);
    }
  }

  /** A list whose most significant digit is nonzero is at least 2^(w*(|s|-1)). */
  lemma {:induction false} ValueLowerBound(s: seq<nat>, w: nat)
    requires |s| > 0 && s[|s| - 1] > 0
    ensures Value(s, w) >= Pow2(Times(w, |s| - 1))
  {
    var n := |s| - 1;
    assert s == s[..n] + [s[n]];
    ValueAppend(s[..n], s[n], w);
    ShlMonotone(1, s[n], Times(w, n));
  }

  // ---------------------------------------------------------------------
  // Digit order
  // ---------------------------------------------------------------------

  /** The digit order reversed: the most-significant-first view of a stored list. */
  function Reverse(s: seq<nat>): (r: seq<nat>)
    ensures |r| == |s|
    ensures forall i :: 0 <= i < |s| ==> r[i] == s[|s| - 1 - i]
  {
    seq(|s|, i requires 0 <= i < |s| => s[|s| - 1 - i])
  }

  lemma {:induction false} ReverseReverse(s: seq<nat>)
    ensures Reverse(Reverse(s)) == s
  {
    var r := Reverse(Reverse(s));
    assert forall i :: 0 <= i < |s| ==> r[i] == s[i];
  }

  /** The first digit of a list is the last of its reversal. */
  lemma {:induction false} ReverseFront(s: seq<nat>)
    requires |s| > 0
    ensures Reverse(s) == Reverse(s[1..]) + [s[0]]
  {
    var r, t := Reverse(s), Reverse(s[1..]) + [s[0]];
    forall i | 0 <= i < |s| ensures r[i] == t[i] {
      if i < |s| - 1 {
        assert t[i] == Reverse(s[1..])[i] == s[1..][|s| - 2 - i];
      }
    }
  }

  /** The last digit of a list is the first of its reversal. */
  lemma {:induction false} ReverseBack(s: seq<nat>, x: nat)
    ensures Reverse(s + [x]) == [x] + Reverse(s)
  {
    var r, t := Reverse(s + [x]), [x] + Reverse(s);
    forall i | 0 <= i < |s| + 1 ensures r[i] == t[i] {
      if i > 0 {
        assert t[i] == Reverse(s)[i - 1] == s[|s| - i];
      }
    }
  }

  lemma {:induction false} ReverseBounded(s: seq<nat>, w: nat)
    ensures Bounded(Reverse(s), w) <==> Bounded(s, w)
  {
    var r := Reverse(s);
    if Bounded(s, w) {
      forall i | 0 <= i < |r| ensures r[i] < Pow2(w) {
        assert r[i] == s[|s| - 1 - i];
      }
    }
    if Bounded(r, w) {
      forall i | 0 <= i < |s| ensures s[i] < Pow2(w) {
        assert s[i] == r[|s| - 1 - i];
      }
    }
  }
}
