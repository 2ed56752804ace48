/**
  The byte array value: an unsigned number held as a list of `bits`-wide
  digits. Digits are stored least significant first and shown most
  significant first, so `ToArray` is the external (big-endian) view.

  This module holds construction, trimming, windowing and the big-endian
  view; addition and bit-width conversion live in their own modules.
 */
module ByteArrays {
  import opened Digits

  /** `values` is least significant first; `bits` is the width of one digit. */
  datatype ByteArray = ByteArray(bits: nat, values: seq<nat>)

  /** The one failure the engine reports. */
  datatype Error = Overflow

  datatype Result<T> = Success(value: T) | Failure(error: Error)

  /** An optional argument; `None` is PHP's `null`. */
  datatype Option<T> = None | Some(value: T)

  /** The constructor's assertion: every digit fits in `bits` bits. */
  predicate Valid(a: ByteArray) {
    Bounded(a.values, a.bits)
  }

  /** The unsigned number a byte array denotes. */
  function ValueOf(a: ByteArray): nat {
    Value(a.values, a.bits)
  }

  /** Largest integer a PHP int holds on a 64-bit build. */
  const PhpIntMax: nat := 0x7FFF_FFFF_FFFF_FFFF

  function Min(a: nat, b: nat): nat {
    if a <= b then a else b
  }

  lemma Pow2Byte()
    ensures Pow2(8) == 256
  {
    assert Pow2(2) == 4;
    assert Pow2(4) == 2 * 2 * Pow2(2);
    assert Pow2(6) == 2 * 2 * Pow2(4);
    assert Pow2(8) == 2 * 2 * Pow2(6);
  }

  /** Shifting by a byte is multiplying by 256. */
  lemma {:induction false} ShlByte(x: nat)
    ensures Shl(x, 8) == 256 * x
  {
    Pow2Byte();
    ShlIsMul(x, 8);
  }

  lemma Pow2SixtyFour()
    ensures Pow2(Times(8, 8)) == 0x1_0000_0000_0000_0000
  {
    assert Times(8, 8) == 64;
    Pow2Byte();
    ShlPow2(8, 8);
    ShlIsMul(256, 8);
    ShlPow2(16, 16);
    ShlIsMul(0x1_0000, 16);
    ShlPow2(32, 32);
    ShlIsMul(0x1_0000_0000, 32);
  }

  // ---------------------------------------------------------------------
  // Construction and the big-endian view
  // ---------------------------------------------------------------------

  /** The digits most significant first. */
  function ToArray(a: ByteArray): (r: seq<nat>)
    ensures |r| == |a.values|
    ensures forall i :: 0 <= i < |r| ==> r[i] == a.values[|r| - 1 - i]
  {
    Reverse(a.values)
  }

  /** The constructor: `digits` are given most significant first. */
  function New(digits: seq<nat>, bits: nat): (r: ByteArray)
    requires Bounded(digits, bits)
    ensures r.bits == bits && Valid(r)
    ensures ToArray(r) == digits
  {
    ReverseBounded(digits, bits);
    ReverseReverse(digits);
    ByteArray(bits, Reverse(digits))
  }

  /** One 8-bit digit per byte, the first byte most significant. */
  function FromBytes(bytes: seq<nat>): (r: ByteArray)
    requires Bounded(bytes, 8)
    ensures r.bits == 8 && Valid(r)
    ensures ToArray(r) == bytes
  {
    New(bytes, 8)
  }

  /** The low `k` bytes of `n`, most significant first (what `pack("J")` does for k = 8). */
  function BigEndianBytes(n: nat, k: nat): (r: seq<nat>)
    ensures |r| == k
    ensures Bounded(r, 8)
  {
    Pow2Byte();
    if k == 0 then [] else BigEndianBytes(n / 256, k - 1) + [n % 256]
  }

  lemma {:induction false} BigEndianBytesValue(n: nat, k: nat)
    requires n < Pow2(Times(8, k))
    ensures Value(Reverse(BigEndianBytes(n, k)), 8) == n
  {
    if k > 0 {
      var rest := BigEndianBytes(n / 256, k - 1);
      assert n / 256 < Pow2(Times(8, k - 1)) by {
        ShlPow2(Times(8, k - 1), 8);
        ShlByte(Pow2(Times(8, k - 1)));
      }
      BigEndianBytesValue(n / 256, k - 1);
      var r := Reverse(rest + [n % 256]);
      ReverseBack(rest, n % 256);
      assert r[1..] == Reverse(rest);
      assert Value(Reverse(rest), 8) == n / 256;
      assert r[0] == n % 256;
      assert Value(r[1..], 8) == n / 256;
      ShlByte(n / 256);
      assert Value(r, 8) == r[0] + Shl(Value(r[1..], 8), 8);
    } else {
      assert n == 0;
    }
  }

  /** An integer as its 8 big-endian bytes, each one digit. */
  function FromInt(n: nat): (r: ByteArray)
    requires n <= PhpIntMax
    ensures r.bits == 8 && Valid(r)
    ensures |r.values| == 8
    ensures ValueOf(r) == n
  {
    Pow2SixtyFour();
    BigEndianBytesValue(n, 8);
    FromBytes(BigEndianBytes(n, 8))
  }

  // ---------------------------------------------------------------------
  // Trim
  // ---------------------------------------------------------------------

  /** `sub` keeps some of the elements of `s`, in the same order. */
  predicate IsSubsequence(sub: seq<nat>, s: seq<nat>)
    decreases |s|
  {
    if |sub| == 0 then true
    else if |s| == 0 then false
    else (sub[0] == s[0] && IsSubsequence(sub[1..], s[1..])) || IsSubsequence(sub, s[1..])
  }

  /** The digits of `s` that are not zero, in their original order. */
  function NonZero(s: seq<nat>): (r: seq<nat>)
    ensures |r| <= |s|
    ensures forall i :: 0 <= i < |r| ==> r[i] != 0
  {
    if |s| == 0 then []
    else if s[0] == 0 then NonZero(s[1..])
    else [s[0]] + NonZero(s[1..])
  }

  /** The kept digits appear in `s` in the same order. */
  lemma {:induction false} NonZeroSubsequence(s: seq<nat>)
    ensures IsSubsequence(NonZero(s), s)
  {
    if |s| > 0 {
      NonZeroSubsequence(s[1..]);
      if s[0] != 0 {
        assert NonZero(s)[1..] == NonZero(s[1..]);
      }
    }
  }

  /** Every nonzero digit is kept, as often as it occurs; no zero is. */
  lemma {:induction false} NonZeroMultiset(s: seq<nat>)
    ensures multiset(NonZero(s)) == multiset(s)[0 := 0]
  {
    if |s| > 0 {
      NonZeroMultiset(s[1..]);
      assert s == [s[0]] + s[1..];
    }
  }

  lemma {:induction false} SubsequenceBounded(sub: seq<nat>, s: seq<nat>, w: nat)
    requires IsSubsequence(sub, s) && Bounded(s, w)
    ensures Bounded(sub, w)
    decreases |s|
  {
    if |sub| > 0 {
      if sub[0] == s[0] && IsSubsequence(sub[1..], s[1..]) {
        SubsequenceBounded(sub[1..], s[1..], w);
        assert forall i :: 1 <= i < |sub| ==> sub[i] == sub[1..][i - 1];
      } else {
        SubsequenceBounded(sub, s[1..], w);
      }
    }
  }

  /**
    Trim as the source writes it: every zero digit is dropped, wherever it
    stands, and the rest are kept most significant first.
   */
  function Trim(a: ByteArray): (r: ByteArray)
    requires Valid(a)
    ensures r.bits == a.bits && Valid(r)
    ensures |r.values| <= |a.values|
    ensures forall i :: 0 <= i < |r.values| ==> r.values[i] != 0
  {
    var kept := NonZero(ToArray(a));
    NonZeroSubsequence(ToArray(a));
    ReverseBounded(a.values, a.bits);
    SubsequenceBounded(kept, ToArray(a), a.bits);
    New(kept, a.bits)
  }

  /**
    Trim keeps exactly the nonzero digits: its big-endian digits are a
    subsequence of the input's, and hold every nonzero digit as often as
    the input does and no zero.
   */
  lemma {:induction false} TrimFilters(a: ByteArray)
    requires Valid(a)
    ensures IsSubsequence(ToArray(Trim(a)), ToArray(a))
    ensures multiset(ToArray(Trim(a))) == multiset(ToArray(a))[0 := 0]
  {
    NonZeroSubsequence(ToArray(a));
    NonZeroMultiset(ToArray(a));
  }

  lemma {:induction false} NonZeroOfNonZero(s: seq<nat>)
    requires forall i :: 0 <= i < |s| ==> s[i] != 0
    ensures NonZero(s) == s
  {
    if |s| > 0 {
      NonZeroOfNonZero(s[1..]);
    }
  }

  /** Trimming twice is trimming once. */
  lemma {:induction false} TrimIdempotent(a: ByteArray)
    requires Valid(a)
    ensures Trim(Trim(a)) == Trim(a)
  {
    var t := Trim(a);
    var s := ToArray(t);
    NonZeroOfNonZero(s);
    ReverseReverse(t.values);
  }

  lemma {:induction false} NonZeroEmpty(s: seq<nat>)
    ensures NonZero(s) == [] <==> forall i :: 0 <= i < |s| ==> s[i] == 0
  {
    if |s| > 0 {
      NonZeroEmpty(s[1..]);
      assert forall i :: 1 <= i < |s| ==> s[i] == s[1..][i - 1];
    }
  }

  /** Trim leaves nothing exactly when every digit is zero. */
  lemma {:induction false} TrimEmpty(a: ByteArray)
    requires Valid(a)
    ensures Trim(a).values == [] <==> forall i :: 0 <= i < |a.values| ==> a.values[i] == 0
  {
    var s := ToArray(a);
    NonZeroEmpty(s);
    assert |Trim(a).values| == |NonZero(s)| by {
      assert ToArray(Trim(a)) == NonZero(s);
    }
    if forall i :: 0 <= i < |a.values| ==> a.values[i] == 0 {
      assert forall i :: 0 <= i < |s| ==> s[i] == 0;
    } else {
      var i :| 0 <= i < |a.values| && a.values[i] != 0;
      assert s[|s| - 1 - i] != 0;
    }
  }

  /** Leading (most significant) zero digits dropped, nothing else. */
  function DropLeadingZeros(s: seq<nat>): (r: seq<nat>)
    ensures |r| <= |s| && r == s[|s| - |r|..]
    ensures forall i :: 0 <= i < |s| - |r| ==> s[i] == 0
    ensures |r| > 0 ==> r[0] != 0
  {
    if |s| > 0 && s[0] == 0 then DropLeadingZeros(s[1..]) else s
  }

  /**
    Trim as its documentation describes it ("drop the higher 0s"): only the
    most significant zero digits go.
   */
  function TrimLeading(a: ByteArray): (r: ByteArray)
    requires Valid(a)
    ensures r.bits == a.bits && Valid(r)
    ensures |r.values| > 0 ==> r.values[|r.values| - 1] != 0
    ensures ValueOf(r) == ValueOf(a)
  {
    var kept := DropLeadingZeros(ToArray(a));
    DropLeadingZerosSound(a);
    New(kept, a.bits)
  }

  lemma {:induction false} DropLeadingZerosBounded(s: seq<nat>, w: nat)
    requires Bounded(s, w)
    ensures Bounded(DropLeadingZeros(s), w)
  {
    var kept := DropLeadingZeros(s);
    SliceBounded(s, |s| - |kept|, |s|, w);
    assert kept == s[|s| - |kept|..|s|];
  }

  lemma {:induction false} DropLeadingZerosSound(a: ByteArray)
    requires Valid(a)
    ensures Bounded(DropLeadingZeros(ToArray(a)), a.bits)
    ensures Value(Reverse(DropLeadingZeros(ToArray(a))), a.bits) == ValueOf(a)
  {
    var s := ToArray(a);
    assert Bounded(s, a.bits) by {
      ReverseBounded(a.values, a.bits);
    }
    DropLeadingZerosBounded(s, a.bits);
    assert Reverse(s) == a.values by {
      ReverseReverse(a.values);
    }
    assert Value(Reverse(DropLeadingZeros(s)), a.bits) == Value(Reverse(s), a.bits) by {
      DropLeadingZerosValue(s, a.bits);
    }
  }

  /** Leading zeros of the big-endian view are high-end zeros of the stored list. */
  lemma {:induction false} DropLeadingZerosValue(s: seq<nat>, w: nat)
    ensures Value(Reverse(DropLeadingZeros(s)), w) == Value(Reverse(s), w)
  {
    if |s| > 0 && s[0] == 0 {
      DropLeadingZerosValue(s[1..], w);
      ReverseFront(s);
      ValueAppend(Reverse(s[1..]), 0, w);
      ShlBounds(0, Times(w, |Reverse(s[1..])|));
    }
  }

  /** Every zero digit of the big-endian list stands before every nonzero one. */
  predicate ZerosLeadOnly(s: seq<nat>) {
    forall i, j :: 0 <= i < j < |s| && s[j] == 0 ==> s[i] == 0
  }

  lemma {:induction false} NonZeroDropsLeading(s: seq<nat>)
    requires ZerosLeadOnly(s)
    ensures NonZero(s) == DropLeadingZeros(s)
  {
    if |s| > 0 {
      if s[0] == 0 {
        assert ZerosLeadOnly(s[1..]) by {
          forall i, j | 0 <= i < j < |s[1..]| && s[1..][j] == 0 ensures s[1..][i] == 0 {
            assert s[j + 1] == 0;
          }
        }
        NonZeroDropsLeading(s[1..]);
      } else {
        assert forall j :: 0 <= j < |s| ==> s[j] != 0;
        NonZeroOfNonZero(s);
      }
    }
  }

  /** Dropping every zero and dropping the leading zeros agree exactly when no zero follows a nonzero digit. */
  lemma {:induction false} NonZeroIsDropLeading(s: seq<nat>)
    ensures NonZero(s) == DropLeadingZeros(s) <==> ZerosLeadOnly(s)
  {
    if ZerosLeadOnly(s) {
      NonZeroDropsLeading(s);
    } else {
      var i, j :| 0 <= i < j < |s| && s[j] == 0 && s[i] != 0;
      InnerZeroKept(s, i, j);
    }
  }

  /** A zero after a nonzero digit survives DropLeadingZeros, but never NonZero. */
  lemma {:induction false} InnerZeroKept(s: seq<nat>, i: nat, j: nat)
    requires i < j < |s| && s[j] == 0 && s[i] != 0
    ensures NonZero(s) != DropLeadingZeros(s)
  {
    var d, n := DropLeadingZeros(s), NonZero(s);
    var k := |s| - |d|;
    assert k <= i by {
      assert forall m :: 0 <= m < k ==> s[m] == 0;
    }
    assert d == s[k..];
    assert d[j - k] == 0;
    assert j - k < |n| ==> n[j - k] != 0;
  }

  /**
    The source's Trim and the documented one give the same array exactly
    when the zero digits all stand above the nonzero ones.
   */
  lemma {:induction false} TrimIsTrimLeading(a: ByteArray)
    requires Valid(a)
    ensures Trim(a) == TrimLeading(a) <==> ZerosLeadOnly(ToArray(a))
  {
    var s := ToArray(a);
    NonZeroIsDropLeading(s);
    assert ToArray(Trim(a)) == NonZero(s);
    assert ToArray(TrimLeading(a)) == DropLeadingZeros(s);
    if NonZero(s) == DropLeadingZeros(s) {
      assert Trim(a) == New(NonZero(s), a.bits);
      assert TrimLeading(a) == New(DropLeadingZeros(s), a.bits);
    }
  }

  /** The eight bytes of a number below 256 are zeros and then the number. */
  lemma {:induction false} BigEndianBytesSmall(n: nat, k: nat)
    requires n < 256
    ensures ZerosLeadOnly(BigEndianBytes(n, k))
  {
    if k > 0 {
      BigEndianBytesOfZero(k - 1);
      assert n / 256 == 0 && n % 256 == n;
      var r := BigEndianBytes(n, k);
      assert r == BigEndianBytes(0, k - 1) + [n];
      assert forall i :: 0 <= i < k - 1 ==> r[i] == 0;
    }
  }

  lemma {:induction false} BigEndianBytesOfZero(k: nat)
    ensures forall i :: 0 <= i < k ==> BigEndianBytes(0, k)[i] == 0
  {
    if k > 0 {
      BigEndianBytesOfZero(k - 1);
      assert BigEndianBytes(0, k) == BigEndianBytes(0, k - 1) + [0];
    }
  }

  // ---------------------------------------------------------------------
  // Windows: chomp (from the low end) and slice (from the high end)
  // ---------------------------------------------------------------------

  /** PHP's `array_slice` for a natural offset and an optional natural length. */
  function ArraySlice(s: seq<nat>, offset: nat, length: Option<nat>): seq<nat>
  {
    var lo := Min(offset, |s|);
    match length
    case None => s[lo..]
    case Some(l) => s[lo..Min(offset + l, |s|)]
  }

  /**
    The argument defaults both window operations share: no arguments at
    all is offset = count with no length (an empty window); a lone offset
    is taken as the length from position 0.
   */
  function WindowArgs(count: nat, offset: Option<nat>, length: Option<nat>): (nat, Option<nat>)
  {
    if offset.None? && length.None? then (count, None)
    else if offset.None? then (0, length)
    else if length.None? then (0, offset)
    else (offset.value, length)
  }

  lemma {:induction false} ReverseSlice(s: seq<nat>, lo: nat, hi: nat)
    requires lo <= hi <= |s|
    ensures Reverse(s[lo..hi]) == Reverse(s)[|s| - hi..|s| - lo]
  {
    var a, b := Reverse(s[lo..hi]), Reverse(s)[|s| - hi..|s| - lo];
    forall i | 0 <= i < hi - lo ensures a[i] == b[i] {
      assert a[i] == s[lo..hi][hi - lo - 1 - i] == s[hi - 1 - i];
      assert b[i] == Reverse(s)[|s| - hi + i];
    }
  }

  lemma {:induction false} SliceBounded(s: seq<nat>, lo: nat, hi: nat, w: nat)
    requires lo <= hi <= |s|
    ensures Bounded(s, w) ==> Bounded(s[lo..hi], w)
  {
    assert forall j :: 0 <= j < hi - lo ==> s[lo..hi][j] == s[lo + j];
  }

  /**
    `chomp(offset, length)`: a window counted from the least significant
    digit. The constructor's reversal undoes the `array_reverse` the source
    applies, so the stored digits are the window itself.
   */
  function Chomp(a: ByteArray, offset: Option<nat>, length: Option<nat>): (r: ByteArray)
    ensures r.bits == a.bits
    ensures Valid(a) ==> Valid(r)
    ensures |r.values| <= |a.values|
    ensures offset.None? && length.None? ==> r.values == []
  {
    var (o, l) := WindowArgs(|a.values|, offset, length);
    var n := |a.values|;
    SliceBounded(a.values, Min(o, n), if l.None? then n else Min(o + l.value, n), a.bits);
    ByteArray(a.bits, ArraySlice(a.values, o, l))
  }

  /**
    `slice(offset, length)`: a window counted from the most significant
    digit.
   */
  function Slice(a: ByteArray, offset: Option<nat>, length: Option<nat>): (r: ByteArray)
    ensures r.bits == a.bits
    ensures Valid(a) ==> Valid(r)
    ensures |r.values| <= |a.values|
    ensures offset.None? && length.None? ==> r.values == []
  {
    var (o, l) := WindowArgs(|a.values|, offset, length);
    var n := |a.values|;
    var w := ArraySlice(ToArray(a), o, l);
    ReverseBounded(a.values, a.bits);
    SliceBounded(ToArray(a), Min(o, n), if l.None? then n else Min(o + l.value, n), a.bits);
    ReverseBounded(w, a.bits);
    ByteArray(a.bits, Reverse(w))
  }

  /** chomp(o, l): the big-endian digits from position o to o + l counted from the low end. */
  lemma {:induction false} ChompWindow(a: ByteArray, offset: nat, length: nat)
    ensures var n := |a.values|;
      var lo, hi := Min(offset, n), Min(offset + length, n);
      ToArray(Chomp(a, Some(offset), Some(length))) == ToArray(a)[n - hi..n - lo]
  {
    var n := |a.values|;
    ReverseSlice(a.values, Min(offset, n), Min(offset + length, n));
  }

  /** chomp(k): the lowest k digits, most significant first. */
  lemma {:induction false} ChompLowest(a: ByteArray, k: nat)
    ensures ToArray(Chomp(a, Some(k), None)) == ToArray(a)[|a.values| - Min(k, |a.values|)..]
    ensures Chomp(a, None, Some(k)) == Chomp(a, Some(k), None)
  {
    ChompWindow(a, 0, k);
  }

  /** slice(o, l): the big-endian digits from position o to o + l counted from the high end. */
  lemma {:induction false} SliceWindow(a: ByteArray, offset: nat, length: nat)
    ensures var n := |a.values|;
      ToArray(Slice(a, Some(offset), Some(length))) == ToArray(a)[Min(offset, n)..Min(offset + length, n)]
  {
    var w := ArraySlice(ToArray(a), offset, Some(length));
    ReverseReverse(w);
  }

  /** slice(k): the highest k digits, most significant first. */
  lemma {:induction false} SliceHighest(a: ByteArray, k: nat)
    ensures ToArray(Slice(a, Some(k), None)) == ToArray(a)[..Min(k, |a.values|)]
    ensures Slice(a, None, Some(k)) == Slice(a, Some(k), None)
  {
    SliceWindow(a, 0, k);
  }

  /** The highest n-k digits followed by the lowest k digits are the whole array. */
  lemma {:induction false} SliceChompComplement(a: ByteArray, k: nat)
    requires k <= |a.values|
    ensures ToArray(Slice(a, Some(|a.values| - k), None)) + ToArray(Chomp(a, Some(k), None)) == ToArray(a)
  {
    var s := ToArray(a);
    SliceHighest(a, |a.values| - k);
    ChompLowest(a, k);
    assert s[..|s| - k] + s[|s| - k..] == s;
  }
}
