/**
  Addition (`add`): the target is trimmed, then added digit by digit into
  an array of the receiver's length; a target longer than the receiver,
  or a carry out of the top digit, is an overflow.
 */
module Addition {
  import opened Digits
  import opened ByteArrays

  /** The lowest digit of a (possibly exhausted) target: 0 once it has run out. */
  function Head(ys: seq<nat>): nat {
    if |ys| > 0 then ys[0] else 0
  }

  function Tail(ys: seq<nat>): seq<nat> {
    if |ys| > 0 then ys[1..] else []
  }

  /**
    The addition loop over the receiver's digits `xs` (least significant
    first) and the target's digits `ys`, starting with `carry`: each step
    adds the two digits and the carry, keeps the low `bits` bits and
    carries the rest. Returns the digits and the final carry.
   */
  function AddDigits(xs: seq<nat>, ys: seq<nat>, bits: nat, carry: nat): (r: (seq<nat>, nat))
    ensures |r.0| == |xs| && Bounded(r.0, bits)
  {
    if |xs| == 0 then ([], carry)
    else
      var sum := Head(ys) + carry + xs[0];
      var rest := AddDigits(xs[1..], Tail(ys), bits, Shr(sum, bits));
      var ds := [Low(sum, bits)] + rest.0;
      assert forall i :: 1 <= i < |ds| ==> ds[i] == rest.0[i - 1];
      (ds, rest.1)
  }

  lemma {:induction false} HeadTail(ys: seq<nat>, w: nat)
    ensures Value(ys, w) == Head(ys) + Shl(Value(Tail(ys), w), w)
  {
    ShlBounds(0, w);
  }

  /**
    The loop computes the sum: its digits plus the final carry just above
    them are the receiver plus the target plus the incoming carry.
   */
  lemma {:induction false} AddDigitsValue(xs: seq<nat>, ys: seq<nat>, bits: nat, carry: nat)
    requires |ys| <= |xs|
    ensures var r := AddDigits(xs, ys, bits, carry);
      Value(r.0, bits) + Shl(r.1, Times(bits, |xs|)) == Value(xs, bits) + Value(ys, bits) + carry
  {
    if |xs| > 0 {
      var sum := Head(ys) + carry + xs[0];
      var rest := AddDigits(xs[1..], Tail(ys), bits, Shr(sum, bits));
      var ds := [Low(sum, bits)] + rest.0;
      assert AddDigits(xs, ys, bits, carry) == (ds, rest.1);
      var vx, vy, vr := Value(xs[1..], bits), Value(Tail(ys), bits), Value(rest.0, bits);
      AddDigitsValue(xs[1..], Tail(ys), bits, Shr(sum, bits));
      assert Value(ds, bits) == Low(sum, bits) + Shl(vr, bits) by {
        assert ds[1..] == rest.0;
      }
      assert Value(xs, bits) == xs[0] + Shl(vx, bits);
      HeadTail(ys, bits);
      assert Times(bits, |xs|) == Times(bits, |xs| - 1) + bits;
      AddStep(sum, Low(sum, bits), Shr(sum, bits), vr, rest.1, vx, vy, bits, Times(bits, |xs| - 1), Times(bits, |xs|));
    }
  }

  /** One column of the addition: the receiver's digit plus the target's, or 0 past its end. */
  function Column(xs: seq<nat>, ys: seq<nat>, i: nat): nat
    requires i < |xs|
  {
    xs[i] + (if i < |ys| then ys[i] else 0)
  }

  /** A column whose sum stays below the base is written as it is and carries nothing. */
  lemma {:induction false} AddDigitsQuiet(xs: seq<nat>, ys: seq<nat>, bits: nat, carry: nat)
    requires |xs| > 0 && Head(ys) + carry + xs[0] < Pow2(bits)
    ensures var rest := AddDigits(xs[1..], Tail(ys), bits, 0);
      AddDigits(xs, ys, bits, carry) == ([Head(ys) + carry + xs[0]] + rest.0, rest.1)
  {
    var sum := Head(ys) + carry + xs[0];
    var step := AddDigits(xs[1..], Tail(ys), bits, Shr(sum, bits));
    assert AddDigits(xs, ys, bits, carry) == ([Low(sum, bits)] + step.0, step.1);
    ShrSmall(sum, bits);
  }

  /** Where no column reaches the base, the loop adds digit by digit and carries nothing. */
  lemma {:induction false} AddDigitsNoCarry(xs: seq<nat>, ys: seq<nat>, bits: nat)
    requires |ys| <= |xs|
    requires forall i :: 0 <= i < |xs| ==> Column(xs, ys, i) < Pow2(bits)
    ensures var r := AddDigits(xs, ys, bits, 0);
      && r.1 == 0
      && forall i :: 0 <= i < |xs| ==> r.0[i] == Column(xs, ys, i)
  {
    if |xs| > 0 {
      assert Column(xs, ys, 0) == Head(ys) + 0 + xs[0];
      AddDigitsQuiet(xs, ys, bits, 0);
      var ys' := Tail(ys);
      assert forall i :: 0 <= i < |xs[1..]| ==> Column(xs[1..], ys', i) == Column(xs, ys, i + 1);
      AddDigitsNoCarry(xs[1..], ys', bits);
    }
  }

  /** The shift algebra of one addition step. */
  lemma {:induction false} AddStep(sum: nat, low: nat, high: nat, vr: nat, c: nat, vx: nat, vy: nat, bits: nat, e: nat, f: nat)
    requires sum == Shl(high, bits) + low && f == e + bits
    requires vr + Shl(c, e) == vx + vy + high
    ensures low + Shl(vr, bits) + Shl(c, f) == sum + Shl(vx, bits) + Shl(vy, bits)
  {
    var ce := Shl(c, e);
    ShlShlAt(c, e, bits, f);
    ShlAddAt(vr, ce, bits, vx + vy + high);
    ShlAddAt(vx + vy, high, bits, vx + vy + high);
    ShlAdd(vx, vy, bits);
  }

  /**
    The addition once the target is trimmed: a target with more digits
    than the receiver, or a carry out of the top digit, is an overflow.
   */
  function AddTrimmed(a: ByteArray, t: ByteArray): Result<ByteArray>
    requires a.bits == t.bits
  {
    if |t.values| > |a.values| then Failure(Overflow)
    else
      var r := AddDigits(a.values, t.values, a.bits, 0);
      if r.1 != 0 then Failure(Overflow) else Success(ByteArray(a.bits, r.0))
  }

  /** A target with more digits than the receiver, top digit nonzero, cannot fit. */
  lemma {:induction false} LongerTargetOverflows(xs: seq<nat>, ys: seq<nat>, bits: nat)
    requires |ys| > |xs| && ys[|ys| - 1] != 0
    ensures Value(xs, bits) + Value(ys, bits) >= Pow2(Times(bits, |xs|))
  {
    ValueLowerBound(ys, bits);
    TimesMonotone(bits, |xs|, |ys| - 1);
    Pow2Monotone(Times(bits, |xs|), Times(bits, |ys| - 1));
  }

  /** With a target no longer than the receiver, the final carry is the overflow. */
  lemma {:induction false} CarryIsOverflow(xs: seq<nat>, ys: seq<nat>, bits: nat)
    requires |ys| <= |xs| && Bounded(xs, bits) && Bounded(ys, bits)
    ensures var r := AddDigits(xs, ys, bits, 0);
      && (r.1 == 0 <==> Value(xs, bits) + Value(ys, bits) < Pow2(Times(bits, |xs|)))
      && (r.1 == 0 ==> Value(r.0, bits) == Value(xs, bits) + Value(ys, bits))
  {
    var r := AddDigits(xs, ys, bits, 0);
    AddDigitsValue(xs, ys, bits, 0);
    ValueBound(r.0, bits);
    ShlBounds(r.1, Times(bits, |xs|));
    ShlMonotone(1, r.1, Times(bits, |xs|));
  }

  /**
    What AddTrimmed promises when the target's top digit is nonzero: it
    succeeds exactly when the sum fits in the receiver's digit count, and
    then yields the sum in an array of the receiver's width and length.
   */
  lemma {:induction false} AddTrimmedMeaning(a: ByteArray, t: ByteArray)
    requires a.bits == t.bits && Valid(a) && Valid(t)
    requires |t.values| > 0 ==> t.values[|t.values| - 1] != 0
    ensures var r := AddTrimmed(a, t);
      && (r.Success? <==> ValueOf(a) + ValueOf(t) < Pow2(Times(a.bits, |a.values|)))
      && (r.Success? ==> r.value.bits == a.bits && |r.value.values| == |a.values| && Valid(r.value)
                         && ValueOf(r.value) == ValueOf(a) + ValueOf(t))
  {
    if |t.values| > |a.values| {
      LongerTargetOverflows(a.values, t.values, a.bits);
    } else {
      var r := AddDigits(a.values, t.values, a.bits, 0);
      CarryIsOverflow(a.values, t.values, a.bits);
      assert AddTrimmed(a, t) == if r.1 != 0 then Failure(Overflow) else Success(ByteArray(a.bits, r.0));
    }
  }

  /**
    `add` with a byte array target, as the source writes it: the target is
    trimmed by Trim (which drops every zero digit), so what is added is
    the value of the target's nonzero digits.
   */
  function Add(a: ByteArray, b: ByteArray): (r: Result<ByteArray>)
    requires a.bits == b.bits && Valid(a) && Valid(b)
    ensures r.Success? <==> ValueOf(a) + ValueOf(Trim(b)) < Pow2(Times(a.bits, |a.values|))
    ensures r.Success? ==> r.value.bits == a.bits && |r.value.values| == |a.values| && Valid(r.value)
    ensures r.Success? ==> ValueOf(r.value) == ValueOf(a) + ValueOf(Trim(b))
  {
    var t := Trim(b);
    AddTrimmedMeaning(a, t);
    AddTrimmed(a, t)
  }

  /**
    `add` with the target trimmed as documented (leading zeros only): it
    succeeds exactly when the true sum fits, and yields the true sum.
   */
  function AddIntended(a: ByteArray, b: ByteArray): (r: Result<ByteArray>)
    requires a.bits == b.bits && Valid(a) && Valid(b)
    ensures r.Success? <==> ValueOf(a) + ValueOf(b) < Pow2(Times(a.bits, |a.values|))
    ensures r.Success? ==> r.value.bits == a.bits && |r.value.values| == |a.values| && Valid(r.value)
    ensures r.Success? ==> ValueOf(r.value) == ValueOf(a) + ValueOf(b)
  {
    var t := TrimLeading(b);
    AddTrimmedMeaning(a, t);
    AddTrimmed(a, t)
  }

  /** `add` with an array target: the array is read as big-endian bytes. */
  function AddArray(a: ByteArray, bytes: seq<nat>): (r: Result<ByteArray>)
    requires a.bits == 8 && Valid(a) && Bounded(bytes, 8)
    ensures r.Success? <==> ValueOf(a) + ValueOf(Trim(FromBytes(bytes))) < Pow2(Times(8, |a.values|))
    ensures r.Success? ==> r.value.bits == 8 && |r.value.values| == |a.values| && Valid(r.value)
    ensures r.Success? ==> ValueOf(r.value) == ValueOf(a) + ValueOf(Trim(FromBytes(bytes)))
  {
    Add(a, FromBytes(bytes))
  }

  /** `add` with an integer target: the integer is read as its 8 big-endian bytes. */
  function AddInt(a: ByteArray, n: nat): (r: Result<ByteArray>)
    requires a.bits == 8 && Valid(a) && n <= PhpIntMax
    ensures r.Success? <==> ValueOf(a) + ValueOf(Trim(FromInt(n))) < Pow2(Times(8, |a.values|))
    ensures r.Success? ==> r.value.bits == 8 && |r.value.values| == |a.values| && Valid(r.value)
    ensures r.Success? ==> ValueOf(r.value) == ValueOf(a) + ValueOf(Trim(FromInt(n)))
  {
    Add(a, FromInt(n))
  }

  /** Where the target has no zero digit below a nonzero one, the source's `add` is the documented one. */
  lemma {:induction false} AddAgreesWithIntended(a: ByteArray, b: ByteArray)
    requires a.bits == b.bits && Valid(a) && Valid(b)
    requires ZerosLeadOnly(ToArray(b))
    ensures Add(a, b) == AddIntended(a, b)
  {
    TrimIsTrimLeading(b);
  }

  /** Adding an integer below 256 adds exactly that integer. */
  lemma {:induction false} AddSmallInt(a: ByteArray, n: nat)
    requires a.bits == 8 && Valid(a) && n < 256
    ensures AddInt(a, n).Success? <==> ValueOf(a) + n < Pow2(Times(8, |a.values|))
    ensures AddInt(a, n).Success? ==> ValueOf(AddInt(a, n).value) == ValueOf(a) + n
  {
    BigEndianBytesSmall(n, 8);
    AddAgreesWithIntended(a, FromInt(n));
  }

  /** A single column that stays below the base, worked through the loop. */
  lemma {:induction false} AddOneQuiet(x: nat, ys: seq<nat>, bits: nat)
    requires |ys| <= 1 && x + Head(ys) < Pow2(bits)
    ensures AddDigits([x], ys, bits, 0) == ([x + Head(ys)], 0)
  {
    assert Tail(ys) == [];
    assert [x][1..] == [];
    AddDigitsQuiet([x], ys, bits, 0);
    assert AddDigits([], [], bits, 0) == ([], 0);
    assert [x + Head(ys)] + [] == [x + Head(ys)];
  }

  lemma AddDigitsExample()
    ensures AddDigits([0, 1], [1], 8, 0) == ([1, 1], 0)
  {
    Pow2Byte();
    var high := AddDigits([1], [], 8, 0);
    assert high == ([1], 0) by {
      assert Head([]) == 0;
      AddOneQuiet(1, [], 8);
    }
    assert AddDigits([0, 1], [1], 8, 0) == ([1] + high.0, high.1) by {
      assert Head([1]) == 1 && Tail([1]) == [] && [0, 1][1..] == [1];
      AddDigitsQuiet([0, 1], [1], 8, 0);
    }
    assert [1] + [1] == [1, 1];
  }

  lemma AddDigitsTrimmedExample()
    ensures AddDigits([0, 0], [1], 8, 0) == ([1, 0], 0)
  {
    Pow2Byte();
    var high := AddDigits([0], [], 8, 0);
    assert high == ([0], 0) by {
      assert Head([]) == 0;
      AddOneQuiet(0, [], 8);
    }
    assert AddDigits([0, 0], [1], 8, 0) == ([1] + high.0, high.1) by {
      assert Head([1]) == 1 && Tail([1]) == [] && [0, 0][1..] == [0];
      AddDigitsQuiet([0, 0], [1], 8, 0);
    }
    assert [1] + [0] == [1, 0];
  }

  lemma AddDigitsUntrimmedExample()
    ensures AddDigits([0, 0], [0, 1], 8, 0) == ([0, 1], 0)
  {
    Pow2Byte();
    var high := AddDigits([0], [1], 8, 0);
    assert high == ([1], 0) by {
      assert Head([1]) == 1;
      AddOneQuiet(0, [1], 8);
    }
    assert AddDigits([0, 0], [0, 1], 8, 0) == ([0] + high.0, high.1) by {
      assert Head([0, 1]) == 0 && Tail([0, 1]) == [1] && [0, 0][1..] == [0];
      AddDigitsQuiet([0, 0], [0, 1], 8, 0);
    }
    assert [0] + [1] == [0, 1];
  }

  /** The arrays of the examples below, as stored (least significant digit first). */
  lemma NewExamples()
    ensures New([1, 0], 8) == ByteArray(8, [0, 1])
    ensures New([0, 1], 8) == ByteArray(8, [1, 0])
    ensures New([1, 1], 8) == ByteArray(8, [1, 1])
    ensures New([0, 0], 8) == ByteArray(8, [0, 0])
    ensures New([1], 8) == ByteArray(8, [1])
    ensures New([255], 8) == ByteArray(8, [255])
  {
    NewTwo(1, 0);
    NewTwo(0, 1);
    NewTwo(1, 1);
    NewTwo(0, 0);
    NewOne(1);
    NewOne(255);
  }

  lemma {:induction false} NewTwo(x: nat, y: nat)
    requires x < 256 && y < 256
    ensures New([x, y], 8) == ByteArray(8, [y, x])
  {
    Pow2Byte();
    assert Reverse([x, y]) == [y, x];
  }

  lemma {:induction false} NewOne(x: nat)
    requires x < 256
    ensures New([x], 8) == ByteArray(8, [x])
  {
    Pow2Byte();
    assert Reverse([x]) == [x];
  }

  lemma AddDigitsOverflowExample()
    ensures AddDigits([255], [1], 8, 0) == ([0], 1)
  {
    Pow2Byte();
    ShlByte(1);
    ShrLowUnique(256, 8, 1, 0);
    var step := AddDigits([], [], 8, Shr(256, 8));
    assert step == ([], 1);
    assert AddDigits([255], [1], 8, 0) == ([Low(256, 8)] + step.0, step.1);
    assert [0] + [] == [0];
  }

  /** The two-byte example: 0x0100 plus 0x01 is 0x0101. */
  lemma AddExample()
    ensures Add(New([1, 0], 8), New([1], 8)) == Success(New([1, 1], 8))
  {
    NewExamples();
    var a, b := ByteArray(8, [0, 1]), ByteArray(8, [1]);
    assert Valid(a) && Valid(b) by {
      Pow2Byte();
    }
    assert Add(a, b) == AddTrimmed(a, b) by {
      assert ToArray(b) == [1];
      assert NonZero([1]) == [1];
    }
    assert AddTrimmed(a, b) == Success(ByteArray(8, [1, 1])) by {
      AddDigitsExample();
    }
  }

  /** Carrying out of the top digit is an overflow: 0xFF plus 0x01 does not fit in one byte. */
  lemma AddOverflowExample()
    ensures Add(New([255], 8), New([1], 8)) == Failure(Overflow)
  {
    NewExamples();
    var a, b := ByteArray(8, [255]), ByteArray(8, [1]);
    assert Valid(a) && Valid(b) by {
      Pow2Byte();
    }
    assert Add(a, b) == AddTrimmed(a, b) by {
      assert ToArray(b) == [1];
      assert NonZero([1]) == [1];
    }
    assert AddTrimmed(a, b) == Failure(Overflow) by {
      AddDigitsOverflowExample();
    }
  }

  /** Trim as written turns 0x0100 into 0x01: the zero digit inside the number goes too. */
  lemma TrimCounterexample()
    ensures ValueOf(New([1, 0], 8)) == 256
    ensures Trim(New([1, 0], 8)) == New([1], 8)
    ensures ValueOf(New([1], 8)) == 1
  {
    NewExamples();
    var b := ByteArray(8, [0, 1]);
    assert Valid(b) by {
      Pow2Byte();
    }
    assert ValueOf(b) == 256 by {
      assert [0, 1][1..] == [1] && [1][1..] == [];
      ShlByte(1);
    }
    assert Trim(b) == ByteArray(8, [1]) by {
      assert ToArray(b) == [1, 0];
      assert NonZero([1, 0]) == [1] by {
        assert NonZero([0]) == [];
      }
    }
  }

  /** So adding 0x0100 to zero gives 0x0001. */
  lemma AddTrimCounterexample()
    ensures Add(New([0, 0], 8), New([1, 0], 8)) == Success(New([0, 1], 8))
  {
    NewExamples();
    TrimCounterexample();
    var a, b := ByteArray(8, [0, 0]), ByteArray(8, [0, 1]);
    assert Valid(a) && Valid(b) by {
      Pow2Byte();
    }
    assert AddTrimmed(a, ByteArray(8, [1])) == Success(ByteArray(8, [1, 0])) by {
      AddDigitsTrimmedExample();
    }
  }

  /** The documented trim keeps 0x0100 whole, so adding it to zero gives 0x0100. */
  lemma AddIntendedExample()
    ensures AddIntended(New([0, 0], 8), New([1, 0], 8)) == Success(New([1, 0], 8))
  {
    NewExamples();
    var a, b := ByteArray(8, [0, 0]), ByteArray(8, [0, 1]);
    assert Valid(a) && Valid(b) by {
      Pow2Byte();
    }
    assert TrimLeading(b) == b by {
      assert ToArray(b) == [1, 0];
      assert DropLeadingZeros([1, 0]) == [1, 0];
    }
    assert AddTrimmed(a, b) == Success(ByteArray(8, [0, 1])) by {
      AddDigitsUntrimmedExample();
    }
  }
}
