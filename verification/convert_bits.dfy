/**
  Bit-width conversion (`convertBits`) and byte serialisation (`toBytes`).

  The conversion walks the stored digits from the least significant end,
  keeping a carry register and the number of bits buffered in it, and
  emits digits of the new width least significant first. It is written
  here as a tail-recursive function whose parameters are the loop's
  variables.
 */
module Conversion {
  import opened Digits
  import opened ByteArrays

  /**
    How the branch that buffers a whole input digit (taken only when the
    new width exceeds the buffered bits plus one old digit) folds the digit
    into the carry register.
   */
  datatype Widening =
    | ShiftCarry  // as the source does it: the carry moves up, the new digit goes below it
    | ShiftDigit  // as bit regrouping needs it: the new digit goes above the buffered bits

  /** The `length` argument as the loops read it: null and 0 both mean "no fixed length". */
  function Limit(length: Option<nat>): nat {
    match length
    case None => 0
    case Some(l) => l
  }

  /** The carry register after buffering digit `v` of width `bits`. */
  function Absorb(rule: Widening, carry: nat, carried: nat, v: nat, bits: nat): nat {
    match rule
    case ShiftCarry => Shl(carry, bits) + v
    case ShiftDigit => carry + Shl(v, carried)
  }

  /**
    The closing loop: with a fixed length, pad with the carry's digits up
    to that length; without one, emit the carry's digits while it is
    nonzero.
   */
  function Flush(nb: nat, limit: nat, carry: nat, out: seq<nat>): (r: seq<nat>)
    requires nb >= 1
    ensures |r| >= |out| && r[..|out|] == out
    ensures Bounded(out, nb) ==> Bounded(r, nb)
    ensures limit > 0 && |out| <= limit ==> |r| == limit
    ensures limit == 0 ==> (|r| > |out| <==> carry != 0)
    ensures limit == 0 && |r| > |out| ==> r[|r| - 1] != 0
    decreases if limit > |out| then limit - |out| else 0, carry
  {
    if (if limit > 0 then |out| < limit else carry != 0) then
      ShrShrinks(carry, nb);
      ShlBounds(Shr(carry, nb), nb);
      var out' := out + [Low(carry, nb)];
      AppendBounded(out, Low(carry, nb), nb);
      var r := Flush(nb, limit, Shr(carry, nb), out');
      assert r[..|out|] == out'[..|out|];
      r
    else
      out
  }

  lemma {:induction false} AppendBounded(out: seq<nat>, x: nat, nb: nat)
    ensures Bounded(out, nb) && x < Pow2(nb) ==> Bounded(out + [x], nb)
  {
    assert forall j :: 0 <= j < |out| ==> (out + [x])[j] == out[j];
  }

  /**
    The main loop of `convertBits`: `i` is the next input digit, `carry`
    holds `carried` buffered bits not yet emitted, `out` the digits emitted
    so far; `limit` 0 means no fixed length.
   */
  function Regroup(rule: Widening, vals: seq<nat>, bits: nat, nb: nat, limit: nat,
                   i: nat, carry: nat, carried: nat, out: seq<nat>): seq<nat>
    requires nb >= 1 && i <= |vals|
    decreases |vals| - i, carried
  {
    if (limit == 0 || |out| < limit) && i < |vals| then
      if carried + bits < nb then
        Regroup(rule, vals, bits, nb, limit, i + 1, Absorb(rule, carry, carried, vals[i], bits), carried + bits, out)
      else if nb < carried then
        Regroup(rule, vals, bits, nb, limit, i, Shr(carry, nb), carried - nb, out + [Low(carry, nb)])
      else
        var mask := nb - carried;
        var item := Shl(Low(vals[i], mask), carried) + carry;
        Regroup(rule, vals, bits, nb, limit, i + 1, Shr(vals[i], mask), carried + bits - nb, out + [item])
    else
      Flush(nb, limit, carry, out)
  }

  // ---------------------------------------------------------------------
  // Shape: digit bounds and output length, for either widening rule
  // ---------------------------------------------------------------------

  lemma {:induction false} AbsorbBound(rule: Widening, carry: nat, carried: nat, v: nat, bits: nat)
    requires carry < Pow2(carried) && v < Pow2(bits)
    ensures Absorb(rule, carry, carried, v, bits) < Pow2(carried + bits)
  {
    match rule
    case ShiftCarry =>
      ShlAdd(carry, 1, bits);
      ShlMonotone(carry + 1, Pow2(carried), bits);
      ShlPow2(carried, bits);
    case ShiftDigit =>
      ShlAdd(v, 1, carried);
      ShlMonotone(v + 1, Pow2(bits), carried);
      ShlPow2(bits, carried);
  }

  /** The part of the next input digit that stays in the carry fits in the bits left over. */
  lemma {:induction false} HighPartBound(v: nat, bits: nat, mask: nat, rest: nat)
    requires mask + rest == bits && v < Pow2(bits)
    ensures Shr(v, mask) < Pow2(rest)
  {
    ShrBound(v, mask, bits);
  }

  /** Appending the emitted digit keeps the output within the new width. */
  lemma {:induction false} AppendItemBounded(out: seq<nat>, v: nat, mask: nat, carry: nat, carried: nat, nb: nat)
    requires Bounded(out, nb) && carry < Pow2(carried) && mask + carried == nb
    ensures Bounded(out + [Shl(Low(v, mask), carried) + carry], nb)
  {
    ItemBound(v, mask, carry, carried, nb);
    AppendBounded(out, Shl(Low(v, mask), carried) + carry, nb);
  }

  /** The digit the emitting branch produces fits in the new width. */
  lemma {:induction false} ItemBound(v: nat, mask: nat, carry: nat, carried: nat, nb: nat)
    requires carry < Pow2(carried) && mask + carried == nb
    ensures Shl(Low(v, mask), carried) + carry < Pow2(nb)
  {
    AbsorbBound(ShiftDigit, carry, carried, Low(v, mask), mask);
  }

  /** One pass of the emitting branch of the main loop. */
  lemma {:induction false} RegroupEmits(rule: Widening, vals: seq<nat>, bits: nat, nb: nat, limit: nat,
                                        i: nat, carry: nat, carried: nat, out: seq<nat>, hi: nat, out': seq<nat>)
    requires nb >= 1 && i < |vals| && carried <= nb <= carried + bits && (limit == 0 || |out| < limit)
    requires hi == Shr(vals[i], nb - carried)
    requires out' == out + [Shl(Low(vals[i], nb - carried), carried) + carry]
    ensures Regroup(rule, vals, bits, nb, limit, i, carry, carried, out)
         == Regroup(rule, vals, bits, nb, limit, i + 1, hi, carried + bits - nb, out')
  {
  }

  lemma {:induction false} RegroupShape(rule: Widening, vals: seq<nat>, bits: nat, nb: nat, limit: nat,
                                        i: nat, carry: nat, carried: nat, out: seq<nat>)
    requires nb >= 1 && i <= |vals|
    requires Bounded(vals, bits) && Bounded(out, nb) && carry < Pow2(carried)
    requires limit > 0 ==> |out| <= limit
    ensures Bounded(Regroup(rule, vals, bits, nb, limit, i, carry, carried, out), nb)
    ensures limit > 0 ==> |Regroup(rule, vals, bits, nb, limit, i, carry, carried, out)| == limit
    decreases |vals| - i, carried, 1
  {
    if (limit == 0 || |out| < limit) && i < |vals| {
      if carried + bits < nb {
        BufferShape(rule, vals, bits, nb, limit, i, carry, carried, out);
      } else if nb < carried {
        CarryShape(rule, vals, bits, nb, limit, i, carry, carried, out);
      } else {
        EmitDigitShape(rule, vals, bits, nb, limit, i, carry, carried, out);
      }
    } else {
      assert Regroup(rule, vals, bits, nb, limit, i, carry, carried, out) == Flush(nb, limit, carry, out);
    }
  }

  /** Buffering a digit keeps the carry within its bit count. */
  lemma {:induction false} BufferShape(rule: Widening, vals: seq<nat>, bits: nat, nb: nat, limit: nat,
                                       i: nat, carry: nat, carried: nat, out: seq<nat>)
    requires nb >= 1 && i < |vals| && carried + bits < nb && (limit == 0 || |out| < limit)
    requires Bounded(vals, bits) && Bounded(out, nb) && carry < Pow2(carried)
    ensures Bounded(Regroup(rule, vals, bits, nb, limit, i, carry, carried, out), nb)
    ensures limit > 0 ==> |Regroup(rule, vals, bits, nb, limit, i, carry, carried, out)| == limit
    decreases |vals| - i, carried, 0
  {
    var carry' := Absorb(rule, carry, carried, vals[i], bits);
    assert Regroup(rule, vals, bits, nb, limit, i, carry, carried, out)
        == Regroup(rule, vals, bits, nb, limit, i + 1, carry', carried + bits, out);
    AbsorbBound(rule, carry, carried, vals[i], bits);
    RegroupShape(rule, vals, bits, nb, limit, i + 1, carry', carried + bits, out);
  }

  /** Emitting the carry's low digit leaves a carry of the remaining bits. */
  lemma {:induction false} CarryShape(rule: Widening, vals: seq<nat>, bits: nat, nb: nat, limit: nat,
                                      i: nat, carry: nat, carried: nat, out: seq<nat>)
    requires nb >= 1 && i < |vals| && carried + bits >= nb && nb < carried && (limit == 0 || |out| < limit)
    requires Bounded(vals, bits) && Bounded(out, nb) && carry < Pow2(carried)
    ensures Bounded(Regroup(rule, vals, bits, nb, limit, i, carry, carried, out), nb)
    ensures limit > 0 ==> |Regroup(rule, vals, bits, nb, limit, i, carry, carried, out)| == limit
    decreases |vals| - i, carried, 0
  {
    var out' := out + [Low(carry, nb)];
    assert Regroup(rule, vals, bits, nb, limit, i, carry, carried, out)
        == Regroup(rule, vals, bits, nb, limit, i, Shr(carry, nb), carried - nb, out');
    ShrBound(carry, nb, carried);
    AppendBounded(out, Low(carry, nb), nb);
    RegroupShape(rule, vals, bits, nb, limit, i, Shr(carry, nb), carried - nb, out');
  }

  /** Emitting a digit made of the carry and the next input's low bits leaves its high bits. */
  lemma {:induction false} EmitDigitShape(rule: Widening, vals: seq<nat>, bits: nat, nb: nat, limit: nat,
                                          i: nat, carry: nat, carried: nat, out: seq<nat>)
    requires nb >= 1 && i < |vals| && carried <= nb <= carried + bits && (limit == 0 || |out| < limit)
    requires Bounded(vals, bits) && Bounded(out, nb) && carry < Pow2(carried)
    ensures Bounded(Regroup(rule, vals, bits, nb, limit, i, carry, carried, out), nb)
    ensures limit > 0 ==> |Regroup(rule, vals, bits, nb, limit, i, carry, carried, out)| == limit
    decreases |vals| - i, carried, 0
  {
    var mask, v := nb - carried, vals[i];
    var hi, carried' := Shr(v, mask), carried + bits - nb;
    var item := Shl(Low(v, mask), carried) + carry;
    var out' := out + [item];
    RegroupEmits(rule, vals, bits, nb, limit, i, carry, carried, out, hi, out');
    assert v < Pow2(bits);
    AppendItemBounded(out, v, mask, carry, carried, nb);
    HighPartBound(v, bits, mask, carried');
    RegroupShape(rule, vals, bits, nb, limit, i + 1, hi, carried', out');
  }

  /**
    `convertBits(newBits, length)` as the source writes it. Every output
    digit fits in `newBits` bits and a nonzero length fixes the digit
    count (null and 0 both mean no fixed length). When the width does not
    grow, the value is kept, or cut to its low `newBits * length` bits.
   */
  function ConvertBits(a: ByteArray, newBits: nat, length: Option<nat>): (r: ByteArray)
    requires newBits >= 1 && Valid(a)
    ensures r.bits == newBits && Valid(r)
    ensures Limit(length) > 0 ==> |r.values| == Limit(length)
    ensures newBits <= a.bits && Limit(length) == 0 ==> ValueOf(r) == ValueOf(a)
    ensures newBits <= a.bits && Limit(length) > 0 ==>
              ValueOf(r) == Low(ValueOf(a), Times(newBits, Limit(length)))
  {
    var limit := Limit(length);
    RegroupShape(ShiftCarry, a.values, a.bits, newBits, limit, 0, 0, 0, []);
    if newBits <= a.bits then
      RegroupAgree(a.values, a.bits, newBits, limit, 0, 0, 0, []);
      RegroupMeaning(a.values, a.bits, newBits, limit);
      ByteArray(newBits, Regroup(ShiftCarry, a.values, a.bits, newBits, limit, 0, 0, 0, []))
    else
      ByteArray(newBits, Regroup(ShiftCarry, a.values, a.bits, newBits, limit, 0, 0, 0, []))
  }

  /**
    `convertBits` with the buffering branch corrected to place each new
    digit above the buffered bits: the value is kept for every pair of
    widths, or cut to its low `newBits * length` bits.
   */
  function ConvertBitsIntended(a: ByteArray, newBits: nat, length: Option<nat>): (r: ByteArray)
    requires newBits >= 1 && Valid(a)
    ensures r.bits == newBits && Valid(r)
    ensures Limit(length) > 0 ==> |r.values| == Limit(length)
    ensures Limit(length) == 0 ==> ValueOf(r) == ValueOf(a)
    ensures Limit(length) > 0 ==> ValueOf(r) == Low(ValueOf(a), Times(newBits, Limit(length)))
  {
    var limit := Limit(length);
    RegroupShape(ShiftDigit, a.values, a.bits, newBits, limit, 0, 0, 0, []);
    RegroupMeaning(a.values, a.bits, newBits, limit);
    ByteArray(newBits, Regroup(ShiftDigit, a.values, a.bits, newBits, limit, 0, 0, 0, []))
  }

  /** When the width does not grow the buffering branch never runs, so both rules agree. */
  lemma {:induction false} RegroupAgree(vals: seq<nat>, bits: nat, nb: nat, limit: nat,
                                        i: nat, carry: nat, carried: nat, out: seq<nat>)
    requires 1 <= nb <= bits && i <= |vals|
    ensures Regroup(ShiftCarry, vals, bits, nb, limit, i, carry, carried, out)
         == Regroup(ShiftDigit, vals, bits, nb, limit, i, carry, carried, out)
    decreases |vals| - i, carried
  {
    if (limit == 0 || |out| < limit) && i < |vals| {
      if nb < carried {
        RegroupAgree(vals, bits, nb, limit, i, Shr(carry, nb), carried - nb, out + [Low(carry, nb)]);
      } else {
        var mask := nb - carried;
        var item := Shl(Low(vals[i], mask), carried) + carry;
        RegroupAgree(vals, bits, nb, limit, i + 1, Shr(vals[i], mask), carried + bits - nb, out + [item]);
      }
    }
  }

  // ---------------------------------------------------------------------
  // Value: the loop invariant and its consequences
  // ---------------------------------------------------------------------

  /**
    The loop invariant: the digits consumed so far denote the digits
    emitted plus the carry just above them, and the bits consumed are the
    bits emitted plus the bits buffered.
   */
  ghost predicate Inv(vals: seq<nat>, bits: nat, nb: nat, i: nat, carry: nat, carried: nat, out: seq<nat>) {
    && i <= |vals|
    && Times(bits, i) == Times(nb, |out|) + carried
    && Value(vals[..i], bits) == Value(out, nb) + Shl(carry, Times(nb, |out|))
  }

  /** Consuming digit i adds it at bit offset `bits * i`. */
  lemma {:induction false} ConsumeDigit(vals: seq<nat>, bits: nat, i: nat)
    requires i < |vals|
    ensures Value(vals[..i + 1], bits) == Value(vals[..i], bits) + Shl(vals[i], Times(bits, i))
  {
    assert vals[..i + 1] == vals[..i] + [vals[i]];
    ValueAppend(vals[..i], vals[i], bits);
  }

  /** Emitting the low `nb` bits of the carry moves them from the carry to the output. */
  lemma {:induction false} EmitCarry(nb: nat, carry: nat, out: seq<nat>)
    ensures var out' := out + [Low(carry, nb)];
      Value(out', nb) + Shl(Shr(carry, nb), Times(nb, |out'|)) == Value(out, nb) + Shl(carry, Times(nb, |out|))
  {
    var out' := out + [Low(carry, nb)];
    TimesAppend(nb, out, Low(carry, nb));
    ValueAppend(out, Low(carry, nb), nb);
    ShlSplitAt(carry, nb, Times(nb, |out|), Times(nb, |out'|));
  }

  lemma {:induction false} EmitCarryStep(vals: seq<nat>, bits: nat, nb: nat, i: nat, carry: nat, carried: nat, out: seq<nat>)
    requires nb < carried
    requires Inv(vals, bits, nb, i, carry, carried, out)
    ensures Inv(vals, bits, nb, i, Shr(carry, nb), carried - nb, out + [Low(carry, nb)])
  {
    TimesAppend(nb, out, Low(carry, nb));
    EmitCarry(nb, carry, out);
  }

  /** Buffering a whole digit above the carry (the regrouping rule) keeps the invariant. */
  lemma {:induction false} BufferStep(vals: seq<nat>, bits: nat, nb: nat, i: nat, carry: nat, carried: nat, out: seq<nat>)
    requires i < |vals|
    requires Inv(vals, bits, nb, i, carry, carried, out)
    ensures Inv(vals, bits, nb, i + 1, Absorb(ShiftDigit, carry, carried, vals[i], bits), carried + bits, out)
  {
    var e := Times(nb, |out|);
    assert Times(bits, i + 1) == Times(bits, i) + bits;
    ConsumeDigit(vals, bits, i);
    ShlAdd(carry, Shl(vals[i], carried), e);
    ShlShlAt(vals[i], carried, e, Times(bits, i));
  }

  /**
    Emitting a digit made of the carry and the low part `lo` of the next
    input keeps the invariant; the input's high part `hi` becomes the carry.
   */
  lemma {:induction false} EmitDigitStep(vals: seq<nat>, bits: nat, nb: nat, i: nat, carry: nat, carried: nat, out: seq<nat>,
                                         lo: nat, hi: nat, item: nat, out': seq<nat>)
    requires i < |vals| && carried <= nb <= carried + bits
    requires vals[i] == Shl(hi, nb - carried) + lo
    requires item == Shl(lo, carried) + carry && out' == out + [item]
    requires Inv(vals, bits, nb, i, carry, carried, out)
    ensures Inv(vals, bits, nb, i + 1, hi, carried + bits - nb, out')
  {
    var mask := nb - carried;
    var v, e, ti := vals[i], Times(nb, |out|), Times(bits, i);
    var f := Times(nb, |out'|);
    assert Times(bits, i + 1) == ti + bits;
    assert f == e + nb by {
      TimesAppend(nb, out, item);
    }
    assert Value(vals[..i + 1], bits) == Value(vals[..i], bits) + Shl(v, ti) by {
      ConsumeDigit(vals, bits, i);
    }
    assert Value(out', nb) == Value(out, nb) + Shl(item, e) by {
      ValueAppend(out, item, nb);
    }
    assert Shl(carry, e) + Shl(v, ti) == Shl(item, e) + Shl(hi, f) by {
      EmitDigitShift(v, lo, hi, mask, carried, carry, e, ti, f);
    }
    assert Times(bits, i + 1) == f + (carried + bits - nb);
    assert Value(vals[..i + 1], bits) == Value(out', nb) + Shl(hi, f);
  }

  /**
    The shifts behind EmitDigitStep: the carry at offset e and the next
    digit just above it are the emitted digit at e and the digit's high
    part above that.
   */
  lemma {:induction false} EmitDigitShift(v: nat, lo: nat, hi: nat, mask: nat, carried: nat, carry: nat, e: nat, ti: nat, f: nat)
    requires v == Shl(hi, mask) + lo && ti == carried + e && f == mask + ti
    ensures Shl(carry, e) + Shl(v, ti) == Shl(Shl(lo, carried) + carry, e) + Shl(hi, f)
  {
    ShlAddAt(Shl(hi, mask), lo, ti, v);
    ShlShlAt(hi, mask, ti, f);
    ShlShlAt(lo, carried, e, ti);
    ShlAdd(Shl(lo, carried), carry, e);
  }

  /** The closing loop moves value from the carry into emitted digits, losing none of it. */
  lemma {:induction false} FlushConserves(nb: nat, limit: nat, carry: nat, out: seq<nat>) returns (left: nat)
    requires nb >= 1
    ensures var r := Flush(nb, limit, carry, out);
      Value(out, nb) + Shl(carry, Times(nb, |out|)) == Value(r, nb) + Shl(left, Times(nb, |r|))
    ensures limit == 0 ==> left == 0
    decreases if limit > |out| then limit - |out| else 0, carry
  {
    if (if limit > 0 then |out| < limit else carry != 0) {
      ShrShrinks(carry, nb);
      EmitCarry(nb, carry, out);
      left := FlushConserves(nb, limit, Shr(carry, nb), out + [Low(carry, nb)]);
    } else {
      left := carry;
    }
  }

  /**
    Under the invariant, the value of all input digits is the value of the
    output plus whatever was cut off above it; with no length nothing is
    cut off. Each branch of the loop is proved by its own lemma.
   */
  lemma {:induction false} RegroupValue(vals: seq<nat>, bits: nat, nb: nat, limit: nat,
                                        i: nat, carry: nat, carried: nat, out: seq<nat>) returns (left: nat)
    requires nb >= 1
    requires Inv(vals, bits, nb, i, carry, carried, out)
    ensures var r := Regroup(ShiftDigit, vals, bits, nb, limit, i, carry, carried, out);
      Value(vals, bits) == Value(r, nb) + Shl(left, Times(nb, |r|))
    ensures limit == 0 ==> left == 0
    decreases |vals| - i, carried, 1
  {
    if (limit == 0 || |out| < limit) && i < |vals| {
      if carried + bits < nb {
        left := BufferValue(vals, bits, nb, limit, i, carry, carried, out);
      } else if nb < carried {
        left := EmitCarryValue(vals, bits, nb, limit, i, carry, carried, out);
      } else {
        left := EmitDigitValue(vals, bits, nb, limit, i, carry, carried, out);
      }
    } else if i < |vals| {
      // Stopped by the length: the unread digits sit above the carry.
      var r := Regroup(ShiftDigit, vals, bits, nb, limit, i, carry, carried, out);
      assert r == out;
      left := carry + Shl(Value(vals[i..], bits), carried);
      StoppedEarly(vals, bits, nb, i, carry, carried, out);
    } else {
      var r := Regroup(ShiftDigit, vals, bits, nb, limit, i, carry, carried, out);
      assert vals[..i] == vals;
      assert r == Flush(nb, limit, carry, out);
      left := FlushConserves(nb, limit, carry, out);
    }
  }

  lemma {:induction false} BufferValue(vals: seq<nat>, bits: nat, nb: nat, limit: nat,
                                       i: nat, carry: nat, carried: nat, out: seq<nat>) returns (left: nat)
    requires nb >= 1 && (limit == 0 || |out| < limit) && i < |vals| && carried + bits < nb
    requires Inv(vals, bits, nb, i, carry, carried, out)
    ensures var r := Regroup(ShiftDigit, vals, bits, nb, limit, i, carry, carried, out);
      Value(vals, bits) == Value(r, nb) + Shl(left, Times(nb, |r|))
    ensures limit == 0 ==> left == 0
    decreases |vals| - i, carried, 0
  {
    var carry' := Absorb(ShiftDigit, carry, carried, vals[i], bits);
    BufferStep(vals, bits, nb, i, carry, carried, out);
    left := RegroupValue(vals, bits, nb, limit, i + 1, carry', carried + bits, out);
  }

  lemma {:induction false} EmitCarryValue(vals: seq<nat>, bits: nat, nb: nat, limit: nat,
                                          i: nat, carry: nat, carried: nat, out: seq<nat>) returns (left: nat)
    requires nb >= 1 && (limit == 0 || |out| < limit) && i < |vals| && nb <= carried + bits && nb < carried
    requires Inv(vals, bits, nb, i, carry, carried, out)
    ensures var r := Regroup(ShiftDigit, vals, bits, nb, limit, i, carry, carried, out);
      Value(vals, bits) == Value(r, nb) + Shl(left, Times(nb, |r|))
    ensures limit == 0 ==> left == 0
    decreases |vals| - i, carried, 0
  {
    EmitCarryStep(vals, bits, nb, i, carry, carried, out);
    left := RegroupValue(vals, bits, nb, limit, i, Shr(carry, nb), carried - nb, out + [Low(carry, nb)]);
  }

  lemma {:induction false} EmitDigitValue(vals: seq<nat>, bits: nat, nb: nat, limit: nat,
                                          i: nat, carry: nat, carried: nat, out: seq<nat>) returns (left: nat)
    requires nb >= 1 && (limit == 0 || |out| < limit) && i < |vals| && carried <= nb <= carried + bits
    requires Inv(vals, bits, nb, i, carry, carried, out)
    ensures var r := Regroup(ShiftDigit, vals, bits, nb, limit, i, carry, carried, out);
      Value(vals, bits) == Value(r, nb) + Shl(left, Times(nb, |r|))
    ensures limit == 0 ==> left == 0
    decreases |vals| - i, carried, 0
  {
    var mask := nb - carried;
    var lo, hi := Low(vals[i], mask), Shr(vals[i], mask);
    var item := Shl(lo, carried) + carry;
    var out' := out + [item];
    RegroupEmits(ShiftDigit, vals, bits, nb, limit, i, carry, carried, out, hi, out');
    EmitDigitStep(vals, bits, nb, i, carry, carried, out, lo, hi, item, out');
    left := RegroupValue(vals, bits, nb, limit, i + 1, hi, carried + bits - nb, out');
  }

  lemma {:induction false} StoppedEarly(vals: seq<nat>, bits: nat, nb: nat, i: nat, carry: nat, carried: nat, out: seq<nat>)
    requires Inv(vals, bits, nb, i, carry, carried, out)
    ensures Value(vals, bits)
         == Value(out, nb) + Shl(carry + Shl(Value(vals[i..], bits), carried), Times(nb, |out|))
  {
    var rest, e := Value(vals[i..], bits), Times(nb, |out|);
    ValueSplit(vals, i, bits);
    ShlAdd(carry, Shl(rest, carried), e);
    ShlShlAt(rest, carried, e, Times(bits, i));
  }

  /**
    What the corrected loop computes from the start: the whole value when
    no length is given, its low `nb * limit` bits otherwise.
   */
  lemma {:induction false} RegroupMeaning(vals: seq<nat>, bits: nat, nb: nat, limit: nat)
    requires nb >= 1 && Bounded(vals, bits)
    ensures var r := Regroup(ShiftDigit, vals, bits, nb, limit, 0, 0, 0, []);
      && (limit == 0 ==> Value(r, nb) == Value(vals, bits))
      && (limit > 0 ==> Value(r, nb) == Low(Value(vals, bits), Times(nb, limit)))
  {
    var r := Regroup(ShiftDigit, vals, bits, nb, limit, 0, 0, 0, []);
    assert vals[..0] == [];
    var left := RegroupValue(vals, bits, nb, limit, 0, 0, 0, []);
    ShlBounds(left, Times(nb, |r|));
    if limit > 0 {
      RegroupShape(ShiftDigit, vals, bits, nb, limit, 0, 0, 0, []);
      ValueBound(r, nb);
      ShrLowUnique(Value(vals, bits), Times(nb, limit), left, Value(r, nb));
    }
  }

  // ---------------------------------------------------------------------
  // Same width and bytes
  // ---------------------------------------------------------------------

  /** Converting to the width already held gives back the same digits. */
  lemma {:induction false} RegroupSameWidth(rule: Widening, vals: seq<nat>, bits: nat, i: nat)
    requires bits >= 1 && Bounded(vals, bits) && i <= |vals|
    ensures Regroup(rule, vals, bits, bits, 0, i, 0, 0, vals[..i]) == vals
    decreases |vals| - i
  {
    if i < |vals| {
      ShrSmall(vals[i], bits);
      assert vals[..i] + [vals[i]] == vals[..i + 1];
      RegroupSameWidth(rule, vals, bits, i + 1);
    } else {
      assert vals[..i] == vals;
    }
  }

  lemma {:induction false} ConvertSameWidth(a: ByteArray)
    requires a.bits >= 1 && Valid(a)
    ensures ConvertBits(a, a.bits, None) == a
  {
    assert a.values[..0] == [];
    RegroupSameWidth(ShiftCarry, a.values, a.bits, 0);
  }

  /**
    `toBytes`: the value regrouped into 8-bit digits, most significant
    first. Byte arrays of bytes come back unchanged, and any array of at
    least 8-bit digits keeps its value.
   */
  function ToBytes(a: ByteArray): (r: seq<nat>)
    requires Valid(a)
    ensures Bounded(r, 8)
    ensures a.bits == 8 ==> r == ToArray(a)
    ensures a.bits >= 8 ==> Value(Reverse(r), 8) == ValueOf(a)
  {
    var c := ConvertBits(a, 8, None);
    ReverseBounded(c.values, 8);
    ReverseReverse(c.values);
    if a.bits == 8 then
      ConvertSameWidth(a);
      Reverse(c.values)
    else
      Reverse(c.values)
  }

  /** Bytes in, the same bytes out. */
  lemma {:induction false} BytesRoundTrip(bytes: seq<nat>)
    requires Bounded(bytes, 8)
    ensures ToBytes(FromBytes(bytes)) == bytes
  {
  }

  /** An integer comes back as its 8 big-endian bytes. */
  lemma {:induction false} IntRoundTrip(n: nat)
    requires n <= PhpIntMax
    ensures ToBytes(FromInt(n)) == BigEndianBytes(n, 8)
  {
  }

  // ---------------------------------------------------------------------
  // Examples
  // ---------------------------------------------------------------------

  /**
    Widening two 2-bit digits into one byte: the digits 0 and 1 (most
    significant first) denote 1, but the source's buffering shifts the
    first digit up and yields 4; the corrected rule yields 1.
   */
  lemma WideningCounterexample()
    ensures ValueOf(New([0, 1], 2)) == 1
    ensures ConvertBits(New([0, 1], 2), 8, None).values == [4]
    ensures ConvertBitsIntended(New([0, 1], 2), 8, None).values == [1]
  {
    var a := ByteArray(2, [1, 0]);
    assert New([0, 1], 2) == a;
    assert Valid(a) by {
      assert Pow2(2) == 4;
    }
    assert ValueOf(a) == 1 by {
      assert [1, 0][1..] == [0] && [0][1..] == [];
    }
    Pow2Byte();
    assert ConvertBits(a, 8, None).values == Regroup(ShiftCarry, [1, 0], 2, 8, 0, 0, 0, 0, []);
    assert ConvertBitsIntended(a, 8, None).values == Regroup(ShiftDigit, [1, 0], 2, 8, 0, 0, 0, 0, []);
    assert Regroup(ShiftCarry, [1, 0], 2, 8, 0, 0, 0, 0, []) == [4] by {
      WideningSteps(ShiftCarry, [1, 0], 4);
    }
    assert Regroup(ShiftDigit, [1, 0], 2, 8, 0, 0, 0, 0, []) == [1] by {
      WideningSteps(ShiftDigit, [1, 0], 1);
    }
  }

  /**
    The two buffering steps of the counterexample, then the closing loop.
    The input `[1, 0]` and the constant `Pow2(8)` come in through the
    preconditions rather than as literals, so that the solver does not
    unfold them in every unrelated term of the proof.
   */
  lemma {:induction false} WideningSteps(rule: Widening, vals: seq<nat>, carry: nat)
    requires vals == [1, 0] && Pow2(8) == 256
    requires carry == Absorb(rule, 1, 2, 0, 2)
    ensures 1 <= carry <= 4
    ensures Regroup(rule, vals, 2, 8, 0, 0, 0, 0, []) == [carry]
  {
    WideningFirst(rule, vals);
    WideningSecond(rule, vals, carry);
    WideningFlush(carry);
  }

  /** The first 2-bit digit is buffered as it is (`vals` as in `WideningSteps`). */
  lemma {:induction false} WideningFirst(rule: Widening, vals: seq<nat>)
    requires vals == [1, 0]
    ensures Regroup(rule, vals, 2, 8, 0, 0, 0, 0, []) == Regroup(rule, vals, 2, 8, 0, 1, 1, 2, [])
  {
    ShlBounds(0, 2);
    assert Absorb(rule, 0, 0, 1, 2) == 1;
  }

  /**
    The second digit is buffered by the rule under test; then the input is
    used up (`vals` as in `WideningSteps`).
   */
  lemma {:induction false} WideningSecond(rule: Widening, vals: seq<nat>, carry: nat)
    requires vals == [1, 0]
    requires carry == Absorb(rule, 1, 2, 0, 2)
    ensures 1 <= carry <= 4
    ensures Regroup(rule, vals, 2, 8, 0, 1, 1, 2, []) == Flush(8, 0, carry, [])
  {
    assert Shl(1, 2) == 4;
    ShlBounds(0, 2);
    assert Regroup(rule, vals, 2, 8, 0, 1, 1, 2, []) == Regroup(rule, vals, 2, 8, 0, 2, carry, 4, []);
  }

  /** A nonzero carry below 2^8 closes as one byte. */
  lemma {:induction false} WideningFlush(carry: nat)
    requires 1 <= carry <= 4 && Pow2(8) == 256
    ensures Flush(8, 0, carry, []) == [carry]
  {
    ShrSmall(carry, 8);
    assert Flush(8, 0, 0, [carry]) == [carry];
  }
}
