# ByteArray: a verified model of the ULID byte-array engine

This project models `Ulid\Internal\ByteArray`, the small immutable engine
the ULID library uses to hold unsigned multi-digit numbers. A byte array is
a digit width `bits` and a list of digits. The list is stored least
significant first and shown most significant first. The engine offers:

- construction: the constructor, `fromBytes` and `fromInt`;
- `add`: fixed-width addition that reports an overflow instead of wrapping;
- `convertBits`: regrouping the digits into another width, optionally padded
  or cut to a fixed digit count;
- windows: `chomp` counts from the low end and `slice` from the high end;
- `trim`, `toArray` and `toBytes`.

The model is written in Dafny as pure functions over an immutable datatype.
`ByteArray(bits, values)` keeps the source's storage order, and
`Digits.Value(values, bits)` gives the number a digit list denotes.

Modules:

- `Digits` (`digits.dfy`): shifts (`<<`, `>>` and masking with `2^n - 1`)
  and digit-list values. They are defined by recursion so that almost every
  proof stays linear. `ShlIsMul`, which states that a shift is a
  multiplication by a power of two, is the one link to multiplication; it is
  used only for the byte constants in `ShlByte` and `Pow2SixtyFour`.
- `ByteArrays` (`byte_array.dfy`): the datatype, construction, `trim`, the
  windows and `toArray`.
- `Conversion` (`convert_bits.dfy`): the `convertBits` loop and `toBytes`.
- `Addition` (`addition.dfy`): `add` and its three kinds of target.

How source features are modelled:

- The PHP `assert`s (every digit below `2^bits`, equal widths in `add`)
  become preconditions.
- `OverflowException` becomes `Failure(Overflow)` of a `Result`.
- The two loops of `convertBits` are the tail-recursive functions `Regroup`
  and `Flush`, whose parameters are the loop variables. The loop of `add` is
  `AddDigits`, a recursion over the digits not yet read that returns the
  result digits and the final carry.
- `convertBits` is parameterised by how its buffering branch folds a digit
  into the carry. `ShiftCarry` is the source's rule; `ShiftDigit` is the
  corrected one (see Findings).

The model follows the code in the source. These behaviours are easy to miss,
because the comments at ByteArray.php:136-142 and 156-162 say only "from the
lower end" and "from the higher end":

- `chomp()` and `slice()` with no arguments return an empty window. The
  offset is set to the digit count and the length stays null
  (ByteArray.php:145-146, 165-166).
- A lone argument to `chomp` or `slice` is a length from position 0
  (ByteArray.php:149-151, 169-171).
- A fixed `length` in `convertBits` keeps the lowest digits and drops the
  high-order ones. The loop stops once `length` digits are emitted
  (ByteArray.php:105, 129).

One behaviour contradicts the source's own comment. `trim` drops every zero
digit (ByteArray.php:184-189), although its comment at :177 says it drops
the higher zeros (see Findings).

## Model

| member | source | states |
|---|---|---|
| `ByteArrays.New` | src/Ulid/Internal/ByteArray.php:30-38 | the constructor yields an array of the given width whose digits all fit in it, and `toArray` gives back exactly the digits passed in |
| `ByteArrays.ToArray` | src/Ulid/Internal/ByteArray.php:198-201 | the big-endian view has one digit per stored digit, and position i holds stored digit n-1-i |
| `ByteArrays.FromBytes` | src/Ulid/Internal/ByteArray.php:44-47 | bytes become an 8-bit array with one digit per byte, most significant first |
| `ByteArrays.BigEndianBytesValue` | src/Ulid/Internal/ByteArray.php:53-56 | for n below 2^(8k), the k big-endian bytes `pack` produces denote n |
| `ByteArrays.FromInt` | src/Ulid/Internal/ByteArray.php:53-56 | an integer becomes an 8-bit array of exactly 8 digits whose value is the integer |
| `ByteArrays.Trim` | src/Ulid/Internal/ByteArray.php:181-191 | trim keeps the width, yields a valid array no longer than its input, and leaves no zero digit |
| `ByteArrays.TrimFilters` | src/Ulid/Internal/ByteArray.php:184-189 | trim's big-endian digits are a subsequence of the input's, and as a multiset they are the input's digits with every zero removed |
| `ByteArrays.TrimIdempotent` | src/Ulid/Internal/ByteArray.php:181-191 | trimming twice is trimming once |
| `ByteArrays.TrimEmpty` | src/Ulid/Internal/ByteArray.php:184-189 | trim gives the empty array exactly when every digit is zero |
| `ByteArrays.TrimLeading` | src/Ulid/Internal/ByteArray.php:176-191 | trim as its comment describes it: keeps the width and the value, and the top digit of a nonempty result is nonzero |
| `ByteArrays.NonZeroIsDropLeading` | src/Ulid/Internal/ByteArray.php:184-189 | dropping every zero and dropping only leading zeros agree exactly when no zero follows a nonzero digit |
| `ByteArrays.TrimIsTrimLeading` | src/Ulid/Internal/ByteArray.php:176-191 | the source's trim and the documented trim give the same array exactly when every zero digit stands above every nonzero one |
| `ByteArrays.BigEndianBytesSmall` | src/Ulid/Internal/ByteArray.php:53-56 | the 8 bytes of an integer below 256 are zeros followed by the integer, so no zero follows a nonzero byte |
| `ByteArrays.Chomp` | src/Ulid/Internal/ByteArray.php:143-154 | chomp keeps the width and validity, is never longer than its input, and gives the empty array when called with no arguments |
| `ByteArrays.Slice` | src/Ulid/Internal/ByteArray.php:163-174 | slice keeps the width and validity, is never longer than its input, and gives the empty array when called with no arguments |
| `ByteArrays.ChompWindow` | src/Ulid/Internal/ByteArray.php:143-154 | chomp(o, l) is the big-endian window from o to o+l counted from the low end, clamped to the digit count |
| `ByteArrays.ChompLowest` | src/Ulid/Internal/ByteArray.php:145-153 | chomp(k) and chomp(null, k) are both the lowest k digits, most significant first |
| `ByteArrays.SliceWindow` | src/Ulid/Internal/ByteArray.php:163-174 | slice(o, l) is the big-endian window from o to o+l counted from the high end, clamped to the digit count |
| `ByteArrays.SliceHighest` | src/Ulid/Internal/ByteArray.php:165-173 | slice(k) and slice(null, k) are both the highest k digits |
| `ByteArrays.SliceChompComplement` | src/Ulid/Internal/ByteArray.php:143-174 | for k up to the digit count, slice(n-k) followed by chomp(k) is the whole big-endian digit list |
| `Conversion.Flush` | src/Ulid/Internal/ByteArray.php:129-132 | the closing loop only appends, keeps digits within the width, and pads to exactly the fixed length; without one it appends a digit exactly when the carry is nonzero, and the last digit it appends is nonzero |
| `Conversion.RegroupShape` | src/Ulid/Internal/ByteArray.php:105-132 | for either buffering rule, every emitted digit fits in the new width, and a fixed length fixes the digit count |
| `Conversion.RegroupAgree` | src/Ulid/Internal/ByteArray.php:106-110 | when the new width is at most the old one, the buffering branch never runs, so the source's rule and the corrected rule give the same digits |
| `Conversion.BufferStep` | src/Ulid/Internal/ByteArray.php:107-110 | buffering a digit above the carry (corrected rule) keeps the loop invariant: consumed value = emitted value + carry above it, consumed bits = emitted bits + buffered bits |
| `Conversion.EmitCarryStep` | src/Ulid/Internal/ByteArray.php:113-117 | emitting the carry's low digit keeps the loop invariant |
| `Conversion.EmitDigitStep` | src/Ulid/Internal/ByteArray.php:119-124 | emitting the carry plus the next digit's low bits, and carrying its high bits, keeps the loop invariant |
| `Conversion.FlushConserves` | src/Ulid/Internal/ByteArray.php:129-132 | the closing loop moves value from the carry into digits without losing any; without a fixed length nothing is left over |
| `Conversion.StoppedEarly` | src/Ulid/Internal/ByteArray.php:105 | when the length stops the loop early, the unread digits sit just above the carry in the value |
| `Conversion.RegroupValue` | src/Ulid/Internal/ByteArray.php:105-132 | for the corrected buffering rule, from any state satisfying the invariant, the input's value is the output's value plus what was cut off above it; nothing is cut off without a length |
| `Conversion.RegroupMeaning` | src/Ulid/Internal/ByteArray.php:97-133 | the corrected loop yields the whole value without a length, and the value mod 2^(newBits*length) with one |
| `Conversion.ConvertBits` | src/Ulid/Internal/ByteArray.php:97-134 | the result has the new width, valid digits and exactly `length` digits when `length` is nonzero (0 and null alike mean no length); when the width does not grow it keeps the value, or the value mod 2^(newBits*length) |
| `Conversion.ConvertBitsIntended` | src/Ulid/Internal/ByteArray.php:97-134 | with the buffering branch corrected, the same shape and value guarantees hold for every pair of widths |
| `Conversion.RegroupSameWidth` | src/Ulid/Internal/ByteArray.php:111-125 | regrouping into the width already held reproduces the digits |
| `Conversion.ConvertSameWidth` | src/Ulid/Internal/ByteArray.php:97-134 | convertBits to the array's own width, without a length, returns the array unchanged |
| `Conversion.ToBytes` | src/Ulid/Internal/ByteArray.php:193-196 | the bytes all fit in 8 bits; an 8-bit array serialises to its own big-endian digits; an array of at least 8-bit digits keeps its value |
| `Conversion.BytesRoundTrip` | src/Ulid/Internal/ByteArray.php:193-196 | toBytes(fromBytes(s)) == s |
| `Conversion.IntRoundTrip` | src/Ulid/Internal/ByteArray.php:53-56 | toBytes(fromInt(n)) is the 8 big-endian bytes of n |
| `Conversion.WideningCounterexample` | src/Ulid/Internal/ByteArray.php:107-110 | the 2-bit array [0, 1] (value 1) widened to 8 bits gives [4] as written and [1] when corrected |
| `Conversion.WideningSteps` | src/Ulid/Internal/ByteArray.php:105-132 | on the counterexample, both rules buffer both digits and then flush one digit, the carry that the rule built |
| `Addition.AddDigits` | src/Ulid/Internal/ByteArray.php:79-85 | the addition loop produces one digit per receiver digit, each below 2^bits |
| `Addition.AddDigitsValue` | src/Ulid/Internal/ByteArray.php:79-85 | the loop's digits plus its final carry above them are the receiver plus the target plus the incoming carry |
| `Addition.AddDigitsNoCarry` | src/Ulid/Internal/ByteArray.php:79-85 | where no column reaches the base, the loop carries nothing and each digit is the column sum |
| `Addition.LongerTargetOverflows` | src/Ulid/Internal/ByteArray.php:76-78 | a target with more digits than the receiver and a nonzero top digit makes the sum too large for the receiver |
| `Addition.CarryIsOverflow` | src/Ulid/Internal/ByteArray.php:86-88 | the final carry is zero exactly when the sum fits in the receiver's digit count, and then the digits are the sum |
| `Addition.AddTrimmedMeaning` | src/Ulid/Internal/ByteArray.php:73-89 | after trimming, the addition succeeds exactly when the sum fits, and then gives the sum with the receiver's width and digit count |
| `Addition.Add` | src/Ulid/Internal/ByteArray.php:62-90 | add succeeds exactly when val(this) + val(trim(target)) < 2^(bits*count(this)); the result has this's width and digit count, valid digits, and that sum as its value |
| `Addition.AddIntended` | src/Ulid/Internal/ByteArray.php:62-90 | with only leading zeros trimmed, add succeeds exactly when the true sum fits, and gives the true sum |
| `Addition.AddArray` | src/Ulid/Internal/ByteArray.php:66-67 | adding an array adds the value of its nonzero big-endian bytes, under the same overflow condition |
| `Addition.AddInt` | src/Ulid/Internal/ByteArray.php:64-65 | adding an integer adds the value of the nonzero bytes of its 8-byte encoding, under the same overflow condition |
| `Addition.AddAgreesWithIntended` | src/Ulid/Internal/ByteArray.php:72 | when the target has no zero digit below a nonzero one, the source's add and the documented add agree |
| `Addition.AddSmallInt` | src/Ulid/Internal/ByteArray.php:64-65 | adding an integer below 256 adds exactly that integer, and fails exactly when the sum does not fit |
| `Addition.AddExample` | src/Ulid/Internal/ByteArray.php:12-14 | the class comment's example: [1, 0] + [1] == [1, 1] |
| `Addition.AddOverflowExample` | src/Ulid/Internal/ByteArray.php:86-87 | [255] + [1] carries out of the only digit and fails with an overflow |
| `Addition.TrimCounterexample` | src/Ulid/Internal/ByteArray.php:184-189 | trim turns [1, 0] (value 256) into [1] (value 1) |
| `Addition.AddTrimCounterexample` | src/Ulid/Internal/ByteArray.php:72 | [0, 0] + [1, 0] gives [0, 1]: adding 256 adds 1 |
| `Addition.AddIntendedExample` | src/Ulid/Internal/ByteArray.php:72 | with the documented trim, [0, 0] + [1, 0] gives [1, 0] |

## Left out

- `pack`, `unpack` and PHP strings: bytes are natural numbers below 256. `pack("C*")` truncating larger values does not arise, because `toBytes` only ever packs 8-bit digits.
- PHP integer width: digits, sums and carries are unbounded naturals. A 64-bit overflow of the carry, `2**bits` turning into a float for wide digits, and the `PHP_INT_MAX` loop bound of `convertBits` (ByteArray.php:105) are not modelled; "no length" means no bound.
- PHP `assert`s (ByteArray.php:35-36, 69-70) are preconditions, not runtime checks that can be switched off.
- Dynamic dispatch on the type of `add`'s target (ByteArray.php:64-68): the three kinds of target are the separate functions `Add`, `AddArray` and `AddInt`. The last two require an 8-bit receiver, because the source builds their operand with the default width 8 and then asserts equal widths.
- `ByteArrays.FromInt`: takes only 0 <= n <= PHP_INT_MAX. The two's-complement bytes `pack("J")` produces for a negative int are not modelled.
- `Addition.AddInt`: takes only 0 <= n <= PHP_INT_MAX, like `ByteArrays.FromInt`. `add(-1)` in the source adds the eight 0xFF bytes of `pack("J", -1)`; the model has no such case.
- Negative offsets and lengths of `chomp` and `slice`: `array_slice` counts them from the end; the model takes naturals only. A negative `length` for `convertBits` (which yields no digits) is likewise not modelled.
- The `static` return type and subclassing: every result is a plain `ByteArray`.
- `Conversion.ConvertBits`: states no value property when the width grows, because the source's buffering branch does not keep the value there (see Findings). The digit bounds and the fixed length hold for every width. It also requires `newBits >= 1`. With a target width of 0 and no length, the source loops forever once it reads a nonzero digit, or once it reaches a second digit of nonzero width. The cases that do end are also excluded: an empty input, a single zero digit, a 0-bit array, and any input with a length, which gives `length` zero digits.

## Findings

| source | as written | input that shows it | evidently intended | confidence | as-written member | corrected member |
|---|---|---|---|---|---|---|
| src/Ulid/Internal/ByteArray.php:184-189 | `trim` skips every zero digit wherever it stands, and `add` trims its target first (:72) | `(new ByteArray([0, 0]))->add([1, 0])` yields `[0, 1]`: adding 256 adds 1 | drop only the higher zeros, as the comment at :177 says, so that `add` adds the target's value | not executed | `Addition.AddTrimCounterexample` | `Addition.AddIntended` |
| src/Ulid/Internal/ByteArray.php:107-110 | when the new width exceeds the buffered bits plus one digit, the carry is shifted up and the new digit added below it, while the emitting branch (:119-121) places new bits above the carry | `(new ByteArray([0, 1], 2))->convertBits(8)` yields `[4]` although the array's value is 1 | add the new digit above the buffered bits (`carry += value << carriedBits`), which keeps the value for every pair of widths | not executed | `Conversion.WideningCounterexample` | `Conversion.ConvertBitsIntended` |
