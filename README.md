# Artichoke core components in Dafny

A verified model of five sequential components of Artichoke, a Ruby
implementation written in Rust:

- **`RubyArray`** (`RubyArray.dfy`) is the vector behind Ruby's `Array`
  (spinoso-array). It is a class over a sequence of elements with
  Ruby-flavoured slicing: reads saturate at the end. Splicing writes past
  the end pad the gap with a default element.
- **`Utf8` and `Utf8Str`** (`Utf8.dfy`, `Utf8String.dfy`) model the
  conventionally UTF-8 byte string of spinoso-string.
  - A well-formed encoded scalar value is one character. Each byte of an
    ill-formed maximal subpart is one character.
  - `Utf8` holds the decoder, the encoder and the character reading of a
    byte string.
  - `Utf8Str.Utf8String` is the buffer with its character operations:
    `char_len`, `get_char`, `get_char_slice`, `try_push_codepoint`,
    `chr`, `ord`, `is_valid_encoding` and `reverse`.
- **`TimeMath`** (`TimeMath.dfy`) holds the arithmetic of spinoso-time on
  (seconds, nanoseconds) instants:
  - sub-second rounding with carry;
  - checked addition and subtraction of durations and of whole seconds.
- **`StrScan`** (`StringScanner.dfy`) models Artichoke's Ruby
  `StringScanner`. It is a class with `@pos`, `@previous_pos`,
  `@last_match` and `@last_match_pos` over a byte string, with the regexp
  engine taken as an abstract matcher.
- **`SpecRunner`** (`SpecRunner.dfy`) models the rule by which the
  ruby/spec runner picks embedded spec files from its manifest.
  - `is_require_path` is written over path components.
  - The fixture/shared filter is written over the list of embedded names.

`Wrappers.dfy` holds `Option` and `Result`. `Ints.dfy` holds the machine
integer ranges (`u32`, `i64`, `u64`, `usize` as 64 bits) and a few
arithmetic lemmas.

Machine-integer behaviour is written out where the source depends on it:
- `usize` overflow in `Array::slice` saturates;
- overflow in `repeat` is reported;
- `i64`/`u64` overflow in the time arithmetic is checked;
- the `u32` nanosecond sum is checked.

Loops of the source are methods with loop invariants, proved against
recursive reference functions:
- the three scanning loops of `get_char`/`get_char_slice` (`NthChar`,
  `SkipChars`, `TakeChars`);
- the chunk loop of `char_len`;
- the reversal loop of `reverse`;
- the collecting loop of the spec runner.

## Model

| member | source | states |
|---|---|---|
| RubyArray.Array.constructor | spinoso-array/src/array/vec/mod.rs:86-88 | `new` gives the empty array |
| RubyArray.Array.WithLenAndDefault | spinoso-array/src/array/vec/mod.rs:928-930 | `len` copies of the default element |
| RubyArray.Array.Len | spinoso-array/src/array/vec/mod.rs:481-483 | the number of elements |
| RubyArray.Array.FirstN | spinoso-array/src/array/vec/mod.rs:591-593 | the first `min(n, len)` elements |
| RubyArray.Array.LastN | spinoso-array/src/array/vec/mod.rs:643-646 | the last `min(n, len)` elements |
| RubyArray.Array.TakeN | spinoso-array/src/array/vec/mod.rs:667-669 | the first `min(n, len)` elements |
| RubyArray.Array.DropN | spinoso-array/src/array/vec/mod.rs:690-692 | everything after the first `min(n, len)` elements |
| RubyArray.TakeDropSplit | spinoso-array/src/array/vec/mod.rs:667-692 | `take_n(n) ++ drop_n(n)` is the whole array, for every `n` |
| RubyArray.FirstIsTake | spinoso-array/src/array/vec/mod.rs:591-593 | `first_n` and `take_n` agree |
| RubyArray.Array.Slice | spinoso-array/src/array/vec/mod.rs:895-907 | empty when the array is empty, `len == 0` or `start >= len`; otherwise `elems[start..min(start + len, len)]`, saturating when `start + len` overflows |
| RubyArray.Array.DeleteAt | spinoso-array/src/array/vec/mod.rs:535-541 | past the end: None and no change; otherwise the old element, which is removed with the rest kept in order |
| RubyArray.Array.PopN | spinoso-array/src/array/vec/mod.rs:738-745 | pops `min(n, len)` elements; remaining ++ popped == old |
| RubyArray.Array.ShiftN | spinoso-array/src/array/vec/mod.rs:835-844 | shifts `min(n, len)` elements; shifted ++ remaining == old |
| RubyArray.Array.Concat | spinoso-array/src/array/vec/mod.rs:945-947 | appends the other elements |
| RubyArray.Array.UnshiftN | spinoso-array/src/array/vec/mod.rs:969-974 | the new elements, then the old ones |
| RubyArray.Array.Set | spinoso-array/src/array/vec/mod.rs:1042-1054 | inside: replaces element `index` only; past the end: old ++ default padding ++ [elem], length `index + 1` |
| RubyArray.SetIsOneElementSplice | spinoso-array/src/array/vec/mod.rs:1042-1054 | `set` is the splice of one element that drains at most one |
| RubyArray.Array.SetWithDrain | spinoso-array/src/array/vec/mod.rs:1081-1105 | returns `min(max(len - start, 0), drain)` and leaves the splice of the single element |
| RubyArray.Array.InsertSlice | spinoso-array/src/array/vec/mod.rs:1129-1144 | the splice that drains nothing, padding a gap past the end |
| RubyArray.InsertAtOrPastEnd | spinoso-array/src/array/vec/mod.rs:1129-1144 | inserting at or past the end is old ++ padding ++ values |
| RubyArray.Array.SetSlice | spinoso-array/src/array/vec/mod.rs:1171-1188 | returns `min(max(len - index, 0), drain)` and leaves `pad(old, index)[..index] ++ values ++ old[index + drained..]` |
| RubyArray.Drained | spinoso-array/src/array/vec/mod.rs:1171-1188 | the drained count never exceeds `drain` or the elements after `index`, and is 0 at or past the end |
| RubyArray.SpliceAt | spinoso-array/src/array/vec/mod.rs:1171-1188 | the splice's length, and its elements position by position: the kept prefix, the padding, the values, the kept suffix |
| RubyArray.SpliceDrainToEnd | spinoso-array/src/array/vec/mod.rs:1171-1188 | draining past the end replaces the whole tail: `old[..index] ++ values` |
| RubyArray.PaddedAt | spinoso-array/src/array/vec/mod.rs:1050-1052 | padding keeps the elements and fills up to the new length with the default |
| RubyArray.Array.Repeat | spinoso-array/src/array/vec/mod.rs:1010-1017 | None exactly when `len * n` overflows `usize`; otherwise `len * n` elements, element `i` being `elems[i % len]` |
| RubyArray.RepeatedAt | spinoso-array/src/array/vec/mod.rs:1010-1017 | `n` concatenated copies have length `len * n` and element `i` is `elems[i % len]` |
| Utf8.Encode | spinoso-string/src/enc/utf8/mod.rs:492-504 | the encoding of a scalar value has one to four bytes |
| Utf8.DecodeEncode | spinoso-string/src/enc/utf8/mod.rs:240-243 | decoding the encoding of any scalar value gives it back with its length, whatever follows |
| Utf8.DecodeSound | spinoso-string/src/enc/utf8/mod.rs:240-243 | a decoded scalar value is exactly the encoding of the bytes consumed |
| Utf8.DecodeInvalidSize | spinoso-string/src/enc/utf8/mod.rs:265-270 | an ill-formed prefix is reported with one to three bytes; size 0 only for empty input |
| Utf8.InvalidPrefixCompletable | spinoso-string/src/enc/utf8/mod.rs:265-270 | a reported ill-formed prefix of two or three bytes is the start of some well-formed sequence |
| Utf8.InvalidPrefixMaximal | spinoso-string/src/enc/utf8/mod.rs:265-270 | extending the reported ill-formed prefix by one more byte never gives a well-formed sequence: the prefix is maximal |
| Utf8.FlattenChars | spinoso-string/src/enc/utf8/mod.rs:141-162 | the characters, concatenated, are the string again |
| Utf8.CharsArePieces | spinoso-string/src/enc/utf8/mod.rs:249-273 | every character is one complete well-formed encoding or exactly one byte |
| Utf8.CharCountBound | spinoso-string/src/enc/utf8/mod.rs:700-722 | never more characters than bytes, and none only for the empty string |
| Utf8.InvalidRunChars | spinoso-string/src/enc/utf8/mod.rs:157-160 | every byte of an ill-formed run is a character of its own |
| Utf8.AsciiChars | spinoso-string/src/enc/utf8/mod.rs:143-147 | on ASCII every byte is a character |
| Utf8.FindNonAscii | spinoso-string/src/enc/utf8/mod.rs:143-147 | None exactly for ASCII; otherwise the first byte above 0x7F, with only ASCII before it |
| Utf8.EncodeAllRoundTrip | spinoso-string/src/enc/utf8/mod.rs:700-722 | encoding scalar values gives well-formed UTF-8 that decodes back to them, one character each |
| Utf8.DecodeAllRoundTrip | spinoso-string/src/enc/utf8/mod.rs:700-722 | decoding well-formed UTF-8 and encoding again gives the same bytes |
| Utf8.ValidCharCount | spinoso-string/src/enc/utf8/mod.rs:153-154 | on well-formed UTF-8 the characters are the scalar values |
| Utf8.ValidNumChars | spinoso-string/src/enc/utf8/mod.rs:153-154 | on well-formed UTF-8, counting non-continuation bytes counts the characters |
| Utf8.NextChunk | spinoso-string/src/enc/utf8/mod.rs:157-160 | a chunk is the maximal well-formed prefix plus the ill-formed maximal subpart after it, and together with the rest it is the input |
| Utf8.ChunkCharCount | spinoso-string/src/enc/utf8/mod.rs:157-160 | the characters of a chunk: one per scalar value of its well-formed part, one per ill-formed byte |
| Utf8.ValidPrefixExtends | spinoso-string/src/enc/utf8/mod.rs:157-160 | no well-formed character follows the well-formed prefix of a chunk |
| Utf8.ValidAppendChars | spinoso-string/src/enc/utf8/mod.rs:492-504 | after a well-formed string the characters of what follows stay apart |
| Utf8.PushScalar | spinoso-string/src/enc/utf8/mod.rs:492-504 | appending an encoded scalar value to well-formed UTF-8 appends exactly one character and one scalar value |
| Utf8.ReverseValid | spinoso-string/src/enc/utf8/mod.rs:669-682 | on well-formed UTF-8, reversing by characters stays well-formed and reverses the scalar values |
| Utf8.ReverseInvolution | spinoso-string/src/enc/utf8/mod.rs:669-682 | reversing a well-formed string twice gives it back |
| Utf8.ReverseAscii | spinoso-string/src/enc/utf8/mod.rs:669-682 | on ASCII, reversing by characters reverses the bytes |
| Utf8.ReverseCharsPermutes | spinoso-string/src/enc/utf8/mod.rs:669-682 | reversing only reorders the bytes (same multiset) |
| Utf8Str.Utf8String.constructor | spinoso-string/src/enc/utf8/mod.rs:31-33 | the buffer holds the given bytes |
| Utf8Str.Utf8String.CharLen | spinoso-string/src/enc/utf8/mod.rs:141-162 | the number of conventionally UTF-8 characters, through the ASCII, well-formed and chunk paths |
| Utf8Str.Utf8String.GetChar | spinoso-string/src/enc/utf8/mod.rs:211-284 | character `index`, or None when there are no more than `index` characters |
| Utf8Str.NthChar | spinoso-string/src/enc/utf8/mod.rs:239-283 | the decoding loop of `get_char` finds character `n`, including one inside an ill-formed run, or None when the input runs out |
| Utf8Str.AsciiCharAt | spinoso-string/src/enc/utf8/mod.rs:223-226 | within an ASCII prefix, character `index` is byte `index` |
| Utf8Str.Utf8String.GetCharSlice | spinoso-string/src/enc/utf8/mod.rs:288-454 | equals `CharSliceSpec` on the buffer for every `usize` range, reversed ones included |
| Utf8Str.CharSliceSpec | spinoso-string/src/enc/utf8/mod.rs:288-454 | for `start <= end`, a slice exactly when `start` is at most the character count; any slice is a contiguous piece of the string |
| Utf8Str.ReversedSliceSpec | spinoso-string/src/enc/utf8/mod.rs:300-453 | a reversed range gives a contiguous piece of the string or None |
| Utf8Str.SpanIsSlice | spinoso-string/src/enc/utf8/mod.rs:313-453 | the bytes of characters `a` up to `b` sit in the string right after the bytes of the first `a` characters |
| Utf8Str.ReversedRangeWraps | spinoso-string/src/enc/utf8/mod.rs:313-453 | past the ASCII prefix, a reversed range answers as the range to `end + 2^64`, the wrapped `end - start` |
| Utf8Str.ReversedRangeIsRest | spinoso-string/src/enc/utf8/mod.rs:313-453 | on a string that fits in memory, a reversed range past the ASCII prefix gives everything from character `start` on, or None when there are fewer than `start` characters |
| Utf8Str.CharSliceAscii | spinoso-string/src/enc/utf8/mod.rs:300-312 | on ASCII, the character slice is byte slicing saturated at the end, and None past the end |
| Utf8Str.AsciiPrefixSpan | spinoso-string/src/enc/utf8/mod.rs:300-312 | a range inside an ASCII prefix is the byte range |
| Utf8Str.SkipChars | spinoso-string/src/enc/utf8/mod.rs:318-367 | the first loop of `get_char_slice` leaves the bytes after the first `count` characters, or None when the input runs out |
| Utf8Str.CharSuffixChars | spinoso-string/src/enc/utf8/mod.rs:318-367 | that remainder is None exactly when there are fewer than `n` characters, and otherwise its characters are the characters after the first `n` |
| Utf8Str.TakeChars | spinoso-string/src/enc/utf8/mod.rs:377-453 | the second loop of `get_char_slice` returns the bytes of the first `count` characters |
| Utf8Str.CharPrefixChars | spinoso-string/src/enc/utf8/mod.rs:377-453 | those bytes are the first `min(n, char count)` characters, concatenated |
| Utf8Str.CharPrefixIsPrefix | spinoso-string/src/enc/utf8/mod.rs:377-453 | the bytes taken are a prefix of the input |
| Utf8Str.SliceAfterAscii | spinoso-string/src/enc/utf8/mod.rs:313-453 | the two loops after the ASCII prefix compute the character slice |
| Utf8Str.SkipToStart | spinoso-string/src/enc/utf8/mod.rs:313-367 | the first loop, skipped when nothing is to be skipped, leaves what follows the first `remaining` characters |
| Utf8Str.TakeSpan | spinoso-string/src/enc/utf8/mod.rs:370-453 | the empty range answered by the empty slice, otherwise the second loop: the bytes of the first `remaining` characters |
| Utf8Str.TakeFinish | spinoso-string/src/enc/utf8/mod.rs:377-453 | the steps that end the second loop: input exhausted, the last well-formed character, or the last bytes of an ill-formed run |
| Utf8Str.EmptyRangeIsEmpty | spinoso-string/src/enc/utf8/mod.rs:370-373 | an empty range within the string is the empty slice |
| Utf8Str.TakeCharsAsWritten | spinoso-string/src/enc/utf8/mod.rs:377-453 | the second loop as written, with a wrapping `usize` counter, never returns more bytes than it is given |
| Utf8Str.EmptyRangeAsWritten | spinoso-string/src/enc/utf8/mod.rs:370-373 | on `"éa"`, the range `0..0` reaches the second loop with counter 0, where the release-build loop as written returns all three bytes of the string, while the slice is empty |
| Utf8Str.EmptyRangeIllFormedStart | spinoso-string/src/enc/utf8/mod.rs:370-442 | on `[0x80, 0x61]`, the range `0..0` reaches the second loop with counter 0, where the arm for an ill-formed run returns no bytes, which agrees with the empty slice |
| Utf8Str.Utf8String.TryPushCodepoint | spinoso-string/src/enc/utf8/mod.rs:492-504 | rejects values outside `u32` and non-scalar values, leaving the buffer unchanged; otherwise appends the UTF-8 encoding |
| Utf8Str.Utf8String.IsValidEncoding | spinoso-string/src/enc/utf8/mod.rs:532-538 | true exactly for well-formed UTF-8 |
| Utf8Str.AsciiValid | spinoso-string/src/enc/utf8/mod.rs:532-538 | ASCII is well-formed UTF-8 |
| Utf8Str.Utf8String.Chr | spinoso-string/src/enc/utf8/mod.rs:643-649 | the first character: empty for the empty string, else a prefix that is a complete encoding or one byte |
| Utf8Str.ChrOfTruncatedSequence | spinoso-string/src/enc/utf8/mod.rs:1057-1070 | `chr` of the truncated sequence F0 9F 87 is the single byte F0 |
| Utf8Str.Utf8String.Ord | spinoso-string/src/enc/utf8/mod.rs:652-660 | empty-string error exactly for the empty string; a scalar value whose encoding starts the string; otherwise an invalid-byte-sequence error, and then no encoding starts it |
| Utf8Str.NoScalarPrefix | spinoso-string/src/enc/utf8/mod.rs:652-660 | after an ill-formed prefix, no scalar value's encoding starts the string |
| Utf8Str.Utf8String.Reverse | spinoso-string/src/enc/utf8/mod.rs:669-682 | the buffer becomes its characters in reverse order |
| Utf8Str.ReverseTwoChars | spinoso-string/src/enc/utf8/mod.rs:669-682 | reversing `再见` swaps its two three-byte characters |
| Utf8Str.CharCountInvalidExamples | spinoso-string/src/enc/utf8/mod.rs:790-795 | `00 00 D8 00` has four characters and `FF FE` two |
| TimeMath.FixedZoneConstructor | spinoso-time/src/time/tzrs/math.rs:116 | a zone with a single local time type yields a constructor that rejects nanoseconds of a full second or more and otherwise builds the time from exactly the seconds, nanoseconds and offset it is given |
| TimeMath.RoundedNanos | spinoso-time/src/time/tzrs/math.rs:60-75 | with `10_u64.pow` as `Pow10`, truncating after `digits + 1` digits and rounding half up on that digit gives a multiple of `10^(9 - digits)` more than half a unit below and at most half a unit above the nanoseconds, ties going up, and at most one second |
| TimeMath.TruncateAndRound | spinoso-time/src/time/tzrs/math.rs:60-75 | the same for any divisor `d` and multiple `10 * d` that divides one second |
| TimeMath.Round | spinoso-time/src/time/tzrs/math.rs:33-86 | keeps offset and local time type; with 9 or more digits the time is unchanged; otherwise the nanoseconds are a multiple of `10^(9 - digits)` and the instant moves by more than minus half a unit and at most half a unit, carrying into the seconds |
| TimeMath.RoundIdempotent | spinoso-time/src/time/tzrs/math.rs:33-86 | rounding twice to the same digits is rounding once |
| TimeMath.RoundExamples | spinoso-time/src/time/tzrs/math.rs:263-277 | rounding 05:43:25.123456789 to 0, 5, 4 and 9 digits |
| TimeMath.RoundCarryExample | spinoso-time/src/time/tzrs/math.rs:280-287 | rounding 23:59:59.9 to 0 digits rolls over to the next second |
| TimeMath.CheckedAdd | spinoso-time/src/time/tzrs/math.rs:98-117 | with the carry taken whenever the nanosecond sum reaches one second: `IntOverflow` when the duration does not fit `i64` or the seconds sum overflows; otherwise the constructor's answer on the exact sum split into seconds and nanoseconds below one second; for a constructor that keeps its arguments, an Ok result is the exact sum in nanoseconds with the offset kept |
| TimeMath.CheckedAddAsWritten | spinoso-time/src/time/tzrs/math.rs:98-117 | `checked_add` as written agrees with the corrected one unless the nanosecond sum is exactly one second; then it hands 1 000 000 000 ns to the constructor, and a constructor that rejects a full second makes it an error |
| TimeMath.CheckedAddExactSecondRejected | spinoso-time/src/time/tzrs/math.rs:109-112 | as written, 0.5 s plus 0.5 s is not carried and the constructor rejects the instant |
| TimeMath.CheckedSub | spinoso-time/src/time/tzrs/math.rs:181-198 | `IntOverflow` when the duration does not fit `i64` or the difference overflows; otherwise the constructor's answer on the exact difference, borrowing a second when needed; for a constructor that keeps its arguments, an Ok result is the exact difference in nanoseconds with the offset kept |
| TimeMath.CheckedAddU64 | spinoso-time/src/time/tzrs/math.rs:146-149 | `IntOverflow` when the seconds overflow `i64`; otherwise the constructor's answer on the seconds advanced by `n` and the nanoseconds kept |
| TimeMath.CheckedSubU64 | spinoso-time/src/time/tzrs/math.rs:227-230 | `IntOverflow` when the seconds overflow `i64`; otherwise the constructor's answer on the seconds moved back by `n` and the nanoseconds kept |
| TimeMath.CheckedAddI64 | spinoso-time/src/time/tzrs/math.rs:126-137 | `i64::MIN` is `IntOverflow`; otherwise `IntOverflow` exactly when the sum leaves `i64`, else the constructor's answer on the summed seconds with the nanoseconds kept |
| TimeMath.CheckedSubI64 | spinoso-time/src/time/tzrs/math.rs:207-218 | `i64::MIN` is `IntOverflow`; otherwise `IntOverflow` exactly when the difference leaves `i64`, else the constructor's answer on the remaining seconds with the nanoseconds kept |
| TimeMath.AddThenSub | spinoso-time/src/time/tzrs/math.rs:98-198 | subtracting a duration just added never borrows past `i64::MIN` and reaches the original seconds, nanoseconds and offset, whatever the constructors |
| TimeMath.AddThenSubFixedZone | spinoso-time/src/time/tzrs/math.rs:98-198 | in a zone with a single local time type, subtracting a duration just added gives back the original time |
| TimeMath.AddI64ThenSubI64 | spinoso-time/src/time/tzrs/math.rs:126-218 | subtracting signed seconds just added reaches the original seconds, nanoseconds and offset |
| TimeMath.AddSubSecondExample | spinoso-time/src/time/tzrs/math.rs:290-306 | one second after and before an instant with half a second of nanoseconds |
| SpecRunner.SegmentEnd | spec-runner/src/main.rs:228-230 | the first '/' of a name, or its end |
| SpecRunner.Components | spec-runner/src/main.rs:228-235 | every component is non-empty and free of `/`, and there are none exactly when the name is only separators |
| SpecRunner.ComponentsOfJoin | spec-runner/src/main.rs:228-235 | splitting joined components gives them back |
| SpecRunner.SuitesForFamily | spec-runner/src/main.rs:232 | found exactly when a family of that name is configured |
| SpecRunner.FindSuite | spec-runner/src/main.rs:234 | found exactly when a suite of that name is configured |
| SpecRunner.AnyPrefixIsExists | spec-runner/src/main.rs:238-240 | the `any(starts_with)` test holds exactly when some listed name is a prefix |
| SpecRunner.RequireInner | spec-runner/src/main.rs:227-243 | an answer exactly when there are at least three components, the family is configured and the suite is found in it |
| SpecRunner.IsRequirePath | spec-runner/src/main.rs:224-246 | a required name has at least three components |
| SpecRunner.RequirePathCharacterized | spec-runner/src/main.rs:224-246 | required exactly when there are three components, family and suite are configured, and the suite admits the spec name (`All`: no skip prefix; `Set`: some listed prefix; `None`: never) |
| SpecRunner.DeeperComponentsIgnored | spec-runner/src/main.rs:230-235 | components after the third are not consulted |
| SpecRunner.IsFixtureOrShared | spec-runner/src/main.rs:188-197 | true exactly when some component is `fixture` or `shared`, and then the name is not only separators |
| SpecRunner.SelectedSpecs | spec-runner/src/main.rs:186-206 | never more names than embedded, and a name is collected exactly when it is embedded, required and not a fixture or shared file |
| SpecRunner.CollectSpecs | spec-runner/src/main.rs:188-206 | the loop collects the selected names in embedding order |
| SpecRunner.NoFixtureOrSharedSelected | spec-runner/src/main.rs:188-202 | no fixture or shared file is ever run as a spec |
| StrScan.ByteAt | artichoke-backend/src/extn/stdlib/strscan/strscan.rb:106-113 | `byteslice(i)`: the byte at `i`, nil past the end |
| StrScan.ByteSlice | artichoke-backend/src/extn/stdlib/strscan/strscan.rb:180-185 | `byteslice(start, len)`: nil for a negative length or a start past the end, else at most `len` bytes from `start` |
| StrScan.MatchedBytes | artichoke-backend/src/extn/stdlib/strscan/strscan.rb:258-285 | the bytes of the first `n` characters of the haystack are a prefix of it |
| StrScan.MatchedBytesChars | artichoke-backend/src/extn/stdlib/strscan/strscan.rb:258-285 | those bytes are the first `min(n, char count)` characters, concatenated |
| StrScan.StringScanner.constructor | artichoke-backend/src/extn/stdlib/strscan/strscan.rb:16-22 | offset 0, no previous offset, no match |
| StrScan.StringScanner.Concat | artichoke-backend/src/extn/stdlib/strscan/strscan.rb:24-30 | appends to the string and changes nothing else |
| StrScan.StringScanner.SetString | artichoke-backend/src/extn/stdlib/strscan/strscan.rb:12-14 | `string=`: the new string, with every offset and the match state kept; past the end of a shorter string the scanner state is no longer valid, and a string no shorter than the old one keeps it valid |
| StrScan.StringScanner.Rest | artichoke-backend/src/extn/stdlib/strscan/strscan.rb:234-238 | the bytes after the offset |
| StrScan.StringScanner.Eos | artichoke-backend/src/extn/stdlib/strscan/strscan.rb:89-91 | true exactly when nothing is left |
| StrScan.StringScanner.HasRest | artichoke-backend/src/extn/stdlib/strscan/strscan.rb:240-242 | true exactly when something is left |
| StrScan.StringScanner.RestSize | artichoke-backend/src/extn/stdlib/strscan/strscan.rb:244-246 | the number of characters left; never more than the bytes left, zero exactly at the end, and the bytes left when the rest is ASCII |
| StrScan.StringScanner.BeginningOfLine | artichoke-backend/src/extn/stdlib/strscan/strscan.rb:51-55 | true exactly at offset 0 or after a newline |
| StrScan.StringScanner.Peek | artichoke-backend/src/extn/stdlib/strscan/strscan.rb:180-185 | ArgumentError exactly for a negative length; otherwise the first `min(len, bytes left)` bytes of the rest |
| StrScan.StringScanner.Exist | artichoke-backend/src/extn/stdlib/strscan/strscan.rb:99-104 | where a match anywhere in the rest ends, nil without one |
| StrScan.StringScanner.PostMatch | artichoke-backend/src/extn/stdlib/strscan/strscan.rb:204-210 | nil without a match; otherwise the bytes after `@last_match_pos` |
| StrScan.StringScanner.PreMatch | artichoke-backend/src/extn/stdlib/strscan/strscan.rb:212-225 | nil exactly without a match; otherwise a prefix of the string no longer than `@last_match_pos` |
| StrScan.StringScanner.Charpos | artichoke-backend/src/extn/stdlib/strscan/strscan.rb:62-64 | the characters before the offset: never more than the offset, zero only at offset 0, and the offset itself when those bytes are ASCII |
| StrScan.StringScanner.Reset | artichoke-backend/src/extn/stdlib/strscan/strscan.rb:227-232 | offset 0 and all match state cleared |
| StrScan.StringScanner.Terminate | artichoke-backend/src/extn/stdlib/strscan/strscan.rb:370-375 | offset at the end, match cleared, previous offset untouched |
| StrScan.StringScanner.Unscan | artichoke-backend/src/extn/stdlib/strscan/strscan.rb:360-368 | ScanError with no previous offset; otherwise back to it, with previous offset and match cleared |
| StrScan.StringScanner.GetByte | artichoke-backend/src/extn/stdlib/strscan/strscan.rb:106-113 | nil and no change at the end; otherwise the byte at the offset, the offset one further, and `@last_match_pos` the new offset |
| StrScan.StringScanner.SetPos | artichoke-backend/src/extn/stdlib/strscan/strscan.rb:194-200 | RangeError unless `-bytesize < p < bytesize`; a negative `p` counts from the end |
| StrScan.StringScanner.SetCharpos | artichoke-backend/src/extn/stdlib/strscan/strscan.rb:66-76 | RangeError unless `-length < p < length` in characters, with nothing changed; otherwise the offset becomes the byte size of the first `p` characters (counted from the end when `p` is negative), which is returned |
| StrScan.StringScanner.ScanFull | artichoke-backend/src/extn/stdlib/strscan/strscan.rb:258-285 | a match counts only when it begins at the offset (`AnchoredMatch`); no anchored match: nil, offset kept, match state and previous offset cleared; a match: previous offset recorded, offset advanced by the matched bytes only if asked, the string or the match length returned |
| StrScan.StringScanner.Scan | artichoke-backend/src/extn/stdlib/strscan/strscan.rb:254-256 | returns the matched bytes, which are exactly what the offset passes over |
| StrScan.StringScanner.Check | artichoke-backend/src/extn/stdlib/strscan/strscan.rb:78-80 | like `scan` but the offset never moves, and `@last_match_pos` is left at the offset, before the match |
| StrScan.StringScanner.Skip | artichoke-backend/src/extn/stdlib/strscan/strscan.rb:322-339 | returns the match length and always advances by the matched bytes |
| StrScan.StringScanner.ScanUntil | artichoke-backend/src/extn/stdlib/strscan/strscan.rb:287-300 | a match anywhere in the rest: the bytes up to its end, passed over; without one nothing changes |
| StrScan.StringScanner.CheckUntil | artichoke-backend/src/extn/stdlib/strscan/strscan.rb:82-87 | like `scan_until` but the offset never moves |
| StrScan.StringScanner.SkipUntil | artichoke-backend/src/extn/stdlib/strscan/strscan.rb:341-358 | a match anywhere: the match end, offset advanced; without one: nil, match state cleared |
| StrScan.StringScanner.SearchFull | artichoke-backend/src/extn/stdlib/strscan/strscan.rb:302-316 | like `scan_full` for a match anywhere, leaving the match state alone |
| StrScan.StringScanner.Match | artichoke-backend/src/extn/stdlib/strscan/strscan.rb:147-162 | the match length without moving; the match is recorded and `post_match` gives the rest after the matched bytes |
| StrScan.StringScanner.MatchAsWritten | artichoke-backend/src/extn/stdlib/strscan/strscan.rb:147-162 | `match?` as written: same answer and match as `match?`, with `@last_match_pos` set to its old value, nil read as 0, plus the matched bytes (`MatchEndAsWritten`), instead of the offset plus the matched bytes |
| StrScan.MatchAfterSetPos | artichoke-backend/src/extn/stdlib/strscan/strscan.rb:147-162 | on `abab` at offset 2, `post_match` after `match?(/a/)` is `bab` as written and `b` corrected |
| StrScan.AsciiPrefix | artichoke-backend/src/extn/stdlib/strscan/strscan.rb:258-285 | the first character of `ab` is its first byte |
| StrScan.ScanThenUnscan | artichoke-backend/src/extn/stdlib/strscan/strscan.rb:360-368 | `unscan` after a successful `scan` returns to where it started and forgets the match; after a failed one it raises ScanError |
| StrScan.CheckThenScan | artichoke-backend/src/extn/stdlib/strscan/strscan.rb:78-80 | `check` answers what the following `scan` returns and leaves the same previous offset and match; only `@last_match_pos` moves past the match with `scan` |
| StrScan.ScanThenPreMatch | artichoke-backend/src/extn/stdlib/strscan/strscan.rb:212-225 | `pre_match` after a successful `scan` is everything before where the scan started; nil after a failed one |
| StrScan.CheckThenPostMatch | artichoke-backend/src/extn/stdlib/strscan/strscan.rb:272-276 | on `ab`, `post_match` after `check(/a/)` gives `ab`: `@last_match_pos` is set before any advance, so the matched byte is included |

## Left out

- The cycle-collecting reference-counted pointer (cactusref) is not part of this model. Its implementation is not among the files modelled, and its only test measures allocator memory against a tolerance.
- The C-API shims of `String` and `Symbol`, the build script, the `sys` bindings and the generated documentation indices are foreign-function or tooling code. They are not modelled.
- Array: capacity, `reserve`, `shrink_to_fit`, raw parts and `set_len` depend on the allocator or on unsafe memory. They are not modelled.
- Array: `T::default()` is a `pad` argument of the padding methods.
- Array: the sizes are capped at `usize::MAX` by preconditions. A growth past `usize::MAX` would abort the allocation in the source.
- RubyArray.Array.Set: its `index < usize::MAX` requirement stands for the "capacity overflow" panic of the source at `index == usize::MAX`: an array of `index + 1` elements does not fit in `usize`. On an empty array the `checked_add(1)` that computes the extra room raises it; otherwise `reserve` does.
- Utf8String: the case conversions depend on Unicode case tables. They are not modelled.
- Utf8String: `reserve`, `shrink`, raw pointers and the plain byte accessors are not modelled.
- Utf8String: `find_non_ascii_byte`, `simdutf8` and `bytecount::num_chars` are modelled by their meaning (`FindNonAscii`, `IsValidUtf8`, `NumChars`), not by their fast-path implementations.
- Utf8String: `bstr::decode_utf8` is modelled as a maximal-subpart decoder after Table 3-7 (`DecodeUtf8`).
- Utf8String: `utf8_chunks` is modelled by `NextChunk`.
- Utf8String: the character iterator of `reverse` is modelled by `Chars`.
- Utf8Str.Utf8String.GetCharSlice: a reversed range (`start > end`) that no ASCII fast path answers is answered as a release build does, with `end - start` wrapped modulo `2^64`; a debug build panics on that subtraction instead, and the panic is not modelled.
- Utf8Str.Utf8String.GetCharSlice: an empty range past the ASCII prefix is answered by the empty slice; the source's `debug_assert!(remaining > 0)` fails there in a debug build, and the release build's wrapped counter is modelled only in `TakeCharsAsWritten` (see Findings).
- Time: `checked_add_f64`/`checked_sub_f64` are floating point. They are not modelled.
- Time: `with_timespec_and_offset`, which resolves the local time type of the new instant from the `tz` database, is a function argument of type `TzConstructor`. Only `IsTzConstructor` is assumed of it: nanoseconds of a full second or more are rejected, and a time it builds keeps the seconds, nanoseconds and offset. Which local time type it picks, and its other errors, are not modelled. `FixedZoneConstructor` is the constructor of a zone with a single local time type.
- Time: calendar fields are not modelled.
- TimeMath.CheckedAdd: its precondition excludes a carry out of `i64::MAX` seconds (`AddCarryOverflows`). There the source would overflow when it adds the carried second.
- TimeMath.CheckedSub: its precondition excludes a borrow below `i64::MIN` seconds (`SubBorrowOverflows`), where the source's `- 1` overflows.
- TimeMath.Round: `round` at `i64::MAX` seconds with a carry overflows in the source. `CanRound` excludes it.
- TimeMath.RoundIdempotent: stated under the same `CanRound` requirement as `Round`, so the carry out of `i64::MAX` seconds is left out there too.
- TimeMath.Round: the source rebuilds the time through `from_timespec_and_local(...).expect(...)`; the model builds it directly with the same local time type, so the panic of that `expect` is not modelled.
- StringScanner: the regexp engine is an abstract matcher from haystack to the character span of its first match.
- StringScanner: strings are taken to be conventionally UTF-8. Other encodings are not modelled.
- StringScanner: `String.try_convert`, TypeError and FrozenError are not modelled.
- StringScanner: the scanner holds its own copy of the bytes. In the source `@string` is the caller's `String` object (strscan.rb:17), which `<<` appends to in place (strscan.rb:28) and which other code can change or shorten, leaving `@pos` past the end; that aliasing and outside mutation are not captured, and `Valid()` keeps the offset within the string.
- StringScanner: peek's check that the length is an Integer becomes the `int` parameter type.
- StringScanner: `[]`, `captures`, `values_at`, `size`, `matched`, `matched?` and `matched_size` are not modelled. They read capture groups through `@last_match[...]`, which the abstract matcher does not provide. `inspect` only formats output and is not modelled either.
- StrScan.StringScanner.SetString: after `string=` with a string shorter than an offset, `Valid()` no longer holds. The other methods require `Valid()`, so what they do on such a state is not modelled.
- StrScan.StringScanner.PreMatch: for a span that begins past its own haystack or ends before its beginning, the source's `bytesize` on nil raises NoMethodError. The model counts such a match as zero bytes. A real regexp never reports such a span.
- StringScanner: the `string` and `pos` readers are the `str` and `pos` fields.
- StringScanner: the `$VERBOSE` warnings are not modelled.
- StringScanner: the aliases `getbyte`, `getch`, `peep`, `clear`, `empty?` and `restsize` are not modelled.
- Spec runner: `main`/`try_main` I/O is not modelled: file read, TOML parsing, argument parsing, interpreter start-up, loading fixture sources and running mspec.
- Spec runner: path components are split on `/` with empty pieces dropped. Root, `.` and `..` components, and non-UTF-8 names, are not modelled.

## Findings

| source | as written | input that shows it | evidently intended | confidence | as-written member | corrected member |
|---|---|---|---|---|---|---|
| spinoso-time/src/time/tzrs/math.rs:109-112 | `checked_add` carries into the seconds only when the nanosecond sum is strictly greater than one second | 0.5 s plus a duration of 0.5 s: the sum, exactly 1 000 000 000 ns, is passed to the constructor, which rejects it | carry whenever the sum reaches one second (`>=`) | not executed | TimeMath.CheckedAddExactSecondRejected | TimeMath.CheckedAdd |
| spinoso-string/src/enc/utf8/mod.rs:370-373 | an empty range whose start is at or after the first non-ASCII byte reaches the second loop with `remaining == 0`; the debug assertion fails, and in a release build, when character `start` is a well-formed character, the counter wraps and everything from character `start` to the end is returned (when it begins an ill-formed run, the run's arm stops at once with the empty slice) | `"éa".get_char_slice(0..0)` gives `"éa"` | the empty slice | not executed | Utf8Str.EmptyRangeAsWritten | Utf8Str.Utf8String.GetCharSlice |
| artichoke-backend/src/extn/stdlib/strscan/strscan.rb:157-159 | `match?` sets `@last_match_pos` to its old value (nil read as 0) plus the matched bytes, ignoring `@pos` and growing with every call | `"abab"`, `pos = 2`, `match?(/a/)`, then `post_match` gives `"bab"` | `@last_match_pos = @pos` plus the matched bytes, so that `post_match` gives `"b"` | not executed | StrScan.MatchAfterSetPos | StrScan.StringScanner.Match |
