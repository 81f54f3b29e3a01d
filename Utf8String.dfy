/**
 `Utf8String` of spinoso-string: a growable byte buffer that is
 conventionally UTF-8. Character operations read it through `Utf8.Chars`:
 a well-formed encoded scalar value is one character, and each byte of an
 ill-formed subsequence is a character of its own.
 */
module Utf8Str {
  import opened Wrappers
  import opened Ints
  import opened Utf8

  /** `InvalidCodepointError` of `try_push_codepoint`. */
  datatype CodepointError =
    | CodepointOutOfRange(codepoint: i64)
    | InvalidUtf8Codepoint(invalid: u32)

  /** `OrdError` of `ord`. */
  datatype OrdError = EmptyString | InvalidUtf8ByteSequence

  predicate IsPrefixOf(p: seq<byte>, s: seq<byte>) {
    |p| <= |s| && s[..|p|] == p
  }

  /**
   What `get_char_slice(start..end)` returns. Characters `start` up to `end`,
   cut at the end of the string, or None when the string has fewer than
   `start` characters. A reversed range takes the fast paths where they
   apply: for an all-ASCII string, the bytes from `start`; for an ASCII
   prefix reaching past `end`, None. Otherwise the loops run with
   `end - start` wrapped modulo `2^64`, as in a release build, so the range
   reaches `start + ((end - start) mod 2^64)`.
   */
  function CharSliceSpec(s: seq<byte>, start: nat, end: nat): (r: Option<seq<byte>>)
    ensures start <= end ==> (r.Some? <==> start <= CharCount(s))
    ensures r.Some? ==> exists i :: IsSliceAt(s, r.value, i)
  {
    if end < start then ReversedSliceSpec(s, start, end)
    else if start <= CharCount(s) then
      SpanIsSlice(s, start, Min(end, CharCount(s)));
      Some(CharSpan(s, start, end))
    else None
  }

  /** The reversed-range part of `CharSliceSpec`. */
  function ReversedSliceSpec(s: seq<byte>, start: nat, end: nat): (r: Option<seq<byte>>)
    requires end < start
    ensures r.Some? ==> exists i :: IsSliceAt(s, r.value, i)
  {
    if IsAscii(s) then
      if start <= |s| then
        assert IsSliceAt(s, s[start..], start);
        Some(s[start..])
      else None
    else if FindNonAscii(s).value > end then None
    else if start <= CharCount(s) then
      var wrappedEnd := start + (end - start) % (USIZE_MAX + 1);
      SpanIsSlice(s, start, Min(wrappedEnd, CharCount(s)));
      Some(CharSpan(s, start, wrappedEnd))
    else None
  }

  /** `r` is the piece of `s` that starts at byte `i`. */
  predicate IsSliceAt(s: seq<byte>, r: seq<byte>, i: nat) {
    i + |r| <= |s| && s[i..i + |r|] == r
  }

  /** The bytes of a run of whole characters are a contiguous piece of the string. */
  lemma SpanIsSlice(s: seq<byte>, a: nat, b: nat)
    requires a <= b <= CharCount(s)
    ensures IsSliceAt(s, Flatten(Chars(s)[a..b]), |Flatten(Chars(s)[..a])|)
  {
    var cs := Chars(s);
    FlattenChars(s);
    assert cs == cs[..a] + cs[a..b] + cs[b..];
    FlattenAppend(cs[..a] + cs[a..b], cs[b..]);
    FlattenAppend(cs[..a], cs[a..b]);
    var p, m := Flatten(cs[..a]), Flatten(cs[a..b]);
    assert s == p + m + Flatten(cs[b..]);
    assert s[|p|..|p| + |m|] == m;
  }

  /** Past its ASCII prefix, a reversed range of `usize` bounds slices up to the wrapped end. */
  lemma ReversedRangeWraps(s: seq<byte>, offset: nat, start: usize, end: usize)
    requires FindNonAscii(s) == Some(offset) && offset <= end < start
    ensures CharSliceSpec(s, start, end) == CharSliceSpec(s, start, end + USIZE_MAX + 1)
  {
    DivModUnique(end - start, -1, end - start + USIZE_MAX + 1, USIZE_MAX + 1);
  }

  /**
   On a string that fits in memory, a reversed range past the ASCII prefix
   gives everything from character `start` on, or None when there are fewer
   than `start` characters.
   */
  lemma ReversedRangeIsRest(s: seq<byte>, offset: nat, start: usize, end: usize)
    requires |s| <= USIZE_MAX
    requires FindNonAscii(s) == Some(offset) && offset <= end < start
    ensures start <= CharCount(s) ==> CharSliceSpec(s, start, end) == Some(Flatten(Chars(s)[start..]))
    ensures CharCount(s) < start ==> CharSliceSpec(s, start, end) == None
  {
    ReversedRangeWraps(s, offset, start, end);
    if start <= CharCount(s) {
      CharCountBound(s);
      var cs := Chars(s);
      assert Min(end + USIZE_MAX + 1, |cs|) == |cs|;
      assert cs[start..|cs|] == cs[start..];
    }
  }

  // ---------------------------------------------------------------------
  // The two scanning loops of `get_char_slice`

  /**
   What is left of `s` after the first `n` characters, decoded as the first
   loop of `get_char_slice` decodes them. None when `s` runs out first.
   */
  function CharSuffix(s: seq<byte>, n: nat): Option<seq<byte>>
    decreases |s|
  {
    var d := DecodeUtf8(s);
    if n == 0 then Some(s)
    else if d.size == 0 || d.size > |s| then None
    else if d.ch.Some? then CharSuffix(s[d.size..], n - 1)
    else if n <= d.size then Some(s[n..])
    else CharSuffix(s[d.size..], n - d.size)
  }

  /** `CharSuffix` drops the first `n` characters, and fails exactly when there are fewer. */
  lemma {:induction false} CharSuffixChars(s: seq<byte>, n: nat)
    ensures CharSuffix(s, n).None? <==> CharCount(s) < n
    ensures CharSuffix(s, n).Some? ==> Chars(CharSuffix(s, n).value) == Chars(s)[n..]
    decreases |s|
  {
    DecodeNonEmpty(s);
    var d := DecodeUtf8(s);
    if n == 0 {
      assert Chars(s)[0..] == Chars(s);
    } else if d.size == 0 {
      assert Chars(s) == [];
    } else if d.ch.None? && n <= d.size {
      assert Chars(s)[0..] == Chars(s);
      SkipInRun(Chars(s), 0, s, n, s[n..], n);
    } else {
      var rest, m := s[d.size..], n - StepCount(d);
      CharSuffixStep(s, n, rest, m);
      CharSuffixChars(rest, m);
      FirstCharsSplit(s);
      DropFront(Chars(s), FirstChars(s), Chars(rest), n, m);
    }
  }

  /** A step of the first loop that does not finish it. */
  lemma CharSuffixStep(s: seq<byte>, n: nat, rest: seq<byte>, m: nat)
    requires |s| > 0 && n > 0
    requires DecodeUtf8(s).ch.None? ==> n > DecodeUtf8(s).size
    requires DecodeUtf8(s).size <= |s| && rest == s[DecodeUtf8(s).size..]
    requires m == n - StepCount(DecodeUtf8(s))
    ensures CharSuffix(s, n) == CharSuffix(rest, m)
  {
    DecodeNonEmpty(s);
  }

  lemma DropFront(cs: seq<seq<byte>>, front: seq<seq<byte>>, rs: seq<seq<byte>>, n: nat, m: nat)
    requires cs == front + rs && n == |front| + m
    ensures |cs| < n <==> |rs| < m
    ensures m <= |rs| ==> cs[n..] == rs[m..]
  {
  }

  /**
   The first loop of `get_char_slice`: skip `count` characters. None when the
   input runs out first.
   */
  method SkipChars(bytes: seq<byte>, count: nat) returns (r: Option<seq<byte>>)
    requires count > 0
    ensures r == CharSuffix(bytes, count)
  {
    var slice := bytes;
    var remaining: nat := count;
    while true
      invariant CharSuffix(bytes, count) == CharSuffix(slice, remaining) && remaining > 0
      decreases |slice|
    {
      var d := DecodeUtf8(slice);
      DecodeNonEmpty(slice);
      if d.size == 0 {
        return None;
      }
      if d.ch.Some? && remaining == 1 {
        return Some(slice[d.size..]);
      }
      if d.ch.None? && remaining <= d.size {
        return Some(slice[remaining..]);
      }
      var rest, n := slice[d.size..], remaining - StepCount(d);
      CharSuffixStep(slice, remaining, rest, n);
      slice, remaining := rest, n;
    }
  }

  /** A decoding step passes `StepCount` characters. */
  lemma SkipStep(xs: seq<seq<byte>>, k: nat, slice: seq<byte>, rest: seq<byte>, next: nat)
    requires |slice| > 0 && k <= |xs| && Chars(slice) == xs[k..]
    requires DecodeUtf8(slice).size <= |slice| && rest == slice[DecodeUtf8(slice).size..]
    requires next == k + StepCount(DecodeUtf8(slice))
    ensures next <= |xs| && Chars(rest) == xs[next..]
  {
    FirstCharsSplit(slice);
    DropInFirst(xs[k..], FirstChars(slice), Chars(rest), |FirstChars(slice)|);
    assert xs[k..][next - k..] == xs[next..];
  }

  /** Skipping `j` bytes into an ill-formed run at the front of `slice` passes `j` characters. */
  lemma SkipInRun(xs: seq<seq<byte>>, k: nat, slice: seq<byte>, j: nat, after: seq<byte>, next: nat)
    requires k <= |xs| && Chars(slice) == xs[k..]
    requires DecodeUtf8(slice).ch.None? && 1 <= j <= DecodeUtf8(slice).size
    requires j <= |slice| && after == slice[j..] && next == k + j
    ensures next <= |xs| && Chars(after) == xs[next..]
  {
    var d := DecodeUtf8(slice);
    FirstCharsSplit(slice);
    InvalidRunSuffixChars(slice, j);
    RunDrop(slice, d.size, j);
    DropGlue(xs, k, FirstChars(slice), Chars(slice[d.size..]), j, SingleBytes(slice[j..d.size]), Chars(after), next);
  }

  lemma RunDrop(s: seq<byte>, size: nat, j: nat)
    requires j <= size <= |s|
    ensures SingleBytes(s[..size])[j..] == SingleBytes(s[j..size])
  {
    SingleBytesSlice(s[..size], j, size);
    assert s[..size][j..size] == s[j..size];
  }

  lemma DropGlue(xs: seq<seq<byte>>, k: nat, first: seq<seq<byte>>, tail: seq<seq<byte>>, j: nat,
                 mid: seq<seq<byte>>, ys: seq<seq<byte>>, next: nat)
    requires k <= |xs| && xs[k..] == first + tail && j <= |first|
    requires first[j..] == mid && ys == mid + tail && next == k + j
    ensures next <= |xs| && ys == xs[next..]
  {
    DropInFirst(xs[k..], first, tail, j);
    assert xs[k..][j..] == xs[next..];
  }

  lemma DropInFirst(xs: seq<seq<byte>>, first: seq<seq<byte>>, tail: seq<seq<byte>>, j: nat)
    requires xs == first + tail && j <= |first|
    ensures xs[j..] == first[j..] + tail
  {
  }

  /**
   The bytes of the first `n` characters of `s`, decoded as the second loop
   of `get_char_slice` decodes them: a well-formed character counts one,
   each byte of an ill-formed run counts one.
   */
  function CharPrefix(s: seq<byte>, n: nat): seq<byte>
    decreases |s|
  {
    var d := DecodeUtf8(s);
    if n == 0 || d.size == 0 || d.size > |s| then []
    else if d.ch.Some? then s[..d.size] + CharPrefix(s[d.size..], n - 1)
    else if n <= d.size then s[..n]
    else s[..d.size] + CharPrefix(s[d.size..], n - d.size)
  }

  /** The bytes of the first `n` characters are a prefix of the string. */
  lemma {:induction false} CharPrefixIsPrefix(s: seq<byte>, n: nat)
    ensures IsPrefixOf(CharPrefix(s, n), s)
    decreases |s|
  {
    var d := DecodeUtf8(s);
    if n == 0 || d.size == 0 || d.size > |s| {
    } else if d.ch.Some? {
      CharPrefixIsPrefix(s[d.size..], n - 1);
      PrefixJoin(s, d.size, CharPrefix(s[d.size..], n - 1));
    } else if n > d.size {
      CharPrefixIsPrefix(s[d.size..], n - d.size);
      PrefixJoin(s, d.size, CharPrefix(s[d.size..], n - d.size));
    }
  }

  lemma PrefixJoin(s: seq<byte>, k: nat, p: seq<byte>)
    requires k <= |s| && IsPrefixOf(p, s[k..])
    ensures IsPrefixOf(s[..k] + p, s)
  {
    assert s[..k + |p|] == s[..k] + s[k..][..|p|];
  }

  /** `CharPrefix` takes the first `n` characters, or all of them when there are fewer. */
  lemma {:induction false} CharPrefixChars(s: seq<byte>, n: nat)
    ensures CharPrefix(s, n) == Flatten(Chars(s)[..Min(n, CharCount(s))])
    decreases |s|
  {
    DecodeNonEmpty(s);
    var d := DecodeUtf8(s);
    if n == 0 || d.size == 0 {
      assert Chars(s)[..Min(n, CharCount(s))] == [];
    } else {
      var head, rest := s[..d.size], s[d.size..];
      FirstCharsSplit(s);
      if d.ch.None? && n <= d.size {
        SingleBytesSlice(head, 0, n);
        assert head[..n] == s[..n];
        FlattenSingleBytes(s[..n]);
        FrontTake(Chars(s), FirstChars(s), Chars(rest), n);
        assert CharPrefix(s, n) == s[..n];
      } else {
        var k := n - StepCount(d);
        CharPrefixStep(s, n, head, rest, k);
        CharPrefixChars(rest, k);
        PrefixGlue(CharPrefix(s, n), head, CharPrefix(rest, k), Chars(s), FirstChars(s), Chars(rest),
                   Min(n, CharCount(s)), Min(k, CharCount(rest)));
      }
    }
  }

  lemma PrefixGlue(p: seq<byte>, head: seq<byte>, tail: seq<byte>, cs: seq<seq<byte>>, front: seq<seq<byte>>,
                   rs: seq<seq<byte>>, k: nat, m: nat)
    requires p == head + tail && Flatten(front) == head && m <= |rs| && tail == Flatten(rs[..m])
    requires cs == front + rs && k == |front| + m
    ensures k <= |cs| && p == Flatten(cs[..k])
  {
    FlattenFrontTake(cs, front, rs, m);
  }

  lemma FrontTake(cs: seq<seq<byte>>, front: seq<seq<byte>>, rest: seq<seq<byte>>, n: nat)
    requires cs == front + rest && n <= |front|
    ensures Min(n, |cs|) == n && cs[..n] == front[..n]
  {
  }

  lemma FlattenFrontTake(cs: seq<seq<byte>>, front: seq<seq<byte>>, rest: seq<seq<byte>>, m: nat)
    requires cs == front + rest && m <= |rest|
    ensures cs[..|front| + m] == front + rest[..m]
    ensures Flatten(cs[..|front| + m]) == Flatten(front) + Flatten(rest[..m])
  {
    assert cs[..|front| + m] == front + rest[..m];
    FlattenAppend(front, rest[..m]);
  }

  /**
   The second loop of `get_char_slice`: the bytes of the first `count`
   characters, or of all of them when there are fewer.
   */
  method TakeChars(substr: seq<byte>, count: nat) returns (r: seq<byte>)
    requires count > 0
    ensures r == CharPrefix(substr, count)
  {
    var slice := substr;
    var remaining := count;
    while true
      invariant |slice| <= |substr| && substr[|substr| - |slice|..] == slice && remaining > 0
      invariant CharPrefix(substr, count) == substr[..|substr| - |slice|] + CharPrefix(slice, remaining)
      decreases |slice|
    {
      var d := DecodeUtf8(slice);
      DecodeNonEmpty(slice);
      TakeFinish(slice, remaining);
      var pos := |substr| - |slice|;
      if d.size == 0 {
        assert substr[..pos] == substr;
        return substr;
      }
      TakeBytes(substr, pos, slice, d.size);
      if d.ch.Some? && remaining == 1 {
        return substr[..pos + d.size];
      }
      if d.ch.None? && remaining <= d.size {
        TakeBytes(substr, pos, slice, remaining);
        return substr[..pos + remaining];
      }
      var rest, n := slice[d.size..], remaining - StepCount(d);
      TakeAdvance(substr, CharPrefix(substr, count), slice, remaining, rest, n);
      slice, remaining := rest, n;
    }
  }

  /** The steps that end the second loop: input exhausted, the last well-formed character, or the last bytes of an ill-formed run. */
  lemma TakeFinish(slice: seq<byte>, remaining: nat)
    requires remaining > 0
    ensures var d := DecodeUtf8(slice);
      && (d.size == 0 ==> CharPrefix(slice, remaining) == [])
      && (0 < d.size <= |slice| && d.ch.Some? && remaining == 1 ==> CharPrefix(slice, remaining) == slice[..d.size])
      && (0 < d.size <= |slice| && d.ch.None? && remaining <= d.size ==> CharPrefix(slice, remaining) == slice[..remaining])
  {
    var d := DecodeUtf8(slice);
    if 0 < d.size <= |slice| && d.ch.Some? && remaining == 1 {
      assert CharPrefix(slice[d.size..], 0) == [];
    }
  }

  /** How many characters a decoding step passes: one well-formed character, or each byte of an ill-formed run. */
  function StepCount(d: Decoded): nat {
    if d.ch.Some? then 1 else d.size
  }

  /** A step of the second loop that does not finish it keeps the loop invariant. */
  lemma TakeAdvance(substr: seq<byte>, whole: seq<byte>, slice: seq<byte>, remaining: nat, rest: seq<byte>, n: nat)
    requires |slice| <= |substr| && substr[|substr| - |slice|..] == slice
    requires whole == substr[..|substr| - |slice|] + CharPrefix(slice, remaining)
    requires |slice| > 0 && remaining > StepCount(DecodeUtf8(slice))
    requires DecodeUtf8(slice).size <= |slice| && rest == slice[DecodeUtf8(slice).size..]
    requires n == remaining - StepCount(DecodeUtf8(slice))
    ensures |rest| <= |substr| && substr[|substr| - |rest|..] == rest && n > 0
    ensures whole == substr[..|substr| - |rest|] + CharPrefix(rest, n)
  {
    var head := slice[..DecodeUtf8(slice).size];
    var p, q := CharPrefix(slice, remaining), CharPrefix(rest, n);
    assert p == head + q by {
      CharPrefixStep(slice, remaining, head, rest, n);
    }
    assert slice == head + rest;
    AdvanceGlue(substr, slice, head, rest, whole, p, q);
  }

  /** Moving the cursor of a suffix of `substr` past `head` keeps the invariant of the second loop. */
  lemma AdvanceGlue(substr: seq<byte>, slice: seq<byte>, head: seq<byte>, rest: seq<byte>,
                    whole: seq<byte>, p: seq<byte>, q: seq<byte>)
    requires |slice| <= |substr| && substr[|substr| - |slice|..] == slice
    requires slice == head + rest
    requires whole == substr[..|substr| - |slice|] + p && p == head + q
    ensures |rest| <= |substr| && substr[|substr| - |rest|..] == rest
    ensures whole == substr[..|substr| - |rest|] + q
  {
    var pos := |substr| - |slice|;
    assert substr[..pos + |head|] == substr[..pos] + head by {
      assert substr == substr[..pos] + slice;
    }
  }

  /** A step of the second loop that does not finish it. */
  lemma CharPrefixStep(s: seq<byte>, n: nat, head: seq<byte>, rest: seq<byte>, k: nat)
    requires |s| > 0 && n > 0
    requires DecodeUtf8(s).ch.None? ==> n > DecodeUtf8(s).size
    requires DecodeUtf8(s).size <= |s| && head == s[..DecodeUtf8(s).size] && rest == s[DecodeUtf8(s).size..]
    requires k == n - StepCount(DecodeUtf8(s))
    ensures CharPrefix(s, n) == head + CharPrefix(rest, k)
  {
    DecodeNonEmpty(s);
  }

  lemma TakeBytes(bytes: seq<byte>, pos: nat, slice: seq<byte>, taken: nat)
    requires pos <= |bytes| && bytes[pos..] == slice && taken <= |slice|
    ensures bytes[..pos + taken] == bytes[..pos] + slice[..taken]
  {
    assert bytes[..pos + taken] == bytes[..pos] + bytes[pos..][..taken];
  }

  lemma DropJoined(xs: seq<seq<byte>>, pre: seq<seq<byte>>, ys: seq<seq<byte>>)
    requires xs == pre + ys
    ensures xs[|pre|..] == ys
  {
  }

  /**
   The second loop of `get_char_slice` as written, entered with `remaining`
   as the loop counter: the number of bytes of `slice` it returns. The
   counter is a `usize`, so decrementing zero wraps to `usize::MAX` in a
   release build.
   */
  function TakeCharsAsWritten(slice: seq<byte>, remaining: usize): (n: nat)
    ensures n <= |slice|
    decreases |slice|
  {
    var d := DecodeUtf8(slice);
    DecodeNonEmpty(slice);
    if d.size == 0 then 0
    else if d.ch.Some? && remaining == 1 then d.size
    else if d.ch.Some? then
      d.size + TakeCharsAsWritten(slice[d.size..], if remaining == 0 then USIZE_MAX else remaining - 1)
    else if remaining <= d.size then remaining
    else d.size + TakeCharsAsWritten(slice[d.size..], remaining - d.size)
  }

  /**
   `"éa"[0..0]` reaches the second loop of `get_char_slice` (its only
   non-ASCII byte is at offset 0, not past `end`, and skipping no characters
   never runs out), so the loop starts with `remaining == 0`. The debug
   assertion `remaining > 0` fails there; in a release build the counter
   wraps and the loop returns the whole string instead of nothing.
   */
  lemma EmptyRangeAsWritten()
    ensures FindNonAscii([0xC3, 0xA9, 0x61]) == Some(0)
    ensures TakeCharsAsWritten([0xC3, 0xA9, 0x61], 0) == 3
    ensures CharSliceSpec([0xC3, 0xA9, 0x61], 0, 0) == Some([])
  {
    var s: seq<byte> := [0xC3, 0xA9, 0x61];
    assert DecodeUtf8(s) == Decoded(Some(0xE9), 2);
    assert DecodeUtf8(s[2..]) == Decoded(Some(0x61), 1);
    assert s[2..][1..] == [];
    assert TakeCharsAsWritten(s[2..][1..], USIZE_MAX - 1) == 0;
  }

  /**
   When character `start` begins an ill-formed run, as in `[0x80, 0x61][0..0]`,
   the loop's arm for an ill-formed run with `remaining <= size` fires at
   `remaining == 0` and returns nothing: an empty slice without a wrap.
   */
  lemma EmptyRangeIllFormedStart()
    ensures FindNonAscii([0x80, 0x61]) == Some(0)
    ensures TakeCharsAsWritten([0x80, 0x61], 0) == 0
    ensures CharSliceSpec([0x80, 0x61], 0, 0) == Some([])
  {
    var s: seq<byte> := [0x80, 0x61];
    assert DecodeUtf8(s) == Decoded(None, 1);
  }

  /** On an all-ASCII string both the byte and the character reading of a range agree, whichever way round it is. */
  lemma AsciiSliceSpec(s: seq<byte>, start: nat, end: nat)
    requires IsAscii(s)
    ensures CharSliceSpec(s, start, end) ==
      if start <= end && end <= |s| then Some(s[start..end])
      else if start <= |s| then Some(s[start..])
      else None
  {
    if start <= end {
      CharSliceAscii(s, start, end);
      assert start <= |s| && |s| < end ==> s[start..Min(end, |s|)] == s[start..];
    }
  }

  /** The ASCII bytes before the first non-ASCII one are one character each. */
  lemma ConsumedPrefix(s: seq<byte>, offset: nat, consumed: nat)
    requires FindNonAscii(s) == Some(offset) && consumed <= offset
    ensures consumed <= CharCount(s) && Chars(s[consumed..]) == Chars(s)[consumed..]
  {
    assert s[..consumed] == s[..offset][..consumed];
    AsciiPrefixChars(s, consumed);
    DropJoined(Chars(s), SingleBytes(s[..consumed]), Chars(s[consumed..]));
  }

  lemma DropDrop(xs: seq<seq<byte>>, k: nat, ys: seq<seq<byte>>, j: nat)
    requires k <= |xs| && ys == xs[k..]
    ensures |ys| < j <==> |xs| < k + j
    ensures j <= |ys| ==> ys[j..] == xs[k + j..]
  {
  }

  lemma SliceSpecPast(s: seq<byte>, start: nat, end: nat)
    requires start <= end && CharCount(s) < start
    ensures CharSliceSpec(s, start, end) == None
  {
  }

  lemma SliceSpecSpan(s: seq<byte>, start: nat, end: nat)
    requires start <= end && start <= CharCount(s)
    ensures CharSliceSpec(s, start, end) == Some(CharSpan(s, start, end))
  {
  }

  /** An empty character range within the string is empty. */
  lemma EmptyRangeIsEmpty(s: seq<byte>, start: nat)
    requires start <= CharCount(s)
    ensures CharSliceSpec(s, start, start) == Some([])
  {
    assert Chars(s)[start..start] == [];
  }

  /** On an ASCII string, character slicing is byte slicing cut at the end of the string. */
  lemma CharSliceAscii(s: seq<byte>, start: nat, end: nat)
    requires IsAscii(s) && start <= end
    ensures CharSliceSpec(s, start, end) == if start <= |s| then Some(s[start..Min(end, |s|)]) else None
  {
    AsciiChars(s);
    if start <= |s| {
      SingleBytesSlice(s, start, Min(end, |s|));
      FlattenSingleBytes(s[start..Min(end, |s|)]);
    }
  }

  /** The bytes of characters `start..end` are the first `end - start` characters of what follows character `start`. */
  lemma CharSpanAfter(s: seq<byte>, start: nat, end: nat, rest: seq<byte>)
    requires start <= end && start <= CharCount(s)
    requires Chars(rest) == Chars(s)[start..]
    ensures CharSliceSpec(s, start, end) == Some(Flatten(Chars(rest)[..Min(end - start, CharCount(rest))]))
  {
    SliceSpecSpan(s, start, end);
    assert Chars(s)[start..Min(end, CharCount(s))] == Chars(rest)[..Min(end - start, CharCount(rest))];
  }

  /**
   The part of `get_char_slice` after its ASCII fast paths: pass the ASCII
   prefix by byte offsets, skip to `start` with the first loop and take
   `end - start` characters with the second.
   */
  method SliceAfterAscii(bytes: seq<byte>, offset: nat, start: nat, end: nat) returns (r: Option<seq<byte>>)
    requires FindNonAscii(bytes) == Some(offset) && offset <= end && start <= end
    ensures r == CharSliceSpec(bytes, start, end)
  {
    var consumed := if offset <= start then offset else start;
    var slice := bytes[consumed..];
    var after := SkipToStart(slice, start - consumed);
    if after.None? {
      r := None;
    } else {
      var taken := TakeSpan(after.value, end - start);
      r := Some(taken);
    }
    SliceByLoops(bytes, offset, consumed, start, end, slice, after, r);
  }

  /** The first loop of `get_char_slice`, entered only when there is something to skip. */
  method SkipToStart(slice: seq<byte>, remaining: nat) returns (after: Option<seq<byte>>)
    ensures after == CharSuffix(slice, remaining)
  {
    after := Some(slice);
    if remaining > 0 {
      after := SkipChars(slice, remaining);
    } else {
      NothingSkipped(slice);
    }
  }

  /** The second loop of `get_char_slice`, with an empty range answered by the empty slice. */
  method TakeSpan(substr: seq<byte>, remaining: nat) returns (taken: seq<byte>)
    ensures taken == CharPrefix(substr, remaining)
  {
    if remaining == 0 {
      NothingTaken(substr);
      taken := [];
    } else {
      taken := TakeChars(substr, remaining);
    }
  }

  lemma NothingSkipped(s: seq<byte>)
    ensures CharSuffix(s, 0) == Some(s)
  {
  }

  lemma NothingTaken(s: seq<byte>)
    ensures CharPrefix(s, 0) == []
  {
  }

  /** Characters `start..end` are what the two loops of `get_char_slice` find after the ASCII prefix. */
  lemma SliceByLoops(s: seq<byte>, offset: nat, consumed: nat, start: nat, end: nat,
                     slice: seq<byte>, after: Option<seq<byte>>, r: Option<seq<byte>>)
    requires FindNonAscii(s) == Some(offset) && start <= end
    requires consumed == if offset <= start then offset else start
    requires slice == s[consumed..]
    requires after == CharSuffix(slice, start - consumed)
    requires after.None? ==> r.None?
    requires after.Some? ==> r == Some(CharPrefix(after.value, end - start))
    ensures r == CharSliceSpec(s, start, end)
  {
    ConsumedPrefix(s, offset, consumed);
    CharSuffixChars(slice, start - consumed);
    if after.None? {
      SkippedPast(s, consumed, slice, start - consumed, start, end);
    } else {
      SkippedTo(s, consumed, slice, start - consumed, start, after.value);
      if end == start {
        EmptyRangeIsEmpty(s, start);
      } else {
        SliceTaken(s, start, end, after.value, CharPrefix(after.value, end - start));
      }
    }
  }

  /** The first loop ran out of characters: the string is shorter than `start` characters. */
  lemma SkippedPast(s: seq<byte>, consumed: nat, slice: seq<byte>, remaining: nat, start: nat, end: nat)
    requires consumed <= CharCount(s) && Chars(slice) == Chars(s)[consumed..]
    requires consumed + remaining == start && start <= end && CharSuffix(slice, remaining).None?
    ensures CharSliceSpec(s, start, end) == None
  {
    CharSuffixChars(slice, remaining);
    DropDrop(Chars(s), consumed, Chars(slice), remaining);
    SliceSpecPast(s, start, end);
  }

  /** The first loop skipped to character `consumed + remaining`. */
  lemma SkippedTo(s: seq<byte>, consumed: nat, slice: seq<byte>, remaining: nat, start: nat, after: seq<byte>)
    requires consumed <= CharCount(s) && Chars(slice) == Chars(s)[consumed..] && consumed + remaining == start
    requires CharSuffix(slice, remaining) == Some(after)
    ensures start <= CharCount(s) && Chars(after) == Chars(s)[start..]
  {
    CharSuffixChars(slice, remaining);
    DropDrop(Chars(s), consumed, Chars(slice), remaining);
  }

  /** What the second loop takes after character `start` is the character slice. */
  lemma SliceTaken(s: seq<byte>, start: nat, end: nat, slice: seq<byte>, taken: seq<byte>)
    requires start <= end && start <= CharCount(s) && Chars(slice) == Chars(s)[start..]
    requires taken == CharPrefix(slice, end - start)
    ensures CharSliceSpec(s, start, end) == Some(taken)
  {
    CharSpanAfter(s, start, end, slice);
    CharPrefixChars(slice, end - start);
  }

  /** The loop of `get_char`: character `n` of `bytes`, or None when there are fewer characters. */
  method NthChar(bytes: seq<byte>, n: nat) returns (r: Option<seq<byte>>)
    ensures r == if n < CharCount(bytes) then Some(Chars(bytes)[n]) else None
  {
    var slice := bytes;
    var remaining: nat := n;
    ghost var passed: nat := 0;
    while true
      invariant passed <= CharCount(bytes) && Chars(slice) == Chars(bytes)[passed..]
      invariant passed + remaining == n
      decreases |slice|
    {
      var d := DecodeUtf8(slice);
      DecodeNonEmpty(slice);
      if d.size == 0 {
        assert Chars(slice) == [];
        return None;
      }
      var step := StepCount(d);
      if remaining < step {
        if d.ch.Some? {
          r := Some(slice[..d.size]);
        } else if remaining == 0 {
          r := Some(slice[0..1]);
        } else {
          r := Some(slice[remaining..remaining + 1]);
        }
        NthCharFound(Chars(bytes), passed, slice, remaining, r.value, n);
        return;
      }
      var rest, next := slice[d.size..], passed + step;
      SkipStep(Chars(bytes), passed, slice, rest, next);
      slice, passed, remaining := rest, next, remaining - step;
    }
  }

  /**
   The character at index `j` of the characters decoded at the front of
   `slice`: a whole scalar value when `slice` starts with one, byte `j` of an
   ill-formed run otherwise.
   */
  lemma NthCharFound(xs: seq<seq<byte>>, k: nat, slice: seq<byte>, j: nat, piece: seq<byte>, index: nat)
    requires |slice| > 0 && k <= |xs| && Chars(slice) == xs[k..]
    requires j < |FirstChars(slice)| && index == k + j
    requires piece == if DecodeUtf8(slice).ch.Some? then slice[..DecodeUtf8(slice).size] else slice[j..j + 1]
    ensures index < |xs| && xs[index] == piece
  {
    var d := DecodeUtf8(slice);
    var first := FirstChars(slice);
    FirstCharsSplit(slice);
    assert xs[k..][j] == first[j];
    if d.ch.None? {
      assert slice[..d.size][j] == slice[j];
      assert slice[j..j + 1] == [slice[j]];
    }
  }

  lemma DropJoinedAt(xs: seq<seq<byte>>, pre: seq<seq<byte>>, ys: seq<seq<byte>>, j: nat)
    requires xs == pre + ys
    ensures |pre| + j < |xs| <==> j < |ys|
    ensures j < |ys| ==> xs[|pre| + j] == ys[j]
  {
  }

  /** Within an ASCII prefix, character `index` is byte `index`. */
  lemma AsciiCharAt(s: seq<byte>, k: nat, index: nat)
    requires k <= |s| && IsAscii(s[..k]) && index < k
    ensures index < CharCount(s) && Chars(s)[index] == s[index..index + 1]
  {
    AsciiPrefixChars(s, k);
    IndexFront(Chars(s), s, k, Chars(s[k..]), index);
  }

  lemma IndexFront(cs: seq<seq<byte>>, s: seq<byte>, k: nat, rest: seq<seq<byte>>, i: nat)
    requires k <= |s| && cs == SingleBytes(s[..k]) + rest && i < k
    ensures i < |cs| && cs[i] == s[i..i + 1]
  {
    assert s[..k][i] == s[i];
    assert s[i..i + 1] == [s[i]];
  }

  /** A character range inside an ASCII prefix is the byte range. */
  lemma AsciiPrefixSpan(s: seq<byte>, k: nat, start: nat, end: nat)
    requires k <= |s| && IsAscii(s[..k]) && start <= end < k
    ensures CharSliceSpec(s, start, end) == Some(s[start..end])
  {
    AsciiPrefixChars(s, k);
    SingleBytesSlice(s[..k], start, end);
    FlattenSingleBytes(s[start..end]);
    assert s[..k][start..end] == s[start..end];
    assert Chars(s)[start..end] == SingleBytes(s[..k])[start..end];
  }

  // ---------------------------------------------------------------------
  // The string

  class Utf8String {
    var inner: seq<byte>

    constructor (bytes: seq<byte>)
      ensures inner == bytes
    {
      inner := bytes;
    }

    /** `char_len`: the number of conventionally UTF-8 characters. */
    method CharLen() returns (n: nat)
      ensures n == CharCount(inner)
    {
      var bytes := inner;
      var nonAscii := FindNonAscii(bytes);
      if nonAscii.None? {
        AsciiChars(bytes);
        return |bytes|;
      }
      var tail := nonAscii.value;
      AsciiPrefixChars(inner, tail);
      bytes := bytes[tail..];
      if IsValidUtf8(bytes) {
        ValidNumChars(bytes);
        return tail + NumChars(bytes);
      }
      n := tail;
      while |bytes| > 0
        invariant n + CharCount(bytes) == CharCount(inner)
        decreases |bytes|
      {
        var chunk := NextChunk(bytes);
        ChunkCharCount(bytes);
        n := n + NumChars(chunk.valid);
        n := n + |chunk.invalid|;
        bytes := chunk.rest;
      }
    }

    /** `get_char(index)`: the bytes of character `index`, or None past the last character. */
    method GetChar(index: usize) returns (r: Option<seq<byte>>)
      ensures r == if index < CharCount(inner) then Some(Chars(inner)[index]) else None
    {
      CharCountBound(inner);
      if index >= |inner| {
        return None;
      }
      var nonAscii := FindNonAscii(inner);
      if nonAscii.None? {
        AsciiCharAt(inner, |inner|, index);
        return Some(inner[index..index + 1]);
      }
      var consumed := nonAscii.value;
      if consumed > index {
        AsciiCharAt(inner, consumed, index);
        return Some(inner[index..index + 1]);
      }
      AsciiPrefixChars(inner, consumed);
      r := NthChar(inner[consumed..], index - consumed);
      DropJoinedAt(Chars(inner), SingleBytes(inner[..consumed]), Chars(inner[consumed..]), index - consumed);
    }

    /**
     `get_char_slice(start..end)`, with an empty range answered by the empty
     slice before the second loop, and a reversed range that reaches the
     loops answered as a release build does, with `end - start` wrapped.
     */
    method GetCharSlice(start: usize, end: usize) returns (r: Option<seq<byte>>)
      ensures r == CharSliceSpec(inner, start, end)
    {
      var nonAscii := FindNonAscii(inner);
      if nonAscii.None? {
        AsciiSliceSpec(inner, start, end);
        if start <= end && end <= |inner| {
          return Some(inner[start..end]);
        }
        if start <= |inner| {
          return Some(inner[start..]);
        }
        return None;
      }
      var offset := nonAscii.value;
      if offset > end {
        if start <= end {
          AsciiPrefixSpan(inner, offset, start, end);
          return Some(inner[start..end]);
        }
        return None;
      }
      if start <= end {
        r := SliceAfterAscii(inner, offset, start, end);
      } else {
        ReversedRangeWraps(inner, offset, start, end);
        r := SliceAfterAscii(inner, offset, start, end + USIZE_MAX + 1);
      }
    }

    /** `try_push_codepoint`: append the UTF-8 encoding of a scalar value, or reject the value and change nothing. */
    method TryPushCodepoint(codepoint: i64) returns (r: Result<(), CodepointError>)
      modifies this
      ensures codepoint < 0 || codepoint > U32_MAX ==>
        r == Err(CodepointOutOfRange(codepoint)) && inner == old(inner)
      ensures 0 <= codepoint <= U32_MAX && !IsScalar(codepoint) ==>
        r == Err(InvalidUtf8Codepoint(codepoint)) && inner == old(inner)
      ensures IsScalar(codepoint) ==> r == Ok(()) && inner == old(inner) + Encode(codepoint)
    {
      if codepoint < 0 || codepoint > U32_MAX {
        return Err(CodepointOutOfRange(codepoint));
      }
      if !IsScalar(codepoint) {
        return Err(InvalidUtf8Codepoint(codepoint));
      }
      inner := inner + Encode(codepoint);
      return Ok(());
    }

    /** `chr`: the bytes of the first character, empty for the empty string. */
    function Chr(): (r: seq<byte>)
      reads this
      ensures |inner| == 0 ==> r == []
      ensures |inner| > 0 ==> r == Chars(inner)[0] && IsCharPiece(r) && IsPrefixOf(r, inner)
    {
      var d := DecodeUtf8(inner);
      DecodeNonEmpty(inner);
      CharsArePieces(inner);
      CharCountBound(inner);
      if d.ch.Some? then
        ValidCharChars(inner);
        inner[..d.size]
      else if d.size == 0 then []
      else
        InvalidRunChars(inner);
        inner[..1]
    }

    /** `ord`: the first scalar value, or why there is none. */
    function Ord(): (r: Result<Scalar, OrdError>)
      reads this
      ensures r == Err(EmptyString) <==> |inner| == 0
      ensures r.Ok? ==> IsPrefixOf(Encode(r.value), inner)
      ensures r.Err? && |inner| > 0 ==>
        r == Err(InvalidUtf8ByteSequence) && forall c: Scalar :: !IsPrefixOf(Encode(c), inner)
    {
      var d := DecodeUtf8(inner);
      DecodeNonEmpty(inner);
      if d.ch.Some? then
        DecodeSound(inner);
        Ok(d.ch.value)
      else if d.size == 0 then Err(EmptyString)
      else
        NoScalarPrefix(inner);
        Err(InvalidUtf8ByteSequence)
    }

    /** `is_valid_encoding`: the whole buffer is well-formed UTF-8. */
    function IsValidEncoding(): (r: bool)
      reads this
      ensures r <==> IsValidUtf8(inner)
    {
      if IsAscii(inner) then
        AsciiValid(inner);
        true
      else IsValidUtf8(inner)
    }

    /** `reverse`: the characters in reverse order. */
    method Reverse()
      modifies this
      ensures inner == ReverseChars(old(inner))
    {
      if IsAscii(inner) {
        ReverseAscii(inner);
        inner := Reversed(inner);
        return;
      }
      var chars := Chars(inner);
      var replacement: seq<byte> := [];
      var i := |chars|;
      while i > 0
        invariant 0 <= i <= |chars|
        invariant replacement == Flatten(Reversed(chars)[..|chars| - i])
      {
        i := i - 1;
        assert Reversed(chars)[..|chars| - i] == Reversed(chars)[..|chars| - i - 1] + [chars[i]];
        FlattenAppend(Reversed(chars)[..|chars| - i - 1], [chars[i]]);
        assert Flatten([chars[i]]) == chars[i];
        replacement := replacement + chars[i];
      }
      assert Reversed(chars)[..|chars|] == Reversed(chars);
      inner := replacement;
    }
  }

  /** `"\xF0\x9F\x87".chr` is `"\xF0"`: a truncated four-byte sequence yields its first byte only. */
  lemma ChrOfTruncatedSequence(u: Utf8String)
    requires u.inner == [0xF0, 0x9F, 0x87]
    ensures u.Chr() == [0xF0]
  {
    assert DecodeUtf8(u.inner).ch.None?;
  }

  /** Invalid bytes count one character each: `"\x00\x00\xD8\x00"` has four, `"\xFF\xFE"` two. */
  lemma CharCountInvalidExamples()
    ensures CharCount([0x00, 0x00, 0xD8, 0x00]) == 4
    ensures CharCount([0xFF, 0xFE]) == 2
  {
    var s: seq<byte> := [0x00, 0x00, 0xD8, 0x00];
    LoneByteChars(s);
    LoneByteChars(s[1..]);
    assert s[2..][..1] == [0xD8] && s[2..][1..] == s[3..];
    assert DecodeUtf8(s[2..]) == Decoded(None, 1);
    InvalidRunChars(s[2..]);
    assert SingleBytes([0xD8]) == [[0xD8]];
    LoneByteChars(s[3..]);
    var t: seq<byte> := [0xFF, 0xFE];
    LoneByteChars(t);
    LoneByteChars(t[1..]);
  }

  /** Reversing `再见` by characters swaps its two three-byte characters. */
  lemma ReverseTwoChars()
    ensures ReverseChars([0xE5, 0x86, 0x8D, 0xE8, 0xA7, 0x81]) == [0xE8, 0xA7, 0x81, 0xE5, 0x86, 0x8D]
  {
    var s: seq<byte> := [0xE5, 0x86, 0x8D, 0xE8, 0xA7, 0x81];
    assert DecodeUtf8(s) == Decoded(Some(0x518D), 3);
    assert s[3..] == [0xE8, 0xA7, 0x81];
    assert DecodeUtf8(s[3..]) == Decoded(Some(0x89C1), 3);
    assert s[3..][..3] == s[3..] && s[3..][3..] == [];
    assert Chars(s[3..]) == [s[3..]] + Chars([]);
    assert Chars(s) == [s[..3]] + Chars(s[3..]);
    assert Reversed(Chars(s)) == [s[3..], s[..3]];
  }

  /** With an ill-formed prefix, no scalar value's encoding starts the string. */
  lemma NoScalarPrefix(s: seq<byte>)
    requires DecodeUtf8(s).ch.None?
    ensures forall c: Scalar :: !IsPrefixOf(Encode(c), s)
  {
    forall c: Scalar ensures IsPrefixOf(Encode(c), s) ==> DecodeUtf8(s).ch == Some(c) {
      if IsPrefixOf(Encode(c), s) {
        var rest := s[|Encode(c)|..];
        assert s == Encode(c) + rest;
        DecodeEncode(c, rest);
      }
    }
  }

  /** ASCII is well-formed UTF-8. */
  lemma {:induction false} AsciiValid(s: seq<byte>)
    requires IsAscii(s)
    ensures IsValidUtf8(s)
  {
    if |s| > 0 {
      assert DecodeUtf8(s) == Decoded(Some(s[0]), 1);
      assert IsAscii(s[1..]) by {
        forall i | 0 <= i < |s[1..]| ensures IsAsciiByte(s[1..][i]) {
          assert s[1..][i] == s[i + 1];
        }
      }
      AsciiValid(s[1..]);
    }
  }
}
