/**
 `StringScanner` of Artichoke's strscan library: a byte offset into a
 string, advanced by patterns that must match where the offset points.

 The scanner remembers the offset before the last successful scan
 (`@previous_pos`, for `unscan`), the last match (`@last_match`) and the
 byte offset just past it (`@last_match_pos`, read by `post_match`).

 The regexp engine is abstract: a `Regexp` maps a haystack to the span of
 its first match, in character offsets as `MatchData#begin(0)` and
 `MatchData#end(0)` report them. Character offsets become byte offsets by
 `haystack[0, n].bytesize`, which on a conventionally UTF-8 string is the
 byte length of its first `n` characters.
 */
module StrScan {
  import opened Wrappers
  import opened Ints
  import opened Utf8
  import Utf8Str

  /** The whole match of a regexp, as character offsets into its haystack. */
  datatype Span = Span(begin: nat, end: nat)

  /** `Regexp#match` on a haystack: the span of the first match, or nil. */
  type Regexp = seq<byte> -> Option<Span>

  /** What `@last_match` holds: the MatchData of a pattern, or the one-byte string of `get_byte`. */
  datatype LastMatch = MatchData(haystack: seq<byte>, span: Span) | ByteString(bytes: seq<byte>)

  /** What `scan_full` and `search_full` return: the scanned string, or the character offset where the match ends. */
  datatype ScanValue = Text(bytes: seq<byte>) | Offset(chars: nat)

  /** The exceptions the scanner raises itself. */
  datatype ScanException = ScanError | RangeError | ArgumentError

  const NEWLINE: byte := 0x0A

  /** `s.byteslice(i)`: the byte at offset `i` as a string, nil past the end. */
  function ByteAt(s: seq<byte>, i: nat): (r: Option<seq<byte>>)
    ensures r.Some? <==> i < |s|
    ensures r.Some? ==> r.value == [s[i]]
  {
    if i < |s| then Some(s[i..i + 1]) else None
  }

  /** `s.byteslice(start, len)`: nil for a negative length or a start past the end, otherwise cut at the end. */
  function ByteSlice(s: seq<byte>, start: nat, len: int): (r: Option<seq<byte>>)
    ensures r.Some? <==> len >= 0 && start <= |s|
    ensures r.Some? ==> |r.value| == Min(len, |s| - start) && r.value == s[start..start + |r.value|]
  {
    if len < 0 || start > |s| then None
    else if start + len <= |s| then Some(s[start..start + len])
    else Some(s[start..])
  }

  /** `haystack[0, chars].bytesize` as bytes: the first `chars` characters of `haystack`. */
  function MatchedBytes(haystack: seq<byte>, chars: nat): (r: seq<byte>)
    ensures Utf8Str.IsPrefixOf(r, haystack)
  {
    Utf8Str.CharPrefixIsPrefix(haystack, chars);
    Utf8Str.CharPrefix(haystack, chars)
  }

  /** The matched bytes are the first `chars` characters, all of them when there are fewer. */
  lemma MatchedBytesChars(haystack: seq<byte>, chars: nat)
    ensures MatchedBytes(haystack, chars) == Flatten(Chars(haystack)[..Min(chars, CharCount(haystack))])
  {
    Utf8Str.CharPrefixChars(haystack, chars);
  }

  /** The match that the anchored methods accept: one that begins where the haystack begins. */
  function AnchoredMatch(pattern: Regexp, haystack: seq<byte>): Option<Span> {
    var m := pattern(haystack);
    if m.None? || m.value.begin > 0 then None else m
  }

  /** `@last_match_pos` after `match?` as written: the old value, nil read as 0, plus the matched bytes. */
  function MatchEndAsWritten(lastMatchPos: Option<nat>, matched: nat): nat {
    (if lastMatchPos.None? then 0 else lastMatchPos.value) + matched
  }

  /**
   The byte size of the last match as `pre_match` measures it: the
   characters `begin(0)` up to `end(0)` of the match's own string, or the
   string `get_byte` recorded.
   */
  function MatchByteSize(m: LastMatch): nat {
    match m
    case MatchData(haystack, span) =>
      if span.begin <= span.end && span.begin <= CharCount(haystack) then |CharSpan(haystack, span.begin, span.end)| else 0
    case ByteString(bytes) => |bytes|
  }

  class StringScanner {
    /** `@string`, the bytes being scanned. */
    var str: seq<byte>
    /** `@pos`, a byte offset. */
    var pos: nat
    /** `@previous_pos`: where the last successful scan started. */
    var previousPos: Option<nat>
    /** `@last_match`. */
    var lastMatch: Option<LastMatch>
    /** `@last_match_pos`: the byte offset just past the last match. */
    var lastMatchPos: Option<nat>

    /** Every recorded offset lies within the string, and a last match has its end offset. */
    ghost predicate Valid()
      reads this
    {
      && pos <= |str|
      && (previousPos.Some? ==> previousPos.value <= |str|)
      && (lastMatchPos.Some? ==> lastMatchPos.value <= |str|)
      && (lastMatch.Some? ==> lastMatchPos.Some?)
    }

    /** `initialize(string)`: scanning starts at offset 0 with no match recorded. */
    constructor (s: seq<byte>)
      ensures Valid()
      ensures str == s && pos == 0 && previousPos == None && lastMatch == None && lastMatchPos == None
    {
      str := s;
      pos := 0;
      previousPos := None;
      lastMatch := None;
      lastMatchPos := None;
    }

    /** `<<(str)`: append to the scanned string; every offset stays put. */
    method Concat(more: seq<byte>)
      modifies this
      requires Valid()
      ensures Valid()
      ensures str == old(str) + more
      ensures pos == old(pos) && previousPos == old(previousPos)
      ensures lastMatch == old(lastMatch) && lastMatchPos == old(lastMatchPos)
    {
      str := str + more;
    }

    /**
     `string=(str)`: scan another string. The offsets are kept as they are,
     so a shorter string leaves them past its end.
     */
    method SetString(s: seq<byte>)
      modifies this
      ensures str == s
      ensures pos == old(pos) && previousPos == old(previousPos)
      ensures lastMatch == old(lastMatch) && lastMatchPos == old(lastMatchPos)
      ensures pos > |s| ==> !Valid()
      ensures old(Valid()) && |old(str)| <= |s| ==> Valid()
    {
      str := s;
    }

    /** `rest`: the bytes from the offset on. */
    function Rest(): (r: seq<byte>)
      reads this
      requires Valid()
      ensures str == str[..pos] + r
    {
      ByteSlice(str, pos, |str| - pos).value
    }

    /** `eos?`: nothing is left to scan. */
    function Eos(): (r: bool)
      reads this
      requires Valid()
      ensures r <==> Rest() == []
    {
      pos == |str|
    }

    /** `rest?`: something is left to scan. */
    function HasRest(): (r: bool)
      reads this
      requires Valid()
      ensures r <==> |Rest()| > 0
    {
      !Eos()
    }

    /**
     `rest_size`: the size of the rest as a string, which counts characters;
     never more than the bytes left, none only at the end, and one per byte
     when the rest is ASCII.
     */
    function RestSize(): (r: nat)
      reads this
      requires Valid()
      ensures r == CharCount(Rest())
      ensures r <= |Rest()| && (r == 0 <==> Eos())
      ensures IsAscii(Rest()) ==> r == |Rest()|
    {
      var rest := Rest();
      CharCountBound(rest);
      if IsAscii(rest) then
        AsciiChars(rest);
        CharCount(rest)
      else
        CharCount(rest)
    }

    /** `beginning_of_line?`: the offset is at the start of the string or just after a newline. */
    function BeginningOfLine(): (r: bool)
      reads this
      requires Valid()
      ensures r <==> pos == 0 || str[pos - 1] == NEWLINE
    {
      pos == 0 || ByteAt(str, pos - 1) == Some([NEWLINE])
    }

    /** `peek(len)`: up to `len` bytes from the offset, without moving; ArgumentError for a negative length. */
    function Peek(len: int): (r: Result<seq<byte>, ScanException>)
      reads this
      requires Valid()
      ensures r.Err? <==> len < 0
      ensures r.Err? ==> r.error == ArgumentError
      ensures r.Ok? ==> Utf8Str.IsPrefixOf(r.value, Rest()) && |r.value| == Min(len, |Rest()|)
    {
      if len < 0 then Err(ArgumentError) else Ok(ByteSlice(str, pos, len).value)
    }

    /** `exist?(pattern)`: where a match ends in the rest, in characters, without moving. */
    function Exist(pattern: Regexp): (r: Option<nat>)
      reads this
      requires Valid()
      ensures r.Some? <==> pattern(Rest()).Some?
      ensures r.Some? ==> r.value == pattern(Rest()).value.end
    {
      var m := pattern(ByteSlice(str, pos, |str| - pos).value);
      if m.None? then None else Some(m.value.end)
    }

    /** `post_match`: the bytes after the last match, nil when there is none. */
    function PostMatch(): (r: Option<seq<byte>>)
      reads this
      requires Valid()
      ensures r.Some? <==> lastMatch.Some?
      ensures r.Some? ==> str == str[..lastMatchPos.value] + r.value
    {
      if lastMatch.None? then None
      else
        var slice := ByteSlice(str, lastMatchPos.value, |str| - lastMatchPos.value);
        Some(if slice.None? then [] else slice.value)
    }

    /**
     `pre_match`: nil without a match; otherwise the bytes before the match,
     found by stepping back the byte size of the match from `@last_match_pos`.
     */
    function PreMatch(): (r: Option<seq<byte>>)
      reads this
      requires Valid()
      ensures r.None? <==> lastMatch.None?
      ensures r.Some? ==> Utf8Str.IsPrefixOf(r.value, str) && |r.value| <= lastMatchPos.value
    {
      if lastMatch.None? then None
      else
        var before := ByteSlice(str, 0, lastMatchPos.value - MatchByteSize(lastMatch.value));
        Some(if before.None? then [] else before.value)
    }

    /** `charpos`: the offset counted in characters, those of the bytes before it. */
    function Charpos(): (r: nat)
      reads this
      requires Valid()
      ensures r == CharCount(str[..pos])
      ensures r <= pos && (r == 0 <==> pos == 0)
      ensures IsAscii(str[..pos]) ==> r == pos
    {
      var before := str[..pos];
      CharCountBound(before);
      if IsAscii(before) then
        AsciiChars(before);
        CharCount(before)
      else
        CharCount(before)
    }

    /** `reset`: back to offset 0, forgetting the previous offset and the match. */
    method Reset()
      modifies this
      requires Valid()
      ensures Valid()
      ensures str == old(str) && pos == 0
      ensures previousPos == None && lastMatch == None && lastMatchPos == None
    {
      pos := 0;
      previousPos := None;
      lastMatch := None;
      lastMatchPos := None;
    }

    /** `terminate`: jump to the end and forget the match; the previous offset survives. */
    method Terminate()
      modifies this
      requires Valid()
      ensures Valid() && Eos()
      ensures str == old(str) && pos == |str| && previousPos == old(previousPos)
      ensures lastMatch == None && lastMatchPos == None
    {
      pos := |str|;
      lastMatch := None;
      lastMatchPos := None;
    }

    /** `unscan`: return to where the last successful scan started; ScanError when none is recorded. */
    method Unscan() returns (r: Result<(), ScanException>)
      modifies this
      requires Valid()
      ensures Valid()
      ensures old(previousPos).None? ==> r == Err(ScanError)
      ensures old(previousPos).None? ==>
        pos == old(pos) && lastMatch == old(lastMatch) && lastMatchPos == old(lastMatchPos)
      ensures old(previousPos).Some? ==> r == Ok(()) && pos == old(previousPos).value
      ensures old(previousPos).Some? ==> lastMatch == None && lastMatchPos == None
      ensures str == old(str) && previousPos == None
    {
      if previousPos.None? {
        return Err(ScanError);
      }
      pos := previousPos.value;
      previousPos := None;
      lastMatch := None;
      lastMatchPos := None;
      return Ok(());
    }

    /** `get_byte`: the byte at the offset, which is passed and becomes the last match; nil at the end. */
    method GetByte() returns (r: Option<seq<byte>>)
      modifies this
      requires Valid()
      ensures Valid() && str == old(str) && previousPos == old(previousPos)
      ensures r.None? <==> old(pos) == |str|
      ensures r.None? ==> pos == old(pos) && lastMatch == old(lastMatch) && lastMatchPos == old(lastMatchPos)
      ensures r.Some? ==> r.value == [str[old(pos)]] && pos == old(pos) + 1
      ensures r.Some? ==> lastMatch == Some(ByteString(r.value)) && lastMatchPos == Some(pos)
    {
      if Eos() {
        return None;
      }
      var b := ByteAt(str, pos).value;
      pos := pos + 1;
      lastMatchPos := Some(pos);
      lastMatch := Some(ByteString(b));
      return Some(b);
    }

    /**
     `pos=(pointer)`: move to byte offset `pointer`, counted from the end
     when negative; RangeError unless its magnitude is below the length.
     Returns the offset moved to.
     */
    method SetPos(pointer: int) returns (r: Result<int, ScanException>)
      modifies this
      requires Valid()
      ensures Valid() && str == old(str)
      ensures previousPos == old(previousPos) && lastMatch == old(lastMatch) && lastMatchPos == old(lastMatchPos)
      ensures r.Ok? <==> -|str| < pointer < |str|
      ensures r.Err? ==> r.error == RangeError && pos == old(pos)
      ensures r.Ok? ==> pos == r.value
      ensures r.Ok? ==> if pointer < 0 then pos + (-pointer) == |str| else pos == pointer
    {
      if !(-|str| < pointer < |str|) {
        return Err(RangeError);
      }
      var p := if pointer < 0 then |str| + pointer else pointer;
      pos := |ByteSlice(str, 0, p).value|;
      return Ok(p);
    }

    /**
     `charpos=(pointer)`: move to character `pointer`, counted from the end
     when negative; RangeError unless its magnitude is below the length in
     characters. The offset becomes the byte size of the characters before
     it, which is what the assignment returns.
     */
    method SetCharpos(pointer: int) returns (r: Result<nat, ScanException>)
      modifies this
      requires Valid()
      ensures Valid() && str == old(str)
      ensures previousPos == old(previousPos) && lastMatch == old(lastMatch) && lastMatchPos == old(lastMatchPos)
      ensures r.Ok? <==> -(CharCount(str) as int) < pointer < CharCount(str)
      ensures r.Err? ==> r.error == RangeError && pos == old(pos)
      ensures r.Ok? ==> var c := if pointer < 0 then CharCount(str) + pointer else pointer;
        && 0 <= c < CharCount(str)
        && pos == r.value && str[..pos] == Flatten(Chars(str)[..c])
    {
      var length := CharCount(str);
      if !(-length < pointer < length) {
        return Err(RangeError);
      }
      var c := if pointer < 0 then length + pointer else pointer;
      var before := MatchedBytes(str, c);
      MatchedBytesChars(str, c);
      pos := |before|;
      return Ok(pos);
    }

    /**
     `scan_full(pattern, advance_pointer_p, return_string_p)`. Without a
     match at the offset the match state and the previous offset are
     cleared. With one, the old offset is recorded, the offset passes the
     match when `advance` is set, and the result is the matched bytes or
     the character offset of the match end.
     */
    method ScanFull(pattern: Regexp, advance: bool, returnString: bool) returns (r: Option<ScanValue>)
      modifies this
      requires Valid()
      ensures Valid() && str == old(str)
      ensures r.None? <==> AnchoredMatch(pattern, old(Rest())).None?
      ensures r.None? ==> pos == old(pos) && previousPos == None && lastMatch == None && lastMatchPos == None
      ensures r.Some? ==>
        var m := pattern(old(Rest()));
        var taken := MatchedBytes(old(Rest()), m.value.end);
        && pos == old(pos) + (if advance then |taken| else 0)
        && previousPos == Some(old(pos))
        && lastMatch == Some(MatchData(old(Rest()), m.value))
        && lastMatchPos == Some(pos)
        && r.value == if returnString then Text(taken) else Offset(m.value.end)
    {
      var previous := pos;
      var haystack := ByteSlice(str, pos, |str| - pos).value;
      var m := pattern(haystack);
      if m.None? || m.value.begin > 0 {
        lastMatch := None;
        lastMatchPos := None;
        previousPos := None;
        return None;
      }
      var matchEnd := |MatchedBytes(haystack, m.value.end)|;
      if advance {
        pos := pos + matchEnd;
      }
      previousPos := Some(previous);
      lastMatch := Some(MatchData(haystack, m.value));
      lastMatchPos := Some(pos);
      if returnString {
        r := Some(Text(ByteSlice(str, previous, matchEnd).value));
      } else {
        r := Some(Offset(m.value.end));
      }
    }

    /** `scan(pattern)`: the matched bytes at the offset, passing them. */
    method Scan(pattern: Regexp) returns (r: Option<seq<byte>>)
      modifies this
      requires Valid()
      ensures Valid() && str == old(str)
      ensures r.None? <==> AnchoredMatch(pattern, old(Rest())).None?
      ensures r.None? ==> pos == old(pos) && previousPos == None && lastMatch == None && lastMatchPos == None
      ensures r.Some? ==> r.value == MatchedBytes(old(Rest()), pattern(old(Rest())).value.end)
      ensures r.Some? ==> old(pos) <= pos <= |str| && str[old(pos)..pos] == r.value && previousPos == Some(old(pos))
      ensures r.Some? ==> lastMatch == Some(MatchData(old(Rest()), pattern(old(Rest())).value))
      ensures r.Some? ==> lastMatchPos == Some(pos) && PostMatch() == Some(Rest())
    {
      var v := ScanFull(pattern, true, true);
      if v.None? {
        return None;
      }
      return Some(v.value.bytes);
    }

    /** `check(pattern)`: what `scan` would return, without moving. */
    method Check(pattern: Regexp) returns (r: Option<seq<byte>>)
      modifies this
      requires Valid()
      ensures Valid() && str == old(str) && pos == old(pos)
      ensures r.None? <==> AnchoredMatch(pattern, old(Rest())).None?
      ensures r.None? ==> previousPos == None && lastMatch == None && lastMatchPos == None
      ensures r.Some? ==> r.value == MatchedBytes(old(Rest()), pattern(old(Rest())).value.end)
      ensures r.Some? ==> Utf8Str.IsPrefixOf(r.value, Rest()) && previousPos == Some(pos)
      ensures r.Some? ==> lastMatch == Some(MatchData(old(Rest()), pattern(old(Rest())).value))
      ensures r.Some? ==> lastMatchPos == Some(pos)
    {
      var v := ScanFull(pattern, false, true);
      if v.None? {
        return None;
      }
      return Some(v.value.bytes);
    }

    /** `skip(pattern)`: pass the match at the offset; the result is the character offset of its end. */
    method Skip(pattern: Regexp) returns (r: Option<nat>)
      modifies this
      requires Valid()
      ensures Valid() && str == old(str)
      ensures r.None? <==> AnchoredMatch(pattern, old(Rest())).None?
      ensures r.None? ==> pos == old(pos) && previousPos == None && lastMatch == None && lastMatchPos == None
      ensures r.Some? ==> r.value == pattern(old(Rest())).value.end && previousPos == Some(old(pos))
      ensures r.Some? ==> old(pos) <= pos <= |str| && str[old(pos)..pos] == MatchedBytes(old(Rest()), r.value)
      ensures r.Some? ==> lastMatch == Some(MatchData(old(Rest()), pattern(old(Rest())).value))
      ensures r.Some? ==> lastMatchPos == Some(pos)
    {
      var previous := pos;
      var haystack := ByteSlice(str, pos, |str| - pos).value;
      var m := pattern(haystack);
      if m.None? || m.value.begin > 0 {
        lastMatch := None;
        lastMatchPos := None;
        previousPos := None;
        return None;
      }
      var matchEnd := |MatchedBytes(haystack, m.value.end)|;
      pos := pos + matchEnd;
      previousPos := Some(previous);
      lastMatch := Some(MatchData(haystack, m.value));
      lastMatchPos := Some(pos);
      return Some(m.value.end);
    }

    /**
     `scan_until(pattern)`: pass everything up to the end of the first match
     anywhere in the rest, returning those bytes. Without a match nothing
     changes, not even the match state.
     */
    method ScanUntil(pattern: Regexp) returns (r: Option<seq<byte>>)
      modifies this
      requires Valid()
      ensures Valid() && str == old(str)
      ensures r.None? <==> pattern(old(Rest())).None?
      ensures r.None? ==> pos == old(pos) && previousPos == old(previousPos)
      ensures r.None? ==> lastMatch == old(lastMatch) && lastMatchPos == old(lastMatchPos)
      ensures r.Some? ==> r.value == MatchedBytes(old(Rest()), pattern(old(Rest())).value.end)
      ensures r.Some? ==> old(pos) <= pos <= |str| && str[old(pos)..pos] == r.value && previousPos == Some(old(pos))
      ensures r.Some? ==> lastMatch == Some(MatchData(old(Rest()), pattern(old(Rest())).value))
      ensures r.Some? ==> lastMatchPos == Some(pos)
    {
      var previous := pos;
      var haystack := ByteSlice(str, pos, |str| - pos).value;
      var m := pattern(haystack);
      if m.None? {
        return None;
      }
      var matchEnd := |MatchedBytes(haystack, m.value.end)|;
      pos := pos + matchEnd;
      previousPos := Some(previous);
      lastMatch := Some(MatchData(haystack, m.value));
      lastMatchPos := Some(pos);
      return ByteSlice(str, previous, matchEnd);
    }

    /**
     `check_until(pattern)`: what `scan_until` would return, with the offset
     put back. The match state still records the match, so `post_match`
     reads from past it.
     */
    method CheckUntil(pattern: Regexp) returns (r: Option<seq<byte>>)
      modifies this
      requires Valid()
      ensures Valid() && str == old(str) && pos == old(pos)
      ensures r.None? <==> pattern(Rest()).None?
      ensures r.None? ==> previousPos == old(previousPos)
      ensures r.None? ==> lastMatch == old(lastMatch) && lastMatchPos == old(lastMatchPos)
      ensures r.Some? ==> r.value == MatchedBytes(Rest(), pattern(Rest()).value.end)
      ensures r.Some? ==> previousPos == Some(pos) && lastMatch == Some(MatchData(Rest(), pattern(Rest()).value))
      ensures r.Some? ==> lastMatchPos == Some(pos + |r.value|)
    {
      var start := pos;
      r := ScanUntil(pattern);
      pos := start;
    }

    /**
     `skip_until(pattern)`: pass everything up to the end of the first match
     anywhere in the rest; the result is the character offset of the match
     end. Without a match the match state and the previous offset are cleared.
     */
    method SkipUntil(pattern: Regexp) returns (r: Option<nat>)
      modifies this
      requires Valid()
      ensures Valid() && str == old(str)
      ensures r.None? <==> pattern(old(Rest())).None?
      ensures r.None? ==> pos == old(pos) && previousPos == None && lastMatch == None && lastMatchPos == None
      ensures r.Some? ==> r.value == pattern(old(Rest())).value.end && previousPos == Some(old(pos))
      ensures r.Some? ==> old(pos) <= pos <= |str| && str[old(pos)..pos] == MatchedBytes(old(Rest()), r.value)
      ensures r.Some? ==> lastMatch == Some(MatchData(old(Rest()), pattern(old(Rest())).value))
      ensures r.Some? ==> lastMatchPos == Some(pos)
    {
      var previous := pos;
      var haystack := ByteSlice(str, pos, |str| - pos).value;
      var m := pattern(haystack);
      if m.None? {
        lastMatch := None;
        lastMatchPos := None;
        previousPos := None;
        return None;
      }
      var matchEnd := |MatchedBytes(haystack, m.value.end)|;
      pos := pos + matchEnd;
      previousPos := Some(previous);
      lastMatch := Some(MatchData(haystack, m.value));
      lastMatchPos := Some(pos);
      return Some(m.value.end);
    }

    /**
     `search_full(pattern, advance_pointer_p, return_string_p)`: like
     `scan_full` for a match anywhere in the rest, but the match state is
     left alone, and without a match nothing changes.
     */
    method SearchFull(pattern: Regexp, advance: bool, returnString: bool) returns (r: Option<ScanValue>)
      modifies this
      requires Valid()
      ensures Valid() && str == old(str)
      ensures lastMatch == old(lastMatch) && lastMatchPos == old(lastMatchPos)
      ensures r.None? <==> pattern(old(Rest())).None?
      ensures r.None? ==> pos == old(pos) && previousPos == old(previousPos)
      ensures r.Some? ==>
        var m := pattern(old(Rest()));
        var taken := MatchedBytes(old(Rest()), m.value.end);
        && pos == old(pos) + (if advance then |taken| else 0)
        && previousPos == Some(old(pos))
        && r.value == if returnString then Text(taken) else Offset(m.value.end)
    {
      var previous := pos;
      var haystack := ByteSlice(str, pos, |str| - pos).value;
      var m := pattern(haystack);
      if m.None? {
        return None;
      }
      var matchEnd := |MatchedBytes(haystack, m.value.end)|;
      if advance {
        pos := pos + matchEnd;
      }
      previousPos := Some(previous);
      if returnString {
        r := Some(Text(ByteSlice(str, previous, matchEnd).value));
      } else {
        r := Some(Offset(m.value.end));
      }
    }

    /**
     `match?(pattern)`: the length of the match at the offset, without
     moving. The match is recorded and `@last_match_pos` is put just past
     it, so that `post_match` gives the bytes after the match.
     */
    method Match(pattern: Regexp) returns (r: Option<nat>)
      modifies this
      requires Valid()
      ensures Valid() && str == old(str) && pos == old(pos) && previousPos == old(previousPos)
      ensures r.None? <==> AnchoredMatch(pattern, old(Rest())).None?
      ensures r.None? ==> lastMatch == None && lastMatchPos == None
      ensures r.Some? ==> r.value == pattern(old(Rest())).value.end
      ensures r.Some? ==> lastMatch == Some(MatchData(old(Rest()), pattern(old(Rest())).value))
      ensures r.Some? ==> PostMatch() == Some(old(Rest())[|MatchedBytes(old(Rest()), r.value)|..])
    {
      var haystack := ByteSlice(str, pos, |str| - pos).value;
      var m := pattern(haystack);
      if m.None? || m.value.begin > 0 {
        lastMatch := None;
        lastMatchPos := None;
        return None;
      }
      var matchEnd := |MatchedBytes(haystack, m.value.end)|;
      lastMatch := Some(MatchData(haystack, m.value));
      lastMatchPos := Some(pos + matchEnd);
      return Some(m.value.end - m.value.begin);
    }

    /**
     `match?(pattern)` as written: `@last_match_pos` is the old value (nil
     read as 0) plus the matched bytes, so it ignores the offset and grows
     with every call.
     */
    method MatchAsWritten(pattern: Regexp) returns (r: Option<nat>)
      modifies this
      requires Valid()
      ensures str == old(str) && pos == old(pos) && previousPos == old(previousPos)
      ensures r.None? <==> AnchoredMatch(pattern, old(Rest())).None?
      ensures r.None? ==> lastMatch == None && lastMatchPos == None
      ensures r.Some? ==> r.value == pattern(old(Rest())).value.end
      ensures r.Some? ==> lastMatch == Some(MatchData(old(Rest()), pattern(old(Rest())).value))
      ensures r.Some? ==> lastMatchPos == Some(MatchEndAsWritten(old(lastMatchPos), |MatchedBytes(old(Rest()), r.value)|))
    {
      var haystack := ByteSlice(str, pos, |str| - pos).value;
      var m := pattern(haystack);
      if m.None? || m.value.begin > 0 {
        lastMatch := None;
        lastMatchPos := None;
        return None;
      }
      lastMatch := Some(MatchData(haystack, m.value));
      lastMatchPos := Some(MatchEndAsWritten(lastMatchPos, |MatchedBytes(haystack, m.value.end)|));
      return Some(m.value.end - m.value.begin);
    }
  }

  /** `unscan` after a successful `scan` returns to where the scan started and forgets the match. */
  method ScanThenUnscan(s: StringScanner, pattern: Regexp) returns (scanned: Option<seq<byte>>, undone: Result<(), ScanException>)
    modifies s
    requires s.Valid()
    ensures s.Valid() && s.str == old(s.str)
    ensures scanned.Some? ==> undone == Ok(()) && s.pos == old(s.pos)
    ensures scanned.Some? ==> s.lastMatch == None && s.lastMatchPos == None && s.previousPos == None
    ensures scanned.None? ==> undone == Err(ScanError) && s.pos == old(s.pos)
  {
    scanned := s.Scan(pattern);
    undone := s.Unscan();
  }

  /**
   `check` answers what the following `scan` returns and leaves the same
   previous offset and match; only `@last_match_pos` differs, the offset
   before the match after `check` and the one after it after `scan`.
   */
  method CheckThenScan(s: StringScanner, pattern: Regexp)
    returns (checked: Option<seq<byte>>, checkedPrevious: Option<nat>, checkedMatch: Option<LastMatch>, scanned: Option<seq<byte>>)
    modifies s
    requires s.Valid()
    ensures s.Valid() && checked == scanned
    ensures s.previousPos == checkedPrevious && s.lastMatch == checkedMatch
    ensures scanned.Some? ==> s.pos == old(s.pos) + |scanned.value| && s.lastMatchPos == Some(s.pos)
    ensures scanned.None? ==> s.pos == old(s.pos) && s.lastMatchPos == None
  {
    checked := s.Check(pattern);
    checkedPrevious, checkedMatch := s.previousPos, s.lastMatch;
    scanned := s.Scan(pattern);
  }

  /** `pre_match` after a successful `scan` is everything before where the scan started. */
  method ScanThenPreMatch(s: StringScanner, pattern: Regexp) returns (scanned: Option<seq<byte>>, before: Option<seq<byte>>)
    modifies s
    requires s.Valid()
    ensures s.Valid() && s.str == old(s.str)
    ensures scanned.None? ==> before == None
    ensures scanned.Some? ==> before == Some(old(s.str)[..old(s.pos)])
  {
    var start, haystack := s.pos, s.Rest();
    scanned := s.Scan(pattern);
    if scanned.Some? {
      var span := pattern(haystack).value;
      MatchedBytesChars(haystack, span.end);
      assert Chars(haystack)[0..Min(span.end, CharCount(haystack))] == Chars(haystack)[..Min(span.end, CharCount(haystack))];
      assert MatchByteSize(s.lastMatch.value) == |scanned.value|;
    }
    before := s.PreMatch();
  }

  /**
   `check` records `@last_match_pos` at the offset, before the match, so on
   `ab` a `post_match` after `check(/a/)` gives `ab`, matched byte included.
   */
  method CheckThenPostMatch() returns (checked: Option<seq<byte>>, after: Option<seq<byte>>)
    ensures checked == Some([0x61])
    ensures after == Some([0x61, 0x62])
  {
    var s := new StringScanner([0x61, 0x62]);
    AsciiPrefix([0x61, 0x62]);
    checked := s.Check(LeadingA);
    after := s.PostMatch();
  }

  /** A pattern that matches one `a` at the start of the haystack. */
  function LeadingA(haystack: seq<byte>): Option<Span> {
    if |haystack| > 0 && haystack[0] == 0x61 then Some(Span(0, 1)) else None
  }

  /**
   On `abab` with the offset moved to 2, `match?(/a/)` as written leaves
   `@last_match_pos` at 1, so `post_match` gives `bab` where the bytes after
   the match are `b`; the corrected `match?` gives `b`.
   */
  method MatchAfterSetPos() returns (asWritten: Option<seq<byte>>, corrected: Option<seq<byte>>)
    ensures asWritten == Some([0x62, 0x61, 0x62])
    ensures corrected == Some([0x62])
  {
    var abab: seq<byte> := [0x61, 0x62, 0x61, 0x62];
    AsciiPrefix(abab[2..]);
    var s := new StringScanner(abab);
    var _ := s.SetPos(2);
    var found := s.MatchAsWritten(LeadingA);
    assert found == Some(1);
    asWritten := s.PostMatch();
    var t := new StringScanner(abab);
    var _ := t.SetPos(2);
    var _ := t.Match(LeadingA);
    corrected := t.PostMatch();
  }

  /** The first character of `ab` is its first byte. */
  lemma AsciiPrefix(s: seq<byte>)
    requires s == [0x61, 0x62]
    ensures MatchedBytes(s, 1) == [0x61]
  {
    assert DecodeUtf8(s).size == 1 && DecodeUtf8(s).ch.Some?;
    assert Utf8Str.CharPrefix(s, 1) == s[..1] + Utf8Str.CharPrefix(s[1..], 0);
  }
}
