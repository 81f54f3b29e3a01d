/**
 UTF-8 over raw bytes that may be ill-formed: the decoder, the encoder, and
 the "conventionally UTF-8" reading of a byte string as a sequence of
 characters, where a well-formed encoded scalar value is one character and
 every byte of an ill-formed subsequence is a character of its own.

 Decoding follows UTF-8 as defined in section 3 of RFC 3629 and the
 well-formed byte sequences of Table 3-7 of the Unicode Standard; an
 ill-formed prefix is reported with the length of its maximal subpart
 (Unicode Standard, section 3.9, "U+FFFD Substitution of Maximal Subparts").
 */
module Utf8 {
  import opened Wrappers
  import opened Ints

  predicate IsScalar(c: int) {
    0 <= c <= 0x10FFFF && !(0xD800 <= c <= 0xDFFF)
  }

  /** A Unicode scalar value: what a Rust `char` holds. */
  type Scalar = c: int | IsScalar(c) witness 0

  /** The result of decoding one character from the front of a byte string. */
  datatype Decoded = Decoded(ch: Option<Scalar>, size: nat)

  predicate IsAsciiByte(b: byte) { b <= 0x7F }

  predicate IsCont(b: byte) { 0x80 <= b <= 0xBF }

  /** The bytes allowed after lead byte `b0` (Table 3-7). */
  predicate InSecondRange(b0: byte, b1: byte) {
    if b0 == 0xE0 then 0xA0 <= b1 <= 0xBF
    else if b0 == 0xED then 0x80 <= b1 <= 0x9F
    else if b0 == 0xF0 then 0x90 <= b1 <= 0xBF
    else if b0 == 0xF4 then 0x80 <= b1 <= 0x8F
    else IsCont(b1)
  }

  // ---------------------------------------------------------------------
  // Decoding and encoding one scalar value

  /** The scalar values spelled by two, three and four bytes of Table 3-7. */
  function Cp2(b0: int, b1: int): int { (b0 - 0xC0) * 64 + (b1 - 0x80) }
  function Cp3(b0: int, b1: int, b2: int): int { (b0 - 0xE0) * 4096 + (b1 - 0x80) * 64 + (b2 - 0x80) }
  function Cp4(b0: int, b1: int, b2: int, b3: int): int {
    (b0 - 0xF0) * 262144 + (b1 - 0x80) * 4096 + (b2 - 0x80) * 64 + (b3 - 0x80)
  }

  /**
   `bstr::decode_utf8`: the first scalar value and its length, or, for an
   ill-formed prefix, None and the length of its maximal subpart (at least
   one byte); `(None, 0)` only for the empty string.
   */
  function DecodeUtf8(s: seq<byte>): Decoded {
    if |s| == 0 then Decoded(None, 0)
    else
      var b0: int := s[0];
      if b0 <= 0x7F then Decoded(Some(b0), 1)
      else if b0 < 0xC2 || b0 > 0xF4 then Decoded(None, 1)
      else if b0 <= 0xDF then
        if |s| >= 2 && IsCont(s[1]) then Decoded(Some(Cp2(b0, s[1])), 2)
        else Decoded(None, 1)
      else if b0 <= 0xEF then
        if |s| < 2 || !InSecondRange(b0, s[1]) then Decoded(None, 1)
        else if |s| < 3 || !IsCont(s[2]) then Decoded(None, 2)
        else Decoded(Some(Cp3(b0, s[1], s[2])), 3)
      else
        if |s| < 2 || !InSecondRange(b0, s[1]) then Decoded(None, 1)
        else if |s| < 3 || !IsCont(s[2]) then Decoded(None, 2)
        else if |s| < 4 || !IsCont(s[3]) then Decoded(None, 3)
        else Decoded(Some(Cp4(b0, s[1], s[2], s[3])), 4)
  }

  /** The UTF-8 encoding of a scalar value (RFC 3629, section 3). */
  function Encode(c: Scalar): (e: seq<byte>)
    ensures 1 <= |e| <= 4
  {
    assert IsScalar(c);
    if c < 0x80 then [c as byte]
    else if c < 0x800 then [(0xC0 + c / 64) as byte, (0x80 + c % 64) as byte]
    else if c < 0x10000 then
      [(0xE0 + c / 4096) as byte, (0x80 + (c / 64) % 64) as byte, (0x80 + c % 64) as byte]
    else
      [(0xF0 + c / 262144) as byte, (0x80 + (c / 4096) % 64) as byte,
       (0x80 + (c / 64) % 64) as byte, (0x80 + c % 64) as byte]
  }

  /** The base-64 digits of a number, as the encoder takes them apart. */
  lemma Base64Digits(c: nat)
    ensures c == (c / 64) * 64 + c % 64
    ensures c / 64 == (c / 4096) * 64 + (c / 64) % 64
    ensures c / 4096 == (c / 262144) * 64 + (c / 4096) % 64
  {
    var t := c / 64;
    DivModUnique(c, t / 64, (t % 64) * 64 + c % 64, 4096);
    var u := c / 4096;
    DivModUnique(c, u / 64, (u % 64) * 4096 + c % 4096, 262144);
  }

  /** Decoding the encoding of a scalar value gives it back, whatever follows. */
  lemma DecodeEncode(c: Scalar, rest: seq<byte>)
    ensures DecodeUtf8(Encode(c) + rest) == Decoded(Some(c), |Encode(c)|)
  {
    var s := Encode(c) + rest;
    var e := Encode(c);
    Base64Digits(c);
    assert s[0] == e[0];
    if c < 0x80 {
    } else if c < 0x800 {
      assert s[1] == e[1];
      assert Cp2(s[0], s[1]) == c;
    } else if c < 0x10000 {
      assert s[1] == e[1] && s[2] == e[2];
      var x, y, z := c / 4096, (c / 64) % 64, c % 64;
      assert c == x * 4096 + y * 64 + z;
      assert IsScalar(c);
      assert InSecondRange(s[0], s[1]);
      assert Cp3(s[0], s[1], s[2]) == c;
    } else {
      assert s[1] == e[1] && s[2] == e[2] && s[3] == e[3];
      var w, x, y, z := c / 262144, (c / 4096) % 64, (c / 64) % 64, c % 64;
      assert c == w * 262144 + x * 4096 + y * 64 + z;
      assert IsScalar(c);
      assert InSecondRange(s[0], s[1]);
      assert Cp4(s[0], s[1], s[2], s[3]) == c;
    }
  }

  /** Bytes of Table 3-7 spell their scalar value's encoding. */
  lemma Split3(x: int, y: int, z: int)
    requires 0 <= x && 0 <= y < 64 && 0 <= z < 64
    ensures var c := x * 4096 + y * 64 + z; c / 4096 == x && (c / 64) % 64 == y && c % 64 == z
  {
    var c := x * 4096 + y * 64 + z;
    DivModUnique(c, x, y * 64 + z, 4096);
    DivModUnique(c, x * 64 + y, z, 64);
    DivModUnique(x * 64 + y, x, y, 64);
  }

  lemma Split4(w: int, x: int, y: int, z: int)
    requires 0 <= w && 0 <= x < 64 && 0 <= y < 64 && 0 <= z < 64
    ensures var c := w * 262144 + x * 4096 + y * 64 + z;
      c / 262144 == w && (c / 4096) % 64 == x && (c / 64) % 64 == y && c % 64 == z
  {
    var c := w * 262144 + x * 4096 + y * 64 + z;
    DivModUnique(c, w, x * 4096 + y * 64 + z, 262144);
    DivModUnique(c, w * 64 + x, y * 64 + z, 4096);
    DivModUnique(w * 64 + x, w, x, 64);
    DivModUnique(c, w * 4096 + x * 64 + y, z, 64);
    DivModUnique(w * 4096 + x * 64 + y, w * 64 + x, y, 64);
  }

  /** A decoded scalar value is exactly what the consumed bytes encode. */
  lemma DecodeSound(s: seq<byte>)
    requires DecodeUtf8(s).ch.Some?
    ensures DecodeUtf8(s).size <= |s|
    ensures s[..DecodeUtf8(s).size] == Encode(DecodeUtf8(s).ch.value)
  {
    var d := DecodeUtf8(s);
    if d.size == 1 {
      assert s[..1] == [s[0]];
    } else if d.size == 2 {
      Encode2(s[0], s[1]);
      assert s[..2] == [s[0], s[1]];
    } else if d.size == 3 {
      Encode3(s[0], s[1], s[2]);
      assert s[..3] == [s[0], s[1], s[2]];
    } else {
      Encode4(s[0], s[1], s[2], s[3]);
      assert s[..4] == [s[0], s[1], s[2], s[3]];
    }
  }

  lemma Encode2(b0: byte, b1: byte)
    requires 0xC2 <= b0 <= 0xDF && IsCont(b1)
    ensures IsScalar(Cp2(b0, b1)) && Encode(Cp2(b0, b1)) == [b0, b1]
  {
    DivModUnique(Cp2(b0, b1), b0 - 0xC0, b1 - 0x80, 64);
  }

  lemma Encode3(b0: byte, b1: byte, b2: byte)
    requires 0xE0 <= b0 <= 0xEF && InSecondRange(b0, b1) && IsCont(b2)
    ensures IsScalar(Cp3(b0, b1, b2)) && Encode(Cp3(b0, b1, b2)) == [b0, b1, b2]
  {
    Split3(b0 - 0xE0, b1 - 0x80, b2 - 0x80);
  }

  lemma Encode4(b0: byte, b1: byte, b2: byte, b3: byte)
    requires 0xF0 <= b0 <= 0xF4 && InSecondRange(b0, b1) && IsCont(b2) && IsCont(b3)
    ensures IsScalar(Cp4(b0, b1, b2, b3)) && Encode(Cp4(b0, b1, b2, b3)) == [b0, b1, b2, b3]
  {
    var w, x, y, z := b0 - 0xF0, b1 - 0x80, b2 - 0x80, b3 - 0x80;
    var c := Cp4(b0, b1, b2, b3);
    assert c == w * 262144 + x * 4096 + y * 64 + z;
    Split4(w, x, y, z);
    assert 0x10000 <= c <= 0x10FFFF;
  }

  /** An ill-formed prefix has one to three bytes; nothing is consumed only at the end of input. */
  lemma DecodeInvalidSize(s: seq<byte>)
    requires DecodeUtf8(s).ch.None?
    ensures DecodeUtf8(s).size <= |s| && DecodeUtf8(s).size <= 3
    ensures DecodeUtf8(s).size == 0 <==> |s| == 0
  {
  }

  /** A reported ill-formed prefix of two or three bytes can still be completed to a well-formed sequence. */
  lemma InvalidPrefixCompletable(s: seq<byte>)
    requires DecodeUtf8(s).ch.None? && DecodeUtf8(s).size >= 2
    ensures DecodeUtf8(s[..DecodeUtf8(s).size] + [0x80, 0x80]).ch.Some?
  {
    var k := DecodeUtf8(s).size;
    var t := s[..k] + [0x80, 0x80];
    assert t[0] == s[0] && t[1] == s[1] && t[2] == (if k == 3 then s[2] else 0x80) && t[3] == 0x80;
  }

  /** One more byte cannot be part of a well-formed sequence: the reported prefix is maximal. */
  lemma InvalidPrefixMaximal(s: seq<byte>, t: seq<byte>)
    requires DecodeUtf8(s).ch.None? && DecodeUtf8(s).size < |s|
    ensures DecodeUtf8(s[..DecodeUtf8(s).size + 1] + t).ch.None?
  {
    var k := DecodeUtf8(s).size;
    var u := s[..k + 1] + t;
    assert u[0] == s[0];
    assert k >= 1 ==> u[1] == s[1] || k == 1;
    if k >= 1 {
      assert u[k] == s[k];
    }
    if k >= 2 {
      assert u[1] == s[1];
    }
    if k >= 3 {
      assert u[2] == s[2];
    }
  }

  // ---------------------------------------------------------------------
  // Conventionally UTF-8 characters

  /** Every byte of `s` as a one-byte character. */
  function SingleBytes(s: seq<byte>): (r: seq<seq<byte>>)
    ensures |r| == |s|
    ensures forall i :: 0 <= i < |s| ==> r[i] == [s[i]]
  {
    if |s| == 0 then [] else [[s[0]]] + SingleBytes(s[1..])
  }

  /**
   The characters of a conventionally UTF-8 byte string: each well-formed
   encoded scalar value, and each byte of every ill-formed maximal subpart.
   */
  function Chars(s: seq<byte>): seq<seq<byte>>
    decreases |s|
  {
    var d := DecodeUtf8(s);
    if d.size == 0 || d.size > |s| then []
    else if d.ch.Some? then [s[..d.size]] + Chars(s[d.size..])
    else SingleBytes(s[..d.size]) + Chars(s[d.size..])
  }

  /** The bytes of a sequence of characters, in order. */
  function Flatten(cs: seq<seq<byte>>): seq<byte> {
    if |cs| == 0 then [] else cs[0] + Flatten(cs[1..])
  }

  /** The number of characters of a conventionally UTF-8 byte string. */
  function CharCount(s: seq<byte>): nat {
    |Chars(s)|
  }

  /** A character is either a complete well-formed encoding or a single byte. */
  predicate IsCharPiece(piece: seq<byte>) {
    |piece| == 1 || (DecodeUtf8(piece).ch.Some? && DecodeUtf8(piece).size == |piece|)
  }

  lemma DecodeNonEmpty(s: seq<byte>)
    ensures |s| > 0 ==> 1 <= DecodeUtf8(s).size <= |s|
    ensures |s| == 0 ==> DecodeUtf8(s).size == 0
  {
    if |s| > 0 && DecodeUtf8(s).ch.Some? {
      DecodeSound(s);
    }
  }

  lemma {:induction false} FlattenAppend(a: seq<seq<byte>>, b: seq<seq<byte>>)
    ensures Flatten(a + b) == Flatten(a) + Flatten(b)
  {
    if |a| == 0 {
      assert a + b == b;
    } else {
      FlattenAppend(a[1..], b);
      assert (a + b)[0] == a[0];
      assert (a + b)[1..] == a[1..] + b;
      assert Flatten(a + b) == a[0] + Flatten(a[1..] + b);
      BytesAssoc(a[0], Flatten(a[1..]), Flatten(b));
    }
  }

  lemma {:induction false} FlattenSingleBytes(s: seq<byte>)
    ensures Flatten(SingleBytes(s)) == s
  {
    if |s| > 0 {
      FlattenSingleBytes(s[1..]);
      assert SingleBytes(s)[1..] == SingleBytes(s[1..]);
    }
  }

  /** The characters partition the bytes: concatenated, they are the string again. */
  lemma {:induction false} FlattenChars(s: seq<byte>)
    ensures Flatten(Chars(s)) == s
    decreases |s|
  {
    if |s| > 0 {
      var k := DecodeUtf8(s).size;
      FirstCharsSplit(s);
      FlattenChars(s[k..]);
      FlattenSplit(Chars(s), FirstChars(s), Chars(s[k..]), s, k);
    }
  }

  lemma FlattenSplit(cs: seq<seq<byte>>, front: seq<seq<byte>>, rest: seq<seq<byte>>, s: seq<byte>, k: nat)
    requires cs == front + rest && k <= |s|
    requires Flatten(front) == s[..k] && Flatten(rest) == s[k..]
    ensures Flatten(cs) == s
  {
    FlattenAppend(front, rest);
    assert s == s[..k] + s[k..];
  }

  /** There are never more characters than bytes, and none only for the empty string. */
  lemma {:induction false} CharCountBound(s: seq<byte>)
    ensures CharCount(s) <= |s|
    ensures CharCount(s) == 0 <==> |s| == 0
    decreases |s|
  {
    DecodeNonEmpty(s);
    if |s| > 0 {
      CharCountBound(s[DecodeUtf8(s).size..]);
    }
  }

  /** Each character is one complete well-formed encoding or exactly one byte. */
  lemma {:induction false} CharsArePieces(s: seq<byte>)
    ensures forall i :: 0 <= i < |Chars(s)| ==> IsCharPiece(Chars(s)[i])
    decreases |s|
  {
    var d := DecodeUtf8(s);
    DecodeNonEmpty(s);
    if |s| > 0 {
      CharsArePieces(s[d.size..]);
      if d.ch.Some? {
        DecodeSound(s);
        DecodeEncode(d.ch.value, []);
        assert Encode(d.ch.value) + [] == s[..d.size];
      }
    }
  }

  /** A leading ill-formed run of `size` bytes is `size` one-byte characters. */
  lemma InvalidRunChars(s: seq<byte>)
    requires DecodeUtf8(s).ch.None?
    ensures Chars(s) == SingleBytes(s[..DecodeUtf8(s).size]) + Chars(s[DecodeUtf8(s).size..])
  {
    DecodeNonEmpty(s);
  }

  /** A leading well-formed character is the first character. */
  lemma ValidCharChars(s: seq<byte>)
    requires DecodeUtf8(s).ch.Some?
    ensures Chars(s) == [s[..DecodeUtf8(s).size]] + Chars(s[DecodeUtf8(s).size..])
  {
    DecodeNonEmpty(s);
  }

  /** The characters that decoding the front of `s` yields at once: one well-formed character, or every byte of an ill-formed run. */
  function FirstChars(s: seq<byte>): (r: seq<seq<byte>>)
    requires |s| > 0
    ensures |r| == if DecodeUtf8(s).ch.Some? then 1 else DecodeUtf8(s).size
  {
    DecodeNonEmpty(s);
    var d := DecodeUtf8(s);
    if d.ch.Some? then [s[..d.size]] else SingleBytes(s[..d.size])
  }

  lemma FirstCharsSplit(s: seq<byte>)
    requires |s| > 0
    ensures 1 <= DecodeUtf8(s).size <= |s|
    ensures Chars(s) == FirstChars(s) + Chars(s[DecodeUtf8(s).size..])
    ensures Flatten(FirstChars(s)) == s[..DecodeUtf8(s).size]
    ensures DecodeUtf8(s).ch.None? ==> FirstChars(s) == SingleBytes(s[..DecodeUtf8(s).size])
  {
    DecodeNonEmpty(s);
    var d := DecodeUtf8(s);
    if d.ch.Some? {
      ValidCharChars(s);
      assert Flatten([s[..d.size]]) == s[..d.size] + [];
    } else {
      InvalidRunChars(s);
      FlattenSingleBytes(s[..d.size]);
    }
  }

  lemma CharsOfEncodePrefix(c: Scalar, rest: seq<byte>)
    ensures Chars(Encode(c) + rest) == [Encode(c)] + Chars(rest)
  {
    var s := Encode(c) + rest;
    DecodeEncode(c, rest);
    ValidCharChars(s);
    assert s[..|Encode(c)|] == Encode(c);
    assert s[|Encode(c)|..] == rest;
  }

  // ---------------------------------------------------------------------
  // ASCII

  predicate IsAscii(s: seq<byte>) {
    forall i :: 0 <= i < |s| ==> IsAsciiByte(s[i])
  }

  /** `find_non_ascii_byte`: the index of the first byte above 0x7F. */
  function FindNonAscii(s: seq<byte>): (r: Option<nat>)
    ensures r.None? <==> IsAscii(s)
    ensures r.Some? ==> r.value < |s| && !IsAsciiByte(s[r.value]) && IsAscii(s[..r.value])
  {
    if |s| == 0 then None
    else if !IsAsciiByte(s[0]) then Some(0)
    else
      var r := FindNonAscii(s[1..]);
      if r.None? then
        assert IsAscii(s) by {
          forall i | 0 <= i < |s| ensures IsAsciiByte(s[i]) {
            if i > 0 { assert s[i] == s[1..][i - 1]; }
          }
        }
        None
      else
        assert s[..r.value + 1] == [s[0]] + s[1..][..r.value];
        assert !IsAscii(s) by { assert s[r.value + 1] == s[1..][r.value]; }
        Some(r.value + 1)
  }

  /** A byte that is never part of a longer well-formed sequence at the front: ASCII, a continuation byte, or an impossible lead. */
  predicate IsLoneByte(b: byte) { b < 0xC2 || b > 0xF4 }

  lemma LoneByteChars(s: seq<byte>)
    requires |s| > 0 && IsLoneByte(s[0])
    ensures Chars(s) == [[s[0]]] + Chars(s[1..])
  {
    assert s[..1] == [s[0]];
    if IsAsciiByte(s[0]) {
      assert DecodeUtf8(s) == Decoded(Some(s[0]), 1);
      ValidCharChars(s);
    } else {
      assert DecodeUtf8(s) == Decoded(None, 1);
      InvalidRunChars(s);
      assert SingleBytes([s[0]]) == [[s[0]]];
    }
  }

  /** Over a run of lone bytes, characters are bytes. */
  lemma {:induction false} LoneBytePrefixChars(s: seq<byte>, k: nat)
    requires k <= |s|
    requires forall i :: 0 <= i < k ==> IsLoneByte(s[i])
    ensures Chars(s) == SingleBytes(s[..k]) + Chars(s[k..])
    decreases k
  {
    if k > 0 {
      var t := s[1..];
      LoneByteChars(s);
      forall i | 0 <= i < k - 1 ensures IsLoneByte(t[i]) {
        assert t[i] == s[i + 1];
      }
      LoneBytePrefixChars(t, k - 1);
      assert t[k - 1..] == s[k..];
      assert s[..k][1..] == t[..k - 1];
      assert SingleBytes(s[..k]) == [[s[0]]] + SingleBytes(t[..k - 1]);
      ConsAssoc([s[0]], SingleBytes(t[..k - 1]), Chars(s[k..]));
    } else {
      assert s[..0] == [] && s[0..] == s;
    }
  }

  /** Over an ASCII prefix, characters are bytes. */
  lemma AsciiPrefixChars(s: seq<byte>, k: nat)
    requires k <= |s| && IsAscii(s[..k])
    ensures Chars(s) == SingleBytes(s[..k]) + Chars(s[k..])
  {
    forall i | 0 <= i < k ensures IsLoneByte(s[i]) {
      assert s[i] == s[..k][i];
    }
    LoneBytePrefixChars(s, k);
  }

  /**
   Inside an ill-formed maximal subpart every byte after the first is a
   continuation byte, so decoding from the middle of it also gives one
   character per byte.
   */
  lemma InvalidRunSuffixChars(s: seq<byte>, j: nat)
    requires DecodeUtf8(s).ch.None? && 1 <= j <= DecodeUtf8(s).size
    ensures Chars(s[j..]) == SingleBytes(s[j..DecodeUtf8(s).size]) + Chars(s[DecodeUtf8(s).size..])
  {
    var k := DecodeUtf8(s).size;
    DecodeInvalidSize(s);
    var t := s[j..];
    forall i | 0 <= i < k - j ensures IsLoneByte(t[i]) {
      assert t[i] == s[i + j];
      assert 1 <= i + j < k;
      assert IsCont(s[i + j]);
    }
    LoneBytePrefixChars(t, k - j);
    assert t[..k - j] == s[j..k];
    assert t[k - j..] == s[k..];
  }

  /** On an ASCII string every byte is a character. */
  lemma AsciiChars(s: seq<byte>)
    requires IsAscii(s)
    ensures Chars(s) == SingleBytes(s)
  {
    AsciiPrefixChars(s, |s|);
    assert s[..|s|] == s;
    assert Chars(s[|s|..]) == [];
  }

  // ---------------------------------------------------------------------
  // Well-formed UTF-8

  /** The byte string is well-formed UTF-8 throughout. */
  predicate IsValidUtf8(s: seq<byte>)
    decreases |s|
  {
    |s| == 0 || (DecodeUtf8(s).ch.Some? && DecodeUtf8(s).size <= |s| && IsValidUtf8(s[DecodeUtf8(s).size..]))
  }

  /** The UTF-8 encoding of a sequence of scalar values. */
  function EncodeAll(cs: seq<Scalar>): seq<byte> {
    if |cs| == 0 then [] else Encode(cs[0]) + EncodeAll(cs[1..])
  }

  /** The scalar values of a well-formed byte string. */
  function DecodeAll(s: seq<byte>): seq<Scalar>
    requires IsValidUtf8(s)
    decreases |s|
  {
    if |s| == 0 then []
    else
      DecodeNonEmpty(s);
      var d := DecodeUtf8(s);
      [d.ch.value] + DecodeAll(s[d.size..])
  }

  /** Encoding scalar values gives well-formed UTF-8 that decodes back to them, one character each. */
  lemma {:induction false} EncodeAllRoundTrip(cs: seq<Scalar>)
    ensures IsValidUtf8(EncodeAll(cs))
    ensures DecodeAll(EncodeAll(cs)) == cs
    ensures Chars(EncodeAll(cs)) == seq(|cs|, i requires 0 <= i < |cs| => Encode(cs[i]))
  {
    if |cs| > 0 {
      EncodeAllRoundTrip(cs[1..]);
      var s := EncodeAll(cs);
      DecodeEncode(cs[0], EncodeAll(cs[1..]));
      assert s[|Encode(cs[0])|..] == EncodeAll(cs[1..]);
      CharsOfEncodePrefix(cs[0], EncodeAll(cs[1..]));
    }
  }

  /** Decoding well-formed UTF-8 and encoding the scalar values again gives the same bytes. */
  lemma {:induction false} DecodeAllRoundTrip(s: seq<byte>)
    requires IsValidUtf8(s)
    ensures EncodeAll(DecodeAll(s)) == s
    decreases |s|
  {
    if |s| > 0 {
      DecodeNonEmpty(s);
      var d := DecodeUtf8(s);
      var c, k := d.ch.value, d.size;
      DecodeAllStep(s);
      DecodeAllRoundTrip(s[k..]);
      DecodeSound(s);
      EncodeAllCons(c, DecodeAll(s[k..]), s, k);
    }
  }

  lemma EncodeAllCons(c: Scalar, cs: seq<Scalar>, s: seq<byte>, k: nat)
    requires k <= |s| && s[..k] == Encode(c) && s[k..] == EncodeAll(cs)
    ensures EncodeAll([c] + cs) == s
  {
    assert ([c] + cs)[1..] == cs;
    assert s == s[..k] + s[k..];
  }

  /** A well-formed string decodes to its first scalar value followed by the decoding of the rest. */
  lemma DecodeAllStep(s: seq<byte>)
    requires IsValidUtf8(s) && |s| > 0
    ensures DecodeUtf8(s).ch.Some? && 1 <= DecodeUtf8(s).size <= |s|
    ensures IsValidUtf8(s[DecodeUtf8(s).size..])
    ensures DecodeAll(s) == [DecodeUtf8(s).ch.value] + DecodeAll(s[DecodeUtf8(s).size..])
  {
    DecodeNonEmpty(s);
  }

  /** For well-formed UTF-8 the characters are the scalar values. */
  lemma ValidCharCount(s: seq<byte>)
    requires IsValidUtf8(s)
    ensures CharCount(s) == |DecodeAll(s)|
  {
    DecodeAllRoundTrip(s);
    EncodeAllRoundTrip(DecodeAll(s));
  }

  /** Putting an encoded scalar value in front keeps a string well-formed, and only then. */
  lemma ValidEncodePrefix(c: Scalar, r: seq<byte>)
    ensures IsValidUtf8(Encode(c) + r) <==> IsValidUtf8(r)
  {
    DecodeEncode(c, r);
    assert (Encode(c) + r)[|Encode(c)|..] == r;
  }

  /** A well-formed character decodes the same whatever follows it. */
  lemma DecodeExtend(s: seq<byte>, t: seq<byte>)
    requires DecodeUtf8(s).ch.Some?
    ensures DecodeUtf8(s + t) == DecodeUtf8(s)
  {
    var u := s + t;
    var k := DecodeUtf8(s).size;
    DecodeSound(s);
    assert u[0] == s[0];
    assert k >= 2 ==> u[1] == s[1];
    assert k >= 3 ==> u[2] == s[2];
    assert k >= 4 ==> u[3] == s[3];
  }

  lemma BytesAssoc(a: seq<byte>, b: seq<byte>, c: seq<byte>)
    ensures a + b + c == a + (b + c)
  {
  }

  lemma ConsAssoc(x: seq<byte>, ys: seq<seq<byte>>, zs: seq<seq<byte>>)
    ensures [x] + (ys + zs) == ([x] + ys) + zs
  {
  }

  /** Concatenating well-formed strings keeps the characters apart. */
  lemma {:induction false} ValidAppendChars(a: seq<byte>, b: seq<byte>)
    requires IsValidUtf8(a)
    ensures Chars(a + b) == Chars(a) + Chars(b)
    ensures IsValidUtf8(b) ==> IsValidUtf8(a + b)
    decreases |a|
  {
    if |a| == 0 {
      assert a + b == b;
    } else {
      var k := DecodeUtf8(a).size;
      DecodeNonEmpty(a);
      DecodeExtend(a, b);
      var r := a[k..];
      var x := a[..k];
      assert (a + b)[..k] == x;
      assert (a + b)[k..] == r + b;
      ValidCharChars(a);
      ValidCharChars(a + b);
      ValidAppendChars(r, b);
      ConsAssoc(x, Chars(r), Chars(b));
    }
  }

  // ---------------------------------------------------------------------
  // Counting without decoding

  /** `bytecount::num_chars`: the number of bytes that are not continuation bytes. */
  function NumChars(s: seq<byte>): nat {
    if |s| == 0 then 0 else (if IsCont(s[0]) then 0 else 1) + NumChars(s[1..])
  }

  lemma {:induction false} NumCharsAppend(a: seq<byte>, b: seq<byte>)
    ensures NumChars(a + b) == NumChars(a) + NumChars(b)
  {
    if |a| == 0 {
      assert a + b == b;
    } else {
      NumCharsAppend(a[1..], b);
      assert (a + b)[0] == a[0];
      assert (a + b)[1..] == a[1..] + b;
    }
  }

  lemma NumCharsEncode(c: Scalar)
    ensures NumChars(Encode(c)) == 1
  {
    var e := Encode(c);
    Base64Digits(c);
    assert !IsCont(e[0]);
    assert forall i :: 1 <= i < |e| ==> IsCont(e[i]);
    if |e| >= 2 {
      assert NumChars(e[1..]) == NumChars(e[1..][1..]);
    }
    if |e| >= 3 {
      assert NumChars(e[1..][1..]) == NumChars(e[1..][1..][1..]);
    }
    if |e| == 4 {
      assert NumChars(e[1..][1..][1..]) == NumChars(e[1..][1..][1..][1..]);
    }
  }

  /** On well-formed UTF-8, counting the bytes that are not continuation bytes counts the characters. */
  lemma {:induction false} ValidNumChars(s: seq<byte>)
    requires IsValidUtf8(s)
    ensures NumChars(s) == CharCount(s)
    decreases |s|
  {
    if |s| > 0 {
      DecodeNonEmpty(s);
      var d := DecodeUtf8(s);
      DecodeSound(s);
      ValidNumChars(s[d.size..]);
      assert s == Encode(d.ch.value) + s[d.size..];
      NumCharsAppend(Encode(d.ch.value), s[d.size..]);
      NumCharsEncode(d.ch.value);
      ValidCharChars(s);
    }
  }

  // ---------------------------------------------------------------------
  // Chunks of well-formed and ill-formed bytes (`utf8_chunks`)

  /** Length of the longest well-formed prefix. */
  function ValidPrefixLen(s: seq<byte>): (n: nat)
    ensures n <= |s| && IsValidUtf8(s[..n])
    decreases |s|
  {
    var d := DecodeUtf8(s);
    if |s| == 0 || d.ch.None? then
      assert s[..0] == [];
      0
    else
      DecodeNonEmpty(s);
      var m := ValidPrefixLen(s[d.size..]);
      ValidPrefixGrow(s, m);
      d.size + m
  }

  /** A well-formed character followed by a well-formed run is a well-formed prefix. */
  lemma ValidPrefixGrow(s: seq<byte>, m: nat)
    requires DecodeUtf8(s).ch.Some? && 1 <= DecodeUtf8(s).size <= |s|
    requires m <= |s| - DecodeUtf8(s).size && IsValidUtf8(s[DecodeUtf8(s).size..][..m])
    ensures IsValidUtf8(s[..DecodeUtf8(s).size + m])
  {
    var k := DecodeUtf8(s).size;
    var t := s[..k + m];
    DecodeTruncate(s, k + m);
    assert t[k..] == s[k..][..m];
  }

  /** Cutting the input after a well-formed character does not change how it decodes. */
  lemma DecodeTruncate(s: seq<byte>, j: nat)
    requires DecodeUtf8(s).ch.Some? && DecodeUtf8(s).size <= j <= |s|
    ensures DecodeUtf8(s[..j]) == DecodeUtf8(s)
  {
    var u := s[..j];
    var k := DecodeUtf8(s).size;
    DecodeNonEmpty(s);
    assert u[0] == s[0];
    assert k >= 2 ==> u[1] == s[1];
    assert k >= 3 ==> u[2] == s[2];
    assert k >= 4 ==> u[3] == s[3];
  }

  /** One chunk: a maximal well-formed run, then the ill-formed maximal subpart after it (if any). */
  datatype Chunk = Chunk(valid: seq<byte>, invalid: seq<byte>, rest: seq<byte>)

  function NextChunk(s: seq<byte>): (c: Chunk)
    requires |s| > 0
    ensures IsValidUtf8(c.valid)
    ensures c.valid + c.invalid + c.rest == s
    ensures |c.rest| < |s|
    ensures |c.invalid| <= 3
    ensures c.valid == s[..ValidPrefixLen(s)]
    ensures |c.rest| > 0 ==> c.invalid != []
    ensures c.invalid != [] ==>
      DecodeUtf8(c.invalid + c.rest) == Decoded(None, |c.invalid|)
  {
    var v := ValidPrefixLen(s);
    var k := if v == |s| then 0 else DecodeUtf8(s[v..]).size;
    ChunkBounds(s);
    SplitThree(s, v, v + k);
    Chunk(s[..v], s[v..v + k], s[v + k..])
  }

  /** Where the next chunk is cut: after the well-formed prefix and after the ill-formed subpart that stops it. */
  lemma ChunkBounds(s: seq<byte>)
    requires |s| > 0
    ensures var v := ValidPrefixLen(s);
      var k := if v == |s| then 0 else DecodeUtf8(s[v..]).size;
      && v + k <= |s| && 0 < v + k && k <= 3
      && (v + k < |s| ==> k > 0)
      && (k > 0 ==> DecodeUtf8(s[v..]) == Decoded(None, k))
  {
    ValidPrefixStop(s);
    assert s[0..] == s;
  }

  lemma SplitThree(s: seq<byte>, i: nat, j: nat)
    requires i <= j <= |s|
    ensures s[..i] + s[i..j] + s[j..] == s
    ensures s[i..j] + s[j..] == s[i..]
  {
    assert s[..i] + s[i..] == s;
    assert s[i..j] + s[j..] == s[i..];
    BytesAssoc(s[..i], s[i..j], s[j..]);
  }

  /** After the well-formed prefix comes an ill-formed maximal subpart of one to three bytes. */
  lemma ValidPrefixStop(s: seq<byte>)
    ensures var v := ValidPrefixLen(s);
      v < |s| ==>
        && DecodeUtf8(s[v..]).ch.None?
        && 1 <= DecodeUtf8(s[v..]).size <= 3
        && DecodeUtf8(s[v..]).size <= |s| - v
    ensures |s| > 0 ==> ValidPrefixLen(s) > 0 || DecodeUtf8(s).ch.None?
  {
    var v := ValidPrefixLen(s);
    if v < |s| {
      ValidPrefixExtends(s, v);
      DecodeInvalidSize(s[v..]);
    }
    if |s| > 0 && DecodeUtf8(s).ch.Some? {
      DecodeNonEmpty(s);
    }
  }

  /** The characters of a chunk: one per scalar value of its well-formed run, one per ill-formed byte. */
  lemma ChunkCharCount(s: seq<byte>)
    requires |s| > 0
    ensures CharCount(s) == NumChars(NextChunk(s).valid) + |NextChunk(s).invalid| + CharCount(NextChunk(s).rest)
  {
    var c := NextChunk(s);
    ChunkPartsCount(c.valid, c.invalid, c.rest);
  }

  lemma ChunkPartsCount(v: seq<byte>, inv: seq<byte>, rest: seq<byte>)
    requires IsValidUtf8(v)
    requires inv == [] ==> rest == []
    requires inv != [] ==> DecodeUtf8(inv + rest) == Decoded(None, |inv|)
    ensures CharCount(v + inv + rest) == NumChars(v) + |inv| + CharCount(rest)
  {
    var x := inv + rest;
    assert v + inv + rest == v + x;
    ValidAppendChars(v, x);
    ValidNumChars(v);
    if inv != [] {
      InvalidRunChars(x);
      assert x[..|inv|] == inv;
      assert x[|inv|..] == rest;
    } else {
      assert x == [];
    }
  }

  /** The well-formed prefix is maximal: no well-formed character follows it. */
  lemma ValidPrefixExtends(s: seq<byte>, v: nat)
    requires v == ValidPrefixLen(s) && v < |s|
    ensures DecodeUtf8(s[v..]).ch.None?
    decreases |s|
  {
    var d := DecodeUtf8(s);
    if d.ch.Some? {
      DecodeNonEmpty(s);
      ValidPrefixExtends(s[d.size..], v - d.size);
      assert s[d.size..][v - d.size..] == s[v..];
    }
  }

  // ---------------------------------------------------------------------
  // Character slicing specifications

  /** The bytes of characters `start` up to `end` (cut at the end of the string). */
  function CharSpan(s: seq<byte>, start: nat, end: nat): seq<byte>
    requires start <= end && start <= CharCount(s)
  {
    Flatten(Chars(s)[start..Min(end, CharCount(s))])
  }

  /** The characters of a string in reverse order, concatenated. */
  function ReverseChars(s: seq<byte>): seq<byte> {
    Flatten(Reversed(Chars(s)))
  }

  function Reversed<T>(xs: seq<T>): (r: seq<T>)
    ensures |r| == |xs|
    ensures forall i :: 0 <= i < |xs| ==> r[i] == xs[|xs| - 1 - i]
  {
    if |xs| == 0 then [] else Reversed(xs[1..]) + [xs[0]]
  }

  lemma ReversedReversed<T>(xs: seq<T>)
    ensures Reversed(Reversed(xs)) == xs
  {
  }

  /** On well-formed UTF-8, reversing by characters keeps the string well-formed and reverses its scalar values. */
  lemma ReverseValid(s: seq<byte>)
    requires IsValidUtf8(s)
    ensures IsValidUtf8(ReverseChars(s))
    ensures DecodeAll(ReverseChars(s)) == Reversed(DecodeAll(s))
  {
    var cs := DecodeAll(s);
    DecodeAllRoundTrip(s);
    EncodeAllRoundTrip(cs);
    EncodesReversed(cs);
    EncodeAllRoundTrip(Reversed(cs));
  }

  lemma EncodesReversed(cs: seq<Scalar>)
    ensures Flatten(Reversed(seq(|cs|, i requires 0 <= i < |cs| => Encode(cs[i]))))
      == EncodeAll(Reversed(cs))
  {
    var pieces := seq(|cs|, i requires 0 <= i < |cs| => Encode(cs[i]));
    var rcs := Reversed(cs);
    assert Reversed(pieces) == seq(|rcs|, i requires 0 <= i < |rcs| => Encode(rcs[i]));
    FlattenEncodes(rcs);
  }

  lemma {:induction false} FlattenEncodes(cs: seq<Scalar>)
    ensures Flatten(seq(|cs|, i requires 0 <= i < |cs| => Encode(cs[i]))) == EncodeAll(cs)
  {
    if |cs| > 0 {
      FlattenEncodes(cs[1..]);
      var pieces := seq(|cs|, i requires 0 <= i < |cs| => Encode(cs[i]));
      assert pieces[1..] == seq(|cs[1..]|, i requires 0 <= i < |cs[1..]| => Encode(cs[1..][i]));
    }
  }

  /** Reversing a well-formed string twice by characters gives it back. */
  lemma ReverseInvolution(s: seq<byte>)
    requires IsValidUtf8(s)
    ensures ReverseChars(ReverseChars(s)) == s
  {
    ReverseValid(s);
    ReverseValid(ReverseChars(s));
    ReversedReversed(DecodeAll(s));
    DecodeAllRoundTrip(ReverseChars(ReverseChars(s)));
    DecodeAllRoundTrip(s);
  }

  /** On ASCII, reversing by characters is reversing the bytes. */
  lemma ReverseAscii(s: seq<byte>)
    requires IsAscii(s)
    ensures ReverseChars(s) == Reversed(s)
  {
    AsciiChars(s);
    ReversedSingleBytes(s);
  }

  lemma {:induction false} ReversedSingleBytes(s: seq<byte>)
    ensures Flatten(Reversed(SingleBytes(s))) == Reversed(s)
  {
    if |s| > 0 {
      ReversedSingleBytes(s[1..]);
      assert SingleBytes(s)[1..] == SingleBytes(s[1..]);
      FlattenAppend(Reversed(SingleBytes(s[1..])), [[s[0]]]);
    }
  }

  lemma {:induction false} FlattenReversedMultiset(cs: seq<seq<byte>>)
    ensures multiset(Flatten(Reversed(cs))) == multiset(Flatten(cs))
  {
    if |cs| > 0 {
      FlattenReversedMultiset(cs[1..]);
      assert Reversed(cs) == Reversed(cs[1..]) + [cs[0]];
      FlattenAppend(Reversed(cs[1..]), [cs[0]]);
      assert Flatten([cs[0]]) == cs[0];
    }
  }

  /** Reversing by characters only reorders the bytes. */
  lemma ReverseCharsPermutes(s: seq<byte>)
    ensures multiset(ReverseChars(s)) == multiset(s)
  {
    FlattenReversedMultiset(Chars(s));
    FlattenChars(s);
  }

  // ---------------------------------------------------------------------
  // Appending scalar values

  lemma {:induction false} EncodeAllAppend(a: seq<Scalar>, b: seq<Scalar>)
    ensures EncodeAll(a + b) == EncodeAll(a) + EncodeAll(b)
  {
    if |a| == 0 {
      assert a + b == b;
    } else {
      var x := Encode(a[0]);
      assert (a + b)[0] == a[0];
      assert (a + b)[1..] == a[1..] + b;
      calc {
        EncodeAll(a + b);
        x + EncodeAll(a[1..] + b);
        { EncodeAllAppend(a[1..], b); }
        x + (EncodeAll(a[1..]) + EncodeAll(b));
        (x + EncodeAll(a[1..])) + EncodeAll(b);
      }
    }
  }

  /** Appending an encoded scalar value to well-formed UTF-8 appends exactly one character. */
  lemma PushScalar(a: seq<byte>, c: Scalar)
    requires IsValidUtf8(a)
    ensures IsValidUtf8(a + Encode(c))
    ensures DecodeAll(a + Encode(c)) == DecodeAll(a) + [c]
    ensures Chars(a + Encode(c)) == Chars(a) + [Encode(c)]
  {
    var cs := DecodeAll(a);
    DecodeAllRoundTrip(a);
    assert EncodeAll([c]) == Encode(c) + [];
    EncodeAllAppend(cs, [c]);
    EncodeAllRoundTrip(cs + [c]);
    EncodeAllRoundTrip([c]);
    ValidAppendChars(a, Encode(c));
    assert Chars(Encode(c)) == [Encode(c)] by {
      CharsOfEncodePrefix(c, []);
      assert Encode(c) + [] == Encode(c);
    }
  }

  lemma SingleBytesSlice(s: seq<byte>, i: nat, j: nat)
    requires i <= j <= |s|
    ensures SingleBytes(s)[i..j] == SingleBytes(s[i..j])
  {
  }
}
