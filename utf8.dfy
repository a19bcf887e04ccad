/** The byte view of a string, str::as_bytes, and the char view, str::chars:
    UTF-8 as section 3 of RFC 3629 defines it. A Dafny char is a Unicode
    scalar value, as a Rust char is, so a string here is what chars() yields
    and Encode gives the bytes that the string's storage holds. */
module Utf8 {

  type Byte = x: int | 0 <= x < 0x100

  datatype Option<T> = None | Some(value: T)

  /** A char decoded from the front of a byte sequence, with the number of bytes it took. */
  datatype Decoded = Decoded(c: char, size: nat)

  /** The number of bytes RFC 3629 uses for a scalar value. */
  function Width(c: char): nat
  {
    if c as int < 0x80 then 1 else if c as int < 0x800 then 2 else if c as int < 0x10000 then 3 else 4
  }

  predicate IsContinuation(b: Byte) { 0x80 <= b < 0xC0 }

  /** The UTF-8 encoding of one scalar value: one byte below U+0080, otherwise
      a lead byte carrying the high bits and continuation bytes of six bits each. */
  function EncodeChar(c: char): (r: seq<Byte>)
    ensures |r| == Width(c)
    ensures |r| == 1 <==> r[0] < 0x80
    ensures forall k :: 1 <= k < |r| ==> IsContinuation(r[k])
  {
    var v := c as int;
    if v < 0x80 then [v]
    else if v < 0x800 then [0xC0 + v / 0x40, 0x80 + v % 0x40]
    else if v < 0x10000 then [0xE0 + v / 0x1000, 0x80 + v / 0x40 % 0x40, 0x80 + v % 0x40]
    else [0xF0 + v / 0x40000, 0x80 + v / 0x1000 % 0x40, 0x80 + v / 0x40 % 0x40, 0x80 + v % 0x40]
  }

  /** The bytes of a string: the encodings of its chars, one after the other. */
  function Encode(s: string): (r: seq<Byte>)
    ensures |s| <= |r| <= 4 * |s|
  {
    if |s| == 0 then [] else EncodeChar(s[0]) + Encode(s[1..])
  }

  /** Decodes the char at the front of a non-empty byte sequence, or fails when
      the bytes there are not the RFC 3629 encoding of a scalar value (a stray
      continuation byte, a missing continuation byte, an overlong form, a
      surrogate, or a value above U+10FFFF). */
  function DecodeChar(s: seq<Byte>): (r: Option<Decoded>)
    requires |s| > 0
    ensures r.Some? ==> 1 <= r.value.size <= |s|
  {
    var b0: int := s[0];
    if b0 < 0x80 then Some(Decoded(b0 as char, 1))
    else if b0 < 0xC0 then None
    else if b0 < 0xE0 then
      if |s| < 2 || !IsContinuation(s[1]) then None
      else
        var v := (b0 - 0xC0) * 0x40 + (s[1] as int - 0x80);
        if v < 0x80 then None else Some(Decoded(v as char, 2))
    else if b0 < 0xF0 then
      if |s| < 3 || !IsContinuation(s[1]) || !IsContinuation(s[2]) then None
      else
        var v := (b0 - 0xE0) * 0x1000 + (s[1] as int - 0x80) * 0x40 + (s[2] as int - 0x80);
        if v < 0x800 || (0xD800 <= v < 0xE000) then None else Some(Decoded(v as char, 3))
    else if b0 < 0xF8 then
      if |s| < 4 || !IsContinuation(s[1]) || !IsContinuation(s[2]) || !IsContinuation(s[3]) then None
      else
        var v := (b0 - 0xF0) * 0x40000 + (s[1] as int - 0x80) * 0x1000 + (s[2] as int - 0x80) * 0x40 + (s[3] as int - 0x80);
        if v < 0x10000 || 0x110000 <= v then None else Some(Decoded(v as char, 4))
    else None
  }

  /** The chars of a byte sequence, or None when it is not well-formed UTF-8. */
  function Decode(s: seq<Byte>): Option<string>
    decreases |s|
  {
    if |s| == 0 then Some([])
    else match DecodeChar(s)
      case None => None
      case Some(d) =>
        match Decode(s[d.size..])
        case None => None
        case Some(t) => Some([d.c] + t)
  }

  lemma {:induction false} EncodeAppend(x: string, y: string)
    ensures Encode(x + y) == Encode(x) + Encode(y)
    decreases |x|
  {
    if |x| == 0 {
      assert x + y == y;
    } else {
      assert (x + y)[0] == x[0] && (x + y)[1..] == x[1..] + y;
      EncodeAppend(x[1..], y);
    }
  }

  /** Writing v as a quotient and remainder by 0x40 and reading it back. */
  lemma SixBits(q: int, r: int)
    requires 0 <= q && 0 <= r < 0x40
    ensures (q * 0x40 + r) / 0x40 == q && (q * 0x40 + r) % 0x40 == r
  {
  }

  /** Decoding the front of an encoded char gives the char back. */
  lemma DecodeEncodeChar(c: char, rest: seq<Byte>)
    ensures DecodeChar(EncodeChar(c) + rest) == Some(Decoded(c, Width(c)))
  {
    var v := c as int;
    var e := EncodeChar(c) + rest;
    assert e[..Width(c)] == EncodeChar(c);
    if v < 0x80 {
    } else if v < 0x800 {
      DecodeEncodeTwo(c, e);
    } else if v < 0x10000 {
      DecodeEncodeThree(c, e);
    } else {
      DecodeEncodeFour(c, e);
    }
  }

  // The two-, three- and four-byte cases of DecodeEncodeChar.

  lemma DecodeEncodeTwo(c: char, e: seq<Byte>)
    requires 0x80 <= c as int < 0x800 && |e| >= 2 && e[..2] == EncodeChar(c)
    ensures DecodeChar(e) == Some(Decoded(c, 2))
  {
  }

  lemma DecodeEncodeThree(c: char, e: seq<Byte>)
    requires 0x800 <= c as int < 0x10000 && |e| >= 3 && e[..3] == EncodeChar(c)
    ensures DecodeChar(e) == Some(Decoded(c, 3))
  {
  }

  lemma DecodeEncodeFour(c: char, e: seq<Byte>)
    requires 0x10000 <= c as int && |e| >= 4 && e[..4] == EncodeChar(c)
    ensures DecodeChar(e) == Some(Decoded(c, 4))
  {
    var v := c as int;
    var top, hi, mid, lo := v / 0x40000, v / 0x1000 % 0x40, v / 0x40 % 0x40, v % 0x40;
    assert e[0] == 0xF0 + top && e[1] == 0x80 + hi && e[2] == 0x80 + mid && e[3] == 0x80 + lo;
    assert v / 0x1000 == top * 0x40 + hi;
    assert v / 0x40 == (top * 0x40 + hi) * 0x40 + mid;
    assert top * 0x40000 + hi * 0x1000 + mid * 0x40 + lo == v;
  }

  /** Decode undoes Encode: every string survives the trip through its bytes. */
  lemma {:induction false} DecodeEncode(s: string)
    ensures Decode(Encode(s)) == Some(s)
    decreases |s|
  {
    if |s| > 0 {
      var e := Encode(s);
      DecodeEncodeChar(s[0], Encode(s[1..]));
      assert e[Width(s[0])..] == Encode(s[1..]);
      DecodeEncode(s[1..]);
      assert [s[0]] + s[1..] == s;
    }
  }

  /** A decoded char re-encodes to exactly the bytes it was decoded from. */
  lemma EncodeDecodeChar(s: seq<Byte>)
    requires |s| > 0 && DecodeChar(s).Some?
    ensures EncodeChar(DecodeChar(s).value.c) == s[..DecodeChar(s).value.size]
  {
    if s[0] < 0x80 {
      assert s[..1] == [s[0]];
    } else if s[0] < 0xE0 {
      EncodeDecodeTwo(s);
    } else if s[0] < 0xF0 {
      EncodeDecodeThree(s);
    } else {
      EncodeDecodeFour(s);
    }
  }

  // The two-, three- and four-byte cases of EncodeDecodeChar.

  lemma EncodeDecodeTwo(s: seq<Byte>)
    requires |s| > 0 && 0x80 <= s[0] < 0xE0 && DecodeChar(s).Some?
    ensures EncodeChar(DecodeChar(s).value.c) == s[..2]
  {
  }

  lemma EncodeDecodeThree(s: seq<Byte>)
    requires |s| > 0 && 0xE0 <= s[0] < 0xF0 && DecodeChar(s).Some?
    ensures EncodeChar(DecodeChar(s).value.c) == s[..3]
  {
  }

  lemma EncodeDecodeFour(s: seq<Byte>)
    requires |s| > 0 && 0xF0 <= s[0] && DecodeChar(s).Some?
    ensures EncodeChar(DecodeChar(s).value.c) == s[..4]
  {
    var v := DecodeChar(s).value.c as int;
    var b0: int, x1: int, x2: int, x3: int := s[0], s[1] - 0x80, s[2] - 0x80, s[3] - 0x80;
    SixBits(((b0 - 0xF0) * 0x40 + x1) * 0x40 + x2, x3);
    SixBits((b0 - 0xF0) * 0x40 + x1, x2);
    SixBits(b0 - 0xF0, x1);
    assert v / 0x40 == ((b0 - 0xF0) * 0x40 + x1) * 0x40 + x2;
    assert v / 0x1000 == (b0 - 0xF0) * 0x40 + x1;
    assert v / 0x40000 == b0 - 0xF0;
    assert s[..4] == [s[0], s[1], s[2], s[3]];
  }

  /** A well-formed byte sequence is a well-formed char followed by a well-formed rest. */
  lemma DecodeFront(s: seq<Byte>)
    requires |s| > 0 && Decode(s).Some?
    ensures DecodeChar(s).Some?
    ensures Decode(s[DecodeChar(s).value.size..]).Some?
    ensures Decode(s).value == [DecodeChar(s).value.c] + Decode(s[DecodeChar(s).value.size..]).value
  {
  }

  lemma EncodeCons(c: char, t: string)
    ensures Encode([c] + t) == EncodeChar(c) + Encode(t)
  {
    assert ([c] + t)[0] == c && ([c] + t)[1..] == t;
  }

  /** If the rest after the first char re-encodes to itself, so does the whole. */
  lemma EncodeDecodeStep(s: seq<Byte>)
    requires |s| > 0 && Decode(s).Some?
    requires DecodeChar(s).Some?
    requires Decode(s[DecodeChar(s).value.size..]).Some?
    requires Encode(Decode(s[DecodeChar(s).value.size..]).value) == s[DecodeChar(s).value.size..]
    ensures Encode(Decode(s).value) == s
  {
    DecodeFront(s);
    var d := DecodeChar(s).value;
    EncodeDecodeChar(s);
    EncodeCons(d.c, Decode(s[d.size..]).value);
    assert s == s[..d.size] + s[d.size..];
  }

  /** Encode undoes Decode: only the canonical encoding of a string decodes to it. */
  lemma {:induction false} EncodeDecode(s: seq<Byte>)
    requires Decode(s).Some?
    ensures Encode(Decode(s).value) == s
    decreases |s|
  {
    if |s| > 0 {
      DecodeFront(s);
      EncodeDecode(s[DecodeChar(s).value.size..]);
      EncodeDecodeStep(s);
    }
  }

  ghost predicate IsAscii(s: string)
  {
    forall i :: 0 <= i < |s| ==> s[i] as int < 0x80
  }

  /** An ASCII string is its own byte sequence: one byte per char, of the same value. */
  lemma {:induction false} EncodeAscii(s: string)
    requires IsAscii(s)
    ensures |Encode(s)| == |s|
    ensures forall i :: 0 <= i < |s| ==> Encode(s)[i] == s[i] as int
    decreases |s|
  {
    if |s| > 0 {
      EncodeAscii(s[1..]);
    }
  }
}
