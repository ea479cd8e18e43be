/** The text codecs: lowercase base16, base64url without padding, and the text form of a UUID. */
module Codecs {
  import opened Basics

  // ---- digits -----------------------------------------------------------

  function HexDigit(v: nat): (c: char)
    requires v < 16
    ensures HexValue(c) == v
  {
    if v < 10 then '0' + v as char else 'a' + (v - 10) as char
  }

  /** The decoding table: 16 for a character that is no digit. */
  function HexValue(c: char): (v: nat)
    ensures v <= 16
  {
    if '0' <= c <= '9' then (c - '0') as nat
    else if 'a' <= c <= 'f' then (c - 'a') as nat + 10
    else 16
  }

  function Base64Digit(v: nat): (c: char)
    requires v < 64
    ensures Base64Value(c) == v
  {
    if v < 26 then 'A' + v as char
    else if v < 52 then 'a' + (v - 26) as char
    else if v < 62 then '0' + (v - 52) as char
    else if v == 62 then '-' else '_'
  }

  /** The decoding table: 64 for a character that is no digit. */
  function Base64Value(c: char): (v: nat)
    ensures v <= 64
  {
    if 'A' <= c <= 'Z' then (c - 'A') as nat
    else if 'a' <= c <= 'z' then (c - 'a') as nat + 26
    else if '0' <= c <= '9' then (c - '0') as nat + 52
    else if c == '-' then 62
    else if c == '_' then 63
    else 64
  }

  /** The digits of section 8 of RFC 4648, in lower case. */
  const HEX_DIGITS: string := "0123456789abcdef"

  lemma HexDigitIs(v: nat)
    requires v < 16
    ensures HexDigit(v) == HEX_DIGITS[v]
  {
  }

  /** The alphabet of section 5 of RFC 4648, in four parts. */
  lemma Base64DigitIs(v: nat)
    requires v < 16
    ensures Base64Digit(v) == "ABCDEFGHIJKLMNOP"[v] && Base64Digit(16 + v) == "QRSTUVWXYZabcdef"[v]
    ensures Base64Digit(32 + v) == "ghijklmnopqrstuv"[v] && Base64Digit(48 + v) == "wxyz0123456789-_"[v]
  {
    FirstDigits(v);
    LastDigits(v);
  }

  lemma FirstDigits(v: nat)
    requires v < 16
    ensures Base64Digit(v) == "ABCDEFGHIJKLMNOP"[v] && Base64Digit(16 + v) == "QRSTUVWXYZabcdef"[v]
  {
  }

  lemma LastDigits(v: nat)
    requires v < 16
    ensures Base64Digit(32 + v) == "ghijklmnopqrstuv"[v] && Base64Digit(48 + v) == "wxyz0123456789-_"[v]
  {
  }

  lemma HexDigitOfValue(c: char)
    requires HexValue(c) < 16
    ensures HexDigit(HexValue(c)) == c
  {
  }

  lemma Base64DigitOfValue(c: char)
    requires Base64Value(c) < 64
    ensures Base64Digit(Base64Value(c)) == c
  {
  }

  // ---- blocks -----------------------------------------------------------

  function HexPair(b: Byte): (s: string)
    ensures |s| == 2
  {
    [HexDigit(b as nat / 16), HexDigit(b as nat % 16)]
  }

  function HexByte(s: string): (r: Option<Byte>)
    requires |s| == 2
  {
    var a, b := HexValue(s[0]), HexValue(s[1]);
    if a == 16 || b == 16 then None else Some((a * 16 + b) as Byte)
  }

  lemma HexBlocks(b: Byte, s: string)
    requires |s| == 2
    ensures HexByte(s) == Some(b) <==> s == HexPair(b)
  {
    var x, y := HexValue(s[0]), HexValue(s[1]);
    if HexByte(s) == Some(b) {
      assert b as nat / 16 == x && b as nat % 16 == y;
      HexDigitOfValue(s[0]);
      HexDigitOfValue(s[1]);
    }
    if s == HexPair(b) {
      assert x == b as nat / 16 && y == b as nat % 16;
    }
  }

  /** Three bytes as a 24-bit number, in four digits. */
  function Quad(b: seq<Byte>): (s: string)
    requires |b| == 3
    ensures |s| == 4
  {
    var bits := b[0] as nat * 65536 + b[1] as nat * 256 + b[2] as nat;
    [Base64Digit(bits / 262144), Base64Digit(bits / 4096 % 64), Base64Digit(bits / 64 % 64), Base64Digit(bits % 64)]
  }

  function Triple(s: string): (r: Option<seq<Byte>>)
    requires |s| == 4
    ensures r.Some? ==> |r.value| == 3
  {
    var v0, v1, v2, v3 := Base64Value(s[0]), Base64Value(s[1]), Base64Value(s[2]), Base64Value(s[3]);
    if v0 == 64 || v1 == 64 || v2 == 64 || v3 == 64 then None
    else
      var bits := v0 * 262144 + v1 * 4096 + v2 * 64 + v3;
      Some([(bits / 65536) as Byte, (bits / 256 % 256) as Byte, (bits % 256) as Byte])
  }

  lemma SixBits(bits: nat, v0: nat, v1: nat, v2: nat, v3: nat)
    requires v0 < 64 && v1 < 64 && v2 < 64 && v3 < 64
    requires bits == v0 * 262144 + v1 * 4096 + v2 * 64 + v3
    ensures bits / 262144 == v0 && bits / 4096 % 64 == v1 && bits / 64 % 64 == v2 && bits % 64 == v3
  {
    assert bits / 4096 == v0 * 64 + v1;
    assert bits / 64 == v0 * 4096 + v1 * 64 + v2;
  }

  lemma EightBits(bits: nat, b0: nat, b1: nat, b2: nat)
    requires b0 < 256 && b1 < 256 && b2 < 256
    requires bits == b0 * 65536 + b1 * 256 + b2
    ensures bits / 65536 == b0 && bits / 256 % 256 == b1 && bits % 256 == b2
  {
    assert bits / 256 == b0 * 256 + b1;
  }

  lemma SixBitsWhole(bits: nat)
    requires bits < 16777216
    ensures bits == bits / 262144 * 262144 + bits / 4096 % 64 * 4096 + bits / 64 % 64 * 64 + bits % 64
  {
    assert bits / 64 / 64 == bits / 4096;
    assert bits / 4096 / 64 == bits / 262144;
  }

  lemma EightBitsWhole(bits: nat)
    ensures bits == bits / 65536 * 65536 + bits / 256 % 256 * 256 + bits % 256
  {
    assert bits / 256 / 256 == bits / 65536;
  }

  lemma TripleOfQuad(b: seq<Byte>)
    requires |b| == 3
    ensures Triple(Quad(b)) == Some(b)
  {
    var bits := b[0] as nat * 65536 + b[1] as nat * 256 + b[2] as nat;
    SixBitsWhole(bits);
    EightBits(bits, b[0] as nat, b[1] as nat, b[2] as nat);
    assert Triple(Quad(b)).value == b;
  }

  lemma QuadOfTriple(s: string)
    requires |s| == 4 && Triple(s).Some?
    ensures Quad(Triple(s).value) == s
  {
    var v0, v1, v2, v3 := Base64Value(s[0]), Base64Value(s[1]), Base64Value(s[2]), Base64Value(s[3]);
    var bits := v0 * 262144 + v1 * 4096 + v2 * 64 + v3;
    EightBitsWhole(bits);
    SixBits(bits, v0, v1, v2, v3);
    Base64DigitOfValue(s[0]);
    Base64DigitOfValue(s[1]);
    Base64DigitOfValue(s[2]);
    Base64DigitOfValue(s[3]);
  }

  // ---- whole texts ------------------------------------------------------

  /** A text of `len` elements is a whole number of blocks. */
  predicate Whole(n: nat, len: nat)
    requires n > 0
  {
    len == 0 || (n <= len && Whole(n, len - n))
  }

  /** Every block of `n` elements encoded, in order. */
  function Encoded<B, C>(enc: seq<B> -> seq<C>, n: nat, b: seq<B>): (s: seq<C>)
    requires n > 0
    decreases |b|
  {
    if |b| < n then []
    else
      var k := |b| - n;
      Encoded(enc, n, b[..k]) + enc(b[k..])
  }

  /** Every block of `m` elements decoded, in order; nothing when one of them is bad. */
  function Decoded<B, C>(dec: seq<C> -> Option<seq<B>>, m: nat, s: seq<C>): (r: Option<seq<B>>)
    requires m > 0
    decreases |s|
  {
    if |s| < m then (if s == [] then Some([]) else None)
    else
      var k := |s| - m;
      match Decoded(dec, m, s[..k])
      case None => None
      case Some(b) => match dec(s[k..]) case None => None case Some(x) => Some(b + x)
  }

  /** Decoding gives an encoded block back. */
  ghost predicate GivesBack<B, C>(enc: seq<B> -> seq<C>, dec: seq<C> -> Option<seq<B>>, m: nat, b: seq<B>)
  {
    |enc(b)| == m && dec(enc(b)) == Some(b)
  }

  /** A block that can be decoded is the encoding of what it gives. */
  ghost predicate IsImage<B, C>(enc: seq<B> -> seq<C>, n: nat, dec: seq<C> -> Option<seq<B>>, s: seq<C>)
  {
    dec(s).Some? ==> |dec(s).value| == n && enc(dec(s).value) == s
  }

  /** The two directions of one block: `n` elements against `m`. */
  ghost predicate BlockCodec<B(!new), C(!new)>(enc: seq<B> -> seq<C>, n: nat, dec: seq<C> -> Option<seq<B>>, m: nat)
  {
    && n > 0 && m > 0
    && (forall b {:trigger GivesBack(enc, dec, m, b)} :: |b| == n ==> GivesBack(enc, dec, m, b))
    && (forall s {:trigger IsImage(enc, n, dec, s)} :: |s| == m ==> IsImage(enc, n, dec, s))
  }

  lemma {:induction false} DecodedOfEncoded<B(!new), C(!new)>(enc: seq<B> -> seq<C>, n: nat, dec: seq<C> -> Option<seq<B>>, m: nat, b: seq<B>)
    requires BlockCodec(enc, n, dec, m) && Whole(n, |b|)
    ensures Decoded(dec, m, Encoded(enc, n, b)) == Some(b)
    decreases |b|
  {
    if b != [] {
      var k := |b| - n;
      DecodedOfEncoded(enc, n, dec, m, b[..k]);
      var s := Encoded(enc, n, b);
      assert GivesBack(enc, dec, m, b[k..]);
      assert s[..|s| - m] == Encoded(enc, n, b[..k]) && s[|s| - m..] == enc(b[k..]);
      assert b == b[..k] + b[k..];
    }
  }

  lemma {:induction false} EncodedOfDecoded<B(!new), C(!new)>(enc: seq<B> -> seq<C>, n: nat, dec: seq<C> -> Option<seq<B>>, m: nat, s: seq<C>, b: seq<B>)
    requires BlockCodec(enc, n, dec, m) && Decoded(dec, m, s) == Some(b)
    ensures Whole(n, |b|)
    ensures Encoded(enc, n, b) == s
    decreases |s|
  {
    if |s| >= m {
      var head, last := s[..|s| - m], s[|s| - m..];
      assert s == head + last;
      var b', x := Decoded(dec, m, head).value, dec(last).value;
      EncodedOfDecoded(enc, n, dec, m, head, b');
      assert IsImage(enc, n, dec, last);
      WholeNext(n, |b'|);
      EncodedNext(enc, n, b', x);
    }
  }

  lemma WholeNext(n: nat, len: nat)
    requires n > 0 && Whole(n, len)
    ensures Whole(n, len + n)
  {
  }

  /** Decoding accepts exactly what encoding produces, and gives the bytes back. */
  lemma CodecInverse<B(!new), C(!new)>(enc: seq<B> -> seq<C>, n: nat, dec: seq<C> -> Option<seq<B>>, m: nat, b: seq<B>, s: seq<C>)
    requires BlockCodec(enc, n, dec, m) && Whole(n, |b|)
    ensures Decoded(dec, m, s) == Some(b) <==> s == Encoded(enc, n, b)
  {
    DecodedOfEncoded(enc, n, dec, m, b);
    if Decoded(dec, m, s) == Some(b) {
      EncodedOfDecoded(enc, n, dec, m, s, b);
    }
  }

  // ---- the loops --------------------------------------------------------

  lemma EncodedNext<B, C>(enc: seq<B> -> seq<C>, n: nat, b: seq<B>, x: seq<B>)
    requires n > 0 && |x| == n
    ensures Encoded(enc, n, b + x) == Encoded(enc, n, b) + enc(x)
  {
    assert (b + x)[..|b|] == b && (b + x)[|b|..] == x;
  }

  /** A text with a bad block somewhere is bad. */
  lemma {:induction false} BadPrefix<B, C>(dec: seq<C> -> Option<seq<B>>, m: nat, s: seq<C>, t: seq<C>)
    requires m > 0 && Whole(m, |t|) && Decoded(dec, m, s).None?
    ensures Decoded(dec, m, s + t).None?
    decreases |t|
  {
    if t != [] {
      var k := |t| - m;
      BadPrefix(dec, m, s, t[..k]);
      assert (s + t)[..|s| + k] == s + t[..k];
    } else {
      assert s + t == s;
    }
  }

  lemma DecodedNext<B, C>(dec: seq<C> -> Option<seq<B>>, m: nat, s: seq<C>, x: seq<C>)
    requires m > 0 && |x| == m && Decoded(dec, m, s).Some?
    ensures Decoded(dec, m, s + x) ==
            match dec(x) case None => None case Some(y) => Some(Decoded(dec, m, s).value + y)
  {
    assert (s + x)[..|s|] == s && (s + x)[|s|..] == x;
  }

  /** What the block at `i` does to the decoding. */
  lemma DecodedAt<B, C>(dec: seq<C> -> Option<seq<B>>, m: nat, src: seq<C>, i: nat)
    requires 0 < m && i + m <= |src| && Whole(m, |src| - (i + m)) && Decoded(dec, m, src[..i]).Some?
    ensures dec(src[i..i + m]).None? ==> Decoded(dec, m, src).None?
    ensures dec(src[i..i + m]).Some? ==>
              Decoded(dec, m, src[..i + m]) == Some(Decoded(dec, m, src[..i]).value + dec(src[i..i + m]).value)
  {
    DecodedNext(dec, m, src[..i], src[i..i + m]);
    assert src[..i + m] == src[..i] + src[i..i + m];
    if dec(src[i..i + m]).None? {
      BadPrefix(dec, m, src[..i + m], src[i + m..]);
      assert src == src[..i + m] + src[i + m..];
    }
  }

  /** The loop of the encoders. */
  method EncodeBlocks<B, C>(enc: seq<B> -> seq<C>, n: nat, src: seq<B>) returns (dst: seq<C>)
    requires n > 0 && Whole(n, |src|)
    ensures dst == Encoded(enc, n, src)
  {
    dst := [];
    var i := 0;
    while i < |src|
      invariant i <= |src| && Whole(n, |src| - i)
      invariant dst == Encoded(enc, n, src[..i])
    {
      var block := src[i..i + n];
      EncodedNext(enc, n, src[..i], block);
      assert src[..i + n] == src[..i] + block;
      dst := dst + enc(block);
      i := i + n;
    }
    assert src[..i] == src;
  }

  /** The loop of the decoders, which give up at the first bad block. */
  method DecodeBlocks<B, C>(dec: seq<C> -> Option<seq<B>>, m: nat, src: seq<C>) returns (r: Option<seq<B>>)
    requires m > 0 && Whole(m, |src|)
    ensures r == Decoded(dec, m, src)
  {
    var dst := [];
    var i := 0;
    while i < |src|
      invariant i <= |src| && Whole(m, |src| - i)
      invariant Decoded(dec, m, src[..i]) == Some(dst)
    {
      var x := dec(src[i..i + m]);
      DecodedAt(dec, m, src, i);
      if x.None? {
        return None;
      }
      dst := dst + x.value;
      i := i + m;
    }
    assert src[..i] == src;
    return Some(dst);
  }

  // ---- the two codecs ---------------------------------------------------

  function EncodePair(b: seq<Byte>): (s: string)
  {
    if |b| == 1 then HexPair(b[0]) else []
  }

  function DecodePair(s: string): (r: Option<seq<Byte>>)
  {
    if |s| != 2 then None else match HexByte(s) case None => None case Some(b) => Some([b])
  }

  lemma HexCodec()
    ensures BlockCodec(EncodePair, 1, DecodePair, 2)
  {
    forall b | |b| == 1 ensures GivesBack(EncodePair, DecodePair, 2, b) {
      HexBlocks(b[0], HexPair(b[0]));
      assert [b[0]] == b;
    }
    forall s | |s| == 2 ensures IsImage(EncodePair, 1, DecodePair, s) {
      if HexByte(s).Some? {
        HexBlocks(HexByte(s).value, s);
      }
    }
  }

  function EncodeTriple(b: seq<Byte>): (s: string)
  {
    if |b| == 3 then Quad(b) else []
  }

  function DecodeQuad(s: string): (r: Option<seq<Byte>>)
  {
    if |s| == 4 then Triple(s) else None
  }

  lemma Base64Codec()
    ensures BlockCodec(EncodeTriple, 3, DecodeQuad, 4)
  {
    forall b | |b| == 3 ensures GivesBack(EncodeTriple, DecodeQuad, 4, b) {
      TripleOfQuad(b);
    }
    forall s | |s| == 4 ensures IsImage(EncodeTriple, 3, DecodeQuad, s) {
      if Triple(s).Some? {
        QuadOfTriple(s);
      }
    }
  }

  function Base16(b: seq<Byte>): (s: string)
  {
    Encoded(EncodePair, 1, b)
  }

  function UnBase16(s: string): (r: Option<seq<Byte>>)
  {
    Decoded(DecodePair, 2, s)
  }

  function Base64(b: seq<Byte>): (s: string)
  {
    Encoded(EncodeTriple, 3, b)
  }

  function UnBase64(s: string): (r: Option<seq<Byte>>)
  {
    Decoded(DecodeQuad, 4, s)
  }

  /** Base16 decoding accepts exactly what encoding produces. */
  lemma Base16Inverse(b: seq<Byte>, s: string)
    ensures UnBase16(s) == Some(b) <==> s == Base16(b)
  {
    HexCodec();
    WholeOnes(|b|);
    CodecInverse(EncodePair, 1, DecodePair, 2, b, s);
  }

  lemma {:induction false} WholeOnes(n: nat)
    ensures Whole(1, n)
  {
    if n > 0 {
      WholeOnes(n - 1);
    }
  }

  /** Base64url decoding accepts exactly what encoding whole triples of bytes produces. */
  lemma Base64Inverse(b: seq<Byte>, s: string)
    requires Whole(3, |b|)
    ensures UnBase64(s) == Some(b) <==> s == Base64(b)
  {
    Base64Codec();
    CodecInverse(EncodeTriple, 3, DecodeQuad, 4, b, s);
  }

  /** Whatever base64url decoding accepts is the encoding of what it gives. */
  lemma Base64Image(s: string)
    requires UnBase64(s).Some?
    ensures Whole(3, |UnBase64(s).value|) && s == Base64(UnBase64(s).value)
  {
    Base64Codec();
    EncodedOfDecoded(EncodeTriple, 3, DecodeQuad, 4, s, UnBase64(s).value);
  }

  lemma {:induction false} Base16Length(b: seq<Byte>)
    ensures |Base16(b)| == 2 * |b|
  {
    if b != [] {
      Base16Length(b[..|b| - 1]);
    }
  }

  /** `base16_encode`. */
  method Base16Encode(src: seq<Byte>) returns (dst: string)
    ensures dst == Base16(src)
  {
    WholeOnes(|src|);
    dst := EncodeBlocks(EncodePair, 1, src);
  }

  /** `base16_decode`. */
  method Base16Decode(src: string) returns (r: Option<seq<Byte>>)
    requires Whole(2, |src|)
    ensures r == UnBase16(src)
  {
    r := DecodeBlocks(DecodePair, 2, src);
  }

  /** `base64url_encode_nopad`. */
  method Base64Encode(src: seq<Byte>) returns (dst: string)
    requires Whole(3, |src|)
    ensures dst == Base64(src)
  {
    dst := EncodeBlocks(EncodeTriple, 3, src);
  }

  /** `base64url_decode_nopad`. */
  method Base64Decode(src: string) returns (r: Option<seq<Byte>>)
    requires Whole(4, |src|)
    ensures r == UnBase64(src)
  {
    r := DecodeBlocks(DecodeQuad, 4, src);
  }

  // ---- texts as numbers -------------------------------------------------

  /** The number with digits `d` in a base, the most significant first. */
  function Number(base: nat, d: seq<nat>): (n: nat)
  {
    if d == [] then 0 else Number(base, d[..|d| - 1]) * base + d[|d| - 1]
  }

  function Bytes(b: seq<Byte>): (d: seq<nat>)
    ensures |d| == |b| && forall i :: 0 <= i < |b| ==> d[i] == b[i] as nat
  {
    seq(|b|, i requires 0 <= i < |b| => b[i] as nat)
  }

  function Digits(value: char -> nat, s: string): (d: seq<nat>)
    ensures |d| == |s| && forall i :: 0 <= i < |s| ==> d[i] == value(s[i])
  {
    seq(|s|, i requires 0 <= i < |s| => value(s[i]))
  }

  lemma NumberNext(base: nat, d: seq<nat>, x: nat)
    ensures Number(base, d + [x]) == Number(base, d) * base + x
  {
    assert (d + [x])[..|d|] == d;
  }

  lemma NumberTwo(d: seq<nat>, q: seq<nat>)
    requires |q| == 2
    ensures Number(16, d + q) == Number(16, d) * 256 + q[0] * 16 + q[1]
  {
    NumberNext(16, d, q[0]);
    NumberNext(16, d + [q[0]], q[1]);
    assert d + q == d + [q[0]] + [q[1]];
  }

  lemma NumberThree(d: seq<nat>, q: seq<nat>)
    requires |q| == 3
    ensures Number(256, d + q) == Number(256, d) * 16777216 + q[0] * 65536 + q[1] * 256 + q[2]
  {
    NumberNext(256, d, q[0]);
    NumberNext(256, d + [q[0]], q[1]);
    NumberNext(256, d + [q[0]] + [q[1]], q[2]);
    assert d + q == d + [q[0]] + [q[1]] + [q[2]];
  }

  lemma NumberFour(d: seq<nat>, q: seq<nat>)
    requires |q| == 4
    ensures Number(64, d + q) == Number(64, d) * 16777216 + q[0] * 262144 + q[1] * 4096 + q[2] * 64 + q[3]
  {
    NumberNext(64, d, q[0]);
    NumberNext(64, d + [q[0]], q[1]);
    NumberNext(64, d + [q[0]] + [q[1]], q[2]);
    NumberNext(64, d + [q[0]] + [q[1]] + [q[2]], q[3]);
    assert d + q == d + [q[0]] + [q[1]] + [q[2]] + [q[3]];
  }

  /** The text of a byte string is the same number in base 16. */
  lemma {:induction false} Base16Number(b: seq<Byte>)
    ensures Number(16, Digits(HexValue, Base16(b))) == Number(256, Bytes(b))
  {
    if b != [] {
      var k := |b| - 1;
      Base16Number(b[..k]);
      var head, last := Base16(b[..k]), HexPair(b[k]);
      assert b[k..] == [b[k]] && Base16(b) == head + last;
      assert Digits(HexValue, head + last) == Digits(HexValue, head) + Digits(HexValue, last);
      NumberTwo(Digits(HexValue, head), Digits(HexValue, last));
      assert Bytes(b) == Bytes(b[..k]) + [b[k] as nat];
      NumberNext(256, Bytes(b[..k]), b[k] as nat);
    }
  }

  /** And whole triples of bytes are the same number in base 64. */
  lemma {:induction false} Base64Number(b: seq<Byte>)
    requires Whole(3, |b|)
    ensures Number(64, Digits(Base64Value, Base64(b))) == Number(256, Bytes(b))
  {
    if b != [] {
      var k := |b| - 3;
      Base64Number(b[..k]);
      QuadNext(Base64(b[..k]), b[k..]);
      assert Bytes(b) == Bytes(b[..k]) + Bytes(b[k..]);
      NumberThree(Bytes(b[..k]), Bytes(b[k..]));
    }
  }

  lemma QuadNext(head: string, b: seq<Byte>)
    requires |b| == 3
    ensures Number(64, Digits(Base64Value, head + Quad(b))) ==
            Number(64, Digits(Base64Value, head)) * 16777216 + b[0] as nat * 65536 + b[1] as nat * 256 + b[2] as nat
  {
    var last := Quad(b);
    assert Digits(Base64Value, head + last) == Digits(Base64Value, head) + Digits(Base64Value, last);
    NumberFour(Digits(Base64Value, head), Digits(Base64Value, last));
    QuadValue(b);
  }

  lemma QuadValue(b: seq<Byte>)
    requires |b| == 3
    ensures var s := Quad(b);
            Base64Value(s[0]) * 262144 + Base64Value(s[1]) * 4096 + Base64Value(s[2]) * 64 + Base64Value(s[3]) ==
            b[0] as nat * 65536 + b[1] as nat * 256 + b[2] as nat
  {
    SixBitsWhole(b[0] as nat * 65536 + b[1] as nat * 256 + b[2] as nat);
  }

  // ---- UUIDs ------------------------------------------------------------

  const UUID_LEN: nat := 16
  const UUID_HEX_LEN: nat := 36

  /** Five groups with dashes between them. */
  function Dashes(g: seq<string>): (s: string)
    requires |g| == 5
  {
    g[0] + "-" + g[1] + "-" + g[2] + "-" + g[3] + "-" + g[4]
  }

  /** The 8-4-4-4-12 form of section 3 of RFC 4122. */
  function UuidText(b: seq<Byte>): (s: string)
    requires |b| == UUID_LEN
  {
    Dashes([Base16(b[..4]), Base16(b[4..6]), Base16(b[6..8]), Base16(b[8..10]), Base16(b[10..])])
  }

  predicate Dashed(s: string)
    requires |s| == UUID_HEX_LEN
  {
    s[8] == '-' && s[13] == '-' && s[18] == '-' && s[23] == '-'
  }

  /** `uuid_bin2hex`. */
  method UuidBin2Hex(src: seq<Byte>) returns (dst: string)
    requires |src| == UUID_LEN
    ensures dst == UuidText(src)
  {
    var g0 := Base16Encode(src[..4]);
    dst := g0 + "-";
    var g1 := Base16Encode(src[4..6]);
    dst := dst + g1 + "-";
    var g2 := Base16Encode(src[6..8]);
    dst := dst + g2 + "-";
    var g3 := Base16Encode(src[8..10]);
    dst := dst + g3 + "-";
    var g4 := Base16Encode(src[10..]);
    dst := dst + g4;
  }

  /** `uuid_hex2bin`: groups and dashes in turn, giving up at the first that is wrong. */
  method UuidHex2Bin(src: string) returns (dst: Option<seq<Byte>>)
    requires |src| == UUID_HEX_LEN
    ensures dst.None? ==> forall b: seq<Byte> :: |b| == UUID_LEN ==> UuidText(b) != src
    ensures dst.Some? ==> |dst.value| == UUID_LEN && UuidText(dst.value) == src
  {
    var g0, g1, g2, g3, g4 := src[..8], src[9..13], src[14..18], src[19..23], src[24..];
    forall b: seq<Byte> | |b| == UUID_LEN && UuidText(b) == src
      ensures Dashed(src) && UnBase16(g0).Some? && UnBase16(g1).Some? && UnBase16(g2).Some?
              && UnBase16(g3).Some? && UnBase16(g4).Some?
    {
      TextParses(b);
    }
    var b0 := DecodeGroup(g0);
    if b0.None? || src[8] != '-' {
      return None;
    }
    var b1 := DecodeGroup(g1);
    if b1.None? || src[13] != '-' {
      return None;
    }
    var b2 := DecodeGroup(g2);
    if b2.None? || src[18] != '-' {
      return None;
    }
    var b3 := DecodeGroup(g3);
    if b3.None? || src[23] != '-' {
      return None;
    }
    var b4 := DecodeGroup(g4);
    if b4.None? {
      return None;
    }
    ParsedIsText(src, b0.value, b1.value, b2.value, b3.value, b4.value);
    return Some(b0.value + b1.value + b2.value + b3.value + b4.value);
  }

  method DecodeGroup(g: string) returns (r: Option<seq<Byte>>)
    requires |g| == 4 || |g| == 8 || |g| == 12
    ensures r.Some? <==> UnBase16(g).Some?
    ensures r.Some? ==> 2 * |r.value| == |g| && Base16(r.value) == g
  {
    assert Whole(2, 4);
    assert Whole(2, 8);
    assert Whole(2, 10);
    r := Base16Decode(g);
    if r.Some? {
      Base16Inverse(r.value, g);
      Base16Length(r.value);
    }
  }

  /** Where the groups of a text are. */
  lemma GroupsOfText(g0: string, g1: string, g2: string, g3: string, g4: string)
    requires |g0| == 8 && |g1| == 4 && |g2| == 4 && |g3| == 4 && |g4| == 12
    ensures var s := g0 + "-" + g1 + "-" + g2 + "-" + g3 + "-" + g4;
            && |s| == UUID_HEX_LEN && Dashed(s)
            && s[..8] == g0 && s[9..13] == g1 && s[14..18] == g2 && s[19..23] == g3 && s[24..] == g4
  {
  }

  lemma TextOfGroups(s: string)
    requires |s| == UUID_HEX_LEN && Dashed(s)
    ensures s == s[..8] + "-" + s[9..13] + "-" + s[14..18] + "-" + s[19..23] + "-" + s[24..]
  {
  }

  lemma SplitOfJoin<X>(a: seq<X>, b: seq<X>, c: seq<X>, d: seq<X>, e: seq<X>)
    requires |a| == 4 && |b| == 2 && |c| == 2 && |d| == 2 && |e| == 6
    ensures var s := a + b + c + d + e;
            |s| == 16 && s[..4] == a && s[4..6] == b && s[6..8] == c && s[8..10] == d && s[10..] == e
  {
  }

  lemma GroupParses(b: seq<Byte>)
    ensures UnBase16(Base16(b)) == Some(b) && |Base16(b)| == 2 * |b|
  {
    Base16Inverse(b, Base16(b));
    Base16Length(b);
  }

  /** The text of a UUID has its dashes in place, and its groups give the bytes back. */
  lemma TextParses(b: seq<Byte>)
    requires |b| == UUID_LEN
    ensures var s := UuidText(b);
            && |s| == UUID_HEX_LEN && Dashed(s)
            && UnBase16(s[..8]) == Some(b[..4]) && UnBase16(s[9..13]) == Some(b[4..6])
            && UnBase16(s[14..18]) == Some(b[6..8]) && UnBase16(s[19..23]) == Some(b[8..10])
            && UnBase16(s[24..]) == Some(b[10..])
  {
    GroupParses(b[..4]);
    GroupParses(b[4..6]);
    GroupParses(b[6..8]);
    GroupParses(b[8..10]);
    GroupParses(b[10..]);
    GroupsOfText(Base16(b[..4]), Base16(b[4..6]), Base16(b[6..8]), Base16(b[8..10]), Base16(b[10..]));
  }

  lemma ParsedIsText(s: string, b0: seq<Byte>, b1: seq<Byte>, b2: seq<Byte>, b3: seq<Byte>, b4: seq<Byte>)
    requires |s| == UUID_HEX_LEN && Dashed(s)
    requires |b0| == 4 && |b1| == 2 && |b2| == 2 && |b3| == 2 && |b4| == 6
    requires Base16(b0) == s[..8] && Base16(b1) == s[9..13] && Base16(b2) == s[14..18]
    requires Base16(b3) == s[19..23] && Base16(b4) == s[24..]
    ensures |b0 + b1 + b2 + b3 + b4| == UUID_LEN && UuidText(b0 + b1 + b2 + b3 + b4) == s
  {
    SplitOfJoin(b0, b1, b2, b3, b4);
    TextOfGroups(s);
  }

  /** Different bytes have different texts. */
  lemma UuidTextInjective(a: seq<Byte>, b: seq<Byte>)
    requires |a| == UUID_LEN && |b| == UUID_LEN && UuidText(a) == UuidText(b)
    ensures a == b
  {
    TextParses(a);
    TextParses(b);
    JoinOfSplit(a);
    JoinOfSplit(b);
  }

  lemma JoinOfSplit<X>(a: seq<X>)
    requires |a| == UUID_LEN
    ensures a == a[..4] + a[4..6] + a[6..8] + a[8..10] + a[10..]
  {
  }
}
