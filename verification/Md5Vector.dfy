/**
One digest of the test suite in section A.5 of RFC 1321, computed operation by operation. Tables,
constants and byte order cannot be other than they are.
*/
module Md5Vector {
  import opened Basics
  import opened BlockStream
  import opened Md5

  /** The bytes of `abcdefghijklmnopqrstuvwxyz`. */
  function Letters(): (m: seq<Byte>)
    ensures |m| == 26
  {
    seq(26, i requires 0 <= i < 26 => ('a' as int + i) as Byte)
  }

  /** The digest that RFC 1321 gives. */
  const LETTERS_DIGEST: seq<Byte> := [0xc3, 0xfc, 0xd3, 0xd7, 0x61, 0x92, 0xe4, 0x00, 0x7d, 0xfb, 0x49, 0x6c, 0xca, 0x67, 0xe1, 0x3b]

  // ---- the words of the block -------------------------------------------

  function LettersBlock(): (b: seq<Byte>)
  {
    Letters() + Padding(26)
  }

  lemma LengthBytes()
    ensures BlockStream.Bits(26) == [208, 0, 0, 0, 0, 0, 0, 0]
  {
    assert LittleEndian(0, 2) == [0, 0];
    assert LittleEndian(0, 4) == [0, 0, 0, 0];
    assert LittleEndian(0, 6) == [0, 0, 0, 0, 0, 0];
  }

  lemma BlockBytes(i: nat)
    requires i < 64
    ensures |LettersBlock()| == 64
    ensures LettersBlock()[i] == if i < 26 then (97 + i) as Byte else if i == 26 then 128 else if i == 56 then 208 else 0
  {
    LengthBytes();
  }

  function Word(j: nat): (w: bv32)
    requires j < 16
  {
    if j < 4 then Pick(j, 0x64636261, 0x68676665, 0x6c6b6a69, 0x706f6e6d) else if j < 7 then Pick(j - 4, 0x74737271, 0x78777675, 0x00807a79, 0) else if j == 14 then 208 else 0
  }

  /** A word from its four bytes. */
  lemma WordIs(j: nat, a: bv8, b: bv8, c: bv8, d: bv8)
    requires j < 16 && |LettersBlock()| == 64
    requires LettersBlock()[4 * j] == FromBits(a) && LettersBlock()[4 * j + 1] == FromBits(b)
    requires LettersBlock()[4 * j + 2] == FromBits(c) && LettersBlock()[4 * j + 3] == FromBits(d)
    ensures LoadWord(LettersBlock(), j) == Join(a, b, c, d)
  {
    BitsOfByte(a);
    BitsOfByte(b);
    BitsOfByte(c);
    BitsOfByte(d);
  }

  lemma LettersWord(j: nat)
    requires j < 16
    ensures |LettersBlock()| == 64 && LoadWord(LettersBlock(), j) == Word(j)
  {
    BlockBytes(4 * j);
    BlockBytes(4 * j + 1);
    BlockBytes(4 * j + 2);
    BlockBytes(4 * j + 3);
    if j == 0 {
      WordIs(j, 0x61, 0x62, 0x63, 0x64);
    } else if j == 1 {
      WordIs(j, 0x65, 0x66, 0x67, 0x68);
    } else if j == 2 {
      WordIs(j, 0x69, 0x6a, 0x6b, 0x6c);
    } else if j == 3 {
      WordIs(j, 0x6d, 0x6e, 0x6f, 0x70);
    } else if j == 4 {
      WordIs(j, 0x71, 0x72, 0x73, 0x74);
    } else if j == 5 {
      WordIs(j, 0x75, 0x76, 0x77, 0x78);
    } else if j == 6 {
      WordIs(j, 0x79, 0x7a, 0x80, 0);
    } else if j == 14 {
      WordIs(j, 0xd0, 0, 0, 0);
    } else {
      WordIs(j, 0, 0, 0, 0);
    }
  }

  ghost predicate Words(x: seq<bv32>)
  {
    |x| == 16 && forall j :: 0 <= j < 16 ==> x[j] == Word(j)
  }

  // ---- the operations ---------------------------------------------------

  /** Operations `n` to `m`, as the loops of the code do them, take the registers `r` to `s`. */
  ghost predicate Goes<W(!new)>(f: Op<W>, n: nat, m: nat, r: Regs<W>, s: Regs<W>)
  {
    forall r0 :: Rotated(n, Turns(f, n, r0)) == r ==> Rotated(m, Turns(f, m, r0)) == s
  }

  lemma GoesOne<W(!new)>(f: Op<W>, i: nat, r: Regs<W>)
    ensures Goes(f, i, i + 1, r, Regs(r.d, f(i, r.a, r.b, r.c, r.d), r.b, r.c))
  {
    forall r0 | Rotated(i, Turns(f, i, r0)) == r
      ensures Rotated(i + 1, Turns(f, i + 1, r0)) == Regs(r.d, f(i, r.a, r.b, r.c, r.d), r.b, r.c)
    {
      TurnsRotate(f, i, Turns(f, i, r0));
    }
  }

  lemma GoesOn<W(!new)>(f: Op<W>, n: nat, m: nat, l: nat, r: Regs<W>, s: Regs<W>, t: Regs<W>)
    requires Goes(f, n, m, r, s) && Goes(f, m, l, s, t)
    ensures Goes(f, n, l, r, t)
  {
  }

  /** Operation `i`, once its word, its auxiliary function and its tables are looked up. */
  lemma OpIs(x: seq<bv32>, i: nat, r: State, w: bv32, f: bv32, t: bv32, s: bv32, v: bv32)
    requires Words(x) && i < 64 && Word(WordIndex(i)) == w && Aux(i, r.b, r.c, r.d) == f && Sine(i) == t && Shift(i) == s
    requires Combine(f, r.a, t, w, s, r.b) == v
    ensures Goes(CodedOperations(x), i, i + 1, r, Regs(r.d, v, r.b, r.c))
  {
    GoesOne(CodedOperations(x), i, r);
  }

  lemma Ops0(x: seq<bv32>)
    requires Words(x)
    ensures Goes(CodedOperations(x), 0, 4, Regs(0x67452301, 0xefcdab89, 0x98badcfe, 0x10325476), Regs(0xd6d117a6, 0x4503b812, 0x227d8cf1, 0xaab1aaaa))
  {
    OpIs(x, 0, Regs(0x67452301, 0xefcdab89, 0x98badcfe, 0x10325476), 0x64636261, 0x98badcfe, 0xd76aa478, 7, 0xd6d117a6);
    OpIs(x, 1, Regs(0x10325476, 0xd6d117a6, 0xefcdab89, 0x98badcfe), 0x68676665, 0xceebcbd8, 0xe8c7b756, 12, 0xaab1aaaa);
    OpIs(x, 2, Regs(0x98badcfe, 0xaab1aaaa, 0xd6d117a6, 0xefcdab89), 0x6c6b6a69, 0xc7dd03a3, 0x242070db, 17, 0x227d8cf1);
    OpIs(x, 3, Regs(0xefcdab89, 0x227d8cf1, 0xaab1aaaa, 0xd6d117a6), 0x706f6e6d, 0xf6b19ba6, 0xc1bdceee, 22, 0x4503b812);
  }

  lemma Ops1(x: seq<bv32>)
    requires Words(x)
    ensures Goes(CodedOperations(x), 4, 8, Regs(0xd6d117a6, 0x4503b812, 0x227d8cf1, 0xaab1aaaa), Regs(0xfe15f787, 0xda9bbb0d, 0xb71122fc, 0xa811b278))
  {
    OpIs(x, 4, Regs(0xd6d117a6, 0x4503b812, 0x227d8cf1, 0xaab1aaaa), 0x74737271, 0xaab18ab8, 0xf57c0faf, 7, 0xfe15f787);
    OpIs(x, 5, Regs(0xaab1aaaa, 0xfe15f787, 0x4503b812, 0x227d8cf1), 0x78777675, 0x4469b872, 0x4787c62a, 12, 0xa811b278);
    OpIs(x, 6, Regs(0x227d8cf1, 0xa811b278, 0xfe15f787, 0x4503b812), 0x00807a79, 0xed13ba02, 0xa8304613, 17, 0xb71122fc);
    OpIs(x, 7, Regs(0x4503b812, 0xb71122fc, 0xa811b278, 0xfe15f787), 0, 0xe815f77b, 0xfd469501, 22, 0xda9bbb0d);
  }

  lemma Ops2(x: seq<bv32>)
    requires Words(x)
    ensures Goes(CodedOperations(x), 8, 12, Regs(0xfe15f787, 0xda9bbb0d, 0xb71122fc, 0xa811b278), Regs(0xae752899, 0x56cfa5cb, 0x7d4bd80b, 0x2bbe757f))
  {
    OpIs(x, 8, Regs(0xfe15f787, 0xda9bbb0d, 0xb71122fc, 0xa811b278), 0, 0xb211227c, 0x698098d8, 7, 0xae752899);
    OpIs(x, 9, Regs(0xa811b278, 0xae752899, 0xda9bbb0d, 0xb71122fc), 0, 0x9b112a6d, 0x8b44f7af, 12, 0x2bbe757f);
    OpIs(x, 10, Regs(0xb71122fc, 0x2bbe757f, 0xae752899, 0xda9bbb0d), 0, 0xfa35aa19, 0xffff5bb1, 17, 0x7d4bd80b);
    OpIs(x, 11, Regs(0xda9bbb0d, 0x7d4bd80b, 0x2bbe757f, 0xae752899), 0, 0xab3e709b, 0x895cd7be, 22, 0x56cfa5cb);
  }

  lemma Ops3(x: seq<bv32>)
    requires Words(x)
    ensures Goes(CodedOperations(x), 12, 16, Regs(0xae752899, 0x56cfa5cb, 0x7d4bd80b, 0x2bbe757f), Regs(0x1754a316, 0x608d6b7e, 0x00df74d5, 0x85567d90))
  {
    OpIs(x, 12, Regs(0xae752899, 0x56cfa5cb, 0x7d4bd80b, 0x2bbe757f), 0, 0x7d7bd03f, 0x6b901122, 7, 0x1754a316);
    OpIs(x, 13, Regs(0x2bbe757f, 0x1754a316, 0x56cfa5cb, 0x7d4bd80b), 0, 0x7e4ff90b, 0xfd987193, 12, 0x85567d90);
    OpIs(x, 14, Regs(0x7d4bd80b, 0x85567d90, 0x1754a316, 0x56cfa5cb), 0x000000d0, 0x57dda15b, 0xa679438e, 17, 0x00df74d5);
    OpIs(x, 15, Regs(0x56cfa5cb, 0x00df74d5, 0x85567d90, 0x1754a316), 0, 0x1756f792, 0x49b40821, 22, 0x608d6b7e);
  }

  lemma Ops4(x: seq<bv32>)
    requires Words(x)
    ensures Goes(CodedOperations(x), 16, 20, Regs(0x1754a316, 0x608d6b7e, 0x00df74d5, 0x85567d90), Regs(0x2d8071cc, 0x4c2145b3, 0xedfe7e4b, 0x5dcee119))
  {
    OpIs(x, 16, Regs(0x1754a316, 0x608d6b7e, 0x00df74d5, 0x85567d90), 0x68676665, 0x008d6955, 0xf61e2562, 5, 0x2d8071cc);
    OpIs(x, 17, Regs(0x85567d90, 0x2d8071cc, 0x608d6b7e, 0x00df74d5), 0x00807a79, 0x60807bee, 0xc040b340, 9, 0x5dcee119);
    OpIs(x, 18, Regs(0x00df74d5, 0x5dcee119, 0x2d8071cc, 0x608d6b7e), 0, 0x4d8c7198, 0x265e5a51, 14, 0xedfe7e4b);
    OpIs(x, 19, Regs(0x608d6b7e, 0xedfe7e4b, 0x5dcee119, 0x2d8071cc), 0x64636261, 0x7dcef059, 0xe9b6c7aa, 20, 0x4c2145b3);
  }

  lemma Ops5(x: seq<bv32>)
    requires Words(x)
    ensures Goes(CodedOperations(x), 20, 24, Regs(0x2d8071cc, 0x4c2145b3, 0xedfe7e4b, 0x5dcee119), Regs(0x570c43e0, 0xc9f162d4, 0xc28ab49d, 0x977efd2a))
  {
    OpIs(x, 20, Regs(0x2d8071cc, 0x4c2145b3, 0xedfe7e4b, 0x5dcee119), 0x78777675, 0xec305f53, 0xd62f105d, 5, 0x570c43e0);
    OpIs(x, 21, Regs(0x5dcee119, 0x570c43e0, 0x4c2145b3, 0xedfe7e4b), 0, 0x450d43f0, 0x02441453, 9, 0x977efd2a);
    OpIs(x, 22, Regs(0xedfe7e4b, 0x977efd2a, 0x570c43e0, 0x4c2145b3), 0, 0x172c4762, 0xd8a1e681, 14, 0xc28ab49d);
    OpIs(x, 23, Regs(0x4c2145b3, 0xc28ab49d, 0x977efd2a, 0x570c43e0), 0x74737271, 0xc27abc8a, 0xe7d3fbc8, 20, 0xc9f162d4);
  }

  lemma Ops6(x: seq<bv32>)
    requires Words(x)
    ensures Goes(CodedOperations(x), 24, 28, Regs(0x570c43e0, 0xc9f162d4, 0xc28ab49d, 0x977efd2a), Regs(0x25bfae3b, 0xe6d3b398, 0xf8c8365f, 0x89980104))
  {
    OpIs(x, 24, Regs(0x570c43e0, 0xc9f162d4, 0xc28ab49d, 0x977efd2a), 0, 0xc1f06095, 0x21e1cde6, 5, 0x25bfae3b);
    OpIs(x, 25, Regs(0x977efd2a, 0x25bfae3b, 0xc9f162d4, 0xc28ab49d), 0x000000d0, 0x09fbe659, 0xc33707d6, 9, 0x89980104);
    OpIs(x, 26, Regs(0xc28ab49d, 0x89980104, 0x25bfae3b, 0xc9f162d4), 0x706f6e6d, 0xad9e8c2f, 0xf4d50d87, 14, 0xf8c8365f);
    OpIs(x, 27, Regs(0xc9f162d4, 0xf8c8365f, 0x89980104, 0x25bfae3b), 0, 0xa888271f, 0x455a14ed, 20, 0xe6d3b398);
  }

  lemma Ops7(x: seq<bv32>)
    requires Words(x)
    ensures Goes(CodedOperations(x), 28, 32, Regs(0x25bfae3b, 0xe6d3b398, 0xf8c8365f, 0x89980104), Regs(0xf54d8710, 0xaeb35766, 0x2e69afc7, 0x927b72e2))
  {
    OpIs(x, 28, Regs(0x25bfae3b, 0xe6d3b398, 0xf8c8365f, 0x89980104), 0, 0xf0d0375b, 0xa9e3e905, 5, 0xf54d8710);
    OpIs(x, 29, Regs(0x89980104, 0xf54d8710, 0xe6d3b398, 0xf8c8365f), 0x6c6b6a69, 0xf65b8790, 0xfcefa3f8, 9, 0x927b72e2);
    OpIs(x, 30, Regs(0xf8c8365f, 0x927b72e2, 0xf54d8710, 0xe6d3b398), 0, 0x935f3680, 0x676f02d9, 14, 0x2e69afc7);
    OpIs(x, 31, Regs(0xe6d3b398, 0x2e69afc7, 0x927b72e2, 0xf54d8710), 0, 0x267bf7e2, 0x8d2a4c8a, 20, 0xaeb35766);
  }

  lemma Ops8(x: seq<bv32>)
    requires Words(x)
    ensures Goes(CodedOperations(x), 32, 36, Regs(0xf54d8710, 0xaeb35766, 0x2e69afc7, 0x927b72e2), Regs(0xb4bf680e, 0x06a5e211, 0x2361ed0a, 0x4c8ffa80))
  {
    OpIs(x, 32, Regs(0xf54d8710, 0xaeb35766, 0x2e69afc7, 0x927b72e2), 0x78777675, 0x12a18a43, 0xfffa3942, 4, 0xb4bf680e);
    OpIs(x, 33, Regs(0x927b72e2, 0xb4bf680e, 0xaeb35766, 0x2e69afc7), 0, 0x346590af, 0x8771f681, 11, 0x4c8ffa80);
    OpIs(x, 34, Regs(0x2e69afc7, 0x4c8ffa80, 0xb4bf680e, 0xaeb35766), 0, 0x5683c5e8, 0x6d9d6122, 16, 0x2361ed0a);
    OpIs(x, 35, Regs(0xaeb35766, 0x2361ed0a, 0x4c8ffa80, 0xb4bf680e), 0x000000d0, 0xdb517f84, 0xfde5380c, 23, 0x06a5e211);
  }

  lemma Ops9(x: seq<bv32>)
    requires Words(x)
    ensures Goes(CodedOperations(x), 36, 40, Regs(0xb4bf680e, 0x06a5e211, 0x2361ed0a, 0x4c8ffa80), Regs(0xb9c0c733, 0x8d41bf99, 0x23a9451b, 0xf1e6dc7a))
  {
    OpIs(x, 36, Regs(0xb4bf680e, 0x06a5e211, 0x2361ed0a, 0x4c8ffa80), 0x68676665, 0x694bf59b, 0xa4beea44, 4, 0xb9c0c733);
    OpIs(x, 37, Regs(0x4c8ffa80, 0xb9c0c733, 0x06a5e211, 0x2361ed0a), 0x74737271, 0x9c04c828, 0x4bdecfa9, 11, 0xf1e6dc7a);
    OpIs(x, 38, Regs(0x2361ed0a, 0xf1e6dc7a, 0xb9c0c733, 0x06a5e211), 0, 0x4e83f958, 0xf6bb4b60, 16, 0x23a9451b);
    OpIs(x, 39, Regs(0x06a5e211, 0x23a9451b, 0xf1e6dc7a, 0xb9c0c733), 0, 0x6b8f5e52, 0xbebfbc70, 23, 0x8d41bf99);
  }

  lemma Ops10(x: seq<bv32>)
    requires Words(x)
    ensures Goes(CodedOperations(x), 40, 44, Regs(0xb9c0c733, 0x8d41bf99, 0x23a9451b, 0xf1e6dc7a), Regs(0xa3e88ead, 0x90a35af5, 0x66f6468d, 0x02c0b11c))
  {
    OpIs(x, 40, Regs(0xb9c0c733, 0x8d41bf99, 0x23a9451b, 0xf1e6dc7a), 0, 0x5f0e26f8, 0x289b7ec6, 4, 0xa3e88ead);
    OpIs(x, 41, Regs(0xf1e6dc7a, 0xa3e88ead, 0x8d41bf99, 0x23a9451b), 0x64636261, 0x0d00742f, 0xeaa127fa, 11, 0x02c0b11c);
    OpIs(x, 42, Regs(0x23a9451b, 0x02c0b11c, 0xa3e88ead, 0x8d41bf99), 0x706f6e6d, 0x2c698028, 0xd4ef3085, 16, 0x66f6468d);
    OpIs(x, 43, Regs(0x8d41bf99, 0x66f6468d, 0x02c0b11c, 0xa3e88ead), 0x00807a79, 0xc7de793c, 0x04881d05, 23, 0x90a35af5);
  }

  lemma Ops11(x: seq<bv32>)
    requires Words(x)
    ensures Goes(CodedOperations(x), 44, 48, Regs(0xa3e88ead, 0x90a35af5, 0x66f6468d, 0x02c0b11c), Regs(0xb5d41f9c, 0x71d10367, 0x703d54d8, 0xa04b4904))
  {
    OpIs(x, 44, Regs(0xa3e88ead, 0x90a35af5, 0x66f6468d, 0x02c0b11c), 0, 0xf495ad64, 0xd9d4d039, 4, 0xb5d41f9c);
    OpIs(x, 45, Regs(0x02c0b11c, 0xb5d41f9c, 0x90a35af5, 0x66f6468d), 0, 0x438103e4, 0xe6db99e5, 11, 0xa04b4904);
    OpIs(x, 46, Regs(0x66f6468d, 0xa04b4904, 0xb5d41f9c, 0x90a35af5), 0, 0x853c0c6d, 0x1fa27cf8, 16, 0x703d54d8);
    OpIs(x, 47, Regs(0x90a35af5, 0x703d54d8, 0xa04b4904, 0xb5d41f9c), 0x6c6b6a69, 0x65a20240, 0xc4ac5665, 23, 0x71d10367);
  }

  lemma Ops12(x: seq<bv32>)
    requires Words(x)
    ensures Goes(CodedOperations(x), 48, 52, Regs(0xb5d41f9c, 0x71d10367, 0x703d54d8, 0xa04b4904), Regs(0xfc32dd6e, 0x33edb197, 0xb35602cb, 0x65456b34))
  {
    OpIs(x, 48, Regs(0xb5d41f9c, 0x71d10367, 0x703d54d8, 0xa04b4904), 0x64636261, 0x0fc8e327, 0xf4292244, 6, 0xfc32dd6e);
    OpIs(x, 49, Regs(0xa04b4904, 0xfc32dd6e, 0x71d10367, 0x703d54d8), 0, 0x8e23fc08, 0x432aff97, 10, 0x65456b34);
    OpIs(x, 50, Regs(0x703d54d8, 0x65456b34, 0xfc32dd6e, 0x71d10367), 0x000000d0, 0x135d22d2, 0xab9423a7, 15, 0xb35602cb);
    OpIs(x, 51, Regs(0x71d10367, 0xb35602cb, 0x65456b34, 0xfc32dd6e), 0x78777675, 0xd69a49ef, 0xfc93a039, 21, 0x33edb197);
  }

  lemma Ops13(x: seq<bv32>)
    requires Words(x)
    ensures Goes(CodedOperations(x), 52, 56, Regs(0xfc32dd6e, 0x33edb197, 0xb35602cb, 0x65456b34), Regs(0xc1e942f1, 0x83877d1b, 0x23a68048, 0xd9bb987c))
  {
    OpIs(x, 52, Regs(0xfc32dd6e, 0x33edb197, 0xb35602cb, 0x65456b34), 0, 0x08a9b714, 0x655b59c3, 6, 0xc1e942f1);
    OpIs(x, 53, Regs(0x65456b34, 0xc1e942f1, 0x33edb197, 0xb35602cb), 0x706f6e6d, 0xfe044e62, 0x8f0ccc92, 10, 0xd9bb987c);
    OpIs(x, 54, Regs(0xb35602cb, 0xd9bb987c, 0xc1e942f1, 0x33edb197), 0, 0x1c529c8d, 0xffeff47d, 15, 0x23a68048);
    OpIs(x, 55, Regs(0x33edb197, 0x23a68048, 0xd9bb987c, 0xc1e942f1), 0x68676665, 0xe60d2532, 0x85845dd1, 21, 0x83877d1b);
  }

  lemma Ops14(x: seq<bv32>)
    requires Words(x)
    ensures Goes(CodedOperations(x), 56, 60, Regs(0xc1e942f1, 0x83877d1b, 0x23a68048, 0xd9bb987c), Regs(0x0077c208, 0x5e6bc930, 0xa3e2247f, 0x847fc2e7))
  {
    OpIs(x, 56, Regs(0xc1e942f1, 0x83877d1b, 0x23a68048, 0xd9bb987c), 0, 0x8461ffd3, 0x6fa87e4f, 6, 0x0077c208);
    OpIs(x, 57, Regs(0xd9bb987c, 0x0077c208, 0x83877d1b, 0x23a68048), 0, 0x5ff882a4, 0xfe2ce6e0, 10, 0x847fc2e7);
    OpIs(x, 58, Regs(0x23a68048, 0x847fc2e7, 0x0077c208, 0x83877d1b), 0x00807a79, 0xfc0800ef, 0xa3014314, 15, 0xa3e2247f);
    OpIs(x, 59, Regs(0x83877d1b, 0xa3e2247f, 0x847fc2e7, 0x0077c208), 0, 0x7b95ff18, 0x4e0811a1, 21, 0x5e6bc930);
  }

  lemma Ops15(x: seq<bv32>)
    requires Words(x)
    ensures Goes(CodedOperations(x), 60, 64, Regs(0x0077c208, 0x5e6bc930, 0xa3e2247f, 0x847fc2e7), Regs(0x708ed9c2, 0x1116e6d8, 0xd38f1e7f, 0x2baf1354))
  {
    OpIs(x, 60, Regs(0x0077c208, 0x5e6bc930, 0xa3e2247f, 0x847fc2e7), 0x74737271, 0xdc09d947, 0xf7537e82, 6, 0x708ed9c2);
    OpIs(x, 61, Regs(0x847fc2e7, 0x708ed9c2, 0x5e6bc930, 0xa3e2247f), 0, 0x22f412f2, 0xbd3af235, 10, 0x2baf1354);
    OpIs(x, 62, Regs(0xa3e2247f, 0x2baf1354, 0x708ed9c2, 0x5e6bc930), 0x6c6b6a69, 0xdb31ee1d, 0x2ad7d2bb, 15, 0xd38f1e7f);
    OpIs(x, 63, Regs(0x5e6bc930, 0xd38f1e7f, 0x2baf1354, 0x708ed9c2), 0, 0xf4502d2b, 0xeb86d391, 21, 0x1116e6d8);
  }

  lemma Round1(x: seq<bv32>)
    requires Words(x)
    ensures Goes(CodedOperations(x), 0, 16, Regs(0x67452301, 0xefcdab89, 0x98badcfe, 0x10325476), Regs(0x1754a316, 0x608d6b7e, 0x00df74d5, 0x85567d90))
  {
    Ops0(x);
    Ops1(x);
    Ops2(x);
    Ops3(x);
  }

  lemma Round2(x: seq<bv32>)
    requires Words(x)
    ensures Goes(CodedOperations(x), 16, 32, Regs(0x1754a316, 0x608d6b7e, 0x00df74d5, 0x85567d90), Regs(0xf54d8710, 0xaeb35766, 0x2e69afc7, 0x927b72e2))
  {
    Ops4(x);
    Ops5(x);
    Ops6(x);
    Ops7(x);
  }

  lemma Round3(x: seq<bv32>)
    requires Words(x)
    ensures Goes(CodedOperations(x), 32, 48, Regs(0xf54d8710, 0xaeb35766, 0x2e69afc7, 0x927b72e2), Regs(0xb5d41f9c, 0x71d10367, 0x703d54d8, 0xa04b4904))
  {
    Ops8(x);
    Ops9(x);
    Ops10(x);
    Ops11(x);
  }

  lemma Round4(x: seq<bv32>)
    requires Words(x)
    ensures Goes(CodedOperations(x), 48, 64, Regs(0xb5d41f9c, 0x71d10367, 0x703d54d8, 0xa04b4904), Regs(0x708ed9c2, 0x1116e6d8, 0xd38f1e7f, 0x2baf1354))
  {
    Ops12(x);
    Ops13(x);
    Ops14(x);
    Ops15(x);
  }

  lemma AllRounds(x: seq<bv32>)
    requires Words(x)
    ensures Goes(CodedOperations(x), 0, 64, IV, Regs(0x708ed9c2, 0x1116e6d8, 0xd38f1e7f, 0x2baf1354))
  {
    var f := CodedOperations(x);
    Round1(x);
    Round2(x);
    Round3(x);
    Round4(x);
    GoesOn(f, 0, 16, 32, Regs(0x67452301, 0xefcdab89, 0x98badcfe, 0x10325476), Regs(0x1754a316, 0x608d6b7e, 0x00df74d5, 0x85567d90), Regs(0xf54d8710, 0xaeb35766, 0x2e69afc7, 0x927b72e2));
    GoesOn(f, 0, 32, 48, Regs(0x67452301, 0xefcdab89, 0x98badcfe, 0x10325476), Regs(0xf54d8710, 0xaeb35766, 0x2e69afc7, 0x927b72e2), Regs(0xb5d41f9c, 0x71d10367, 0x703d54d8, 0xa04b4904));
    GoesOn(f, 0, 48, 64, Regs(0x67452301, 0xefcdab89, 0x98badcfe, 0x10325476), Regs(0xb5d41f9c, 0x71d10367, 0x703d54d8, 0xa04b4904), Regs(0x708ed9c2, 0x1116e6d8, 0xd38f1e7f, 0x2baf1354));
  }

  lemma Arrive<W(!new)>(f: Op<W>, n: nat, r: Regs<W>, s: Regs<W>)
    requires n % 4 == 0 && Goes(f, 0, n, r, s)
    ensures Turns(f, n, r) == s
  {
    assert Rotated(0, Turns(f, 0, r)) == r;
  }

  /** The registers after the block. */
  lemma LettersCompressed()
    ensures |LettersBlock()| == 64 && Compress(IV, LettersBlock()) == Regs(0xd7d3fcc3, 0x00e49261, 0x6c49fb7d, 0x3be167ca)
  {
    BlockBytes(0);
    var x := LoadBlock(LettersBlock());
    forall j | 0 <= j < 16 ensures x[j] == Word(j) {
      LettersWord(j);
    }
    AllRounds(x);
    Arrive(CodedOperations(x), 64, IV, Regs(0x708ed9c2, 0x1116e6d8, 0xd38f1e7f, 0x2baf1354));
    CodedTurns(x, IV);
  }

  lemma LettersDigested()
    ensures Digested(Block, IV, Letters()) == Regs(0xd7d3fcc3, 0x00e49261, 0x6c49fb7d, 0x3be167ca)
  {
    LettersCompressed();
    var b := LettersBlock();
    assert [] + b == b;
    ChainNext(Block, IV, [], b);
  }

  lemma StoredIs(w: bv32, a: bv8, b: bv8, c: bv8, d: bv8)
    requires w == Join(a, b, c, d)
    ensures StoreWord(w) == [FromBits(a), FromBits(b), FromBits(c), FromBits(d)]
  {
    OctetsOfJoin(a, b, c, d);
  }

  lemma LettersEncoded()
    ensures Encode(Regs(0xd7d3fcc3, 0x00e49261, 0x6c49fb7d, 0x3be167ca)) == LETTERS_DIGEST
  {
    StoredIs(0xd7d3fcc3, 0xc3, 0xfc, 0xd3, 0xd7);
    StoredIs(0x00e49261, 0x61, 0x92, 0xe4, 0x00);
    StoredIs(0x6c49fb7d, 0x7d, 0xfb, 0x49, 0x6c);
    StoredIs(0x3be167ca, 0xca, 0x67, 0xe1, 0x3b);
  }

  /** The digest of the letters is the one in section A.5 of RFC 1321. */
  lemma LettersDigest()
    ensures Digest(Letters()) == LETTERS_DIGEST
  {
    LettersDigested();
    LettersEncoded();
  }
}
