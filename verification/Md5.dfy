/** The MD5 message digest (RFC 1321), computed over any split of the message. */
module Md5 {
  import opened Basics
  import opened BlockStream

  /** The table of section 3.4 of RFC 1321. */
  function Sine(i: nat): (t: bv32)
    requires i < 64
  {
    if i < 16 then Sine1(i) else if i < 32 then Sine2(i - 16) else if i < 48 then Sine3(i - 32) else Sine4(i - 48)
  }

  function Sine1(i: nat): (t: bv32)
  {
    if i < 4 then Pick(i % 4, 0xd76aa478, 0xe8c7b756, 0x242070db, 0xc1bdceee)
    else if i < 8 then Pick(i % 4, 0xf57c0faf, 0x4787c62a, 0xa8304613, 0xfd469501)
    else if i < 12 then Pick(i % 4, 0x698098d8, 0x8b44f7af, 0xffff5bb1, 0x895cd7be)
    else Pick(i % 4, 0x6b901122, 0xfd987193, 0xa679438e, 0x49b40821)
  }

  function Sine2(i: nat): (t: bv32)
  {
    if i < 4 then Pick(i % 4, 0xf61e2562, 0xc040b340, 0x265e5a51, 0xe9b6c7aa)
    else if i < 8 then Pick(i % 4, 0xd62f105d, 0x02441453, 0xd8a1e681, 0xe7d3fbc8)
    else if i < 12 then Pick(i % 4, 0x21e1cde6, 0xc33707d6, 0xf4d50d87, 0x455a14ed)
    else Pick(i % 4, 0xa9e3e905, 0xfcefa3f8, 0x676f02d9, 0x8d2a4c8a)
  }

  function Sine3(i: nat): (t: bv32)
  {
    if i < 4 then Pick(i % 4, 0xfffa3942, 0x8771f681, 0x6d9d6122, 0xfde5380c)
    else if i < 8 then Pick(i % 4, 0xa4beea44, 0x4bdecfa9, 0xf6bb4b60, 0xbebfbc70)
    else if i < 12 then Pick(i % 4, 0x289b7ec6, 0xeaa127fa, 0xd4ef3085, 0x04881d05)
    else Pick(i % 4, 0xd9d4d039, 0xe6db99e5, 0x1fa27cf8, 0xc4ac5665)
  }

  function Sine4(i: nat): (t: bv32)
  {
    if i < 4 then Pick(i % 4, 0xf4292244, 0x432aff97, 0xab9423a7, 0xfc93a039)
    else if i < 8 then Pick(i % 4, 0x655b59c3, 0x8f0ccc92, 0xffeff47d, 0x85845dd1)
    else if i < 12 then Pick(i % 4, 0x6fa87e4f, 0xfe2ce6e0, 0xa3014314, 0x4e0811a1)
    else Pick(i % 4, 0xf7537e82, 0xbd3af235, 0x2ad7d2bb, 0xeb86d391)
  }

  /** Which word of the block each of the 64 operations of section 3.4 of RFC 1321 takes. */
  function WordOf(i: nat): (j: nat)
    requires i < 64
    ensures j < 16
  {
    match i / 4
    case 0 => [0, 1, 2, 3][i % 4]
    case 1 => [4, 5, 6, 7][i % 4]
    case 2 => [8, 9, 10, 11][i % 4]
    case 3 => [12, 13, 14, 15][i % 4]
    case 4 => [1, 6, 11, 0][i % 4]
    case 5 => [5, 10, 15, 4][i % 4]
    case 6 => [9, 14, 3, 8][i % 4]
    case 7 => [13, 2, 7, 12][i % 4]
    case 8 => [5, 8, 11, 14][i % 4]
    case 9 => [1, 4, 7, 10][i % 4]
    case 10 => [13, 0, 3, 6][i % 4]
    case 11 => [9, 12, 15, 2][i % 4]
    case 12 => [0, 7, 14, 5][i % 4]
    case 13 => [12, 3, 10, 1][i % 4]
    case 14 => [8, 15, 6, 13][i % 4]
    case _ => [4, 11, 2, 9][i % 4]
  }

  /** The four registers. */
  datatype Regs<W> = Regs(a: W, b: W, c: W, d: W)

  type State = Regs<bv32>

  const IV: State := Regs(0x67452301, 0xefcdab89, 0x98badcfe, 0x10325476)

  function Rotl(v: bv32, n: bv32): (r: bv32)
    requires 0 < n < 32
  {
    (v << n) | (v >> (32 - n))
  }

  /** The auxiliary function of each round. */
  function Aux(i: nat, x: bv32, y: bv32, z: bv32): (r: bv32)
    requires i < 64
  {
    if i < 16 then F(x, y, z) else if i < 32 then G(x, y, z) else if i < 48 then H(x, y, z) else I(x, y, z)
  }

  function F(x: bv32, y: bv32, z: bv32): (r: bv32)
  {
    (x & y) | (!x & z)
  }

  function G(x: bv32, y: bv32, z: bv32): (r: bv32)
  {
    (x & z) | (y & !z)
  }

  function H(x: bv32, y: bv32, z: bv32): (r: bv32)
  {
    x ^ y ^ z
  }

  function I(x: bv32, y: bv32, z: bv32): (r: bv32)
  {
    y ^ (x | !z)
  }

  /** Shift amounts, four to a round. */
  function Shift(i: nat): (n: bv32)
    requires i < 64
    ensures 0 < n < 32
  {
    if i < 16 then Pick(i % 4, 7, 12, 17, 22)
    else if i < 32 then Pick(i % 4, 5, 9, 14, 20)
    else if i < 48 then Pick(i % 4, 4, 11, 16, 23)
    else Pick(i % 4, 6, 10, 15, 21)
  }

  function Pick(k: nat, a: bv32, b: bv32, c: bv32, d: bv32): (n: bv32)
  {
    if k == 0 then a else if k == 1 then b else if k == 2 then c else d
  }

  predicate Bit(v: bv32, j: bv32)
    requires j < 32
  {
    (v >> j) & 1 == 1
  }

  /** Rotation moves every bit up by `n` places, and those that leave come in again below. */
  lemma RotlBits(v: bv32, n: bv32, j: bv32)
    requires 0 < n < 32 && j < 32
    ensures j + n < 32 ==> Bit(Rotl(v, n), j + n) == Bit(v, j)
    ensures j + n >= 32 ==> Bit(Rotl(v, n), j + n - 32) == Bit(v, j)
  {
    if j + n < 32 {
      RotlUp(v, n, j);
    } else {
      RotlRound(v, n, j);
    }
  }

  lemma RotlUp(v: bv32, n: bv32, j: bv32)
    requires 0 < n < 32 && j < 32 && j + n < 32
    ensures Bit(Rotl(v, n), j + n) == Bit(v, j)
  {
  }

  lemma RotlRound(v: bv32, n: bv32, j: bv32)
    requires 0 < n < 32 && j < 32 && j + n >= 32
    ensures Bit(Rotl(v, n), j + n - 32) == Bit(v, j)
  {
  }

  /** In any set of bits `m`, `F` takes `y` where `x` is set and `z` where it is not. */
  lemma FBits(x: bv32, y: bv32, z: bv32, m: bv32)
    ensures x & m == m ==> F(x, y, z) & m == y & m
    ensures x & m == 0 ==> F(x, y, z) & m == z & m
  {
  }

  /** `G` takes `x` where `z` is set and `y` where it is not. */
  lemma GBits(x: bv32, y: bv32, z: bv32, m: bv32)
    ensures z & m == m ==> G(x, y, z) & m == x & m
    ensures z & m == 0 ==> G(x, y, z) & m == y & m
  {
  }

  /** `H` takes `z` where `x` and `y` are the same, and its complement where they are not. */
  lemma HBits(x: bv32, y: bv32, z: bv32, m: bv32)
    ensures x & m == y & m ==> H(x, y, z) & m == z & m
    ensures x & m == !y & m ==> H(x, y, z) & m == !z & m
  {
  }

  /** `I` takes `y` where `z` is set and `x` is not, and its complement everywhere else. */
  lemma IBits(x: bv32, y: bv32, z: bv32, m: bv32)
    ensures !x & z & m == m ==> I(x, y, z) & m == y & m
    ensures !x & z & m == 0 ==> I(x, y, z) & m == !y & m
  {
  }

  // ---- operations on four registers, whatever they compute ---------------

  /** An operation: its number and the registers in the roles a, b, c, d give the new a. */
  type Op<!W> = (nat, W, W, W, W) -> W

  /** Operation `i` as section 3.4 of RFC 1321 writes it: A, D, C, B take turns as `a`. */
  function Turn<W>(f: Op<W>, i: nat, r: Regs<W>): (r': Regs<W>)
  {
    if i % 4 == 0 then r.(a := f(i, r.a, r.b, r.c, r.d))
    else if i % 4 == 1 then r.(d := f(i, r.d, r.a, r.b, r.c))
    else if i % 4 == 2 then r.(c := f(i, r.c, r.d, r.a, r.b))
    else r.(b := f(i, r.b, r.c, r.d, r.a))
  }

  function Turns<W>(f: Op<W>, n: nat, r: Regs<W>): (r': Regs<W>)
  {
    if n == 0 then r else Turn(f, n - 1, Turns(f, n - 1, r))
  }

  /** Where rotating registers stand before operation `i`. */
  function Rotated<W>(i: nat, r: Regs<W>): (s: Regs<W>)
  {
    if i % 4 == 0 then r
    else if i % 4 == 1 then Regs(r.d, r.a, r.b, r.c)
    else if i % 4 == 2 then Regs(r.c, r.d, r.a, r.b)
    else Regs(r.b, r.c, r.d, r.a)
  }

  /** Taking turns as `a` and moving the registers round are the same, whatever the operation is. */
  lemma TurnsRotate<W>(f: Op<W>, i: nat, r: Regs<W>)
    ensures var s := Rotated(i, r);
            Rotated(i + 1, Turn(f, i, r)) == Regs(s.d, f(i, s.a, s.b, s.c, s.d), s.b, s.c)
  {
    if i % 4 == 0 {
      assert (i + 1) % 4 == 1;
    } else if i % 4 == 1 {
      assert (i + 1) % 4 == 2;
    } else if i % 4 == 2 {
      assert (i + 1) % 4 == 3;
    } else {
      assert (i + 1) % 4 == 0;
    }
  }

  lemma {:induction false} TurnsAgree<W(!new)>(f: Op<W>, g: Op<W>, n: nat, r: Regs<W>)
    requires forall i: nat, a, b, c, d :: i < n ==> f(i, a, b, c, d) == g(i, a, b, c, d)
    ensures Turns(f, n, r) == Turns(g, n, r)
  {
    if n > 0 {
      TurnsAgree(f, g, n - 1, r);
    }
  }

  /** The loop of one round: after each operation the registers move on by one. */
  method Rotate<W>(f: Op<W>, from: nat, to: nat, s0: Regs<W>, ghost r: Regs<W>) returns (s: Regs<W>)
    requires from <= to && s0 == Rotated(from, Turns(f, from, r))
    ensures s == Rotated(to, Turns(f, to, r))
  {
    s := s0;
    for i := from to to
      invariant s == Rotated(i, Turns(f, i, r))
    {
      TurnsRotate(f, i, Turns(f, i, r));
      var a := f(i, s.a, s.b, s.c, s.d);
      s := Regs(s.d, a, s.b, s.c);
    }
  }

  // ---- the operations of MD5 --------------------------------------------

  /** `a = b + ((a + f(b, c, d) + X[k] + T[i]) <<< s)`. */
  function Mix(i: nat, word: bv32, a: bv32, b: bv32, c: bv32, d: bv32): (r: bv32)
  {
    if i >= 64 then a else Combine(Aux(i, b, c, d), a, Sine(i), word, Shift(i), b)
  }

  function Combine(f: bv32, a: bv32, t: bv32, word: bv32, s: bv32, b: bv32): (r: bv32)
    requires 0 < s < 32
  {
    b + Rotl(f + a + t + word, s)
  }

  /** Operation `i` with the word that RFC 1321 lists for it. */
  function Listed(x: seq<bv32>, i: nat, a: bv32, b: bv32, c: bv32, d: bv32): (r: bv32)
    requires |x| == 16
  {
    Mix(i, x[if i < 64 then WordOf(i) else 0], a, b, c, d)
  }

  /** `MD5_OP`, with the index expressions of the four loops. */
  function Coded(x: seq<bv32>, i: nat, a: bv32, b: bv32, c: bv32, d: bv32): (r: bv32)
    requires |x| == 16
  {
    Mix(i, x[if i < 64 then WordIndex(i) else 0], a, b, c, d)
  }

  /** The index expressions of the four loops. */
  function WordIndex(i: nat): (j: nat)
    requires i < 64
    ensures j < 16
  {
    if i < 16 then i
    else if i < 32 then (i * 5 + 1) % 16
    else if i < 48 then (i * 3 + 5) % 16
    else (i * 7) % 16
  }

  lemma SecondRoundWords(k: nat)
    requires k < 16
    ensures WordIndex(16 + k) == WordOf(16 + k)
  {
    assert k == 0 || k == 1 || k == 2 || k == 3 || k == 4 || k == 5 || k == 6 || k == 7
           || k == 8 || k == 9 || k == 10 || k == 11 || k == 12 || k == 13 || k == 14 || k == 15;
  }

  lemma ThirdRoundWords(k: nat)
    requires k < 16
    ensures WordIndex(32 + k) == WordOf(32 + k)
  {
    assert k == 0 || k == 1 || k == 2 || k == 3 || k == 4 || k == 5 || k == 6 || k == 7
           || k == 8 || k == 9 || k == 10 || k == 11 || k == 12 || k == 13 || k == 14 || k == 15;
  }

  lemma FourthRoundWords(k: nat)
    requires k < 16
    ensures WordIndex(48 + k) == WordOf(48 + k)
  {
    assert k == 0 || k == 1 || k == 2 || k == 3 || k == 4 || k == 5 || k == 6 || k == 7
           || k == 8 || k == 9 || k == 10 || k == 11 || k == 12 || k == 13 || k == 14 || k == 15;
  }

  lemma WordIndexIsWordOf(i: nat)
    requires i < 64
    ensures WordIndex(i) == WordOf(i)
  {
    if i >= 48 {
      FourthRoundWords(i - 48);
    } else if i >= 32 {
      ThirdRoundWords(i - 32);
    } else if i >= 16 {
      SecondRoundWords(i - 16);
    }
  }

  lemma CodedIsListed(x: seq<bv32>, i: nat, a: bv32, b: bv32, c: bv32, d: bv32)
    requires |x| == 16
    ensures Coded(x, i, a, b, c, d) == Listed(x, i, a, b, c, d)
  {
    if i < 64 {
      WordIndexIsWordOf(i);
    }
  }

  function ToBits(b: Byte): (v: bv8)
  {
    b as bv8
  }

  function FromBits(v: bv8): (b: Byte)
  {
    v as Byte
  }

  /** The byte of weight `256^k` in a word. */
  function Octet(w: bv32, k: nat): (v: bv8)
    requires k < 4
  {
    (if k == 0 then w & 0xff else if k == 1 then (w >> 8) & 0xff else if k == 2 then (w >> 16) & 0xff else (w >> 24) & 0xff) as bv8
  }

  function Join(a: bv8, b: bv8, c: bv8, d: bv8): (w: bv32)
  {
    (a as bv32) | ((b as bv32) << 8) | ((c as bv32) << 16) | ((d as bv32) << 24)
  }

  lemma OctetsOfJoin(a: bv8, b: bv8, c: bv8, d: bv8)
    ensures var w := Join(a, b, c, d); Octet(w, 0) == a && Octet(w, 1) == b && Octet(w, 2) == c && Octet(w, 3) == d
  {
  }

  lemma JoinOfOctets(w: bv32)
    ensures Join(Octet(w, 0), Octet(w, 1), Octet(w, 2), Octet(w, 3)) == w
  {
  }

  /** `le32toh` of the bytes from `4 * i` on. */
  function LoadWord(b: seq<Byte>, i: nat): (w: bv32)
    requires 4 * i + 4 <= |b|
  {
    Join(ToBits(b[4 * i]), ToBits(b[4 * i + 1]), ToBits(b[4 * i + 2]), ToBits(b[4 * i + 3]))
  }

  /** The first byte of a word is its least significant one. */
  lemma LoadWordOctets(b: seq<Byte>, i: nat, k: nat)
    requires 4 * i + 4 <= |b| && k < 4
    ensures Octet(LoadWord(b, i), k) == ToBits(b[4 * i + k])
  {
    OctetsOfJoin(ToBits(b[4 * i]), ToBits(b[4 * i + 1]), ToBits(b[4 * i + 2]), ToBits(b[4 * i + 3]));
    assert k == 0 || k == 1 || k == 2 || k == 3;
  }

  function LoadBlock(b: seq<Byte>): (x: seq<bv32>)
    requires |b| == BLOCK_SIZE
    ensures |x| == 16
  {
    seq(16, i requires 0 <= i < 16 => LoadWord(b, i))
  }

  function Operations(x: seq<bv32>): (f: Op<bv32>)
    requires |x| == 16
  {
    (i: nat, a: bv32, b: bv32, c: bv32, d: bv32) => Listed(x, i, a, b, c, d)
  }

  function CodedOperations(x: seq<bv32>): (f: Op<bv32>)
    requires |x| == 16
  {
    (i: nat, a: bv32, b: bv32, c: bv32, d: bv32) => Coded(x, i, a, b, c, d)
  }

  /** One block of the digest, by section 3.4 of RFC 1321. */
  function Compress(r: State, block: seq<Byte>): (r': State)
    requires |block| == BLOCK_SIZE
  {
    var x := LoadBlock(block);
    Add(r, Turns(Operations(x), 64, r))
  }

  function Add(r: State, o: State): (s: State)
  {
    Regs(r.a + o.a, r.b + o.b, r.c + o.c, r.d + o.d)
  }

  lemma CodedTurns(x: seq<bv32>, r: State)
    requires |x| == 16
    ensures Turns(CodedOperations(x), 64, r) == Turns(Operations(x), 64, r)
  {
    var f, g := CodedOperations(x), Operations(x);
    forall i: nat, a, b, c, d ensures f(i, a, b, c, d) == g(i, a, b, c, d) {
      CodedIsListed(x, i, a, b, c, d);
    }
    TurnsAgree(f, g, 64, r);
  }

  /** `md5_update_one`: four loops over rotating registers. */
  method UpdateOne(state: State, block: seq<Byte>) returns (r: State)
    requires |block| == BLOCK_SIZE
    ensures r == Compress(state, block)
  {
    var buf := LoadBlock(block);
    var f := CodedOperations(buf);
    var s := Rotate(f, 0, 16, state, state);
    s := Rotate(f, 16, 32, s, state);
    s := Rotate(f, 32, 48, s, state);
    s := Rotate(f, 48, 64, s, state);
    CodedTurns(buf, state);
    r := Add(state, s);
  }

  /** `htole32`. */
  function StoreWord(w: bv32): (b: seq<Byte>)
    ensures |b| == 4
  {
    [FromBits(Octet(w, 0)), FromBits(Octet(w, 1)), FromBits(Octet(w, 2)), FromBits(Octet(w, 3))]
  }

  lemma BitsOfByte(v: bv8)
    ensures ToBits(FromBits(v)) == v
  {
  }

  /** The least significant byte is stored first, and loading gives the word back. */
  lemma LoadOfStore(w: bv32, k: nat)
    requires k < 4
    ensures ToBits(StoreWord(w)[k]) == Octet(w, k) && LoadWord(StoreWord(w), 0) == w
  {
    BitsOfByte(Octet(w, 0));
    BitsOfByte(Octet(w, 1));
    BitsOfByte(Octet(w, 2));
    BitsOfByte(Octet(w, 3));
    JoinOfOctets(w);
    assert k == 0 || k == 1 || k == 2 || k == 3;
  }

  function Encode(r: State): (b: seq<Byte>)
    ensures |b| == 16
  {
    StoreWord(r.a) + StoreWord(r.b) + StoreWord(r.c) + StoreWord(r.d)
  }

  /** The MD5 digest of a message. */
  function Digest(m: seq<Byte>): (d: seq<Byte>)
    ensures |d| == 16
  {
    Encode(Digested(Block, IV, m))
  }

  /** What one block does to the registers. */
  function Block(r: State, block: seq<Byte>): (r': State)
  {
    if |block| == BLOCK_SIZE then Compress(r, block) else r
  }

  // ---- any split of a message -------------------------------------------

  function Concat(chunks: seq<seq<Byte>>): (m: seq<Byte>)
  {
    if chunks == [] then [] else Concat(chunks[..|chunks| - 1]) + chunks[|chunks| - 1]
  }

  /** However a message is split into updates, the digest is that of the whole message. */
  method DigestOfChunks(chunks: seq<seq<Byte>>) returns (dst: seq<Byte>)
    ensures dst == Digest(Concat(chunks))
  {
    var ctx := new Ctx(Block, IV);
    for i := 0 to |chunks|
      invariant ctx.Valid() && fresh(ctx) && fresh(ctx.buf)
      invariant ctx.Message() == Concat(chunks[..i])
    {
      assert chunks[..i + 1][..i] == chunks[..i];
      ctx.Update(chunks[i]);
    }
    assert chunks[..|chunks|] == chunks;
    var regs := ctx.Finish();
    dst := Encode(regs);
  }
}
