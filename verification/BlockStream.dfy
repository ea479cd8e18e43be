/**
Feeding a message to a block digest: bytes are buffered until a block is complete, and the
last blocks carry the padding and the length of sections 3.1 and 3.2 of RFC 1321. What a
block does to the registers is a parameter.
*/
module BlockStream {
  import opened Basics

  const BLOCK_SIZE: nat := 64
  const LAST_SIZE: nat := 56

  /** The registers after the whole blocks of `b`, for whatever a block does to them. */
  function Chain<S>(f: (S, seq<Byte>) -> S, st: S, b: seq<Byte>): (r: S)
    decreases |b|
  {
    if |b| < BLOCK_SIZE then st
    else
      var n := |b| - BLOCK_SIZE;
      f(Chain(f, st, b[..n]), b[n..])
  }

  lemma ChainNext<S>(f: (S, seq<Byte>) -> S, st: S, b: seq<Byte>, block: seq<Byte>)
    requires |block| == BLOCK_SIZE
    ensures Chain(f, st, b + block) == f(Chain(f, st, b), block)
  {
    assert (b + block)[..|b|] == b && (b + block)[|b|..] == block;
  }

  /** The 64-bit length, low-order byte first. */
  function LittleEndian(v: nat, n: nat): (b: seq<Byte>)
    ensures |b| == n
    decreases n
  {
    if n == 0 then [] else [(v % 256) as Byte] + LittleEndian(v / 256, n - 1)
  }

  /** The number whose digits in base 256 are `b`, the least significant first. */
  function ValueOf(b: seq<Byte>): (v: nat)
  {
    if b == [] then 0 else b[0] as nat + 256 * ValueOf(b[1..])
  }

  function Power256(n: nat): (p: nat)
    ensures p > 0
  {
    if n == 0 then 1 else 256 * Power256(n - 1)
  }

  lemma {:induction false} LittleEndianValue(v: nat, n: nat)
    requires v < Power256(n)
    ensures ValueOf(LittleEndian(v, n)) == v
    decreases n
  {
    if n > 0 {
      LittleEndianValue(v / 256, n - 1);
      assert LittleEndian(v, n)[1..] == LittleEndian(v / 256, n - 1);
    }
  }

  /** The length field is the number of bits, modulo 2^64. */
  lemma BitsValue(n: nat)
    ensures ValueOf(Bits(n)) == n * 8 % TWO_64
  {
    assert Power256(4) == 0x1_0000_0000;
    assert Power256(8) == TWO_64;
    LittleEndianValue(n * 8 % TWO_64, 8);
  }

  /** How many zeros bring a message of `n` bytes, with its 0x80, to 56 modulo 64. */
  function ZeroCount(n: nat): (k: nat)
    ensures k < BLOCK_SIZE && (n + 1 + k) % BLOCK_SIZE == LAST_SIZE
  {
    (119 - n % BLOCK_SIZE) % BLOCK_SIZE
  }

  /** The length in bits of `n` bytes, as 64 bits. */
  function Bits(n: nat): (b: seq<Byte>)
    ensures |b| == 8
  {
    LittleEndian(n * 8 % TWO_64, 8)
  }

  /** Sections 3.1 and 3.2 of RFC 1321. */
  function Padding(n: nat): (p: seq<Byte>)
  {
    PaddingWith(ZeroCount(n), Bits(n))
  }

  function PaddingWith(zeros: nat, bits: seq<Byte>): (p: seq<Byte>)
  {
    [0x80 as Byte] + Zeros(zeros) + bits
  }

  /** The registers after a whole message and its padding. */
  function Digested<S>(f: (S, seq<Byte>) -> S, start: S, m: seq<Byte>): (r: S)
  {
    Chain(f, start, m + Padding(|m|))
  }

  // ---- the running digest -----------------------------------------------

  class Ctx<S> {
    var state: S
    var len: nat
    var off: nat
    const buf: array<Byte>
    const start: S
    const compress: (S, seq<Byte>) -> S
    ghost var done: seq<Byte>
    ghost var blocks: nat
    ghost var wraps: nat

    /** The whole blocks of the message are in the registers, the rest is in the buffer. */
    ghost predicate Valid()
      reads this, buf
    {
      Running() && len < TWO_64 && len + TWO_64 * wraps == |Message()|
    }

    ghost predicate Running()
      reads this, buf
    {
      && buf.Length == BLOCK_SIZE && off < BLOCK_SIZE
      && state == Chain(compress, start, done)
      && |done| == BLOCK_SIZE * blocks
    }

    /** All bytes so far. */
    ghost function Message(): (m: seq<Byte>)
      requires buf.Length == BLOCK_SIZE && off < BLOCK_SIZE
      reads this, buf
    {
      done + buf[..off]
    }

    /** `md5_init`. */
    constructor (compress: (S, seq<Byte>) -> S, start: S)
      ensures this.compress == compress && this.start == start
      ensures Valid() && fresh(buf) && Message() == []
    {
      this.compress, this.start, state := compress, start, start;
      len, off, done, blocks, wraps := 0, 0, [], 0, 0;
      buf := new Byte[BLOCK_SIZE](_ => 0);
    }

    /** `md5_update`. */
    method Update(src: seq<Byte>)
      requires Valid()
      modifies this, buf
      ensures Valid()
      ensures Message() == old(Message()) + src
    {
      AddLength(|src|);
      TakeIn(src);
    }

    /** The length is a 64-bit counter. */
    method AddLength(n: nat)
      modifies this`len, this`wraps
      ensures len < TWO_64 && len + TWO_64 * wraps == old(len) + TWO_64 * old(wraps) + n
    {
      wraps := wraps + (len + n) / TWO_64;
      len := (len + n) % TWO_64;
    }

    /** `md5_update`, but for the length. */
    method TakeIn(src: seq<Byte>)
      requires Running()
      modifies this`state, this`off, this`done, this`blocks, buf
      ensures Running()
      ensures Message() == old(Message()) + src
    {
      if off == 0 {
        assert Message() == done;
        TakeRest(src);
      } else if |src| < BLOCK_SIZE - off {
        Keep(src);
      } else {
        FillAndTakeRest(src);
      }
    }

    method FillAndTakeRest(src: seq<Byte>)
      requires Running() && 0 < off < BLOCK_SIZE <= off + |src|
      modifies this`state, this`off, this`done, this`blocks, buf
      ensures Running()
      ensures Message() == old(Message()) + src
    {
      var rest := FillBlock(src);
      TakeRest(rest);
    }

    /** Bytes that do not complete the block in the buffer stay there. */
    method Keep(src: seq<Byte>)
      requires Running() && off + |src| < BLOCK_SIZE
      modifies this`off, buf
      ensures Running()
      ensures Message() == old(Message()) + src
    {
      CopyInto(buf, off, src);
      off := off + |src|;
    }

    /** The second half of `md5_update`: whole blocks are taken in, the rest is kept in the buffer. */
    method TakeRest(rest: seq<Byte>)
      requires Running()
      modifies this`state, this`off, this`done, this`blocks, buf
      ensures Running()
      ensures Message() == old(done) + rest
    {
      var n;
      ghost var k;
      n, k := WholeBlocks(|rest|);
      state := Absorb(state, rest[..n], start, done, compress, k);
      Refill(rest[n..]);
      SplitAt(done, rest, n);
      done, blocks := done + rest[..n], blocks + k;
    }

    /** The buffer starts again with fewer bytes than a block. */
    method Refill(tail: seq<Byte>)
      requires buf.Length == BLOCK_SIZE && |tail| < BLOCK_SIZE
      modifies this`off, buf
      ensures off == |tail| && buf[..off] == tail
    {
      CopyInto(buf, 0, tail);
      off := |tail|;
    }

    /** Completes the block in the buffer and takes it in. */
    method FillBlock(src: seq<Byte>) returns (rest: seq<Byte>)
      requires Running() && 0 < off < BLOCK_SIZE <= off + |src|
      modifies this`state, this`done, this`blocks, buf
      ensures Running()
      ensures done + rest == old(Message()) + src
    {
      var rem := BLOCK_SIZE - off;
      CopyInto(buf, off, src[..rem]);
      assert buf[..] == buf[..off + rem];
      assert old(Message()) + src == done + (old(buf[..off]) + src[..rem]) + src[rem..];
      ChainNext(compress, start, done, buf[..]);
      state := compress(state, buf[..]);
      done, blocks := done + buf[..], blocks + 1;
      rest := src[rem..];
    }

    /** `md5_digest`: the registers after all bytes so far and the padding, after which the context is used up. */
    method Finish() returns (r: S)
      requires Valid()
      modifies this, buf
      ensures r == Digested(compress, start, old(Message()))
    {
      LastPadding(len, wraps, blocks, off, |Message()|);
      r := PadAndDigest(Bits(len));
    }

    /** The last one or two blocks, with the length given. */
    method PadAndDigest(bits: seq<Byte>) returns (r: S)
      requires Running() && |bits| == 8
      modifies this, buf
      ensures r == Chain(compress, start, old(Message()) + PaddingWith(ZerosFor(old(off)), bits))
    {
      ghost var tail := buf[..off];
      var at := off;
      buf[at] := 0x80;
      at := at + 1;
      assert buf[..at] == tail + [0x80];
      if at > LAST_SIZE {
        PaddedLong(done, tail, bits);
        LastButOne(at);
        at := 0;
      } else {
        PaddedShort(done, tail, bits);
      }
      LastBlock(at, bits);
      r := state;
    }

    /** Takes in the first `at` bytes of the buffer and zeros. */
    method LastButOne(at: nat)
      requires buf.Length == BLOCK_SIZE && state == Chain(compress, start, done) && at <= BLOCK_SIZE
      modifies this`state, this`done, buf
      ensures state == Chain(compress, start, done)
      ensures done == old(done) + (old(buf[..at]) + Zeros(BLOCK_SIZE - at))
    {
      CopyInto(buf, at, Zeros(BLOCK_SIZE - at));
      assert buf[..] == buf[..BLOCK_SIZE];
      ChainNext(compress, start, done, buf[..]);
      state := compress(state, buf[..]);
      done := done + buf[..];
    }

    /** Takes in the first `at` bytes of the buffer, zeros and the length. */
    method LastBlock(at: nat, bits: seq<Byte>)
      requires buf.Length == BLOCK_SIZE && state == Chain(compress, start, done)
      requires at <= LAST_SIZE && |bits| == 8
      modifies this`state, this`done, buf
      ensures state == Chain(compress, start, done)
      ensures done == old(done) + (old(buf[..at]) + Zeros(LAST_SIZE - at) + bits)
    {
      CopyInto(buf, at, Zeros(LAST_SIZE - at));
      ghost var head := buf[..LAST_SIZE];
      assert head == old(buf[..at]) + Zeros(LAST_SIZE - at);
      CopyInto(buf, LAST_SIZE, bits);
      assert buf[..] == buf[..BLOCK_SIZE];
      ChainNext(compress, start, done, buf[..]);
      state := compress(state, buf[..]);
      done := done + buf[..];
    }
  }

  /** The block loop of `md5_update`. */
  method Absorb<S>(state0: S, src: seq<Byte>, ghost start: S, ghost done: seq<Byte>, f: (S, seq<Byte>) -> S, ghost n: nat)
    returns (state: S)
    requires |src| == BLOCK_SIZE * n
    requires state0 == Chain(f, start, done)
    ensures state == Chain(f, start, done + src)
  {
    state := state0;
    var i := 0;
    ghost var k := 0;
    assert done + src[..0] == done;
    while i < |src|
      invariant i == BLOCK_SIZE * k && k <= n
      invariant state == Chain(f, start, done + src[..i])
    {
      var block := src[i..i + BLOCK_SIZE];
      ChainNext(f, start, done + src[..i], block);
      assert done + src[..i] + block == done + src[..i + BLOCK_SIZE];
      state := f(state, block);
      i, k := i + BLOCK_SIZE, k + 1;
    }
    assert src[..i] == src;
  }

  /** The bytes of `len` that are whole blocks. */
  method WholeBlocks(len: nat) returns (n: nat, ghost k: nat)
    ensures n <= len < n + BLOCK_SIZE && n == BLOCK_SIZE * k
  {
    n := len - len % BLOCK_SIZE;
    k := len / BLOCK_SIZE;
  }

  lemma SplitAt<X>(done: seq<X>, rest: seq<X>, n: nat)
    requires n <= |rest|
    ensures done + rest[..n] + rest[n..] == done + rest
  {
  }

  /** Only the low 64 bits of the length are kept, and only those are needed. */
  lemma LengthInBits(len: nat, wraps: nat, n: nat)
    requires len + TWO_64 * wraps == n
    ensures len * 8 % TWO_64 == n * 8 % TWO_64
  {
    assert n * 8 == len * 8 + TWO_64 * (wraps * 8);
    SameLowBits(len * 8, wraps * 8);
  }

  lemma SameLowBits(a: nat, k: nat)
    ensures (a + TWO_64 * k) % TWO_64 == a % TWO_64
  {
  }

  /** How many zeros follow a last block of `off` bytes: to the length in the same block, or in the next. */
  function ZerosFor(off: nat): (k: nat)
    requires off < BLOCK_SIZE
  {
    if off + 1 <= LAST_SIZE then LAST_SIZE - (off + 1) else BLOCK_SIZE - (off + 1) + LAST_SIZE
  }

  lemma ZerosAre(k: nat, off: nat)
    requires off < BLOCK_SIZE
    ensures ZeroCount(BLOCK_SIZE * k + off) == ZerosFor(off)
  {
  }

  /** What is written after the message is its padding. */
  lemma LastPadding(len: nat, wraps: nat, blocks: nat, off: nat, n: nat)
    requires off < BLOCK_SIZE && len + TWO_64 * wraps == n == BLOCK_SIZE * blocks + off
    ensures PaddingWith(ZerosFor(off), Bits(len)) == Padding(n)
  {
    LengthInBits(len, wraps, n);
    ZerosAre(blocks, off);
  }

  /** A message whose last block has room for the length. */
  lemma PaddedShort(done: seq<Byte>, tail: seq<Byte>, bits: seq<Byte>)
    requires |tail| + 1 <= LAST_SIZE
    ensures var zeros := LAST_SIZE - (|tail| + 1);
            done + (tail + [0x80] + Zeros(zeros) + bits) == (done + tail) + PaddingWith(zeros, bits)
  {
    Regroup(done, tail, [0x80], Zeros(LAST_SIZE - (|tail| + 1)), bits);
  }

  /** A message whose length goes into a block of its own. */
  lemma PaddedLong(done: seq<Byte>, tail: seq<Byte>, bits: seq<Byte>)
    requires LAST_SIZE < |tail| + 1 <= BLOCK_SIZE
    ensures var zeros := BLOCK_SIZE - (|tail| + 1);
            done + (tail + [0x80] + Zeros(zeros)) + ([] + Zeros(LAST_SIZE - 0) + bits) ==
            (done + tail) + PaddingWith(zeros + LAST_SIZE, bits)
  {
    var zeros := BLOCK_SIZE - (|tail| + 1);
    ZerosJoin(zeros, LAST_SIZE);
    RegroupLong(done, tail, [0x80], Zeros(zeros), Zeros(LAST_SIZE), bits);
  }

  lemma ZerosJoin(a: nat, b: nat)
    ensures Zeros(a + b) == Zeros(a) + Zeros(b)
  {
  }

  lemma Regroup<X>(done: seq<X>, tail: seq<X>, x: seq<X>, z: seq<X>, b: seq<X>)
    ensures done + (tail + x + z + b) == (done + tail) + (x + z + b)
  {
  }

  lemma RegroupLong<X>(done: seq<X>, tail: seq<X>, x: seq<X>, z: seq<X>, last: seq<X>, b: seq<X>)
    ensures done + (tail + x + z) + ([] + last + b) == (done + tail) + (x + (z + last) + b)
  {
  }
}
