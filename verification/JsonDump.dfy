/**
Writing a bookmark file: the text comes in chunks, is collected in a buffer, and goes to the
file in whole blocks. The kernel may write less than it was asked to.
*/
module JsonDump {
  import opened Basics

  const DUMP_BUFSIZE: nat := 32 * 1024

  /** What the kernel does with a request: writes some of it, is interrupted, or fails. */
  datatype Answer = Wrote(n: nat) | Interrupted | Failed

  /** The bytes of a list of buffers, in order. */
  function Flat(iov: seq<seq<Byte>>): (s: seq<Byte>)
  {
    if iov == [] then [] else iov[0] + Flat(iov[1..])
  }

  /** An open file, and how the kernel is going to answer; after that it writes all it is given. */
  class File {
    var bytes: seq<Byte>
    var answers: seq<Answer>

    constructor (answers: seq<Answer>)
      ensures bytes == [] && this.answers == answers
    {
      bytes, this.answers := [], answers;
    }

    /** `writev`: the first bytes of all buffers together. */
    method Writev(iov: seq<seq<Byte>>) returns (a: Answer)
      modifies this
      ensures a.Wrote? ==> a.n <= |Flat(iov)| && bytes == old(bytes) + Flat(iov)[..a.n]
      ensures !a.Wrote? ==> bytes == old(bytes)
      ensures if old(answers) == [] then a == Wrote(|Flat(iov)|) && answers == [] else answers == old(answers)[1..]
    {
      if answers == [] {
        a := Wrote(|Flat(iov)|);
        bytes := bytes + Flat(iov);
        assert Flat(iov)[..|Flat(iov)|] == Flat(iov);
        return;
      }
      a := answers[0];
      answers := answers[1..];
      if a.Wrote? {
        var n := if a.n <= |Flat(iov)| then a.n else |Flat(iov)|;
        a := Wrote(n);
        bytes := bytes + Flat(iov)[..n];
      }
    }

    /** `xwritev`: all buffers get written, whatever the partial writes, or there is an error. */
    method WriteAll(iov0: seq<seq<Byte>>) returns (ok: bool)
      requires iov0 != []
      modifies this
      ensures ok ==> bytes == old(bytes) + Flat(iov0)
      ensures !ok ==> old(bytes) <= bytes && bytes <= old(bytes) + Flat(iov0)
    {
      var iov := iov0;
      ghost var whole := bytes + Flat(iov0);
      while true
        invariant iov != [] && bytes + Flat(iov) == whole && old(bytes) <= bytes
        decreases |answers|, if iov == [] then 0 else 1
      {
        ghost var was := bytes;
        var a := Writev(iov);
        match a {
          case Failed =>
            assert bytes <= whole;
            return false;
          case Interrupted =>
          case Wrote(n) =>
            ghost var flat := Flat(iov);
            iov := Advance(iov, n);
            assert was + flat == was + flat[..n] + flat[n..];
            if iov == [] {
              return true;
            }
        }
      }
    }
  }

  /** The inner loop of `xwritev`: drops the buffers that are written, and the start of the next. */
  method Advance(iov0: seq<seq<Byte>>, n0: nat) returns (iov: seq<seq<Byte>>)
    requires iov0 != [] && n0 <= |Flat(iov0)|
    ensures Flat(iov) == Flat(iov0)[n0..]
    ensures iov == [] <==> n0 == |Flat(iov0)|
  {
    iov := iov0;
    var n: nat := n0;
    ghost var done: seq<Byte> := [];
    while n >= |iov[0]|
      invariant iov != [] && done + Flat(iov) == Flat(iov0) && |done| + n == n0
      decreases |iov|
    {
      FlatFirst(iov);
      if |iov| == 1 {
        assert iov[1..] == [];
        return [];
      }
      Assoc(done, iov[0], Flat(iov[1..]));
      done, n := done + iov[0], n - |iov[0]|;
      iov := iov[1..];
    }
    FlatFirst(iov);
    ghost var head, rest := iov[0], Flat(iov[1..]);
    iov := [iov[0][n..]] + iov[1..];
    FlatFirst(iov);
    Dropped(done, head, rest, n);
  }

  lemma FlatFirst(iov: seq<seq<Byte>>)
    requires iov != []
    ensures Flat(iov) == iov[0] + Flat(iov[1..])
  {
  }

  lemma Dropped<X>(a: seq<X>, b: seq<X>, c: seq<X>, n: nat)
    requires n < |b|
    ensures (a + (b + c))[|a| + n..] == b[n..] + c
  {
  }

  // ---- the buffer -------------------------------------------------------

  /** A whole number of blocks. */
  ghost predicate Blocks(size: nat, n: nat)
  {
    exists k: nat :: n == size * k
  }

  lemma BlocksAdd(size: nat, m: nat, n: nat)
    requires Blocks(size, m) && Blocks(size, n)
    ensures Blocks(size, m + n)
  {
    var j: nat :| m == size * j;
    var k: nat :| n == size * k;
    assert m + n == size * (j + k);
  }

  lemma Monotone(size: nat, j: nat, k: nat)
    requires j <= k
    ensures size * j <= size * k
  {
  }

  /** The block size divides the size of the buffer, so what is left over came with the last chunk. */
  lemma LeftOver(size: nat, dataLen: nat, n: nat)
    requires size > 0 && Blocks(size, DUMP_BUFSIZE) && dataLen <= DUMP_BUFSIZE < dataLen + n
    ensures var left := (dataLen + n) % size;
            left <= n && left < size <= DUMP_BUFSIZE && Blocks(size, dataLen + n - left)
  {
    var total := dataLen + n;
    var q, left := total / size, total % size;
    assert total == size * q + left;
    var k: nat :| DUMP_BUFSIZE == size * k;
    assert size * (q + 1) == size * q + size;
    if q < k {
      Monotone(size, q + 1, k);
    } else {
      Monotone(size, k, q);
    }
    assert k >= 1;
    Monotone(size, 1, k);
    assert total - left == size * q;
  }

  class Dump {
    const fd: File
    const blksize: nat
    const buf: array<Byte>
    var dataLen: nat

    ghost predicate Valid()
      reads this
    {
      blksize > 0 && Blocks(blksize, DUMP_BUFSIZE) && buf.Length == DUMP_BUFSIZE && dataLen <= DUMP_BUFSIZE
    }

    /** All text so far: what is in the file, and the tail that is still in the buffer. */
    ghost function Text(): (s: seq<Byte>)
      requires Valid()
      reads this, buf, fd
    {
      fd.bytes + buf[..dataLen]
    }

    /** The start of `json_dumpfd_ex`: an odd block size is not used. */
    constructor (fd: File, size: nat)
      requires fd.bytes == []
      ensures Valid() && this.fd == fd && fresh(buf) && Text() == []
      ensures Blocks(blksize, |fd.bytes|)
    {
      this.fd := fd;
      blksize := if size == 0 || DUMP_BUFSIZE % size != 0 then DUMP_BUFSIZE else size;
      buf := new Byte[DUMP_BUFSIZE](_ => 0);
      dataLen := 0;
      new;
      if blksize == DUMP_BUFSIZE {
        assert DUMP_BUFSIZE == blksize * 1;
      } else {
        assert DUMP_BUFSIZE == blksize * (DUMP_BUFSIZE / blksize);
      }
      assert |fd.bytes| == blksize * 0;
    }

    /** `dump_cb`: only whole blocks reach the file, and nothing is lost. */
    method Put(chunk: seq<Byte>) returns (ok: bool)
      requires Valid() && Blocks(blksize, |fd.bytes|)
      modifies this`dataLen, buf, fd
      ensures Valid()
      ensures ok ==> Text() == old(Text()) + chunk && Blocks(blksize, |fd.bytes|)
      ensures !ok ==> fd.bytes <= old(Text()) + chunk
    {
      if dataLen + |chunk| <= DUMP_BUFSIZE {
        Keep(chunk);
        return true;
      }
      LeftOver(blksize, dataLen, |chunk|);
      var left := (dataLen + |chunk|) % blksize;
      ok := Spill(chunk, |chunk| - left);
    }

    method Keep(chunk: seq<Byte>)
      requires Valid() && dataLen + |chunk| <= DUMP_BUFSIZE
      modifies this`dataLen, buf
      ensures Valid() && Text() == old(Text()) + chunk
    {
      CopyInto(buf, dataLen, chunk);
      dataLen := dataLen + |chunk|;
    }

    /** Writes the buffer and the first `n` bytes of the chunk; the rest of it is buffered. */
    method Spill(chunk: seq<Byte>, n: nat) returns (ok: bool)
      requires Valid() && Blocks(blksize, |fd.bytes|)
      requires n <= |chunk| && |chunk| - n <= DUMP_BUFSIZE && Blocks(blksize, dataLen + n)
      modifies this`dataLen, buf, fd
      ensures Valid()
      ensures ok ==> Text() == old(Text()) + chunk && Blocks(blksize, |fd.bytes|)
      ensures !ok ==> fd.bytes <= old(Text()) + chunk
    {
      ghost var was, head := fd.bytes, buf[..dataLen];
      var iov := [buf[..dataLen], chunk[..n]];
      FlatTwo(iov);
      SplitChunk(was, head, chunk, n);
      ok := fd.WriteAll(iov);
      if !ok {
        return;
      }
      BlocksAdd(blksize, |was|, dataLen + n);
      CopyInto(buf, 0, chunk[n..]);
      dataLen := |chunk| - n;
    }

    /** The end of `json_dumpfd_ex`: what is left in the buffer. */
    method Finish() returns (ok: bool)
      requires Valid()
      modifies fd
      ensures ok ==> fd.bytes == old(Text())
      ensures !ok ==> fd.bytes <= old(Text())
    {
      if dataLen > 0 {
        assert Flat([buf[..dataLen]]) == buf[..dataLen];
        ok := fd.WriteAll([buf[..dataLen]]);
        return;
      }
      assert fd.bytes + [] == fd.bytes;
      return true;
    }
  }

  lemma FlatTwo(iov: seq<seq<Byte>>)
    requires |iov| == 2
    ensures Flat(iov) == iov[0] + iov[1]
  {
    FlatFirst(iov);
    FlatFirst(iov[1..]);
    assert iov[1..][1..] == [];
  }

  lemma SplitChunk<X>(was: seq<X>, head: seq<X>, chunk: seq<X>, n: nat)
    requires n <= |chunk|
    ensures was + (head + chunk[..n]) + chunk[n..] == was + head + chunk
    ensures was + (head + chunk[..n]) <= was + head + chunk
  {
    assert chunk == chunk[..n] + chunk[n..];
  }

  /** `json_dumpfd_ex`: whatever the chunks and the answers of the kernel, the file is the text. */
  method DumpAll(chunks: seq<seq<Byte>>, size: nat, fd: File) returns (ok: bool)
    requires fd.bytes == []
    modifies fd
    ensures ok ==> fd.bytes == Flat(chunks)
    ensures !ok ==> fd.bytes <= Flat(chunks)
  {
    var d := new Dump(fd, size);
    for i := 0 to |chunks|
      invariant d.Valid() && d.fd == fd && fresh(d) && fresh(d.buf) && Blocks(d.blksize, |fd.bytes|)
      invariant d.Text() + Flat(chunks[i..]) == Flat(chunks)
    {
      FlatFirst(chunks[i..]);
      assert chunks[i..][1..] == chunks[i + 1..];
      ghost var text := d.Text();
      Assoc(text, chunks[i], Flat(chunks[i + 1..]));
      ok := d.Put(chunks[i]);
      if !ok {
        assert fd.bytes <= Flat(chunks);
        return;
      }
    }
    assert d.Text() + [] == d.Text();
    ok := d.Finish();
  }
}
