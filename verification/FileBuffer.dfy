/**
The buffer of an open bookmark file. Writes, truncations and reads on it are those of a plain
byte string in which holes are zero.
*/
module FileBuffer {
  import opened Basics

  const FH_BUF_BLOCKSIZE: nat := 512
  const NEWLINE: Byte := 10

  /** The room to allocate beyond `n` bytes: up to the next whole block. */
  function Reserved(n: nat): (r: nat)
    ensures 0 < r <= FH_BUF_BLOCKSIZE && (n + r) % FH_BUF_BLOCKSIZE == 0
  {
    FH_BUF_BLOCKSIZE - n % FH_BUF_BLOCKSIZE
  }

  // ---- byte strings -----------------------------------------------------

  /** The string cut or filled up with zeros to `n` bytes. */
  function Resized(s: seq<Byte>, n: nat): (r: seq<Byte>)
    ensures |r| == n && forall i :: 0 <= i < n ==> r[i] == if i < |s| then s[i] else 0
  {
    if n <= |s| then s[..n] else s + Zeros(n - |s|)
  }

  /** The string with `data` at `off`, and zeros before it where there was nothing. */
  function Written(s: seq<Byte>, off: nat, data: seq<Byte>): (r: seq<Byte>)
  {
    if data == [] then s
    else
      var end := off + |data|;
      Resized(s, off) + data + (if end < |s| then s[end..] else [])
  }

  /** At most `max` bytes from `off` on. */
  function Sliced(s: seq<Byte>, off: nat, max: nat): (r: seq<Byte>)
    ensures |r| <= max && (|r| < max ==> off + |r| >= |s|)
    ensures forall i :: 0 <= i < |r| ==> off + i < |s| && r[i] == s[off + i]
  {
    if off >= |s| then [] else if |s| - off > max then s[off..off + max] else s[off..]
  }

  /** A write is seen by every later read of its range, and by no other. */
  lemma ReadAfterWrite(s: seq<Byte>, off: nat, data: seq<Byte>, i: nat)
    requires data != [] && i < |Written(s, off, data)|
    ensures |Written(s, off, data)| == if off + |data| > |s| then off + |data| else |s|
    ensures Written(s, off, data)[i] ==
            if off <= i < off + |data| then data[i - off] else if i < |s| then s[i] else 0
  {
    var r, end := Resized(s, off), off + |data|;
    if i < off {
      assert Written(s, off, data)[i] == r[i];
    } else if i < end {
      assert Written(s, off, data)[i] == data[i - off];
    }
  }

  /** What was cut off does not come back. */
  lemma ShrinkThenGrow(s: seq<Byte>, m: nat, n: nat)
    requires m <= |s| && m <= n
    ensures Resized(Resized(s, m), n) == s[..m] + Zeros(n - m)
  {
  }

  // ---- the handle -------------------------------------------------------

  datatype Status = Ok | EFBIG

  class Handle {
    var buf: array<Byte>
    var dataLen: nat
    var dirty: bool
    const fileMax: nat

    ghost predicate Valid()
      reads this, buf
    {
      dataLen <= buf.Length
    }

    /** The file. */
    ghost function Content(): (s: seq<Byte>)
      requires Valid()
      reads this, buf
    {
      buf[..dataLen]
    }

    constructor (fileMax: nat)
      ensures Valid() && fresh(buf) && Content() == [] && !dirty && this.fileMax == fileMax
    {
      this.fileMax, dataLen, dirty := fileMax, 0, false;
      buf := new Byte[0];
    }

    /** `xrealloc`: the first bytes are kept, the others are whatever `junk` says. */
    method Reserve(n: nat, junk: nat -> Byte)
      requires Valid()
      modifies this`buf
      ensures Valid() && n <= buf.Length && old(buf.Length) <= buf.Length
      ensures buf == old(buf) || fresh(buf)
      ensures Content() == old(Content())
    {
      if n <= buf.Length {
        return;
      }
      buf := Enlarged(buf, n + Reserved(n), junk);
    }

    /** `bm_write`. */
    method Write(data: seq<Byte>, off0: nat, append: bool, junk: nat -> Byte) returns (r: Status)
      requires Valid()
      modifies this, buf
      ensures Valid() && (buf == old(buf) || fresh(buf))
      ensures var off := if append then |old(Content())| else off0;
              && (r == Ok <==> data == [] || off + |data| <= fileMax)
              && Content() == (if r == Ok then Written(old(Content()), off, data) else old(Content()))
      ensures |Content()| <= fileMax || |Content()| == |old(Content())|
      ensures dirty == (old(dirty) || (r == Ok && data != []))
    {
      if data == [] {
        return Ok;
      }
      var off := if append then dataLen else off0;
      var max := off + |data|;
      if max > fileMax {
        return EFBIG;
      }
      Reserve(max, junk);
      Store(data, off);
      dirty := true;
      return Ok;
    }

    /** The data first, then zeros in the hole before it. */
    method Store(data: seq<Byte>, off: nat)
      requires Valid() && off + |data| <= buf.Length && data != []
      modifies this`dataLen, buf
      ensures Valid() && Content() == Written(old(Content()), off, data)
    {
      ghost var was := buf[..];
      assert was[..dataLen] == buf[..dataLen];
      CopyInto(buf, off, data);
      if off > dataLen {
        CopyInto(buf, dataLen, Zeros(off - dataLen));
        StoredPastEnd(was, dataLen, off, data);
        assert buf[..][..off + |data|] == buf[..off + |data|];
        dataLen := off + |data|;
      } else if off + |data| > dataLen {
        StoredAcrossEnd(was, dataLen, off, data);
        assert buf[..][..off + |data|] == buf[..off + |data|];
        dataLen := off + |data|;
      } else {
        StoredWithin(was, dataLen, off, data);
        assert buf[..][..dataLen] == buf[..dataLen];
      }
    }

    /** `bm_setattr` with a new size. */
    method Truncate(n: nat, junk: nat -> Byte) returns (r: Status)
      requires Valid()
      modifies this, buf
      ensures Valid() && (buf == old(buf) || fresh(buf))
      ensures r == Ok <==> n <= fileMax
      ensures Content() == if r == Ok then Resized(old(Content()), n) else old(Content())
      ensures dirty == (old(dirty) || r == Ok)
    {
      if n > fileMax {
        return EFBIG;
      }
      if dataLen < n {
        Reserve(n, junk);
        FillTo(n);
      }
      Cut(n);
      dirty := true;
      return Ok;
    }

    /** Zeros after the data, up to `n`. */
    method FillTo(n: nat)
      requires Valid() && dataLen <= n <= buf.Length
      modifies buf
      ensures buf[..n] == Resized(old(Content()), n)
    {
      ghost var was := buf[..];
      assert was[..dataLen] == buf[..dataLen];
      CopyInto(buf, dataLen, Zeros(n - dataLen));
      assert buf[..n] == buf[..][..n];
      assert Splice(was, dataLen, Zeros(n - dataLen))[..n] == was[..dataLen] + Zeros(n - dataLen);
    }

    method Cut(n: nat)
      requires Valid() && n <= buf.Length
      modifies this`dataLen
      ensures Valid() && Content() == buf[..n] && buf == old(buf)
    {
      dataLen := n;
    }

    /** `bm_read` once the content is there: at most `max` bytes from `off` on. */
    method Read(max: nat, off0: nat) returns (s: seq<Byte>)
      requires Valid()
      ensures s == Sliced(Content(), off0, max)
    {
      var off := if off0 > dataLen then dataLen else off0;
      var n := dataLen - off;
      if n > max {
        n := max;
      }
      s := buf[off..off + n];
      assert buf[..dataLen][off..off + n] == s;
    }

    /** `bm_read_cb`: the stored value becomes the content, with a newline after it when asked for. */
    method Load(val: seq<Byte>, eol: bool, readonly: bool, junk: nat -> Byte)
      requires Valid()
      modifies this, buf
      ensures Valid() && (buf == old(buf) || fresh(buf)) && dirty == old(dirty)
      ensures Content() == Loaded(val, eol)
    {
      var n := |val| + if readonly then (if eol then 1 else 0) else Reserved(|val|);
      if buf.Length < n {
        buf := new Byte[n](i requires 0 <= i => junk(i));
      }
      CopyInto(buf, 0, Loaded(val, eol));
      dataLen := |Loaded(val, eol)|;
      assert buf[..dataLen] == buf[..][..dataLen];
    }

    /** `bm_open` for writing with truncation. */
    method OpenTruncated()
      requires Valid()
      modifies this`dataLen, this`dirty
      ensures Valid() && Content() == [] && dirty
    {
      dataLen, dirty := 0, true;
    }

    /**
    `bm_do_write`: what is stored, when there is something to store. With newlines added and no
    content, the byte that is looked at is the one before the buffer, `before`; if that is a
    newline, the length wraps round.
    */
    method Flush(eol: bool, before: Byte) returns (r: Flushed)
      requires Valid()
      modifies this`dirty
      ensures Valid() && dirty == (old(dirty) && r == Overrun)
      ensures r == Nothing <==> !old(dirty)
      ensures r == Overrun <==> old(dirty) && eol && Content() == [] && before == NEWLINE
      ensures r.Value? ==> r.val == Stored(Content(), eol)
    {
      if !dirty {
        return Nothing;
      }
      var n := dataLen;
      if eol && (if n == 0 then before else buf[n - 1]) == NEWLINE {
        if n == 0 {
          return Overrun;
        }
        n := n - 1;
      }
      dirty := false;
      assert buf[..dataLen][..n] == buf[..n];
      return Value(buf[..n]);
    }
  }

  datatype Flushed = Nothing | Value(val: seq<Byte>) | Overrun

  function Loaded(val: seq<Byte>, eol: bool): (s: seq<Byte>)
  {
    if eol then val + [NEWLINE] else val
  }

  function Stored(s: seq<Byte>, eol: bool): (val: seq<Byte>)
  {
    if eol && s != [] && s[|s| - 1] == NEWLINE then s[..|s| - 1] else s
  }

  /** What is loaded is stored again as it was. */
  lemma StoreOfLoad(val: seq<Byte>, eol: bool)
    ensures Stored(Loaded(val, eol), eol) == val
  {
  }

  /** What was stored is loaded as it was exactly when it ends the way files are shown. */
  lemma LoadOfStore(s: seq<Byte>, eol: bool)
    ensures Loaded(Stored(s, eol), eol) == s <==> !eol || (s != [] && s[|s| - 1] == NEWLINE)
  {
    if eol && !(s != [] && s[|s| - 1] == NEWLINE) {
      assert |Loaded(s, eol)| == |s| + 1;
    }
  }

  lemma StoredPastEnd(b: seq<Byte>, len: nat, off: nat, data: seq<Byte>)
    requires len < off && off + |data| <= |b| && data != []
    ensures Splice(Splice(b, off, data), len, Zeros(off - len))[..off + |data|] == Written(b[..len], off, data)
  {
    var c := Splice(b, off, data);
    var z := Zeros(off - len);
    assert Splice(c, len, z) == c[..len] + z + c[off..];
    assert c[..len] == b[..len] && c[off..][..|data|] == data;
  }

  lemma StoredAcrossEnd(b: seq<Byte>, len: nat, off: nat, data: seq<Byte>)
    requires off <= len < off + |data| <= |b|
    ensures Splice(b, off, data)[..off + |data|] == Written(b[..len], off, data)
  {
    assert b[..len][..off] == b[..off];
  }

  lemma StoredWithin(b: seq<Byte>, len: nat, off: nat, data: seq<Byte>)
    requires off + |data| <= len <= |b| && data != []
    ensures Splice(b, off, data)[..len] == Written(b[..len], off, data)
  {
    assert b[..len][..off] == b[..off];
    var end := off + |data|;
    assert b[end..][..len - end] == b[..len][end..];
  }

  // ---- whole runs -------------------------------------------------------

  datatype Op = Write(data: seq<Byte>, off: nat, append: bool) | Truncate(size: nat) | Read(max: nat, at: nat)

  /** What the caller gets. */
  datatype Answer = Done | Refused | Bytes(s: seq<Byte>)

  /** An operation on a plain string: the new string, and what the caller gets. */
  function Step(s: seq<Byte>, fileMax: nat, op: Op): (r: (seq<Byte>, Answer))
  {
    match op
    case Write(data, off0, append) =>
      var off := if append then |s| else off0;
      if data == [] || off + |data| <= fileMax then (Written(s, off, data), Done) else (s, Refused)
    case Truncate(size) => if size <= fileMax then (Resized(s, size), Done) else (s, Refused)
    case Read(max, at) => (s, Bytes(Sliced(s, at, max)))
  }

  function Result(s: seq<Byte>, fileMax: nat, ops: seq<Op>): (r: seq<Byte>)
  {
    if ops == [] then s else Step(Result(s, fileMax, ops[..|ops| - 1]), fileMax, ops[|ops| - 1]).0
  }

  function Answers(s: seq<Byte>, fileMax: nat, ops: seq<Op>): (r: seq<Answer>)
  {
    if ops == [] then []
    else
      var n := |ops| - 1;
      Answers(s, fileMax, ops[..n]) + [Step(Result(s, fileMax, ops[..n]), fileMax, ops[n]).1]
  }

  /** No run makes a file larger than the limit, unless it was. */
  lemma {:induction false} RunStaysWithin(s: seq<Byte>, fileMax: nat, ops: seq<Op>)
    ensures |Result(s, fileMax, ops)| <= if |s| > fileMax then |s| else fileMax
  {
    if ops != [] {
      var n := |ops| - 1;
      RunStaysWithin(s, fileMax, ops[..n]);
      match ops[n]
      case Write(data, off0, append) =>
        var t := Result(s, fileMax, ops[..n]);
        var off := if append then |t| else off0;
        if data != [] && off + |data| <= fileMax {
          ReadAfterWrite(t, off, data, off);
        }
      case _ =>
    }
  }

  /** Any run on a handle has the outcome of the same run on a plain string. */
  method Run(h: Handle, ops: seq<Op>, junk: nat -> Byte) returns (answers: seq<Answer>)
    requires h.Valid()
    modifies h, h.buf
    ensures h.Valid()
    ensures h.Content() == Result(old(h.Content()), h.fileMax, ops)
    ensures answers == Answers(old(h.Content()), h.fileMax, ops)
  {
    ghost var s := h.Content();
    answers := [];
    for i := 0 to |ops|
      invariant h.Valid() && (h.buf == old(h.buf) || fresh(h.buf))
      invariant h.Content() == Result(s, h.fileMax, ops[..i])
      invariant answers == Answers(s, h.fileMax, ops[..i])
    {
      assert ops[..i + 1][..i] == ops[..i];
      var got := Do(h, ops[i], junk);
      answers := answers + [got];
    }
    assert ops[..|ops|] == ops;
  }

  method Do(h: Handle, op: Op, junk: nat -> Byte) returns (got: Answer)
    requires h.Valid()
    modifies h, h.buf
    ensures h.Valid() && (h.buf == old(h.buf) || fresh(h.buf))
    ensures (h.Content(), got) == Step(old(h.Content()), h.fileMax, op)
  {
    match op
    case Write(data, off, append) =>
      var r := h.Write(data, off, append, junk);
      got := if r == Ok then Done else Refused;
    case Truncate(size) =>
      var r := h.Truncate(size, junk);
      got := if r == Ok then Done else Refused;
    case Read(max, at) =>
      var s := h.Read(max, at);
      got := Bytes(s);
  }
}
