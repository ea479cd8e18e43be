/** Types, sequences and memory operations shared by all parts of the model. */
module Basics {
  datatype Option<+T> = None | Some(value: T)

  newtype Byte = x: int | 0 <= x < 256

  /** The id of the folder that holds the roots of a Chromium bookmark file. */
  const ROOT_ID: nat := 0

  const TWO_64: nat := 0x1_0000_0000_0000_0000

  /** `BOOKMARKFS_MAX_ID`: three bits of an id are taken by its type. */
  const MAX_ID: nat := 0x1FFF_FFFF_FFFF_FFFF

  function Zeros(n: nat): (z: seq<Byte>)
    ensures |z| == n && forall i :: 0 <= i < n ==> z[i] == 0
  {
    seq(n, _ => 0 as Byte)
  }

  lemma Assoc<X>(a: seq<X>, b: seq<X>, c: seq<X>)
    ensures a + b + c == a + (b + c)
  {
  }

  /** The elements of `b` with `t` at `off`. */
  function Splice<X>(b: seq<X>, off: nat, t: seq<X>): (r: seq<X>)
    requires off + |t| <= |b|
    ensures |r| == |b|
  {
    b[..off] + t + b[off + |t|..]
  }

  lemma SpliceNext<X>(b: seq<X>, off: nat, t: seq<X>, i: nat)
    requires off + |t| <= |b| && i < |t|
    ensures Splice(b, off, t[..i])[off + i := t[i]] == Splice(b, off, t[..i + 1])
  {
  }

  /** `memcpy` and `memset`. */
  method CopyInto<X>(a: array<X>, off: nat, t: seq<X>)
    requires off + |t| <= a.Length
    modifies a
    ensures a[..] == Splice(old(a[..]), off, t)
    ensures a[..off + |t|] == old(a[..off]) + t
  {
    ghost var was := a[..];
    assert Splice(was, off, t[..0]) == was;
    for i := 0 to |t|
      invariant a[..] == Splice(was, off, t[..i])
    {
      a[off + i] := t[i];
      SpliceNext(was, off, t, i);
      assert a[..] == Splice(was, off, t[..i])[off + i := t[i]];
    }
    assert t[..|t|] == t;
  }

  /** `realloc`: a larger array that starts with the same elements; the others are up to `fill`. */
  method Enlarged<X>(a: array<X>, n: nat, fill: nat -> X) returns (b: array<X>)
    requires a.Length <= n
    ensures fresh(b) && b.Length == n && b[..a.Length] == a[..]
  {
    b := new X[n](i requires 0 <= i => fill(i));
    for i := 0 to a.Length
      invariant b[..i] == a[..i]
    {
      b[i] := a[i];
      assert b[..i + 1] == b[..i] + [b[i]];
      assert a[..i + 1] == a[..i] + [a[i]];
    }
    assert a[..a.Length] == a[..];
  }
}
