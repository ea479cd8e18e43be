/** Machine words as the 64 bits they hold, least significant bit first. */
module Words {
  const WORD_SIZE: nat := 64

  type Word = w: seq<bool> | |w| == WORD_SIZE witness seq(WORD_SIZE, _ => false)

  const ZERO: Word := seq(WORD_SIZE, _ => false)

  function BitSet(w: Word, i: nat): (r: Word)
    requires i < WORD_SIZE
  {
    w[i := true]
  }

  function BitUnset(w: Word, i: nat): (r: Word)
    requires i < WORD_SIZE
  {
    w[i := false]
  }

  function And(a: Word, b: Word): (r: Word)
  {
    seq(WORD_SIZE, i requires 0 <= i < WORD_SIZE => a[i] && b[i])
  }

  function Or(a: Word, b: Word): (r: Word)
  {
    seq(WORD_SIZE, i requires 0 <= i < WORD_SIZE => a[i] || b[i])
  }

  function Xor(a: Word, b: Word): (r: Word)
  {
    seq(WORD_SIZE, i requires 0 <= i < WORD_SIZE => a[i] != b[i])
  }

  /** `a << n`: the top `n` bits fall off. */
  function ShiftLeft(a: Word, n: nat): (r: Word)
    requires n <= WORD_SIZE
  {
    seq(WORD_SIZE, i requires 0 <= i < WORD_SIZE => i >= n && a[i - n])
  }

  /** `a >> n`. */
  function ShiftRight(a: Word, n: nat): (r: Word)
    requires n <= WORD_SIZE
  {
    seq(WORD_SIZE, i requires 0 <= i < WORD_SIZE => i + n < WORD_SIZE && a[i + n])
  }

  /** The number a sequence of bits stands for. */
  function Value(bits: seq<bool>): (v: nat)
  {
    if bits == [] then 0 else (if bits[0] then 1 else 0) + 2 * Value(bits[1..])
  }

  function Pow2(n: nat): (p: nat)
    ensures p > 0
  {
    if n == 0 then 1 else 2 * Pow2(n - 1)
  }

  lemma {:induction false} ValueBound(bits: seq<bool>)
    ensures Value(bits) < Pow2(|bits|)
  {
    if bits != [] {
      ValueBound(bits[1..]);
    }
  }

  lemma {:induction false} ValueOfZeros(bits: seq<bool>)
    requires Value(bits) == 0
    ensures forall i :: 0 <= i < |bits| ==> !bits[i]
  {
    if bits != [] {
      ValueOfZeros(bits[1..]);
      assert forall i :: 0 < i < |bits| ==> bits[i] == bits[1..][i - 1];
    }
  }

  lemma {:induction false} ValueInjective(a: seq<bool>, b: seq<bool>)
    requires |a| == |b|
    requires Value(a) == Value(b)
    ensures a == b
  {
    if a != [] {
      assert a[0] == b[0];
      ValueInjective(a[1..], b[1..]);
      assert a == [a[0]] + a[1..];
      assert b == [b[0]] + b[1..];
    }
  }

  lemma {:induction false} ValueLeadingZeros(bits: seq<bool>, n: nat)
    requires n <= |bits|
    requires forall i :: n <= i < |bits| ==> !bits[i]
    ensures Value(bits) == Value(bits[..n])
  {
    if bits == [] {
    } else if n == 0 {
      ValueLeadingZeros(bits[1..], 0);
      assert bits[1..][..0] == [];
    } else {
      ValueLeadingZeros(bits[1..], n - 1);
      assert bits[1..][..n - 1] == bits[..n][1..];
    }
  }

  /** `count_tz`: the index of the lowest set bit, or the word size when there is none. */
  function CountTrailingZeros(w: Word): (n: nat)
    ensures n <= WORD_SIZE
    ensures forall i :: 0 <= i < n ==> !w[i]
    ensures n < WORD_SIZE ==> w[n]
  {
    FirstSet(w, 0)
  }

  function FirstSet(w: Word, from: nat): (n: nat)
    requires from <= WORD_SIZE
    ensures from <= n <= WORD_SIZE
    ensures forall i :: from <= i < n ==> !w[i]
    ensures n < WORD_SIZE ==> w[n]
    decreases WORD_SIZE - from
  {
    if from == WORD_SIZE || w[from] then from else FirstSet(w, from + 1)
  }

  /** The `n` bits of a number. */
  function Bits(v: nat, n: nat): (bits: seq<bool>)
    ensures |bits| == n
  {
    if n == 0 then [] else [v % 2 == 1] + Bits(v / 2, n - 1)
  }

  lemma {:induction false} ValueOfBits(v: nat, n: nat)
    requires v < Pow2(n)
    ensures Value(Bits(v, n)) == v
  {
    if n > 0 {
      ValueOfBits(v / 2, n - 1);
      assert Bits(v, n)[1..] == Bits(v / 2, n - 1);
    }
  }
}
