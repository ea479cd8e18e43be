/**
Reordering the children of a folder. Both backends promise the same list edit; the Firefox
backend gets it by renumbering positions, the Chromium backend by editing an array.
*/
module Siblings {
  datatype PermdOp = Swap | MoveBefore | MoveAfter | Other

  /** Where element `i` ends up when it is moved next to element `j`. */
  function Target(op: PermdOp, i: nat, j: nat): (t: int)
  {
    if op == MoveAfter then (if i < j then j else j + 1)
    else (if i < j then j - 1 else j)
  }

  function RemoveAt<T>(s: seq<T>, i: nat): (r: seq<T>)
    requires i < |s|
  {
    s[..i] + s[i + 1..]
  }

  function InsertAt<T>(s: seq<T>, i: nat, x: T): (r: seq<T>)
    requires i <= |s|
  {
    s[..i] + [x] + s[i..]
  }

  /** The list edit: swap elements `i` and `j`, or take `i` out and put it back next to `j`. */
  function Permuted<T>(s: seq<T>, op: PermdOp, i: nat, j: nat): (r: seq<T>)
    requires i < |s| && j < |s| && i != j && op != Other
  {
    if op == Swap then s[i := s[j]][j := s[i]]
    else InsertAt(RemoveAt(s, i), Target(op, i, j), s[i])
  }

  /** After the edit the moved element is the neighbour of element `j`, on the side asked for. */
  lemma PermutedIsNextTo<T>(s: seq<T>, op: PermdOp, i: nat, j: nat)
    requires i < |s| && j < |s| && i != j && (op == MoveBefore || op == MoveAfter)
    ensures var r := Permuted(s, op, i, j);
            && |r| == |s|
            && RemoveAt(r, Target(op, i, j)) == RemoveAt(s, i)
            && r[Target(op, i, j)] == s[i]
            && (op == MoveBefore ==> r[Target(op, i, j) + 1] == s[j])
            && (op == MoveAfter ==> r[Target(op, i, j) - 1] == s[j])
  {
  }

  /** A swap exchanges two elements and leaves the others. */
  lemma PermutedIsSwapped<T>(s: seq<T>, i: nat, j: nat)
    requires i < |s| && j < |s| && i != j
    ensures var r := Permuted(s, Swap, i, j);
            && |r| == |s| && r[i] == s[j] && r[j] == s[i]
            && forall k :: 0 <= k < |s| && k != i && k != j ==> r[k] == s[k]
  {
  }

  // ---- the array edit of the Chromium backend ---------------------------

  lemma InsertThenRemove<T>(s: seq<T>, i: nat, at: nat)
    requires i < at <= |s|
    ensures RemoveAt(InsertAt(s, at, s[i]), i) == InsertAt(RemoveAt(s, i), at - 1, s[i])
  {
    var x, y := RemoveAt(InsertAt(s, at, s[i]), i), InsertAt(RemoveAt(s, i), at - 1, s[i]);
    assert |x| == |y|;
    forall k | 0 <= k < |x| ensures x[k] == y[k] {
    }
  }

  lemma RemoveThenInsert<T>(s: seq<T>, i: nat)
    requires i < |s|
    ensures InsertAt(RemoveAt(s, i), i, s[i]) == s
  {
  }

  /** `bookmark_permute` on the array of children, given the indices of the two nodes. */
  method PermuteArray<T>(children: seq<T>, op: PermdOp, idx1: nat, idx2: nat) returns (ok: bool, result: seq<T>)
    requires idx1 < |children| && idx2 < |children| && idx1 != idx2
    ensures ok <==> op != Other
    ensures ok ==> result == Permuted(children, op, idx1, idx2)
    ensures !ok ==> result == children
  {
    result := children;
    var at := idx2;
    match op {
      case Swap =>
        var node1 := result[idx1];
        result := result[idx1 := result[idx2]];
        result := result[idx2 := node1];
        return true, result;
      case Other =>
        return false, result;
      case MoveAfter =>
        at := at + 1;
      case MoveBefore =>
    }
    if idx1 == at {
      RemoveThenInsert(children, idx1);
      return true, result;
    }
    var node1 := result[idx1];
    if idx1 > at {
      result := RemoveAt(result, idx1);
    }
    result := InsertAt(result, at, node1);
    if idx1 < at {
      InsertThenRemove(children, idx1, at);
      result := RemoveAt(result, idx1);
    }
    return true, result;
  }

  // ---- the renumbering of the Firefox backend ---------------------------

  /**
  What `mozbm_pos_shift` and the two position updates make of the position `q` of a sibling,
  when the row at `p1` is moved next to, or swapped with, the row at `p2`.
  */
  function Renumbered(op: PermdOp, p1: int, p2: int, q: int): (r: int)
    requires op != Other
  {
    if op == Swap then (if q == p1 then p2 else if q == p2 then p1 else q)
    else if p1 < p2 then
      var end := if op == MoveBefore then p2 - 1 else p2;
      if q == p1 then end else if p1 < q <= end then q - 1 else q
    else
      var end := if op == MoveAfter then p2 + 1 else p2;
      if q == p1 then end else if end <= q < p1 then q + 1 else q
  }

  /** Renumbering keeps positions distinct and between the least and the greatest one. */
  lemma RenumberedInjective(op: PermdOp, p1: int, p2: int, q: int, q': int)
    requires op != Other && p1 != p2 && q != q'
    ensures Renumbered(op, p1, p2, q) != Renumbered(op, p1, p2, q')
  {
  }

  lemma RenumberedBounds(op: PermdOp, p1: int, p2: int, q: int, hi: int)
    requires op != Other && p1 != p2
    requires 0 <= p1 <= hi && 0 <= p2 <= hi && 0 <= q <= hi
    ensures 0 <= Renumbered(op, p1, p2, q) <= hi
  {
  }

  /** The index in `s` of element `k` of the permuted list. */
  function Source(op: PermdOp, i: nat, j: nat, k: nat): (m: int)
  {
    if op == Swap then (if k == i then j else if k == j then i else k)
    else
      var t := Target(op, i, j);
      if k == t then i else if i <= k < t then k + 1 else if t < k <= i then k - 1 else k
  }

  lemma PermutedAt<T>(op: PermdOp, s: seq<T>, i: nat, j: nat, k: nat)
    requires op != Other && i < |s| && j < |s| && i != j && k < |s|
    ensures |Permuted(s, op, i, j)| == |s|
    ensures 0 <= Source(op, i, j, k) < |s|
    ensures Permuted(s, op, i, j)[k] == s[Source(op, i, j, k)]
  {
    if op != Swap {
      MovedAt(s, i, Target(op, i, j), k);
    }
  }

  lemma MovedAt<T>(s: seq<T>, i: nat, t: nat, k: nat)
    requires i < |s| && t < |s| && k < |s|
    ensures var r := InsertAt(RemoveAt(s, i), t, s[i]);
            && |r| == |s|
            && r[k] == s[if k == t then i else if i <= k < t then k + 1 else if t < k <= i then k - 1 else k]
  {
    var u := RemoveAt(s, i);
    if k < t {
      assert InsertAt(u, t, s[i])[k] == u[k];
    } else if k > t {
      assert InsertAt(u, t, s[i])[k] == u[k - 1];
    }
  }

  /**
  Elements `k < l` of the permuted list stand at increasing positions after the renumbering,
  when the elements `m` and `n` of the list they come from were in the order of their positions.
  */
  lemma RenumberedSources(op: PermdOp, pi: int, pj: int, pm: int, pn: int,
                          i: nat, j: nat, m: nat, n: nat, k: nat, l: nat)
    requires op != Other && i != j && k < l
    requires m == Source(op, i, j, k) && n == Source(op, i, j, l)
    requires (i < j <==> pi < pj) && (i == j <==> pi == pj)
    requires (m < n <==> pm < pn) && (m == n <==> pm == pn)
    requires (i < m <==> pi < pm) && (i == m <==> pi == pm)
    requires (j < m <==> pj < pm) && (j == m <==> pj == pm)
    requires (i < n <==> pi < pn) && (i == n <==> pi == pn)
    requires (j < n <==> pj < pn) && (j == n <==> pj == pn)
    ensures Renumbered(op, pi, pj, pm) < Renumbered(op, pi, pj, pn)
  {
  }

  lemma PermutedSameElements<T>(s: seq<T>, op: PermdOp, i: nat, j: nat)
    requires i < |s| && j < |s| && i != j && op != Other
    ensures forall x :: x in Permuted(s, op, i, j) <==> x in s
  {
    var r := Permuted(s, op, i, j);
    forall x | x in r ensures x in s {
      var k :| 0 <= k < |r| && r[k] == x;
      PermutedAt(op, s, i, j, k);
    }
    forall x | x in s ensures x in r {
      var m :| 0 <= m < |s| && s[m] == x;
      var k := Destination(op, i, j, m);
      PermutedAt(op, s, i, j, k);
    }
  }

  /** Where element `m` of the list ends up. */
  function Destination(op: PermdOp, i: nat, j: nat, m: nat): (k: int)
  {
    if op == Swap then (if m == i then j else if m == j then i else m)
    else
      var t := Target(op, i, j);
      if m == i then t else if i < m <= t then m - 1 else if t <= m < i then m + 1 else m
  }

  /** The edit keeps distinct elements distinct. */
  lemma PermutedDistinct<T>(s: seq<T>, op: PermdOp, i: nat, j: nat)
    requires i < |s| && j < |s| && i != j && op != Other
    requires forall k, l :: 0 <= k < l < |s| ==> s[k] != s[l]
    ensures var r := Permuted(s, op, i, j);
            |r| == |s| && forall k, l :: 0 <= k < l < |r| ==> r[k] != r[l]
  {
    var r := Permuted(s, op, i, j);
    PermutedAt(op, s, i, j, 0);
    forall k, l | 0 <= k < l < |r| ensures r[k] != r[l] {
      PermutedAt(op, s, i, j, k);
      PermutedAt(op, s, i, j, l);
      var m, n := Source(op, i, j, k), Source(op, i, j, l);
      assert m != n;
      assert m < n ==> s[m] != s[n];
      assert n < m ==> s[n] != s[m];
    }
  }
}
