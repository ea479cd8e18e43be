/**
The bucket table of the hopscotch hash map, as a value: the layout of a bucket word,
the invariant that ties hop bits to entries, and the steps that keep it.
*/
module Hopscotch {
  import opened Basics
  import opened Words

  const HOP_IDX_WIDTH: nat := 6
  const EXP_MIN: nat := 8
  const EXP_MAX: nat := WORD_SIZE - HOP_IDX_WIDTH - 1

  datatype Bucket<+E> = Bucket(bits: Word, entry: Option<E>)

  type Table<+E> = seq<Bucket<E>>

  function BucketCount(exp: nat): (n: nat)
  {
    Pow2(exp) + (exp - 1)
  }

  function HopMask(exp: nat): (m: Word)
    requires exp <= WORD_SIZE
  {
    seq(WORD_SIZE, i => i < exp)
  }

  function HashMask(exp: nat): (m: Word)
    requires exp <= WORD_SIZE
  {
    seq(WORD_SIZE, i => i >= exp)
  }

  function HashToIdx(hashcode: Word, exp: nat): (i: nat)
    requires exp <= WORD_SIZE
  {
    Value(ShiftRight(hashcode, WORD_SIZE - exp))
  }

  lemma HashToIdxTop(hashcode: Word, exp: nat)
    requires exp <= WORD_SIZE
    ensures HashToIdx(hashcode, exp) == Value(hashcode[WORD_SIZE - exp..]) < Pow2(exp)
  {
    var s := ShiftRight(hashcode, WORD_SIZE - exp);
    ValueLeadingZeros(s, exp);
    assert s[..exp] == hashcode[WORD_SIZE - exp..];
    ValueBound(hashcode[WORD_SIZE - exp..]);
  }

  /** The hash fragment kept in a bucket loses nothing: with the home index it is the whole hashcode. */
  lemma FragmentAndHomeDetermineHash(h: Word, g: Word, exp: nat)
    requires exp <= WORD_SIZE
    requires HashToIdx(h, exp) == HashToIdx(g, exp)
    requires ShiftLeft(h, exp) == ShiftLeft(g, exp)
    ensures h == g
  {
    HashToIdxTop(h, exp);
    HashToIdxTop(g, exp);
    ValueInjective(h[WORD_SIZE - exp..], g[WORD_SIZE - exp..]);
    forall i | 0 <= i < WORD_SIZE ensures h[i] == g[i] {
      if i < WORD_SIZE - exp {
        assert ShiftLeft(h, exp)[i + exp] == h[i] && ShiftLeft(g, exp)[i + exp] == g[i];
      } else {
        assert h[i] == h[WORD_SIZE - exp..][i - (WORD_SIZE - exp)];
        assert g[i] == g[WORD_SIZE - exp..][i - (WORD_SIZE - exp)];
      }
    }
  }

  function Fragment(bits: Word, exp: nat): (f: Word)
    requires exp <= WORD_SIZE
  {
    And(bits, HashMask(exp))
  }

  lemma FragmentIgnoresHops(a: Word, b: Word, exp: nat)
    requires exp <= WORD_SIZE
    requires forall i :: exp <= i < WORD_SIZE ==> a[i] == b[i]
    ensures Fragment(a, exp) == Fragment(b, exp)
  {
  }

  /** The fragment test of the lookup loops. */
  predicate SameFragment(bits: Word, hashcode: Word, exp: nat)
    requires exp <= WORD_SIZE
  {
    Fragment(bits, exp) == ShiftLeft(hashcode, exp)
  }

  /** `bits = (bits & hop_mask) | (hashcode << exp)`: keep the hops, store the fragment. */
  function WithFragment(bits: Word, hashcode: Word, exp: nat): (r: Word)
    requires exp <= WORD_SIZE
    ensures forall j :: 0 <= j < exp ==> r[j] == bits[j]
    ensures SameFragment(r, hashcode, exp)
  {
    Or(And(bits, HopMask(exp)), ShiftLeft(hashcode, exp))
  }

  /** `bits ^= (bits ^ from) & hash_mask`: keep the hops, take the fragment of `from`. */
  function CopyFragment(bits: Word, from: Word, exp: nat): (r: Word)
    requires exp <= WORD_SIZE
    ensures forall j :: 0 <= j < exp ==> r[j] == bits[j]
    ensures Fragment(r, exp) == Fragment(from, exp)
  {
    Xor(bits, And(Xor(bits, from), HashMask(exp)))
  }

  function Home<E>(hash: E -> Word, exp: nat, x: E): (i: nat)
    requires exp <= WORD_SIZE
  {
    HashToIdx(hash(x), exp)
  }

  /** Every hop bit names a live slot whose entry hashes to the bucket holding the bit. */
  ghost predicate HopsNameEntries<E>(t: Table<E>, exp: nat, hash: E -> Word)
    requires exp <= WORD_SIZE
  {
    forall i, j {:trigger Named(t, exp, hash, i, j)} ::
      0 <= i < |t| && 0 <= j < exp && t[i].bits[j] ==> Named(t, exp, hash, i, j)
  }

  ghost predicate Named<E>(t: Table<E>, exp: nat, hash: E -> Word, i: nat, j: nat)
    requires exp <= WORD_SIZE
  {
    i + j < |t| && t[i + j].entry.Some? && Home(hash, exp, t[i + j].entry.value) == i
  }

  /** A live slot lies in the neighbourhood of its home, is named there, and keeps its hash fragment. */
  ghost predicate WellPlaced<E>(t: Table<E>, exp: nat, hash: E -> Word, s: nat)
    requires exp <= WORD_SIZE
    requires s < |t| && t[s].entry.Some?
  {
    var home := Home(hash, exp, t[s].entry.value);
    && home <= s < home + exp
    && t[home].bits[s - home]
    && SameFragment(t[s].bits, hash(t[s].entry.value), exp)
  }

  ghost predicate Inv<E>(t: Table<E>, exp: nat, hash: E -> Word)
  {
    && 0 < exp <= EXP_MAX
    && |t| == BucketCount(exp)
    && HopsNameEntries(t, exp, hash)
    && (forall s {:trigger WellPlaced(t, exp, hash, s)} ::
          0 <= s < |t| && t[s].entry.Some? ==> WellPlaced(t, exp, hash, s))
  }

  lemma HomeInTable<E>(t: Table<E>, exp: nat, h: Word)
    requires 0 < exp <= EXP_MAX && |t| == BucketCount(exp)
    ensures HashToIdx(h, exp) + exp <= |t|
  {
    HashToIdxTop(h, exp);
  }

  /** How many slots hold the entry `x`. */
  ghost function Count<E>(t: Table<E>, x: E): (n: nat)
  {
    if t == [] then 0
    else Count(t[..|t| - 1], x) + Holds(t[|t| - 1], x)
  }

  ghost function Holds<E>(b: Bucket<E>, x: E): (n: nat)
  {
    if b.entry == Some(x) then 1 else 0
  }

  lemma {:induction false} CountUpdate<E>(t: Table<E>, s: nat, b: Bucket<E>, x: E)
    requires s < |t|
    ensures Count(t[s := b], x) == Count(t, x) - Holds(t[s], x) + Holds(b, x)
  {
    var n := |t| - 1;
    if s == n {
      assert t[s := b][..n] == t[..n];
    } else {
      CountUpdate(t[..n], s, b, x);
      assert t[s := b][..n] == t[..n][s := b];
    }
  }

  /** Changing the bits of one bucket and then replacing another. */
  lemma CountUpdateTwo<E>(t: Table<E>, i: nat, bits: Word, s: nat, b: Bucket<E>, x: E)
    requires i < |t| && s < |t|
    ensures Count(t[i := t[i].(bits := bits)][s := b], x) == Count(t, x) - Holds(t[s], x) + Holds(b, x)
  {
    var u := t[i := t[i].(bits := bits)];
    CountUpdate(t, i, u[i], x);
    CountUpdate(u, s, b, x);
  }

  lemma {:induction false} LiveIff<E>(t: Table<E>, x: E)
    ensures Count(t, x) > 0 <==> exists s :: 0 <= s < |t| && t[s].entry == Some(x)
  {
    if t != [] {
      var n := |t| - 1;
      LiveIff(t[..n], x);
      if s :| 0 <= s < |t| && t[s].entry == Some(x) {
        if s < n {
          assert t[..n][s].entry == Some(x);
        }
      }
      if Count(t[..n], x) > 0 {
        var s :| 0 <= s < n && t[..n][s].entry == Some(x);
        assert t[s].entry == Some(x);
      }
    }
  }

  ghost predicate SameContents<E(!new)>(t: Table<E>, u: Table<E>)
  {
    forall x :: Count(t, x) == Count(u, x)
  }

  // ---- one displacement -------------------------------------------------

  /** A free bucket: what its slot holds does not count. */
  function Cleared<E>(t: Table<E>, s: nat): (r: Table<E>)
    requires s < |t|
  {
    t[s := t[s].(entry := None)]
  }

  ghost predicate CanDisplace<E>(t: Table<E>, exp: nat, swp: nat, hop: nat, free: nat)
  {
    && exp <= WORD_SIZE
    && swp + hop < free < |t| && free - swp < exp
    && t[swp].bits[hop]
  }

  /**
  What one round of the swap loop writes: bucket `swp` names `free` instead of `swp + hop`,
  and bucket `free` gets the fragment and entry of `swp + hop`, which keeps its stale copy.
  */
  function Displaced<E>(t: Table<E>, exp: nat, swp: nat, hop: nat, free: nat): (r: Table<E>)
    requires CanDisplace(t, exp, swp, hop, free)
    ensures |r| == |t|
  {
    var t1 := t[swp := t[swp].(bits := BitUnset(BitSet(t[swp].bits, free - swp), hop))];
    var from := t1[swp + hop];
    t1[free := Bucket(CopyFragment(t1[free].bits, from.bits, exp), from.entry)]
  }

  /** The displacement, bucket by bucket. */
  lemma DisplacedAt<E>(t: Table<E>, exp: nat, swp: nat, hop: nat, free: nat, i: nat)
    requires CanDisplace(t, exp, swp, hop, free) && i < |t|
    ensures var r := Cleared(Displaced(t, exp, swp, hop, free), swp + hop);
            && |r| == |t|
            && (forall j :: 0 <= j < exp ==>
                  (r[i].bits[j] <==> (i == swp && j == free - swp)
                                     || (t[i].bits[j] && !(i == swp && j == hop))))
            && r[i].entry == (if i == free then t[swp + hop].entry
                              else if i == swp + hop then None else t[i].entry)
            && Fragment(r[i].bits, exp) == Fragment(t[if i == free then swp + hop else i].bits, exp)
  {
    FragmentIgnoresHops(t[swp].bits, BitUnset(BitSet(t[swp].bits, free - swp), hop), exp);
  }

  lemma DisplacedHops<E>(t: Table<E>, exp: nat, hash: E -> Word, swp: nat, hop: nat, free: nat, i: nat, j: nat)
    requires exp <= WORD_SIZE && HopsNameEntries(t, exp, hash)
    requires CanDisplace(t, exp, swp, hop, free) && t[free].entry.None?
    requires i < |t| && j < exp
    requires Cleared(Displaced(t, exp, swp, hop, free), swp + hop)[i].bits[j]
    ensures Named(Cleared(Displaced(t, exp, swp, hop, free), swp + hop), exp, hash, i, j)
  {
    assert Named(t, exp, hash, swp, hop);
    DisplacedAt(t, exp, swp, hop, free, i);
    if i == swp && j == free - swp {
      DisplacedAt(t, exp, swp, hop, free, free);
    } else {
      assert Named(t, exp, hash, i, j);
      DisplacedAt(t, exp, swp, hop, free, i + j);
    }
  }

  lemma DisplacedPlaces<E>(t: Table<E>, exp: nat, hash: E -> Word, swp: nat, hop: nat, free: nat, s: nat)
    requires Inv(t, exp, hash)
    requires CanDisplace(t, exp, swp, hop, free) && t[free].entry.None?
    requires s < |t| && Cleared(Displaced(t, exp, swp, hop, free), swp + hop)[s].entry.Some?
    ensures WellPlaced(Cleared(Displaced(t, exp, swp, hop, free), swp + hop), exp, hash, s)
  {
    assert Named(t, exp, hash, swp, hop);
    DisplacedAt(t, exp, swp, hop, free, s);
    var was := if s == free then swp + hop else s;
    assert WellPlaced(t, exp, hash, was);
    DisplacedAt(t, exp, swp, hop, free, Home(hash, exp, t[was].entry.value));
  }

  lemma DisplacedCount<E>(t: Table<E>, exp: nat, swp: nat, hop: nat, free: nat, x: E)
    requires CanDisplace(t, exp, swp, hop, free)
    requires t[free].entry.None?
    ensures Count(Cleared(Displaced(t, exp, swp, hop, free), swp + hop), x) == Count(t, x)
  {
    var t2 := Displaced(t, exp, swp, hop, free);
    CountUpdateTwo(t, swp, BitUnset(BitSet(t[swp].bits, free - swp), hop), free, t2[free], x);
    CountUpdate(t2, swp + hop, t2[swp + hop].(entry := None), x);
  }

  /** A displacement keeps the invariant and the contents; the free slot is now `swp + hop`. */
  lemma DisplaceKeepsInv<E(!new)>(t: Table<E>, exp: nat, hash: E -> Word, swp: nat, hop: nat, free: nat)
    requires Inv(t, exp, hash)
    requires CanDisplace(t, exp, swp, hop, free) && t[free].entry.None?
    ensures var r := Cleared(Displaced(t, exp, swp, hop, free), swp + hop);
            Inv(r, exp, hash) && SameContents(r, t) && r[swp + hop].entry.None?
  {
    var r := Cleared(Displaced(t, exp, swp, hop, free), swp + hop);
    forall i, j | 0 <= i < |r| && 0 <= j < exp && r[i].bits[j] ensures Named(r, exp, hash, i, j) {
      DisplacedHops(t, exp, hash, swp, hop, free, i, j);
    }
    forall s | 0 <= s < |r| && r[s].entry.Some? ensures WellPlaced(r, exp, hash, s) {
      DisplacedPlaces(t, exp, hash, swp, hop, free, s);
    }
    forall x ensures Count(r, x) == Count(t, x) {
      DisplacedCount(t, exp, swp, hop, free, x);
    }
  }

  /** The contents are kept by any displacement, whatever the order of the table. */
  lemma DisplaceKeepsContents<E(!new)>(t: Table<E>, exp: nat, swp: nat, hop: nat, free: nat)
    requires CanDisplace(t, exp, swp, hop, free) && t[free].entry.None?
    ensures SameContents(Cleared(Displaced(t, exp, swp, hop, free), swp + hop), t)
  {
    var r := Cleared(Displaced(t, exp, swp, hop, free), swp + hop);
    forall x ensures Count(r, x) == Count(t, x) {
      DisplacedCount(t, exp, swp, hop, free, x);
    }
  }

  // ---- tables without gaps ----------------------------------------------

  /** The slots from `lo` up to `hi` are taken. */
  ghost predicate Taken<E>(t: Table<E>, lo: nat, hi: nat)
  {
    hi <= |t| && forall s :: lo <= s < hi ==> t[s].entry.Some?
  }

  /** `s` is the first free slot from `home` on. */
  ghost predicate FirstFree<E>(t: Table<E>, home: nat, s: nat)
  {
    home <= s < |t| && Taken(t, home, s) && t[s].entry.None?
  }

  /** No slot is free between the home of the entry in slot `p` and that slot, except `f`. */
  ghost predicate CloseUp<E>(t: Table<E>, exp: nat, hash: E -> Word, f: nat, p: nat)
    requires exp <= WORD_SIZE && p < |t| && t[p].entry.Some?
  {
    forall q :: Home(hash, exp, t[p].entry.value) <= q < p && q != f ==> t[q].entry.Some?
  }

  /** No slot but `f` is free between an entry and its home; what slot `f` holds does not count. */
  ghost predicate PackedBut<E>(t: Table<E>, exp: nat, hash: E -> Word, f: nat)
    requires exp <= WORD_SIZE
  {
    forall p {:trigger CloseUp(t, exp, hash, f, p)} :: 0 <= p < |t| && p != f && t[p].entry.Some? ==> CloseUp(t, exp, hash, f, p)
  }

  /** No slot is free between an entry and its home. */
  ghost predicate Packed<E>(t: Table<E>, exp: nat, hash: E -> Word)
    requires exp <= WORD_SIZE
  {
    PackedBut(t, exp, hash, |t|)
  }

  lemma PackedWithout<E>(t: Table<E>, exp: nat, hash: E -> Word, f: nat)
    requires exp <= WORD_SIZE && Packed(t, exp, hash) && f < |t|
    ensures PackedBut(t, exp, hash, f)
  {
    forall p | 0 <= p < |t| && p != f && t[p].entry.Some? ensures CloseUp(t, exp, hash, f, p) {
      assert CloseUp(t, exp, hash, |t|, p);
    }
  }

  /** A displacement moves the gap with the free slot. */
  lemma DisplaceMovesGap<E>(t: Table<E>, exp: nat, hash: E -> Word, swp: nat, hop: nat, free: nat)
    requires CanDisplace(t, exp, swp, hop, free) && Taken(t, swp, free)
    requires HopsNameEntries(Cleared(t, free), exp, hash) && PackedBut(t, exp, hash, free)
    ensures PackedBut(Displaced(t, exp, swp, hop, free), exp, hash, swp + hop)
  {
    var r, f := Displaced(t, exp, swp, hop, free), swp + hop;
    assert Named(Cleared(t, free), exp, hash, swp, hop);
    assert forall i :: 0 <= i < |t| && i != free ==> r[i].entry == t[i].entry;
    assert r[free].entry == t[f].entry;
    forall p | 0 <= p < |r| && p != f && r[p].entry.Some? ensures CloseUp(r, exp, hash, f, p) {
      if p != free {
        assert CloseUp(t, exp, hash, free, p);
      }
    }
  }

  /** An entry stored in the first free slot leaves no gap. */
  lemma StoreClosesGap<E>(t: Table<E>, exp: nat, hash: E -> Word, hop: nat, x: E)
    requires exp <= WORD_SIZE && hop < exp && Home(hash, exp, x) + hop < |t|
    requires Taken(t, Home(hash, exp, x), Home(hash, exp, x) + hop)
    requires PackedBut(t, exp, hash, Home(hash, exp, x) + hop)
    ensures Packed(Stored(t, exp, Home(hash, exp, x), hop, hash(x), x), exp, hash)
  {
    var home := Home(hash, exp, x);
    var r := Stored(t, exp, home, hop, hash(x), x);
    assert forall i :: 0 <= i < |t| && i != home + hop ==> r[i].entry == t[i].entry;
    assert r[home + hop].entry == Some(x);
    forall p | 0 <= p < |r| && p != |r| && r[p].entry.Some? ensures CloseUp(r, exp, hash, |r|, p) {
      if p != home + hop {
        assert CloseUp(t, exp, hash, home + hop, p);
      }
    }
  }

  // ---- storing and removing an entry ------------------------------------

  /** What insertion writes once a free slot `home + hop` has been found. */
  function Stored<E>(t: Table<E>, exp: nat, home: nat, hop: nat, hashcode: Word, x: E): (r: Table<E>)
    requires exp <= WORD_SIZE && hop < exp && home + hop < |t|
  {
    var t1 := t[home := t[home].(bits := BitSet(t[home].bits, hop))];
    t1[home + hop := Bucket(WithFragment(t1[home + hop].bits, hashcode, exp), Some(x))]
  }

  lemma StoredAt<E>(t: Table<E>, exp: nat, home: nat, hop: nat, hashcode: Word, x: E, i: nat)
    requires exp <= WORD_SIZE && hop < exp && home + hop < |t| && i < |t|
    ensures var r := Stored(t, exp, home, hop, hashcode, x);
            && |r| == |t|
            && (forall j :: 0 <= j < exp ==> (r[i].bits[j] <==> t[i].bits[j] || (i == home && j == hop)))
            && r[i].entry == (if i == home + hop then Some(x) else t[i].entry)
            && (if i == home + hop then SameFragment(r[i].bits, hashcode, exp)
                else Fragment(r[i].bits, exp) == Fragment(t[i].bits, exp))
  {
    FragmentIgnoresHops(t[home].bits, BitSet(t[home].bits, hop), exp);
  }

  lemma StoredHops<E>(t: Table<E>, exp: nat, hash: E -> Word, hop: nat, x: E, i: nat, j: nat)
    requires exp <= WORD_SIZE && HopsNameEntries(t, exp, hash)
    requires hop < exp && Home(hash, exp, x) + hop < |t|
    requires t[Home(hash, exp, x) + hop].entry.None?
    requires i < |t| && j < exp && Stored(t, exp, Home(hash, exp, x), hop, hash(x), x)[i].bits[j]
    ensures Named(Stored(t, exp, Home(hash, exp, x), hop, hash(x), x), exp, hash, i, j)
  {
    var home := Home(hash, exp, x);
    StoredAt(t, exp, home, hop, hash(x), x, i);
    if !(i == home && j == hop) {
      assert Named(t, exp, hash, i, j);
    }
    StoredAt(t, exp, home, hop, hash(x), x, i + j);
  }

  lemma StoredPlaces<E>(t: Table<E>, exp: nat, hash: E -> Word, hop: nat, x: E, s: nat)
    requires Inv(t, exp, hash)
    requires hop < exp && Home(hash, exp, x) + hop < |t|
    requires s < |t| && Stored(t, exp, Home(hash, exp, x), hop, hash(x), x)[s].entry.Some?
    ensures WellPlaced(Stored(t, exp, Home(hash, exp, x), hop, hash(x), x), exp, hash, s)
  {
    var home := Home(hash, exp, x);
    StoredAt(t, exp, home, hop, hash(x), x, s);
    if s == home + hop {
      StoredAt(t, exp, home, hop, hash(x), x, home);
    } else {
      assert WellPlaced(t, exp, hash, s);
      StoredAt(t, exp, home, hop, hash(x), x, Home(hash, exp, t[s].entry.value));
    }
  }

  lemma StoreKeepsInv<E>(t: Table<E>, exp: nat, hash: E -> Word, hop: nat, x: E)
    requires Inv(t, exp, hash)
    requires hop < exp && Home(hash, exp, x) + hop < |t|
    requires t[Home(hash, exp, x) + hop].entry.None?
    ensures Inv(Stored(t, exp, Home(hash, exp, x), hop, hash(x), x), exp, hash)
  {
    var r := Stored(t, exp, Home(hash, exp, x), hop, hash(x), x);
    forall i, j | 0 <= i < |r| && 0 <= j < exp && r[i].bits[j] ensures Named(r, exp, hash, i, j) {
      StoredHops(t, exp, hash, hop, x, i, j);
    }
    forall s | 0 <= s < |r| && r[s].entry.Some? ensures WellPlaced(r, exp, hash, s) {
      StoredPlaces(t, exp, hash, hop, x, s);
    }
  }

  lemma StoreCount<E>(t: Table<E>, exp: nat, home: nat, hop: nat, hashcode: Word, x: E, y: E)
    requires exp <= WORD_SIZE && hop < exp && home + hop < |t|
    requires t[home + hop].entry.None?
    ensures Count(Stored(t, exp, home, hop, hashcode, x), y) == Count(t, y) + (if x == y then 1 else 0)
  {
    var t1 := t[home := t[home].(bits := BitSet(t[home].bits, hop))];
    var b := Bucket(WithFragment(t1[home + hop].bits, hashcode, exp), Some(x));
    CountUpdateTwo(t, home, BitSet(t[home].bits, hop), home + hop, b, y);
  }

  /** What removal writes. */
  function Removed<E>(t: Table<E>, home: nat, hop: nat): (r: Table<E>)
    requires hop < WORD_SIZE && home + hop < |t|
  {
    var t1 := t[home := t[home].(bits := BitUnset(t[home].bits, hop))];
    t1[home + hop := t1[home + hop].(entry := None)]
  }

  lemma RemovedAt<E>(t: Table<E>, exp: nat, home: nat, hop: nat, i: nat)
    requires hop < exp <= WORD_SIZE && home + hop < |t| && i < |t|
    ensures var r := Removed(t, home, hop);
            && |r| == |t|
            && (forall j :: 0 <= j < exp ==> (r[i].bits[j] <==> t[i].bits[j] && !(i == home && j == hop)))
            && r[i].entry == (if i == home + hop then None else t[i].entry)
            && Fragment(r[i].bits, exp) == Fragment(t[i].bits, exp)
  {
    FragmentIgnoresHops(t[home].bits, BitUnset(t[home].bits, hop), exp);
  }

  lemma RemovedHops<E>(t: Table<E>, exp: nat, hash: E -> Word, home: nat, hop: nat, i: nat, j: nat)
    requires exp <= WORD_SIZE && HopsNameEntries(t, exp, hash)
    requires home + hop < |t| && hop < exp && t[home].bits[hop]
    requires i < |t| && j < exp && Removed(t, home, hop)[i].bits[j]
    ensures Named(Removed(t, home, hop), exp, hash, i, j)
  {
    assert Named(t, exp, hash, home, hop);
    RemovedAt(t, exp, home, hop, i);
    assert Named(t, exp, hash, i, j);
    RemovedAt(t, exp, home, hop, i + j);
  }

  lemma RemovedPlaces<E>(t: Table<E>, exp: nat, hash: E -> Word, home: nat, hop: nat, s: nat)
    requires Inv(t, exp, hash)
    requires home + hop < |t| && hop < exp && t[home].bits[hop]
    requires s < |t| && Removed(t, home, hop)[s].entry.Some?
    ensures WellPlaced(Removed(t, home, hop), exp, hash, s)
  {
    assert Named(t, exp, hash, home, hop);
    RemovedAt(t, exp, home, hop, s);
    assert WellPlaced(t, exp, hash, s);
    RemovedAt(t, exp, home, hop, Home(hash, exp, t[s].entry.value));
  }

  lemma RemoveKeepsInv<E>(t: Table<E>, exp: nat, hash: E -> Word, home: nat, hop: nat)
    requires Inv(t, exp, hash)
    requires home < |t| && hop < exp && t[home].bits[hop]
    ensures home + hop < |t| && t[home + hop].entry.Some?
    ensures Inv(Removed(t, home, hop), exp, hash)
  {
    assert Named(t, exp, hash, home, hop);
    var r := Removed(t, home, hop);
    forall i, j | 0 <= i < |r| && 0 <= j < exp && r[i].bits[j] ensures Named(r, exp, hash, i, j) {
      RemovedHops(t, exp, hash, home, hop, i, j);
    }
    forall s | 0 <= s < |r| && r[s].entry.Some? ensures WellPlaced(r, exp, hash, s) {
      RemovedPlaces(t, exp, hash, home, hop, s);
    }
  }

  lemma RemoveCount<E>(t: Table<E>, home: nat, hop: nat, y: E)
    requires hop < WORD_SIZE && home + hop < |t|
    ensures Count(Removed(t, home, hop), y) == Count(t, y) - Holds(t[home + hop], y)
  {
    var bits := BitUnset(t[home].bits, hop);
    var t1 := t[home := t[home].(bits := bits)];
    CountUpdate(t, home, t1[home], y);
    CountUpdate(t1, home + hop, t1[home + hop].(entry := None), y);
    assert t1[home + hop].entry == t[home + hop].entry;
  }

  /** Hop `j` of bucket `i` is set, and its slot holds `x`. */
  ghost predicate NamesIn<E>(t: Table<E>, exp: nat, i: nat, j: nat, x: E)
  {
    j < exp <= WORD_SIZE && i + j < |t| && t[i].bits[j] && t[i + j].entry == Some(x)
  }

  /** A removal leaves the names of other slots alone. */
  lemma RemovedKeepsNames<E>(t: Table<E>, exp: nat, home: nat, hop: nat, i: nat, j: nat, x: E)
    requires hop < exp && home + hop < |t| && home + hop != i + j && NamesIn(t, exp, i, j, x)
    ensures NamesIn(Removed(t, home, hop), exp, i, j, x)
  {
    RemovedAt(t, exp, home, hop, i);
    RemovedAt(t, exp, home, hop, i + j);
  }

  // ---- an entry that changes its key while it is in the table ------------

  /** The entry of slot `s` has become `x`, and the table does not know. */
  function Rekeyed<E>(t: Table<E>, s: nat, x: E): (r: Table<E>)
    requires s < |t|
  {
    t[s := t[s].(entry := Some(x))]
  }

  /** Once its slot is cleared, it does not matter what the entry was. */
  lemma RekeyedIsRemoved<E>(t: Table<E>, i: nat, j: nat, home: nat, hop: nat, x: E)
    requires j < WORD_SIZE && i + j < |t| && hop < WORD_SIZE && home + hop < |t| && i + j != home + hop
    ensures Removed(Removed(Rekeyed(t, i + j, x), home, hop), i, j) == Removed(Removed(t, home, hop), i, j)
  {
  }

  ghost function One<E>(x: E, y: E): (n: nat)
  {
    if x == y then 1 else 0
  }

  /** Two entries, one of which has changed its key, are named by different slots. */
  lemma TwoSlots<E>(t: Table<E>, exp: nat, i: nat, j: nat, x: E, home: nat, hop: nat, y: E)
    requires NamesIn(t, exp, i, j, x) && NamesIn(t, exp, home, hop, y) && x != y
    ensures i + j != home + hop
  {
  }

  /** The removal of `y`, and then of `x` which has changed its key, by hops that name them. */
  lemma RemovedBoth<E(!new)>(t: Table<E>, exp: nat, hash: E -> Word, i: nat, j: nat, x: E, home: nat, hop: nat, y: E, x': E)
    requires Inv(t, exp, hash) && NamesIn(t, exp, i, j, x) && NamesIn(t, exp, home, hop, y) && x != y
    ensures var r := Removed(Removed(Rekeyed(t, i + j, x'), home, hop), i, j);
            Inv(r, exp, hash) && forall z :: Count(r, z) == Count(t, z) - One(y, z) - One(x, z)
  {
    RekeyedIsRemoved(t, i, j, home, hop, x');
    var u := Removed(t, home, hop);
    RemovedKeepsNames(t, exp, home, hop, i, j, x);
    RemoveKeepsInv(t, exp, hash, home, hop);
    RemoveKeepsInv(u, exp, hash, i, j);
    forall z ensures Count(Removed(u, i, j), z) == Count(t, z) - One(y, z) - One(x, z) {
      RemoveCount(t, home, hop, z);
      RemoveCount(u, i, j, z);
    }
  }

  /** What is left when `y` is gone and `x` has become `x'`. */
  lemma RekeyedCounts<E(!new)>(t: Table<E>, exp: nat, i: nat, j: nat, x: E, home: nat, hop: nat, y: E, x': E)
    requires NamesIn(t, exp, i, j, x) && NamesIn(t, exp, home, hop, y) && x != y
    ensures forall z :: Count(Removed(Rekeyed(t, i + j, x'), home, hop), z) == Count(t, z) - One(x, z) + One(x', z) - One(y, z)
  {
    var u := Rekeyed(t, i + j, x');
    forall z ensures Count(Removed(u, home, hop), z) == Count(t, z) - One(x, z) + One(x', z) - One(y, z) {
      CountUpdate(t, i + j, u[i + j], z);
      RemoveCount(u, home, hop, z);
    }
  }

  /** `r` holds one copy of `x` less than `t`, and is otherwise the same. */
  ghost predicate OneLess<E(!new)>(t: Table<E>, r: Table<E>, x: E)
  {
    forall y :: Count(r, y) == Count(t, y) - (if y == x then 1 else 0)
  }

  /**
  Clearing a hop and its slot without looking takes `x` out of a table, and leaves the table in
  order, exactly when they name `x`.
  */
  lemma BlindRemovalIff<E(!new)>(t: Table<E>, exp: nat, hash: E -> Word, i: nat, j: nat, x: E)
    requires Inv(t, exp, hash) && j < WORD_SIZE && i + j < |t|
    ensures Inv(Removed(t, i, j), exp, hash) && OneLess(t, Removed(t, i, j), x) <==> NamesIn(t, exp, i, j, x)
  {
    var r := Removed(t, i, j);
    forall y ensures Count(r, y) == Count(t, y) - Holds(t[i + j], y) {
      RemoveCount(t, i, j, y);
    }
    if NamesIn(t, exp, i, j, x) {
      RemoveKeepsInv(t, exp, hash, i, j);
    }
    if Inv(r, exp, hash) && OneLess(t, r, x) {
      assert Count(r, x) == Count(t, x) - 1;
      DanglingHop(t, exp, hash, i, j, x);
    }
  }

  lemma DanglingHop<E>(t: Table<E>, exp: nat, hash: E -> Word, i: nat, j: nat, x: E)
    requires Inv(t, exp, hash) && j < WORD_SIZE && i + j < |t| && t[i + j].entry == Some(x)
    requires Inv(Removed(t, i, j), exp, hash)
    ensures NamesIn(t, exp, i, j, x)
  {
    var r, home := Removed(t, i, j), Home(hash, exp, x);
    assert WellPlaced(t, exp, hash, i + j);
    var hop := i + j - home;
    assert r[home].bits[hop] ==> Named(r, exp, hash, home, hop);
  }

  /** Bit `j` of bucket `i` cleared, and nothing else. */
  function Blurred<E>(t: Table<E>, i: nat, j: nat): (r: Table<E>)
    requires j < WORD_SIZE && i < |t|
  {
    t[i := t[i].(bits := BitUnset(t[i].bits, j))]
  }

  lemma FragmentStays(w: Word, hashcode: Word, exp: nat)
    requires exp <= WORD_SIZE && SameFragment(w, hashcode, exp)
    ensures WithFragment(w, hashcode, exp) == w
  {
    var r := WithFragment(w, hashcode, exp);
    forall k | 0 <= k < WORD_SIZE ensures r[k] == w[k] {
      if k >= exp {
        assert Fragment(w, exp)[k] == w[k] && Fragment(r, exp)[k] == r[k];
      }
    }
  }

  /** Clearing a hop bit does not change a fragment. */
  lemma FragmentOfUnset(w: Word, j: nat, exp: nat)
    requires j < exp <= WORD_SIZE
    ensures Fragment(BitUnset(w, j), exp) == Fragment(w, exp)
  {
    FragmentIgnoresHops(w, BitUnset(w, j), exp);
  }

  /**
  A slot cleared from another bucket than the home of its entry: storing the entry there again
  restores the table, but for the bit that was cleared.
  */
  lemma StoredAgain<E>(t: Table<E>, exp: nat, hash: E -> Word, i: nat, j: nat, x: E)
    requires Inv(t, exp, hash) && j < WORD_SIZE && i + j < |t| && t[i + j].entry == Some(x) && !NamesIn(t, exp, i, j, x)
    ensures var home := Home(hash, exp, x);
            && home <= i + j < home + exp
            && Stored(Removed(t, i, j), exp, home, i + j - home, hash(x), x) == Blurred(t, i, j)
  {
    var s, home := i + j, Home(hash, exp, x);
    assert WellPlaced(t, exp, hash, s);
    assert home != i;
    var r, u := Removed(t, i, j), Blurred(t, i, j);
    var f := Stored(r, exp, home, s - home, hash(x), x);
    assert r[home].bits == t[home].bits && BitSet(t[home].bits, s - home) == t[home].bits;
    if s == i {
      FragmentOfUnset(t[s].bits, j, exp);
    }
    FragmentStays(u[s].bits, hash(x), exp);
    forall k | 0 <= k < |t| ensures f[k] == u[k] {
    }
  }

  /** When the bit that was cleared matters: it was the fragment bit of an entry. */
  lemma BlurredInvIff<E>(t: Table<E>, exp: nat, hash: E -> Word, i: nat, j: nat)
    requires Inv(t, exp, hash) && exp <= j < WORD_SIZE && i < |t|
    ensures Inv(Blurred(t, i, j), exp, hash) <==> !(t[i].entry.Some? && t[i].bits[j])
  {
    var r := Blurred(t, i, j);
    if t[i].entry.Some? && t[i].bits[j] {
      BlurredFragment(t, exp, hash, i, j);
    } else {
      forall a, b | 0 <= a < |r| && 0 <= b < exp && r[a].bits[b] ensures Named(r, exp, hash, a, b) {
        assert Named(t, exp, hash, a, b);
      }
      forall s | 0 <= s < |r| && r[s].entry.Some? ensures WellPlaced(r, exp, hash, s) {
        assert WellPlaced(t, exp, hash, s);
        if s == i {
          assert BitUnset(t[i].bits, j) == t[i].bits;
        }
      }
    }
  }

  lemma BlurredFragment<E>(t: Table<E>, exp: nat, hash: E -> Word, i: nat, j: nat)
    requires Inv(t, exp, hash) && exp <= j < WORD_SIZE && i < |t| && t[i].entry.Some? && t[i].bits[j]
    ensures !Inv(Blurred(t, i, j), exp, hash)
  {
    var r := Blurred(t, i, j);
    assert WellPlaced(t, exp, hash, i);
    assert Fragment(t[i].bits, exp)[j];
    assert !Fragment(r[i].bits, exp)[j];
    assert WellPlaced(r, exp, hash, i) ==> SameFragment(r[i].bits, hash(t[i].entry.value), exp);
  }

  /** A hop bit that was cleared from another bucket than the home of the entry was not set. */
  lemma BlurredHop<E>(t: Table<E>, exp: nat, hash: E -> Word, i: nat, j: nat, x: E)
    requires Inv(t, exp, hash) && j < exp && i + j < |t| && t[i + j].entry == Some(x) && !NamesIn(t, exp, i, j, x)
    ensures Blurred(t, i, j) == t
  {
    assert BitUnset(t[i].bits, j) == t[i].bits;
  }

  /** An id leads to an entry only from the home of that entry. */
  lemma NamedFromHome<E>(t: Table<E>, exp: nat, hash: E -> Word, i: nat, j: nat, x: E)
    requires Inv(t, exp, hash) && NamesIn(t, exp, i, j, x)
    ensures i == Home(hash, exp, x)
  {
    assert Named(t, exp, hash, i, j);
  }

  /** A home index under an exponent is half of that under the next. */
  lemma HalvedIndex(hashcode: Word, exp: nat)
    requires exp < WORD_SIZE
    ensures HashToIdx(hashcode, exp) == HashToIdx(hashcode, exp + 1) / 2
  {
    HashToIdxTop(hashcode, exp);
    HashToIdxTop(hashcode, exp + 1);
    var bits := hashcode[WORD_SIZE - (exp + 1)..];
    assert bits[1..] == hashcode[WORD_SIZE - exp..];
  }

  /**
  The id that an entry has under an exponent does not name it under the exponent before, whatever
  the hop, when any bit of its home index is set.
  */
  lemma StaleIndexNamesNothing<E>(t: Table<E>, exp: nat, hash: E -> Word, x: E, bit: nat, j: nat)
    requires Inv(t, exp, hash)
    requires WORD_SIZE - (exp + 1) <= bit < WORD_SIZE && hash(x)[bit]
    ensures !NamesIn(t, exp, HashToIdx(hash(x), exp + 1), j, x)
  {
    var h, i := hash(x), HashToIdx(hash(x), exp + 1);
    HalvedIndex(h, exp);
    HashToIdxTop(h, exp + 1);
    var top := h[WORD_SIZE - (exp + 1)..];
    assert top[bit - (WORD_SIZE - (exp + 1))] == h[bit];
    if Value(top) == 0 {
      ValueOfZeros(top);
    }
    if NamesIn(t, exp, i, j, x) {
      NamedFromHome(t, exp, hash, i, j, x);
    }
  }

  /** An empty table satisfies the invariant and holds nothing. */
  lemma EmptyTable<E>(t: Table<E>, exp: nat, hash: E -> Word, x: E)
    requires 0 < exp <= EXP_MAX && |t| == BucketCount(exp)
    requires forall s :: 0 <= s < |t| ==> t[s] == Bucket(ZERO, None)
    ensures Inv(t, exp, hash) && Count(t, x) == 0
  {
    LiveIff(t, x);
  }

  // ---- looking an entry up ----------------------------------------------

  /** Exactly one hop bit names a live slot. */
  lemma NamedOnce<E>(t: Table<E>, exp: nat, hash: E -> Word, i: nat, j: nat, i': nat, j': nat)
    requires Inv(t, exp, hash)
    requires i < |t| && j < exp && t[i].bits[j]
    requires i' < |t| && j' < exp && t[i'].bits[j']
    requires i + j == i' + j'
    ensures i == i' && j == j'
  {
    assert Named(t, exp, hash, i, j) && Named(t, exp, hash, i', j');
  }

  /** Slot `j` of the neighbourhood of `hashcode` holds `x` and passes both tests of the lookup loops. */
  ghost predicate FoundAt<E>(t: Table<E>, exp: nat, hashcode: Word, x: E, j: nat)
    requires exp <= WORD_SIZE
  {
    var home := HashToIdx(hashcode, exp);
    && j < exp && home + j < |t|
    && t[home].bits[j]
    && SameFragment(t[home + j].bits, hashcode, exp)
    && t[home + j].entry == Some(x)
  }

  lemma FoundIsLive<E>(t: Table<E>, exp: nat, hash: E -> Word, hashcode: Word, x: E, j: nat)
    requires Inv(t, exp, hash)
    requires FoundAt(t, exp, hashcode, x, j)
    ensures Count(t, x) > 0 && hash(x) == hashcode
  {
    var home := HashToIdx(hashcode, exp);
    LiveIff(t, x);
    assert Named(t, exp, hash, home, j);
    assert WellPlaced(t, exp, hash, home + j);
    FragmentAndHomeDetermineHash(hash(x), hashcode, exp);
  }

  lemma LiveIsFound<E>(t: Table<E>, exp: nat, hash: E -> Word, x: E) returns (j: nat)
    requires Inv(t, exp, hash)
    requires Count(t, x) > 0
    ensures FoundAt(t, exp, hash(x), x, j)
  {
    LiveIff(t, x);
    var s :| 0 <= s < |t| && t[s].entry == Some(x);
    assert WellPlaced(t, exp, hash, s);
    j := s - Home(hash, exp, x);
  }

  /**
  Where the lookup loops look is where an entry is: scanning the set hops of the home
  bucket for an equal fragment meets exactly the entries with this hashcode.
  */
  lemma HopsFindHash<E>(t: Table<E>, exp: nat, hash: E -> Word, hashcode: Word, x: E)
    requires Inv(t, exp, hash)
    ensures (Count(t, x) > 0 && hash(x) == hashcode) <==>
            exists j :: FoundAt(t, exp, hashcode, x, j)
  {
    if Count(t, x) > 0 && hash(x) == hashcode {
      var j := LiveIsFound(t, exp, hash, x);
    }
    if j :| FoundAt(t, exp, hashcode, x, j) {
      FoundIsLive(t, exp, hash, hashcode, x, j);
    }
  }

  // ---- entries with homes of their own ----------------------------------

  /** Each entry of `m` is there once, and no two have the same home. */
  ghost predicate OwnHomes<E(!new)>(m: multiset<E>, exp: nat, hash: E -> Word)
    requires exp <= WORD_SIZE
  {
    && (forall x :: m[x] <= 1)
    && forall x, y :: x in m && y in m && Home(hash, exp, x) == Home(hash, exp, y) ==> x == y
  }

  /** An entry that stands in two slots is there twice. */
  lemma {:induction false} TwoCopies<E>(t: Table<E>, p: nat, q: nat, x: E)
    requires p < q < |t| && t[p].entry == Some(x) && t[q].entry == Some(x)
    ensures Count(t, x) >= 2
  {
    var n := |t| - 1;
    if q == n {
      LiveIff(t[..n], x);
      assert t[..n][p].entry == Some(x);
    } else {
      TwoCopies(t[..n], p, q, x);
    }
  }

  /** In a table without gaps whose entries have homes of their own, every entry stands at its home. */
  lemma {:induction false} StandsAtHome<E(!new)>(t: Table<E>, m: multiset<E>, exp: nat, hash: E -> Word, p: nat)
    requires Inv(t, exp, hash) && Packed(t, exp, hash) && OwnHomes(m, exp, hash) && forall x :: Count(t, x) <= m[x]
    requires p < |t| && t[p].entry.Some?
    ensures p == Home(hash, exp, t[p].entry.value)
    decreases Home(hash, exp, t[p].entry.value)
  {
    var x := t[p].entry.value;
    var home := Home(hash, exp, x);
    assert WellPlaced(t, exp, hash, p) && CloseUp(t, exp, hash, |t|, p);
    if home < p {
      var y := t[home].entry.value;
      assert WellPlaced(t, exp, hash, home);
      LiveIff(t, x);
      LiveIff(t, y);
      assert Count(t, x) <= m[x] && Count(t, y) <= m[y];
      if Home(hash, exp, y) == home {
        TwoCopies(t, home, p, x);
      } else {
        StandsAtHome(t, m, exp, hash, home);
      }
    }
  }
}
