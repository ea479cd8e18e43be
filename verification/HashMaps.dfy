/** The hash map of src/hashmap.c: bucket words and entries changed in place. */
module HashMaps {
  import opened Basics
  import opened Words
  import opened Hopscotch

  /** The stale entry of the free slot does not matter to a displacement. */
  lemma ClearedDisplaced<E>(t: Table<E>, exp: nat, swp: nat, hop: nat, free: nat)
    requires CanDisplace(t, exp, swp, hop, free)
    ensures CanDisplace(Cleared(t, free), exp, swp, hop, free)
    ensures Displaced(Cleared(t, free), exp, swp, hop, free) == Displaced(t, exp, swp, hop, free)
  {
  }

  /** The writes of one displacement: bucket `swp` gives its slot `hop` to the free bucket `b`. */
  method Displace<E(!new)>(buckets: array<Bucket<E>>, swp: nat, hop: nat, b: nat, exp: nat, ghost hash: E -> Word)
    requires CanDisplace(buckets[..], exp, swp, hop, b)
    modifies buckets
    ensures buckets[..] == Displaced(old(buckets[..]), exp, swp, hop, b)
    ensures SameContents(Cleared(buckets[..], swp + hop), old(Cleared(buckets[..], b)))
    ensures old(Inv(Cleared(buckets[..], b), exp, hash)) ==> Inv(Cleared(buckets[..], swp + hop), exp, hash)
  {
    ghost var t := buckets[..];
    buckets[swp] := buckets[swp].(bits := BitSet(buckets[swp].bits, b - swp));
    buckets[swp] := buckets[swp].(bits := BitUnset(buckets[swp].bits, hop));
    var s := swp + hop;
    buckets[b] := buckets[b].(bits := CopyFragment(buckets[b].bits, buckets[s].bits, exp));
    buckets[b] := buckets[b].(entry := buckets[s].entry);
    assert buckets[..] == Displaced(t, exp, swp, hop, b);
    ClearedDisplaced(t, exp, swp, hop, b);
    DisplaceKeepsContents(Cleared(t, b), exp, swp, hop, b);
    if Inv(Cleared(t, b), exp, hash) {
      DisplaceKeepsInv(Cleared(t, b), exp, hash, swp, hop, b);
    }
  }

  /** No bucket in front of the free slot `b` names a slot closer than `b`. */
  ghost predicate Stuck<E>(t: Table<E>, b: nat, exp: nat)
  {
    && exp <= b < |t| && exp <= WORD_SIZE
    && t[b].entry.None?
    && forall i :: b - exp < i < b ==> NoCloser(t, i, b)
  }

  ghost predicate NoCloser<E>(t: Table<E>, i: nat, b: nat)
    requires i < |t| && i <= b <= i + WORD_SIZE
  {
    forall j :: 0 <= j < b - i ==> !t[i].bits[j]
  }

  /**
  Why an entry of home `home` finds no slot: all are taken from there to the end, or to one that
  is out of reach and cannot be brought closer.
  */
  ghost predicate NoRoom<E>(t: Table<E>, exp: nat, home: nat)
  {
    Taken(t, home, |t|) || exists b :: home + exp <= b && Taken(t, home, b) && Stuck(t, b, exp)
  }

  /**
  One round of the swap loop: moves the free slot `b` forward by less than `exp`.
  When no bucket before `b` can give a slot away, the stale copy in `b` is dropped.
  */
  method SwapForward<E(!new)>(buckets: array<Bucket<E>>, b: nat, exp: nat, ghost hash: E -> Word)
    returns (swp: nat, ghost giver: nat)
    requires 0 < exp <= EXP_MAX && exp <= b < buckets.Length
    modifies buckets
    ensures b - exp < giver <= swp <= b
    ensures SameContents(Cleared(buckets[..], swp), old(Cleared(buckets[..], b)))
    ensures old(Inv(Cleared(buckets[..], b), exp, hash)) ==> Inv(Cleared(buckets[..], swp), exp, hash)
    ensures swp == b ==> buckets[..] == Cleared(old(buckets[..]), b) && Stuck(buckets[..], b, exp)
    ensures swp < b ==>
      && CanDisplace(old(buckets[..]), exp, giver, swp - giver, b)
      && buckets[..] == Displaced(old(buckets[..]), exp, giver, swp - giver, b)
  {
    ghost var t := buckets[..];
    var from, hopIdx := FindGiver(buckets, b, exp);
    giver := from;
    if from < b {
      Displace(buckets, from, hopIdx, b, exp, hash);
      swp := from + hopIdx;
      return;
    }
    swp := b;
    buckets[b] := buckets[b].(entry := None);
    assert buckets[..] == Cleared(t, b) == Cleared(buckets[..], b);
    assert forall i :: b - exp < i < b ==> NoCloser(t, i, b) ==> NoCloser(buckets[..], i, b);
  }

  /** The inner loop of `make_room`: the first bucket that can give a slot away to `b`, or `b`. */
  method FindGiver<E>(buckets: array<Bucket<E>>, b: nat, exp: nat) returns (swp: nat, hopIdx: nat)
    requires 0 < exp <= EXP_MAX && exp <= b < buckets.Length
    ensures b - exp < swp <= b
    ensures swp < b ==> CanDisplace(buckets[..], exp, swp, hopIdx, b)
    ensures forall i :: b - exp < i < swp ==> NoCloser(buckets[..], i, b)
  {
    swp, hopIdx := b - (exp - 1), 0;
    while swp < b
      invariant b - exp < swp <= b
      invariant forall i :: b - exp < i < swp ==> NoCloser(buckets[..], i, b)
    {
      hopIdx := CountTrailingZeros(buckets[swp].bits);
      var distance := b - swp;
      if hopIdx < distance {
        return;
      }
      swp := swp + 1;
    }
  }

  /** The first loop of `make_room`: the first free slot from `home` on, or the end of the table. */
  method Probe<E>(buckets: array<Bucket<E>>, home: nat) returns (b: nat)
    requires home <= buckets.Length
    ensures home <= b <= buckets.Length && Taken(buckets[..], home, b)
    ensures b < buckets.Length ==> FirstFree(buckets[..], home, b)
  {
    b := home;
    while b < buckets.Length && buckets[b].entry.Some?
      invariant home <= b <= buckets.Length
      invariant Taken(buckets[..], home, b)
    {
      b := b + 1;
    }
  }

  /** A table in order in which slot `b` is free, all slots from `home` to it are taken, and there are no other gaps. */
  ghost predicate Opened<E>(t: Table<E>, exp: nat, hash: E -> Word, home: nat, b: nat)
    requires exp <= WORD_SIZE && b < |t|
  {
    Inv(Cleared(t, b), exp, hash) && Taken(t, home, b) && PackedBut(t, exp, hash, b)
  }

  lemma OpenedAtStart<E>(t: Table<E>, exp: nat, hash: E -> Word, home: nat, b: nat)
    requires FirstFree(t, home, b)
    ensures Cleared(t, b) == t
    ensures Inv(t, exp, hash) && Packed(t, exp, hash) ==> Opened(t, exp, hash, home, b)
  {
    assert Cleared(t, b) == t;
    if Inv(t, exp, hash) && Packed(t, exp, hash) {
      PackedWithout(t, exp, hash, b);
    }
  }

  lemma OpenedNext<E(!new)>(t: Table<E>, exp: nat, hash: E -> Word, home: nat, b: nat, giver: nat, hop: nat)
    requires CanDisplace(t, exp, giver, hop, b) && home <= giver && Opened(t, exp, hash, home, b)
    requires Inv(Cleared(Displaced(t, exp, giver, hop, b), giver + hop), exp, hash)
    ensures Opened(Displaced(t, exp, giver, hop, b), exp, hash, home, giver + hop)
  {
    DisplaceMovesGap(t, exp, hash, giver, hop, b);
    var r := Displaced(t, exp, giver, hop, b);
    assert forall i :: 0 <= i < |t| && i != b ==> r[i].entry == t[i].entry;
  }

  /**
  Finds a free slot within `exp` buckets of `home`, moving other entries away if it must. On
  success the returned slot may still hold the stale copy of the last entry moved, but nothing
  names it; on failure every entry is held exactly as often as before. A table in order stays in
  order, and one without gaps gets none. The entries are kept even in a table that is not in order.
  */
  method MakeRoom<E(!new)>(buckets: array<Bucket<E>>, home: nat, exp: nat, ghost hash: E -> Word)
    returns (hop: int)
    requires 0 < exp <= EXP_MAX && home + exp <= buckets.Length
    modifies buckets
    ensures -1 <= hop < exp
    ensures hop < 0 ==> SameContents(buckets[..], old(buckets[..]))
    ensures hop < 0 && old(Inv(buckets[..], exp, hash)) ==> Inv(buckets[..], exp, hash)
    ensures hop < 0 ==> NoRoom(buckets[..], exp, home) && Taken(old(buckets[..]), home, home + exp)
    ensures hop >= 0 ==> Moving(old(buckets[..]), buckets[..], exp, hash, home, home + hop)
    ensures forall s: nat :: FirstFree(old(buckets[..]), home, s) && s < home + exp ==> hop == s - home && buckets[..] == old(buckets[..])
  {
    ghost var t := buckets[..];
    var b := Probe(buckets, home);
    if b == buckets.Length {
      return -1;
    }
    OpenedAtStart(t, exp, hash, home, b);
    if home + exp <= b {
      b := BringCloser(buckets, home, exp, b, hash, t);
      if b >= home + exp {
        assert Cleared(buckets[..], b) == buckets[..];
        return -1;
      }
    }
    hop := b - home;
  }

  /** `t` has become `room`, in which slot `b` is free for a time and all slots from `home` to it are taken. */
  ghost predicate Moving<E(!new)>(t: Table<E>, room: Table<E>, exp: nat, hash: E -> Word, home: nat, b: nat)
    requires exp <= WORD_SIZE
  {
    && home <= b < |room| && Taken(room, home, b)
    && SameContents(Cleared(room, b), t)
    && (Inv(t, exp, hash) ==> Inv(Cleared(room, b), exp, hash))
    && (Inv(t, exp, hash) && Packed(t, exp, hash) ==> Opened(room, exp, hash, home, b))
  }

  /** The outer loop of `make_room`: the free slot comes within reach of `home`, or gets stuck and is dropped. */
  method BringCloser<E(!new)>(buckets: array<Bucket<E>>, home: nat, exp: nat, b0: nat, ghost hash: E -> Word, ghost t: Table<E>)
    returns (b: nat)
    requires 0 < exp <= EXP_MAX && home + exp <= b0 && Moving(t, buckets[..], exp, hash, home, b0)
    modifies buckets
    ensures Moving(t, buckets[..], exp, hash, home, b)
    ensures b >= home + exp ==> Stuck(buckets[..], b, exp)
  {
    b := b0;
    while home + exp <= b
      invariant Moving(t, buckets[..], exp, hash, home, b)
      decreases b
    {
      ghost var u := buckets[..];
      var swp;
      ghost var giver;
      swp, giver := SwapForward(buckets, b, exp, hash);
      MovingNext(t, u, buckets[..], exp, hash, home, b, swp, giver);
      if swp == b {
        return;
      }
      b := swp;
    }
  }

  /** A round of the loop keeps what is known of the table. */
  lemma MovingNext<E(!new)>(t: Table<E>, u: Table<E>, r: Table<E>, exp: nat, hash: E -> Word, home: nat, b: nat, swp: nat, giver: nat)
    requires 0 < exp <= EXP_MAX && home + exp <= b && Moving(t, u, exp, hash, home, b)
    requires b - exp < giver <= swp <= b && |r| == |u| && SameContents(Cleared(r, swp), Cleared(u, b))
    requires Inv(Cleared(u, b), exp, hash) ==> Inv(Cleared(r, swp), exp, hash)
    requires swp == b ==> r == Cleared(u, b)
    requires swp < b ==> CanDisplace(u, exp, giver, swp - giver, b) && r == Displaced(u, exp, giver, swp - giver, b)
    ensures Moving(t, r, exp, hash, home, swp)
  {
    forall x ensures Count(Cleared(r, swp), x) == Count(t, x) {
      assert Count(Cleared(r, swp), x) == Count(Cleared(u, b), x) == Count(t, x);
    }
    if swp < b {
      assert forall i :: 0 <= i < |u| && i != b ==> r[i].entry == u[i].entry;
      if Inv(t, exp, hash) && Packed(t, exp, hash) {
        OpenedNext(u, exp, hash, home, b, giver, swp - giver);
      }
    } else if Inv(t, exp, hash) && Packed(t, exp, hash) {
      OpenedDropped(u, exp, hash, home, b);
    }
  }

  lemma OpenedDropped<E>(t: Table<E>, exp: nat, hash: E -> Word, home: nat, b: nat)
    requires exp <= WORD_SIZE && b < |t| && Opened(t, exp, hash, home, b)
    ensures Opened(Cleared(t, b), exp, hash, home, b)
  {
    var r := Cleared(t, b);
    assert Cleared(r, b) == r;
    forall p | 0 <= p < |r| && p != b && r[p].entry.Some? ensures CloseUp(r, exp, hash, b, p) {
      assert CloseUp(t, exp, hash, b, p);
    }
  }

  /** `u` holds one more copy of `x` than `t` does, and is otherwise the same. */
  ghost predicate OneMore<E(!new)>(t: Table<E>, u: Table<E>, x: E)
  {
    forall y :: Count(u, y) == Count(t, y) + (if y == x then 1 else 0)
  }

  /** Writes an entry to the slot that `MakeRoom` found. */
  method Store<E>(buckets: array<Bucket<E>>, home: nat, hop: nat, exp: nat, hashcode: Word, entry: E)
    requires exp <= EXP_MAX && hop < exp && home + hop < buckets.Length
    modifies buckets
    ensures buckets[..] == Stored(old(buckets[..]), exp, home, hop, hashcode, entry)
  {
    buckets[home] := buckets[home].(bits := BitSet(buckets[home].bits, hop));
    var b := home + hop;
    buckets[b] := buckets[b].(bits := WithFragment(buckets[b].bits, hashcode, exp));
    buckets[b] := buckets[b].(entry := Some(entry));
  }

  /** Storing an entry in the slot that `MakeRoom` found adds one copy, and keeps the order. */
  lemma StoredInRoom<E(!new)>(t: Table<E>, room: Table<E>, exp: nat, hash: E -> Word, hop: nat, x: E)
    requires exp <= EXP_MAX && hop < exp && Moving(t, room, exp, hash, Home(hash, exp, x), Home(hash, exp, x) + hop)
    ensures var r := Stored(room, exp, Home(hash, exp, x), hop, hash(x), x);
            && OneMore(t, r, x)
            && (Inv(t, exp, hash) ==> Inv(r, exp, hash))
            && (Inv(t, exp, hash) && Packed(t, exp, hash) ==> Packed(r, exp, hash))
  {
    var home := Home(hash, exp, x);
    var u, r := Cleared(room, home + hop), Stored(room, exp, home, hop, hash(x), x);
    assert r == Stored(u, exp, home, hop, hash(x), x);
    forall y ensures Count(r, y) == Count(t, y) + (if y == x then 1 else 0) {
      StoreCount(u, exp, home, hop, hash(x), x, y);
      assert Count(u, y) == Count(t, y);
    }
    if Inv(t, exp, hash) {
      StoreKeepsInv(u, exp, hash, hop, x);
      if Packed(t, exp, hash) {
        StoreClosesGap(room, exp, hash, hop, x);
      }
    }
  }

  /** `make_room` and the writes after it, as `rehash` and `hashmap_insert` have them. */
  method Place<E(!new)>(buckets: array<Bucket<E>>, exp: nat, hashcode: Word, entry: E, ghost hash: E -> Word) returns (ok: bool)
    requires 0 < exp <= EXP_MAX && buckets.Length == BucketCount(exp) && hashcode == hash(entry)
    modifies buckets
    ensures ok ==> OneMore(old(buckets[..]), buckets[..], entry)
    ensures !ok ==> SameContents(buckets[..], old(buckets[..]))
    ensures old(Inv(buckets[..], exp, hash)) ==> Inv(buckets[..], exp, hash)
    ensures ok && old(Inv(buckets[..], exp, hash) && Packed(buckets[..], exp, hash)) ==> Packed(buckets[..], exp, hash)
    ensures !ok ==> Crowded(old(buckets[..]), buckets[..], exp, Home(hash, exp, entry))
    ensures forall s: nat :: GoesTo(old(buckets[..]), exp, hash, entry, s) ==>
      ok && buckets[..] == StoredAtSlot(old(buckets[..]), exp, hash, entry, s)
  {
    ghost var t := buckets[..];
    var home := HashToIdx(hashcode, exp);
    HomeInTable(buckets[..], exp, hashcode);
    var hop := MakeRoom(buckets, home, exp, hash);
    if hop < 0 {
      return false;
    }
    StoredInRoom(t, buckets[..], exp, hash, hop, entry);
    Store(buckets, home, hop, exp, hashcode, entry);
    return true;
  }

  /** All slots within reach of `home` were taken, and no entry could be moved away to free one. */
  ghost predicate Crowded<E>(before: Table<E>, after: Table<E>, exp: nat, home: nat)
  {
    Taken(before, home, home + exp) && NoRoom(after, exp, home)
  }

  /** `PACK_ID`: a home index and a hop, packed for removal without a search. */
  function PackId(hashIdx: nat, hop: nat): (id: nat)
  {
    hashIdx * 64 + hop
  }

  /** A packed id decodes to its slot and is not negative as a 64-bit signed integer. */
  lemma PackIdRoundTrip(exp: nat, hashcode: Word, hop: nat)
    requires exp <= EXP_MAX && hop < exp
    ensures var id := PackId(HashToIdx(hashcode, exp), hop);
            id / 64 == HashToIdx(hashcode, exp) && id % 64 == hop && id < 0x8000_0000_0000_0000
  {
    HashToIdxTop(hashcode, exp);
    Pow2Monotone(exp, EXP_MAX);
    Pow2Fifty7();
  }

  lemma {:induction false} Pow2Monotone(a: nat, b: nat)
    requires a <= b
    ensures Pow2(a) <= Pow2(b)
    decreases b
  {
    if a < b {
      Pow2Monotone(a, b - 1);
    }
  }

  lemma Pow2Fifty7()
    ensures Pow2(57) == 0x0200_0000_0000_0000
  {
    Pow2Step(0, 1);
    Pow2Step(10, 0x400);
    Pow2Step(20, 0x10_0000);
    Pow2Step(30, 0x4000_0000);
    Pow2Step(40, 0x100_0000_0000);
    assert Pow2(51) == 2 * Pow2(50);
    assert Pow2(53) == 2 * Pow2(52) == 4 * Pow2(51);
    assert Pow2(55) == 2 * Pow2(54) == 4 * Pow2(53);
    assert Pow2(57) == 2 * Pow2(56) == 4 * Pow2(55);
  }

  lemma Pow2Step(n: nat, p: nat)
    requires Pow2(n) == p
    ensures Pow2(n + 10) == 0x400 * p
  {
    assert Pow2(n + 2) == 2 * Pow2(n + 1) == 4 * p;
    assert Pow2(n + 4) == 2 * Pow2(n + 3) == 4 * Pow2(n + 2);
    assert Pow2(n + 6) == 2 * Pow2(n + 5) == 4 * Pow2(n + 4);
    assert Pow2(n + 8) == 2 * Pow2(n + 7) == 4 * Pow2(n + 6);
    assert Pow2(n + 10) == 2 * Pow2(n + 9) == 4 * Pow2(n + 8);
  }

  // ---- rebuilding a table -----------------------------------------------

  /**
  `before` holds exactly the entries of `t` before slot `i`, without gaps, and has no room for
  the entry of that slot, even after other entries are moved as in `part`.
  */
  ghost predicate StopsAt<E(!new)>(t: Table<E>, exp: nat, hash: E -> Word, before: Table<E>, part: Table<E>, i: nat)
  {
    && i < |t| && t[i].entry.Some?
    && Inv(before, exp, hash) && Packed(before, exp, hash) && SameContents(before, t[..i])
    && Inv(part, exp, hash) && SameContents(part, before)
    && Crowded(before, part, exp, Home(hash, exp, t[i].entry.value))
  }

  /** Copying the entries of `t` in order to a table of exponent `exp` comes to a stop. */
  ghost predicate CopyingStops<E(!new)>(t: Table<E>, exp: nat, hash: E -> Word)
  {
    exp > EXP_MAX || exists before, part, i :: StopsAt(t, exp, hash, before, part, i)
  }

  method NewTable<E(!new)>(exp: nat, ghost hash: E -> Word) returns (table: array<Bucket<E>>)
    requires 0 < exp <= EXP_MAX
    ensures fresh(table) && Inv(table[..], exp, hash) && Packed(table[..], exp, hash)
    ensures forall x :: Count(table[..], x) == 0
  {
    table := new Bucket<E>[BucketCount(exp)](_ => Bucket(ZERO, None));
    forall x ensures Count(table[..], x) == 0 && Inv(table[..], exp, hash) {
      EmptyTable(table[..], exp, hash, x);
    }
  }

  /** The table of exponent `exp` with the entries of `buckets`, without gaps, when there is room for all of them. */
  method Rebuild<E(!new)>(buckets: array<Bucket<E>>, exp: nat, hash: E -> Word)
    returns (ok: bool, table: array<Bucket<E>>)
    requires 0 < exp <= EXP_MAX
    ensures fresh(table)
    ensures ok ==> Inv(table[..], exp, hash) && Packed(table[..], exp, hash) && SameContents(table[..], buckets[..])
    ensures !ok ==> CopyingStops(buckets[..], exp, hash)
  {
    table := NewTable(exp, hash);
    var i := 0;
    while i < buckets.Length
      invariant 0 <= i <= buckets.Length
      invariant Inv(table[..], exp, hash) && Packed(table[..], exp, hash)
      invariant SameContents(table[..], buckets[..i])
    {
      ghost var before := table[..];
      var e := buckets[i].entry;
      CountNext(buckets[..], i);
      if e.Some? {
        var copied := Place(table, exp, hash(e.value), e.value, hash);
        if !copied {
          assert StopsAt(buckets[..], exp, hash, before, table[..], i);
          return false, table;
        }
      }
      i := i + 1;
    }
    assert buckets[..i] == buckets[..];
    return true, table;
  }

  lemma CountNext<E(!new)>(t: Table<E>, i: nat)
    requires i < |t|
    ensures t[i].entry.None? ==> SameContents(t[..i], t[..i + 1])
    ensures t[i].entry.Some? ==> OneMore(t[..i], t[..i + 1], t[i].entry.value)
  {
    assert t[..i + 1][..i] == t[..i];
  }

  /** Entries with homes of their own can always be copied. */
  lemma OwnHomesAreCopied<E(!new)>(t: Table<E>, m: multiset<E>, exp: nat, hash: E -> Word)
    requires 0 < exp <= EXP_MAX && OwnHomes(m, exp, hash) && forall x :: m[x] == Count(t, x)
    ensures !CopyingStops(t, exp, hash)
  {
    forall before, part, i ensures !StopsAt(t, exp, hash, before, part, i) {
      if StopsAt(t, exp, hash, before, part, i) {
        NeverStopsAt(t, m, exp, hash, before, i);
      }
    }
  }

  lemma NeverStopsAt<E(!new)>(t: Table<E>, m: multiset<E>, exp: nat, hash: E -> Word, before: Table<E>, i: nat)
    requires 0 < exp <= EXP_MAX && OwnHomes(m, exp, hash) && forall x :: m[x] == Count(t, x)
    requires i < |t| && t[i].entry.Some?
    requires Inv(before, exp, hash) && Packed(before, exp, hash) && SameContents(before, t[..i])
    ensures var home := Home(hash, exp, t[i].entry.value); !Taken(before, home, home + exp)
  {
    var x := t[i].entry.value;
    var home := Home(hash, exp, x);
    forall y ensures Count(before, y) <= m[y] {
      CountPrefix(t, i, y);
      assert Count(before, y) == Count(t[..i], y);
    }
    LiveIff(t, x);
    assert m[x] == Count(t, x);
    if Taken(before, home, home + exp) {
      var y := before[home].entry.value;
      StandsAtHome(before, m, exp, hash, home);
      LiveIff(before, y);
      assert Count(before, y) <= m[y];
      LiveIff(t[..i], y);
      assert Count(before, y) == Count(t[..i], y);
      var p :| 0 <= p < i && t[..i][p].entry == Some(y);
      TwoCopies(t, p, i, x);
    }
  }

  lemma {:induction false} CountPrefix<E>(t: Table<E>, i: nat, x: E)
    requires i <= |t|
    ensures Count(t[..i], x) <= Count(t, x)
  {
    if i < |t| {
      CountPrefix(t[..|t| - 1], i, x);
      assert t[..|t| - 1][..i] == t[..i];
    } else {
      assert t[..i] == t;
    }
  }

  // ---- scanning a neighbourhood -----------------------------------------

  /** Hop `j` of bucket `home` is set and its slot passes the tests of the lookup loops. */
  predicate Matches<E>(t: Table<E>, exp: nat, hashcode: Word, home: nat, accept: E -> bool, j: nat)
    requires j < exp <= EXP_MAX && home + exp <= |t|
  {
    && t[home].bits[j]
    && SameFragment(t[home + j].bits, hashcode, exp)
    && t[home + j].entry.Some? && accept(t[home + j].entry.value)
  }

  /** A bucket word once the scan is done with its first `k` bits. */
  ghost function ClearBelow(w: Word, k: nat): (r: Word)
  {
    seq(WORD_SIZE, i requires 0 <= i < WORD_SIZE => i >= k && w[i])
  }

  /** One round of the scan moves on to the next set bit. */
  lemma ScanNext(w: Word, k: nat)
    ensures var n := CountTrailingZeros(ClearBelow(w, k));
            && (k <= WORD_SIZE ==> k <= n)
            && (forall i :: k <= i < n ==> !w[i])
            && (n < WORD_SIZE ==> w[n] && BitUnset(ClearBelow(w, k), n) == ClearBelow(w, n + 1))
  {
    var c := ClearBelow(w, k);
    var n := CountTrailingZeros(c);
    if n < WORD_SIZE {
      forall i | 0 <= i < WORD_SIZE ensures BitUnset(c, n)[i] == ClearBelow(w, n + 1)[i] {
        if i < n {
          assert !c[i];
        }
      }
    }
    forall i | k <= i < n ensures !w[i] {
      assert !c[i];
    }
  }

  /** None of the first `k` hops matches. */
  ghost predicate NoneBefore<E>(t: Table<E>, exp: nat, hashcode: Word, home: nat, accept: E -> bool, k: nat)
    requires exp <= EXP_MAX && home < |t| && home + exp <= |t|
  {
    forall j :: 0 <= j < k && j < exp ==> !Matches(t, exp, hashcode, home, accept, j)
  }

  lemma SkippedHopsDoNotMatch<E>(t: Table<E>, exp: nat, hashcode: Word, home: nat, accept: E -> bool, k: nat, n: nat)
    requires exp <= EXP_MAX && home < |t| && home + exp <= |t| && n <= WORD_SIZE
    requires forall i :: k <= i < n ==> !t[home].bits[i]
    requires NoneBefore(t, exp, hashcode, home, accept, k)
    ensures NoneBefore(t, exp, hashcode, home, accept, n)
  {
  }

  /** The lookup loop: the lowest set hop whose slot matches, or `exp` when there is none. */
  method ScanHops<E(!new)>(buckets: array<Bucket<E>>, exp: nat, hashcode: Word, home: nat, accept: E -> bool,
                           ghost hash: E -> Word)
    returns (hopIdx: nat)
    requires Inv(buckets[..], exp, hash) && home + exp <= buckets.Length
    ensures hopIdx <= exp
    ensures hopIdx < exp ==> Matches(buckets[..], exp, hashcode, home, accept, hopIdx)
    ensures forall j :: 0 <= j < hopIdx ==> !Matches(buckets[..], exp, hashcode, home, accept, j)
  {
    ghost var t := buckets[..];
    var hop := buckets[home].bits;
    ghost var k := 0;
    assert hop == ClearBelow(t[home].bits, 0);
    while true
      invariant 0 <= k <= exp
      invariant hop == ClearBelow(t[home].bits, k)
      invariant NoneBefore(t, exp, hashcode, home, accept, k)
      decreases exp - k
    {
      hopIdx := CountTrailingZeros(hop);
      ScanRound(t, exp, hash, hashcode, home, accept, k);
      if hopIdx >= exp {
        hopIdx := exp;
        return;
      }
      var b := buckets[home + hopIdx];
      if SameFragment(b.bits, hashcode, exp) && accept(b.entry.value) {
        return;
      }
      hop := BitUnset(hop, hopIdx);
      k := hopIdx + 1;
    }
  }

  /** What one round of the scan finds: the next set hop, which names an entry, or the end of the hops. */
  lemma ScanRound<E>(t: Table<E>, exp: nat, hash: E -> Word, hashcode: Word, home: nat, accept: E -> bool, k: nat)
    requires Inv(t, exp, hash) && home + exp <= |t| && k <= exp && NoneBefore(t, exp, hashcode, home, accept, k)
    ensures var n := CountTrailingZeros(ClearBelow(t[home].bits, k));
            && k <= n && NoneBefore(t, exp, hashcode, home, accept, n)
            && (n < exp ==>
                  && t[home].bits[n] && home + n < |t| && t[home + n].entry.Some?
                  && BitUnset(ClearBelow(t[home].bits, k), n) == ClearBelow(t[home].bits, n + 1)
                  && (!Matches(t, exp, hashcode, home, accept, n) ==> NoneBefore(t, exp, hashcode, home, accept, n + 1)))
  {
    var n := CountTrailingZeros(ClearBelow(t[home].bits, k));
    ScanNext(t[home].bits, k);
    SkippedHopsDoNotMatch(t, exp, hashcode, home, accept, k, n);
    if n < exp {
      NamedSlot(t, exp, hash, home, n);
    }
  }

  lemma NamedSlot<E>(t: Table<E>, exp: nat, hash: E -> Word, i: nat, j: nat)
    requires Inv(t, exp, hash)
    requires i < |t| && j < exp && t[i].bits[j]
    ensures i + j < |t| && t[i + j].entry.Some?
  {
    assert Named(t, exp, hash, i, j);
  }

  // ---- the map ----------------------------------------------------------

  /** The multiset of the entries of a table. */
  ghost predicate Represents<E(!new)>(m: multiset<E>, t: Table<E>)
  {
    forall x :: m[x] == Count(t, x)
  }

  /** When no hop matches, no entry of the table has the hashcode and is accepted. */
  lemma NoneThere<E(!new)>(t: Table<E>, m: multiset<E>, exp: nat, hash: E -> Word, hashcode: Word, accept: E -> bool)
    requires Inv(t, exp, hash) && Represents(m, t) && HashToIdx(hashcode, exp) + exp <= |t|
    requires forall j :: 0 <= j < exp ==> !Matches(t, exp, hashcode, HashToIdx(hashcode, exp), accept, j)
    ensures forall x :: x in m && hash(x) == hashcode ==> !accept(x)
  {
    forall x | x in m && hash(x) == hashcode ensures !accept(x) {
      assert m[x] == Count(t, x);
      var j := LiveIsFound(t, exp, hash, x);
      assert !Matches(t, exp, hashcode, HashToIdx(hashcode, exp), accept, j);
    }
  }

  /** Slot `s` is the first free one for `x`, and within reach of its home. */
  ghost predicate GoesTo<E>(t: Table<E>, exp: nat, hash: E -> Word, x: E, s: nat)
  {
    exp <= EXP_MAX && FirstFree(t, Home(hash, exp, x), s) && s < Home(hash, exp, x) + exp
  }

  ghost function StoredAtSlot<E>(t: Table<E>, exp: nat, hash: E -> Word, x: E, s: nat): (r: Table<E>)
    requires GoesTo(t, exp, hash, x, s)
  {
    Stored(t, exp, Home(hash, exp, x), s - Home(hash, exp, x), hash(x), x)
  }

  /**
  Hop `hop` of bucket `home` leads to the slot of `x`, and what it clears besides does not matter:
  it is a hop bit, or no fragment bit of an entry, or the table is `healed` by another rebuild.
  */
  ghost predicate LeadsBack<E>(t: Table<E>, exp: nat, home: nat, hop: nat, x: E, healed: bool)
  {
    && hop < WORD_SIZE && home + hop < |t| && t[home + hop].entry == Some(x)
    && (hop < exp || healed || !(t[home].entry.Some? && t[home].bits[hop]))
  }

  class HashMap<Key(!new), Entry(!new,==)> {
    var buckets: array<Bucket<Entry>>
    var numUsed: nat
    var exp: nat
    const entryComp: (Key, Entry) -> bool
    const entryHash: Entry -> Word
    ghost var contents: multiset<Entry>

    ghost predicate Valid()
      reads this, buckets
    {
      && EXP_MIN <= exp
      && Inv(buckets[..], exp, entryHash)
      && Represents(contents, buckets[..])
      && numUsed == |contents|
    }

    constructor (entryComp: (Key, Entry) -> bool, entryHash: Entry -> Word)
      ensures Valid() && fresh(buckets)
      ensures contents == multiset{}
      ensures this.entryComp == entryComp && this.entryHash == entryHash
    {
      this.entryComp, this.entryHash := entryComp, entryHash;
      var table := NewTable(EXP_MIN, entryHash);
      buckets := table;
      exp, numUsed, contents := EXP_MIN, 0, multiset{};
    }

    /**
    Rebuilds the table under another exponent. Either nothing changes, or the new table
    holds the same entries.
    */
    method Rehash(newExp: nat) returns (ok: bool)
      requires Valid() && newExp >= EXP_MIN
      modifies this`buckets, this`exp
      ensures Valid()
      ensures ok ==> exp == newExp <= EXP_MAX && fresh(buckets) && Packed(buckets[..], exp, entryHash)
      ensures !ok ==> exp == old(exp) && buckets == old(buckets)
      ensures !ok ==> CopyingStops(buckets[..], newExp, entryHash)
    {
      ok := TryRebuild(newExp);
    }

    /** The body of `rehash`, which asks nothing of the order of the table that it reads. */
    method TryRebuild(newExp: nat) returns (ok: bool)
      requires newExp > 0
      modifies this`buckets, this`exp
      ensures ok ==> exp == newExp <= EXP_MAX && fresh(buckets)
      ensures ok ==> Inv(buckets[..], exp, entryHash) && Packed(buckets[..], exp, entryHash)
      ensures ok ==> SameContents(buckets[..], old(buckets[..]))
      ensures !ok ==> exp == old(exp) && buckets == old(buckets)
      ensures !ok ==> CopyingStops(buckets[..], newExp, entryHash)
    {
      if newExp > EXP_MAX {
        return false;
      }
      var table;
      ok, table := Rebuild(buckets, newExp, entryHash);
      if ok {
        buckets := table;
        exp := newExp;
      }
    }

    /** The table has the size of its exponent; its buckets need not be in order. */
    ghost predicate Shaped()
      reads this
    {
      EXP_MIN <= exp <= EXP_MAX && buckets.Length == BucketCount(exp)
    }

    /**
    Adds an entry, growing the table until it fits. The process aborts when the table can be
    rebuilt neither under the next exponent nor under the one after it; nothing is lost then. An
    entry whose first free slot is within reach goes there. None of this needs a table in order.
    */
    method Insert(hashcode: Word, entry: Entry) returns (aborted: bool)
      requires Shaped()
      requires hashcode == entryHash(entry)
      modifies this, buckets
      ensures Shaped() && (buckets == old(buckets) || fresh(buckets))
      ensures old(Valid()) ==> Valid()
      ensures old(Inv(buckets[..], exp, entryHash)) ==> Inv(buckets[..], exp, entryHash)
      ensures !aborted ==> contents == old(contents) + multiset{entry} && numUsed == old(numUsed) + 1
      ensures !aborted ==> OneMore(old(buckets[..]), buckets[..], entry)
      ensures aborted ==> contents == old(contents) && SameContents(buckets[..], old(buckets[..]))
      ensures aborted ==> Refuses(entry)
      ensures forall s: nat :: GoesTo(old(buckets[..]), old(exp), entryHash, entry, s) ==>
        !aborted && exp == old(exp) && buckets[..] == StoredAtSlot(old(buckets[..]), exp, entryHash, entry, s)
      decreases EXP_MAX - exp
    {
      ghost var t := buckets[..];
      var placed := PlaceOrFail(hashcode, entry);
      if placed {
        return false;
      }
      var ok := Grow();
      if !ok {
        return true;
      }
      aborted := Insert(hashcode, entry);
    }

    /** There is no room for an entry, and no larger table. */
    ghost predicate Refuses(entry: Entry)
      reads this, buckets
    {
      exp <= WORD_SIZE && NoRoom(buckets[..], exp, Home(entryHash, exp, entry)) && NoLargerTable()
    }

    /** The entries cannot all be copied to a table of either of the next two exponents. */
    ghost predicate NoLargerTable()
      reads this, buckets
    {
      CopyingStops(buckets[..], exp + 1, entryHash) && CopyingStops(buckets[..], exp + 2, entryHash)
    }

    /** Rebuilds the table under the next exponent, or failing that under the one after it. */
    method Grow() returns (ok: bool)
      requires Shaped()
      modifies this`buckets, this`exp
      ensures Shaped()
      ensures old(Valid()) ==> Valid()
      ensures ok ==> old(exp) < exp && fresh(buckets) && SameContents(buckets[..], old(buckets[..]))
      ensures ok ==> Inv(buckets[..], exp, entryHash)
      ensures !ok ==> exp == old(exp) && buckets == old(buckets)
      ensures !ok ==> NoLargerTable()
    {
      ok := TryRebuild(exp + 1);
      if !ok {
        ok := TryRebuild(exp + 2);
      }
    }

    /** The first half of `Insert`: stores the entry in the table as it is, if there is room. */
    method PlaceOrFail(hashcode: Word, entry: Entry) returns (ok: bool)
      requires Shaped()
      requires hashcode == entryHash(entry)
      modifies buckets, this`numUsed, this`contents
      ensures old(Valid()) ==> Valid()
      ensures old(Inv(buckets[..], exp, entryHash)) ==> Inv(buckets[..], exp, entryHash)
      ensures contents == if ok then old(contents) + multiset{entry} else old(contents)
      ensures numUsed == if ok then old(numUsed) + 1 else old(numUsed)
      ensures ok ==> OneMore(old(buckets[..]), buckets[..], entry)
      ensures !ok ==> SameContents(buckets[..], old(buckets[..]))
      ensures !ok ==> NoRoom(buckets[..], exp, Home(entryHash, exp, entry))
      ensures forall s: nat :: GoesTo(old(buckets[..]), exp, entryHash, entry, s) ==>
        ok && buckets[..] == StoredAtSlot(old(buckets[..]), exp, entryHash, entry, s)
    {
      ok := Place(buckets, exp, hashcode, entry, entryHash);
      if ok {
        numUsed := numUsed + 1;
        contents := contents + multiset{entry};
      }
    }

    /** The id decodes to a set hop of the table whose slot holds `entry`. */
    ghost predicate Names(id: nat, entry: Entry)
      reads this, buckets
    {
      id < 0x8000_0000_0000_0000 && NamesSlot(id / 64, id % 64, entry)
    }

    ghost predicate NamesSlot(home: nat, hop: nat, entry: Entry)
      reads this, buckets
    {
      NamesIn(buckets[..], exp, home, hop, entry)
    }

    /**
    Looks a key up. A result is a live entry that compares equal and has the given hashcode,
    and no result means there is none. The id names the bucket and hop of the result.
    */
    method Search(key: Key, hashcode: Word) returns (entry: Option<Entry>, id: nat)
      requires Valid()
      ensures entry.Some? ==>
        entry.value in contents && entryHash(entry.value) == hashcode && entryComp(key, entry.value)
      ensures entry.None? ==>
        forall x :: x in contents && entryHash(x) == hashcode ==> !entryComp(key, x)
      ensures entry.Some? ==> Names(id, entry.value)
    {
      var hashIdx := HashToIdx(hashcode, exp);
      HomeInTable(buckets[..], exp, hashcode);
      var accept := (x: Entry) => entryComp(key, x);
      var hopIdx := ScanHops(buckets, exp, hashcode, hashIdx, accept, entryHash);
      if hopIdx < exp {
        var e := buckets[hashIdx + hopIdx].entry;
        FoundIsLive(buckets[..], exp, entryHash, hashcode, e.value, hopIdx);
        PackIdRoundTrip(exp, hashcode, hopIdx);
        return e, PackId(hashIdx, hopIdx);
      }
      NoneThere(buckets[..], contents, exp, entryHash, hashcode, accept);
      return None, 0;
    }

    /** Like `Search`, for an entry known to be in the map. */
    method FindEntry(entry: Entry) returns (home: nat, hopIdx: nat)
      requires Valid()
      requires entry in contents
      ensures NamesSlot(home, hopIdx, entry)
    {
      var hashcode := entryHash(entry);
      home := HashToIdx(hashcode, exp);
      HomeInTable(buckets[..], exp, hashcode);
      ghost var j := LiveIsFound(buckets[..], exp, entryHash, entry);
      var accept := (x: Entry) => x == entry;
      hopIdx := ScanHops(buckets, exp, hashcode, home, accept, entryHash);
      assert Matches(buckets[..], exp, hashcode, home, accept, j);
    }

    /** The test after a removal: the table is less than one eighth full, and not of the least size. */
    predicate Sparse(used: nat)
      reads this
    {
      exp > EXP_MIN && used < buckets.Length / 8
    }

    /** The table is the same one, and what ids name is still there, except for `entry`. */
    twostate predicate IdsSurvive(entry: Entry)
      reads this, buckets
    {
      && exp == old(exp) && buckets == old(buckets)
      && forall id: nat, e {:trigger Names(id, e)} :: e != entry && old(Names(id, e)) ==> Names(id, e)
    }

    /**
    Removes an entry, by its id when that is not negative and by search otherwise, and shrinks
    a table that is less than one eighth full. A failed shrink changes nothing. Unless the table
    shrinks, the ids of all other entries stay good.
    */
    method Remove(entry: Entry, id: int)
      requires Valid()
      requires entry in contents
      requires id >= 0 ==> Names(id, entry)
      modifies this, buckets
      ensures Valid() && (buckets == old(buckets) || fresh(buckets))
      ensures contents == old(contents) - multiset{entry}
      ensures IdsSurvive(entry) || (old(Sparse(numUsed - 1)) && exp == old(exp) - 1)
    {
      var home, hop;
      if id < 0 {
        home, hop := FindEntry(entry);
      } else {
        home, hop := id / 64, id % 64;
      }
      RemoveAt(entry, home, hop);
      Shrink();
    }

    /** Shrinks a sparse table, if its entries can be copied. */
    method Shrink()
      requires Valid()
      modifies this`buckets, this`exp
      ensures Valid()
      ensures exp == old(exp) ==> buckets == old(buckets)
      ensures exp != old(exp) ==> old(Sparse(numUsed)) && exp == old(exp) - 1 && fresh(buckets)
      ensures exp == old(exp) && old(Sparse(numUsed)) ==> CopyingStops(buckets[..], exp - 1, entryHash)
    {
      if exp <= EXP_MIN {
        return;
      }
      if numUsed < buckets.Length / 8 {
        var _ := Rehash(exp - 1);
      }
    }

    method RemoveAt(entry: Entry, home: nat, hop: nat)
      requires Valid() && NamesSlot(home, hop, entry)
      modifies buckets, this`numUsed, this`contents
      ensures Valid()
      ensures contents == old(contents) - multiset{entry} && numUsed == old(numUsed) - 1
      ensures IdsSurvive(entry)
    {
      ghost var t := buckets[..];
      ClearSlot(buckets, home, hop);
      RemoveKeepsInv(t, exp, entryHash, home, hop);
      RemovedEntry(t, contents, exp, home, hop, entry);
      numUsed := numUsed - 1;
      contents := contents - multiset{entry};
    }

    /**
    What a replacing rename does to its name index: the entry `x` gets another key, `x'`, while it
    is in the table; `y` is removed by its id, then `x'` by the id that `x` had, and then `x'` is
    inserted. The table that the second removal finds is `mid`. All is well unless the first
    removal shrank the table and the id does not lead to `x'` any more, or clears a bit that
    matters; a second shrink, `healed`, makes up for the bit. An id that leads out of the table
    makes the removal write there.
    */
    method ReplaceByIds(y: Entry, yId: nat, x: Entry, xId: nat, x': Entry)
      returns (outside: bool, aborted: bool, ghost mid: Table<Entry>, ghost midExp: nat, ghost healed: bool)
      requires Valid() && x != y && x in contents && y in contents && x' !in contents
      requires Names(yId, y) && Names(xId, x)
      modifies this, buckets
      ensures buckets == old(buckets) || fresh(buckets)
      ensures outside <==> midExp != old(exp) && xId / 64 + xId % 64 >= |mid|
      ensures !outside && !aborted ==> contents == old(contents) - multiset{y} - multiset{x} + multiset{x'}
      ensures !outside && !aborted ==> (Valid() <==> midExp == old(exp) || LeadsBack(mid, midExp, xId / 64, xId % 64, x', healed))
      ensures Represents(old(contents) - multiset{y} - multiset{x} + multiset{x'}, mid)
      ensures midExp != old(exp) ==> old(Sparse(numUsed - 1)) && midExp == old(exp) - 1
      ensures midExp != old(exp) ==> Inv(mid, midExp, entryHash) && Packed(mid, midExp, entryHash)
      ensures midExp == old(exp) ==> CannotShrink(mid, midExp, old(numUsed) - 1)
      ensures |mid| == BucketCount(midExp)
      ensures healed ==> midExp != old(exp) && midExp > EXP_MIN && old(numUsed) - 2 < |mid| / 8
      ensures !outside && midExp != old(exp) && !healed ==> CannotShrink(Removed(mid, xId / 64, xId % 64), midExp, old(numUsed) - 2)
      ensures aborted ==> Refuses(x') && RefusedAfter(mid, midExp, xId / 64, xId % 64, x', midExp != old(exp) && !healed)
    {
      var hx, px := xId / 64, xId % 64;
      ghost var rest := contents - multiset{y} - multiset{x};
      BothSizes(contents, x, y);
      var shrunk := RekeyAndShrink(y, yId / 64, yId % 64, x, hx, px, x');
      mid, midExp, healed := buckets[..], exp, false;
      if hx + px >= buckets.Length {
        return true, false, mid, midExp, healed;
      }
      outside := false;
      aborted, healed := PutBack(x', hx, px, rest, shrunk);
    }

    /**
    The entries are those that the removal of a slot of `mid` leaves, and when there was no rebuild
    since then, no slot within reach of the home of `x'` was free.
    */
    ghost predicate RefusedAfter(mid: Table<Entry>, midExp: nat, home: nat, hop: nat, x': Entry, same: bool)
      reads this, buckets
    {
      && hop < WORD_SIZE && home + hop < |mid| && SameContents(buckets[..], Removed(mid, home, hop))
      && (same ==> forall s: nat :: !GoesTo(Removed(mid, home, hop), midExp, entryHash, x', s))
    }

    /** The first removal, with the shrink after it. */
    method RekeyAndShrink(y: Entry, hy: nat, py: nat, x: Entry, hx: nat, px: nat, x': Entry) returns (shrunk: bool)
      requires Valid() && x != y && y in contents && NamesSlot(hy, py, y) && NamesSlot(hx, px, x)
      modifies buckets, this`numUsed, this`buckets, this`exp
      ensures Shaped() && numUsed == old(numUsed) - 1 && px < WORD_SIZE
      ensures Represents(old(contents) - multiset{y} - multiset{x} + multiset{x'}, buckets[..])
      ensures shrunk ==> old(Sparse(numUsed - 1)) && exp == old(exp) - 1 && fresh(buckets)
      ensures shrunk ==> Inv(buckets[..], exp, entryHash) && Packed(buckets[..], exp, entryHash)
      ensures !shrunk ==> exp == old(exp) && buckets == old(buckets) && hx + px < buckets.Length
      ensures !shrunk ==> InOrder(Removed(buckets[..], hx, px), old(contents) - multiset{y} - multiset{x})
      ensures !shrunk ==> CannotShrink(buckets[..], exp, numUsed)
    {
      RekeyAndRemove(y, hy, py, x, hx, px, x');
      ghost var t := buckets[..];
      shrunk := false;
      if Sparse(numUsed) {
        shrunk := TryRebuild(exp - 1);
      }
      SameMultiset(old(contents) - multiset{y} - multiset{x} + multiset{x'}, t, buckets[..]);
    }

    /**
    The second removal, which does not look at what it removes, and the insertion. What comes of
    it, by what the slot held.
    */
    method PutBack(x': Entry, hx: nat, px: nat, ghost rest: multiset<Entry>, ghost shrunk: bool)
      returns (aborted: bool, ghost healed: bool)
      requires Shaped() && px < WORD_SIZE && hx + px < buckets.Length && numUsed == |rest| + 1 && x' !in rest
      requires !shrunk ==> InOrder(Removed(buckets[..], hx, px), rest)
      requires shrunk ==> InOrder(buckets[..], rest + multiset{x'}) && Packed(buckets[..], exp, entryHash)
      modifies this, buckets
      ensures buckets == old(buckets) || fresh(buckets)
      ensures healed ==> shrunk && old(exp) > EXP_MIN && |rest| < old(buckets.Length) / 8
      ensures shrunk && !healed ==> CannotShrink(Removed(old(buckets[..]), hx, px), old(exp), |rest|)
      ensures !aborted ==> contents == rest + multiset{x'}
      ensures !aborted ==> (Valid() <==> !shrunk || LeadsBack(old(buckets[..]), old(exp), hx, px, x', healed))
      ensures aborted ==> Refuses(x') && SameContents(buckets[..], Removed(old(buckets[..]), hx, px))
      ensures aborted && shrunk && !healed ==> forall s: nat :: !GoesTo(Removed(old(buckets[..]), hx, px), old(exp), entryHash, x', s)
    {
      ghost var t, e := buckets[..], exp;
      var again := RemoveBlind(hx, px, rest);
      ghost var u := buckets[..];
      RemovedIsValid(t, u, e, exp, entryHash, hx, px, rest, again);
      aborted := Insert(entryHash(x'), x');
      healed := again && shrunk;
      if !aborted && shrunk {
        PutBackIff(t, u, buckets[..], e, exp, entryHash, hx, px, rest, x', healed);
      }
    }

    /** A table with `used` entries is too full to shrink, or its entries cannot be copied. */
    ghost predicate CannotShrink(t: Table<Entry>, exp: nat, used: int)
    {
      exp > EXP_MIN && used < |t| / 8 ==> CopyingStops(t, exp - 1, entryHash)
    }

    /** `hashmap_update` by an id, without a look at the entry. */
    method RemoveBlind(hx: nat, px: nat, ghost rest: multiset<Entry>) returns (shrunk: bool)
      requires Shaped() && px < WORD_SIZE && hx + px < buckets.Length && numUsed == |rest| + 1
      modifies this, buckets
      ensures Shaped() && (buckets == old(buckets) || fresh(buckets)) && contents == rest && numUsed == |rest|
      ensures shrunk ==> old(exp) > EXP_MIN && |rest| < old(buckets.Length) / 8
      ensures shrunk ==> Inv(buckets[..], exp, entryHash) && SameContents(buckets[..], Removed(old(buckets[..]), hx, px))
      ensures !shrunk ==> exp == old(exp) && buckets[..] == Removed(old(buckets[..]), hx, px)
      ensures !shrunk ==> CannotShrink(buckets[..], exp, |rest|)
    {
      ClearSlot(buckets, hx, px);
      numUsed, contents := numUsed - 1, rest;
      shrunk := false;
      if Sparse(numUsed) {
        shrunk := TryRebuild(exp - 1);
      }
    }

    /** A table of this exponent in order, with just the entries `m`. */
    ghost predicate InOrder(t: Table<Entry>, m: multiset<Entry>)
      reads this
    {
      Inv(t, exp, entryHash) && Represents(m, t)
    }

    /** The key of `x` changes in place, and `y` is removed by its id. */
    method RekeyAndRemove(y: Entry, hy: nat, py: nat, x: Entry, hx: nat, px: nat, x': Entry)
      requires Valid() && x != y && y in contents && NamesSlot(hy, py, y) && NamesSlot(hx, px, x)
      modifies buckets, this`numUsed
      ensures numUsed == old(numUsed) - 1 && hx + px < buckets.Length && px < WORD_SIZE
      ensures Represents(old(contents) - multiset{y} - multiset{x} + multiset{x'}, buckets[..])
      ensures Inv(Removed(buckets[..], hx, px), exp, entryHash)
      ensures Represents(old(contents) - multiset{y} - multiset{x}, Removed(buckets[..], hx, px))
    {
      ghost var t := buckets[..];
      TwoSlots(t, exp, hx, px, x, hy, py, y);
      RekeyedCounts(t, exp, hx, px, x, hy, py, y, x');
      RemovedBoth(t, exp, entryHash, hx, px, x, hy, py, y, x');
      buckets[hx + px] := buckets[hx + px].(entry := Some(x'));
      assert buckets[..] == Rekeyed(t, hx + px, x');
      ClearSlot(buckets, hy, py);
      numUsed := numUsed - 1;
      LeftOver(contents, t, x, y, x', buckets[..], Removed(buckets[..], hx, px));
    }
  }

  /** What a removal by a hop that names `x` leaves, as a multiset and for other hops. */
  lemma RemovedEntry<E(!new)>(t: Table<E>, m: multiset<E>, exp: nat, home: nat, hop: nat, x: E)
    requires NamesIn(t, exp, home, hop, x) && Represents(m, t)
    ensures x in m && Represents(m - multiset{x}, Removed(t, home, hop))
    ensures forall i, j, e :: e != x && NamesIn(t, exp, i, j, e) ==> NamesIn(Removed(t, home, hop), exp, i, j, e)
  {
    forall i, j, e | e != x && NamesIn(t, exp, i, j, e) ensures NamesIn(Removed(t, home, hop), exp, i, j, e) {
      RemovedKeepsNames(t, exp, home, hop, i, j, e);
    }
    LiveIff(t, x);
    assert m[x] == Count(t, x);
    forall y ensures (m - multiset{x})[y] == Count(Removed(t, home, hop), y) {
      RemoveCount(t, home, hop, y);
      assert m[y] == Count(t, y);
    }
  }

  /** When a blind removal was right, a table in order is left. */
  lemma RemovedIsValid<E(!new)>(t: Table<E>, u: Table<E>, e: nat, ue: nat, hash: E -> Word, i: nat, j: nat, rest: multiset<E>, shrunk: bool)
    requires j < WORD_SIZE && i + j < |t|
    requires shrunk ==> Inv(u, ue, hash) && SameContents(u, Removed(t, i, j))
    requires !shrunk ==> ue == e && u == Removed(t, i, j)
    ensures Represents(rest, Removed(t, i, j)) ==> Represents(rest, u)
    ensures Represents(rest, Removed(t, i, j)) && (shrunk || Inv(Removed(t, i, j), e, hash)) ==> Inv(u, ue, hash)
  {
  }

  /** The slot that was cleared is the first free one for the entry that was in it. */
  lemma GoesBack<E>(t: Table<E>, exp: nat, hash: E -> Word, i: nat, j: nat, x: E)
    requires Inv(t, exp, hash) && Packed(t, exp, hash) && j < WORD_SIZE && i + j < |t| && t[i + j].entry == Some(x)
    ensures GoesTo(Removed(t, i, j), exp, hash, x, i + j)
  {
    assert WellPlaced(t, exp, hash, i + j);
    assert CloseUp(t, exp, hash, |t|, i + j);
  }

  /** What the table is after removal and insertion, when the slot held the entry. */
  lemma PutBackIff<E(!new)>(t: Table<E>, u: Table<E>, f: Table<E>, e: nat, fe: nat, hash: E -> Word,
                            i: nat, j: nat, rest: multiset<E>, x: E, healed: bool)
    requires Inv(t, e, hash) && Packed(t, e, hash) && Represents(rest + multiset{x}, t) && x !in rest
    requires j < WORD_SIZE && i + j < |t| && OneMore(u, f, x)
    requires healed ==> SameContents(u, Removed(t, i, j)) && Inv(f, fe, hash)
    requires !healed ==> u == Removed(t, i, j)
    requires !healed && GoesTo(u, e, hash, x, i + j) ==> fe == e && f == StoredAtSlot(u, e, hash, x, i + j)
    ensures Inv(f, fe, hash) && Represents(rest + multiset{x}, f) <==> LeadsBack(t, e, i, j, x, healed)
  {
    var r := Removed(t, i, j);
    forall y ensures Count(f, y) == Count(t, y) - Holds(t[i + j], y) + (if y == x then 1 else 0) {
      RemoveCount(t, i, j, y);
      assert Count(u, y) == Count(r, y);
    }
    if t[i + j].entry == Some(x) {
      GoesBack(t, e, hash, i, j, x);
      if !healed {
        PutBackBit(t, e, hash, i, j, x);
      }
    } else {
      assert (rest + multiset{x})[x] == Count(t, x) == 1;
      assert Count(f, x) == 2;
    }
  }

  lemma PutBackBit<E(!new)>(t: Table<E>, e: nat, hash: E -> Word, i: nat, j: nat, x: E)
    requires Inv(t, e, hash) && j < WORD_SIZE && i + j < |t| && t[i + j].entry == Some(x)
    requires GoesTo(Removed(t, i, j), e, hash, x, i + j)
    ensures Inv(StoredAtSlot(Removed(t, i, j), e, hash, x, i + j), e, hash) <==> LeadsBack(t, e, i, j, x, false)
  {
    if NamesIn(t, e, i, j, x) {
      NamedFromHome(t, e, hash, i, j, x);
      RemoveKeepsInv(t, e, hash, i, j);
      StoreKeepsInv(Removed(t, i, j), e, hash, j, x);
    } else {
      StoredAgain(t, e, hash, i, j, x);
      if j < e {
        BlurredHop(t, e, hash, i, j, x);
      } else {
        BlurredInvIff(t, e, hash, i, j);
      }
    }
  }

  lemma SameMultiset<E(!new)>(m: multiset<E>, t: Table<E>, u: Table<E>)
    requires Represents(m, t) && SameContents(u, t)
    ensures Represents(m, u)
  {
  }

  lemma BothSizes<E>(m: multiset<E>, x: E, y: E)
    requires x in m && y in m && x != y
    ensures |m - multiset{y} - multiset{x}| == |m| - 2
  {
    assert |m - multiset{y}| == |m| - 1 && x in m - multiset{y};
  }

  /** The counts of the tables, as multisets. */
  lemma LeftOver<E(!new)>(m: multiset<E>, t: Table<E>, x: E, y: E, x': E, u: Table<E>, r: Table<E>)
    requires Represents(m, t) && x != y && Count(t, x) > 0 && Count(t, y) > 0
    requires forall z :: Count(u, z) == Count(t, z) - One(x, z) + One(x', z) - One(y, z)
    requires forall z :: Count(r, z) == Count(t, z) - One(y, z) - One(x, z)
    ensures Represents(m - multiset{y} - multiset{x} + multiset{x'}, u)
    ensures Represents(m - multiset{y} - multiset{x}, r)
  {
  }

  /** The two writes of a removal. */
  method ClearSlot<E>(buckets: array<Bucket<E>>, home: nat, hop: nat)
    requires hop < WORD_SIZE && home + hop < buckets.Length
    modifies buckets
    ensures buckets[..] == Removed(old(buckets[..]), home, hop)
  {
    buckets[home] := buckets[home].(bits := BitUnset(buckets[home].bits, hop));
    buckets[home + hop] := buckets[home + hop].(entry := None);
  }

  // ---- whole runs -------------------------------------------------------

  /** `Drop` removes an entry by a search for the entry itself, or by the id that a search for `key` gave. */
  datatype Op<Key, Entry> = Put(entry: Entry) | Drop(entry: Entry, via: Option<Key>) | Find(key: Key, hashcode: Word)

  ghost function Step<K, E>(m: multiset<E>, op: Op<K, E>): (r: multiset<E>)
  {
    match op
    case Put(e) => m + multiset{e}
    case Drop(e, _) => m - multiset{e}
    case Find(_, _) => m
  }

  /** What a run leaves in the map, without any table. */
  ghost function After<K, E>(ops: seq<Op<K, E>>): (m: multiset<E>)
  {
    if ops == [] then multiset{} else Step(After(ops[..|ops| - 1]), ops[|ops| - 1])
  }

  /** Callers remove only what is there, and by an id only what a search for the key gives. */
  ghost predicate CanDrop<K, E(!new)>(m: multiset<E>, comp: (K, E) -> bool, hash: E -> Word, e: E, via: Option<K>)
  {
    e in m && (via.Some? ==> comp(via.value, e) && forall e' :: e' in m && hash(e') == hash(e) && comp(via.value, e') ==> e' == e)
  }

  ghost predicate DropsArePresent<K, E(!new)>(comp: (K, E) -> bool, hash: E -> Word, ops: seq<Op<K, E>>)
  {
    forall i :: 0 <= i < |ops| ==> DropIsPresent(comp, hash, ops, i)
  }

  ghost predicate DropIsPresent<K, E(!new)>(comp: (K, E) -> bool, hash: E -> Word, ops: seq<Op<K, E>>, i: nat)
    requires i < |ops|
  {
    ops[i].Drop? ==> CanDrop(After(ops[..i]), comp, hash, ops[i].entry, ops[i].via)
  }

  /** The answer to a lookup of `key` under `hashcode` when the map holds `m`. */
  ghost predicate Answers<K, E(!new)>(m: multiset<E>, comp: (K, E) -> bool, hash: E -> Word,
                                      key: K, hashcode: Word, a: Option<E>)
  {
    match a
    case Some(e) => e in m && hash(e) == hashcode && comp(key, e)
    case None => forall e :: e in m && hash(e) == hashcode ==> !comp(key, e)
  }

  /** The reason for which an insertion aborts: a table with just these entries has no room, and cannot grow. */
  ghost predicate NoTableFor<E(!new)>(m: multiset<E>, hash: E -> Word, entry: E)
  {
    exists t: Table<E>, exp: nat :: FullTable(m, hash, entry, t, exp)
  }

  ghost predicate FullTable<E(!new)>(m: multiset<E>, hash: E -> Word, entry: E, t: Table<E>, exp: nat)
  {
    && EXP_MIN <= exp && Inv(t, exp, hash) && Represents(m, t) && NoRoom(t, exp, Home(hash, exp, entry))
    && CopyingStops(t, exp + 1, hash) && CopyingStops(t, exp + 2, hash)
  }

  /** As many entries as slots that are taken. */
  lemma {:induction false} TakenAtLeast<E(!new)>(t: Table<E>, m: multiset<E>, home: nat, k: nat)
    requires Represents(m, t) && Taken(t, home, home + k)
    ensures |m| >= k
    decreases k
  {
    if k > 0 {
      var s := home + k - 1;
      var x, b := t[s].entry.value, t[s].(entry := None);
      LiveIff(t, x);
      assert m[x] == Count(t, x);
      forall y ensures (m - multiset{x})[y] == Count(t[s := b], y) {
        CountUpdate(t, s, b, y);
        assert m[y] == Count(t, y);
      }
      TakenAtLeast(t[s := b], m - multiset{x}, home, k - 1);
    }
  }

  /** No insertion aborts before there are as many entries as a neighbourhood has slots. */
  lemma NoTableIsFull<E(!new)>(m: multiset<E>, hash: E -> Word, entry: E)
    requires NoTableFor(m, hash, entry)
    ensures |m| >= EXP_MIN
  {
    var t: Table<E>, exp: nat :| FullTable(m, hash, entry, t, exp);
    HomeInTable(t, exp, hash(entry));
    TakenAtLeast(t, m, Home(hash, exp, entry), exp);
  }

  method Apply<K(!new), E(!new,==)>(m: HashMap<K, E>, op: Op<K, E>) returns (aborted: bool, a: Option<E>)
    requires m.Valid()
    requires op.Drop? ==> CanDrop(m.contents, m.entryComp, m.entryHash, op.entry, op.via)
    modifies m, m.buckets
    ensures m.Valid() && (m.buckets == old(m.buckets) || fresh(m.buckets))
    ensures !aborted ==> m.contents == Step(old(m.contents), op)
    ensures aborted ==> op.Put? && m.contents == old(m.contents) && NoTableFor(m.contents, m.entryHash, op.entry)
    ensures op.Find? ==> Answers(old(m.contents), m.entryComp, m.entryHash, op.key, op.hashcode, a)
  {
    aborted, a := false, None;
    match op {
      case Put(e) =>
        aborted := m.Insert(m.entryHash(e), e);
        if aborted {
          assert FullTable(m.contents, m.entryHash, e, m.buckets[..], m.exp);
        }
      case Drop(e, via) =>
        if via.None? {
          m.Remove(e, -1);
        } else {
          var found, id := m.Search(via.value, m.entryHash(e));
          m.Remove(e, id);
        }
      case Find(k, h) =>
        var id;
        a, id := m.Search(k, h);
    }
  }

  ghost predicate AnswersAt<K, E(!new)>(comp: (K, E) -> bool, hash: E -> Word, ops: seq<Op<K, E>>, i: nat, a: Option<E>)
    requires i < |ops|
  {
    ops[i].Find? ==> Answers(After(ops[..i]), comp, hash, ops[i].key, ops[i].hashcode, a)
  }

  /** The lookups among `ops[from..]` are answered by `answers`. */
  ghost predicate AnswersFrom<K, E(!new)>(comp: (K, E) -> bool, hash: E -> Word, ops: seq<Op<K, E>>, from: nat,
                                          answers: seq<Option<E>>)
    requires from + |answers| <= |ops|
  {
    forall k :: 0 <= k < |answers| ==> AnswersAt(comp, hash, ops, from + k, answers[k])
  }

  /** Operation `i` is an insertion for which there is no table. */
  ghost predicate AbortsAt<K, E(!new)>(hash: E -> Word, ops: seq<Op<K, E>>, i: nat)
  {
    i < |ops| && ops[i].Put? && NoTableFor(After(ops[..i]), hash, ops[i].entry)
  }

  lemma AnswersCons<K, E(!new)>(comp: (K, E) -> bool, hash: E -> Word, ops: seq<Op<K, E>>, from: nat,
                                a: Option<E>, answers: seq<Option<E>>)
    requires from + 1 + |answers| <= |ops|
    requires AnswersAt(comp, hash, ops, from, a) && AnswersFrom(comp, hash, ops, from + 1, answers)
    ensures AnswersFrom(comp, hash, ops, from, [a] + answers)
  {
    forall k | 0 <= k < |answers| + 1 ensures AnswersAt(comp, hash, ops, from + k, ([a] + answers)[k]) {
      if k > 0 {
        assert AnswersAt(comp, hash, ops, from + 1 + (k - 1), answers[k - 1]);
      }
    }
  }

  lemma AfterNext<K, E>(ops: seq<Op<K, E>>, i: nat)
    requires i < |ops|
    ensures After(ops[..i + 1]) == Step(After(ops[..i]), ops[i])
  {
    assert ops[..i + 1][..i] == ops[..i];
  }

  /** The rest of a run, from operation `i` on. */
  method RunFrom<K(!new), E(!new,==)>(m: HashMap<K, E>, ops: seq<Op<K, E>>, i: nat)
    returns (aborted: bool, answers: seq<Option<E>>, ghost at: nat)
    requires m.Valid() && i <= |ops| && m.contents == After(ops[..i])
    requires DropsArePresent(m.entryComp, m.entryHash, ops)
    modifies m, m.buckets
    ensures at == i + |answers| <= |ops| && (!aborted ==> at == |ops|)
    ensures aborted ==> AbortsAt(m.entryHash, ops, at)
    ensures AnswersFrom(m.entryComp, m.entryHash, ops, i, answers)
    decreases |ops| - i
  {
    if i == |ops| {
      return false, [], i;
    }
    assert DropIsPresent(m.entryComp, m.entryHash, ops, i);
    AfterNext(ops, i);
    var a;
    aborted, a := Apply(m, ops[i]);
    if aborted {
      return true, [], i;
    }
    aborted, answers, at := RunFrom(m, ops, i + 1);
    AnswersCons(m.entryComp, m.entryHash, ops, i, a, answers);
    answers := [a] + answers;
  }

  /**
  Any run of insertions, removals and lookups on a new map: every lookup is answered from
  exactly the entries inserted and not yet removed. A run goes to its end, or to an insertion
  for which a table with just those entries has no room and cannot grow.
  */
  method Run<K(!new), E(!new,==)>(comp: (K, E) -> bool, hash: E -> Word, ops: seq<Op<K, E>>)
    returns (aborted: bool, answers: seq<Option<E>>)
    requires DropsArePresent(comp, hash, ops)
    ensures |answers| <= |ops| && (!aborted ==> |answers| == |ops|)
    ensures aborted ==> AbortsAt(hash, ops, |answers|)
    ensures AnswersFrom(comp, hash, ops, 0, answers)
  {
    var m := new HashMap<K, E>(comp, hash);
    ghost var at;
    aborted, answers, at := RunFrom(m, ops, 0);
  }

  /**
  With at most one entry per key, and hashcodes that follow the keys, a lookup answers with
  the entry of that key exactly when there is one.
  */
  lemma AnswerIsTheEntry<K, E(!new)>(m: multiset<E>, comp: (K, E) -> bool, hash: E -> Word,
                                     key: K, hashcode: Word, a: Option<E>)
    requires Answers(m, comp, hash, key, hashcode, a)
    requires forall e :: comp(key, e) ==> hash(e) == hashcode
    requires forall e, e' :: e in m && e' in m && comp(key, e) && comp(key, e') ==> e == e'
    ensures forall e :: (e in m && comp(key, e)) <==> a == Some(e)
  {
  }
}
