/**
A family of indexes of exponent 9 and of renames on them, of which some go wrong: few enough
entries that the removal of one makes the table shrink, each of them with a home of its own.
*/
module StaleIds {
  import opened Basics
  import opened Words
  import opened Hopscotch
  import opened HashMaps
  import opened BookmarkIndex
  import opened NameIndexes

  // ---- hashcodes --------------------------------------------------------

  /** A hashcode whose top 8 bits are `k`, and the others 0. */
  function WordAt(k: nat): (w: Word)
  {
    seq(WORD_SIZE - 8, _ => false) + Bits(k, 8)
  }

  lemma PowersOfTwo()
    ensures Pow2(8) == 256 && Pow2(9) == 512
  {
    assert Pow2(4) == 16;
  }

  lemma WordAtHomes(k: nat)
    requires k < 256
    ensures HashToIdx(WordAt(k), 8) == k && HashToIdx(WordAt(k), 9) == 2 * k
  {
    var w := WordAt(k);
    PowersOfTwo();
    HashToIdxTop(w, 8);
    HashToIdxTop(w, 9);
    ValueOfBits(k, 8);
    assert w[WORD_SIZE - 8..] == Bits(k, 8);
    var bits := w[WORD_SIZE - 9..];
    assert !bits[0] && bits[1..] == Bits(k, 8);
  }

  /** A bucket word with hop 0 or no hop, and fragment 0. */
  function HopWord(hop: bool): (w: Word)
    ensures w[0] == hop && forall i :: 0 < i < WORD_SIZE ==> !w[i]
  {
    seq(WORD_SIZE, i => i == 0 && hop)
  }

  /** The fragment of such a hashcode is 0. */
  lemma WordAtFragment(k: nat)
    ensures SameFragment(HopWord(true), WordAt(k), 9)
  {
    var f := Fragment(HopWord(true), 9);
    forall i | 0 <= i < WORD_SIZE ensures f[i] == ShiftLeft(WordAt(k), 9)[i] {
    }
  }

  /** Folders below 256 have different hashcodes. */
  function HashOf(key: Key): (w: Word)
  {
    WordAt(key.0 % 256)
  }

  function HashEntry(e: NameEntry): (w: Word)
  {
    HashOf(KeyOf(e))
  }

  lemma HomeOfEntry(e: NameEntry)
    requires e.parent < 256
    ensures Home(HashEntry, 8, e) == e.parent && Home(HashEntry, 9, e) == 2 * e.parent
  {
    assert e.parent % 256 == e.parent;
    WordAtHomes(e.parent);
  }

  // ---- the entries ------------------------------------------------------

  /** The bookmark `b` of folder `k`. */
  function EntryAt(k: nat): (e: NameEntry)
  {
    NameEntry(100 + k, k, "b")
  }

  predicate IsEntry(n: nat, e: NameEntry)
  {
    e.parent < n && e == EntryAt(e.parent)
  }

  /** The bookmarks `b` of the first `n` folders. */
  function Entries(n: nat): (s: set<NameEntry>)
    ensures forall e :: e in s <==> IsEntry(n, e)
    ensures |s| == n
  {
    if n == 0 then {} else Entries(n - 1) + {EntryAt(n - 1)}
  }

  function Names(n: nat): (m: map<Key, Id>)
    ensures forall k :: k in m <==> k.0 < n && k.1 == "b"
    ensures forall k :: k in m ==> m[k] == 100 + k.0
  {
    if n == 0 then map[] else Names(n - 1)[(n - 1, "b") := 100 + n - 1]
  }

  /** A tree whose lookup by name is just those entries. */
  function Lookups(n: nat): (t: Tree)
  {
    Tree(map[], map[], Names(n), map[], 0)
  }

  lemma LookupsAreEntries(n: nat)
    ensures Indexes(Lookups(n), multiset(Entries(n)))
  {
    forall e ensures multiset(Entries(n))[e] == if Has(Lookups(n), e) then 1 else 0 {
      assert e in Entries(n) <==> IsEntry(n, e);
    }
  }

  // ---- the table --------------------------------------------------------

  /** Every entry at its home, which is even, and named there by hop 0. */
  function BucketAt(n: nat, s: nat): (b: Bucket<NameEntry>)
  {
    if s % 2 == 0 && s / 2 < n then Bucket(HopWord(true), Some(EntryAt(s / 2))) else Bucket(HopWord(false), None)
  }

  ghost predicate IsTable(n: nat, t: Table<NameEntry>)
  {
    |t| == 520 && forall s :: 0 <= s < |t| ==> t[s] == BucketAt(n, s)
  }

  lemma TableInOrder(n: nat, t: Table<NameEntry>)
    requires n <= 256 && IsTable(n, t)
    ensures Inv(t, 9, HashEntry)
  {
    PowersOfTwo();
    forall i, j | 0 <= i < |t| && 0 <= j < 9 && t[i].bits[j] ensures Hopscotch.Named(t, 9, HashEntry, i, j) {
      HomeOfEntry(EntryAt(i / 2));
    }
    forall s | 0 <= s < |t| && t[s].entry.Some? ensures WellPlaced(t, 9, HashEntry, s) {
      HomeOfEntry(EntryAt(s / 2));
      WordAtFragment(s / 2);
    }
  }

  lemma {:induction false} TableCount(n: nat, t: Table<NameEntry>, i: nat, e: NameEntry)
    requires IsTable(n, t) && i <= |t|
    ensures Count(t[..i], e) == if IsEntry(n, e) && 2 * e.parent < i then 1 else 0
  {
    if i > 0 {
      assert t[..i][..i - 1] == t[..i - 1];
      TableCount(n, t, i - 1, e);
      assert t[i - 1] == BucketAt(n, i - 1);
    }
  }

  lemma TableHolds(n: nat, t: Table<NameEntry>)
    requires n <= 256 && IsTable(n, t)
    ensures Represents(multiset(Entries(n)), t)
  {
    forall e ensures multiset(Entries(n))[e] == Count(t, e) {
      TableCount(n, t, |t|, e);
      assert t[..|t|] == t;
    }
  }

  method NewIndex(n: nat) returns (index: NameIndex)
    requires n <= 256
    ensures fresh(index) && fresh(index.buckets) && index.Valid() && ByKey(index, HashOf)
    ensures index.entryHash == HashEntry && index.exp == 9 && index.contents == multiset(Entries(n))
    ensures IsTable(n, index.buckets[..])
  {
    index := new HashMap<Key, NameEntry>((k, e) => k == KeyOf(e), HashEntry);
    var table := new Bucket<NameEntry>[520](s requires 0 <= s => BucketAt(n, s));
    TableInOrder(n, table[..]);
    TableHolds(n, table[..]);
    index.buckets, index.exp, index.numUsed, index.contents := table, 9, n, multiset(Entries(n));
  }

  // ---- the rename -------------------------------------------------------

  /** The entry that the bookmark of folder `k` gets in the last folder. */
  function MovedEntry(n: nat, k: nat): (e: NameEntry)
    requires 0 < n
  {
    NameEntry(100 + k, n - 1, "b")
  }

  /** The entries afterwards. */
  ghost function EntriesAfter(n: nat, k: nat): (m: multiset<NameEntry>)
    requires 0 < n
  {
    multiset(Entries(n)) - multiset{EntryAt(n - 1)} - multiset{EntryAt(k)} + multiset{MovedEntry(n, k)}
  }

  lemma EntriesAfterAre(n: nat, k: nat, e: NameEntry)
    requires k < n - 1
    ensures EntriesAfter(n, k)[e] == if e == MovedEntry(n, k) || (IsEntry(n - 1, e) && e != EntryAt(k)) then 1 else 0
  {
    assert e in Entries(n) <==> IsEntry(n, e);
  }

  /** Each of them has a home of its own in the smaller table too. */
  lemma HomesAfter(n: nat, k: nat)
    requires k < n - 1 < 256
    ensures OwnHomes(EntriesAfter(n, k), 8, HashEntry)
  {
    var m := EntriesAfter(n, k);
    forall e ensures m[e] <= 1 && (e in m ==> Home(HashEntry, 8, e) == e.parent < n) {
      EntriesAfterAre(n, k, e);
      if e in m {
        HomeOfEntry(e);
      }
    }
    forall a, b | a in m && b in m && a.parent == b.parent ensures a == b {
      EntriesAfterAre(n, k, a);
      EntriesAfterAre(n, k, b);
    }
  }

  /** Where the entries stand in a table without gaps. */
  lemma StandsInFolder(n: nat, k: nat, t: Table<NameEntry>, p: nat)
    requires k < n - 1 < 256 && Represents(EntriesAfter(n, k), t)
    requires Inv(t, 8, HashEntry) && Packed(t, 8, HashEntry)
    requires p < |t| && t[p].entry.Some?
    ensures p == t[p].entry.value.parent < n
  {
    var e := t[p].entry.value;
    HomesAfter(n, k);
    LiveIff(t, e);
    assert EntriesAfter(n, k)[e] == Count(t, e);
    EntriesAfterAre(n, k, e);
    HomeOfEntry(e);
    StandsAtHome(t, EntriesAfter(n, k), 8, HashEntry, p);
  }

  /** The moved entry stands in slot `n - 1`, and the slot after it is free. */
  lemma MovedStands(n: nat, k: nat, t: Table<NameEntry>)
    requires k < n - 1 < 256 && Represents(EntriesAfter(n, k), t)
    requires Inv(t, 8, HashEntry) && Packed(t, 8, HashEntry)
    ensures n < |t| && t[n - 1].entry == Some(MovedEntry(n, k)) && t[n].entry.None?
  {
    var e := MovedEntry(n, k);
    EntriesAfterAre(n, k, e);
    assert EntriesAfter(n, k)[e] == Count(t, e);
    LiveIff(t, e);
    var p :| 0 <= p < |t| && t[p].entry == Some(e);
    StandsInFolder(n, k, t, p);
    PowersOfTwo();
    if t[n].entry.Some? {
      StandsInFolder(n, k, t, n);
    }
  }

  lemma FreeAfter(t: Table<NameEntry>, i: nat, home: nat)
    requires i < |t| && home + 1 < |t| && t[home].entry.Some? && t[home + 1].entry.None?
    ensures FirstFree(Removed(t, i, 0), home, if i == home then home else home + 1)
  {
  }

  /** So there is a free slot for it, whatever slot was cleared. */
  lemma MovedGoesIn(n: nat, k: nat, t: Table<NameEntry>, i: nat) returns (s: nat)
    requires k < n - 1 < 256 && Represents(EntriesAfter(n, k), t)
    requires Inv(t, 8, HashEntry) && Packed(t, 8, HashEntry) && i < |t|
    ensures GoesTo(Removed(t, i, 0), 8, HashEntry, MovedEntry(n, k), s)
  {
    MovedStands(n, k, t);
    HomeOfEntry(MovedEntry(n, k));
    FreeAfter(t, i, n - 1);
    s := if i == n - 1 then n - 1 else n;
  }

  /** The first removal shrinks the table, and the id leads to slot `2 * k` of the smaller one. */
  lemma Shrinks(n: nat, k: nat, index: NameIndex, was: Table<NameEntry>, outside: bool, mid: Table<NameEntry>, midExp: nat, hop: nat, healed: bool)
    requires k < n - 1 <= 64 && IsTable(n, was) && index.entryHash == HashEntry
    requires Removals(index, HashOf, 9, n, was, multiset(Entries(n)), EntryAt(k), EntryAt(n - 1), MovedEntry(n, k), outside, mid, midExp, hop, healed)
    ensures midExp == 8 && !healed && !outside && hop == 0 && HashToIdx(HashOf(KeyOf(EntryAt(k))), 9) == 2 * k < |mid|
    ensures Represents(EntriesAfter(n, k), mid) && Inv(mid, 8, HashEntry) && Packed(mid, 8, HashEntry)
  {
    PowersOfTwo();
    HomesAfter(n, k);
    HomeOfEntry(EntryAt(k));
    OwnHomesAreCopied(mid, EntriesAfter(n, k), 8, HashEntry);
  }

  /**
  The bookmark of folder `k` replaces that of the last folder, which shrinks the table. The id of
  the moved entry leads to slot `2 * k`, but the entry now stands in slot `n - 1`.
  */
  method RenameToLast(n: nat, k: nat) returns (index: NameIndex, outside: bool, aborted: bool)
    requires k < n - 1 <= 64
    ensures !outside && !aborted && (index.Valid() <==> 2 * k == n - 1)
  {
    index := NewIndex(n);
    ghost var was := index.buckets[..];
    LookupsAreEntries(n);
    ghost var mid, midExp, hop, healed;
    outside, aborted, mid, midExp, hop, healed := UpdateIndex(index, HashOf, Lookups(n), EntryAt(k), EntryAt(n - 1), MovedEntry(n, k));
    Shrinks(n, k, index, was, outside, mid, midExp, hop, healed);
    MovedStands(n, k, mid);
    if mid[2 * k].entry.Some? {
      StandsInFolder(n, k, mid, 2 * k);
    }
    ghost var s := MovedGoesIn(n, k, mid, 2 * k);
  }
}
