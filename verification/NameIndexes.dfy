/**
The lookup by folder and name of the Chromium backend, as the hash map that it is. A rename that
replaces a node looks both nodes up first, and removes the second by an id that it got before it
removed the first.
*/
module NameIndexes {
  import opened Basics
  import opened Words
  import opened Hopscotch
  import opened HashMaps
  import opened BookmarkIndex
  import opened BookmarkReplace

  type Key = (Id, string)

  /** An entry of the index: its key is read from the entry whenever a hashcode is needed. */
  datatype NameEntry = NameEntry(id: Id, parent: Id, name: string)

  type NameIndex = HashMap<Key, NameEntry>

  function KeyOf(e: NameEntry): (k: Key)
  {
    (e.parent, e.name)
  }

  ghost predicate Has(t: Tree, e: NameEntry)
  {
    KeyOf(e) in t.assoc && t.assoc[KeyOf(e)] == e.id
  }

  /** The entries `m` are those of the lookup by name of `t`, each once. */
  ghost predicate Indexes(t: Tree, m: multiset<NameEntry>)
  {
    forall e :: m[e] == if Has(t, e) then 1 else 0
  }

  /** Entries are compared by their keys, and their hashcodes are those of their keys. */
  ghost predicate ByKey(index: NameIndex, hashOf: Key -> Word)
  {
    && (forall k, e :: index.entryComp(k, e) <==> k == KeyOf(e))
    && (forall e :: index.entryHash(e) == hashOf(KeyOf(e)))
  }

  /** Only one entry of the index has a key. */
  lemma OneEntry(t: Tree, m: multiset<NameEntry>, e: NameEntry, e': NameEntry)
    requires Indexes(t, m) && e in m && e' in m && KeyOf(e) == KeyOf(e')
    ensures e == e'
  {
    assert Has(t, e) && Has(t, e');
  }

  /** `lookup_assoc` of a key that is there: its entry, and the id of the entry. */
  method LookUp(index: NameIndex, hashOf: Key -> Word, ghost t: Tree, e: NameEntry) returns (id: nat)
    requires index.Valid() && ByKey(index, hashOf) && Indexes(t, index.contents) && Has(t, e)
    ensures e in index.contents && index.Names(id, e)
    ensures id / 64 == HashToIdx(hashOf(KeyOf(e)), index.exp)
  {
    var found;
    found, id := index.Search(KeyOf(e), hashOf(KeyOf(e)));
    assert index.contents[e] == 1;
    assert index.entryHash(e) == hashOf(KeyOf(e)) && index.entryComp(KeyOf(e), e);
    OneEntry(t, index.contents, e, found.value);
    NamedFromHome(index.buckets[..], index.exp, index.entryHash, id / 64, id % 64, e);
  }

  /** `lookup_assoc` of any key: while tree and index agree, the answer is that of the tree. */
  method LookUpKey(index: NameIndex, hashOf: Key -> Word, ghost t: Tree, key: Key) returns (r: Option<Id>)
    requires index.Valid() && ByKey(index, hashOf) && Indexes(t, index.contents)
    ensures r == if key in t.assoc then Some(t.assoc[key]) else None
  {
    var found, id := index.Search(key, hashOf(key));
    if key in t.assoc {
      var e := NameEntry(t.assoc[key], key.0, key.1);
      assert index.contents[e] == 1 && index.entryHash(e) == hashOf(key) && index.entryComp(key, e);
    }
    if found.None? {
      return None;
    }
    assert Has(t, found.value);
    return Some(found.value.id);
  }

  /** The entry that node `x` has in the index. */
  function EntryOf(t: Tree, x: Id): (e: NameEntry)
    requires x in t.ids && t.ids[x].name.Some?
  {
    NameEntry(x, t.ids[x].parent, t.ids[x].name.value)
  }

  lemma BothAreThere(t: Tree, x: Id, y: Id, to: Id, name: string)
    requires TreeOk(t) && CanReplace(t, x, y, to, name)
    ensures HasPlace(t, x) && y in t.nodes[to].kids.value
    ensures Has(t, EntryOf(t, x)) && Has(t, NameEntry(y, to, name)) && KeyOf(EntryOf(t, x)) != (to, name)
  {
    Places(t, x, y, to, name);
    assert Findable(t, x);
  }

  /** What the index has to hold after a replacing rename. */
  lemma ReplacedEntries(t: Tree, m: multiset<NameEntry>, x: Id, y: Id, to: Id, name: string)
    requires TreeOk(t) && CanReplace(t, x, y, to, name) && Indexes(t, m)
    ensures HasPlace(t, x) && y in t.nodes[to].kids.value
    ensures Indexes(Replaced(t, x, y, to, name),
                    m - multiset{NameEntry(y, to, name)} - multiset{EntryOf(t, x)} + multiset{NameEntry(x, to, name)})
  {
    BothAreThere(t, x, y, to, name);
    var a, b, c := NameEntry(y, to, name), EntryOf(t, x), NameEntry(x, to, name);
    var r, m' := Replaced(t, x, y, to, name), m - multiset{a} - multiset{b} + multiset{c};
    forall e ensures m'[e] == if Has(r, e) then 1 else 0 {
      assert m[e] == if Has(t, e) then 1 else 0;
      assert m[c] == if Has(t, c) then 1 else 0;
    }
  }

  /** The old entry and the new one of a node that replaces another are not the same, and the new one is not there yet. */
  lemma NewEntryIsNew(t: Tree, m: multiset<NameEntry>, x: Id, y: Id, to: Id, name: string)
    requires TreeOk(t) && CanReplace(t, x, y, to, name) && Indexes(t, m)
    ensures NameEntry(x, to, name) !in m
  {
    assert m[NameEntry(x, to, name)] == if Has(t, NameEntry(x, to, name)) then 1 else 0;
  }

  /**
  The id of the moved entry, packed from its home index under the exponent `exp` and `hop`, does
  its work in the table `mid` of exponent `midExp`: the table did not shrink, or the id leads back
  to the entry.
  */
  ghost predicate IdStaysGood(mid: Table<NameEntry>, midExp: nat, exp: nat, hash: Word, hop: nat, x': NameEntry, healed: bool)
  {
    midExp == exp || (exp <= WORD_SIZE && LeadsBack(mid, midExp, HashToIdx(hash, exp), hop, x', healed))
  }

  /**
  A replacing rename on tree and index. The table that the second removal finds is `mid`, of
  exponent `midExp`. Unless the removal writes out of the table or the insertion aborts, tree and
  index agree afterwards if and only if the folder changes and the id of the moved entry stays
  good; and it does unless the first removal shrinks the table.
  */
  method ReplaceIndexed(index: NameIndex, hashOf: Key -> Word, t: Tree, x: Id, y: Id, to: Id, name: string)
    returns (r: Tree, outside: bool, aborted: bool, ghost mid: Table<NameEntry>, ghost midExp: nat, ghost hop: nat, ghost healed: bool)
    requires index.Valid() && ByKey(index, hashOf) && Indexes(t, index.contents)
    requires TreeOk(t) && CanReplace(t, x, y, to, name)
    modifies index, index.buckets
    ensures HasPlace(t, x) && y in t.nodes[to].kids.value && r == Replaced(t, x, y, to, name)
    ensures !outside && !aborted ==>
      (TreeOk(r) && index.Valid() && Indexes(r, index.contents) <==>
       t.ids[x].parent != to
       && IdStaysGood(mid, midExp, old(index.exp), hashOf(KeyOf(EntryOf(t, x))), hop, NameEntry(x, to, name), healed))
    ensures Removals(index, hashOf, old(index.exp), old(index.numUsed), old(index.buckets[..]), old(index.contents),
                     EntryOf(t, x), NameEntry(y, to, name), NameEntry(x, to, name), outside, mid, midExp, hop, healed)
    ensures aborted ==> index.Refuses(NameEntry(x, to, name))
  {
    BothAreThere(t, x, y, to, name);
    ReplacedOkIff(t, x, y, to, name, None);
    ReplacedEntries(t, index.contents, x, y, to, name);
    NewEntryIsNew(t, index.contents, x, y, to, name);
    r := Replaced(t, x, y, to, name);
    outside, aborted, mid, midExp, hop, healed :=
      UpdateIndex(index, hashOf, t, EntryOf(t, x), NameEntry(y, to, name), NameEntry(x, to, name));
  }

  /**
  What is known of the table between the two removals: which entries it holds; that it shrank
  only if it was sparse, and then has no gaps; that it did shrink if it was sparse and the entries
  could be copied; when the second removal writes out of it; and whether that shrinks it again.
  */
  ghost predicate Removals(index: NameIndex, hashOf: Key -> Word, exp: nat, used: nat, was: Table<NameEntry>, m: multiset<NameEntry>,
                           x: NameEntry, y: NameEntry, x': NameEntry,
                           outside: bool, mid: Table<NameEntry>, midExp: nat, hop: nat, healed: bool)
  {
    && 0 < used && exp <= WORD_SIZE
    && var home := HashToIdx(hashOf(KeyOf(x)), exp);
    && NamesIn(was, exp, home, hop, x) && |mid| == BucketCount(midExp)
    && Represents(m - multiset{y} - multiset{x} + multiset{x'}, mid)
    && (midExp != exp ==> exp > EXP_MIN && used - 1 < |was| / 8 && midExp == exp - 1 && Inv(mid, midExp, index.entryHash) && Packed(mid, midExp, index.entryHash))
    && (midExp == exp ==> index.CannotShrink(mid, midExp, used - 1))
    && (outside <==> midExp != exp && home + hop >= |mid|)
    && (healed ==> midExp != exp && midExp > EXP_MIN && used - 2 < |mid| / 8)
    && (!outside && midExp != exp && !healed ==> index.CannotShrink(Removed(mid, home, hop), midExp, used - 2))
  }

  /** The calls of `bookmark_rename` on the index: two lookups, two removals and an insertion. */
  method UpdateIndex(index: NameIndex, hashOf: Key -> Word, ghost t: Tree, x: NameEntry, y: NameEntry, x': NameEntry)
    returns (outside: bool, aborted: bool, ghost mid: Table<NameEntry>, ghost midExp: nat, ghost hop: nat, ghost healed: bool)
    requires index.Valid() && ByKey(index, hashOf) && Indexes(t, index.contents)
    requires Has(t, x) && Has(t, y) && x != y && x' !in index.contents
    modifies index, index.buckets
    ensures !outside && !aborted ==> index.contents == old(index.contents) - multiset{y} - multiset{x} + multiset{x'}
    ensures !outside && !aborted ==>
      (index.Valid() <==> IdStaysGood(mid, midExp, old(index.exp), hashOf(KeyOf(x)), hop, x', healed))
    ensures Removals(index, hashOf, old(index.exp), old(index.numUsed), old(index.buckets[..]), old(index.contents),
                     x, y, x', outside, mid, midExp, hop, healed)
    ensures aborted ==> index.Refuses(x')
    ensures aborted ==> index.RefusedAfter(mid, midExp, HashToIdx(hashOf(KeyOf(x)), old(index.exp)), hop, x', midExp != old(index.exp) && !healed)
  {
    var xId := LookUp(index, hashOf, t, x);
    var yId := LookUp(index, hashOf, t, y);
    hop := xId % 64;
    outside, aborted, mid, midExp, healed := index.ReplaceByIds(y, yId, x, xId, x');
  }

  /** After a shrink the id leads back only to the slot where the new key belongs: within reach of its home. */
  lemma LeadsBackNearHome(mid: Table<NameEntry>, midExp: nat, hash: NameEntry -> Word, home: nat, hop: nat, x': NameEntry, healed: bool)
    requires Inv(mid, midExp, hash) && LeadsBack(mid, midExp, home, hop, x', healed)
    ensures Home(hash, midExp, x') <= home + hop < Home(hash, midExp, x') + midExp
  {
    assert WellPlaced(mid, midExp, hash, home + hop);
  }
}
