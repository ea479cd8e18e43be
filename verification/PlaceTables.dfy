/**
The tables of the Firefox bookmark store that the backend writes, and the two invariants
its transactions keep: reference counts agree with the rows that refer to a place, and
siblings have distinct positions.
*/
module PlaceTables {
  import opened Basics

  type RowId = int
  type PlaceId = int
  type OriginId = int

  /** A row of `moz_bookmarks`: a folder has no place, a tag entry has no title. */
  datatype Row = Row(parent: RowId, position: int, title: Option<string>, fk: Option<PlaceId>)

  /** A row of `moz_places`. */
  datatype Place = Place(url: string, urlHash: int, origin: OriginId, foreignCount: int)

  /** A row of `moz_origins`. */
  datatype Origin = Origin(prefix: string, host: string)

  type Bookmarks = map<RowId, Row>
  type Places = map<PlaceId, Place>
  type Origins = map<OriginId, Origin>
  type Keywords = map<string, PlaceId>

  const INT64_MAX: int := 0x7fff_ffff_ffff_ffff

  // ---- references -------------------------------------------------------

  function RowsOf(bms: Bookmarks, p: PlaceId): (s: set<RowId>)
  {
    set b | b in bms && bms[b].fk == Some(p)
  }

  function KeywordsOf(kws: Keywords, p: PlaceId): (s: set<string>)
  {
    set k | k in kws && kws[k] == p
  }

  /** `refs` counts the bookmark rows, keyword rows and external references of every place. */
  ghost predicate Counts(refs: multiset<PlaceId>, bms: Bookmarks, kws: Keywords, ext: multiset<PlaceId>)
  {
    forall p :: CountsAt(refs, bms, kws, ext, p)
  }

  ghost predicate CountsAt(refs: multiset<PlaceId>, bms: Bookmarks, kws: Keywords, ext: multiset<PlaceId>, p: PlaceId)
  {
    refs[p] == |RowsOf(bms, p)| + |KeywordsOf(kws, p)| + ext[p]
  }

  /**
  The place table answers for `refs`: every count is right, nothing refers to a missing
  place, a URL has one place, and the origin of a place exists.
  */
  ghost predicate Answers(places: Places, origins: Origins, refs: multiset<PlaceId>, urlHash: string -> int)
  {
    && (forall p :: p in places ==> places[p].foreignCount == refs[p])
    && (forall p :: p in refs ==> p in places)
    && (forall p, q :: p in places && q in places && places[p].url == places[q].url ==> p == q)
    && (forall p :: p in places ==> places[p].urlHash == urlHash(places[p].url))
    && (forall p :: p in places ==> places[p].origin in origins)
  }

  /**
  What the two invariants say of the tables: each count is the number of references, and no
  bookmark or keyword names a missing place.
  */
  lemma ReferencesConserved(places: Places, origins: Origins, refs: multiset<PlaceId>, urlHash: string -> int,
                            bms: Bookmarks, kws: Keywords, ext: multiset<PlaceId>)
    requires Answers(places, origins, refs, urlHash) && Counts(refs, bms, kws, ext)
    ensures forall p :: p in places ==> places[p].foreignCount == |RowsOf(bms, p)| + |KeywordsOf(kws, p)| + ext[p]
    ensures forall b :: b in bms && bms[b].fk.Some? ==> bms[b].fk.value in places
    ensures forall k :: k in kws ==> kws[k] in places
  {
    forall p | p in places ensures places[p].foreignCount == |RowsOf(bms, p)| + |KeywordsOf(kws, p)| + ext[p] {
      assert CountsAt(refs, bms, kws, ext, p);
    }
    forall b | b in bms && bms[b].fk.Some? ensures bms[b].fk.value in places {
      PlaceOfRow(places, origins, refs, urlHash, bms, kws, ext, b);
    }
    forall k | k in kws ensures kws[k] in places {
      assert k in KeywordsOf(kws, kws[k]);
      assert CountsAt(refs, bms, kws, ext, kws[k]);
    }
  }

  /** The place of a bookmark exists. */
  lemma PlaceOfRow(places: Places, origins: Origins, refs: multiset<PlaceId>, urlHash: string -> int,
                   bms: Bookmarks, kws: Keywords, ext: multiset<PlaceId>, b: RowId)
    requires Answers(places, origins, refs, urlHash) && Counts(refs, bms, kws, ext)
    requires b in bms && bms[b].fk.Some?
    ensures bms[b].fk.value in places
  {
    RowIsCounted(refs, bms, kws, ext, b);
    var p := bms[b].fk.value;
    assert refs[p] > 0;
  }

  /** The place table with the count of `id` changed by `d`. */
  function Bumped(places: Places, id: PlaceId, d: int): (r: Places)
    requires id in places
  {
    places[id := places[id].(foreignCount := places[id].foreignCount + d)]
  }

  /** Only the row of `id` may differ: in its count, or by being gone. */
  ghost predicate SameOthers(before: Places, after: Places, id: PlaceId)
  {
    && (id in after ==> id in before && after[id] == before[id].(foreignCount := after[id].foreignCount))
    && forall q :: q != id ==>
         (q in after <==> q in before) && (q in after ==> after[q] == before[q])
  }

  /** A reference went from `from` to `to`: no other row differs, and these only in their counts if they are still there. */
  ghost predicate SameButCounts(before: Places, after: Places, from: PlaceId, to: PlaceId)
  {
    && (forall q :: q in before && q in after ==> after[q] == before[q].(foreignCount := after[q].foreignCount))
    && forall q :: q != from && q != to ==>
         (q in after <==> q in before) && (q in after ==> after[q] == before[q])
  }

  /** The id `o` of an origin was found, or made when there was none. */
  ghost predicate OriginGot(was: Origins, now: Origins, origin: Origin, o: OriginId)
  {
    && now == was[o := origin]
    && (if exists p :: p in was && was[p] == origin then o in was && was[o] == origin else o !in was)
  }

  /** Origin `o` is gone: the place `id` that had it is, and no other has it. */
  ghost predicate OriginGoes(before: Places, after: Places, id: PlaceId, o: OriginId)
  {
    && id in before && before[id].origin == o && id !in after
    && forall q :: q in after ==> after[q].origin != o
  }

  /** What becomes of the origins when `id` loses references: its own goes with the last place that has it. */
  ghost predicate OriginsFollow(before: Places, was: Origins, after: Places, now: Origins, id: PlaceId)
  {
    id in before ==>
      var o := before[id].origin;
      now == if OriginGoes(before, after, id, o) then was - {o} else was
  }

  /** The place is there exactly when something refers to it. */
  ghost predicate ThereIfUsed(places: Places, bms: Bookmarks, kws: Keywords, ext: multiset<PlaceId>, p: PlaceId)
  {
    p in places <==> |RowsOf(bms, p)| + |KeywordsOf(kws, p)| + ext[p] > 0
  }

  lemma CountedIsUsed(places: Places, refs: multiset<PlaceId>, bms: Bookmarks, kws: Keywords, ext: multiset<PlaceId>, p: PlaceId)
    requires Counts(refs, bms, kws, ext) && (p in places <==> refs[p] > 0)
    ensures ThereIfUsed(places, bms, kws, ext, p)
  {
    assert CountsAt(refs, bms, kws, ext, p);
  }

  /** `refs` without `n` of the references to `id`. */
  ghost function Fewer(refs: multiset<PlaceId>, id: PlaceId, n: nat): (r: multiset<PlaceId>)
    requires n <= refs[id]
    ensures forall p :: r[p] == if p == id then refs[p] - n else refs[p]
  {
    assert refs[id] - n >= 0;
    refs[id := refs[id] - n]
  }

  lemma AnswersBump(places: Places, origins: Origins, refs: multiset<PlaceId>, urlHash: string -> int, id: PlaceId)
    requires Answers(places, origins, refs, urlHash)
    requires id in places
    ensures Answers(Bumped(places, id, 1), origins, refs + multiset{id}, urlHash)
  {
  }

  lemma AnswersInsert(places: Places, was: Origins, origins: Origins, refs: multiset<PlaceId>, urlHash: string -> int,
                      id: PlaceId, url: string, origin: Origin, o: OriginId)
    requires Answers(places, was, refs, urlHash) && OriginGot(was, origins, origin, o)
    requires id !in places
    requires forall p :: p in places ==> places[p].urlHash != urlHash(url) || places[p].url != url
    ensures Answers(places[id := Place(url, urlHash(url), o, 1)], origins, refs + multiset{id}, urlHash)
  {
    assert id !in refs;
  }

  /** Dropping `n` references to `id`: the row goes exactly when none is left. */
  lemma AnswersDrop(places: Places, origins: Origins, refs: multiset<PlaceId>, urlHash: string -> int,
                    id: PlaceId, n: nat)
    requires Answers(places, origins, refs, urlHash)
    requires 0 < n <= refs[id]
    ensures id in places
    ensures var refs' := Fewer(refs, id, n);
            && Bumped(places, id, -(n as int))[id].foreignCount == refs'[id]
            && (refs'[id] > 0 ==> Answers(Bumped(places, id, -(n as int)), origins, refs', urlHash))
            && (refs'[id] == 0 ==> Answers(Bumped(places, id, -(n as int)) - {id}, origins, refs', urlHash))
  {
    assert id in refs;
  }

  function Ref(fk: Option<PlaceId>): (m: multiset<PlaceId>)
  {
    if fk.Some? then multiset{fk.value} else multiset{}
  }

  lemma RowsInsert(bms: Bookmarks, b: RowId, row: Row, p: PlaceId)
    requires b !in bms
    ensures |RowsOf(bms[b := row], p)| == |RowsOf(bms, p)| + Ref(row.fk)[p]
  {
    var rows, now := RowsOf(bms, p), RowsOf(bms[b := row], p);
    if row.fk == Some(p) {
      assert now == rows + {b};
    } else {
      assert now == rows;
    }
  }

  lemma RowsDelete(bms: Bookmarks, b: RowId, p: PlaceId)
    requires b in bms
    ensures |RowsOf(bms, p)| == |RowsOf(bms - {b}, p)| + Ref(bms[b].fk)[p]
  {
    assert RowsOf(bms, p) == RowsOf(bms - {b}, p) + if bms[b].fk == Some(p) then {b} else {};
  }

  lemma KeywordsInsert(kws: Keywords, k: string, q: PlaceId, p: PlaceId)
    requires k !in kws
    ensures |KeywordsOf(kws[k := q], p)| == |KeywordsOf(kws, p)| + if p == q then 1 else 0
  {
    assert KeywordsOf(kws[k := q], p) == KeywordsOf(kws, p) + if p == q then {k} else {};
  }

  lemma KeywordsDelete(kws: Keywords, k: string, p: PlaceId)
    requires k in kws
    ensures |KeywordsOf(kws, p)| == |KeywordsOf(kws - {k}, p)| + if p == kws[k] then 1 else 0
  {
    assert KeywordsOf(kws, p) == KeywordsOf(kws - {k}, p) + if p == kws[k] then {k} else {};
  }

  lemma CountsInsertRow(refs: multiset<PlaceId>, bms: Bookmarks, kws: Keywords, ext: multiset<PlaceId>, b: RowId, row: Row)
    requires Counts(refs, bms, kws, ext)
    requires b !in bms
    ensures Counts(refs + Ref(row.fk), bms[b := row], kws, ext)
  {
    var refs', bms' := refs + Ref(row.fk), bms[b := row];
    forall p ensures CountsAt(refs', bms', kws, ext, p) {
      RowsInsert(bms, b, row, p);
      assert CountsAt(refs, bms, kws, ext, p);
    }
  }

  lemma CountsDeleteRow(refs: multiset<PlaceId>, bms: Bookmarks, kws: Keywords, ext: multiset<PlaceId>, b: RowId)
    requires Counts(refs, bms, kws, ext)
    requires b in bms
    ensures bms[b].fk.Some? ==> bms[b].fk.value in refs
    ensures Counts(refs - Ref(bms[b].fk), bms - {b}, kws, ext)
  {
    var refs', bms' := refs - Ref(bms[b].fk), bms - {b};
    forall p ensures CountsAt(refs', bms', kws, ext, p) {
      RowsDelete(bms, b, p);
      assert CountsAt(refs, bms, kws, ext, p);
    }
    if bms[b].fk.Some? {
      RowsDelete(bms, b, bms[b].fk.value);
      assert CountsAt(refs, bms, kws, ext, bms[b].fk.value);
    }
  }

  /** A bookmark that goes gives up one reference. */
  lemma RowGivesUp(refs: multiset<PlaceId>, bms: Bookmarks, kws: Keywords, ext: multiset<PlaceId>, b: RowId)
    requires Counts(refs, bms, kws, ext) && b in bms && bms[b].fk.Some?
    ensures var p := bms[b].fk.value;
            p in refs && Fewer(refs, p, 1) == refs - multiset{p} && Counts(refs - multiset{p}, bms - {b}, kws, ext)
  {
    CountsDeleteRow(refs, bms, kws, ext, b);
  }

  lemma CountsSameFks(refs: multiset<PlaceId>, bms: Bookmarks, bms': Bookmarks, kws: Keywords, ext: multiset<PlaceId>)
    requires Counts(refs, bms, kws, ext)
    requires forall b :: b in bms <==> b in bms'
    requires forall b :: b in bms ==> bms'[b].fk == bms[b].fk
    ensures Counts(refs, bms', kws, ext)
  {
    forall p ensures CountsAt(refs, bms', kws, ext, p) {
      forall b ensures b in RowsOf(bms', p) <==> b in RowsOf(bms, p) {
        assert b in bms <==> b in bms';
      }
      assert RowsOf(bms', p) == RowsOf(bms, p);
      assert CountsAt(refs, bms, kws, ext, p);
    }
  }

  lemma CountsMoveRow(refs: multiset<PlaceId>, bms: Bookmarks, kws: Keywords, ext: multiset<PlaceId>, b: RowId, row: Row)
    requires Counts(refs, bms, kws, ext)
    requires b in bms && row.fk == bms[b].fk
    ensures Counts(refs, bms[b := row], kws, ext)
  {
    CountsSameFks(refs, bms, bms[b := row], kws, ext);
  }

  /** A row that changes its place moves one reference. */
  lemma CountsRepoint(refs: multiset<PlaceId>, bms: Bookmarks, kws: Keywords, ext: multiset<PlaceId>, b: RowId, to: PlaceId)
    requires Counts(refs, bms, kws, ext)
    requires b in bms && bms[b].fk.Some?
    ensures bms[b].fk.value in refs
    ensures Counts(Fewer(refs + multiset{to}, bms[b].fk.value, 1), bms[b := bms[b].(fk := Some(to))], kws, ext)
  {
    var from, row := bms[b].fk.value, bms[b].(fk := Some(to));
    CountsDeleteRow(refs, bms, kws, ext, b);
    CountsInsertRow(refs - Ref(bms[b].fk), bms - {b}, kws, ext, b, row);
    assert bms[b := row] == (bms - {b})[b := row];
    assert Fewer(refs + multiset{to}, from, 1) == refs - Ref(bms[b].fk) + Ref(row.fk);
  }

  /** The place of a row is referred to. */
  lemma RowIsCounted(refs: multiset<PlaceId>, bms: Bookmarks, kws: Keywords, ext: multiset<PlaceId>, b: RowId)
    requires Counts(refs, bms, kws, ext) && b in bms && bms[b].fk.Some?
    ensures bms[b].fk.value in refs
  {
    assert b in RowsOf(bms, bms[b].fk.value);
    assert CountsAt(refs, bms, kws, ext, bms[b].fk.value);
  }

  lemma CountsInsertKeyword(refs: multiset<PlaceId>, bms: Bookmarks, kws: Keywords, ext: multiset<PlaceId>, k: string, q: PlaceId)
    requires Counts(refs, bms, kws, ext)
    requires k !in kws
    ensures Counts(refs + multiset{q}, bms, kws[k := q], ext)
  {
    var refs', kws' := refs + multiset{q}, kws[k := q];
    forall p ensures CountsAt(refs', bms, kws', ext, p) {
      KeywordsInsert(kws, k, q, p);
      assert CountsAt(refs, bms, kws, ext, p);
    }
  }

  lemma CountsDeleteKeyword(refs: multiset<PlaceId>, bms: Bookmarks, kws: Keywords, ext: multiset<PlaceId>, k: string)
    requires Counts(refs, bms, kws, ext)
    requires k in kws
    ensures kws[k] in refs
    ensures Counts(refs - multiset{kws[k]}, bms, kws - {k}, ext)
  {
    var refs', kws' := refs - multiset{kws[k]}, kws - {k};
    forall p ensures CountsAt(refs', bms, kws', ext, p) {
      KeywordsDelete(kws, k, p);
      assert CountsAt(refs, bms, kws, ext, p);
    }
    KeywordsDelete(kws, k, kws[k]);
    assert CountsAt(refs, bms, kws, ext, kws[k]);
  }

  /** The rows left when all rows of a place are deleted. */
  function WithoutRows(bms: Bookmarks, p: PlaceId): (r: Bookmarks)
  {
    bms - RowsOf(bms, p)
  }

  function WithoutKeywords(kws: Keywords, p: PlaceId): (r: Keywords)
  {
    kws - KeywordsOf(kws, p)
  }

  lemma CountsPurge(refs: multiset<PlaceId>, bms: Bookmarks, kws: Keywords, ext: multiset<PlaceId>, p: PlaceId)
    requires Counts(refs, bms, kws, ext)
    ensures |RowsOf(bms, p)| + |KeywordsOf(kws, p)| <= refs[p]
    ensures refs[p] - |RowsOf(bms, p)| - |KeywordsOf(kws, p)| == ext[p]
    ensures Counts(refs[p := ext[p]], WithoutRows(bms, p), WithoutKeywords(kws, p), ext)
  {
    var bms', kws' := WithoutRows(bms, p), WithoutKeywords(kws, p);
    assert CountsAt(refs, bms, kws, ext, p);
    var refs' := refs[p := ext[p]];
    forall q ensures CountsAt(refs', bms', kws', ext, q) {
      assert CountsAt(refs, bms, kws, ext, q);
      if q == p {
        assert RowsOf(bms', q) == {} && KeywordsOf(kws', q) == {};
      } else {
        assert RowsOf(bms', q) == RowsOf(bms, q);
        assert KeywordsOf(kws', q) == KeywordsOf(kws, q);
      }
    }
  }

  /** Nothing to purge when nothing is left. */
  lemma CountsNone(refs: multiset<PlaceId>, bms: Bookmarks, kws: Keywords, ext: multiset<PlaceId>, p: PlaceId)
    requires Counts(refs, bms, kws, ext)
    requires refs[p] == 0
    ensures !HasTitledRow(bms, p) && ext[p] == 0
    ensures WithoutRows(bms, p) == bms && WithoutKeywords(kws, p) == kws
  {
    assert CountsAt(refs, bms, kws, ext, p);
    assert RowsOf(bms, p) == {} && KeywordsOf(kws, p) == {};
    assert forall b :: b in bms && bms[b].fk == Some(p) ==> b in RowsOf(bms, p);
  }

  /** Some row of the place still has a title. */
  predicate HasTitledRow(bms: Bookmarks, p: PlaceId)
  {
    exists b :: b in bms && bms[b].fk == Some(p) && bms[b].title.Some?
  }

  // ---- positions --------------------------------------------------------

  /** Positions are non-negative 64-bit integers and distinct among siblings; holes are allowed. */
  ghost predicate Positioned(bms: Bookmarks)
  {
    && (forall b :: b in bms ==> 0 <= bms[b].position <= INT64_MAX)
    && (forall a, b :: a in bms && b in bms && a != b && bms[a].parent == bms[b].parent ==>
          bms[a].position != bms[b].position)
  }

  // ---- the largest of a set, as `max()` and rowid allocation use it ------

  predicate IsMax(s: set<int>, m: int)
  {
    m in s && forall x :: x in s ==> x <= m
  }

  lemma {:induction false} HasMax(s: set<int>, y: int)
    requires y in s
    ensures exists m :: IsMax(s, m)
  {
    var rest := s - {y};
    if z :| z in rest {
      HasMax(rest, z);
      var m :| IsMax(rest, m);
      var n := if m < y then y else m;
      forall x | x in s ensures x <= n {
        assert x == y || x in rest;
      }
      assert IsMax(s, n);
    } else {
      assert forall x :: x in s ==> x == y || x in rest;
      assert IsMax(s, y);
    }
  }

  function Max(s: set<int>): (m: int)
    requires exists y :: y in s
    ensures IsMax(s, m)
  {
    assert exists m :: IsMax(s, m) by {
      var y :| y in s;
      HasMax(s, y);
    }
    var m :| IsMax(s, m);
    m
  }

  /** The id of a new row. */
  function NextId(ids: set<int>): (id: int)
    ensures id > 0 && id !in ids
  {
    if exists y :: y in ids then
      var m := Max(ids);
      if m < 0 then 1 else m + 1
    else 1
  }

  lemma NextIdAtMost(ids: set<int>, m: int)
    requires m > 0
    ensures NextId(ids) <= m <==> forall y :: y in ids ==> y < m
  {
    if y :| y in ids {
      assert exists y :: y in ids;
    }
  }
}
