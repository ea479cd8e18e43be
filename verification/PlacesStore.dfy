/** The write transactions of src/backend_firefox.c, in title mode. */
module PlacesStore {
  import opened Basics
  import opened FileNames
  import opened PlaceTables
  import opened Siblings

  datatype Errno = EPERM | ENOENT | EEXIST | ENOTEMPTY | EISDIR | ENOTDIR | EINVAL | ESTALE | EIO | ENOSPC

  datatype Status = Ok | Err(errno: Errno)

  datatype Db = Db(bookmarks: Bookmarks, places: Places, origins: Origins, keywords: Keywords)

  // ---- queries ----------------------------------------------------------

  function PositionsIn(bms: Bookmarks, parent: RowId): (s: set<int>)
  {
    set b | b in bms && bms[b].parent == parent :: bms[b].position
  }

  /** `safeincr(max(position))`, or nothing when that would overflow. */
  function NextPosition(bms: Bookmarks, parent: RowId): (pos: Option<int>)
    requires Positioned(bms)
    ensures pos.Some? ==> 0 <= pos.value <= INT64_MAX && AfterAll(bms, parent, pos.value)
    ensures pos.Some? <==> CanAppend(bms, parent)
  {
    var s := PositionsIn(bms, parent);
    if exists y :: y in s then
      var m := Max(s);
      assert forall b :: b in bms && bms[b].parent == parent ==> bms[b].position in s;
      if m == INT64_MAX then None else Some(m + 1)
    else
      assert forall b :: b in bms && bms[b].parent == parent ==> bms[b].position in s;
      Some(0)
  }

  /** The position after every child of `parent`: one past that of the last, or 0. */
  ghost predicate AfterAll(bms: Bookmarks, parent: RowId, pos: int)
  {
    && (forall b :: b in bms && bms[b].parent == parent ==> bms[b].position < pos)
    && (pos == 0 || exists b :: b in bms && bms[b].parent == parent && bms[b].position == pos - 1)
  }

  /** The largest position is not taken, so that there is one after all. */
  predicate CanAppend(bms: Bookmarks, parent: RowId)
  {
    forall b :: b in bms && bms[b].parent == parent ==> bms[b].position < INT64_MAX
  }

  /** A row can be inserted: there is a position after all siblings, and an id after all rows. */
  predicate CanInsert(bms: Bookmarks, parent: RowId)
  {
    CanAppend(bms, parent) && forall b :: b in bms ==> b < MAX_ID
  }

  ghost predicate FreePosition(bms: Bookmarks, parent: RowId, pos: int)
  {
    forall b :: b in bms && bms[b].parent == parent ==> bms[b].position != pos
  }

  lemma PositionedInsert(bms: Bookmarks, b: RowId, row: Row)
    requires Positioned(bms)
    requires 0 <= row.position <= INT64_MAX
    requires FreePosition(bms - {b}, row.parent, row.position)
    ensures Positioned(bms[b := row])
  {
    var bms' := bms[b := row];
    forall a, c | a in bms' && c in bms' && a != c && bms'[a].parent == bms'[c].parent
      ensures bms'[a].position != bms'[c].position
    {
      assert a != b ==> a in bms - {b};
      assert c != b ==> c in bms - {b};
    }
  }

  /** Lookup by title: the sibling of least position, as `ORDER BY position LIMIT 1` picks it. */
  predicate FirstTitled(bms: Bookmarks, parent: RowId, name: string, b: RowId)
  {
    && Titled(bms, parent, name, b)
    && forall c :: c in bms && Titled(bms, parent, name, c) ==> bms[b].position <= bms[c].position
  }

  predicate Titled(bms: Bookmarks, parent: RowId, name: string, b: RowId)
  {
    b in bms && bms[b].parent == parent && bms[b].title == Some(name)
  }

  lemma FirstTitledExists(bms: Bookmarks, parent: RowId, name: string, b: RowId)
    requires Titled(bms, parent, name, b)
    ensures exists c :: FirstTitled(bms, parent, name, c)
  {
    var s := set c | c in bms && Titled(bms, parent, name, c) :: -bms[c].position;
    assert -bms[b].position in s;
    var m := Max(s);
    var c :| c in bms && Titled(bms, parent, name, c) && -bms[c].position == m;
    forall d | Titled(bms, parent, name, d) ensures bms[c].position <= bms[d].position {
      assert -bms[d].position in s;
    }
    assert FirstTitled(bms, parent, name, c);
  }

  /** Siblings have distinct positions, so only one of them is the first of its title. */
  lemma OnlyFirst(bms: Bookmarks, parent: RowId, name: string, b: RowId)
    requires Positioned(bms) && FirstTitled(bms, parent, name, b)
    ensures forall c :: FirstTitled(bms, parent, name, c) ==> c == b
  {
  }

  /** Row `b` can be deleted as what it is said to be. */
  predicate Deletable(bms: Bookmarks, b: RowId, isDir: bool)
    requires b in bms
  {
    (isDir <==> bms[b].fk.None?) && !(isDir && exists c :: c in bms && bms[c].parent == b)
  }

  /** How a deletion of row `b` as a folder or a bookmark ends. */
  function DeleteStatus(bms: Bookmarks, b: RowId, isDir: bool): (status: Status)
    requires b in bms
    ensures status == Ok <==> Deletable(bms, b, isDir)
    ensures status == Err(ENOTDIR) <==> isDir && bms[b].fk.Some?
    ensures status == Err(EISDIR) <==> !isDir && bms[b].fk.None?
    ensures status == Err(ENOTEMPTY) <==> isDir && bms[b].fk.None? && exists c :: c in bms && bms[c].parent == b
  {
    if bms[b].fk.None? != isDir then Err(if isDir then ENOTDIR else EISDIR)
    else if isDir && exists c :: c in bms && bms[c].parent == b then Err(ENOTEMPTY)
    else Ok
  }

  method Lookup(bms: Bookmarks, parent: RowId, name: string) returns (b: Option<RowId>)
    ensures b.Some? ==> FirstTitled(bms, parent, name, b.value)
    ensures b.None? ==> forall c :: !Titled(bms, parent, name, c)
  {
    if c :| c in bms && FirstTitled(bms, parent, name, c) {
      return Some(c);
    }
    forall c ensures !Titled(bms, parent, name, c) {
      if Titled(bms, parent, name, c) {
        FirstTitledExists(bms, parent, name, c);
      }
    }
    return None;
  }

  /** What deleting row `id` of `was` leaves. */
  ghost predicate Deleted(was: Db, now: Db, ext: multiset<PlaceId>, id: RowId, purge: bool)
  {
    && id in was.bookmarks
    && var fk, rest := was.bookmarks[id].fk, was.bookmarks - {id};
    && (fk.Some? ==> OriginsFollow(was.places, was.origins, now.places, now.origins, fk.value))
    && (if fk.None? then
          now == was.(bookmarks := rest)
        else if purge && !HasTitledRow(rest, fk.value) then
          && now.bookmarks == WithoutRows(rest, fk.value)
          && now.keywords == WithoutKeywords(was.keywords, fk.value)
          && (fk.value in now.places <==> ext[fk.value] > 0)
          && SameOthers(was.places, now.places, fk.value)
        else
          && now.bookmarks == rest && now.keywords == was.keywords
          && ThereIfUsed(now.places, rest, now.keywords, ext, fk.value)
          && SameOthers(was.places, now.places, fk.value))
  }

  /**
  What becomes of the places and origins when a row goes from one place to another: the first
  goes with its last reference, and its origin with the last place that has it.
  */
  ghost predicate Repointed(was: Db, now: Db, ext: multiset<PlaceId>, from: PlaceId, to: PlaceId, origin: Origin)
  {
    && ThereIfUsed(now.places, now.bookmarks, now.keywords, ext, from)
    && SameButCounts(was.places, now.places, from, to)
    && OriginsMoved(was, now, from, to, origin)
  }

  ghost predicate OriginsMoved(was: Db, now: Db, from: PlaceId, to: PlaceId, origin: Origin)
  {
    && to in now.places
    && var mid := if to in was.places then was.origins else was.origins[now.places[to].origin := origin];
    && (to in was.places || OriginGot(was.origins, mid, origin, now.places[to].origin))
    && OriginsFollow(was.places, mid, now.places, now.origins, from)
  }

  /** One more reference to the place `id` of a URL, which was there or is new, with an origin that was there or is new. */
  ghost predicate Referred(was: Db, now: Db, id: PlaceId, url: string, origin: Origin)
  {
    && id in now.places && now.places[id].url == url
    && (forall q :: q in was.places ==> q in now.places) && SameButCounts(was.places, now.places, id, id)
    && (if id in was.places then now.origins == was.origins
        else OriginGot(was.origins, now.origins, origin, now.places[id].origin))
  }

  /** The parts of what a deleted bookmark leaves. */
  lemma UrlRowDeleted(was: Db, now: Db, refs: multiset<PlaceId>, ext: multiset<PlaceId>, id: RowId, purge: bool)
    requires id in was.bookmarks && was.bookmarks[id].fk.Some? && Counts(refs, now.bookmarks, now.keywords, ext)
    requires var p, rest := was.bookmarks[id].fk.value, was.bookmarks - {id};
             && (p in now.places <==> refs[p] > 0) && SameOthers(was.places, now.places, p)
             && OriginsFollow(was.places, was.origins, now.places, now.origins, p)
             && (if purge && !HasTitledRow(rest, p) then
                   now.bookmarks == WithoutRows(rest, p) && now.keywords == WithoutKeywords(was.keywords, p) && refs[p] == ext[p]
                 else now.bookmarks == rest && now.keywords == was.keywords)
    ensures Deleted(was, now, ext, id, purge)
  {
    CountedIsUsed(now.places, refs, now.bookmarks, now.keywords, ext, was.bookmarks[id].fk.value);
  }

  /** Row `b` under its new name and parent, and otherwise the rows of `mid`. */
  ghost predicate Moved(was: Db, mid: Db, now: Db, b: RowId, parent: RowId, name: string)
  {
    && b in was.bookmarks && b in mid.bookmarks && b in now.bookmarks
    && var row := now.bookmarks[b];
    && row == was.bookmarks[b].(parent := parent, title := Some(name), position := row.position)
    && now == mid.(bookmarks := mid.bookmarks[b := row])
  }

  /** The count of a place is one less, and a count of 0 is none. */
  ghost predicate OneLess(was: Places, now: Places, id: PlaceId)
  {
    && id in was && (id in now <==> was[id].foreignCount != 1)
    && (id in now ==> now[id].foreignCount == was[id].foreignCount - 1)
  }

  lemma ReferredFirst(was: Db, now: Db, id: PlaceId, url: string, origin: Origin, o: OriginId)
    requires id !in was.places && OriginGot(was.origins, now.origins, origin, o)
    requires id in now.places && now.places == was.places[id := now.places[id]]
    requires now.places[id].url == url && now.places[id].origin == o
    ensures Referred(was, now, id, url, origin)
  {
  }

  lemma ReferredAgain(was: Db, now: Db, id: PlaceId, url: string, origin: Origin)
    requires id in was.places && was.places[id].url == url && id in now.places
    requires now == was.(places := now.places) && SameOthers(was.places, now.places, id)
    ensures Referred(was, now, id, url, origin)
  {
  }

  /** Why a row does not move: there is none, the one in its way may not or cannot be deleted, or no position is left. */
  ghost predicate MoveFails(bms: Bookmarks, oldParent: RowId, oldName: string, newParent: RowId, newName: string,
                            noReplace: bool, status: Status)
  {
    && (status == Err(ENOENT) <==> forall b :: !Titled(bms, oldParent, oldName, b))
    && forall b :: FirstTitled(bms, oldParent, oldName, b) ==>
         if forall t :: !Titled(bms, newParent, newName, t) then status == Err(EIO)
         else forall t :: FirstTitled(bms, newParent, newName, t) ==>
                status == if noReplace then Err(EEXIST) else DeleteStatus(bms, t, bms[b].fk.None?)
  }

  lemma MoveFailsNow(bms: Bookmarks, oldParent: RowId, oldName: string, newParent: RowId, newName: string,
                     noReplace: bool, status: Status, b: RowId, target: Option<RowId>)
    requires Positioned(bms) && FirstTitled(bms, oldParent, oldName, b) && status.Err?
    requires match target
             case None => (forall t :: !Titled(bms, newParent, newName, t)) && status == Err(EIO)
             case Some(t) =>
               && FirstTitled(bms, newParent, newName, t)
               && status == if noReplace then Err(EEXIST) else DeleteStatus(bms, t, bms[b].fk.None?)
    ensures MoveFails(bms, oldParent, oldName, newParent, newName, noReplace, status)
  {
    OnlyFirst(bms, oldParent, oldName, b);
    if target.Some? {
      OnlyFirst(bms, newParent, newName, target.value);
    }
  }

  // ---- the store --------------------------------------------------------

  class Store {
    var db: Db
    const rootId: RowId
    /** What `parse_mozurl` makes of a URL. */
    const parseUrl: string -> Option<Origin>
    /** `mozplace_url_hash`. */
    const urlHash: string -> int
    /** References from tables this program never writes. */
    ghost const ext: multiset<PlaceId>
    ghost var refs: multiset<PlaceId>

    /** The place table answers for `refs`. */
    ghost predicate PlacesValid()
      reads this
    {
      Answers(db.places, db.origins, refs, urlHash)
    }

    ghost predicate Valid()
      reads this
    {
      && PlacesValid()
      && Counts(refs, db.bookmarks, db.keywords, ext)
      && Positioned(db.bookmarks)
    }

    /** Opens a store whose tables are in order, with `ext` for the references from elsewhere. */
    constructor (db: Db, rootId: RowId, parseUrl: string -> Option<Origin>, urlHash: string -> int,
                 ghost refs: multiset<PlaceId>, ghost ext: multiset<PlaceId>)
      requires Answers(db.places, db.origins, refs, urlHash)
      requires Counts(refs, db.bookmarks, db.keywords, ext)
      requires Positioned(db.bookmarks)
      ensures Valid()
      ensures this.db == db && this.refs == refs && this.ext == ext
    {
      this.db, this.rootId := db, rootId;
      this.parseUrl, this.urlHash := parseUrl, urlHash;
      this.refs, this.ext := refs, ext;
    }

    // -- moz_origins and moz_places --

    /** The place of a URL, created if need be, with one more reference. */
    method PlaceAddref(url: string) returns (status: Status, id: PlaceId)
      requires PlacesValid()
      modifies this`db, this`refs
      ensures PlacesValid()
      ensures status.Ok? <==> parseUrl(url).Some?
      ensures status.Ok? ==>
        && refs == old(refs) + multiset{id}
        && Referred(old(db), db, id, url, parseUrl(url).value)
      ensures status.Err? ==> db == old(db) && refs == old(refs) && status == Err(EINVAL)
      ensures db.bookmarks == old(db.bookmarks) && db.keywords == old(db.keywords)
    {
      id := 0;
      var origin := parseUrl(url);
      if origin.None? {
        return Err(EINVAL), id;
      }
      var found := PlaceLookup(url, urlHash(url));
      if found.Some? {
        status := PlaceAddrefId(found.value);
        ReferredAgain(old(db), db, found.value, url, origin.value);
        return Ok, found.value;
      }
      id := PlaceInsert(url, origin.value);
      return Ok, id;
    }

    method PlaceLookup(url: string, hash: int) returns (p: Option<PlaceId>)
      ensures p.Some? ==> p.value in db.places && db.places[p.value].url == url
      ensures p.None? ==> forall q :: q in db.places ==> db.places[q].urlHash != hash || db.places[q].url != url
    {
      if q :| q in db.places && db.places[q].urlHash == hash && db.places[q].url == url {
        return Some(q);
      }
      return None;
    }

    /** `mozplace_insert`: a new place for a URL that has none, with one reference. */
    method PlaceInsert(url: string, origin: Origin) returns (id: PlaceId)
      requires PlacesValid()
      requires forall p :: p in db.places ==> db.places[p].urlHash != urlHash(url) || db.places[p].url != url
      modifies this`db, this`refs
      ensures PlacesValid()
      ensures id !in old(db.places) && refs == old(refs) + multiset{id}
      ensures Referred(old(db), db, id, url, origin)
      ensures db.bookmarks == old(db.bookmarks) && db.keywords == old(db.keywords)
    {
      var originId := OriginGet(origin);
      id := NextId(db.places.Keys);
      AnswersInsert(db.places, old(db.origins), db.origins, refs, urlHash, id, url, origin, originId);
      db := db.(places := db.places[id := Place(url, urlHash(url), originId, 1)]);
      ReferredFirst(old(db), db, id, url, origin, originId);
      refs := refs + multiset{id};
    }

    method OriginGet(origin: Origin) returns (id: OriginId)
      modifies this`db
      ensures db == old(db).(origins := db.origins)
      ensures OriginGot(old(db.origins), db.origins, origin, id)
    {
      if o :| o in db.origins && db.origins[o] == origin {
        assert db.origins == db.origins[o := origin];
        return o;
      }
      id := NextId(db.origins.Keys);
      db := db.(origins := db.origins[id := origin]);
    }

    method PlaceAddrefId(id: PlaceId) returns (status: Status)
      requires PlacesValid()
      modifies this`db, this`refs
      ensures PlacesValid()
      ensures status.Ok? <==> id in old(db.places)
      ensures status.Ok? ==> refs == old(refs) + multiset{id} && id in db.places
      ensures status.Err? ==> db == old(db) && refs == old(refs)
      ensures db == old(db).(places := db.places) && SameOthers(old(db.places), db.places, id)
    {
      if id !in db.places {
        return Err(ESTALE);
      }
      AnswersBump(db.places, db.origins, refs, urlHash, id);
      db := db.(places := Bumped(db.places, id, 1));
      refs := refs + multiset{id};
      return Ok;
    }

    /** Deletes an unreferenced place, and its origin with it when no other place has that origin. */
    method PlaceDelete(id: PlaceId, origin: OriginId)
      requires id in db.places && refs[id] == 0
      requires Answers(db.places - {id}, db.origins, refs, urlHash)
      modifies this`db
      ensures PlacesValid()
      ensures db == old(db).(places := old(db.places) - {id}, origins := db.origins)
      ensures db.origins == if exists p :: p in db.places && db.places[p].origin == origin then old(db.origins)
                            else old(db.origins) - {origin}
    {
      DropPlace(id, origin);
    }

    /** `mozplace_delete`: the place, and its origin when no other place has that. */
    method DropPlace(id: PlaceId, origin: OriginId)
      modifies this`db
      ensures db == old(db).(places := old(db.places) - {id}, origins := db.origins)
      ensures db.origins == if exists p :: p in db.places && db.places[p].origin == origin then old(db.origins)
                            else old(db.origins) - {origin}
    {
      db := db.(places := db.places - {id});
      if forall p :: p in db.places ==> db.places[p].origin != origin {
        db := db.(origins := db.origins - {origin});
      }
    }

    /** The first half of `mozplace_delref`: the new count, and the row deleted when that is 0. */
    method PlaceDecrement(id: PlaceId, n: nat) returns (gone: bool)
      requires PlacesValid()
      requires id in db.places && 0 < n <= refs[id]
      modifies this`db, this`refs
      ensures PlacesValid()
      ensures refs == Fewer(old(refs), id, n)
      ensures gone <==> refs[id] == 0
      ensures gone <==> id !in db.places
      ensures SameOthers(old(db.places), db.places, id)
      ensures OriginsFollow(old(db.places), old(db.origins), db.places, db.origins, id)
      ensures db.bookmarks == old(db.bookmarks) && db.keywords == old(db.keywords)
    {
      AnswersDrop(db.places, db.origins, refs, urlHash, id, n);
      db := db.(places := Bumped(db.places, id, -(n as int)));
      refs := Fewer(refs, id, n);
      gone := db.places[id].foreignCount == 0;
      if gone {
        PlaceDelete(id, db.places[id].origin);
      }
    }

    /**
    `mozplace_delref`. With `purge > 0`, that many references are dropped. With `purge == 0`
    one is, whose row has already gone from the tables; and when no titled row of the place
    is left, its tag rows and keywords go too. The place goes when no reference is left.
    */
    method PlaceDelref(id: PlaceId, purge: nat) returns (status: Status)
      requires PlacesValid()
      requires id in db.places ==> (if purge == 0 then 1 else purge) <= refs[id]
      requires id in db.places && purge == 0 ==> Counts(refs - multiset{id}, db.bookmarks, db.keywords, ext)
      modifies this`db, this`refs
      ensures status == if id in old(db.places) then Ok else Err(EIO)
      ensures status.Err? ==> db == old(db) && refs == old(refs)
      ensures status.Ok? ==> PlacesValid()
      ensures status.Ok? && purge > 0 ==>
        db.bookmarks == old(db.bookmarks) && db.keywords == old(db.keywords) && refs == Fewer(old(refs), id, purge)
      ensures status.Ok? && purge == 0 ==>
        Counts(refs, db.bookmarks, db.keywords, ext) && Purged(old(db), old(refs) - multiset{id}, id)
      ensures status.Ok? ==> (id in db.places <==> refs[id] > 0) && SameOthers(old(db.places), db.places, id)
      ensures OriginsFollow(old(db.places), old(db.origins), db.places, db.origins, id)
      decreases if purge == 0 then 2 else 0
    {
      ghost var n := if purge == 0 then 1 else purge;
      if id !in db.places {
        return Err(EIO);
      }
      assert purge == 0 ==> Fewer(refs, id, n) == refs - multiset{id};
      var gone := PlaceDecrement(id, if purge == 0 then 1 else purge);
      if gone {
        if purge == 0 {
          CountsNone(refs, db.bookmarks, db.keywords, ext, id);
          assert refs == refs[id := ext[id]];
        }
        return Ok;
      }
      if purge > 0 {
        return Ok;
      }
      status := PlacePurge(id);
    }

    /** What purging the place `id` makes of the rows of `was`, in which `refs0` were counted. */
    ghost predicate Purged(was: Db, refs0: multiset<PlaceId>, id: PlaceId)
      reads this
    {
      if HasTitledRow(was.bookmarks, id) then
        db.bookmarks == was.bookmarks && db.keywords == was.keywords && refs == refs0
      else
        && db.bookmarks == WithoutRows(was.bookmarks, id)
        && db.keywords == WithoutKeywords(was.keywords, id)
        && refs == refs0[id := ext[id]]
    }

    /** `mozplace_purge`. */
    method PlacePurge(id: PlaceId) returns (status: Status)
      requires PlacesValid() && id in refs
      requires Counts(refs, db.bookmarks, db.keywords, ext)
      modifies this`db, this`refs
      ensures PlacesValid() && status == Ok
      ensures Counts(refs, db.bookmarks, db.keywords, ext) && Purged(old(db), old(refs), id)
      ensures id in db.places <==> refs[id] > 0
      ensures SameOthers(old(db.places), db.places, id)
      ensures OriginsFollow(old(db.places), old(db.origins), db.places, db.origins, id)
      decreases 1
    {
      if HasTitledRow(db.bookmarks, id) {
        return Ok;
      }
      CountsPurge(refs, db.bookmarks, db.keywords, ext, id);
      var changes := |RowsOf(db.bookmarks, id)|;
      changes := changes + |KeywordsOf(db.keywords, id)|;
      assert refs[id := ext[id]] == Fewer(refs, id, changes);
      assert changes == 0 ==> refs == Fewer(refs, id, changes);
      db := db.(bookmarks := WithoutRows(db.bookmarks, id), keywords := WithoutKeywords(db.keywords, id));
      if changes == 0 {
        return Ok;
      }
      status := PlaceDelref(id, changes);
    }

    /** `mozplace_update` with a URL: takes a reference to its place and gives up one to `was`. */
    method PlaceUpdate(was: PlaceId, url: string) returns (status: Status, place: PlaceId)
      requires PlacesValid() && was in refs
      modifies this`db, this`refs
      ensures PlacesValid()
      ensures status.Ok? <==> parseUrl(url).Some?
      ensures status.Err? ==> db == old(db) && refs == old(refs) && status == Err(EINVAL)
      ensures status.Ok? ==>
        && refs == Fewer(old(refs) + multiset{place}, was, 1)
        && place in db.places && db.places[place].url == url
        && (was in db.places <==> refs[was] > 0) && SameButCounts(old(db.places), db.places, was, place)
        && OriginsMoved(old(db), db, was, place, parseUrl(url).value)
      ensures db.bookmarks == old(db.bookmarks) && db.keywords == old(db.keywords)
    {
      status, place := PlaceAddref(url);
      if status.Err? {
        return;
      }
      status := PlaceDelref(was, 1);
      assert place in refs;
    }

    // -- moz_bookmarks --

    /** `mozbm_insert`: a new last child of `parent`. */
    method RowInsert(parent: RowId, title: Option<string>, fk: Option<PlaceId>) returns (status: Status, id: RowId)
      requires Positioned(db.bookmarks)
      modifies this`db
      ensures status.Ok? <==> CanInsert(old(db.bookmarks), parent)
      ensures status.Err? ==> status == Err(if CanAppend(old(db.bookmarks), parent) then ENOSPC else EIO)
      ensures status.Ok? ==>
        && id !in old(db.bookmarks) && id in db.bookmarks
        && db.bookmarks[id] == Row(parent, db.bookmarks[id].position, title, fk)
        && AfterAll(old(db.bookmarks), parent, db.bookmarks[id].position)
        && db == old(db).(bookmarks := old(db.bookmarks)[id := db.bookmarks[id]])
        && Positioned(db.bookmarks)
    {
      id := NextId(db.bookmarks.Keys);
      NextIdAtMost(db.bookmarks.Keys, MAX_ID);
      var pos := NextPosition(db.bookmarks, parent);
      if pos.None? {
        return Err(EIO), id;
      }
      var row := Row(parent, pos.value, title, fk);
      PositionedInsert(db.bookmarks, id, row);
      db := db.(bookmarks := db.bookmarks[id := row]);
      if id > MAX_ID {
        return Err(ENOSPC), id;
      }
      return Ok, id;
    }

    /** `mozbm_delete`: a folder must be empty; a bookmark gives up its reference. */
    method RowDelete(id: RowId, isDir: bool, purge: bool) returns (status: Status)
      requires Valid()
      requires id in db.bookmarks && (isDir <==> db.bookmarks[id].fk.None?)
      modifies this`db, this`refs
      ensures Valid()
      ensures status.Ok? <==> !(isDir && exists b :: b in old(db.bookmarks) && old(db.bookmarks)[b].parent == id)
      ensures status.Err? ==> status == Err(ENOTEMPTY)
      ensures status.Err? ==> db == old(db) && refs == old(refs)
      ensures status.Ok? ==> Deleted(old(db), db, ext, id, purge)
    {
      if isDir && exists b :: b in db.bookmarks && db.bookmarks[b].parent == id {
        return Err(ENOTEMPTY);
      }
      if isDir {
        CountsDeleteRow(refs, db.bookmarks, db.keywords, ext, id);
        assert refs - Ref(db.bookmarks[id].fk) == refs;
        db := db.(bookmarks := db.bookmarks - {id});
        return Ok;
      }
      status := UrlRowDelete(id, purge);
    }

    method UrlRowDelete(id: RowId, purge: bool) returns (status: Status)
      requires Valid()
      requires id in db.bookmarks && db.bookmarks[id].fk.Some?
      modifies this`db, this`refs
      ensures Valid() && status == Ok
      ensures Deleted(old(db), db, ext, id, purge)
    {
      RowGivesUp(refs, db.bookmarks, db.keywords, ext, id);
      var place := db.bookmarks[id].fk.value;
      db := db.(bookmarks := db.bookmarks - {id});
      status := PlaceDelref(place, if purge then 0 else 1);
      UrlRowDeleted(old(db), db, refs, ext, id, purge);
    }

    // -- transactions --

    /** A new last child of `parent` named `name`: an empty folder, or a bookmark to the blank page. */
    ghost predicate Created(was: Db, parent: RowId, name: string, isDir: bool, id: RowId)
      reads this
    {
      && id !in was.bookmarks && id in db.bookmarks
      && var row := db.bookmarks[id];
      && row.parent == parent && row.title == Some(name) && AfterAll(was.bookmarks, parent, row.position)
      && (if isDir then row.fk.None? && db.places == was.places && db.origins == was.origins
          else row.fk.Some? && parseUrl("about:blank").Some?
               && Referred(was, db, row.fk.value, "about:blank", parseUrl("about:blank").value))
      && db.bookmarks == was.bookmarks[id := row] && db.keywords == was.keywords
    }

    ghost predicate CanCreate(bms: Bookmarks, parent: RowId, name: string, isDir: bool)
    {
      && parent != rootId && (forall c :: !Titled(bms, parent, name, c))
      && CanInsert(bms, parent) && (isDir || parseUrl("about:blank").Some?)
    }

    /** Why a row under a free name is not created: the URL cannot be parsed, or there is no position or id left. */
    ghost predicate CreateFails(bms: Bookmarks, parent: RowId, name: string, isDir: bool, status: Status)
    {
      parent != rootId && (forall c :: !Titled(bms, parent, name, c)) && status.Err? ==>
        status == Err(if !isDir && parseUrl("about:blank").None? then EINVAL else if CanAppend(bms, parent) then ENOSPC else EIO)
    }

    /** `bookmark_create` of a bookmark or a folder. */
    method BookmarkCreate(parent: RowId, name: string, isDir: bool) returns (status: Status, id: RowId)
      requires Valid()
      modifies this`db, this`refs
      ensures Valid()
      ensures status.Err? ==> db == old(db)
      ensures parent == rootId ==> status == Err(EPERM)
      ensures parent != rootId && (exists c :: Titled(old(db.bookmarks), parent, name, c)) ==> status == Err(EEXIST)
      ensures status.Ok? <==> CanCreate(old(db.bookmarks), parent, name, isDir)
      ensures CreateFails(old(db.bookmarks), parent, name, isDir, status)
      ensures status.Ok? ==> Created(old(db), parent, name, isDir, id)
    {
      var saved := db;
      ghost var savedRefs := refs;
      status, id := DoCreate(parent, name, isDir);
      if status.Err? {
        db, refs := saved, savedRefs;
      }
    }

    method DoCreate(parent: RowId, name: string, isDir: bool) returns (status: Status, id: RowId)
      requires Valid()
      modifies this`db, this`refs
      ensures parent == rootId ==> status == Err(EPERM)
      ensures parent != rootId && (exists c :: Titled(old(db.bookmarks), parent, name, c)) ==> status == Err(EEXIST)
      ensures status.Ok? <==> CanCreate(old(db.bookmarks), parent, name, isDir)
      ensures CreateFails(old(db.bookmarks), parent, name, isDir, status)
      ensures status.Ok? ==> Valid() && Created(old(db), parent, name, isDir, id)
    {
      id := 0;
      if parent == rootId {
        return Err(EPERM), id;
      }
      var found := Lookup(db.bookmarks, parent, name);
      if found.Some? {
        return Err(EEXIST), id;
      }
      var fk := None;
      if !isDir {
        var place;
        status, place := PlaceAddref("about:blank");
        if status.Err? {
          return;
        }
        fk := Some(place);
      }
      assert refs == old(refs) + Ref(fk);
      status, id := RowInsert(parent, Some(name), fk);
      if status.Ok? {
        CountsInsertRow(old(refs), old(db.bookmarks), db.keywords, ext, id, db.bookmarks[id]);
      }
    }

    /**
    `bookmark_delete` of a bookmark or an empty folder. With the last titled bookmark of a
    place go its tag entries and keywords; with the last reference goes the place.
    */
    method BookmarkDelete(parent: RowId, name: string, isDir: bool) returns (status: Status)
      requires Valid()
      modifies this`db, this`refs
      ensures Valid()
      ensures status.Err? ==> db == old(db)
      ensures parent == rootId ==> status == Err(EPERM)
      ensures parent != rootId && (forall c :: !Titled(old(db.bookmarks), parent, name, c)) ==> status == Err(ENOENT)
      ensures status.Ok? <==>
        parent != rootId && exists b :: FirstTitled(old(db.bookmarks), parent, name, b) && Deletable(old(db.bookmarks), b, isDir)
      ensures forall b :: parent != rootId && FirstTitled(old(db.bookmarks), parent, name, b) ==> status == DeleteStatus(old(db.bookmarks), b, isDir)
      ensures status.Ok? ==> exists b :: FirstTitled(old(db.bookmarks), parent, name, b) && Deleted(old(db), db, ext, b, true)
    {
      if parent == rootId {
        return Err(EPERM);
      }
      var found := Lookup(db.bookmarks, parent, name);
      if found.None? {
        return Err(ENOENT);
      }
      OnlyFirst(db.bookmarks, parent, name, found.value);
      if db.bookmarks[found.value].fk.None? != isDir {
        return Err(if isDir then ENOTDIR else EISDIR);
      }
      status := RowDelete(found.value, isDir, true);
    }

    /** `mozbm_lookup_id`: the first row with the place and title of row `id`. */
    method LookupId(id: RowId) returns (status: Status, place: PlaceId)
      ensures status.Ok? <==> IsUrl(db.bookmarks, id)
      ensures status.Err? ==> status == Err(ESTALE)
      ensures status.Ok? ==> place == db.bookmarks[id].fk.value
    {
      place := 0;
      if id !in db.bookmarks || db.bookmarks[id].fk.None? || db.bookmarks[id].title.None? {
        return Err(ESTALE), place;
      }
      return Ok, db.bookmarks[id].fk.value;
    }

    /** A tag entry of `parent` for the place, if there is one. */
    method TagEntryLookup(parent: RowId, place: PlaceId) returns (b: Option<RowId>)
      ensures b.Some? ==> TagEntry(db.bookmarks, parent, place, b.value)
      ensures b.None? ==> forall c :: !TagEntry(db.bookmarks, parent, place, c)
    {
      if c :| c in db.bookmarks && TagEntry(db.bookmarks, parent, place, c) {
        return Some(c);
      }
      return None;
    }

    /** `bookmark_create` of a tag entry: bookmark `id` is filed under the tag `parent` too. */
    method TagAdd(parent: RowId, id: RowId, name: string) returns (status: Status, entry: RowId)
      requires Valid()
      modifies this`db, this`refs
      ensures Valid()
      ensures status.Err? ==> db == old(db)
      ensures status == Err(ESTALE) <==> !IsUrl(old(db.bookmarks), id)
      ensures status == Err(EEXIST) <==>
        IsUrl(old(db.bookmarks), id) && exists c :: TagEntry(old(db.bookmarks), parent, old(db.bookmarks)[id].fk.value, c)
      ensures status.Err? && CanInsert(old(db.bookmarks), parent) ==>
        status == Err(ESTALE) || status == Err(EEXIST) || status == Err(ENOENT)
      ensures status.Ok? <==> IsUrl(old(db.bookmarks), id) && CanTag(old(db.bookmarks), parent, old(db.bookmarks)[id].fk.value, name)
      ensures status.Ok? ==>
        && id in old(db.bookmarks) && old(db.bookmarks)[id].fk.Some?
        && var place := old(db.bookmarks)[id].fk.value;
        && (forall c :: !TagEntry(old(db.bookmarks), parent, place, c))
        && entry !in old(db.bookmarks) && entry in db.bookmarks
        && var row := db.bookmarks[entry];
        && row == Row(parent, row.position, None, Some(place)) && AfterAll(old(db.bookmarks), parent, row.position)
        && db.bookmarks == old(db.bookmarks)[entry := row] && db.keywords == old(db.keywords)
        && SameOthers(old(db.places), db.places, place) && db.origins == old(db.origins)
    {
      var saved := db;
      ghost var savedRefs := refs;
      entry := 0;
      var place;
      status, place := LookupId(id);
      if status.Err? {
        return;
      }
      PlaceOfRow(db.places, db.origins, refs, urlHash, db.bookmarks, db.keywords, ext, id);
      var found := TagEntryLookup(parent, place);
      if found.Some? {
        return Err(EEXIST), entry;
      }
      status, entry := RowInsert(parent, None, Some(place));
      if status.Ok? {
        TagHoldsNow(old(db.bookmarks), parent, name, place, entry, db.bookmarks[entry]);
        if !TagHolds(db.bookmarks, parent, name) {
          status := Err(ENOENT);
        }
      }
      if status.Ok? {
        CountsInsertRow(refs, old(db.bookmarks), db.keywords, ext, entry, db.bookmarks[entry]);
        status := PlaceAddrefId(place);
      }
      if status.Err? {
        db, refs := saved, savedRefs;
      }
    }

    /** `bookmark_delete` of a tag entry. */
    method TagDelete(parent: RowId, name: string) returns (status: Status)
      requires Valid()
      modifies this`db, this`refs
      ensures Valid()
      ensures status.Err? ==> db == old(db)
      ensures status.Ok? <==> TagHolds(old(db.bookmarks), parent, name)
      ensures status.Err? ==> status == Err(ENOENT)
      ensures status.Ok? ==> exists b, id ::
        && Tagged(old(db.bookmarks), parent, name, id) && TagEntry(old(db.bookmarks), parent, old(db.bookmarks)[id].fk.value, b)
        && Deleted(old(db), db, ext, b, false)
    {
      if id :| id in db.bookmarks && Tagged(db.bookmarks, parent, name, id) {
        var place;
        status, place := LookupId(id);
        if status.Err? {
          return;
        }
        var found := TagEntryLookup(parent, place);
        if found.None? {
          return Err(ENOENT);
        }
        status := RowDelete(found.value, false, false);
      } else {
        return Err(ENOENT);
      }
    }

    /** `bookmark_create` of a keyword for bookmark `id`. */
    method KeywordCreate(keyword: string, id: RowId) returns (status: Status)
      requires Valid()
      modifies this`db, this`refs
      ensures Valid()
      ensures status.Err? ==> db == old(db)
      ensures status.Ok? <==> IsUrl(old(db.bookmarks), id) && keyword !in old(db.keywords)
      ensures status == Err(EEXIST) <==> IsUrl(old(db.bookmarks), id) && keyword in old(db.keywords)
      ensures status == Err(ESTALE) <==> !IsUrl(old(db.bookmarks), id)
      ensures status.Ok? ==>
        && keyword !in old(db.keywords)
        && id in old(db.bookmarks) && old(db.bookmarks)[id].fk.Some?
        && db.keywords == old(db.keywords)[keyword := old(db.bookmarks)[id].fk.value]
        && db.bookmarks == old(db.bookmarks)
        && SameOthers(old(db.places), db.places, old(db.bookmarks)[id].fk.value) && db.origins == old(db.origins)
    {
      var place;
      status, place := LookupId(id);
      if status.Err? {
        return;
      }
      PlaceOfRow(db.places, db.origins, refs, urlHash, db.bookmarks, db.keywords, ext, id);
      if keyword in db.keywords {
        return Err(EEXIST);
      }
      CountsInsertKeyword(refs, db.bookmarks, db.keywords, ext, keyword, place);
      db := db.(keywords := db.keywords[keyword := place]);
      status := PlaceAddrefId(place);
    }

    /**
    `bookmark_delete` of a keyword. For a keyword that does not exist the place is a variable that
    the code has not set; `unset` is what it happens to hold. If that is the id of a place, the
    place loses a reference that it still has, and the counts are wrong from then on.
    */
    method KeywordDelete(keyword: string, unset: PlaceId) returns (status: Status)
      requires Valid()
      modifies this`db, this`refs
      ensures Valid() <==> keyword in old(db.keywords) || unset !in old(db.places)
      ensures status.Ok? <==> keyword in old(db.keywords) || unset in old(db.places)
      ensures status.Err? ==> status == Err(EIO) && db == old(db)
      ensures status.Ok? ==> db.keywords == old(db.keywords) - {keyword} && db.bookmarks == old(db.bookmarks)
      ensures status.Ok? ==>
        SameOthers(old(db.places), db.places, if keyword in old(db.keywords) then old(db.keywords)[keyword] else unset)
      ensures OriginsFollow(old(db.places), old(db.origins), db.places, db.origins,
                            if keyword in old(db.keywords) then old(db.keywords)[keyword] else unset)
      ensures keyword in old(db.keywords) ==> ThereIfUsed(db.places, db.bookmarks, db.keywords, ext, old(db.keywords)[keyword])
      ensures keyword !in old(db.keywords) && unset in old(db.places) ==> OneLess(old(db.places), db.places, unset)
    {
      if keyword !in db.keywords {
        status := PlaceDelrefUnset(unset);
        return;
      }
      KeywordDrop(keyword);
      return Ok;
    }

    /** `mozkw_delete` of a keyword that exists. */
    method KeywordDrop(keyword: string)
      requires Valid() && keyword in db.keywords
      modifies this`db, this`refs
      ensures Valid()
      ensures db.keywords == old(db.keywords) - {keyword} && db.bookmarks == old(db.bookmarks)
      ensures SameOthers(old(db.places), db.places, old(db.keywords)[keyword])
      ensures ThereIfUsed(db.places, db.bookmarks, db.keywords, ext, old(db.keywords)[keyword])
      ensures OriginsFollow(old(db.places), old(db.origins), db.places, db.origins, old(db.keywords)[keyword])
    {
      CountsDeleteKeyword(refs, db.bookmarks, db.keywords, ext, keyword);
      var place := db.keywords[keyword];
      db := db.(keywords := db.keywords - {keyword});
      var status := PlaceDelref(place, 1);
      assert refs == Fewer(old(refs), place, 1) == old(refs) - multiset{place};
      CountedIsUsed(db.places, refs, db.bookmarks, db.keywords, ext, place);
    }

    /** `mozplace_delref` of one reference that no row or keyword has given up. */
    method PlaceDelrefUnset(id: PlaceId) returns (status: Status)
      requires Valid()
      modifies this`db
      ensures Valid() <==> id !in old(db.places)
      ensures status == if id in old(db.places) then Ok else Err(EIO)
      ensures status.Err? ==> db == old(db)
      ensures db.keywords == old(db.keywords) && db.bookmarks == old(db.bookmarks)
      ensures SameOthers(old(db.places), db.places, id)
      ensures status.Ok? ==> OneLess(old(db.places), db.places, id)
      ensures OriginsFollow(old(db.places), old(db.origins), db.places, db.origins, id)
    {
      if id !in db.places {
        return Err(EIO);
      }
      var origin, count := db.places[id].origin, db.places[id].foreignCount - 1;
      db := db.(places := Bumped(db.places, id, -1));
      if count == 0 {
        assert id in refs;
        DropPlace(id, origin);
      }
      return Ok;
    }

    /** `mozbm_move` of a row: to `pos` when given, and to the end of its new folder otherwise. */
    method RowMove(id: RowId, parent: RowId, pos: Option<int>, name: string) returns (status: Status)
      requires Positioned(db.bookmarks)
      requires id in db.bookmarks
      requires pos.Some? ==> 0 <= pos.value <= INT64_MAX && FreePosition(db.bookmarks - {id}, parent, pos.value)
      modifies this`db
      ensures status.Ok? <==> pos.Some? || CanAppend(old(db.bookmarks), parent)
      ensures status.Err? ==> status == Err(EIO)
      ensures status.Ok? ==>
        && id in db.bookmarks
        && var row := db.bookmarks[id];
        && row == old(db.bookmarks)[id].(parent := parent, title := Some(name), position := row.position)
        && (if pos.Some? then row.position == pos.value else AfterAll(old(db.bookmarks), parent, row.position))
        && db == old(db).(bookmarks := old(db.bookmarks)[id := row])
        && Positioned(db.bookmarks)
    {
      var p := pos;
      if p.None? {
        p := NextPosition(db.bookmarks, parent);
        if p.None? {
          return Err(EIO);
        }
        assert FreePosition(db.bookmarks - {id}, parent, p.value);
      }
      var row := db.bookmarks[id].(parent := parent, title := Some(name), position := p.value);
      PositionedInsert(db.bookmarks, id, row);
      db := db.(bookmarks := db.bookmarks[id := row]);
      return Ok;
    }

    /** The row that is renamed exists, and so does a place to go: a free name, or a row to replace. */
    ghost predicate CanMove(bms: Bookmarks, oldParent: RowId, oldName: string, newParent: RowId, newName: string, noReplace: bool)
    {
      exists b :: FirstTitled(bms, oldParent, oldName, b) &&
        if forall c :: !Titled(bms, newParent, newName, c) then CanAppend(bms, newParent)
        else !noReplace && exists t :: FirstTitled(bms, newParent, newName, t) && Deletable(bms, t, bms[b].fk.None?)
    }

    /**
    `bookmark_rename`. A replaced row is deleted as `BookmarkDelete` would, but the row that
    moves survives that even when both are bookmarks of the same place.
    */
    method BookmarkRename(oldParent: RowId, oldName: string, newParent: RowId, newName: string, noReplace: bool)
      returns (status: Status, ghost b: RowId, ghost target: Option<RowId>, ghost mid: Db)
      requires Valid()
      modifies this`db, this`refs
      ensures Valid()
      ensures status.Err? ==> db == old(db)
      ensures oldParent == rootId || newParent == rootId ==> status == Err(EPERM)
      ensures status.Ok? <==>
        && oldParent != rootId && newParent != rootId
        && ((oldParent == newParent && oldName == newName)
            || CanMove(old(db.bookmarks), oldParent, oldName, newParent, newName, noReplace))
      ensures status.Err? && oldParent != rootId && newParent != rootId ==>
        MoveFails(old(db.bookmarks), oldParent, oldName, newParent, newName, noReplace, status)
      ensures status.Ok? && oldParent == newParent && oldName == newName ==> db == old(db)
      ensures status.Ok? && (oldParent != newParent || oldName != newName) ==>
        && FirstTitled(old(db.bookmarks), oldParent, oldName, b)
        && Moved(old(db), mid, db, b, newParent, newName)
        && (match target
            case None =>
              && (forall c :: !Titled(old(db.bookmarks), newParent, newName, c))
              && mid == old(db) && AfterAll(mid.bookmarks, newParent, db.bookmarks[b].position)
            case Some(t) =>
              && !noReplace && FirstTitled(old(db.bookmarks), newParent, newName, t)
              && Deleted(old(db), mid, ext, t, true)
              && db.bookmarks[b].position == old(db.bookmarks)[t].position)
    {
      b, target, mid := 0, None, db;
      if oldParent == rootId || newParent == rootId {
        status := Err(EPERM);
        return;
      }
      if oldParent == newParent && oldName == newName {
        status := Ok;
        return;
      }
      var saved := db;
      ghost var savedRefs := refs;
      var source := Lookup(db.bookmarks, oldParent, oldName);
      if source.None? {
        status := Err(ENOENT);
        return;
      }
      b := source.value;
      OnlyFirst(db.bookmarks, oldParent, oldName, b);
      var found := Lookup(db.bookmarks, newParent, newName);
      target := found;
      var pos := None;
      if found.Some? {
        OnlyFirst(db.bookmarks, newParent, newName, found.value);
        status := ReplaceTarget(source.value, found.value, noReplace);
        if status.Err? {
          MoveFailsNow(saved.bookmarks, oldParent, oldName, newParent, newName, noReplace, status, b, found);
          return;
        }
        pos := Some(saved.bookmarks[found.value].position);
      }
      mid := db;
      status := RowMove(source.value, newParent, pos, newName);
      if status.Err? {
        db, refs := saved, savedRefs;
        MoveFailsNow(saved.bookmarks, oldParent, oldName, newParent, newName, noReplace, status, b, found);
        return;
      }
      CountsMoveRow(refs, mid.bookmarks, db.keywords, ext, b, db.bookmarks[b]);
    }

    /** The replacing half of `bookmark_rename`: deletes `target`, never `b`. */
    method ReplaceTarget(b: RowId, target: RowId, noReplace: bool) returns (status: Status)
      requires Valid()
      requires b in db.bookmarks && db.bookmarks[b].title.Some?
      requires target in db.bookmarks && target != b
      modifies this`db, this`refs
      ensures Valid()
      ensures status.Err? ==> db == old(db) && refs == old(refs)
      ensures noReplace ==> status == Err(EEXIST)
      ensures !noReplace ==> status == DeleteStatus(old(db.bookmarks), target, old(db.bookmarks)[b].fk.None?)
      ensures status.Ok? ==> Deleted(old(db), db, ext, target, true)
      ensures status.Ok? ==> b in db.bookmarks && db.bookmarks[b] == old(db.bookmarks)[b]
      ensures status.Ok? ==> var t := old(db.bookmarks)[target]; FreePosition(db.bookmarks, t.parent, t.position)
    {
      if noReplace {
        return Err(EEXIST);
      }
      var oldIsDir := db.bookmarks[b].fk.None?;
      if oldIsDir != db.bookmarks[target].fk.None? {
        return Err(if oldIsDir then ENOTDIR else EISDIR);
      }
      status := RowDelete(target, oldIsDir, true);
      if status.Ok? {
        ghost var rest := old(db.bookmarks) - {target};
        assert b in rest;
        assert forall c :: c in db.bookmarks ==> c in rest && db.bookmarks[c] == rest[c];
      }
    }

    /** `bookmark_set` of the URL: the row moves to the place of the new URL. */
    method SetUrl(id: RowId, url: string) returns (status: Status)
      requires Valid()
      modifies this`db, this`refs
      ensures Valid()
      ensures status.Err? ==> db == old(db)
      ensures status.Ok? <==> id in old(db.bookmarks) && old(db.bookmarks)[id].fk.Some? && parseUrl(url).Some?
      ensures status.Err? ==> status == Err(if id !in old(db.bookmarks) then ESTALE else if old(db.bookmarks)[id].fk.None? then EPERM else EINVAL)
      ensures status.Ok? ==>
        && id in db.bookmarks && db.bookmarks[id].fk.Some?
        && var fk := db.bookmarks[id].fk;
        && fk.value in db.places && db.places[fk.value].url == url
        && db.bookmarks == old(db.bookmarks)[id := old(db.bookmarks)[id].(fk := fk)]
        && db.keywords == old(db.keywords)
        && Repointed(old(db), db, ext, old(db.bookmarks)[id].fk.value, fk.value, parseUrl(url).value)
    {
      if id !in db.bookmarks {
        return Err(ESTALE);
      }
      if db.bookmarks[id].fk.None? {
        return Err(EPERM);
      }
      status := Repoint(id, url);
    }

    /** The row moves to the place of the URL, and its reference with it. */
    method Repoint(id: RowId, url: string) returns (status: Status)
      requires Valid() && id in db.bookmarks && db.bookmarks[id].fk.Some?
      modifies this`db, this`refs
      ensures Valid()
      ensures status.Err? ==> db == old(db) && status == Err(EINVAL)
      ensures status.Ok? <==> parseUrl(url).Some?
      ensures status.Ok? ==>
        && id in db.bookmarks && db.bookmarks[id].fk.Some?
        && var fk := db.bookmarks[id].fk;
        && fk.value in db.places && db.places[fk.value].url == url
        && db.bookmarks == old(db.bookmarks)[id := old(db.bookmarks)[id].(fk := fk)]
        && db.keywords == old(db.keywords)
        && Repointed(old(db), db, ext, old(db.bookmarks)[id].fk.value, fk.value, parseUrl(url).value)
    {
      ghost var bms := db.bookmarks;
      var was := db.bookmarks[id].fk.value;
      RowIsCounted(refs, bms, db.keywords, ext, id);
      var place;
      status, place := PlaceUpdate(was, url);
      if status.Ok? {
        CountsRepoint(old(refs), bms, db.keywords, ext, id, place);
        db := db.(bookmarks := db.bookmarks[id := db.bookmarks[id].(fk := Some(place))]);
        CountedIsUsed(db.places, refs, db.bookmarks, db.keywords, ext, was);
      }
    }

    // -- permutation --

    /**
    `mozbm_pos_shift`: makes room for the row at `start` next to the row at `end0`, and says at
    which position. Nothing is shifted when the row is there already.
    */
    method PosShift(parent: RowId, start: int, end0: int, op: PermdOp) returns (result: ShiftResult, end: int)
      requires op != Swap
      modifies this`db
      ensures result.Failed? ==> db == old(db)
      ensures start != end0 && op != Other ==> !result.Failed?
      ensures !result.Failed? ==> start != end0 && op != Other
      ensures result.Failed? ==> result.errno == if start == end0 then EIO else EINVAL
      ensures !result.Failed? ==> end == Renumbered(op, start, end0, start)
      ensures result == Unchanged ==> end == start
      ensures !result.Failed? ==> db == old(db).(bookmarks := if result == Unchanged then old(db.bookmarks) else
        Shifted(old(db.bookmarks), parent, if start < end0 then start + 1 else end,
                if start < end0 then end else start - 1, if start < end0 then -1 else 1))
    {
      end := end0;
      if start == end {
        return Failed(EIO), end;
      }
      var lo, hi, diff;
      if start < end {
        if op == MoveBefore {
          end := end - 1;
          if end == start {
            return Unchanged, end;
          }
        } else if op != MoveAfter {
          return Failed(EINVAL), end;
        }
        lo, hi, diff := start + 1, end, 0;
      } else {
        if op == MoveAfter {
          end := end + 1;
          if end == start {
            return Unchanged, end;
          }
        } else if op != MoveBefore {
          return Failed(EINVAL), end;
        }
        lo, hi, diff := end, start - 1, 2;
      }
      db := db.(bookmarks := Shifted(db.bookmarks, parent, lo, hi, diff - 1));
      return ShiftDone, end;
    }

    method PosUpdate(id: RowId, pos: int)
      requires id in db.bookmarks
      modifies this`db
      ensures db == old(db).(bookmarks := old(db.bookmarks)[id := old(db.bookmarks)[id].(position := pos)])
    {
      db := db.(bookmarks := db.bookmarks[id := db.bookmarks[id].(position := pos)]);
    }

    /** `bookmark_permute`: the rows of the folder are renumbered, and nothing else changes. */
    method BookmarkPermute(parent: RowId, op: PermdOp, name1: string, name2: string)
      returns (status: Status, ghost b1: RowId, ghost b2: RowId)
      requires Valid()
      modifies this`db
      ensures Valid()
      ensures status.Err? ==> db == old(db)
      ensures status.Ok? <==>
        && ValidName(name1) && ValidName(name2)
        && (exists b :: Titled(old(db.bookmarks), parent, name1, b)) && (exists b :: Titled(old(db.bookmarks), parent, name2, b))
        && (name1 == name2 || op != Other)
      ensures status.Err? ==> status == Err(EINVAL) || status == Err(ENOENT)
      ensures status == Err(ENOENT) <==>
        && ValidName(name1) && ValidName(name2)
        && ((forall b :: !Titled(old(db.bookmarks), parent, name1, b)) || (forall b :: !Titled(old(db.bookmarks), parent, name2, b)))
      ensures status.Ok? ==>
        && FirstTitled(old(db.bookmarks), parent, name1, b1) && FirstTitled(old(db.bookmarks), parent, name2, b2)
        && if b1 == b2 then db == old(db)
           else op != Other && db == old(db).(bookmarks := RenumberedRows(old(db.bookmarks), parent, op, b1, b2))
    {
      b1, b2 := 0, 0;
      var saved := db;
      if ValidateFilename(name1) != FileNames.Valid || ValidateFilename(name2) != FileNames.Valid {
        status := Err(EINVAL);
        return;
      }
      var mb1 := Lookup(db.bookmarks, parent, name1);
      if mb1.None? {
        status := Err(ENOENT);
        return;
      }
      var mb2 := Lookup(db.bookmarks, parent, name2);
      if mb2.None? {
        status := Err(ENOENT);
        return;
      }
      b1, b2 := mb1.value, mb2.value;
      OnlyFirst(db.bookmarks, parent, name1, b1);
      if mb1 == mb2 {
        status := Ok;
        return;
      }
      var result := PermuteRows(parent, op, mb1.value, mb2.value);
      if result.Failed? {
        db := saved;
        status := Err(result.errno);
        return;
      }
      assert forall b :: b in saved.bookmarks <==> b in db.bookmarks;
      CountsSameFks(refs, saved.bookmarks, db.bookmarks, db.keywords, ext);
      status := Ok;
    }

    /** The updates of `bookmark_permute` for two different rows. */
    method PermuteRows(parent: RowId, op: PermdOp, b1: RowId, b2: RowId) returns (result: ShiftResult)
      requires Positioned(db.bookmarks) && Siblings2(db.bookmarks, parent, b1, b2)
      modifies this`db
      ensures result.Failed? <==> op == Other
      ensures result.Failed? ==> result.errno == EINVAL
      ensures !result.Failed? ==>
        && db == old(db).(bookmarks := RenumberedRows(old(db.bookmarks), parent, op, b1, b2))
        && Positioned(db.bookmarks)
    {
      RenumberedIfPermuted(db.bookmarks, parent, op, b1, b2);
      if op == Swap {
        SwapRows(parent, b1, b2);
        result := ShiftDone;
      } else {
        result := MoveRow(parent, op, b1, b2);
      }
    }

    method SwapRows(parent: RowId, b1: RowId, b2: RowId)
      requires Positioned(db.bookmarks) && Siblings2(db.bookmarks, parent, b1, b2)
      modifies this`db
      ensures db == old(db).(bookmarks := RenumberedRows(old(db.bookmarks), parent, Swap, b1, b2))
    {
      RenumberingSwap(db.bookmarks, parent, b1, b2);
      var pos1, pos2 := db.bookmarks[b1].position, db.bookmarks[b2].position;
      PosUpdate(b2, pos1);
      PosUpdate(b1, pos2);
    }

    method MoveRow(parent: RowId, op: PermdOp, b1: RowId, b2: RowId) returns (result: ShiftResult)
      requires Positioned(db.bookmarks) && Siblings2(db.bookmarks, parent, b1, b2) && op != Swap
      modifies this`db
      ensures result.Failed? <==> op == Other
      ensures result.Failed? ==> result.errno == EINVAL
      ensures !result.Failed? ==> db == old(db).(bookmarks := RenumberedRows(old(db.bookmarks), parent, op, b1, b2))
    {
      ghost var was := db.bookmarks;
      var pos1, pos2 := db.bookmarks[b1].position, db.bookmarks[b2].position;
      result, pos2 := PosShift(parent, pos1, pos2, op);
      if result.Failed? {
        return;
      }
      if result == Unchanged {
        RenumberingNothing(was, parent, op, b1, b2);
        return;
      }
      RenumberingShift(was, parent, op, b1, b2);
      PosUpdate(b1, pos2);
    }
  }

  lemma RenumberedIfPermuted(bms: Bookmarks, parent: RowId, op: PermdOp, b1: RowId, b2: RowId)
    requires Positioned(bms) && Siblings2(bms, parent, b1, b2)
    ensures op != Other ==> Positioned(RenumberedRows(bms, parent, op, b1, b2))
  {
    if op != Other {
      RenumberedStayPositioned(bms, parent, op, b1, b2);
    }
  }

  datatype ShiftResult = Failed(errno: Errno) | Unchanged | ShiftDone

  /** `UPDATE … SET position = position + d WHERE parent = ? AND position BETWEEN lo AND hi`. */
  function Shifted(bms: Bookmarks, parent: RowId, lo: int, hi: int, d: int): (r: Bookmarks)
  {
    map b | b in bms ::
      if bms[b].parent == parent && lo <= bms[b].position <= hi
      then bms[b].(position := bms[b].position + d) else bms[b]
  }

  /** The rows of one folder renumbered around rows `b1` and `b2`. */
  function RenumberedRows(bms: Bookmarks, parent: RowId, op: PermdOp, b1: RowId, b2: RowId): (r: Bookmarks)
    requires op != Other && b1 in bms && b2 in bms
  {
    map b | b in bms ::
      if bms[b].parent == parent
      then bms[b].(position := Renumbered(op, bms[b1].position, bms[b2].position, bms[b].position)) else bms[b]
  }

  ghost predicate Siblings2(bms: Bookmarks, parent: RowId, b1: RowId, b2: RowId)
  {
    && b1 in bms && b2 in bms && b1 != b2
    && bms[b1].parent == parent && bms[b2].parent == parent
  }

  lemma RenumberingNothing(bms: Bookmarks, parent: RowId, op: PermdOp, b1: RowId, b2: RowId)
    requires Positioned(bms) && Siblings2(bms, parent, b1, b2)
    requires op == MoveBefore || op == MoveAfter
    requires Renumbered(op, bms[b1].position, bms[b2].position, bms[b1].position) == bms[b1].position
    ensures RenumberedRows(bms, parent, op, b1, b2) == bms
  {
    var r := RenumberedRows(bms, parent, op, b1, b2);
    assert forall b :: b in bms ==> r[b] == bms[b];
  }

  /** Exchanging two positions is the renumbering of a swap. */
  lemma RenumberingSwap(bms: Bookmarks, parent: RowId, b1: RowId, b2: RowId)
    requires Positioned(bms) && Siblings2(bms, parent, b1, b2)
    ensures bms[b2 := bms[b2].(position := bms[b1].position)][b1 := bms[b1].(position := bms[b2].position)] ==
            RenumberedRows(bms, parent, Swap, b1, b2)
  {
    var p1, p2 := bms[b1].position, bms[b2].position;
    var now, r := bms[b2 := bms[b2].(position := p1)][b1 := bms[b1].(position := p2)], RenumberedRows(bms, parent, Swap, b1, b2);
    forall b | b in bms ensures now[b] == r[b] {
    }
  }

  /** What `mozbm_pos_shift` does to the rows of a folder. */
  function ShiftedFor(bms: Bookmarks, parent: RowId, op: PermdOp, p1: int, p2: int): (r: Bookmarks)
    requires op == MoveBefore || op == MoveAfter
  {
    var end := Renumbered(op, p1, p2, p1);
    Shifted(bms, parent, if p1 < p2 then p1 + 1 else end, if p1 < p2 then end else p1 - 1, if p1 < p2 then -1 else 1)
  }

  /** A row other than the one that moves is shifted as it is renumbered. */
  lemma ShiftedRow(bms: Bookmarks, parent: RowId, op: PermdOp, b1: RowId, b2: RowId, b: RowId)
    requires Positioned(bms) && Siblings2(bms, parent, b1, b2) && (op == MoveBefore || op == MoveAfter)
    requires b in bms && b != b1
    ensures ShiftedFor(bms, parent, op, bms[b1].position, bms[b2].position)[b] == RenumberedRows(bms, parent, op, b1, b2)[b]
  {
    if bms[b].parent == parent {
      assert bms[b].position != bms[b1].position;
    }
  }

  /** Shifting the rows between and then moving the row are the renumbering of a move. */
  lemma RenumberingShift(bms: Bookmarks, parent: RowId, op: PermdOp, b1: RowId, b2: RowId)
    requires Positioned(bms) && Siblings2(bms, parent, b1, b2) && (op == MoveBefore || op == MoveAfter)
    ensures var p1, p2 := bms[b1].position, bms[b2].position;
            var shifted := ShiftedFor(bms, parent, op, p1, p2);
            shifted[b1 := shifted[b1].(position := Renumbered(op, p1, p2, p1))] == RenumberedRows(bms, parent, op, b1, b2)
  {
    var p1, p2 := bms[b1].position, bms[b2].position;
    var shifted, r := ShiftedFor(bms, parent, op, p1, p2), RenumberedRows(bms, parent, op, b1, b2);
    var now := shifted[b1 := shifted[b1].(position := Renumbered(op, p1, p2, p1))];
    assert now.Keys == r.Keys;
    forall b | b in bms ensures now[b] == r[b] {
      if b != b1 {
        ShiftedRow(bms, parent, op, b1, b2, b);
      }
    }
  }

  lemma RenumberedStayPositioned(bms: Bookmarks, parent: RowId, op: PermdOp, b1: RowId, b2: RowId)
    requires Positioned(bms) && Siblings2(bms, parent, b1, b2) && op != Other
    ensures Positioned(RenumberedRows(bms, parent, op, b1, b2))
  {
    var r := RenumberedRows(bms, parent, op, b1, b2);
    var p1, p2 := bms[b1].position, bms[b2].position;
    forall a, b | a in r && b in r && a != b && r[a].parent == r[b].parent
      ensures r[a].position != r[b].position
    {
      RenumberedInjective(op, p1, p2, bms[a].position, bms[b].position);
    }
    forall b | b in r ensures 0 <= r[b].position <= INT64_MAX {
      RenumberedBounds(op, p1, p2, bms[b].position, INT64_MAX);
    }
  }

  // ---- the order of a folder --------------------------------------------

  /** `rows` lists the children of `parent`, each once, by increasing position. */
  ghost predicate InOrder(bms: Bookmarks, parent: RowId, rows: seq<RowId>)
  {
    && (forall k :: 0 <= k < |rows| ==> rows[k] in bms && bms[rows[k]].parent == parent)
    && (forall b :: b in bms && bms[b].parent == parent ==> b in rows)
    && (forall k, l :: 0 <= k < l < |rows| ==> bms[rows[k]].position < bms[rows[l]].position)
  }

  /** Permuting by position shifts orders the folder as the list edit does. */
  lemma PermuteIsListEdit(bms: Bookmarks, parent: RowId, rows: seq<RowId>, op: PermdOp, i: nat, j: nat)
    requires InOrder(bms, parent, rows) && op != Other
    requires i < |rows| && j < |rows| && i != j
    ensures InOrder(RenumberedRows(bms, parent, op, rows[i], rows[j]), parent, Permuted(rows, op, i, j))
  {
    var r := RenumberedRows(bms, parent, op, rows[i], rows[j]);
    var rows' := Permuted(rows, op, i, j);
    PermutedSameElements(rows, op, i, j);
    forall k | 0 <= k < |rows'| ensures rows'[k] in r && r[rows'[k]].parent == parent {
      PermutedAt(op, rows, i, j, k);
    }
    forall k, l | 0 <= k < l < |rows'| ensures r[rows'[k]].position < r[rows'[l]].position {
      PermutedPairInOrder(bms, parent, rows, op, i, j, k, l);
    }
  }

  lemma PermutedPairInOrder(bms: Bookmarks, parent: RowId, rows: seq<RowId>, op: PermdOp, i: nat, j: nat, k: nat, l: nat)
    requires InOrder(bms, parent, rows) && op != Other
    requires i < |rows| && j < |rows| && i != j
    requires k < l < |Permuted(rows, op, i, j)|
    ensures |Permuted(rows, op, i, j)| == |rows|
    ensures var r, rows' := RenumberedRows(bms, parent, op, rows[i], rows[j]), Permuted(rows, op, i, j);
            rows'[k] in r && rows'[l] in r && r[rows'[k]].position < r[rows'[l]].position
  {
    PermutedAt(op, rows, i, j, k);
    PermutedAt(op, rows, i, j, l);
    var m, n := Source(op, i, j, k), Source(op, i, j, l);
    RenumberedSources(op, bms[rows[i]].position, bms[rows[j]].position, bms[rows[m]].position, bms[rows[n]].position, i, j, m, n, k, l);
  }

  /** A bookmark with a title. */
  predicate IsUrl(bms: Bookmarks, id: RowId)
  {
    id in bms && bms[id].fk.Some? && bms[id].title.Some?
  }

  /**
  The place can be filed under the tag: it is not yet, there is room, and a bookmark of it, or of
  another place under the tag, has the name.
  */
  ghost predicate CanTag(bms: Bookmarks, parent: RowId, place: PlaceId, name: string)
  {
    && (forall c :: !TagEntry(bms, parent, place, c)) && CanInsert(bms, parent)
    && (TagHolds(bms, parent, name) || exists b :: b in bms && bms[b].title == Some(name) && bms[b].fk == Some(place))
  }

  /** Which names a tag has once the place is filed under it. */
  lemma TagHoldsNow(bms: Bookmarks, parent: RowId, name: string, place: PlaceId, entry: RowId, row: Row)
    requires entry !in bms && row.parent == parent && row.title == None && row.fk == Some(place)
    ensures TagHolds(bms[entry := row], parent, name) <==>
            TagHolds(bms, parent, name) || exists b :: b in bms && bms[b].title == Some(name) && bms[b].fk == Some(place)
  {
    var now := bms[entry := row];
    if b :| b in bms && bms[b].title == Some(name) && bms[b].fk == Some(place) {
      assert TagEntry(now, parent, place, entry);
      assert Tagged(now, parent, name, b);
    }
    if id :| id in bms && Tagged(bms, parent, name, id) {
      var b :| b in bms && TagEntry(bms, parent, bms[id].fk.value, b);
      assert TagEntry(now, parent, now[id].fk.value, b);
      assert Tagged(now, parent, name, id);
    }
    if id :| id in now && Tagged(now, parent, name, id) {
      var b :| b in now && TagEntry(now, parent, now[id].fk.value, b);
      if b != entry {
        assert TagEntry(bms, parent, bms[id].fk.value, b);
        assert Tagged(bms, parent, name, id);
      }
    }
  }

  predicate TagEntry(bms: Bookmarks, parent: RowId, place: PlaceId, b: RowId)
  {
    b in bms && bms[b].parent == parent && bms[b].fk == Some(place)
  }

  /** Bookmark `id` has this title, and its place has an entry under the tag. */
  predicate Tagged(bms: Bookmarks, parent: RowId, name: string, id: RowId)
  {
    && id in bms && bms[id].title == Some(name) && bms[id].fk.Some?
    && exists b :: b in bms && TagEntry(bms, parent, bms[id].fk.value, b)
  }

  predicate TagHolds(bms: Bookmarks, parent: RowId, name: string)
  {
    exists id :: id in bms && Tagged(bms, parent, name, id)
  }
}
