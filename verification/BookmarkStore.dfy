/**
The bookmark store of the Chromium backend in title mode: the operations on the loaded tree,
how they keep the indexes, the ids and the checksum, and how the store is saved.
*/
module BookmarkStore {
  import opened Basics
  import opened FileNames
  import opened Siblings
  import opened BookmarkIndex
  import opened BookmarkReplace
  import W = TreeWalk
  import opened Checksums

  datatype Status = Ok | EPERM | ESTALE | ENOTDIR | EISDIR | EEXIST | ENOENT | ENOTEMPTY | EINVAL | EIO | ENOATTR

  /** How far memory and file differ: not at all, in time stamps only, or in checksummed data. */
  datatype Dirty = Clean | Metadata | Data

  // ---- the file that a tree is saved as ---------------------------------

  /** The part of the tree below `x`, down to `d` levels of folders. */
  function TreeOf(nodes: map<Id, Node>, x: Id, d: nat): (r: W.Node)
    decreases d, 0, 0
  {
    if x !in nodes then W.Url(None, None, None, "")
    else
      var n := nodes[x];
      if n.kids.None? then W.Url(Some(x), Some(n.guid), Some(n.name), n.url)
      else W.Folder(Some(x), Some(n.guid), Some(n.name), if d == 0 then [] else TreesOf(nodes, n.kids.value, d - 1))
  }

  function TreesOf(nodes: map<Id, Node>, kids: seq<Id>, d: nat): (r: seq<W.Node>)
    ensures |r| == |kids|
    decreases d, 1, |kids|
  {
    if kids == [] then [] else [TreeOf(nodes, kids[0], d)] + TreesOf(nodes, kids[1..], d)
  }

  /** Cutting off deep folders loses nothing that a walk could reach: it makes the walk fail. */
  lemma {:induction false} DeeperIsSame(nodes: map<Id, Node>, x: Id, d: nat, e: nat)
    requires d <= e
    ensures W.Depth(TreeOf(nodes, x, d)) <= d || W.Depth(TreeOf(nodes, x, e)) <= d ==> TreeOf(nodes, x, e) == TreeOf(nodes, x, d)
    decreases d, 0, 0
  {
    if x in nodes && nodes[x].kids.Some? && d > 0 {
      DeeperAllSame(nodes, nodes[x].kids.value, d - 1, e - 1);
    }
  }

  lemma {:induction false} DeeperAllSame(nodes: map<Id, Node>, kids: seq<Id>, d: nat, e: nat)
    requires d <= e
    ensures W.DepthAll(TreesOf(nodes, kids, d)) <= d || W.DepthAll(TreesOf(nodes, kids, e)) <= d ==>
              TreesOf(nodes, kids, e) == TreesOf(nodes, kids, d)
    decreases d, 1, |kids|
  {
    if kids != [] {
      var a, b := TreesOf(nodes, kids, d), TreesOf(nodes, kids, e);
      assert a[1..] == TreesOf(nodes, kids[1..], d) && b[1..] == TreesOf(nodes, kids[1..], e);
      DeeperIsSame(nodes, kids[0], d, e);
      DeeperAllSame(nodes, kids[1..], d, e);
    }
  }

  /** The roots that are saved and checksummed. */
  function Forest(nodes: map<Id, Node>): (r: seq<W.Node>)
  {
    if ROOT_ID in nodes && nodes[ROOT_ID].kids.Some?
    then TreesOf(nodes, nodes[ROOT_ID].kids.value, W.MAX_NODE_ITER_DEPTH) else []
  }

  // ---- what is asked of a folder ----------------------------------------

  predicate Visible(t: Tree, p: Id)
  {
    p in t.ids && t.ids[p].name.Some?
  }

  /** The checks that every operation on the children of a folder starts with. */
  function FolderStatus(t: Tree, p: Id): (r: Status)
    ensures r == Ok <==> p != ROOT_ID && Visible(t, p) && IsFolder(t, p)
    ensures r == EPERM <==> p == ROOT_ID
    ensures r == ESTALE <==> p != ROOT_ID && !Visible(t, p)
    ensures r == ENOTDIR <==> p != ROOT_ID && Visible(t, p) && !IsFolder(t, p)
  {
    if p == ROOT_ID then EPERM
    else if !Visible(t, p) then ESTALE
    else if !IsFolder(t, p) then ENOTDIR
    else Ok
  }

  /** Whether a node with these children can be removed as a folder or as a bookmark. */
  function Removable(kids: Option<seq<Id>>, isDir: bool): (r: Status)
    ensures r == Ok <==> kids == if isDir then Some([]) else None
    ensures r == ENOTDIR <==> isDir && kids.None?
    ensures r == EISDIR <==> !isDir && kids.Some?
    ensures r == ENOTEMPTY <==> isDir && kids.Some? && kids.value != []
  {
    if kids.None? then (if isDir then ENOTDIR else Ok)
    else if !isDir then EISDIR
    else if kids.value != [] then ENOTEMPTY
    else Ok
  }

  lemma RaisedOk(t: Tree, rank: map<Id, nat>, max: Id)
    requires TreeOk(t) && Ranked(t, rank) && t.maxId <= max
    ensures TreeOk(t.(maxId := max)) && Ranked(t.(maxId := max), rank)
  {
    var r := t.(maxId := max);
    forall p | IsFolder(r, p) ensures KidsOk(r, p) {
      assert KidsOk(t, p);
    }
    forall x | x in r.ids && x != ROOT_ID ensures HasPlace(r, x) && Findable(r, x) {
      assert HasPlace(t, x) && Findable(t, x);
    }
    forall p, n | (p, n) in r.assoc ensures LeadsTo(r, p, n) {
      assert LeadsTo(t, p, n);
    }
  }

  lemma CreatedGood(t: Tree, rank: map<Id, nat>, parent: Id, id: Id, name: string, guid: string, isDir: bool) returns (rank': map<Id, nat>)
    requires TreeOk(t) && Ranked(t, rank) && IsFolder(t, parent) && id == t.maxId + 1
    requires (parent, name) !in t.assoc
    ensures id !in t.nodes && Ranked(Created(t, parent, id, name, guid, isDir), rank')
    ensures TreeOk(Created(t, parent, id, name, guid, isDir)) <==> guid !in t.guids
  {
    CreatedLinked(t, parent, id, name, guid, isDir);
    CreatedGuidsIff(t, parent, id, name, guid, isDir);
    if guid !in t.guids {
      CreatedOk(t, parent, id, name, guid, isDir);
    }
    CreatedRanked(t, rank, parent, id, name, guid, isDir);
    rank' := rank[id := rank[parent] + 1];
  }

  lemma DeletedGood(t: Tree, rank: map<Id, nat>, x: Id)
    requires TreeOk(t) && Ranked(t, rank)
    requires x in t.ids && x != ROOT_ID && t.ids[x].name.Some?
    requires t.nodes[x].kids.None? || t.nodes[x].kids == Some([])
    ensures HasPlace(t, x) && TreeOk(Deleted(t, x)) && Ranked(Deleted(t, x), rank)
  {
    DeletedOk(t, x);
  }

  /** `r` differs from `t` in one node, which keeps its name and its children, and in the GUIDs. */
  ghost predicate SameShape(t: Tree, r: Tree, x: Id)
  {
    && x in t.nodes && x in r.nodes && r == t.(nodes := t.nodes[x := r.nodes[x]], guids := r.guids)
    && r.nodes[x].name == t.nodes[x].name && r.nodes[x].kids == t.nodes[x].kids
  }

  lemma SameShapeLinked(t: Tree, r: Tree, x: Id)
    requires Linked(t) && SameShape(t, r, x)
    ensures Linked(r)
  {
    forall p | IsFolder(r, p) ensures KidsOk(r, p) {
      assert IsFolder(t, p) && KidsOk(t, p);
    }
    forall y | y in r.ids && y != ROOT_ID ensures HasPlace(r, y) {
      assert HasPlace(t, y);
    }
  }

  lemma SameShapeNamed(t: Tree, r: Tree, x: Id)
    requires Named(t) && SameShape(t, r, x)
    ensures Named(r)
  {
    forall y | y in r.ids && y != ROOT_ID ensures Findable(r, y) {
      assert Findable(t, y);
    }
    forall p, m | (p, m) in r.assoc ensures LeadsTo(r, p, m) {
      assert LeadsTo(t, p, m);
    }
  }

  /** The tree with a new URL for `x`. */
  function WithUrl(t: Tree, x: Id, url: string): (r: Tree)
    requires x in t.nodes
  {
    t.(nodes := t.nodes[x := t.nodes[x].(url := url)], guids := t.guids)
  }

  /** The tree with a new GUID for `x`. */
  function WithGuid(t: Tree, x: Id, guid: string): (r: Tree)
    requires x in t.nodes
  {
    t.(nodes := t.nodes[x := t.nodes[x].(guid := guid)], guids := (t.guids - {t.nodes[x].guid})[guid := x])
  }

  lemma WithUrlGood(t: Tree, rank: map<Id, nat>, x: Id, url: string)
    requires TreeOk(t) && Ranked(t, rank) && x in t.nodes
    ensures TreeOk(WithUrl(t, x, url)) && Ranked(WithUrl(t, x, url), rank)
  {
    SameShapeLinked(t, WithUrl(t, x, url), x);
    SameShapeNamed(t, WithUrl(t, x, url), x);
  }

  lemma WithGuidGood(t: Tree, rank: map<Id, nat>, x: Id, guid: string)
    requires TreeOk(t) && Ranked(t, rank) && x in t.nodes && guid !in t.guids
    ensures TreeOk(WithGuid(t, x, guid)) && Ranked(WithGuid(t, x, guid), rank)
  {
    WithGuidGuids(t, x, guid);
    SameShapeLinked(t, WithGuid(t, x, guid), x);
    SameShapeNamed(t, WithGuid(t, x, guid), x);
  }

  lemma WithGuidGuids(t: Tree, x: Id, guid: string)
    requires GuidsOk(t) && x in t.nodes && guid !in t.guids
    ensures GuidsOk(WithGuid(t, x, guid))
  {
    var r := WithGuid(t, x, guid);
    forall y | y in r.nodes ensures r.nodes[y].guid in r.guids && r.guids[r.nodes[y].guid] == y {
      if y != x {
        assert t.nodes[y].guid != t.nodes[x].guid;
      }
    }
  }

  /** The tree with the children of `p` reordered. */
  function Reordered(t: Tree, p: Id, op: PermdOp, x: Id, y: Id): (r: Tree)
    requires IsFolder(t, p) && x in t.nodes[p].kids.value && y in t.nodes[p].kids.value && x != y && op != Other
  {
    var kids := t.nodes[p].kids.value;
    WithKids(t, p, Permuted(kids, op, IndexOf(kids, x), IndexOf(kids, y)))
  }

  lemma ReorderedGood(t: Tree, rank: map<Id, nat>, p: Id, op: PermdOp, x: Id, y: Id)
    requires TreeOk(t) && Ranked(t, rank)
    requires IsFolder(t, p) && x in t.nodes[p].kids.value && y in t.nodes[p].kids.value && x != y && op != Other
    ensures TreeOk(Reordered(t, p, op, x, y)) && Ranked(Reordered(t, p, op, x, y), rank)
  {
    assert KidsOk(t, p);
    var kids := t.nodes[p].kids.value;
    PermutedDistinct(kids, op, IndexOf(kids, x), IndexOf(kids, y));
    PermutedSameElements(kids, op, IndexOf(kids, x), IndexOf(kids, y));
    PermutedOk(t, p, Permuted(kids, op, IndexOf(kids, x), IndexOf(kids, y)));
  }

  lemma IndexIs(s: seq<Id>, x: Id, k: nat)
    requires k < |s| && s[k] == x && forall i, j :: 0 <= i < j < |s| ==> s[i] != s[j]
    ensures IndexOf(s, x) == k
  {
  }

  /** `now` is `was` with `x` next to `y` on the side asked for, or with the two exchanged. */
  ghost predicate IsNextTo(was: seq<Id>, now: seq<Id>, op: PermdOp, x: Id, y: Id)
    requires x in was && y in was
  {
    && x in now && y in now
    && var i, j := IndexOf(now, x), IndexOf(now, y);
    match op
    case MoveBefore => i + 1 == j && RemoveAt(now, i) == RemoveAt(was, IndexOf(was, x))
    case MoveAfter => i == j + 1 && RemoveAt(now, i) == RemoveAt(was, IndexOf(was, x))
    case Swap =>
      && i == IndexOf(was, y) && j == IndexOf(was, x) && |now| == |was|
      && forall k :: 0 <= k < |was| && k != i && k != j ==> now[k] == was[k]
    case Other => now == was
  }

  lemma PermutedNextTo(kids: seq<Id>, op: PermdOp, x: Id, y: Id)
    requires x in kids && y in kids && x != y && op != Other && forall i, j :: 0 <= i < j < |kids| ==> kids[i] != kids[j]
    ensures IsNextTo(kids, Permuted(kids, op, IndexOf(kids, x), IndexOf(kids, y)), op, x, y)
  {
    var i, j := IndexOf(kids, x), IndexOf(kids, y);
    var now := Permuted(kids, op, i, j);
    PermutedDistinct(kids, op, i, j);
    if op == Swap {
      PermutedIsSwapped(kids, i, j);
      IndexIs(now, x, j);
      IndexIs(now, y, i);
    } else {
      PermutedIsNextTo(kids, op, i, j);
      var at := Target(op, i, j);
      IndexIs(now, x, at);
      IndexIs(now, y, if op == MoveBefore then at + 1 else at - 1);
    }
  }

  /** A move after `y` leaves `x` where it is. */
  ghost predicate RightAfter(kids: seq<Id>, op: PermdOp, x: Id, y: Id)
  {
    op == MoveAfter && x in kids && y in kids && IndexOf(kids, x) == IndexOf(kids, y) + 1
  }

  /** What a reordering is to its callers. */
  lemma ReorderedIsSeen(t: Tree, p: Id, op: PermdOp, x: Id, y: Id)
    requires TreeOk(t)
    requires IsFolder(t, p) && x in t.nodes[p].kids.value && y in t.nodes[p].kids.value && x != y && op != Other
    ensures var r := Reordered(t, p, op, x, y);
            && r == t.(nodes := t.nodes[p := r.nodes[p]]) && IsFolder(r, p) && r.nodes[p] == t.nodes[p].(kids := r.nodes[p].kids)
            && IsNextTo(t.nodes[p].kids.value, r.nodes[p].kids.value, op, x, y)
  {
    assert KidsOk(t, p);
    PermutedNextTo(t.nodes[p].kids.value, op, x, y);
  }

  // ---- listing ----------------------------------------------------------

  function ListedOne(t: Tree, x: Id): (r: seq<Id>)
  {
    if Visible(t, x) then [x] else []
  }

  lemma ListedFirst(t: Tree, kids: seq<Id>)
    requires kids != []
    ensures Listed(t, kids) == ListedOne(t, kids[0]) + Listed(t, kids[1..])
  {
  }

  lemma {:induction false} ListedAre(t: Tree, kids: seq<Id>, x: Id)
    ensures x in Listed(t, kids) <==> x in kids && Visible(t, x)
  {
    if kids != [] {
      ListedAre(t, kids[1..], x);
    }
  }

  /** A folder lists exactly the nodes that can be looked up in it by some name. */
  lemma ListedIsLookup(t: Tree, p: Id, x: Id)
    requires TreeOk(t) && IsFolder(t, p)
    ensures x in Listed(t, t.nodes[p].kids.value) <==> exists n :: LookupName(t, p, n) == Some(x)
  {
    var kids := t.nodes[p].kids.value;
    ListedAre(t, kids, x);
    if x in kids && Visible(t, x) {
      LookupIsScan(t, p, t.ids[x].name.value);
    }
    forall n | LookupName(t, p, n) == Some(x) ensures x in kids && Visible(t, x) {
      LookupIsScan(t, p, n);
    }
  }

  /** The loop of `bookmark_list`: the entries taken, and the offset to go on from. */
  method ListFrom(t: Tree, kids: seq<Id>, off: nat, room: nat) returns (entries: seq<Id>, next: nat)
    ensures off <= next && |entries| <= room
    ensures off <= |kids| ==> next <= |kids| && entries + Listed(t, kids[next..]) == Listed(t, kids[off..])
    ensures off > |kids| ==> entries == []
    ensures off <= |kids| && |entries| < room ==> Listed(t, kids[next..]) == []
  {
    entries, next := [], off;
    var idx := off;
    while idx < |kids|
      invariant off <= next <= idx && (off <= |kids| ==> idx <= |kids|)
      invariant off > |kids| ==> entries == []
      invariant |entries| <= room
      invariant off <= |kids| ==> Sofar(t, kids, off, next, idx, entries)
    {
      var x := kids[idx];
      SofarNext(t, kids, off, next, idx, entries);
      if Visible(t, x) {
        if |entries| == room {
          return;
        }
        entries, next := entries + [x], idx + 1;
      }
      idx := idx + 1;
    }
  }

  /** The children before `idx` are done: those listed were taken, the last one before `next`. */
  ghost predicate Sofar(t: Tree, kids: seq<Id>, off: nat, next: nat, idx: nat, entries: seq<Id>)
  {
    && off <= next <= idx <= |kids|
    && entries + Listed(t, kids[idx..]) == Listed(t, kids[off..])
    && Listed(t, kids[next..]) == Listed(t, kids[idx..])
  }

  lemma SofarNext(t: Tree, kids: seq<Id>, off: nat, next: nat, idx: nat, entries: seq<Id>)
    requires Sofar(t, kids, off, next, idx, entries) && idx < |kids|
    ensures Visible(t, kids[idx]) ==> Sofar(t, kids, off, idx + 1, idx + 1, entries + [kids[idx]])
    ensures !Visible(t, kids[idx]) ==> Sofar(t, kids, off, next, idx + 1, entries)
  {
    ListedFirst(t, kids[idx..]);
    assert kids[idx..][1..] == kids[idx + 1..];
    var rest := Listed(t, kids[idx + 1..]);
    if Visible(t, kids[idx]) {
      assert entries + ([kids[idx]] + rest) == entries + [kids[idx]] + rest;
    } else {
      assert [] + rest == rest;
    }
  }

  // ---- the store --------------------------------------------------------

  datatype File = File(roots: seq<W.Node>, checksum: string)

  class Store {
    const texts: Texts
    const isUtf8: string -> bool
    var tree: Tree
    var dirty: Dirty
    var checksum: string
    var file: File
    ghost var rank: map<Id, nat>
    ghost const sum: map<Id, Node> -> Option<string>
    /** The checksum in memory is one that was right when the file was loaded, or computed since. */
    ghost var trusted: bool

    /**
    Indexes and tree agree; unless data changed the checksum is that of the tree if and only if
    it was at load or was computed since; unless anything changed the file is what would be saved.
    */
    ghost predicate Valid()
      reads this
    {
      && TreeOk(tree) && Ranked(tree, rank)
      && (dirty != Data ==> (trusted <==> Summed(tree.nodes))) && (dirty == Clean ==> Saved(tree.nodes))
    }

    ghost predicate Saved(nodes: map<Id, Node>)
      reads this`file, this`checksum
    {
      file == File(Forest(nodes), checksum)
    }

    ghost predicate Summed(nodes: map<Id, Node>)
      reads this`checksum
    {
      sum(nodes) == Some(checksum)
    }

    /** `sum` is the checksum of the file that nodes are saved as. */
    ghost predicate SumIsChecksum()
    {
      forall nodes {:trigger sum(nodes)} :: sum(nodes) == ChecksumOf(texts, Forest(nodes))
    }

    /** A store just loaded, whether or not the checksum of the file matches. */
    constructor (texts: Texts, isUtf8: string -> bool, tree: Tree, file: File, ghost rank: map<Id, nat>)
      requires TreeOk(tree) && Ranked(tree, rank)
      requires file.roots == Forest(tree.nodes)
      ensures Valid() && SumIsChecksum() && this.tree == tree && this.file == file && dirty == Clean
      ensures this.texts == texts && this.isUtf8 == isUtf8
      ensures trusted <==> ChecksumOf(texts, file.roots) == Some(file.checksum)
    {
      this.texts, this.isUtf8 := texts, isUtf8;
      sum := nodes => ChecksumOf(texts, Forest(nodes));
      this.tree, this.file, this.rank := tree, file, rank;
      checksum, dirty := file.checksum, Clean;
      trusted := ChecksumOf(texts, file.roots) == Some(file.checksum);
      new;
      assert sum(tree.nodes) == ChecksumOf(texts, file.roots);
    }

    /** `bookmark_lookup`. */
    method Lookup(id: Id, name: Option<string>) returns (r: Status, x: Id)
      requires Valid()
      ensures r == Ok <==> Visible(tree, id) && (name.Some? ==> IsFolder(tree, id) && exists y :: Child(id, name.value, y))
      ensures r == Ok && name.None? ==> x == id
      ensures r == Ok && name.Some? ==> Child(id, name.value, x)
      ensures r == ESTALE <==> !Visible(tree, id)
      ensures r == ENOTDIR <==> Visible(tree, id) && name.Some? && !IsFolder(tree, id)
      ensures r == Ok || r == ESTALE || r == ENOTDIR || r == ENOENT
    {
      x := id;
      if !Visible(tree, id) {
        return ESTALE, x;
      }
      if name.None? {
        return Ok, x;
      }
      if !IsFolder(tree, id) {
        return ENOTDIR, x;
      }
      LookupIsScan(tree, id, name.value);
      match LookupName(tree, id, name.value) {
        case None =>
          assert forall y :: !Child(id, name.value, y);
          return ENOENT, x;
        case Some(y) =>
          assert Child(id, name.value, y);
          return Ok, y;
      }
    }

    /** A scan of the children array finds `x` under `name`. */
    ghost predicate Child(p: Id, name: string, x: Id)
      reads this
    {
      IsFolder(tree, p) && x in tree.nodes[p].kids.value && x in tree.ids && tree.ids[x].name == Some(name)
    }

    /**
    `bookmark_list` from offset `off`, for a callback that takes `room` entries. The entries
    together with what a listing from the last offset gives are what a listing from `off` gives.
    */
    method List(id: Id, off: nat, room: nat) returns (r: Status, entries: seq<Id>, next: nat)
      requires Valid()
      ensures r == Ok <==> Visible(tree, id) && IsFolder(tree, id)
      ensures r == ESTALE <==> !Visible(tree, id)
      ensures r == ENOTDIR <==> Visible(tree, id) && !IsFolder(tree, id)
      ensures r == Ok ==>
        var kids := tree.nodes[id].kids.value;
        && off <= next && |entries| <= room
        && (off <= |kids| ==> next <= |kids| && entries + Listed(tree, kids[next..]) == Listed(tree, kids[off..]))
        && (off > |kids| ==> entries == [])
        && (|entries| < room && off <= |kids| ==> Listed(tree, kids[next..]) == [])
    {
      entries, next := [], off;
      if !Visible(tree, id) {
        return ESTALE, entries, next;
      }
      if !IsFolder(tree, id) {
        return ENOTDIR, entries, next;
      }
      entries, next := ListFrom(tree, tree.nodes[id].kids.value, off, room);
      return Ok, entries, next;
    }

    /**
    `bookmark_create`. The id is new: no node of this load had it. The GUID is drawn at random, and
    used even if another node has it; that alone breaks an index.
    */
    method Create(parent: Id, name: string, isDir: bool, guid: string) returns (r: Status, id: Id)
      requires Valid()
      modifies this`tree, this`dirty, this`rank
      ensures Valid() <==> r != Ok || guid !in old(tree).guids
      ensures r == Ok <==>
        && FolderStatus(old(tree), parent) == Ok && (parent, name) !in old(tree).assoc
        && old(tree).maxId < MAX_ID && isUtf8(name)
      ensures FolderStatus(old(tree), parent) != Ok ==> r == FolderStatus(old(tree), parent)
      ensures r == EEXIST <==> FolderStatus(old(tree), parent) == Ok && (parent, name) in old(tree).assoc
      ensures r == EEXIST ==> LookupName(tree, parent, name) == Some(id)
      ensures r == EIO <==>
        FolderStatus(old(tree), parent) == Ok && (parent, name) !in old(tree).assoc && old(tree).maxId >= MAX_ID
      ensures FolderStatus(old(tree), parent) == Ok ==> r == Ok || r == EEXIST || r == EIO || r == EPERM
      ensures r == Ok ==> id == old(tree).maxId + 1 && id !in old(tree).nodes && IsFolder(old(tree), parent)
      ensures r == Ok ==> tree == Created(old(tree), parent, id, name, guid, isDir) && dirty == Data
      ensures r != Ok ==> tree == old(tree).(maxId := tree.maxId) && dirty == old(dirty)
      ensures tree.maxId == old(tree).maxId +
        if FolderStatus(old(tree), parent) == Ok && (parent, name) !in old(tree).assoc && old(tree).maxId < MAX_ID then 1 else 0
    {
      id := ROOT_ID;
      r := FolderStatus(tree, parent);
      if r != Ok {
        return;
      }
      if (parent, name) in tree.assoc {
        return EEXIST, tree.assoc[(parent, name)];
      }
      if tree.maxId + 1 > MAX_ID {
        return EIO, id;
      }
      id := tree.maxId + 1;
      if !isUtf8(name) {
        RaisedOk(tree, rank, id);
        tree := tree.(maxId := id);
        return EPERM, id;
      }
      Add(parent, id, name, isDir, guid);
      return Ok, id;
    }

    /** The new node goes to the end of its folder and into the indexes. */
    method Add(parent: Id, id: Id, name: string, isDir: bool, guid: string)
      requires Valid() && IsFolder(tree, parent) && (parent, name) !in tree.assoc
      requires id == tree.maxId + 1
      modifies this`tree, this`dirty, this`rank
      ensures id !in old(tree).nodes && (Valid() <==> guid !in old(tree).guids)
      ensures tree == Created(old(tree), parent, id, name, guid, isDir) && dirty == Data
    {
      rank := CreatedGood(tree, rank, parent, id, name, guid, isDir);
      tree := Created(tree, parent, id, name, guid, isDir);
      dirty := Data;
    }

    /** `bookmark_delete`. */
    method Delete(parent: Id, name: string, isDir: bool) returns (r: Status)
      requires Valid()
      modifies this`tree, this`dirty
      ensures Valid()
      ensures var t := old(tree);
        r == Ok <==>
          && FolderStatus(t, parent) == Ok && (parent, name) in t.assoc && t.assoc[(parent, name)] in t.nodes
          && t.nodes[t.assoc[(parent, name)]].kids == if isDir then Some([]) else None
      ensures r == Ok ==>
        var x := old(tree).assoc[(parent, name)];
        && x in old(tree).ids && HasPlace(old(tree), x) && x in old(tree).nodes && old(tree).ids[x].name.Some?
        && tree == Deleted(old(tree), x) && dirty == Data
      ensures r != Ok ==> tree == old(tree) && dirty == old(dirty)
      ensures FolderStatus(old(tree), parent) != Ok ==> r == FolderStatus(old(tree), parent)
      ensures r == ENOENT <==> FolderStatus(old(tree), parent) == Ok && (parent, name) !in old(tree).assoc
      ensures FolderStatus(old(tree), parent) == Ok && (parent, name) in old(tree).assoc ==>
        var x := old(tree).assoc[(parent, name)];
        x in old(tree).nodes && r == Removable(old(tree).nodes[x].kids, isDir)
    {
      r := FolderStatus(tree, parent);
      if r != Ok {
        return;
      }
      if (parent, name) !in tree.assoc {
        return ENOENT;
      }
      assert LeadsTo(tree, parent, name);
      var x := tree.assoc[(parent, name)];
      if isDir {
        if tree.nodes[x].kids.None? {
          return ENOTDIR;
        }
        if tree.nodes[x].kids.value != [] {
          return ENOTEMPTY;
        }
      } else if tree.nodes[x].kids.Some? {
        return EISDIR;
      }
      DeletedGood(tree, rank, x);
      tree := Deleted(tree, x);
      dirty := Data;
      return Ok;
    }

    /** `bookmark_permute`. */
    method Permute(parent: Id, op: PermdOp, name1: string, name2: string) returns (r: Status)
      requires Valid()
      modifies this`tree, this`dirty
      ensures Valid()
      ensures r == Ok ==>
        var t := old(tree);
        && IsFolder(t, parent) && (parent, name1) in t.assoc && (parent, name2) in t.assoc
        && (name1 == name2 ==> tree == t)
        && (name1 != name2 ==>
              var x, y := t.assoc[(parent, name1)], t.assoc[(parent, name2)];
              && op != Other && x != y && x in t.nodes[parent].kids.value && y in t.nodes[parent].kids.value
              && tree == Reordered(t, parent, op, x, y))
      ensures r == Ok <==>
        && FolderStatus(old(tree), parent) == Ok && ValidName(name1) && ValidName(name2)
        && (parent, name1) in old(tree).assoc && (parent, name2) in old(tree).assoc && (name1 == name2 || op != Other)
      ensures r != Ok ==> tree == old(tree) && dirty == old(dirty)
      ensures parent == ROOT_ID ==> r == EPERM
      ensures parent != ROOT_ID && !(ValidName(name1) && ValidName(name2)) ==> r == EINVAL
      ensures ValidName(name1) && ValidName(name2) && FolderStatus(old(tree), parent) != Ok ==> r == FolderStatus(old(tree), parent)
      ensures r == ENOENT <==>
        && FolderStatus(old(tree), parent) == Ok && ValidName(name1) && ValidName(name2)
        && !((parent, name1) in old(tree).assoc && (parent, name2) in old(tree).assoc)
      ensures FolderStatus(old(tree), parent) == Ok ==> r == Ok || r == EINVAL || r == ENOENT
      ensures r == Ok ==> dirty == if Untouched(old(tree), parent, op, name1, name2) then old(dirty) else Data
    {
      if parent == ROOT_ID {
        return EPERM;
      }
      if ValidateFilename(name1) != FileNames.Valid || ValidateFilename(name2) != FileNames.Valid {
        return EINVAL;
      }
      r := FolderStatus(tree, parent);
      if r != Ok {
        return;
      }
      if (parent, name1) !in tree.assoc || (parent, name2) !in tree.assoc {
        return ENOENT;
      }
      var x, y := tree.assoc[(parent, name1)], tree.assoc[(parent, name2)];
      TwoNames(tree, parent, name1, name2);
      if x == y {
        return Ok;
      }
      r := Reorder(parent, op, x, y);
    }

    /** Nothing is to be done: the names are the same, or the first node is right after the second already. */
    ghost predicate Untouched(t: Tree, parent: Id, op: PermdOp, name1: string, name2: string)
      requires (parent, name1) in t.assoc && (parent, name2) in t.assoc
    {
      name1 == name2 || (IsFolder(t, parent) && RightAfter(t.nodes[parent].kids.value, op, t.assoc[(parent, name1)], t.assoc[(parent, name2)]))
    }

    /** The array edit. An edit that changes nothing leaves the store as clean as it was. */
    method Reorder(parent: Id, op: PermdOp, x: Id, y: Id) returns (r: Status)
      requires Valid() && IsFolder(tree, parent) && x != y
      requires x in tree.nodes[parent].kids.value && y in tree.nodes[parent].kids.value
      modifies this`tree, this`dirty
      ensures Valid()
      ensures r == (if op == Other then EINVAL else Ok)
      ensures op != Other ==> tree == Reordered(old(tree), parent, op, x, y)
      ensures op == Other ==> tree == old(tree)
      ensures dirty == if op == Other || RightAfter(old(tree).nodes[parent].kids.value, op, x, y) then old(dirty) else Data
    {
      var children := tree.nodes[parent].kids.value;
      var idx1, idx2 := IndexOf(children, x), IndexOf(children, y);
      var ok, result := PermuteArray(children, op, idx1, idx2);
      if !ok {
        return EINVAL;
      }
      if op == MoveAfter && idx1 == idx2 + 1 {
        RemoveThenInsert(children, idx1);
        assert WithKids(tree, parent, children) == tree;
        return Ok;
      }
      ReorderedGood(tree, rank, parent, op, x, y);
      Install(WithKids(tree, parent, result));
      return Ok;
    }

    /** Takes over a changed tree. */
    method Install(t: Tree)
      requires TreeOk(t) && Ranked(t, rank)
      modifies this`tree, this`dirty
      ensures Valid() && tree == t && dirty == Data
    {
      tree, dirty := t, Data;
    }

    /**
    `bookmark_rename`. A folder is not moved below itself. When the removal of a replaced entry
    shrinks the name index and the id of the moved entry goes stale, `stale` is what lookups by
    name give from then on; module NameIndexes, which has the index as the hash map that it is,
    decides when that happens, and shows that otherwise the index answers as with `None`. All is
    well afterwards, except in that case and when another node of the same folder was replaced.
    */
    method Rename(oldParent: Id, oldName: string, newParent: Id, newName: string, noReplace: bool, stale: Option<map<(Id, string), Id>>)
      returns (r: Status)
      requires Valid()
      requires (oldParent, oldName) in tree.assoc && newParent in tree.ids ==>
                 !Under(tree, rank, newParent, tree.assoc[(oldParent, oldName)])
      modifies this`tree, this`dirty, this`rank
      ensures Valid() <==> r == Ok && Replaces(old(tree), oldParent, oldName, newParent, newName) ==>
        oldParent != newParent && LookupsHold(old(tree), old(tree).assoc[(oldParent, oldName)], newParent, newName, stale)
      ensures r == Ok <==>
        && RenameStatus(old(tree), oldParent, oldName, newParent) == Ok
        && CanTakeName(old(tree), old(tree).assoc[(oldParent, oldName)], newParent, newName, noReplace,
                       oldName == newName || isUtf8(newName))
      ensures r == Ok ==>
        && (oldParent, oldName) in old(tree).assoc
        && var x := old(tree).assoc[(oldParent, oldName)];
        && IsNamed(old(tree), x) && IsFolder(old(tree), newParent)
        && ((newParent, newName) !in old(tree).assoc ==> tree == Renamed(old(tree), x, newParent, newName))
        && ((newParent, newName) in old(tree).assoc ==>
              var y := old(tree).assoc[(newParent, newName)];
              && (y == x ==> tree == old(tree))
              && (y != x ==>
                    && CanReplace(old(tree), x, y, newParent, newName) && y in old(tree).nodes[newParent].kids.value
                    && tree == WithLookups(Replaced(old(tree), x, y, newParent, newName), stale)))
      ensures r != Ok ==> tree == old(tree) && dirty == old(dirty)
      ensures RenameStatus(old(tree), oldParent, oldName, newParent) != Ok ==>
                r == RenameStatus(old(tree), oldParent, oldName, newParent)
      ensures r == EEXIST <==> noReplace && RenameStatus(old(tree), oldParent, oldName, newParent) == Ok
                                && (newParent, newName) in old(tree).assoc
      ensures RenameStatus(old(tree), oldParent, oldName, newParent) == Ok && (newParent, newName) !in old(tree).assoc ==> r == Ok || r == EPERM
      ensures !noReplace && RenameStatus(old(tree), oldParent, oldName, newParent) == Ok && (newParent, newName) in old(tree).assoc ==>
        var x, y := old(tree).assoc[(oldParent, oldName)], old(tree).assoc[(newParent, newName)];
        && x in old(tree).nodes && y in old(tree).nodes
        && var why := Removable(old(tree).nodes[y].kids, old(tree).nodes[x].kids.Some?);
        (y != x && why != Ok ==> r == why) && (y == x || why == Ok ==> r == Ok || r == EPERM)
      ensures r == Ok ==>
        dirty == if (oldParent, oldName) in old(tree).assoc && LookupName(old(tree), newParent, newName) == Some(old(tree).assoc[(oldParent, oldName)])
                 then old(dirty) else Data
    {
      r := RenameStatus(tree, oldParent, oldName, newParent);
      if r != Ok {
        return;
      }
      var x := tree.assoc[(oldParent, oldName)];
      NamedNode(tree, oldParent, oldName);
      if (newParent, newName) !in tree.assoc {
        if oldName != newName && !isUtf8(newName) {
          return EPERM;
        }
        ghost var rank' := RenamedGood(tree, rank, x, newParent, newName);
        Move(x, newParent, newName, rank');
        return Ok;
      }
      if noReplace {
        return EEXIST;
      }
      var y := tree.assoc[(newParent, newName)];
      if y == x {
        return Ok;
      }
      NamedNode(tree, newParent, newName);
      if tree.nodes[y].kids.Some? != tree.nodes[x].kids.Some? {
        return if tree.nodes[y].kids.Some? then EISDIR else ENOTDIR;
      }
      if tree.nodes[y].kids.Some? && tree.nodes[y].kids.value != [] {
        return ENOTEMPTY;
      }
      if oldName != newName && !isUtf8(newName) {
        return EPERM;
      }
      Replace(x, y, newParent, newName, stale);
      return Ok;
    }

    /** A rename that replaces nothing. */
    method Move(x: Id, to: Id, name: string, ghost rank': map<Id, nat>)
      requires IsNamed(tree, x) && IsFolder(tree, to)
      requires TreeOk(Renamed(tree, x, to, name)) && Ranked(Renamed(tree, x, to, name), rank')
      modifies this`tree, this`dirty, this`rank
      ensures Valid() && tree == Renamed(old(tree), x, to, name) && dirty == Data
    {
      tree := Renamed(tree, x, to, name);
      dirty, rank := Data, rank';
    }

    /** A rename that replaces `y`. */
    method Replace(x: Id, y: Id, to: Id, name: string, stale: Option<map<(Id, string), Id>>)
      requires Valid() && IsNamed(tree, x) && CanReplace(tree, x, y, to, name)
      requires to in tree.ids && !Under(tree, rank, to, x)
      modifies this`tree, this`dirty, this`rank
      ensures dirty == Data && y in old(tree).nodes[to].kids.value && tree == WithLookups(Replaced(old(tree), x, y, to, name), stale)
      ensures Valid() <==> old(tree).ids[x].parent != to && LookupsHold(old(tree), x, to, name, stale)
    {
      ReplacedOkIff(tree, x, y, to, name, stale);
      if tree.ids[x].parent != to {
        rank := ReplacedRanked(tree, rank, x, y, to, name);
      }
      tree := WithLookups(Replaced(tree, x, y, to, name), stale);
      dirty := Data;
    }

    /**
    `bookmark_set`. Time stamps leave the checksum alone; everything else that is stored makes
    the store dirty, whether or not it is part of the checksum.
    */
    method Set(id: Id, attr: Attr, val: string) returns (r: Status)
      requires Valid()
      modifies this`tree, this`dirty
      ensures Valid()
      ensures r == Ok ==> Settable(old(tree), id) && tree == Assigned(old(tree), id, attr, val)
      ensures r == Ok ==> id in tree.nodes && SameShape(old(tree), tree, id)
      ensures r == Ok && attr.Url? ==> tree.nodes[id].url == val && tree.nodes[id].guid == old(tree).nodes[id].guid
      ensures r == Ok && attr.Guid? ==> tree.nodes[id].guid == val && tree.nodes[id].url == old(tree).nodes[id].url
      ensures r == Ok && !attr.Url? && !attr.Guid? ==> tree == old(tree)
      ensures r != Ok ==> tree == old(tree) && dirty == old(dirty)
      ensures r == Ok <==> Settable(old(tree), id) && Assignable(old(tree), id, attr, val)
      ensures id != ROOT_ID && !Visible(old(tree), id) ==> r == ESTALE
      ensures Visible(old(tree), id) && !Settable(old(tree), id) ==> r == EPERM
      ensures Settable(old(tree), id) && !Assignable(old(tree), id, attr, val) ==> r == Refusal(attr)
      ensures r == Ok ==> dirty == DirtyAfter(old(tree), old(dirty), attr, val)
    {
      if id == ROOT_ID {
        return EPERM;
      }
      if !Visible(tree, id) {
        return ESTALE;
      }
      if tree.ids[id].parent == ROOT_ID {
        return EPERM;
      }
      match attr {
        case Unknown =>
          return ENOATTR;
        case Times(ok) =>
          if !ok {
            return EINVAL;
          }
          if dirty == Clean {
            dirty := Metadata;
          }
        case DateAdded(ok) =>
          if !ok {
            return EINVAL;
          }
          dirty := Data;
        case Url =>
          r := SetUrl(id, val);
          return;
        case Guid(ok) =>
          if !ok {
            return EINVAL;
          }
          r := SetGuid(id, val);
          return;
      }
      return Ok;
    }

    method SetUrl(id: Id, val: string) returns (r: Status)
      requires Valid() && Visible(tree, id)
      modifies this`tree, this`dirty
      ensures Valid() && id in old(tree).nodes
      ensures r == if old(tree).nodes[id].kids.None? then Ok else EIO
      ensures r == Ok ==> tree == WithUrl(old(tree), id, val) && dirty == Data
      ensures r != Ok ==> tree == old(tree) && dirty == old(dirty)
    {
      if tree.nodes[id].kids.Some? {
        return EIO;
      }
      WithUrlGood(tree, rank, id, val);
      tree := WithUrl(tree, id, val);
      dirty := Data;
      return Ok;
    }

    /** A GUID that is in use cannot be set, except on the node that has it. */
    method SetGuid(id: Id, val: string) returns (r: Status)
      requires Valid() && Visible(tree, id)
      modifies this`tree, this`dirty
      ensures Valid() && id in old(tree).nodes
      ensures r == if val in old(tree).guids && old(tree).guids[val] != id then EPERM else Ok
      ensures val !in old(tree).guids ==> tree == WithGuid(old(tree), id, val) && dirty == Data
      ensures val in old(tree).guids ==> tree == old(tree) && dirty == old(dirty)
    {
      if val in tree.guids {
        return if tree.guids[val] == id then Ok else EPERM;
      }
      WithGuidGood(tree, rank, id, val);
      tree := WithGuid(tree, id, val);
      dirty := Data;
      return Ok;
    }

    /** Computes the checksum of the tree as it is. */
    method Resum() returns (ok: bool)
      requires dirty == Data && SumIsChecksum()
      modifies this`checksum
      ensures ok <==> sum(tree.nodes).Some?
      ensures ok ==> Summed(tree.nodes)
      ensures !ok ==> checksum == old(checksum)
    {
      var s := ChecksumRoots(texts, Forest(tree.nodes));
      assert sum(tree.nodes) == s;
      if s.None? {
        return false;
      }
      checksum := s.value;
      return true;
    }

    /**
    `bookmark_sync`. When it succeeds, the file holds the current tree, and the checksum of that
    tree if data was changed or the checksum was right at load. `written` says whether a file with
    the new text could be put in place of the old one, and `synced` whether its directory could be
    synchronized then: if not, the save fails, and the file is the new one all the same.
    */
    method Save(written: bool, synced: bool) returns (ok: bool)
      requires Valid() && SumIsChecksum()
      modifies this`dirty, this`checksum, this`file, this`trusted
      ensures Valid()
      ensures ok ==> dirty == Clean && file == File(Forest(tree.nodes), checksum)
      ensures ok ==> (ChecksumOf(texts, file.roots) == Some(file.checksum) <==> old(dirty) == Data || old(trusted))
      ensures !ok ==> dirty == old(dirty)
      ensures ok <==> old(dirty) == Clean || (written && synced && (old(dirty) == Metadata || sum(tree.nodes).Some?))
      ensures !ok ==> file == if written && (dirty == Metadata || sum(tree.nodes).Some?) then File(Forest(tree.nodes), checksum) else old(file)
    {
      ok := SaveTree(written, synced);
      assert sum(tree.nodes) == ChecksumOf(texts, Forest(tree.nodes));
    }

    method SaveTree(written: bool, synced: bool) returns (ok: bool)
      requires Valid() && SumIsChecksum()
      modifies this`dirty, this`checksum, this`file, this`trusted
      ensures Valid()
      ensures ok ==> dirty == Clean && (trusted <==> old(dirty) == Data || old(trusted))
      ensures !ok ==> dirty == old(dirty)
      ensures ok <==> old(dirty) == Clean || (written && synced && (old(dirty) == Metadata || sum(tree.nodes).Some?))
      ensures !ok ==> file == if written && (dirty == Metadata || sum(tree.nodes).Some?) then File(Forest(tree.nodes), checksum) else old(file)
    {
      if dirty == Clean {
        return true;
      }
      if dirty == Data {
        ok := Resum();
        if !ok {
          return false;
        }
        trusted := true;
      }
      ok := WriteFile(written, synced);
    }

    /** `json_dump_file_at`, after which a save that succeeded leaves nothing to be saved. */
    method WriteFile(written: bool, synced: bool) returns (ok: bool)
      requires TreeOk(tree) && Ranked(tree, rank) && (trusted <==> Summed(tree.nodes)) && dirty != Clean
      modifies this`file, this`dirty
      ensures Valid() && (ok <==> written && synced)
      ensures dirty == if ok then Clean else old(dirty)
      ensures file == if written then File(Forest(tree.nodes), checksum) else old(file)
    {
      ok := false;
      if written {
        file := File(Forest(tree.nodes), checksum);
        if synced {
          dirty, ok := Clean, true;
        }
      }
    }
  }

  /** What `bookmark_set` is asked to store, and whether the value has the right form. */
  datatype Attr = Times(ok: bool) | Url | DateAdded(ok: bool) | Guid(ok: bool) | Unknown

  predicate Settable(t: Tree, id: Id)
  {
    id != ROOT_ID && Visible(t, id) && id in t.nodes && t.ids[id].parent != ROOT_ID
  }

  predicate Assignable(t: Tree, id: Id, attr: Attr, val: string)
    requires id in t.nodes
  {
    match attr
    case Times(ok) => ok
    case DateAdded(ok) => ok
    case Url => t.nodes[id].kids.None?
    case Guid(ok) => ok && (val in t.guids ==> t.guids[val] == id)
    case Unknown => false
  }

  /** Why an attribute that can be set is not: it is unknown, a folder has no URL, the form is wrong, or the GUID is in use. */
  function Refusal(attr: Attr): (r: Status)
  {
    match attr
    case Unknown => ENOATTR
    case Url => EIO
    case Guid(ok) => if ok then EPERM else EINVAL
    case _ => EINVAL
  }

  /** Time stamps leave the checksum alone, and a GUID that the node has already leaves everything alone. */
  function DirtyAfter(t: Tree, dirty: Dirty, attr: Attr, val: string): (r: Dirty)
  {
    match attr
    case Times(_) => if dirty == Clean then Metadata else dirty
    case Guid(_) => if val in t.guids then dirty else Data
    case _ => Data
  }

  function Assigned(t: Tree, id: Id, attr: Attr, val: string): (r: Tree)
    requires id in t.nodes
  {
    match attr
    case Url => WithUrl(t, id, val)
    case Guid(_) => if val in t.guids then t else WithGuid(t, id, val)
    case _ => t
  }

  /** A node that can be looked up, in its place. */
  ghost predicate IsNamed(t: Tree, x: Id)
  {
    x in t.ids && x in t.nodes && x != ROOT_ID && t.ids[x].name.Some? && HasPlace(t, x)
  }

  lemma NamedNode(t: Tree, p: Id, n: string)
    requires TreeOk(t) && (p, n) in t.assoc
    ensures IsNamed(t, t.assoc[(p, n)]) && t.ids[t.assoc[(p, n)]] == Entry(p, Some(n))
  {
    assert LeadsTo(t, p, n);
    assert HasPlace(t, t.assoc[(p, n)]);
  }

  /** The rename takes the place of another node. */
  predicate Replaces(t: Tree, oldParent: Id, oldName: string, newParent: Id, newName: string)
  {
    (newParent, newName) in t.assoc && (oldParent, oldName) in t.assoc && t.assoc[(newParent, newName)] != t.assoc[(oldParent, oldName)]
  }

  /** Lookups by name are not stale, or give by chance what they should once `x` has replaced the node of that name. */
  ghost predicate LookupsHold(t: Tree, x: Id, to: Id, name: string, stale: Option<map<(Id, string), Id>>)
  {
    stale.None? ||
      (&& (to, name) in t.assoc && CanReplace(t, x, t.assoc[(to, name)], to, name)
       && HasPlace(t, x) && t.assoc[(to, name)] in t.nodes[to].kids.value
       && stale.value == Replaced(t, x, t.assoc[(to, name)], to, name).assoc)
  }

  /** Node `x` may be called `name` in `to`: the name is free, or its own, or that of a node it may replace. */
  predicate CanTakeName(t: Tree, x: Id, to: Id, name: string, noReplace: bool, isText: bool)
  {
    if (to, name) !in t.assoc then isText
    else
      var y := t.assoc[(to, name)];
      && !noReplace
      && (y == x || (isText && x in t.nodes && y in t.nodes
                     && (t.nodes[y].kids == None || t.nodes[y].kids == Some([])) && (t.nodes[x].kids.None? <==> t.nodes[y].kids.None?)))
  }

  /** The checks of a rename, up to its target. */
  function RenameStatus(t: Tree, oldParent: Id, oldName: string, newParent: Id): (r: Status)
    ensures r == Ok <==>
      FolderStatus(t, oldParent) == Ok && FolderStatus(t, newParent) == Ok && (oldParent, oldName) in t.assoc
    ensures r != EEXIST
  {
    if oldParent == ROOT_ID || newParent == ROOT_ID then EPERM
    else if FolderStatus(t, oldParent) != Ok then FolderStatus(t, oldParent)
    else if (oldParent, oldName) !in t.assoc then ENOENT
    else FolderStatus(t, newParent)
  }

  lemma RenamedGood(t: Tree, rank: map<Id, nat>, x: Id, to: Id, name: string) returns (rank': map<Id, nat>)
    requires TreeOk(t) && Ranked(t, rank) && IsNamed(t, x) && IsFolder(t, to) && (to, name) !in t.assoc
    requires to in t.ids && !Under(t, rank, to, x)
    ensures TreeOk(Renamed(t, x, to, name)) && Ranked(Renamed(t, x, to, name), rank')
  {
    RenamedOk(t, x, to, name);
    MoveOutsideStaysRanked(t, rank, x, to, name);
    rank' := MovedRank(t, rank, x, to);
  }

  lemma TwoNames(t: Tree, p: Id, m: string, n: string)
    requires TreeOk(t) && IsFolder(t, p) && (p, m) in t.assoc && (p, n) in t.assoc
    ensures t.assoc[(p, m)] in t.nodes[p].kids.value && t.assoc[(p, n)] in t.nodes[p].kids.value
    ensures t.assoc[(p, m)] == t.assoc[(p, n)] <==> m == n
  {
    assert LeadsTo(t, p, m) && LeadsTo(t, p, n);
    assert HasPlace(t, t.assoc[(p, m)]) && HasPlace(t, t.assoc[(p, n)]);
  }
}
