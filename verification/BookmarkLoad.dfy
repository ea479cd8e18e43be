/**
Loading a bookmark file into the Chromium store: the walk that fills the indexes also accounts
for the tree, so that the loaded store has the nodes of the file and the indexes agree with it.
*/
module BookmarkLoad {
  import opened Basics
  import opened FileNames
  import opened BookmarkIndex
  import opened BookmarkReplace
  import W = TreeWalk
  import B = BuildMaps
  import opened BookmarkStore
  import opened Checksums

  /** The root folder, before any node is loaded. */
  const EMPTY_TREE: Tree := Tree(
    map[ROOT_ID := Node("", "", B.ROOT_GUID, Some([]))],
    map[ROOT_ID := Entry(ROOT_ID, Some(""))],
    map[], map[B.ROOT_GUID := ROOT_ID], 0)

  /** A node can be added: it is complete, and its id and GUID are new. */
  predicate CanAdd(t: Tree, node: W.Node)
  {
    && node.id.Some? && node.id.value !in t.ids
    && node.guid.Some? && node.guid.value !in t.guids
    && node.name.Some?
  }

  /** A node is shown when its folder is, its name is valid, and the name is free. */
  predicate Shown(t: Tree, parent: Id, name: string)
    requires parent in t.ids
  {
    t.ids[parent].name.Some? && ValidateFilename(name) == Valid && (parent, name) !in t.assoc
  }

  /** The tree with a node of the file at the end of its folder. */
  function Added(t: Tree, node: W.Node, parent: Id): (r: Tree)
    requires CanAdd(t, node) && parent in t.ids && IsFolder(t, parent)
  {
    var id, guid, name := node.id.value, node.guid.value, node.name.value;
    var shown := Shown(t, parent, name);
    Tree(WithKids(t, parent, t.nodes[parent].kids.value + [id]).nodes[
           id := Node(name, if node.Url? then node.url else "", guid, if node.Folder? then Some([]) else None)],
         t.ids[id := Entry(parent, if shown then Some(name) else None)],
         if shown then t.assoc[(parent, name) := id] else t.assoc,
         t.guids[guid := id],
         if id > t.maxId then id else t.maxId)
  }

  /** What loading a node does. */
  function LoadVisit(t: Tree, node: W.Node, parent: Id): (r: Option<(Tree, Id)>)
  {
    if CanAdd(t, node) && parent in t.ids && IsFolder(t, parent) then Some((Added(t, node, parent), node.id.value)) else None
  }

  // ---- the indexes agree with the tree ----------------------------------

  lemma AddedLinked(t: Tree, node: W.Node, parent: Id)
    requires Linked(t) && CanAdd(t, node) && IsFolder(t, parent)
    ensures parent in t.ids && Linked(Added(t, node, parent))
  {
    var r, id := Added(t, node, parent), node.id.value;
    forall p | IsFolder(r, p) ensures KidsOk(r, p) {
      if p != id {
        assert IsFolder(t, p) && KidsOk(t, p);
      }
    }
    forall x | x in r.ids && x != ROOT_ID ensures HasPlace(r, x) {
      if x != id {
        assert HasPlace(t, x);
      } else {
        assert r.nodes[parent].kids.value[|t.nodes[parent].kids.value|] == id;
      }
    }
  }

  lemma AddedNamed(t: Tree, node: W.Node, parent: Id)
    requires Linked(t) && Named(t) && CanAdd(t, node) && IsFolder(t, parent)
    ensures parent in t.ids && Named(Added(t, node, parent))
  {
    var r, id, name := Added(t, node, parent), node.id.value, node.name.value;
    forall p, n | (p, n) in r.assoc ensures LeadsTo(r, p, n) {
      if (p, n) in t.assoc {
        assert LeadsTo(t, p, n);
      }
    }
    forall x | x in r.ids && x != ROOT_ID ensures Findable(r, x) {
      if x != id {
        assert Findable(t, x);
      }
    }
  }

  lemma AddedGuids(t: Tree, node: W.Node, parent: Id)
    requires Linked(t) && GuidsOk(t) && CanAdd(t, node) && IsFolder(t, parent)
    ensures parent in t.ids && GuidsOk(Added(t, node, parent))
  {
  }

  lemma AddedRanked(t: Tree, rank: map<Id, nat>, node: W.Node, parent: Id)
    requires Linked(t) && Ranked(t, rank) && CanAdd(t, node) && IsFolder(t, parent)
    ensures parent in t.ids
    ensures Ranked(Added(t, node, parent), rank[node.id.value := rank[parent] + 1])
  {
    forall x | x in t.ids && x != ROOT_ID ensures t.ids[x].parent != node.id.value {
      assert HasPlace(t, x);
    }
  }

  /** Every node that is loaded keeps tree and indexes in agreement. */
  lemma AddedGood(t: Tree, rank: map<Id, nat>, node: W.Node, parent: Id) returns (rank': map<Id, nat>)
    requires TreeOk(t) && Ranked(t, rank) && CanAdd(t, node) && IsFolder(t, parent)
    ensures parent in t.ids
    ensures TreeOk(Added(t, node, parent)) && Ranked(Added(t, node, parent), rank')
  {
    AddedLinked(t, node, parent);
    AddedNamed(t, node, parent);
    AddedGuids(t, node, parent);
    AddedRanked(t, rank, node, parent);
    rank' := rank[node.id.value := rank[parent] + 1];
  }

  // ---- the nodes are those of the file ----------------------------------

  function IdOf(node: W.Node): (id: Id)
  {
    if node.id.Some? then node.id.value else ROOT_ID
  }

  function IdsOf(nodes: seq<W.Node>): (ids: seq<Id>)
    ensures |ids| == |nodes|
  {
    seq(|nodes|, i requires 0 <= i < |nodes| => IdOf(nodes[i]))
  }

  /** The nodes of a store hold a node of the file and everything below it, under ids that are not in `others`. */
  ghost predicate Holds(nodes: map<Id, Node>, others: set<Id>, node: W.Node)
    decreases node, 0
  {
    HoldsOwn(nodes, others, node) && (node.Folder? ==> HoldsAll(nodes, others, node.children))
  }

  ghost predicate HoldsOwn(nodes: map<Id, Node>, others: set<Id>, node: W.Node)
  {
    && node.id.Some? && node.guid.Some? && node.name.Some?
    && node.id.value in nodes && node.id.value !in others
    && nodes[node.id.value] == Node(node.name.value, if node.Url? then node.url else "", node.guid.value,
                                    if node.Folder? then Some(IdsOf(node.children)) else None)
  }

  ghost predicate HoldsAll(nodes: map<Id, Node>, others: set<Id>, list: seq<W.Node>)
    decreases list, 1
  {
    list == [] || (HoldsAll(nodes, others, list[..|list| - 1]) && Holds(nodes, others, list[|list| - 1]))
  }

  /** `b` has all that `a` has outside of `others`. */
  ghost predicate Keeps(a: map<Id, Node>, others: set<Id>, b: map<Id, Node>)
  {
    forall q :: q in a && q !in others ==> q in b && b[q] == a[q]
  }

  lemma {:induction false} HoldsStill(a: map<Id, Node>, others: set<Id>, b: map<Id, Node>, fewer: set<Id>, node: W.Node)
    requires Holds(a, others, node) && Keeps(a, others, b) && fewer <= others
    ensures Holds(b, fewer, node)
    decreases node, 0
  {
    if node.Folder? {
      HoldsAllStill(a, others, b, fewer, node.children);
    }
  }

  lemma {:induction false} HoldsAllStill(a: map<Id, Node>, others: set<Id>, b: map<Id, Node>, fewer: set<Id>, list: seq<W.Node>)
    requires HoldsAll(a, others, list) && Keeps(a, others, b) && fewer <= others
    ensures HoldsAll(b, fewer, list)
    decreases list, 1
  {
    if list != [] {
      HoldsAllStill(a, others, b, fewer, list[..|list| - 1]);
      HoldsStill(a, others, b, fewer, list[|list| - 1]);
    }
  }

  // ---- the walk ---------------------------------------------------------

  /** What loading nodes with `ids` into the folder `p` does to the nodes that were there. */
  ghost predicate Grown(a: map<Id, Node>, p: Id, ids: seq<Id>, b: map<Id, Node>)
  {
    && p in a && a[p].kids.Some?
    && Keeps(a, {p}, b)
    && p in b && b[p] == a[p].(kids := Some(a[p].kids.value + ids))
  }

  lemma GrownTwice(a: map<Id, Node>, p: Id, x: seq<Id>, b: map<Id, Node>, y: seq<Id>, c: map<Id, Node>)
    requires Grown(a, p, x, b) && Grown(b, p, y, c)
    ensures Grown(a, p, x + y, c)
  {
    Assoc(a[p].kids.value, x, y);
  }

  lemma GrownNone(a: map<Id, Node>, p: Id)
    requires p in a && a[p].kids.Some?
    ensures Grown(a, p, [], a)
  {
    assert a[p].kids.value + [] == a[p].kids.value;
  }

  ghost predicate GoodWith(t: Tree, rank: map<Id, nat>)
  {
    TreeOk(t) && Ranked(t, rank)
  }

  /** Tree and indexes agree, and everything hangs under the root. */
  ghost predicate Good(t: Tree)
  {
    exists rank :: GoodWith(t, rank)
  }

  ghost predicate KeepsFolders(t: Tree, t': Tree)
  {
    forall q {:trigger IsFolder(t', q)} :: IsFolder(t, q) ==> IsFolder(t', q)
  }

  lemma AddedIsGood(t: Tree, node: W.Node, parent: Id)
    requires Good(t) && CanAdd(t, node) && IsFolder(t, parent)
    ensures parent in t.ids && Good(Added(t, node, parent))
  {
    var rank :| GoodWith(t, rank);
    var rank' := AddedGood(t, rank, node, parent);
    assert GoodWith(Added(t, node, parent), rank');
  }

  lemma AddedKeepsFolders(t: Tree, node: W.Node, parent: Id)
    requires CanAdd(t, node) && parent in t.ids && IsFolder(t, parent) && node.id.value !in t.nodes
    ensures KeepsFolders(t, Added(t, node, parent))
    ensures node.Folder? ==> IsFolder(Added(t, node, parent), node.id.value)
  {
  }

  lemma GoodIsKeyed(t: Tree)
    requires Good(t)
    ensures Keyed(t)
  {
    var rank :| GoodWith(t, rank);
  }

  /** A whole walk keeps tree and indexes in agreement. */
  lemma {:induction false} WalkIsGood(t: Tree, node: W.Node, p: Id)
    requires Good(t) && IsFolder(t, p) && W.Walk(LoadVisit, t, node, p).Some?
    ensures var t' := W.Walk(LoadVisit, t, node, p).value;
            Good(t') && KeepsFolders(t, t')
    decreases node, 0
  {
    var (t1, id) := LoadVisit(t, node, p).value;
    AddedIsGood(t, node, p);
    GoodIsKeyed(t);
    AddedKeepsFolders(t, node, p);
    if node.Folder? {
      WalkAllIsGood(t1, node.children, id);
    }
  }

  lemma {:induction false} WalkAllIsGood(t: Tree, list: seq<W.Node>, p: Id)
    requires Good(t) && IsFolder(t, p) && W.WalkAll(LoadVisit, t, list, p).Some?
    ensures var t' := W.WalkAll(LoadVisit, t, list, p).value;
            Good(t') && KeepsFolders(t, t')
    decreases list, 1
  {
    if list != [] {
      WalkIsGood(t, list[0], p);
      var t1 := W.Walk(LoadVisit, t, list[0], p).value;
      WalkAllIsGood(t1, list[1..], p);
    }
  }

  ghost predicate Keyed(t: Tree)
  {
    t.ids.Keys == t.nodes.Keys
  }

  lemma AddedGrows(t: Tree, node: W.Node, p: Id)
    requires Keyed(t) && LoadVisit(t, node, p).Some?
    ensures var (t', id) := LoadVisit(t, node, p).value;
            && Keyed(t') && id == IdOf(node) && id !in t.nodes && IsFolder(t', p)
            && (node.Folder? ==> IsFolder(t', id) && t'.nodes[id].kids == Some([]))
            && Grown(t.nodes, p, [id], t'.nodes)
            && id in t'.nodes && HoldsOwn(t'.nodes[id := t'.nodes[id].(kids := if node.Folder? then Some(IdsOf(node.children)) else None)], t.nodes.Keys, node)
            && t.nodes.Keys <= t'.nodes.Keys
  {
  }

  /** `t'` is `t` with more nodes, of which those with `ids` are in the folder `p`. */
  ghost predicate IsLoaded(t: Tree, p: Id, ids: seq<Id>, t': Tree)
  {
    Keyed(t') && t.nodes.Keys <= t'.nodes.Keys && Grown(t.nodes, p, ids, t'.nodes)
  }

  lemma LoadedTwice(t: Tree, p: Id, x: seq<Id>, t1: Tree, y: seq<Id>, t2: Tree)
    requires IsLoaded(t, p, x, t1) && IsLoaded(t1, p, y, t2)
    ensures IsLoaded(t, p, x + y, t2)
  {
    GrownTwice(t.nodes, p, x, t1.nodes, y, t2.nodes);
  }

  lemma FirstId(list: seq<W.Node>, k: nat)
    requires k < |list|
    ensures IdsOf(list[k..]) == [IdOf(list[k])] + IdsOf(list[k + 1..])
  {
  }

  /** Loading a node adds its id to its folder, holds the node, and leaves the other nodes alone. */
  lemma {:induction false} WalkLoads(t: Tree, node: W.Node, p: Id)
    requires Keyed(t) && IsFolder(t, p) && W.Walk(LoadVisit, t, node, p).Some?
    ensures var t' := W.Walk(LoadVisit, t, node, p).value;
            IsLoaded(t, p, [IdOf(node)], t') && Holds(t'.nodes, t.nodes.Keys, node)
    decreases node, 0
  {
    var (t1, id) := LoadVisit(t, node, p).value;
    AddedGrows(t, node, p);
    if node.Folder? {
      assert node.children[0..] == node.children && node.children[..0] == [];
      WalkAllLoads(t1, t1.nodes.Keys, node.children, 0, id);
      var t2 := W.WalkAll(LoadVisit, t1, node.children, id).value;
      assert [] + IdsOf(node.children) == IdsOf(node.children);
      HoldsAllStill(t2.nodes, t1.nodes.Keys, t2.nodes, t.nodes.Keys, node.children);
    }
  }

  /** The next node of a folder, when the ones before it are held. */
  lemma {:induction false} FirstLoads(t: Tree, others: set<Id>, list: seq<W.Node>, k: nat, p: Id)
    requires Keyed(t) && k < |list| && IsFolder(t, p) && p in others && others <= t.nodes.Keys
    requires HoldsAll(t.nodes, others, list[..k])
    requires W.Walk(LoadVisit, t, list[k], p).Some?
    ensures var t1 := W.Walk(LoadVisit, t, list[k], p).value;
            IsLoaded(t, p, [IdOf(list[k])], t1) && HoldsAll(t1.nodes, others, list[..k + 1])
    decreases list, |list| - k, 0
  {
    WalkLoads(t, list[k], p);
    var t1 := W.Walk(LoadVisit, t, list[k], p).value;
    HoldsAllStill(t.nodes, others, t1.nodes, others, list[..k]);
    HoldsStill(t1.nodes, t.nodes.Keys, t1.nodes, others, list[k]);
    assert list[..k + 1][..k] == list[..k];
  }

  lemma {:induction false} WalkAllLoads(t: Tree, others: set<Id>, list: seq<W.Node>, k: nat, p: Id)
    requires Keyed(t) && k <= |list| && IsFolder(t, p) && p in others && others <= t.nodes.Keys
    requires HoldsAll(t.nodes, others, list[..k])
    requires W.WalkAll(LoadVisit, t, list[k..], p).Some?
    ensures var t' := W.WalkAll(LoadVisit, t, list[k..], p).value;
            IsLoaded(t, p, IdsOf(list[k..]), t') && HoldsAll(t'.nodes, others, list)
    decreases list, |list| - k, 1
  {
    if k == |list| {
      assert list[..k] == list && list[k..] == [];
      GrownNone(t.nodes, p);
    } else {
      assert list[k..][0] == list[k] && list[k..][1..] == list[k + 1..];
      FirstLoads(t, others, list, k, p);
      var t1 := W.Walk(LoadVisit, t, list[k], p).value;
      WalkAllLoads(t1, others, list, k + 1, p);
      var t2 := W.WalkAll(LoadVisit, t1, list[k + 1..], p).value;
      LoadedTwice(t, p, [IdOf(list[k])], t1, IdsOf(list[k + 1..]), t2);
      FirstId(list, k);
    }
  }

  // ---- the file that the loaded tree is saved as ------------------------

  lemma {:induction false} TreesOfAt(nodes: map<Id, Node>, kids: seq<Id>, d: nat, i: nat)
    requires i < |kids|
    ensures TreesOf(nodes, kids, d)[i] == TreeOf(nodes, kids[i], d)
    decreases i
  {
    if i > 0 {
      TreesOfAt(nodes, kids[1..], d, i - 1);
    }
  }

  lemma {:induction false} HoldsAt(nodes: map<Id, Node>, others: set<Id>, list: seq<W.Node>, i: nat)
    requires HoldsAll(nodes, others, list) && i < |list|
    ensures Holds(nodes, others, list[i])
  {
    if i < |list| - 1 {
      HoldsAt(nodes, others, list[..|list| - 1], i);
    }
  }

  lemma {:induction false} DepthAt(list: seq<W.Node>, i: nat)
    requires i < |list|
    ensures W.Depth(list[i]) <= W.DepthAll(list)
  {
    if i > 0 {
      DepthAt(list[1..], i - 1);
    }
  }

  lemma {:induction false} HeldIsTree(nodes: map<Id, Node>, others: set<Id>, node: W.Node, d: nat)
    requires Holds(nodes, others, node) && W.Depth(node) <= d
    ensures TreeOf(nodes, IdOf(node), d) == node
    decreases node, 0
  {
    if node.Folder? {
      HeldAreTrees(nodes, others, node.children, d - 1);
    }
  }

  /** What is held is what is saved. */
  lemma {:induction false} HeldAreTrees(nodes: map<Id, Node>, others: set<Id>, list: seq<W.Node>, d: nat)
    requires HoldsAll(nodes, others, list) && W.DepthAll(list) <= d
    ensures TreesOf(nodes, IdsOf(list), d) == list
    decreases list, 1
  {
    var trees := TreesOf(nodes, IdsOf(list), d);
    forall i | 0 <= i < |list| ensures trees[i] == list[i] {
      TreesOfAt(nodes, IdsOf(list), d, i);
      HoldsAt(nodes, others, list, i);
      DepthAt(list, i);
      HeldIsTree(nodes, others, list[i], d);
    }
  }

  // ---- the same walk as `build_maps` ------------------------------------

  function EntryOf(t: Tree, x: Id): (e: B.Entry)
    requires Keyed(t) && x in t.ids
  {
    assert x in t.nodes;
    B.Entry(x, t.ids[x].parent, t.nodes[x].guid, t.ids[x].name, t.nodes[x].kids.Some?)
  }

  /** The indexes of a tree as `build_maps` makes them. */
  function MapsOf(t: Tree): (m: B.Maps)
    requires Keyed(t)
  {
    B.Maps(map x | x in t.ids :: EntryOf(t, x), t.guids, t.assoc, t.maxId)
  }

  ghost predicate RootIsNamed(t: Tree)
  {
    ROOT_ID in t.ids && t.ids[ROOT_ID].name.Some?
  }

  /** What is known of a node does not change when more nodes are loaded. */
  ghost predicate KeepsEntries(t: Tree, t': Tree)
  {
    Keyed(t) && Keyed(t') && forall x :: x in t.ids ==> x in t'.ids && EntryOf(t', x) == EntryOf(t, x)
  }

  lemma AddedKeepsEntries(t: Tree, node: W.Node, p: Id)
    requires Keyed(t) && CanAdd(t, node) && p in t.ids && IsFolder(t, p)
    ensures KeepsEntries(t, Added(t, node, p))
  {
  }

  lemma AddedMaps(t: Tree, node: W.Node, p: Id)
    requires Keyed(t) && CanAdd(t, node) && p in t.ids && IsFolder(t, p) && Keyed(Added(t, node, p))
    requires B.Shows(EntryOf(t, p)) <==> t.ids[p].name.Some?
    ensures var t', id := Added(t, node, p), node.id.value;
            B.MapsVisit(MapsOf(t), node, EntryOf(t, p)) == Some((MapsOf(t'), EntryOf(t', id)))
  {
    var t', id := Added(t, node, p), node.id.value;
    AddedEntries(t, node, p);
    var b := B.MapsVisit(MapsOf(t), node, EntryOf(t, p)).value;
    assert b.1 == EntryOf(t', id);
  }

  lemma AddedEntries(t: Tree, node: W.Node, p: Id)
    requires Keyed(t) && CanAdd(t, node) && p in t.ids && IsFolder(t, p) && Keyed(Added(t, node, p))
    ensures var t', id := Added(t, node, p), node.id.value;
            MapsOf(t').ids == MapsOf(t).ids[id := EntryOf(t', id)]
  {
    AddedKeepsEntries(t, node, p);
    var t', id := Added(t, node, p), node.id.value;
    var a, b := MapsOf(t').ids, MapsOf(t).ids[id := EntryOf(t', id)];
    assert a.Keys == b.Keys;
    forall x | x in a ensures a[x] == b[x] {
    }
  }

  lemma VisitSame(t: Tree, node: W.Node, p: Id)
    requires Keyed(t) && RootIsNamed(t) && IsFolder(t, p)
    ensures var a, b := LoadVisit(t, node, p), B.MapsVisit(MapsOf(t), node, EntryOf(t, p));
            && (a.Some? <==> b.Some?)
            && (a.Some? ==>
                  var (t', id) := a.value;
                  && KeepsEntries(t, t') && RootIsNamed(t') && id in t'.ids
                  && b == Some((MapsOf(t'), EntryOf(t', id)))
                  && (node.Folder? ==> IsFolder(t', id)))
  {
    if LoadVisit(t, node, p).Some? {
      AddedKeepsEntries(t, node, p);
      AddedMaps(t, node, p);
    }
  }

  /** A walk that loads nodes and one that makes the indexes are the same walk. */
  ghost predicate SameWalk(t: Tree, a: Option<Tree>, b: Option<B.Maps>)
  {
    && (a.Some? <==> b.Some?)
    && (a.Some? ==> KeepsEntries(t, a.value) && RootIsNamed(a.value) && b == Some(MapsOf(a.value)))
  }

  lemma {:induction false} WalkSame(t: Tree, node: W.Node, p: Id)
    requires Keyed(t) && RootIsNamed(t) && IsFolder(t, p)
    ensures SameWalk(t, W.Walk(LoadVisit, t, node, p), W.Walk(B.MapsVisit, MapsOf(t), node, EntryOf(t, p)))
    decreases node, 0
  {
    VisitSame(t, node, p);
    var a := LoadVisit(t, node, p);
    if a.Some? && node.Folder? {
      WalkAllSame(a.value.0, node.children, a.value.1);
    }
  }

  lemma {:induction false} WalkAllSame(t: Tree, list: seq<W.Node>, p: Id)
    requires Keyed(t) && RootIsNamed(t) && IsFolder(t, p)
    ensures SameWalk(t, W.WalkAll(LoadVisit, t, list, p), W.WalkAll(B.MapsVisit, MapsOf(t), list, EntryOf(t, p)))
    decreases list, 1
  {
    if list != [] {
      WalkSame(t, list[0], p);
      var a := W.Walk(LoadVisit, t, list[0], p);
      if a.Some? {
        assert EntryOf(a.value, p) == EntryOf(t, p);
        WalkAllSame(a.value, list[1..], p);
      }
    }
  }

  // ---- loading ----------------------------------------------------------

  lemma EmptyIsGood()
    ensures Good(EMPTY_TREE) && IsFolder(EMPTY_TREE, ROOT_ID) && Keyed(EMPTY_TREE) && RootIsNamed(EMPTY_TREE)
    ensures MapsOf(EMPTY_TREE) == B.EMPTY_MAPS && EntryOf(EMPTY_TREE, ROOT_ID) == B.ROOT_ENTRY
  {
    assert GoodWith(EMPTY_TREE, map[ROOT_ID := 0]);
    assert MapsOf(EMPTY_TREE).ids == B.EMPTY_MAPS.ids;
  }

  /** Saving a tree that was just loaded would give the file back. */
  lemma LoadedIsSaved(roots: seq<W.Node>, t: Tree)
    requires W.WalkAll(LoadVisit, EMPTY_TREE, roots, ROOT_ID) == Some(t) && W.DepthAll(roots) < W.MAX_NODE_ITER_DEPTH
    ensures Forest(t.nodes) == roots
  {
    assert Keyed(EMPTY_TREE) && IsFolder(EMPTY_TREE, ROOT_ID);
    assert roots[0..] == roots && roots[..0] == [];
    WalkAllLoads(EMPTY_TREE, {ROOT_ID}, roots, 0, ROOT_ID);
    assert [] + IdsOf(roots) == IdsOf(roots);
    HeldAreTrees(t.nodes, {ROOT_ID}, roots, W.MAX_NODE_ITER_DEPTH);
  }

  /** Tree and indexes agree after loading, and the indexes are those of `build_maps`. */
  lemma LoadedIsBuilt(roots: seq<W.Node>)
    ensures var a, b := W.WalkAll(LoadVisit, EMPTY_TREE, roots, ROOT_ID), W.WalkAll(B.MapsVisit, B.EMPTY_MAPS, roots, B.ROOT_ENTRY);
            && (a.Some? <==> b.Some?)
            && (a.Some? ==> Good(a.value) && Keyed(a.value) && MapsOf(a.value) == b.value)
  {
    EmptyIsGood();
    WalkAllSame(EMPTY_TREE, roots, ROOT_ID);
    if W.WalkAll(LoadVisit, EMPTY_TREE, roots, ROOT_ID).Some? {
      WalkAllIsGood(EMPTY_TREE, roots, ROOT_ID);
    }
  }

  /** Exactly the nodes that are shown can be looked up. */
  lemma BuiltIsShown(roots: seq<W.Node>, m: B.Maps)
    requires W.WalkAll(B.MapsVisit, B.EMPTY_MAPS, roots, B.ROOT_ENTRY) == Some(m)
    ensures m.assoc == B.ShownFrom(roots, 0, ROOT_ID, true)
  {
    assert roots[0..] == roots;
    B.WalkAllShows(B.EMPTY_MAPS, roots, 0, B.ROOT_ENTRY);
    assert map[] + B.ShownFrom(roots, 0, ROOT_ID, true) == B.ShownFrom(roots, 0, ROOT_ID, true);
  }

  /** The tree of a file, which exists exactly when the file can be indexed. */
  method LoadTree(roots: seq<W.Node>) returns (r: Option<Tree>)
    ensures r.Some? <==> roots != [] && W.DepthAll(roots) < W.MAX_NODE_ITER_DEPTH
                         && B.Indexable({ROOT_ID}, {B.ROOT_GUID}, B.Preorder(roots))
    ensures r.Some? ==> Good(r.value) && Forest(r.value.nodes) == roots
    ensures r.Some? ==> r.value.assoc == B.ShownFrom(roots, 0, ROOT_ID, true)
  {
    r := W.IterRoots(roots, LoadVisit, EMPTY_TREE, ROOT_ID);
    LoadedIsBuilt(roots);
    assert B.EMPTY_MAPS.ids.Keys == {ROOT_ID} && B.EMPTY_MAPS.guids.Keys == {B.ROOT_GUID};
    B.WalkAllIndexes(B.EMPTY_MAPS, roots, B.ROOT_ENTRY);
    if r.Some? {
      LoadedIsSaved(roots, r.value);
      BuiltIsShown(roots, MapsOf(r.value));
    }
  }

  /** `store_load`, which does not look at the checksum. */
  method Load(texts: Texts, isUtf8: string -> bool, file: File) returns (r: Option<Store>)
    ensures r.Some? <==> file.roots != [] && W.DepthAll(file.roots) < W.MAX_NODE_ITER_DEPTH
                         && B.Indexable({ROOT_ID}, {B.ROOT_GUID}, B.Preorder(file.roots))
    ensures r.Some? ==> fresh(r.value) && r.value.Valid() && r.value.SumIsChecksum() && r.value.file == file
    ensures r.Some? ==> (r.value.trusted <==> ChecksumOf(texts, file.roots) == Some(file.checksum))
    ensures r.Some? ==> r.value.tree.assoc == B.ShownFrom(file.roots, 0, ROOT_ID, true)
  {
    var t := LoadTree(file.roots);
    if t.None? {
      return None;
    }
    ghost var rank :| GoodWith(t.value, rank);
    var store := new Store(texts, isUtf8, t.value, file, rank);
    return Some(store);
  }

  // ---- a rename that goes wrong -----------------------------------------

  /** A root folder with a bookmark or folder `a` in it. */
  function OneNode(isDir: bool): (t: Tree)
  {
    Created(Created(EMPTY_TREE, ROOT_ID, 1, "f", "g1", true), 1, 2, "a", "g2", isDir)
  }

  lemma OneFolderOk()
    ensures TreeOk(Created(EMPTY_TREE, ROOT_ID, 1, "f", "g1", true))
  {
    EmptyIsGood();
    CreatedOk(EMPTY_TREE, ROOT_ID, 1, "f", "g1", true);
  }

  lemma OneNodeOk(isDir: bool)
    ensures TreeOk(OneNode(isDir))
  {
    OneFolderOk();
    CreatedOk(Created(EMPTY_TREE, ROOT_ID, 1, "f", "g1", true), 1, 2, "a", "g2", isDir);
  }

  /** A folder with two bookmarks, `a` and `b`. */
  function TwoBookmarks(): (t: Tree)
  {
    Created(OneNode(false), 1, 3, "b", "g3", false)
  }

  lemma TwoBookmarksOk()
    ensures TreeOk(TwoBookmarks())
  {
    OneNodeOk(false);
    CreatedOk(OneNode(false), 1, 3, "b", "g3", false);
  }

  /** Renaming `a` to `b` in the same folder leaves a node in the tree that no index knows. */
  lemma ReplaceInSameFolderFails()
    ensures var t := TwoBookmarks();
            && TreeOk(t) && CanReplace(t, 2, 3, 1, "b") && HasPlace(t, 2) && 3 in t.nodes[1].kids.value
            && !TreeOk(Replaced(t, 2, 3, 1, "b"))
  {
    TwoBookmarksOk();
    ReplacedOkIff(TwoBookmarks(), 2, 3, 1, "b", None);
  }

  // ---- a move that goes wrong -------------------------------------------

  /** A folder in a folder in a folder. */
  function Nested(): (t: Tree)
  {
    Created(OneNode(true), 2, 3, "b", "g3", true)
  }

  lemma NestedOk()
    ensures TreeOk(Nested())
  {
    OneNodeOk(true);
    CreatedOk(OneNode(true), 2, 3, "b", "g3", true);
  }

  lemma NestedRanked(rank: map<Id, nat>)
    requires rank == map[0 := 0, 1 := 1, 2 := 2, 3 := 3]
    ensures Ranked(Nested(), rank)
  {
    assert Nested().ids == map[0 := Entry(0, Some("")), 1 := Entry(0, Some("f")), 2 := Entry(1, Some("a")), 3 := Entry(2, Some("b"))];
  }

  /** Moving the folder in the middle into the innermost one, or into itself, cuts both off from the root. */
  lemma MoveBelowItselfFails(to: Id)
    requires to == 2 || to == 3
    ensures var t := Nested();
            && TreeOk(t) && CanRename(t, 2, to, "c") && HasPlace(t, 2)
            && !exists rank :: Ranked(Renamed(t, 2, to, "c"), rank)
  {
    NestedOk();
    var t, rank := Nested(), map[0 := 0, 1 := 1, 2 := 2, 3 := 3];
    NestedRanked(rank);
    assert HasPlace(t, 2) && HasPlace(t, 3);
    assert Under(t, rank, 2, 2);
    assert Under(t, rank, 3, 2);
    MoveIsRankedIff(t, rank, 2, to, "c");
  }
}
