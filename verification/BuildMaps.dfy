/** Building the indexes of the Chromium backend from a loaded bookmark file, in title mode. */
module BuildMaps {
  import opened Basics
  import opened FileNames
  import opened TreeWalk

  const ROOT_GUID: string := "2509a7dc-215d-52f7-a429-8d80431c6c75"

  /** What the indexes know of a node. Only a node that can be looked up has a name here. */
  datatype Entry = Entry(id: nat, parent: nat, guid: string, name: Option<string>, isDir: bool)

  datatype Maps = Maps(ids: map<nat, Entry>, guids: map<string, nat>, assoc: map<(nat, string), nat>, maxId: nat)

  /** Children of an entry can be looked up by name. */
  predicate Shows(e: Entry)
  {
    e.name.Some? || e.id == ROOT_ID
  }

  /** `maps_iter_cb`. */
  function MapsVisit(m: Maps, node: Node, parent: Entry): (r: Option<(Maps, Entry)>)
  {
    if node.id.None? || node.id.value in m.ids then None
    else if node.guid.None? || node.guid.value in m.guids then None
    else if node.name.None? then None
    else
      var id, guid, name := node.id.value, node.guid.value, node.name.value;
      var shown := Shows(parent) && ValidateFilename(name) == Valid && (parent.id, name) !in m.assoc;
      var entry := Entry(id, parent.id, guid, if shown then Some(name) else None, node.Folder?);
      var maps := Maps(m.ids[id := entry], m.guids[guid := id],
                       if shown then m.assoc[(parent.id, name) := id] else m.assoc,
                       if id > m.maxId then id else m.maxId);
      Some((maps, entry))
  }

  const ROOT_ENTRY: Entry := Entry(ROOT_ID, ROOT_ID, ROOT_GUID, Some(""), true)
  const EMPTY_MAPS: Maps := Maps(map[ROOT_ID := ROOT_ENTRY], map[ROOT_GUID := ROOT_ID], map[], 0)

  // ---- which nodes can be looked up -------------------------------------

  /** Node `k` of its folder: its folder is shown, its name is valid, and no earlier sibling has it. */
  predicate ShownAt(nodes: seq<Node>, k: nat, parentShown: bool)
    requires k < |nodes|
  {
    && parentShown
    && nodes[k].name.Some? && ValidName(nodes[k].name.value)
    && forall j :: 0 <= j < k ==> nodes[j].name != nodes[k].name
  }

  /** The nodes that can be looked up, from node `k` of a folder on and in the folders below. */
  function ShownFrom(nodes: seq<Node>, k: nat, parent: nat, parentShown: bool): (r: map<(nat, string), nat>)
    requires k <= |nodes|
    decreases nodes, |nodes| - k
  {
    if k == |nodes| then map[] else ShownNode(nodes, k, parent, parentShown) + ShownFrom(nodes, k + 1, parent, parentShown)
  }

  function ShownNode(nodes: seq<Node>, k: nat, parent: nat, parentShown: bool): (r: map<(nat, string), nat>)
    requires k < |nodes|
    decreases nodes, |nodes| - k, 0
  {
    var node := nodes[k];
    var shown := ShownAt(nodes, k, parentShown);
    var own := if shown && node.id.Some? then map[(parent, node.name.value) := node.id.value] else map[];
    if node.Folder? && node.id.Some? then own + ShownFrom(node.children, 0, node.id.value, shown) else own
  }

  ghost predicate MapsOk(m: Maps)
  {
    && ROOT_ID in m.ids
    && (forall i :: i in m.ids ==> i <= m.maxId) && m.maxId in m.ids
    && forall p, n :: (p, n) in m.assoc ==> p in m.ids
  }

  /** The names taken under `parent` are the valid ones of its first `k` children. */
  ghost predicate NamesTaken(m: Maps, parent: Entry, nodes: seq<Node>, k: nat)
    requires k <= |nodes|
  {
    forall n :: (parent.id, n) in m.assoc <==>
      Shows(parent) && ValidName(n) && exists j :: 0 <= j < k && nodes[j].name == Some(n)
  }

  /** Folders already in the maps, other than `p`, keep the names they have. */
  ghost predicate SameElsewhere(m: Maps, m': Maps, p: nat)
  {
    && (forall i :: i in m.ids ==> i in m'.ids)
    && forall q, n :: q in m.ids && q != p ==> ((q, n) in m'.assoc <==> (q, n) in m.assoc)
  }

  ghost predicate Shown(m: Maps, m': Maps, added: map<(nat, string), nat>)
  {
    m'.assoc == m.assoc + added
  }

  lemma VisitShows(m: Maps, nodes: seq<Node>, k: nat, parent: Entry)
    requires k < |nodes| && MapsOk(m) && parent.id in m.ids && NamesTaken(m, parent, nodes, k)
    requires MapsVisit(m, nodes[k], parent).Some?
    ensures var (m', e) := MapsVisit(m, nodes[k], parent).value;
            && MapsOk(m') && SameElsewhere(m, m', parent.id) && NamesTaken(m', parent, nodes, k + 1)
            && nodes[k].id == Some(e.id) && e.id !in m.ids && e.id in m'.ids
            && (Shows(e) <==> ShownAt(nodes, k, Shows(parent)))
            && Shown(m, m', if ShownAt(nodes, k, Shows(parent)) then map[(parent.id, nodes[k].name.value) := e.id] else map[])
            && (forall n :: (e.id, n) !in m'.assoc)
  {
    var (m', e) := MapsVisit(m, nodes[k], parent).value;
    var name := nodes[k].name.value;
    assert (parent.id, name) in m.assoc <==>
           Shows(parent) && ValidName(name) && exists j :: 0 <= j < k && nodes[j].name == Some(name);
  }

  lemma ShownTrans(m: Maps, m1: Maps, m2: Maps, a: map<(nat, string), nat>, b: map<(nat, string), nat>)
    requires Shown(m, m1, a) && Shown(m1, m2, b)
    ensures Shown(m, m2, a + b)
  {
    assert m.assoc + a + b == m.assoc + (a + b);
  }

  /** The walk of one node and everything below it. */
  lemma {:induction false} WalkShows(m: Maps, nodes: seq<Node>, k: nat, parent: Entry)
    requires k < |nodes| && MapsOk(m) && parent.id in m.ids && NamesTaken(m, parent, nodes, k)
    requires Walk(MapsVisit, m, nodes[k], parent).Some?
    ensures var m' := Walk(MapsVisit, m, nodes[k], parent).value;
            && MapsOk(m') && SameElsewhere(m, m', parent.id) && NamesTaken(m', parent, nodes, k + 1)
            && Shown(m, m', ShownNode(nodes, k, parent.id, Shows(parent)))
    decreases nodes, |nodes| - k, 0
  {
    var node := nodes[k];
    VisitShows(m, nodes, k, parent);
    var (m1, e) := MapsVisit(m, node, parent).value;
    if node.Folder? {
      assert node.children[0..] == node.children;
      WalkAllShows(m1, node.children, 0, e);
      var m2 := WalkAll(MapsVisit, m1, node.children, e).value;
      var shown := ShownAt(nodes, k, Shows(parent));
      var own := if shown then map[(parent.id, node.name.value) := e.id] else map[];
      ShownTrans(m, m1, m2, own, ShownFrom(node.children, 0, e.id, shown));
      assert NamesTaken(m2, parent, nodes, k + 1);
    }
  }

  /** The walk of the children of a folder from child `k` on. */
  lemma {:induction false} WalkAllShows(m: Maps, nodes: seq<Node>, k: nat, parent: Entry)
    requires k <= |nodes| && MapsOk(m) && parent.id in m.ids && NamesTaken(m, parent, nodes, k)
    requires WalkAll(MapsVisit, m, nodes[k..], parent).Some?
    ensures var m' := WalkAll(MapsVisit, m, nodes[k..], parent).value;
            && MapsOk(m') && SameElsewhere(m, m', parent.id)
            && Shown(m, m', ShownFrom(nodes, k, parent.id, Shows(parent)))
    decreases nodes, |nodes| - k, 1
  {
    if k < |nodes| {
      assert nodes[k..][0] == nodes[k] && nodes[k..][1..] == nodes[k + 1..];
      WalkShows(m, nodes, k, parent);
      var m1 := Walk(MapsVisit, m, nodes[k], parent).value;
      WalkAllShows(m1, nodes, k + 1, parent);
      var m2 := WalkAll(MapsVisit, m1, nodes[k + 1..], parent).value;
      ShownTrans(m, m1, m2, ShownNode(nodes, k, parent.id, Shows(parent)), ShownFrom(nodes, k + 1, parent.id, Shows(parent)));
    }
  }

  // ---- when the file can be indexed -------------------------------------

  /** All nodes, a parent before its children. */
  function Preorder(nodes: seq<Node>): (r: seq<Node>)
    decreases nodes
  {
    if nodes == [] then []
    else [nodes[0]] + (if nodes[0].Folder? then Preorder(nodes[0].children) else []) + Preorder(nodes[1..])
  }

  lemma {:induction false} PreorderConcat(a: seq<Node>, b: seq<Node>)
    ensures Preorder(a + b) == Preorder(a) + Preorder(b)
  {
    if a == [] {
      assert a + b == b;
    } else {
      assert (a + b)[0] == a[0] && (a + b)[1..] == a[1..] + b;
      PreorderConcat(a[1..], b);
      Assoc([a[0]] + (if a[0].Folder? then Preorder(a[0].children) else []), Preorder(a[1..]), Preorder(b));
    }
  }

  /** A node comes right before everything below it, and after all nodes of its earlier siblings. */
  lemma PreorderAt(nodes: seq<Node>, k: nat)
    requires k < |nodes|
    ensures var before := Preorder(nodes[..k]);
            && |before| < |Preorder(nodes)| && Preorder(nodes)[..|before|] == before && Preorder(nodes)[|before|] == nodes[k]
            && (nodes[k].Folder? ==> Preorder(nodes[k].children) <= Preorder(nodes)[|before| + 1..])
  {
    assert nodes == nodes[..k] + nodes[k..];
    PreorderConcat(nodes[..k], nodes[k..]);
    assert Preorder(nodes)[|Preorder(nodes[..k])|..] == Preorder(nodes[k..]);
  }

  /** Every node is complete, and no id or GUID occurs twice or among those used already. */
  ghost predicate Indexable(ids: set<nat>, guids: set<string>, list: seq<Node>)
  {
    && (forall i :: 0 <= i < |list| ==>
          && list[i].id.Some? && list[i].guid.Some? && list[i].name.Some?
          && list[i].id.value !in ids && list[i].guid.value !in guids)
    && (forall i, j :: 0 <= i < j < |list| ==> list[i].id != list[j].id && list[i].guid != list[j].guid)
  }

  function IdsOf(list: seq<Node>): (r: set<nat>)
  {
    set i | 0 <= i < |list| && list[i].id.Some? :: list[i].id.value
  }

  function GuidsOf(list: seq<Node>): (r: set<string>)
  {
    set i | 0 <= i < |list| && list[i].guid.Some? :: list[i].guid.value
  }

  lemma IndexableConcat(ids: set<nat>, guids: set<string>, a: seq<Node>, b: seq<Node>)
    ensures Indexable(ids, guids, a + b) <==>
            Indexable(ids, guids, a) && Indexable(ids + IdsOf(a), guids + GuidsOf(a), b)
  {
    var c := a + b;
    if Indexable(ids, guids, c) {
      assert forall i :: 0 <= i < |a| ==> a[i] == c[i];
      assert forall i :: 0 <= i < |b| ==> b[i] == c[|a| + i];
    }
    if Indexable(ids, guids, a) && Indexable(ids + IdsOf(a), guids + GuidsOf(a), b) {
      forall i, j | 0 <= i < j < |c| ensures c[i].id != c[j].id && c[i].guid != c[j].guid {
        if i < |a| <= j {
          assert a[i].id.value in IdsOf(a) && a[i].guid.value in GuidsOf(a);
          assert b[j - |a|].id.value !in ids + IdsOf(a);
        }
      }
    }
  }

  /** The maps after a walk of nodes `list` hold the ids and GUIDs of the nodes as well. */
  ghost predicate Indexed(m: Maps, m': Maps, list: seq<Node>)
  {
    && m'.ids.Keys == m.ids.Keys + IdsOf(list)
    && m'.guids.Keys == m.guids.Keys + GuidsOf(list)
  }

  lemma VisitIndexes(m: Maps, node: Node, parent: Entry)
    ensures MapsVisit(m, node, parent).Some? <==> Indexable(m.ids.Keys, m.guids.Keys, [node])
    ensures MapsVisit(m, node, parent).Some? ==> Indexed(m, MapsVisit(m, node, parent).value.0, [node])
  {
    assert [node][0] == node;
    if MapsVisit(m, node, parent).Some? {
      assert IdsOf([node]) == {node.id.value} && GuidsOf([node]) == {node.guid.value};
    }
  }

  lemma IndexedTrans(m: Maps, m1: Maps, m2: Maps, a: seq<Node>, b: seq<Node>)
    requires Indexed(m, m1, a) && Indexed(m1, m2, b)
    ensures Indexed(m, m2, a + b)
  {
    IdsOfConcat(a, b);
  }

  lemma IdsOfConcat(a: seq<Node>, b: seq<Node>)
    ensures IdsOf(a + b) == IdsOf(a) + IdsOf(b) && GuidsOf(a + b) == GuidsOf(a) + GuidsOf(b)
  {
    var c := a + b;
    forall x | x in IdsOf(a) + IdsOf(b) ensures x in IdsOf(c) {
      if x in IdsOf(a) {
        var i :| 0 <= i < |a| && a[i].id == Some(x);
        assert c[i].id == Some(x);
      } else {
        var i :| 0 <= i < |b| && b[i].id == Some(x);
        assert c[|a| + i].id == Some(x);
      }
    }
    forall x | x in GuidsOf(a) + GuidsOf(b) ensures x in GuidsOf(c) {
      if x in GuidsOf(a) {
        var i :| 0 <= i < |a| && a[i].guid == Some(x);
        assert c[i].guid == Some(x);
      } else {
        var i :| 0 <= i < |b| && b[i].guid == Some(x);
        assert c[|a| + i].guid == Some(x);
      }
    }
  }

  lemma {:induction false} WalkIndexes(m: Maps, node: Node, parent: Entry)
    ensures var list := [node] + if node.Folder? then Preorder(node.children) else [];
            && (Walk(MapsVisit, m, node, parent).Some? <==> Indexable(m.ids.Keys, m.guids.Keys, list))
            && (Walk(MapsVisit, m, node, parent).Some? ==> Indexed(m, Walk(MapsVisit, m, node, parent).value, list))
    decreases node, 0
  {
    VisitIndexes(m, node, parent);
    if node.Folder? {
      IndexableConcat(m.ids.Keys, m.guids.Keys, [node], Preorder(node.children));
      if MapsVisit(m, node, parent).Some? {
        var (m1, e) := MapsVisit(m, node, parent).value;
        WalkAllIndexes(m1, node.children, e);
        if WalkAll(MapsVisit, m1, node.children, e).Some? {
          IndexedTrans(m, m1, WalkAll(MapsVisit, m1, node.children, e).value, [node], Preorder(node.children));
        }
      }
    } else {
      assert [node] + [] == [node];
    }
  }

  /** A file can be indexed exactly when its nodes are complete and their ids and GUIDs distinct. */
  lemma {:induction false} WalkAllIndexes(m: Maps, nodes: seq<Node>, parent: Entry)
    ensures var list := Preorder(nodes);
            && (WalkAll(MapsVisit, m, nodes, parent).Some? <==> Indexable(m.ids.Keys, m.guids.Keys, list))
            && (WalkAll(MapsVisit, m, nodes, parent).Some? ==> Indexed(m, WalkAll(MapsVisit, m, nodes, parent).value, list))
    decreases nodes, 1
  {
    if nodes == [] {
      assert IdsOf([]) == {} && GuidsOf([]) == {};
    } else {
      var first := [nodes[0]] + if nodes[0].Folder? then Preorder(nodes[0].children) else [];
      var rest := Preorder(nodes[1..]);
      assert Preorder(nodes) == first + rest;
      WalkIndexes(m, nodes[0], parent);
      IndexableConcat(m.ids.Keys, m.guids.Keys, first, rest);
      if Walk(MapsVisit, m, nodes[0], parent).Some? {
        var m1 := Walk(MapsVisit, m, nodes[0], parent).value;
        WalkAllIndexes(m1, nodes[1..], parent);
        if WalkAll(MapsVisit, m1, nodes[1..], parent).Some? {
          IndexedTrans(m, m1, WalkAll(MapsVisit, m1, nodes[1..], parent).value, first, rest);
        }
      }
    }
  }

  /**
  `build_maps`: fails exactly when there is no root, a node is incomplete, an id or GUID
  repeats, or folders are nested too deep. Otherwise the id index holds every node and the
  root, and exactly the shown nodes can be looked up by name.
  */
  method Build(roots: seq<Node>) returns (r: Option<Maps>)
    ensures r.Some? <==>
      && roots != [] && DepthAll(roots) < MAX_NODE_ITER_DEPTH
      && Indexable({ROOT_ID}, {ROOT_GUID}, Preorder(roots))
    ensures r.Some? ==>
      && r.value.ids.Keys == {ROOT_ID} + IdsOf(Preorder(roots))
      && r.value.guids.Keys == {ROOT_GUID} + GuidsOf(Preorder(roots))
      && r.value.assoc == ShownFrom(roots, 0, ROOT_ID, true)
      && (forall i :: i in r.value.ids ==> i <= r.value.maxId) && r.value.maxId in r.value.ids
  {
    r := IterRoots(roots, MapsVisit, EMPTY_MAPS, ROOT_ENTRY);
    EmptyMapsAre(roots);
    WalkAllIndexes(EMPTY_MAPS, roots, ROOT_ENTRY);
    if r.Some? {
      RootsShow(roots);
    }
  }

  lemma EmptyMapsAre(roots: seq<Node>)
    ensures EMPTY_MAPS.ids.Keys == {ROOT_ID} && EMPTY_MAPS.guids.Keys == {ROOT_GUID} && EMPTY_MAPS.assoc == map[]
    ensures MapsOk(EMPTY_MAPS) && NamesTaken(EMPTY_MAPS, ROOT_ENTRY, roots, 0)
  {
  }

  /** The names that can be looked up after the walk of all roots. */
  lemma RootsShow(roots: seq<Node>)
    requires WalkAll(MapsVisit, EMPTY_MAPS, roots, ROOT_ENTRY).Some?
    ensures var m := WalkAll(MapsVisit, EMPTY_MAPS, roots, ROOT_ENTRY).value;
            MapsOk(m) && m.assoc == ShownFrom(roots, 0, ROOT_ID, true)
  {
    EmptyMapsAre(roots);
    assert roots[0..] == roots;
    WalkAllShows(EMPTY_MAPS, roots, 0, ROOT_ENTRY);
    assert map[] + ShownFrom(roots, 0, ROOT_ID, true) == ShownFrom(roots, 0, ROOT_ID, true);
  }
}
