/**
The loaded bookmark tree of the Chromium backend with its indexes, in title mode: the nodes,
the entry of every node, and the lookup by folder and name.
*/
module BookmarkIndex {
  import opened Basics
  import opened Siblings

  type Id = nat

  /** A node of the tree: a folder lists its children, a bookmark has a URL. */
  datatype Node = Node(name: string, url: string, guid: string, kids: Option<seq<Id>>)

  /** The index entry of a node. Only a node that can be looked up has a name here. */
  datatype Entry = Entry(parent: Id, name: Option<string>)

  datatype Tree = Tree(
    nodes: map<Id, Node>,
    ids: map<Id, Entry>,
    assoc: map<(Id, string), Id>,
    guids: map<string, Id>,
    maxId: Id
  )

  predicate IsFolder(t: Tree, p: Id)
  {
    p in t.nodes && t.nodes[p].kids.Some?
  }

  /** The children array of a folder lists nodes whose entry names that folder, each once. */
  ghost predicate KidsOk(t: Tree, p: Id)
    requires IsFolder(t, p)
  {
    var kids := t.nodes[p].kids.value;
    && (forall k :: 0 <= k < |kids| ==> kids[k] in t.ids && kids[k] != ROOT_ID && t.ids[kids[k]].parent == p)
    && (forall j, k :: 0 <= j < k < |kids| ==> kids[j] != kids[k])
  }

  /** A node other than the root is among the children of the folder its entry names. */
  ghost predicate HasPlace(t: Tree, x: Id)
    requires x in t.ids
  {
    var p := t.ids[x].parent;
    IsFolder(t, p) && x in t.nodes[p].kids.value
  }

  /** Indexes and tree agree on which nodes there are and where. */
  ghost predicate Linked(t: Tree)
  {
    && t.ids.Keys == t.nodes.Keys
    && IsFolder(t, ROOT_ID)
    && (forall p {:trigger KidsOk(t, p)} :: IsFolder(t, p) ==> KidsOk(t, p))
    && (forall x {:trigger HasPlace(t, x)} :: x in t.ids && x != ROOT_ID ==> HasPlace(t, x))
    && (forall x :: x in t.ids ==> x <= t.maxId)
  }

  /** An entry of the lookup by name leads to the node of that name in that folder. */
  ghost predicate LeadsTo(t: Tree, p: Id, n: string)
    requires (p, n) in t.assoc
  {
    var x := t.assoc[(p, n)];
    && x in t.ids && x != ROOT_ID && t.ids[x] == Entry(p, Some(n))
    && x in t.nodes && t.nodes[x].name == n
  }

  /** A named entry is in the lookup by name. */
  ghost predicate Findable(t: Tree, x: Id)
    requires x in t.ids
  {
    t.ids[x].name.Some? ==>
      var key := (t.ids[x].parent, t.ids[x].name.value);
      key in t.assoc && t.assoc[key] == x
  }

  /** The lookup by name holds exactly the named entries. */
  ghost predicate Named(t: Tree)
  {
    && (forall p, n {:trigger LeadsTo(t, p, n)} :: (p, n) in t.assoc ==> LeadsTo(t, p, n))
    && (forall x {:trigger Findable(t, x)} :: x in t.ids && x != ROOT_ID ==> Findable(t, x))
  }

  ghost predicate GuidsOk(t: Tree)
  {
    && (forall g :: g in t.guids ==> t.guids[g] in t.nodes && t.nodes[t.guids[g]].guid == g)
    && (forall x :: x in t.nodes ==> t.nodes[x].guid in t.guids && t.guids[t.nodes[x].guid] == x)
  }

  /** Parents rank below their children, so every node hangs under the root. */
  ghost predicate Ranked(t: Tree, rank: map<Id, nat>)
  {
    && (forall x :: x in t.ids ==> x in rank)
    && (forall x :: x in t.ids && x != ROOT_ID ==> t.ids[x].parent in rank && rank[t.ids[x].parent] < rank[x])
  }

  ghost predicate TreeOk(t: Tree)
  {
    Linked(t) && Named(t) && GuidsOk(t)
  }

  // ---- lookups against a scan of the children array ---------------------

  /** What `lookup_name` answers. */
  function LookupName(t: Tree, parent: Id, name: string): (r: Option<Id>)
  {
    if (parent, name) in t.assoc then Some(t.assoc[(parent, name)]) else None
  }

  /** The children that `bookmark_list` reports: those with a name in the index, in array order. */
  function Listed(t: Tree, kids: seq<Id>): (r: seq<Id>)
  {
    if kids == [] then []
    else (if kids[0] in t.ids && t.ids[kids[0]].name.Some? then [kids[0]] else []) + Listed(t, kids[1..])
  }

  lemma LookupIsScan(t: Tree, parent: Id, name: string)
    requires TreeOk(t) && IsFolder(t, parent)
    ensures forall x :: LookupName(t, parent, name) == Some(x) <==>
              x in t.nodes[parent].kids.value && x in t.ids && t.ids[x].name == Some(name)
  {
    var kids := t.nodes[parent].kids.value;
    assert KidsOk(t, parent);
    forall x ensures LookupName(t, parent, name) == Some(x) <==> x in kids && x in t.ids && t.ids[x].name == Some(name) {
      if LookupName(t, parent, name) == Some(x) {
        assert LeadsTo(t, parent, name);
        assert HasPlace(t, x);
      }
      if x in kids && x in t.ids && t.ids[x].name == Some(name) {
        var k :| 0 <= k < |kids| && kids[k] == x;
        assert kids[k] != ROOT_ID;
        assert Findable(t, x);
      }
    }
  }

  /** The children array of `p` replaced. */
  function WithKids(t: Tree, p: Id, kids: seq<Id>): (r: Tree)
    requires IsFolder(t, p)
  {
    t.(nodes := t.nodes[p := t.nodes[p].(kids := Some(kids))])
  }

  // ---- what callers see of a tree ---------------------------------------

  /** What a folder lists. */
  function Listing(t: Tree, p: Id): (r: seq<Id>)
    requires IsFolder(t, p)
  {
    Listed(t, t.nodes[p].kids.value)
  }

  /** All nodes outside `touched`, with their entries, are as they were. */
  ghost predicate OthersStay(t: Tree, r: Tree, touched: set<Id>)
  {
    forall x :: x !in touched ==>
      && (x in r.nodes <==> x in t.nodes) && (x in r.nodes ==> r.nodes[x] == t.nodes[x])
      && (x in r.ids <==> x in t.ids) && (x in r.ids ==> r.ids[x] == t.ids[x])
  }

  /** Lookups by name give `x` under `key`, nothing under `gone`, and otherwise what they gave. */
  ghost predicate LookupsBecome(t: Tree, r: Tree, gone: Option<(Id, string)>, key: Option<(Id, string)>, x: Id)
  {
    forall p: Id, n: string :: LookupName(r, p, n) ==
      if key == Some((p, n)) then Some(x) else if gone == Some((p, n)) then None else LookupName(t, p, n)
  }

  lemma {:induction false} ListedConcat(t: Tree, a: seq<Id>, b: seq<Id>)
    ensures Listed(t, a + b) == Listed(t, a) + Listed(t, b)
  {
    if a == [] {
      assert a + b == b;
    } else {
      ListedConcat(t, a[1..], b);
      assert (a + b)[0] == a[0] && (a + b)[1..] == a[1..] + b;
      var first := if a[0] in t.ids && t.ids[a[0]].name.Some? then [a[0]] else [];
      Assoc(first, Listed(t, a[1..]), Listed(t, b));
    }
  }

  lemma {:induction false} ListedSame(t: Tree, r: Tree, kids: seq<Id>)
    requires forall k :: 0 <= k < |kids| ==> (kids[k] in t.ids <==> kids[k] in r.ids)
    requires forall k :: 0 <= k < |kids| && kids[k] in t.ids ==> r.ids[kids[k]].name.Some? == t.ids[kids[k]].name.Some?
    ensures Listed(r, kids) == Listed(t, kids)
  {
    if kids != [] {
      ListedSame(t, r, kids[1..]);
    }
  }

  // ---- create -----------------------------------------------------------

  /** The new node at the end of its folder, and in the indexes. A GUID in use still leads to the node that had it. */
  function Created(t: Tree, parent: Id, id: Id, name: string, guid: string, isDir: bool): (r: Tree)
    requires IsFolder(t, parent) && id !in t.nodes
  {
    WithKids(t, parent, t.nodes[parent].kids.value + [id]).(
      nodes := WithKids(t, parent, t.nodes[parent].kids.value + [id]).nodes[
        id := Node(name, "", guid, if isDir then Some([]) else None)],
      ids := t.ids[id := Entry(parent, Some(name))],
      assoc := t.assoc[(parent, name) := id],
      guids := if guid in t.guids then t.guids else t.guids[guid := id],
      maxId := id)
  }

  /** What a creation is to its callers: an empty node, listed last in its folder and found there by its name. */
  lemma CreatedIsSeen(t: Tree, parent: Id, id: Id, name: string, guid: string, isDir: bool)
    requires Linked(t) && IsFolder(t, parent) && id == t.maxId + 1
    ensures id !in t.nodes
    ensures var r := Created(t, parent, id, name, guid, isDir);
            && OthersStay(t, r, {parent, id}) && LookupsBecome(t, r, None, Some((parent, name)), id)
            && IsFolder(r, parent) && Listing(r, parent) == Listing(t, parent) + [id]
            && r.nodes[parent] == t.nodes[parent].(kids := r.nodes[parent].kids) && r.ids[parent] == t.ids[parent]
            && t.nodes[parent].kids.value < r.nodes[parent].kids.value
            && id in r.nodes && r.nodes[id].name == name && r.nodes[id].guid == guid && r.nodes[id].url == ""
            && (if isDir then IsFolder(r, id) && Listing(r, id) == [] else !IsFolder(r, id))
  {
    assert id !in t.ids;
    var r, kids := Created(t, parent, id, name, guid, isDir), t.nodes[parent].kids.value;
    assert KidsOk(t, parent);
    ListedConcat(r, kids, [id]);
    ListedSame(t, r, kids);
    assert Listed(r, [id]) == [id];
  }

  lemma CreatedLinked(t: Tree, parent: Id, id: Id, name: string, guid: string, isDir: bool)
    requires Linked(t) && IsFolder(t, parent) && id == t.maxId + 1
    ensures id !in t.nodes
    ensures Linked(Created(t, parent, id, name, guid, isDir))
  {
    assert id !in t.ids;
    var r := Created(t, parent, id, name, guid, isDir);
    forall p | IsFolder(r, p) ensures KidsOk(r, p) {
      if p != id {
        assert IsFolder(t, p) && KidsOk(t, p);
      }
    }
    forall x | x in r.ids && x != ROOT_ID ensures HasPlace(r, x) {
      if x != id {
        assert HasPlace(t, x);
      } else {
        assert r.nodes[parent].kids.value[|t.nodes[parent].kids.value|] == id;
      }
    }
  }

  lemma CreatedOk(t: Tree, parent: Id, id: Id, name: string, guid: string, isDir: bool)
    requires TreeOk(t) && IsFolder(t, parent) && id == t.maxId + 1
    requires (parent, name) !in t.assoc && guid !in t.guids
    ensures id !in t.nodes
    ensures TreeOk(Created(t, parent, id, name, guid, isDir))
  {
    CreatedLinked(t, parent, id, name, guid, isDir);
    CreatedNamed(t, parent, id, name, guid, isDir);
    CreatedGuids(t, parent, id, name, guid, isDir);
  }

  lemma CreatedNamed(t: Tree, parent: Id, id: Id, name: string, guid: string, isDir: bool)
    requires Named(t) && IsFolder(t, parent) && id !in t.nodes && id !in t.ids
    requires (parent, name) !in t.assoc && id != ROOT_ID
    ensures Named(Created(t, parent, id, name, guid, isDir))
  {
    var r := Created(t, parent, id, name, guid, isDir);
    forall p, n | (p, n) in r.assoc ensures LeadsTo(r, p, n) {
      if (p, n) != (parent, name) {
        assert LeadsTo(t, p, n);
      }
    }
    forall x | x in r.ids && x != ROOT_ID ensures Findable(r, x) {
      if x != id {
        assert Findable(t, x);
      }
    }
  }

  lemma CreatedGuids(t: Tree, parent: Id, id: Id, name: string, guid: string, isDir: bool)
    requires GuidsOk(t) && IsFolder(t, parent) && id !in t.nodes && guid !in t.guids
    ensures GuidsOk(Created(t, parent, id, name, guid, isDir))
  {
  }

  /** A GUID that is in use breaks the index of GUIDs, and nothing else does. */
  lemma CreatedGuidsIff(t: Tree, parent: Id, id: Id, name: string, guid: string, isDir: bool)
    requires GuidsOk(t) && IsFolder(t, parent) && id !in t.nodes
    ensures GuidsOk(Created(t, parent, id, name, guid, isDir)) <==> guid !in t.guids
  {
    var r := Created(t, parent, id, name, guid, isDir);
    if guid in t.guids {
      assert r.nodes[id].guid == guid && r.guids[guid] == t.guids[guid] != id;
    } else {
      CreatedGuids(t, parent, id, name, guid, isDir);
    }
  }

  lemma CreatedRanked(t: Tree, rank: map<Id, nat>, parent: Id, id: Id, name: string, guid: string, isDir: bool)
    requires Linked(t) && Ranked(t, rank) && IsFolder(t, parent) && id == t.maxId + 1
    ensures id !in t.nodes
    ensures Ranked(Created(t, parent, id, name, guid, isDir), rank[id := rank[parent] + 1])
  {
    assert id !in t.ids;
    forall x | x in t.ids && x != ROOT_ID ensures t.ids[x].parent != id {
      assert HasPlace(t, x);
    }
  }

  // ---- delete -----------------------------------------------------------

  function IndexOf(s: seq<Id>, x: Id): (k: nat)
    requires x in s
    ensures k < |s| && s[k] == x
  {
    if s[0] == x then 0 else 1 + IndexOf(s[1..], x)
  }

  function Deleted(t: Tree, x: Id): (r: Tree)
    requires x in t.ids && HasPlace(t, x) && t.ids[x].name.Some? && x in t.nodes
  {
    var e := t.ids[x];
    var kids := t.nodes[e.parent].kids.value;
    var t1 := WithKids(t, e.parent, RemoveAt(kids, IndexOf(kids, x)));
    t1.(nodes := t1.nodes - {x},
        ids := t.ids - {x},
        assoc := t.assoc - {(e.parent, e.name.value)},
        guids := t.guids - {t.nodes[x].guid})
  }

  /** What a deletion is to its callers: putting the node back where it was gives the old children array. */
  lemma DeletedIsSeen(t: Tree, x: Id)
    requires TreeOk(t) && x in t.ids && x != ROOT_ID && t.ids[x].name.Some?
    requires t.nodes[x].kids.None? || t.nodes[x].kids == Some([])
    ensures HasPlace(t, x)
    ensures var r, p := Deleted(t, x), t.ids[x].parent;
            && OthersStay(t, r, {p, x}) && LookupsBecome(t, r, Some((p, t.ids[x].name.value)), None, x)
            && x !in r.nodes && x !in r.ids && IsFolder(r, p) && IsFolder(t, p)
            && r.nodes[p] == t.nodes[p].(kids := r.nodes[p].kids) && r.ids[p] == t.ids[p]
            && PutBack(r.nodes[p].kids.value, x, t.nodes[p].kids.value)
            && (forall g :: g in r.guids <==> g in t.guids && g != t.nodes[x].guid)
            && (forall g :: g in r.guids ==> r.guids[g] == t.guids[g])
  {
    assert HasPlace(t, x);
    WithoutIsPutBack(t.nodes[t.ids[x].parent].kids.value, x);
  }

  /** Putting `x` back where it was in `was` gives `was`. */
  ghost predicate PutBack(now: seq<Id>, x: Id, was: seq<Id>)
  {
    x in was && |now| == |was| - 1 && InsertAt(now, IndexOf(was, x), x) == was
  }

  lemma WithoutIsPutBack(kids: seq<Id>, x: Id)
    requires x in kids
    ensures PutBack(RemoveAt(kids, IndexOf(kids, x)), x, kids)
  {
    RemoveThenInsert(kids, IndexOf(kids, x));
  }

  /** Removing one of distinct elements leaves the others. */
  lemma RemovedKids(kids: seq<Id>, x: Id)
    requires x in kids && forall j, k :: 0 <= j < k < |kids| ==> kids[j] != kids[k]
    ensures var r := RemoveAt(kids, IndexOf(kids, x));
            && (forall y :: y in r <==> y in kids && y != x)
            && (forall j, k :: 0 <= j < k < |r| ==> r[j] != r[k])
  {
    var i := IndexOf(kids, x);
    var r := RemoveAt(kids, i);
    assert forall k :: 0 <= k < |r| ==> r[k] == kids[if k < i then k else k + 1];
    forall y | y in kids && y != x ensures y in r {
      var k :| 0 <= k < |kids| && kids[k] == y;
      assert r[if k < i then k else k - 1] == y;
    }
  }

  lemma DeletedLinked(t: Tree, x: Id)
    requires Linked(t)
    requires x in t.ids && x != ROOT_ID && t.ids[x].name.Some?
    requires t.nodes[x].kids.None? || t.nodes[x].kids == Some([])
    ensures HasPlace(t, x) && Linked(Deleted(t, x))
  {
    assert HasPlace(t, x);
    var p := t.ids[x].parent;
    assert KidsOk(t, p);
    RemovedKids(t.nodes[p].kids.value, x);
    var r := Deleted(t, x);
    assert p != x;
    forall q | IsFolder(r, q) ensures KidsOk(r, q) {
      assert KidsOk(t, q);
      var kids := r.nodes[q].kids.value;
      forall k | 0 <= k < |kids| ensures kids[k] in r.ids && kids[k] != ROOT_ID && r.ids[kids[k]].parent == q {
        assert kids[k] in kids;
        assert kids[k] in t.nodes[q].kids.value;
      }
    }
    forall y | y in r.ids && y != ROOT_ID ensures HasPlace(r, y) {
      assert HasPlace(t, y);
    }
  }

  lemma DeletedOk(t: Tree, x: Id)
    requires TreeOk(t)
    requires x in t.ids && x != ROOT_ID && t.ids[x].name.Some?
    requires t.nodes[x].kids.None? || t.nodes[x].kids == Some([])
    ensures HasPlace(t, x) && TreeOk(Deleted(t, x))
  {
    DeletedLinked(t, x);
    assert KidsOk(t, t.ids[x].parent);
    DeletedNamed(t, x);
    DeletedGuids(t, x);
  }

  lemma DeletedNamed(t: Tree, x: Id)
    requires Named(t) && x in t.ids && x != ROOT_ID && t.ids[x].name.Some? && x in t.nodes && HasPlace(t, x)
    ensures Named(Deleted(t, x))
  {
    var r := Deleted(t, x);
    assert Findable(t, x);
    forall p, n | (p, n) in r.assoc ensures LeadsTo(r, p, n) {
      assert LeadsTo(t, p, n);
    }
    forall y | y in r.ids && y != ROOT_ID ensures Findable(r, y) {
      assert Findable(t, y);
    }
  }

  lemma DeletedGuids(t: Tree, x: Id)
    requires GuidsOk(t) && x in t.ids && t.ids[x].name.Some? && x in t.nodes && HasPlace(t, x)
    ensures GuidsOk(Deleted(t, x))
  {
  }

  // ---- rename -----------------------------------------------------------

  /** The children arrays once node `x` has moved to the end of folder `to`. */
  function MovedKids(t: Tree, x: Id, to: Id): (r: Tree)
    requires x in t.ids && HasPlace(t, x) && IsFolder(t, to) && t.ids[x].parent != to
  {
    var p := t.ids[x].parent;
    var kids := t.nodes[p].kids.value;
    WithKids(WithKids(t, to, t.nodes[to].kids.value + [x]), p, RemoveAt(kids, IndexOf(kids, x)))
  }

  function Renamed(t: Tree, x: Id, to: Id, name: string): (r: Tree)
    requires x in t.ids && HasPlace(t, x) && IsFolder(t, to) && t.ids[x].name.Some? && x in t.nodes
  {
    var e := t.ids[x];
    var t1 := if e.parent == to then t else MovedKids(t, x, to);
    t1.(nodes := t1.nodes[x := t1.nodes[x].(name := name)],
        ids := t.ids[x := Entry(to, Some(name))],
        assoc := (t.assoc - {(e.parent, e.name.value)})[(to, name) := x])
  }

  /** What a rename is to its callers: the same node under its new name, last in its new folder if it has one. */
  lemma RenamedIsSeen(t: Tree, x: Id, to: Id, name: string)
    requires TreeOk(t) && CanRename(t, x, to, name)
    ensures HasPlace(t, x)
    ensures var r, p := Renamed(t, x, to, name), t.ids[x].parent;
            && OthersStay(t, r, {x, p, to}) && r.guids == t.guids
            && LookupsBecome(t, r, Some((p, t.ids[x].name.value)), Some((to, name)), x)
            && r.ids == t.ids[x := Entry(to, Some(name))]
            && x in r.nodes && r.nodes[x] == t.nodes[x].(name := name, kids := r.nodes[x].kids)
            && (x != p && x != to ==> r.nodes[x].kids == t.nodes[x].kids)
            && IsFolder(r, p) && IsFolder(r, to)
            && (p == to ==> r.nodes[p].kids == t.nodes[p].kids)
            && (p != to ==>
                  && r.nodes[to].kids.value == t.nodes[to].kids.value + [x]
                  && PutBack(r.nodes[p].kids.value, x, t.nodes[p].kids.value))
  {
    assert HasPlace(t, x);
    WithoutIsPutBack(t.nodes[t.ids[x].parent].kids.value, x);
  }

  ghost predicate CanRename(t: Tree, x: Id, to: Id, name: string)
  {
    && x in t.ids && x != ROOT_ID && t.ids[x].name.Some?
    && IsFolder(t, to)
    && ((to, name) in t.assoc ==> t.assoc[(to, name)] == x)
  }

  lemma RenamedKidsAt(t: Tree, x: Id, to: Id, name: string, q: Id)
    requires Linked(t) && CanRename(t, x, to, name)
    requires HasPlace(t, x) && IsFolder(Renamed(t, x, to, name), q)
    ensures KidsOk(Renamed(t, x, to, name), q)
  {
    var r := Renamed(t, x, to, name);
    var p := t.ids[x].parent;
    assert KidsOk(t, q) && KidsOk(t, p);
    RemovedKids(t.nodes[p].kids.value, x);
    var was, kids := t.nodes[q].kids.value, r.nodes[q].kids.value;
    forall k | 0 <= k < |kids| ensures kids[k] in r.ids && kids[k] != ROOT_ID && r.ids[kids[k]].parent == q {
      assert kids[k] in kids;
      assert kids[k] in was || kids[k] == x;
    }
  }

  lemma RenamedPlace(t: Tree, x: Id, to: Id, name: string, y: Id)
    requires Linked(t) && CanRename(t, x, to, name)
    requires HasPlace(t, x) && y in t.ids && y != ROOT_ID
    ensures HasPlace(Renamed(t, x, to, name), y)
  {
    var r, p := Renamed(t, x, to, name), t.ids[x].parent;
    assert HasPlace(t, y) && KidsOk(t, p);
    RemovedKids(t.nodes[p].kids.value, x);
    if y == x && p != to {
      assert r.nodes[to].kids.value[|t.nodes[to].kids.value|] == x;
    }
  }

  lemma RenamedLinked(t: Tree, x: Id, to: Id, name: string)
    requires Linked(t) && CanRename(t, x, to, name)
    ensures HasPlace(t, x) && Linked(Renamed(t, x, to, name))
  {
    assert HasPlace(t, x);
    var r := Renamed(t, x, to, name);
    forall q | IsFolder(r, q) ensures KidsOk(r, q) {
      RenamedKidsAt(t, x, to, name, q);
    }
    forall y | y in r.ids && y != ROOT_ID ensures HasPlace(r, y) {
      RenamedPlace(t, x, to, name, y);
    }
  }

  lemma RenamedNamed(t: Tree, x: Id, to: Id, name: string)
    requires Named(t) && CanRename(t, x, to, name) && HasPlace(t, x) && x in t.nodes
    ensures Named(Renamed(t, x, to, name))
  {
    var r := Renamed(t, x, to, name);
    assert Findable(t, x);
    forall q, n | (q, n) in r.assoc ensures LeadsTo(r, q, n) {
      if (q, n) != (to, name) {
        assert LeadsTo(t, q, n);
      }
    }
    forall y | y in r.ids && y != ROOT_ID ensures Findable(r, y) {
      assert Findable(t, y);
      if y != x && t.ids[y].name.Some? {
        assert (t.ids[y].parent, t.ids[y].name.value) != (t.ids[x].parent, t.ids[x].name.value);
      }
    }
  }

  lemma RenamedGuids(t: Tree, x: Id, to: Id, name: string)
    requires GuidsOk(t) && CanRename(t, x, to, name) && HasPlace(t, x) && x in t.nodes
    ensures GuidsOk(Renamed(t, x, to, name))
  {
    var r := Renamed(t, x, to, name);
    forall y | y in t.nodes ensures y in r.nodes && r.nodes[y].guid == t.nodes[y].guid {
    }
  }

  /** A rename that replaces nothing keeps tree and indexes in agreement. */
  lemma RenamedOk(t: Tree, x: Id, to: Id, name: string)
    requires TreeOk(t) && CanRename(t, x, to, name)
    ensures HasPlace(t, x) && TreeOk(Renamed(t, x, to, name))
  {
    RenamedLinked(t, x, to, name);
    RenamedNamed(t, x, to, name);
    RenamedGuids(t, x, to, name);
  }

  // ---- what hangs under what --------------------------------------------

  /** `y` is `x` or somewhere below it. */
  ghost predicate Under(t: Tree, rank: map<Id, nat>, y: Id, x: Id)
    requires Linked(t) && Ranked(t, rank) && y in t.ids
    decreases rank[y]
  {
    y == x || (y != ROOT_ID && (assert HasPlace(t, y); Under(t, rank, t.ids[y].parent, x)))
  }

  lemma {:induction false} EveryNodeIsUnderRoot(t: Tree, rank: map<Id, nat>, y: Id)
    requires Linked(t) && Ranked(t, rank) && y in t.ids
    ensures Under(t, rank, y, ROOT_ID)
    decreases rank[y]
  {
    if y != ROOT_ID {
      assert HasPlace(t, y);
      EveryNodeIsUnderRoot(t, rank, t.ids[y].parent);
    }
  }

  /** Ranks for the tree in which everything under `x` has moved below `to`. */
  ghost function MovedRank(t: Tree, rank: map<Id, nat>, x: Id, to: Id): (r: map<Id, nat>)
    requires Linked(t) && Ranked(t, rank) && to in t.ids
  {
    map y | y in t.ids :: rank[y] + if Under(t, rank, y, x) then rank[to] + 1 else 0
  }

  lemma MoveOutsideStaysRanked(t: Tree, rank: map<Id, nat>, x: Id, to: Id, name: string)
    requires Linked(t) && Ranked(t, rank) && CanRename(t, x, to, name) && HasPlace(t, x) && to in t.ids
    requires !Under(t, rank, to, x)
    ensures Ranked(Renamed(t, x, to, name), MovedRank(t, rank, x, to))
  {
    var r, rank' := Renamed(t, x, to, name), MovedRank(t, rank, x, to);
    forall y | y in r.ids && y != ROOT_ID ensures r.ids[y].parent in rank' && rank'[r.ids[y].parent] < rank'[y] {
      assert HasPlace(t, y);
      if y != x {
        assert Under(t, rank, y, x) <==> Under(t, rank, t.ids[y].parent, x);
      }
    }
  }

  lemma {:induction false} RankedAlong(t: Tree, rank: map<Id, nat>, r: Tree, rank': map<Id, nat>, y: Id, x: Id)
    requires Linked(t) && Ranked(t, rank) && y in t.ids && Under(t, rank, y, x)
    requires Ranked(r, rank') && r.ids.Keys == t.ids.Keys
    requires forall z :: z in t.ids && z != x ==> r.ids[z].parent == t.ids[z].parent
    ensures x in rank' && y in rank' && rank'[x] <= rank'[y]
    decreases rank[y]
  {
    if y != x {
      assert HasPlace(t, y);
      RankedAlong(t, rank, r, rank', t.ids[y].parent, x);
    }
  }

  /** A move keeps everything under the root exactly when it does not go below the moved node. */
  lemma MoveIsRankedIff(t: Tree, rank: map<Id, nat>, x: Id, to: Id, name: string)
    requires Linked(t) && Ranked(t, rank) && CanRename(t, x, to, name) && HasPlace(t, x) && to in t.ids
    ensures (exists rank' :: Ranked(Renamed(t, x, to, name), rank')) <==> !Under(t, rank, to, x)
  {
    var r := Renamed(t, x, to, name);
    if !Under(t, rank, to, x) {
      MoveOutsideStaysRanked(t, rank, x, to, name);
    } else {
      forall rank' ensures !Ranked(r, rank') {
        assert r.ids[x].parent == to;
        if Ranked(r, rank') {
          RankedAlong(t, rank, r, rank', to, x);
        }
      }
    }
  }

  // ---- permute ----------------------------------------------------------

  lemma PermutedOk(t: Tree, p: Id, kids: seq<Id>)
    requires TreeOk(t) && IsFolder(t, p)
    requires |kids| == |t.nodes[p].kids.value|
    requires forall y :: y in kids <==> y in t.nodes[p].kids.value
    requires forall j, k :: 0 <= j < k < |kids| ==> kids[j] != kids[k]
    ensures TreeOk(WithKids(t, p, kids))
  {
    var r := WithKids(t, p, kids);
    forall q | IsFolder(r, q) ensures KidsOk(r, q) {
      assert KidsOk(t, q);
      if q == p {
        forall k | 0 <= k < |kids| ensures kids[k] in r.ids && kids[k] != ROOT_ID && r.ids[kids[k]].parent == q {
          assert kids[k] in kids;
        }
      }
    }
    forall x | x in r.ids && x != ROOT_ID ensures HasPlace(r, x) {
      assert HasPlace(t, x);
    }
    forall q, n | (q, n) in r.assoc ensures LeadsTo(r, q, n) {
      assert LeadsTo(t, q, n);
    }
    forall x | x in r.ids && x != ROOT_ID ensures Findable(r, x) {
      assert Findable(t, x);
    }
  }
}
