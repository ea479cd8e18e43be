/** A rename in the Chromium backend that replaces another node. */
module BookmarkReplace {
  import opened Basics
  import opened Siblings
  import opened BookmarkIndex

  /** Node `x` can take the place of `y`, which is known as `name` in the folder `to`. */
  ghost predicate CanReplace(t: Tree, x: Id, y: Id, to: Id, name: string)
  {
    && x in t.ids && x in t.nodes && x != ROOT_ID && t.ids[x].name.Some?
    && IsFolder(t, to)
    && (to, name) in t.assoc && t.assoc[(to, name)] == y && y != x && y in t.nodes
    && (t.nodes[y].kids == None || t.nodes[y].kids == Some([]))
  }

  /**
  What the backend does. In another folder the node of `y` is overwritten with that of `x`, and
  `x` leaves its old folder; in the same folder only the name changes. Either way `y` leaves
  the indexes.
  */
  function Replaced(t: Tree, x: Id, y: Id, to: Id, name: string): (r: Tree)
    requires x in t.ids && x in t.nodes && HasPlace(t, x) && t.ids[x].name.Some? && y in t.nodes && y != x
    requires IsFolder(t, to) && y in t.nodes[to].kids.value
  {
    var e := t.ids[x];
    var nodes := if e.parent == to then t.nodes else OverwrittenNodes(t, x, y, to);
    t.(nodes := nodes[x := nodes[x].(name := name)],
       ids := (t.ids - {y})[x := Entry(to, Some(name))],
       assoc := (t.assoc - {(to, name)} - {(e.parent, e.name.value)})[(to, name) := x],
       guids := t.guids - {t.nodes[y].guid})
  }

  function OverwrittenNodes(t: Tree, x: Id, y: Id, to: Id): (r: map<Id, Node>)
    requires x in t.ids && HasPlace(t, x) && IsFolder(t, to) && y in t.nodes[to].kids.value && t.ids[x].parent != to
    ensures r.Keys == t.nodes.Keys - {y}
  {
    var p := t.ids[x].parent;
    var kids, there := t.nodes[p].kids.value, t.nodes[to].kids.value;
    t.nodes[to := t.nodes[to].(kids := Some(there[IndexOf(there, y) := x]))]
           [p := t.nodes[p].(kids := Some(RemoveAt(kids, IndexOf(kids, x))))] - {y}
  }

  /** Overwriting an element, or dropping it and appending the new one: the same elements. */
  lemma OverwriteIsAppend(s: seq<Id>, i: nat, x: Id)
    requires i < |s| && x !in s && forall j, k :: 0 <= j < k < |s| ==> s[j] != s[k]
    ensures var a, b := s[i := x], RemoveAt(s, i) + [x];
            && |a| == |b| && (forall y :: y in a <==> y in b)
            && (forall j, k :: 0 <= j < k < |a| ==> a[j] != a[k])
  {
    var a, b := s[i := x], RemoveAt(s, i) + [x];
    forall y | y in a ensures y in b {
      var k :| 0 <= k < |a| && a[k] == y;
      assert b[if k < i then k else if k == i then |s| - 1 else k - 1] == y;
    }
    forall y | y in b ensures y in a {
      var k :| 0 <= k < |b| && b[k] == y;
      assert a[if k == |s| - 1 then i else if k < i then k else k + 1] == y;
    }
  }

  /** What is known of the two nodes and their folders. */
  lemma Places(t: Tree, x: Id, y: Id, to: Id, name: string)
    requires TreeOk(t) && CanReplace(t, x, y, to, name)
    ensures HasPlace(t, x) && HasPlace(t, y) && t.ids[y] == Entry(to, Some(name)) && y != ROOT_ID
    ensures y != to && y != t.ids[x].parent
    ensures t.ids[x].parent != to ==> x !in t.nodes[to].kids.value
    ensures t.nodes[y].name == name
  {
    assert LeadsTo(t, to, name);
    assert HasPlace(t, x) && HasPlace(t, y);
    assert KidsOk(t, to);
    assert KidsOk(t, t.ids[x].parent);
    if x in t.nodes[to].kids.value {
      var k :| 0 <= k < |t.nodes[to].kids.value| && t.nodes[to].kids.value[k] == x;
      assert t.ids[t.nodes[to].kids.value[k]].parent == to;
    }
  }

  /** The same in three steps: `y` is deleted, `x` is renamed, and then moved to where `y` was. */
  function InSteps(t: Tree, x: Id, y: Id, to: Id, name: string): (r: Tree)
    requires TreeOk(t) && CanReplace(t, x, y, to, name) && t.ids[x].parent != to
  {
    StepsPossible(t, x, y, to, name);
    var there := t.nodes[to].kids.value;
    WithKids(Renamed(Deleted(t, y), x, to, name), to, there[IndexOf(there, y) := x])
  }

  lemma StepsPossible(t: Tree, x: Id, y: Id, to: Id, name: string)
    requires TreeOk(t) && CanReplace(t, x, y, to, name) && t.ids[x].parent != to
    ensures y in t.ids && HasPlace(t, y) && t.ids[y].name.Some?
    ensures var d := Deleted(t, y);
            TreeOk(d) && CanRename(d, x, to, name) && HasPlace(d, x) && x in d.nodes && IsFolder(Renamed(d, x, to, name), to)
    ensures y in t.nodes[to].kids.value
  {
    Places(t, x, y, to, name);
    DeletedOk(t, y);
    assert HasPlace(Deleted(t, y), x);
  }

  lemma SameNodes(t: Tree, x: Id, y: Id, to: Id, name: string)
    requires TreeOk(t) && CanReplace(t, x, y, to, name) && t.ids[x].parent != to
    ensures HasPlace(t, x) && y in t.nodes[to].kids.value
    ensures Replaced(t, x, y, to, name).nodes == InSteps(t, x, y, to, name).nodes
  {
    Places(t, x, y, to, name);
    StepsPossible(t, x, y, to, name);
    var a, b := Replaced(t, x, y, to, name).nodes, InSteps(t, x, y, to, name).nodes;
    assert a.Keys == b.Keys;
    forall z | z in a ensures a[z] == b[z] {
    }
  }

  lemma StepsAreReplacement(t: Tree, x: Id, y: Id, to: Id, name: string)
    requires TreeOk(t) && CanReplace(t, x, y, to, name) && t.ids[x].parent != to
    ensures HasPlace(t, x) && y in t.nodes[to].kids.value
    ensures Replaced(t, x, y, to, name) == InSteps(t, x, y, to, name)
  {
    SameNodes(t, x, y, to, name);
    Places(t, x, y, to, name);
    var a, b := Replaced(t, x, y, to, name), InSteps(t, x, y, to, name);
    assert a.ids == b.ids;
    assert a.assoc == b.assoc;
  }

  lemma StepsOk(t: Tree, x: Id, y: Id, to: Id, name: string)
    requires TreeOk(t) && CanReplace(t, x, y, to, name) && t.ids[x].parent != to
    ensures TreeOk(InSteps(t, x, y, to, name))
  {
    Places(t, x, y, to, name);
    StepsPossible(t, x, y, to, name);
    var d := Deleted(t, y);
    RenamedOk(d, x, to, name);
    var r := Renamed(d, x, to, name);
    assert KidsOk(t, to);
    var there := t.nodes[to].kids.value;
    OverwriteIsAppend(there, IndexOf(there, y), x);
    PermutedOk(r, to, there[IndexOf(there, y) := x]);
  }

  /** The tree, with other answers to lookups by name when the name index is damaged. */
  function WithLookups(t: Tree, stale: Option<map<(Id, string), Id>>): (r: Tree)
  {
    if stale.None? then t else t.(assoc := stale.value)
  }

  /** The entries of the nodes leave no choice to the lookup by name. */
  lemma LookupsAreDetermined(t: Tree, u: Tree)
    requires Named(t) && Named(u) && u == t.(assoc := u.assoc)
    ensures u.assoc == t.assoc
  {
    forall k | k in u.assoc ensures k in t.assoc && t.assoc[k] == u.assoc[k] {
      var (p, n) := k;
      assert LeadsTo(u, p, n);
      assert Findable(t, u.assoc[k]);
    }
    forall k | k in t.assoc ensures k in u.assoc {
      var (p, n) := k;
      assert LeadsTo(t, p, n);
      assert Findable(u, t.assoc[k]);
    }
  }

  /**
  A replacing rename keeps tree and indexes in agreement exactly when it changes the folder and
  lookups by name have not gone stale. They do when the id of the moved entry no longer names it
  after the removal of the replaced one.
  */
  lemma ReplacedOkIff(t: Tree, x: Id, y: Id, to: Id, name: string, stale: Option<map<(Id, string), Id>>)
    requires TreeOk(t) && CanReplace(t, x, y, to, name)
    ensures HasPlace(t, x) && y in t.nodes[to].kids.value
    ensures TreeOk(WithLookups(Replaced(t, x, y, to, name), stale)) <==>
            t.ids[x].parent != to && (stale.None? || stale.value == Replaced(t, x, y, to, name).assoc)
  {
    Places(t, x, y, to, name);
    var r := Replaced(t, x, y, to, name);
    var u := WithLookups(r, stale);
    if t.ids[x].parent != to {
      StepsAreReplacement(t, x, y, to, name);
      StepsOk(t, x, y, to, name);
      if Named(u) {
        LookupsAreDetermined(r, u);
      }
    } else {
      assert y in u.nodes && y !in u.ids;
    }
  }

  /** What is left in the same folder: both nodes under the same name, and no index knows the second. */
  lemma ReplacedInFolder(t: Tree, x: Id, y: Id, to: Id, name: string)
    requires TreeOk(t) && CanReplace(t, x, y, to, name) && t.ids[x].parent == to
    ensures HasPlace(t, x) && y in t.nodes[to].kids.value
    ensures var r := Replaced(t, x, y, to, name);
            && OthersStay(t, r, {x, y}) && r.nodes.Keys == t.nodes.Keys && r.nodes[to].kids == t.nodes[to].kids
            && r.nodes[x] == t.nodes[x].(name := name) && r.nodes[y] == t.nodes[y] && r.nodes[y].name == name
            && y !in r.ids && (forall g :: g in r.guids ==> r.guids[g] != y)
            && LookupsBecome(t, r, Some((to, t.ids[x].name.value)), Some((to, name)), x)
  {
    Places(t, x, y, to, name);
  }

  /** What hangs under `x` did so before the deletion of `y`. */
  lemma {:induction false} UnderDeleted(t: Tree, rank: map<Id, nat>, y: Id, z: Id, x: Id)
    requires Linked(t) && Ranked(t, rank) && y in t.ids && y in t.nodes && HasPlace(t, y) && t.ids[y].name.Some?
    requires Linked(Deleted(t, y)) && Ranked(Deleted(t, y), rank) && z in Deleted(t, y).ids
    ensures Under(Deleted(t, y), rank, z, x) ==> Under(t, rank, z, x)
    decreases rank[z]
  {
    if z != x && z != ROOT_ID {
      assert HasPlace(Deleted(t, y), z) && HasPlace(t, z);
      UnderDeleted(t, rank, y, t.ids[z].parent, x);
    }
  }

  /** A replacing rename into another folder, outside the moved node, keeps everything under the root. */
  lemma ReplacedRanked(t: Tree, rank: map<Id, nat>, x: Id, y: Id, to: Id, name: string) returns (rank': map<Id, nat>)
    requires TreeOk(t) && Ranked(t, rank) && CanReplace(t, x, y, to, name) && t.ids[x].parent != to
    requires to in t.ids && !Under(t, rank, to, x)
    ensures HasPlace(t, x) && y in t.nodes[to].kids.value
    ensures Ranked(Replaced(t, x, y, to, name), rank')
  {
    Places(t, x, y, to, name);
    StepsPossible(t, x, y, to, name);
    var d := Deleted(t, y);
    assert Ranked(d, rank);
    UnderDeleted(t, rank, y, to, x);
    MoveOutsideStaysRanked(d, rank, x, to, name);
    StepsAreReplacement(t, x, y, to, name);
    rank' := MovedRank(d, rank, x, to);
  }
}
