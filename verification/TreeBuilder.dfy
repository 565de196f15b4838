/** Two ways of turning rows with parent ids into a forest: one pass over the rows, and recursion from the roots. */
module TreeBuilder {
  import opened Prelude

  datatype Row = Row(id: int, parentId: Option<int>)

  datatype Tree = Tree(id: int, children: seq<Tree>)

  function Ids(rows: seq<Row>): set<int> {
    set r | r in rows :: r.id
  }

  ghost predicate DistinctIds(rows: seq<Row>) {
    forall i, j :: 0 <= i < j < |rows| ==> rows[i].id != rows[j].id
  }

  /** The ids of the rows with a given parent, in row order. */
  function ChildIds(rows: seq<Row>, parentId: Option<int>): (ids: seq<int>)
    ensures forall id :: id in ids <==> Row(id, parentId) in rows
  {
    if rows == [] then []
    else
      var last := rows[|rows| - 1];
      assert rows == rows[..|rows| - 1] + [last];
      ChildIds(rows[..|rows| - 1], parentId) + (if last.parentId == parentId then [last.id] else [])
  }

  // ----- the forest that is meant -----

  /** The row that place i of a path stands for: its parent is the place before, and that of the first place is the
      given start. A path from None starts at a root. */
  function RowAt(start: Option<int>, path: seq<int>, i: nat): Row
    requires i < |path|
  {
    Row(path[i], if i == 0 then start else Some(path[i - 1]))
  }

  /** Downwards from the children of start, each id the parent of the next. */
  ghost predicate IsPath(rows: seq<Row>, start: Option<int>, path: seq<int>) {
    forall i :: 0 <= i < |path| ==> RowAt(start, path, i) in rows
  }

  function Last(start: Option<int>, path: seq<int>): Option<int> {
    if path == [] then start else Some(path[|path| - 1])
  }

  /** The start is its own ancestor. */
  ghost predicate OnCycle(rows: seq<Row>, start: Option<int>) {
    start.Some? && exists loop :: loop != [] && IsPath(rows, start, loop) && Last(start, loop) == start
  }

  ghost predicate IsSearchable(rows: seq<Row>, start: Option<int>) {
    DistinctIds(rows) && !OnCycle(rows, start)
  }

  lemma UniqueRow(rows: seq<Row>, a: Row, b: Row)
    requires DistinctIds(rows) && a in rows && b in rows && a.id == b.id
    ensures a == b
  {
    var i :| 0 <= i < |rows| && rows[i] == a;
    var j :| 0 <= j < |rows| && rows[j] == b;
  }

  lemma PathPrefix(rows: seq<Row>, start: Option<int>, path: seq<int>, n: nat)
    requires IsPath(rows, start, path) && n <= |path|
    ensures IsPath(rows, start, path[..n])
  {
    forall i | 0 <= i < n ensures RowAt(start, path[..n], i) in rows {
      assert RowAt(start, path[..n], i) == RowAt(start, path, i);
    }
  }

  lemma NoReturn(rows: seq<Row>, start: Option<int>, path: seq<int>)
    requires IsSearchable(rows, start) && IsPath(rows, start, path)
    ensures path != [] ==> Last(start, path) != start
  {}

  /** There is only one path to an id. */
  lemma {:induction false} PathIsUnique(rows: seq<Row>, start: Option<int>, p: seq<int>, q: seq<int>)
    requires IsSearchable(rows, start) && IsPath(rows, start, p) && IsPath(rows, start, q)
    requires p != [] && q != [] && Last(start, p) == Last(start, q)
    ensures p == q
    decreases |p|
  {
    var m, n := |p| - 1, |q| - 1;
    UniqueRow(rows, RowAt(start, p, m), RowAt(start, q, n));
    PathPrefix(rows, start, p, m);
    PathPrefix(rows, start, q, n);
    NoReturn(rows, start, p[..m]);
    NoReturn(rows, start, q[..n]);
    assert p == p[..m] + [p[m]] && q == q[..n] + [q[n]];
    if m > 0 && n > 0 {
      PathIsUnique(rows, start, p[..m], q[..n]);
    }
  }

  /** No id occurs twice on a path, so a path is no longer than the rows are many. */
  lemma {:induction false} PathIsBounded(rows: seq<Row>, start: Option<int>, path: seq<int>)
    requires IsSearchable(rows, start) && IsPath(rows, start, path)
    ensures forall i, j :: 0 <= i < j < |path| ==> path[i] != path[j]
    ensures |path| <= |Ids(rows)|
  {
    forall i, j | 0 <= i < j < |path| ensures path[i] != path[j] {
      if path[i] == path[j] {
        PathPrefix(rows, start, path, i + 1);
        PathPrefix(rows, start, path, j + 1);
        PathIsUnique(rows, start, path[..i + 1], path[..j + 1]);
        assert false;
      }
    }
    forall i | 0 <= i < |path| ensures path[i] in Ids(rows) {
      assert RowAt(start, path, i) in rows;
    }
    DistinctIsBounded(path, Ids(rows));
  }

  lemma {:induction false} DistinctIsBounded(s: seq<int>, bound: set<int>)
    requires forall i, j :: 0 <= i < j < |s| ==> s[i] != s[j]
    requires forall i :: 0 <= i < |s| ==> s[i] in bound
    ensures |s| <= |bound|
  {
    if s != [] {
      DistinctIsBounded(s[1..], bound - {s[0]});
    }
  }

  lemma ExtendPath(rows: seq<Row>, start: Option<int>, path: seq<int>, id: int)
    requires IsSearchable(rows, start) && IsPath(rows, start, path) && Row(id, Last(start, path)) in rows
    ensures IsPath(rows, start, path + [id]) && |path| < |Ids(rows)|
  {
    var longer := path + [id];
    forall i | 0 <= i < |longer| ensures RowAt(start, longer, i) in rows {
      if i < |path| {
        assert RowAt(start, longer, i) == RowAt(start, path, i);
      }
    }
    PathIsBounded(rows, start, longer);
  }

  /** The trees below the end of a path, in row order. */
  ghost function Forest(rows: seq<Row>, start: Option<int>, path: seq<int>): (f: seq<Tree>)
    requires IsSearchable(rows, start) && IsPath(rows, start, path)
    ensures |f| == |ChildIds(rows, Last(start, path))|
    decreases |Ids(rows)| - |path|
  {
    var ids := ChildIds(rows, Last(start, path));
    assert forall i :: 0 <= i < |ids| ==> IsPath(rows, start, path + [ids[i]]) && |path| < |Ids(rows)| by {
      forall i | 0 <= i < |ids| ensures IsPath(rows, start, path + [ids[i]]) && |path| < |Ids(rows)| {
        ExtendPath(rows, start, path, ids[i]);
      }
    }
    seq(|ids|, i requires 0 <= i < |ids| => Tree(ids[i], Forest(rows, start, path + [ids[i]])))
  }

  lemma ForestAt(rows: seq<Row>, start: Option<int>, path: seq<int>, i: nat)
    requires IsSearchable(rows, start) && IsPath(rows, start, path) && i < |ChildIds(rows, Last(start, path))|
    ensures var c := ChildIds(rows, Last(start, path))[i];
            && Row(c, Last(start, path)) in rows && IsPath(rows, start, path + [c]) && |path| < |Ids(rows)|
            && Forest(rows, start, path)[i] == Tree(c, Forest(rows, start, path + [c]))
  {
    ExtendPath(rows, start, path, ChildIds(rows, Last(start, path))[i]);
  }

  // ----- nodes on the heap -----

  /** A node dictionary; an empty sequence stands for the absent key 'children'. */
  class Node {
    const row: Row
    var children: seq<Node>

    constructor (row: Row)
      ensures this.row == row && children == []
    {
      this.row := row;
      children := [];
    }
  }

  function Rows(nodes: seq<Node>): (rows: seq<Row>)
    ensures |rows| == |nodes| && forall i :: 0 <= i < |nodes| ==> rows[i] == nodes[i].row
  {
    seq(|nodes|, i requires 0 <= i < |nodes| => nodes[i].row)
  }

  function ChildNodes(nodes: seq<Node>, parentId: Option<int>): (r: seq<Node>)
    ensures forall n :: n in r ==> n in nodes && n.row.parentId == parentId
    ensures forall n :: n in nodes && n.row.parentId == parentId ==> n in r
  {
    if nodes == [] then []
    else
      var last := nodes[|nodes| - 1];
      ChildNodes(nodes[..|nodes| - 1], parentId) + (if last.row.parentId == parentId then [last] else [])
  }

  lemma {:induction false} ChildNodesAreChildIds(nodes: seq<Node>, parentId: Option<int>)
    ensures |ChildNodes(nodes, parentId)| == |ChildIds(Rows(nodes), parentId)|
    ensures forall i :: 0 <= i < |ChildNodes(nodes, parentId)| ==>
              ChildNodes(nodes, parentId)[i].row.id == ChildIds(Rows(nodes), parentId)[i]
  {
    if nodes != [] {
      assert Rows(nodes)[..|nodes| - 1] == Rows(nodes[..|nodes| - 1]);
      ChildNodesAreChildIds(nodes[..|nodes| - 1], parentId);
    }
  }

  /** Node n and everything below it have the shape of tree t. */
  ghost predicate Represents(n: Node, t: Tree, nodes: set<Node>)
    reads nodes
    decreases t
  {
    && n in nodes && n.row.id == t.id && |n.children| == |t.children|
    && forall i :: 0 <= i < |t.children| ==> Represents(n.children[i], t.children[i], nodes)
  }

  ghost predicate AllRepresent(tree: seq<Node>, forest: seq<Tree>, nodes: set<Node>)
    reads nodes
  {
    |tree| == |forest| && forall i :: 0 <= i < |tree| ==> Represents(tree[i], forest[i], nodes)
  }

  /** The node holds exactly its children, in row order. */
  ghost predicate IsLinked(n: Node, nodes: seq<Node>)
    reads n
  {
    n.children == ChildNodes(nodes, Some(n.row.id))
  }

  ghost function Linked(nodes: seq<Node>): set<Node>
    reads Elements(nodes)
  {
    set n | n in nodes && IsLinked(n, nodes)
  }

  /** Every node that a longer path reaches is among the given ones. */
  ghost predicate IncludesBelow(nodes: seq<Node>, start: Option<int>, path: seq<int>, linked: set<Node>) {
    forall q, n :: n in nodes && IsPath(Rows(nodes), start, q) && path < q && Some(n.row.id) == Last(start, q) ==>
        n in linked
  }

  lemma IncludesBelowExtends(nodes: seq<Node>, start: Option<int>, path: seq<int>, longer: seq<int>,
                             linked: set<Node>, more: set<Node>)
    requires IncludesBelow(nodes, start, path, linked) && path <= longer && linked <= more
    ensures IncludesBelow(nodes, start, longer, more)
  {
    forall q, n | n in nodes && IsPath(Rows(nodes), start, q) && longer < q && Some(n.row.id) == Last(start, q)
      ensures n in more
    {
      assert path < q;
    }
  }

  /** Linked nodes spell out the forest. */
  lemma {:induction false} LinkedRepresents(nodes: seq<Node>, start: Option<int>, path: seq<int>)
    requires IsSearchable(Rows(nodes), start) && IsPath(Rows(nodes), start, path)
    requires IncludesBelow(nodes, start, path, Linked(nodes))
    ensures AllRepresent(ChildNodes(nodes, Last(start, path)), Forest(Rows(nodes), start, path), Elements(nodes))
    decreases |Ids(Rows(nodes))| - |path|
  {
    hide Forest, IsPath, IncludesBelow;
    var rows := Rows(nodes);
    var tree, forest := ChildNodes(nodes, Last(start, path)), Forest(rows, start, path);
    ChildNodesAreChildIds(nodes, Last(start, path));
    forall i | 0 <= i < |tree| ensures Represents(tree[i], forest[i], Elements(nodes)) {
      var n := tree[i];
      assert n in tree && n in nodes;
      ForestAt(rows, start, path, i);
      IncludedChild(nodes, start, path, n);
      LinkedRepresents(nodes, start, path + [n.row.id]);
      assert n in Linked(nodes) && IsLinked(n, nodes);
    }
  }

  lemma IncludedChild(nodes: seq<Node>, start: Option<int>, path: seq<int>, n: Node)
    requires n in nodes && n.row.parentId == Last(start, path) && IsPath(Rows(nodes), start, path + [n.row.id])
    requires IncludesBelow(nodes, start, path, Linked(nodes))
    ensures n in Linked(nodes) && IncludesBelow(nodes, start, path + [n.row.id], Linked(nodes))
  {
    var longer := path + [n.row.id];
    IncludesBelowExtends(nodes, start, path, longer, Linked(nodes), Linked(nodes));
    assert path < longer && Last(start, longer) == Some(n.row.id);
  }

  /** Nothing is attached yet, or exactly the right children are. */
  ghost predicate IsClean(nodes: seq<Node>)
    reads Elements(nodes)
  {
    forall n :: n in nodes ==> n.children == [] || IsLinked(n, nodes)
  }

  lemma NodeOfRow(nodes: seq<Node>, row: Row) returns (k: nat)
    requires row in Rows(nodes)
    ensures k < |nodes| && nodes[k].row == row
  {
    k :| 0 <= k < |nodes| && Rows(nodes)[k] == row;
  }

  lemma SameIdSameNode(nodes: seq<Node>, n: Node, k: nat)
    requires DistinctIds(Rows(nodes)) && n in nodes && k < |nodes| && n.row.id == nodes[k].row.id
    ensures n == nodes[k]
  {
    var j :| 0 <= j < |nodes| && nodes[j] == n;
    assert Rows(nodes)[j].id == Rows(nodes)[k].id;
  }

  /** Child k of the end of the path is linked, and so is everything below it. */
  ghost predicate IsBuilt(nodes: seq<Node>, start: Option<int>, path: seq<int>, k: nat, linked: set<Node>)
    requires k < |nodes|
  {
    nodes[k] in linked && IncludesBelow(nodes, start, path + [nodes[k].row.id], linked)
  }

  ghost predicate ChildrenBuilt(nodes: seq<Node>, start: Option<int>, path: seq<int>, i: nat, linked: set<Node>)
    requires i <= |nodes|
  {
    forall k :: 0 <= k < i && nodes[k].row.parentId == Last(start, path) ==> IsBuilt(nodes, start, path, k, linked)
  }

  lemma NothingBuilt(nodes: seq<Node>, start: Option<int>, path: seq<int>, linked: set<Node>)
    ensures ChildrenBuilt(nodes, start, path, 0, linked)
  {}

  lemma BuiltNext(nodes: seq<Node>, start: Option<int>, path: seq<int>, i: nat, linked: set<Node>)
    requires i < |nodes| && ChildrenBuilt(nodes, start, path, i, linked)
    requires nodes[i].row.parentId == Last(start, path) ==> IsBuilt(nodes, start, path, i, linked)
    ensures ChildrenBuilt(nodes, start, path, i + 1, linked)
  {}

  lemma NoChildNodes(nodes: seq<Node>, parentId: Option<int>)
    ensures ChildNodes(nodes[..0], parentId) == []
  {}

  lemma RowOfNode(nodes: seq<Node>, i: nat)
    requires i < |nodes|
    ensures nodes[i].row in Rows(nodes)
  {
    assert Rows(nodes)[i] == nodes[i].row;
  }

  lemma StillBuilt(nodes: seq<Node>, start: Option<int>, path: seq<int>, i: nat, linked: set<Node>, more: set<Node>)
    requires i <= |nodes| && linked <= more && ChildrenBuilt(nodes, start, path, i, linked)
    ensures ChildrenBuilt(nodes, start, path, i, more)
  {
    forall k | 0 <= k < i && nodes[k].row.parentId == Last(start, path) ensures IsBuilt(nodes, start, path, k, more) {
      var longer := path + [nodes[k].row.id];
      IncludesBelowExtends(nodes, start, longer, longer, linked, more);
    }
  }

  lemma AllChildrenBuilt(nodes: seq<Node>, start: Option<int>, path: seq<int>, linked: set<Node>)
    requires DistinctIds(Rows(nodes)) && ChildrenBuilt(nodes, start, path, |nodes|, linked)
    ensures IncludesBelow(nodes, start, path, linked)
  {
    var rows := Rows(nodes);
    forall q, n | n in nodes && IsPath(rows, start, q) && path < q && Some(n.row.id) == Last(start, q)
      ensures n in linked
    {
      var m := |path|;
      assert RowAt(start, q, m) in rows && RowAt(start, q, m).parentId == Last(start, path);
      var k := NodeOfRow(nodes, RowAt(start, q, m));
      assert IsBuilt(nodes, start, path, k, linked);
      if |q| == m + 1 {
        SameIdSameNode(nodes, n, k);
      } else {
        assert path + [nodes[k].row.id] < q;
      }
    }
  }

  lemma ChildNodesStep(nodes: seq<Node>, parentId: Option<int>, i: nat)
    requires i < |nodes|
    ensures ChildNodes(nodes[..i + 1], parentId)
         == ChildNodes(nodes[..i], parentId) + (if nodes[i].row.parentId == parentId then [nodes[i]] else [])
  {
    assert nodes[..i + 1][..i] == nodes[..i];
  }

  /** The recursion from a parent id; start is the parent id of the outermost call, and the path leads from there to
      this one. The outermost call may have any parent id that is not its own ancestor. */
  method RecursiveToTree(nodes: seq<Node>, parentId: Option<int>, ghost start: Option<int>, ghost path: seq<int>)
      returns (tree: seq<Node>)
    requires IsSearchable(Rows(nodes), start) && IsPath(Rows(nodes), start, path) && parentId == Last(start, path)
    requires IsClean(nodes)
    modifies nodes
    ensures tree == ChildNodes(nodes, parentId)
    ensures IsClean(nodes) && IncludesBelow(nodes, start, path, Linked(nodes))
    ensures old(Linked(nodes)) <= Linked(nodes)
    decreases |Ids(Rows(nodes))| - |path|
  {
    hide IncludesBelow, IsPath, ChildNodes, ChildrenBuilt, Rows, DistinctIds, OnCycle;
    tree := [];
    NothingBuilt(nodes, start, path, Linked(nodes));
    NoChildNodes(nodes, parentId);
    for i := 0 to |nodes|
      invariant tree == ChildNodes(nodes[..i], parentId)
      invariant IsClean(nodes) && old(Linked(nodes)) <= Linked(nodes)
      invariant ChildrenBuilt(nodes, start, path, i, Linked(nodes))
    {
      var node := nodes[i];
      ChildNodesStep(nodes, parentId, i);
      if node.row.parentId == parentId {
        RowOfNode(nodes, i);
        ExtendPath(Rows(nodes), start, path, node.row.id);
        ghost var linked := Linked(nodes);
        var childNodes := RecursiveToTree(nodes, Some(node.row.id), start, path + [node.row.id]);
        ghost var below := Linked(nodes);
        if childNodes != [] {
          node.children := childNodes;
        }
        assert below <= Linked(nodes) && node in Linked(nodes);
        StillBuilt(nodes, start, path, i, linked, Linked(nodes));
        IncludesBelowExtends(nodes, start, path + [node.row.id], path + [node.row.id], below, Linked(nodes));
        tree := tree + [node];
      }
      BuiltNext(nodes, start, path, i, Linked(nodes));
    }
    assert nodes[..|nodes|] == nodes;
    AllChildrenBuilt(nodes, start, path, Linked(nodes));
  }

  /** recursive_to_tree: the intended forest below any parent id that is not its own ancestor: below None the roots,
      below a missing id its orphans. */
  method RecursiveForest(nodes: seq<Node>, parentId: Option<int>) returns (tree: seq<Node>)
    requires DistinctIds(Rows(nodes)) && !OnCycle(Rows(nodes), parentId)
    requires forall n :: n in nodes ==> n.children == []
    modifies nodes
    ensures tree == ChildNodes(nodes, parentId)
    ensures AllRepresent(tree, Forest(Rows(nodes), parentId, []), Elements(nodes))
  {
    tree := RecursiveToTree(nodes, parentId, parentId, []);
    LinkedRepresents(nodes, parentId, []);
  }

  // ----- when the recursion ends -----

  /** A path of the rows is a chain of nested calls: the recursion from start is never deeper than the bound. */
  ghost predicate IsDepthBounded(rows: seq<Row>, start: Option<int>, bound: nat) {
    forall path :: IsPath(rows, start, path) ==> |path| <= bound
  }

  function Times(loop: seq<int>, n: nat): (r: seq<int>)
    ensures |r| == n * |loop|
  {
    if n == 0 then []
    else
      assert n * |loop| == |loop| + (n - 1) * |loop|;
      loop + Times(loop, n - 1)
  }

  lemma {:induction false} LoopRepeats(rows: seq<Row>, start: Option<int>, loop: seq<int>, n: nat)
    requires loop != [] && IsPath(rows, start, loop) && Last(start, loop) == start
    ensures IsPath(rows, start, Times(loop, n))
  {
    if n > 0 {
      LoopRepeats(rows, start, loop, n - 1);
      var rest, all := Times(loop, n - 1), Times(loop, n);
      forall i | 0 <= i < |all| ensures RowAt(start, all, i) in rows {
        if i < |loop| {
          assert RowAt(start, all, i) == RowAt(start, loop, i);
        } else {
          assert RowAt(start, all, i) == RowAt(start, rest, i - |loop|);
        }
      }
    }
  }

  /** With distinct ids, the recursion has a bounded depth exactly from the parent ids that are not their own ancestors;
      the number of rows is then a bound. */
  lemma RecursionEndsIff(rows: seq<Row>, start: Option<int>)
    requires DistinctIds(rows)
    ensures !OnCycle(rows, start) ==> IsDepthBounded(rows, start, |Ids(rows)|)
    ensures OnCycle(rows, start) <==> forall bound: nat :: !IsDepthBounded(rows, start, bound)
  {
    if OnCycle(rows, start) {
      var loop :| loop != [] && IsPath(rows, start, loop) && Last(start, loop) == start;
      forall bound: nat ensures !IsDepthBounded(rows, start, bound) {
        LoopRepeats(rows, start, loop, bound + 1);
        assert |Times(loop, bound + 1)| > bound by { LongerThan(bound + 1, |loop|); }
      }
    } else {
      forall path | IsPath(rows, start, path) ensures |path| <= |Ids(rows)| {
        PathIsBounded(rows, start, path);
      }
      assert IsDepthBounded(rows, start, |Ids(rows)|);
    }
  }

  lemma LongerThan(n: nat, m: nat)
    requires m >= 1
    ensures n * m >= n
  {}

  // ----- one pass -----

  /** A row that names a parent which does not exist. */
  predicate IsOrphan(ids: set<int>, row: Row) {
    row.parentId.Some? && row.parentId.value !in ids
  }

  ghost predicate NoOrphans(rows: seq<Row>) {
    forall r :: r in rows ==> !IsOrphan(Ids(rows), r)
  }

  /** The nodes without a parent, in row order: roots and orphans. */
  function TopNodes(nodes: seq<Node>, ids: set<int>): (r: seq<Node>)
    ensures forall n :: n in r ==> n in nodes
    ensures |r| <= |nodes|
  {
    if nodes == [] then []
    else
      var last := nodes[|nodes| - 1];
      TopNodes(nodes[..|nodes| - 1], ids)
      + (if last.row.parentId.None? || IsOrphan(ids, last.row) then [last] else [])
  }

  lemma {:induction false} TopNodesWithoutOrphans(nodes: seq<Node>, ids: set<int>)
    ensures |TopNodes(nodes, ids)| >= |ChildNodes(nodes, None)|
    ensures (forall n :: n in nodes ==> !IsOrphan(ids, n.row)) <==> TopNodes(nodes, ids) == ChildNodes(nodes, None)
    ensures |TopNodes(nodes, ids)| == |ChildNodes(nodes, None)| ==> TopNodes(nodes, ids) == ChildNodes(nodes, None)
  {
    if nodes != [] {
      var front, last := nodes[..|nodes| - 1], nodes[|nodes| - 1];
      TopNodesWithoutOrphans(front, ids);
      assert nodes == front + [last];
    }
  }

  lemma NoOrphanNodes(nodes: seq<Node>)
    ensures NoOrphans(Rows(nodes)) <==> forall n :: n in nodes ==> !IsOrphan(Ids(Rows(nodes)), n.row)
  {
    if forall n :: n in nodes ==> !IsOrphan(Ids(Rows(nodes)), n.row) {
      forall r | r in Rows(nodes) ensures !IsOrphan(Ids(Rows(nodes)), r) {
        var k := NodeOfRow(nodes, r);
      }
    }
    if NoOrphans(Rows(nodes)) {
      forall n | n in nodes ensures !IsOrphan(Ids(Rows(nodes)), n.row) {
        var k :| 0 <= k < |nodes| && nodes[k] == n;
        assert Rows(nodes)[k] == n.row;
      }
    }
  }

  /** node_dict.get(id) */
  function Find(nodes: seq<Node>, id: int): (r: Option<Node>)
    ensures r.None? <==> id !in Ids(Rows(nodes))
    ensures r.Some? ==> r.value in nodes && r.value.row.id == id
  {
    if nodes == [] then None
    else
      var front, last := nodes[..|nodes| - 1], nodes[|nodes| - 1];
      assert Rows(nodes) == Rows(front) + [last.row];
      if last.row.id == id then
        assert last.row in Rows(nodes);
        Some(last)
      else
        var r := Find(front, id);
        assert id in Ids(Rows(front)) <==> id in Ids(Rows(nodes));
        r
  }

  lemma NotYetSeen(nodes: seq<Node>, i: nat)
    requires DistinctIds(Rows(nodes)) && i < |nodes|
    ensures nodes[i] !in nodes[..i]
  {
    forall k | 0 <= k < i ensures nodes[k] != nodes[i] {
      assert Rows(nodes)[k].id != Rows(nodes)[i].id;
    }
  }

  /** After the first i rows every node holds its children among them. */
  ghost predicate AttachedUpTo(nodes: seq<Node>, i: nat)
    requires i <= |nodes|
    reads Elements(nodes)
  {
    forall n :: n in nodes ==> n.children == ChildNodes(nodes[..i], Some(n.row.id))
  }

  lemma AttachStep(nodes: seq<Node>, i: nat)
    requires i < |nodes|
    ensures forall n :: n in nodes ==>
              ChildNodes(nodes[..i + 1], Some(n.row.id))
              == ChildNodes(nodes[..i], Some(n.row.id))
                  + (if nodes[i].row.parentId == Some(n.row.id) then [nodes[i]] else [])
  {
    forall n | n in nodes
      ensures ChildNodes(nodes[..i + 1], Some(n.row.id))
           == ChildNodes(nodes[..i], Some(n.row.id))
               + (if nodes[i].row.parentId == Some(n.row.id) then [nodes[i]] else [])
    {
      ChildNodesStep(nodes, Some(n.row.id), i);
    }
  }

  lemma TopNodesStep(nodes: seq<Node>, ids: set<int>, i: nat)
    requires i < |nodes|
    ensures TopNodes(nodes[..i + 1], ids)
         == TopNodes(nodes[..i], ids)
            + (if nodes[i].row.parentId.None? || IsOrphan(ids, nodes[i].row) then [nodes[i]] else [])
  {
    assert nodes[..i + 1][..i] == nodes[..i];
  }

  lemma OnlyNodeWithId(nodes: seq<Node>, a: Node)
    requires DistinctIds(Rows(nodes)) && a in nodes
    ensures forall n :: n in nodes && n.row.id == a.row.id ==> n == a
  {
    var k :| 0 <= k < |nodes| && nodes[k] == a;
    forall n | n in nodes && n.row.id == a.row.id ensures n == a {
      SameIdSameNode(nodes, n, k);
    }
  }

  /** The loop over the rows: each node is appended to its parent's children, or to the tree. */
  method AttachAll(nodes: seq<Node>) returns (tree: seq<Node>)
    requires DistinctIds(Rows(nodes))
    requires forall n :: n in nodes ==> n.children == []
    modifies nodes
    ensures AttachedUpTo(nodes, |nodes|)
    ensures tree == TopNodes(nodes, Ids(Rows(nodes)))
  {
    hide ChildNodes, TopNodes, Find, DistinctIds;
    var ids := Ids(Rows(nodes));
    tree := [];
    NothingAttached(nodes, ids);
    for i := 0 to |nodes|
      invariant AttachedUpTo(nodes, i)
      invariant tree == TopNodes(nodes[..i], ids)
    {
      var node := nodes[i];
      NotYetSeen(nodes, i);
      AttachStep(nodes, i);
      TopNodesStep(nodes, ids, i);
      match node.row.parentId
      case None =>
        tree := tree + [node];
      case Some(parentId) =>
        var parent := Find(nodes, parentId);
        if parent.Some? {
          var parentNode := parent.value;
          OnlyNodeWithId(nodes, parentNode);
          if node !in parentNode.children {
            parentNode.children := parentNode.children + [node];
          }
        } else {
          if node !in tree {
            tree := tree + [node];
          }
        }
    }
    assert nodes[..|nodes|] == nodes;
  }

  lemma NothingAttached(nodes: seq<Node>, ids: set<int>)
    ensures forall parentId :: ChildNodes(nodes[..0], parentId) == []
    ensures TopNodes(nodes[..0], ids) == []
  {}

  /** The one-pass builder agrees with the recursive one exactly when there are no orphans. */
  method TraversalToTree(nodes: seq<Node>) returns (tree: seq<Node>)
    requires DistinctIds(Rows(nodes))
    requires forall n :: n in nodes ==> n.children == []
    modifies nodes
    ensures forall n :: n in nodes ==> IsLinked(n, nodes)
    ensures tree == TopNodes(nodes, Ids(Rows(nodes)))
    ensures AllRepresent(tree, Forest(Rows(nodes), None, []), Elements(nodes)) <==> NoOrphans(Rows(nodes))
    ensures tree == ChildNodes(nodes, None) <==> NoOrphans(Rows(nodes))
  {
    hide Forest, ChildNodes, TopNodes, Represents;
    tree := AttachAll(nodes);
    assert nodes[..|nodes|] == nodes;
    NoOrphanNodes(nodes);
    TopNodesWithoutOrphans(nodes, Ids(Rows(nodes)));
    ChildNodesAreChildIds(nodes, None);
    LinkedRepresents(nodes, None, []);
  }

  // ----- every node exactly once -----

  function Flatten(forest: seq<Tree>): seq<int>
    decreases forest
  {
    if forest == [] then []
    else [forest[0].id] + Flatten(forest[0].children) + Flatten(forest[1..])
  }

  /** Some path to id begins with the given one. */
  ghost predicate Through(rows: seq<Row>, start: Option<int>, head: seq<int>, id: int) {
    exists q :: IsPath(rows, start, q) && head <= q && Last(start, q) == Some(id)
  }

  /** Some path to id is longer than the given one and begins with it. */
  ghost predicate Under(rows: seq<Row>, start: Option<int>, path: seq<int>, id: int) {
    exists q :: IsPath(rows, start, q) && path < q && Last(start, q) == Some(id)
  }

  lemma {:induction false} ChildIdsDistinct(rows: seq<Row>, parentId: Option<int>)
    requires DistinctIds(rows)
    ensures forall i, j :: 0 <= i < j < |ChildIds(rows, parentId)| ==>
              ChildIds(rows, parentId)[i] != ChildIds(rows, parentId)[j]
  {
    if rows != [] {
      var front, last := rows[..|rows| - 1], rows[|rows| - 1];
      ChildIdsDistinct(front, parentId);
      var ids := ChildIds(front, parentId);
      forall i | 0 <= i < |ids| ensures ids[i] != last.id {
        assert ids[i] in ids && Row(ids[i], parentId) in front;
        var k :| 0 <= k < |front| && front[k] == Row(ids[i], parentId);
        assert rows[k].id != rows[|rows| - 1].id;
      }
    }
  }

  lemma ThroughCases(rows: seq<Row>, start: Option<int>, path: seq<int>, c: int, id: int)
    requires IsSearchable(rows, start) && IsPath(rows, start, path) && Row(c, Last(start, path)) in rows
    ensures Through(rows, start, path + [c], id) <==> c == id || Under(rows, start, path + [c], id)
    ensures !(c == id && Under(rows, start, path + [c], id))
  {
    var longer := path + [c];
    ExtendPath(rows, start, path, c);
    if Through(rows, start, longer, id) {
      var q :| IsPath(rows, start, q) && longer <= q && Last(start, q) == Some(id);
      if q != longer {
        assert longer < q;
      }
    }
    if c == id {
      assert Last(start, longer) == Some(id) && longer <= longer;
      if Under(rows, start, longer, id) {
        var q :| IsPath(rows, start, q) && longer < q && Last(start, q) == Some(id);
        PathIsUnique(rows, start, q, longer);
      }
    }
  }

  lemma UnderCases(rows: seq<Row>, start: Option<int>, path: seq<int>, id: int)
    requires IsSearchable(rows, start) && IsPath(rows, start, path)
    ensures Under(rows, start, path, id) <==>
              exists i :: 0 <= i < |ChildIds(rows, Last(start, path))|
                  && Through(rows, start, path + [ChildIds(rows, Last(start, path))[i]], id)
  {
    var ids := ChildIds(rows, Last(start, path));
    if Under(rows, start, path, id) {
      var q :| IsPath(rows, start, q) && path < q && Last(start, q) == Some(id);
      var m := |path|;
      assert RowAt(start, q, m) in rows && RowAt(start, q, m) == Row(q[m], Last(start, path));
      var i :| 0 <= i < |ids| && ids[i] == q[m];
      assert path + [ids[i]] <= q;
    }
    forall i | 0 <= i < |ids| && Through(rows, start, path + [ids[i]], id) ensures Under(rows, start, path, id) {
      var q :| IsPath(rows, start, q) && path + [ids[i]] <= q && Last(start, q) == Some(id);
      assert path < q;
    }
  }

  lemma ThroughIsUnique(rows: seq<Row>, start: Option<int>, path: seq<int>, a: int, b: int, id: int)
    requires IsSearchable(rows, start)
    requires Through(rows, start, path + [a], id) && Through(rows, start, path + [b], id)
    ensures a == b
  {
    var p :| IsPath(rows, start, p) && path + [a] <= p && Last(start, p) == Some(id);
    var q :| IsPath(rows, start, q) && path + [b] <= q && Last(start, q) == Some(id);
    PathIsUnique(rows, start, p, q);
    assert p[|path|] == a && q[|path|] == b;
  }

  /** How often an id occurs below a path: once if a longer path leads to it, otherwise never. */
  lemma {:induction false} OccursOnce(rows: seq<Row>, start: Option<int>, path: seq<int>, id: int)
    requires IsSearchable(rows, start) && IsPath(rows, start, path)
    ensures multiset(Flatten(Forest(rows, start, path)))[id] == if Under(rows, start, path, id) then 1 else 0
    decreases |Ids(rows)| - |path|, 1, 0
  {
    OccursOnceFrom(rows, start, path, id, 0);
    assert Forest(rows, start, path)[0..] == Forest(rows, start, path);
    UnderCases(rows, start, path, id);
  }

  ghost predicate ThroughFrom(rows: seq<Row>, start: Option<int>, path: seq<int>, id: int, k: nat) {
    exists i :: k <= i < |ChildIds(rows, Last(start, path))|
        && Through(rows, start, path + [ChildIds(rows, Last(start, path))[i]], id)
  }

  lemma {:induction false} OccursOnceFrom(rows: seq<Row>, start: Option<int>, path: seq<int>, id: int, k: nat)
    requires IsSearchable(rows, start) && IsPath(rows, start, path) && k <= |ChildIds(rows, Last(start, path))|
    ensures multiset(Flatten(Forest(rows, start, path)[k..]))[id]
        == if ThroughFrom(rows, start, path, id, k) then 1 else 0
    decreases |Ids(rows)| - |path|, 0, |ChildIds(rows, Last(start, path))| - k
  {
    hide Forest, IsPath, Through, Under, ChildIds, ThroughFrom;
    var ids, forest := ChildIds(rows, Last(start, path)), Forest(rows, start, path);
    ThroughFromCases(rows, start, path, id, k);
    if k < |ids| {
      var c := ids[k];
      ForestAt(rows, start, path, k);
      OccursOnce(rows, start, path + [c], id);
      OccursOnceFrom(rows, start, path, id, k + 1);
      ThroughCases(rows, start, path, c, id);
      assert forest[k..][1..] == forest[k + 1..];
    }
  }

  /** The child from which id is reached is the k-th or a later one, and never both. */
  lemma ThroughFromCases(rows: seq<Row>, start: Option<int>, path: seq<int>, id: int, k: nat)
    requires IsSearchable(rows, start) && k <= |ChildIds(rows, Last(start, path))|
    ensures k == |ChildIds(rows, Last(start, path))| ==> !ThroughFrom(rows, start, path, id, k)
    ensures k < |ChildIds(rows, Last(start, path))| ==>
              var through := Through(rows, start, path + [ChildIds(rows, Last(start, path))[k]], id);
              && (ThroughFrom(rows, start, path, id, k) <==> through || ThroughFrom(rows, start, path, id, k + 1))
              && !(through && ThroughFrom(rows, start, path, id, k + 1))
  {
    hide Through, ChildIds;
    var ids := ChildIds(rows, Last(start, path));
    if k < |ids| && Through(rows, start, path + [ids[k]], id) {
      forall i | k + 1 <= i < |ids| ensures !Through(rows, start, path + [ids[i]], id) {
        ChildIdsDistinct(rows, Last(start, path));
        if Through(rows, start, path + [ids[i]], id) {
          ThroughIsUnique(rows, start, path, ids[k], ids[i], id);
        }
      }
    }
  }

  /** A group of rows each of which has its parent in the group: no member can be reached from a root. */
  ghost predicate IsParentClosed(rows: seq<Row>, group: set<int>) {
    forall r :: r in rows && r.id in group ==> r.parentId.Some? && r.parentId.value in group
  }

  /** No rows are their own ancestors. */
  ghost predicate IsAcyclic(rows: seq<Row>) {
    forall group :: group <= Ids(rows) && IsParentClosed(rows, group) ==> group == {}
  }

  lemma {:induction false} ClosedGroupIsUnreachable(rows: seq<Row>, group: set<int>, path: seq<int>, n: nat)
    requires IsParentClosed(rows, group) && IsPath(rows, None, path) && n < |path|
    ensures path[n] !in group
  {
    assert RowAt(None, path, n) in rows;
    if n > 0 {
      ClosedGroupIsUnreachable(rows, group, path, n - 1);
    }
  }

  lemma RootedIffWellFormed(rows: seq<Row>)
    requires DistinctIds(rows)
    ensures (forall id :: id in Ids(rows) ==> Under(rows, None, [], id)) <==> NoOrphans(rows) && IsAcyclic(rows)
  {
    if forall id :: id in Ids(rows) ==> Under(rows, None, [], id) {
      forall r | r in rows ensures !IsOrphan(Ids(rows), r) {
        ParentOfRooted(rows, r);
      }
      forall group | group <= Ids(rows) && IsParentClosed(rows, group) ensures group == {} {
        forall id | id in group ensures false {
          var q :| IsPath(rows, None, q) && [] < q && Last(None, q) == Some(id);
          ClosedGroupIsUnreachable(rows, group, q, |q| - 1);
        }
      }
    }
    if NoOrphans(rows) && IsAcyclic(rows) {
      var unrooted := set id | id in Ids(rows) && !Under(rows, None, [], id);
      forall r | r in rows && r.id in unrooted ensures r.parentId.Some? && r.parentId.value in unrooted {
        UnrootedParent(rows, r);
      }
      assert IsParentClosed(rows, unrooted) && unrooted <= Ids(rows);
      forall id | id in Ids(rows) ensures Under(rows, None, [], id) {
        assert id !in unrooted;
      }
    }
  }

  lemma ParentOfRooted(rows: seq<Row>, r: Row)
    requires DistinctIds(rows) && r in rows && (forall id :: id in Ids(rows) ==> Under(rows, None, [], id))
    ensures !IsOrphan(Ids(rows), r)
  {
    assert r.id in Ids(rows);
    var q :| IsPath(rows, None, q) && [] < q && Last(None, q) == Some(r.id);
    UniqueRow(rows, r, RowAt(None, q, |q| - 1));
    if |q| > 1 {
      assert RowAt(None, q, |q| - 2) in rows;
    }
  }

  lemma RootedChild(rows: seq<Row>, r: Row)
    requires DistinctIds(rows) && r in rows
    requires r.parentId.None? || Under(rows, None, [], r.parentId.value)
    ensures Under(rows, None, [], r.id)
  {
    var path: seq<int> := [];
    if r.parentId.Some? {
      path :| IsPath(rows, None, path) && [] < path && Last(None, path) == r.parentId;
    }
    ExtendPath(rows, None, path, r.id);
    assert [] < path + [r.id] && Last(None, path + [r.id]) == Some(r.id);
  }

  lemma UnrootedParent(rows: seq<Row>, r: Row)
    requires DistinctIds(rows) && NoOrphans(rows) && r in rows && !Under(rows, None, [], r.id)
    ensures r.parentId.Some? && r.parentId.value in Ids(rows) && !Under(rows, None, [], r.parentId.value)
  {
    assert !IsOrphan(Ids(rows), r);
    if r.parentId.None? || Under(rows, None, [], r.parentId.value) {
      RootedChild(rows, r);
    }
  }

  function IdSeq(rows: seq<Row>): (ids: seq<int>)
    ensures |ids| == |rows| && forall i :: 0 <= i < |rows| ==> ids[i] == rows[i].id
  {
    seq(|rows|, i requires 0 <= i < |rows| => rows[i].id)
  }

  lemma LastIdIsNew(rows: seq<Row>)
    requires rows != [] && DistinctIds(rows)
    ensures var front, last := rows[..|rows| - 1], rows[|rows| - 1];
            && DistinctIds(front) && last.id !in Ids(front)
            && Ids(rows) == Ids(front) + {last.id}
            && IdSeq(rows) == IdSeq(front) + [last.id]
  {
    var front, last := rows[..|rows| - 1], rows[|rows| - 1];
    assert rows == front + [last];
    forall r | r in front ensures r.id != last.id {
      var k :| 0 <= k < |front| && front[k] == r;
      assert rows[k].id != rows[|rows| - 1].id;
    }
  }

  lemma {:induction false} IdSeqCounts(rows: seq<Row>, id: int)
    requires DistinctIds(rows)
    ensures multiset(IdSeq(rows))[id] == if id in Ids(rows) then 1 else 0
  {
    hide DistinctIds;
    if rows != [] {
      LastIdIsNew(rows);
      IdSeqCounts(rows[..|rows| - 1], id);
    }
  }

  lemma UnderIsRow(rows: seq<Row>, id: int)
    requires Under(rows, None, [], id)
    ensures id in Ids(rows)
  {
    var q :| IsPath(rows, None, q) && [] < q && Last(None, q) == Some(id);
    assert RowAt(None, q, |q| - 1) in rows;
  }

  /** The forest holds every row exactly once if and only if no parent is missing and no rows are their own
      ancestors. */
  lemma EveryNodeExactlyOnce(rows: seq<Row>)
    requires DistinctIds(rows)
    ensures multiset(Flatten(Forest(rows, None, []))) == multiset(IdSeq(rows)) <==> NoOrphans(rows) && IsAcyclic(rows)
  {
    hide Forest, Flatten, IsAcyclic, NoOrphans, Under, DistinctIds;
    var flat := multiset(Flatten(Forest(rows, None, [])));
    forall id ensures flat[id] == if Under(rows, None, [], id) then 1 else 0 {
      OccursOnce(rows, None, [], id);
    }
    forall id ensures multiset(IdSeq(rows))[id] == if id in Ids(rows) then 1 else 0 {
      IdSeqCounts(rows, id);
    }
    forall id | Under(rows, None, [], id) ensures id in Ids(rows) {
      UnderIsRow(rows, id);
    }
    RootedIffWellFormed(rows);
    var all := multiset(IdSeq(rows));
    if flat == all {
      forall id | id in Ids(rows) ensures Under(rows, None, [], id) {
        assert flat[id] == all[id];
      }
    } else if forall id :: id in Ids(rows) ==> Under(rows, None, [], id) {
      assert forall id :: flat[id] == all[id];
      assert false;
    }
  }
}
