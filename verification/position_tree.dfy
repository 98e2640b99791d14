/** `buildTree` (app/Page/Treecomponent.tsx): turns the flat list of fetched
    positions into root nodes plus per-parent children lists.

    The source builds mutable node objects and links them by reference; a node
    object is identified by the `id` it is stored under, so the result is
    modelled as an id-graph: the node stored under each id, the ids pushed onto
    `roots`, and the ids pushed onto each node's `children`. */
module PositionTree {
  import opened Js
  import opened Seqs
  import opened Records

  /** The display node made for one record: the source's `TreeNodeData`
      without its `children`, which the graph keeps separately (the source's
      `label` is `caption` here, `label` being a Dafny keyword). */
  datatype TreeNode = TreeNode(caption: string, value: string, id: string, description: Nullable, data: Position)

  /** Pass one's node: the label is the position name, the expansion key is
      `position + "-" + id`. */
  function MakeNode(p: Position): TreeNode {
    TreeNode(p.position, p.position + "-" + p.id, p.id, p.description, p)
  }

  datatype Graph = Graph(nodes: map<string, TreeNode>, roots: seq<string>, children: map<string, seq<string>>)

  /** A record with a falsy parent id (`null`, absent or `""`) goes to the roots. */
  predicate IsRootRecord(p: Position) {
    !Truthy(p.parentPositionId)
  }

  /** A record with the truthy parent id `pid`. */
  predicate IsChildOf(pid: string, p: Position) {
    Truthy(p.parentPositionId) && p.parentPositionId.s == pid
  }

  function Ids(ps: seq<Position>): seq<string> {
    Map(ps, IdOf)
  }

  function IdSet(ps: seq<Position>): set<string> {
    KeySet(ps, IdOf)
  }

  /** Reference definition: the ids of the root records, in input order. */
  function RootIds(ps: seq<Position>): seq<string> {
    Ids(Filter(ps, IsRootRecord))
  }

  /** Reference definition: the ids of the records whose parent id is `pid`, in input order. */
  function ChildIds(ps: seq<Position>, pid: string): seq<string> {
    Ids(Filter(ps, p => IsChildOf(pid, p)))
  }

  lemma IdsSnoc(ps: seq<Position>, p: Position)
    ensures Ids(ps + [p]) == Ids(ps) + [p.id]
  {
  }

  /** Appending a record appends its id to the roots exactly when it is a root record. */
  lemma RootIdsSnoc(ps: seq<Position>, p: Position)
    ensures RootIds(ps + [p]) == RootIds(ps) + (if IsRootRecord(p) then [p.id] else [])
  {
    FilterSnoc(ps, p, IsRootRecord);
    IdsSnoc(Filter(ps, IsRootRecord), p);
  }

  /** Appending a record appends its id to the children of `pid` exactly when it names `pid`. */
  lemma ChildIdsSnoc(ps: seq<Position>, p: Position, pid: string)
    ensures ChildIds(ps + [p], pid) == ChildIds(ps, pid) + (if IsChildOf(pid, p) then [p.id] else [])
  {
    FilterSnoc(ps, p, q => IsChildOf(pid, q));
    IdsSnoc(Filter(ps, q => IsChildOf(pid, q)), p);
  }

  /** Pass one: every record is written into the map under its id, so for a
      repeated id the last record wins. */
  function NodeMap(ps: seq<Position>): (m: map<string, TreeNode>)
    ensures m.Keys == IdSet(ps)
    ensures forall id :: id in m ==> m[id] == MakeNode(ps[LastIndexOf(ps, IdOf, id)])
  {
    var byId := IndexBy(ps, IdOf);
    map id | id in byId :: MakeNode(byId[id])
  }

  /** The roots and child lists that pass two builds from the records `ps`. */
  ghost predicate LinkedFrom(ps: seq<Position>, nodes: map<string, TreeNode>, r: (seq<string>, map<string, seq<string>>)) {
    && r.1.Keys == nodes.Keys
    && r.0 == RootIds(ps)
    && forall pid :: pid in r.1 ==> r.1[pid] == ChildIds(ps, pid)
  }

  /** One iteration of pass two: a record with a truthy parent id is pushed
      onto its parent's children when the parent id is a key of the map and
      is otherwise dropped; a record with a falsy parent id is pushed onto
      the roots. */
  function Push(acc: (seq<string>, map<string, seq<string>>), p: Position, nodes: map<string, TreeNode>)
    : (seq<string>, map<string, seq<string>>)
  {
    var (roots, children) := acc;
    if Truthy(p.parentPositionId) then
      if p.parentPositionId.s in nodes && p.parentPositionId.s in children then
        (roots, children[p.parentPositionId.s := children[p.parentPositionId.s] + [p.id]])
      else
        (roots, children)
    else
      (roots + [p.id], children)
  }

  lemma PushStep(init: seq<Position>, p: Position, nodes: map<string, TreeNode>, acc: (seq<string>, map<string, seq<string>>))
    requires LinkedFrom(init, nodes, acc)
    ensures LinkedFrom(init + [p], nodes, Push(acc, p, nodes))
  {
    var r := Push(acc, p, nodes);
    RootIdsSnoc(init, p);
    forall pid | pid in r.1
      ensures r.1[pid] == ChildIds(init + [p], pid)
    {
      ChildIdsSnoc(init, p, pid);
      if !IsChildOf(pid, p) {
        assert r.1[pid] == acc.1[pid];
      }
    }
  }

  /** Pass two over the records in order, starting from no roots and an
      empty child list under every node id. */
  function Link(ps: seq<Position>, nodes: map<string, TreeNode>): (r: (seq<string>, map<string, seq<string>>))
    ensures r.1.Keys == nodes.Keys
    ensures r.0 == RootIds(ps)
    ensures forall pid :: pid in r.1 ==> r.1[pid] == ChildIds(ps, pid)
  {
    if |ps| == 0 then ([], map pid | pid in nodes :: [])
    else
      var init := ps[..|ps| - 1];
      var p := ps[|ps| - 1];
      assert ps == init + [p];
      var prev := Link(init, nodes);
      PushStep(init, p, nodes, prev);
      Push(prev, p, nodes)
  }

  /** `buildTree(nodes)`. */
  function BuildTree(ps: seq<Position>): (g: Graph)
    ensures g.nodes.Keys == IdSet(ps) && g.children.Keys == IdSet(ps)
    ensures g.roots == RootIds(ps)
    ensures forall pid :: pid in g.children ==> g.children[pid] == ChildIds(ps, pid)
  {
    var nodes := NodeMap(ps);
    var linked := Link(ps, nodes);
    Graph(nodes, linked.0, linked.1)
  }

  /** The node stored under an id is made from the last record with that id:
      its caption is that record's position name and its expansion key is the
      name, a dash and the id. */
  lemma NodeIsLastRecord(ps: seq<Position>, id: string)
    requires id in IdSet(ps)
    ensures id in BuildTree(ps).nodes
    ensures 0 <= LastIndexOf(ps, IdOf, id)
    ensures
      var p := ps[LastIndexOf(ps, IdOf, id)];
      var n := BuildTree(ps).nodes[id];
      && p.id == id
      && (forall j :: 0 <= j < |ps| && ps[j].id == id ==> j <= LastIndexOf(ps, IdOf, id))
      && n.caption == p.position
      && n.value == p.position + "-" + id
      && n.data == p
  {
  }

  /** The ids of a filtered list are exactly the ids of the records that pass. */
  lemma FilteredIds(ps: seq<Position>, keep: Position -> bool, x: string)
    ensures x in Ids(Filter(ps, keep)) <==> exists i :: 0 <= i < |ps| && ps[i].id == x && keep(ps[i])
  {
    var f := Filter(ps, keep);
    FilterMembers(ps, keep);
    if x in Ids(f) {
      var k :| 0 <= k < |f| && Ids(f)[k] == x;
      assert f[k] in ps;
      var i :| 0 <= i < |ps| && ps[i] == f[k];
    }
    if exists i :: 0 <= i < |ps| && ps[i].id == x && keep(ps[i]) {
      var i :| 0 <= i < |ps| && ps[i].id == x && keep(ps[i]);
      assert ps[i] in f;
      var k :| 0 <= k < |f| && f[k] == ps[i];
      assert Ids(f)[k] == x;
    }
  }

  /** An empty list yields no roots and no nodes. */
  lemma EmptyInput()
    ensures BuildTree([]).roots == [] && BuildTree([]).nodes == map[]
  {
  }

  /** An id is a root exactly when some record with that id has a falsy parent id. */
  lemma RootsMembership(ps: seq<Position>, x: string)
    ensures x in BuildTree(ps).roots <==> exists i :: 0 <= i < |ps| && ps[i].id == x && IsRootRecord(ps[i])
  {
    FilteredIds(ps, IsRootRecord, x);
  }

  /** An id is in the children list of an existing id `pid` exactly when some
      record with that id names `pid` as its parent. */
  lemma ChildrenMembership(ps: seq<Position>, pid: string, x: string)
    requires pid in IdSet(ps)
    ensures pid in BuildTree(ps).children
    ensures x in BuildTree(ps).children[pid] <==> exists i :: 0 <= i < |ps| && ps[i].id == x && IsChildOf(pid, ps[i])
  {
    FilteredIds(ps, p => IsChildOf(pid, p), x);
  }

  /** Roots and every children list list ids in input order. */
  lemma {:induction false} KeepsInputOrder(ps: seq<Position>)
    ensures IsSubsequence(BuildTree(ps).roots, Ids(ps))
    ensures forall pid :: pid in BuildTree(ps).children ==> IsSubsequence(BuildTree(ps).children[pid], Ids(ps))
  {
    FilterOrder(ps, IsRootRecord);
    MapSubsequence(Filter(ps, IsRootRecord), ps, IdOf);
    forall pid | pid in BuildTree(ps).children
      ensures IsSubsequence(BuildTree(ps).children[pid], Ids(ps))
    {
      FilterOrder(ps, p => IsChildOf(pid, p));
      MapSubsequence(Filter(ps, p => IsChildOf(pid, p)), ps, IdOf);
    }
  }

  /** Where a single record ends up: a root record among the roots, a record
      whose parent id resolves in its parent's children. */
  lemma RecordPlaced(ps: seq<Position>, i: int)
    requires 0 <= i < |ps|
    ensures IsRootRecord(ps[i]) ==> ps[i].id in BuildTree(ps).roots
    ensures !IsRootRecord(ps[i]) && ps[i].parentPositionId.s in IdSet(ps) ==>
      ps[i].parentPositionId.s in BuildTree(ps).children &&
      ps[i].id in BuildTree(ps).children[ps[i].parentPositionId.s]
  {
    RootsMembership(ps, ps[i].id);
    if !IsRootRecord(ps[i]) && ps[i].parentPositionId.s in IdSet(ps) {
      ChildrenMembership(ps, ps[i].parentPositionId.s, ps[i].id);
    }
  }

  /** `x` is a root of `g` or one of its child lists. */
  ghost predicate Placed(g: Graph, x: string) {
    x in g.roots || exists pid :: pid in g.children && x in g.children[pid]
  }

  /** Some record with id `x` is a root record or names a parent id that exists. */
  ghost predicate Attachable(ps: seq<Position>, x: string) {
    exists i :: 0 <= i < |ps| && ps[i].id == x && (IsRootRecord(ps[i]) || ps[i].parentPositionId.s in IdSet(ps))
  }

  lemma PlacedOnlyIfAttachable(ps: seq<Position>, x: string)
    ensures Placed(BuildTree(ps), x) ==> Attachable(ps, x)
  {
    var g := BuildTree(ps);
    RootsMembership(ps, x);
    if x !in g.roots && Placed(g, x) {
      var pid :| pid in g.children && x in g.children[pid];
      ChildrenMembership(ps, pid, x);
      var i :| 0 <= i < |ps| && ps[i].id == x && IsChildOf(pid, ps[i]);
      assert ps[i].parentPositionId.s in IdSet(ps);
    }
  }

  lemma PlacedIfAttachable(ps: seq<Position>, x: string)
    requires Attachable(ps, x)
    ensures Placed(BuildTree(ps), x)
  {
    var i :| 0 <= i < |ps| && ps[i].id == x && (IsRootRecord(ps[i]) || ps[i].parentPositionId.s in IdSet(ps));
    RecordPlaced(ps, i);
  }

  /** An id is placed somewhere in the graph exactly when some record with
      that id is a root record or names a parent id that exists. */
  lemma AttachedIff(ps: seq<Position>, x: string)
    ensures Placed(BuildTree(ps), x) <==> Attachable(ps, x)
  {
    PlacedOnlyIfAttachable(ps, x);
    if Attachable(ps, x) {
      PlacedIfAttachable(ps, x);
    }
  }

  /** A record whose truthy parent id matches no id is dropped: when no other
      record shares its id, that id is neither a root nor anybody's child. */
  lemma DanglingRecordDropped(ps: seq<Position>, i: int)
    requires 0 <= i < |ps|
    requires Truthy(ps[i].parentPositionId) && ps[i].parentPositionId.s !in IdSet(ps)
    requires forall j :: 0 <= j < |ps| && j != i ==> ps[j].id != ps[i].id
    ensures ps[i].id !in BuildTree(ps).roots
    ensures forall pid :: pid in BuildTree(ps).children ==> ps[i].id !in BuildTree(ps).children[pid]
  {
    AttachedIff(ps, ps[i].id);
  }

  /** A record that names itself as parent is pushed onto its own children
      and, when no other record shares its id, is not a root. */
  lemma SelfParentIsOwnChild(ps: seq<Position>, i: int)
    requires 0 <= i < |ps|
    requires ps[i].id != "" && ps[i].parentPositionId == Str(ps[i].id)
    ensures ps[i].id in BuildTree(ps).children && ps[i].id in BuildTree(ps).children[ps[i].id]
    ensures (forall j :: 0 <= j < |ps| && j != i ==> ps[j].id != ps[i].id) ==> ps[i].id !in BuildTree(ps).roots
  {
    assert IdOf(ps[i]) == ps[i].id;
    RecordPlaced(ps, i);
    RootsMembership(ps, ps[i].id);
  }

  /** With distinct ids the roots and every children list repeat no id. */
  lemma DistinctIdsNoRepeats(ps: seq<Position>)
    requires Distinct(Ids(ps))
    ensures Distinct(BuildTree(ps).roots)
    ensures forall pid :: pid in BuildTree(ps).children ==> Distinct(BuildTree(ps).children[pid])
  {
    var g := BuildTree(ps);
    KeepsInputOrder(ps);
    SubsequenceDistinct(g.roots, Ids(ps));
    forall pid | pid in g.children
      ensures Distinct(g.children[pid])
    {
      SubsequenceDistinct(g.children[pid], Ids(ps));
    }
  }

  /** With distinct ids no id is both a root and a child. */
  lemma DistinctIdsRootNotChild(ps: seq<Position>, pid: string, x: string)
    requires Distinct(Ids(ps))
    ensures pid in BuildTree(ps).children && x in BuildTree(ps).children[pid] ==> x !in BuildTree(ps).roots
  {
    var g := BuildTree(ps);
    if pid in g.children && x in g.children[pid] {
      ChildrenMembership(ps, pid, x);
      RootsMembership(ps, x);
      var i :| 0 <= i < |ps| && ps[i].id == x && IsChildOf(pid, ps[i]);
      forall j | 0 <= j < |ps| && ps[j].id == x
        ensures j == i
      {
        assert Ids(ps)[j] == Ids(ps)[i];
      }
    }
  }

  /** With distinct ids no id is the child of two different parents. */
  lemma DistinctIdsOneParent(ps: seq<Position>, p1: string, p2: string, x: string)
    requires Distinct(Ids(ps)) && p1 != p2
    ensures p1 in BuildTree(ps).children && p2 in BuildTree(ps).children && x in BuildTree(ps).children[p1]
      ==> x !in BuildTree(ps).children[p2]
  {
    var g := BuildTree(ps);
    if p1 in g.children && p2 in g.children && x in g.children[p1] {
      ChildrenMembership(ps, p1, x);
      ChildrenMembership(ps, p2, x);
      var i :| 0 <= i < |ps| && ps[i].id == x && IsChildOf(p1, ps[i]);
      forall j | 0 <= j < |ps| && ps[j].id == x
        ensures j == i
      {
        assert Ids(ps)[j] == Ids(ps)[i];
      }
    }
  }

  lemma FilterThree(ps: seq<Position>, keep: Position -> bool)
    requires |ps| == 3
    ensures Filter(ps, keep) ==
      (if keep(ps[0]) then [ps[0]] else []) + (if keep(ps[1]) then [ps[1]] else []) + (if keep(ps[2]) then [ps[2]] else [])
  {
    var h0 := if keep(ps[0]) then [ps[0]] else [];
    var h1 := if keep(ps[1]) then [ps[1]] else [];
    var h2 := if keep(ps[2]) then [ps[2]] else [];
    assert ps[1..][0] == ps[1];
    assert ps[1..][1..] == [ps[2]];
    assert [ps[2]][1..] == [];
    assert Filter([ps[2]], keep) == h2;
    assert Filter(ps[1..], keep) == h1 + h2;
    assert Filter(ps, keep) == h0 + (h1 + h2);
  }

  /** The shape shared by the chain lemmas: three records with distinct
      non-empty ids, the first a root, each later one under the one before. */
  ghost predicate IsChainOfThree(ps: seq<Position>) {
    && |ps| == 3
    && ps[0].id != "" && ps[1].id != "" && ps[2].id != ""
    && ps[0].id != ps[1].id && ps[1].id != ps[2].id && ps[0].id != ps[2].id
    && ps[0].parentPositionId == Null
    && ps[1].parentPositionId == Str(ps[0].id) && ps[2].parentPositionId == Str(ps[1].id)
  }

  /** A three-level chain (the CEO, a CTO under the CEO, an engineer under
      the CTO) has exactly one root, the top record. */
  lemma ChainOfThreeRoots(ps: seq<Position>)
    requires IsChainOfThree(ps)
    ensures BuildTree(ps).roots == [ps[0].id]
  {
    RootIdsOfChain(ps);
  }

  /** In a three-level chain every level has exactly the next level as its child. */
  lemma ChainOfThreeChildren(ps: seq<Position>)
    requires IsChainOfThree(ps)
    ensures BuildTree(ps).children.Keys == {ps[0].id, ps[1].id, ps[2].id}
    ensures BuildTree(ps).children[ps[0].id] == [ps[1].id]
    ensures BuildTree(ps).children[ps[1].id] == [ps[2].id]
    ensures BuildTree(ps).children[ps[2].id] == []
  {
    assert IdSet(ps) == {ps[0].id, ps[1].id, ps[2].id} by {
      assert IdOf(ps[0]) == ps[0].id && IdOf(ps[1]) == ps[1].id && IdOf(ps[2]) == ps[2].id;
    }
    ChildIdsOfChain(ps, 0);
    ChildIdsOfChain(ps, 1);
    ChildIdsOfChain(ps, 2);
  }

  lemma ChildIdsOfChain(ps: seq<Position>, k: int)
    requires IsChainOfThree(ps) && 0 <= k < 3
    ensures ChildIds(ps, ps[k].id) == if k < 2 then [ps[k + 1].id] else []
  {
    FilterThree(ps, p => IsChildOf(ps[k].id, p));
  }

  lemma RootIdsOfChain(ps: seq<Position>)
    requires IsChainOfThree(ps)
    ensures RootIds(ps) == [ps[0].id]
  {
    FilterThree(ps, IsRootRecord);
    assert Filter(ps, IsRootRecord) == [ps[0]];
  }
}
