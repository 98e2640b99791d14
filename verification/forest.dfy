/** The displayed position tree (app/Page/Treecomponent.tsx): nested nodes,
    `removeNode`, the expanded-key set with `toggleExpand`, and the rule that
    decides which nodes `renderNode` draws. */
module Forest {
  import opened Seqs
  import opened PositionTree

  /** A displayed node and its children, in display order. */
  datatype Node = Node(info: TreeNode, children: seq<Node>)

  function NodeId(n: Node): string { n.info.id }

  function InfoOf(n: Node): TreeNode { n.info }

  /** The ids of the top-level nodes, in display order. */
  function TopIds(f: seq<Node>): seq<string> {
    Map(f, NodeId)
  }

  /** The ids of all nodes at any depth. */
  function AllIds(f: seq<Node>): set<string>
    decreases f
  {
    if |f| == 0 then {} else {f[0].info.id} + AllIds(f[0].children) + AllIds(f[1..])
  }

  /** The number of nodes at any depth. */
  function Size(f: seq<Node>): nat
    decreases f
  {
    if |f| == 0 then 0 else 1 + Size(f[0].children) + Size(f[1..])
  }

  /** `removeNode(nodes, nodeId)`: drops every node whose id is `nodeId`,
      together with everything below it, and prunes the children of the
      nodes that stay. */
  function RemoveNode(f: seq<Node>, x: string): seq<Node>
    decreases f
  {
    if |f| == 0 then []
    else
      var rest := RemoveNode(f[1..], x);
      if f[0].info.id == x then rest
      else [Node(f[0].info, RemoveNode(f[0].children, x))] + rest
  }

  /** `p` leads from the top level to a node: `p[0]` picks a top-level node,
      each later index picks a child of the node reached so far. */
  ghost predicate ValidPath(f: seq<Node>, p: seq<int>)
    decreases |p|
  {
    |p| > 0 && 0 <= p[0] < |f| && (|p| == 1 || ValidPath(f[p[0]].children, p[1..]))
  }

  /** The node a valid path leads to. */
  ghost function At(f: seq<Node>, p: seq<int>): Node
    requires ValidPath(f, p)
    decreases |p|
  {
    if |p| == 1 then f[p[0]] else At(f[p[0]].children, p[1..])
  }

  /** The ids of the nodes a valid path passes through, the node it leads to included. */
  ghost function PathIds(f: seq<Node>, p: seq<int>): seq<string>
    requires ValidPath(f, p)
    decreases |p|
  {
    [f[p[0]].info.id] + (if |p| == 1 then [] else PathIds(f[p[0]].children, p[1..]))
  }

  /** `y` is the id of a node none of whose ancestors, itself included, has id `x`. */
  ghost predicate ReachableAvoiding(f: seq<Node>, x: string, y: string) {
    exists p :: ValidPath(f, p) && At(f, p).info.id == y && x !in PathIds(f, p)
  }

  lemma AllIdsCons(n: Node, rest: seq<Node>)
    ensures AllIds([n] + rest) == {n.info.id} + AllIds(n.children) + AllIds(rest)
  {
    assert ([n] + rest)[1..] == rest;
  }

  /** A path into the tail of a forest is a path into the forest, one top-level index further on. */
  lemma ShiftPath(f: seq<Node>, q: seq<int>)
    requires |f| > 0 && ValidPath(f[1..], q)
    ensures ValidPath(f, [q[0] + 1] + q[1..])
    ensures At(f, [q[0] + 1] + q[1..]) == At(f[1..], q)
    ensures PathIds(f, [q[0] + 1] + q[1..]) == PathIds(f[1..], q)
  {
    var p := [q[0] + 1] + q[1..];
    assert p[1..] == q[1..];
  }

  /** A path into the first node's children is a path into the forest, below that node. */
  lemma DescendPath(f: seq<Node>, q: seq<int>)
    requires |f| > 0 && ValidPath(f[0].children, q)
    ensures ValidPath(f, [0] + q)
    ensures At(f, [0] + q) == At(f[0].children, q)
    ensures PathIds(f, [0] + q) == [f[0].info.id] + PathIds(f[0].children, q)
  {
    assert ([0] + q)[1..] == q;
  }

  /** A node reached avoiding `x` in the tail of a forest is reached avoiding `x` in the forest. */
  lemma ReachableInTail(f: seq<Node>, x: string, y: string)
    requires |f| > 0 && ReachableAvoiding(f[1..], x, y)
    ensures ReachableAvoiding(f, x, y)
  {
    var q :| ValidPath(f[1..], q) && At(f[1..], q).info.id == y && x !in PathIds(f[1..], q);
    ShiftPath(f, q);
  }

  /** A node reached avoiding `x` below a first node other than `x` is reached avoiding `x` in the forest. */
  lemma ReachableBelowHead(f: seq<Node>, x: string, y: string)
    requires |f| > 0 && f[0].info.id != x && ReachableAvoiding(f[0].children, x, y)
    ensures ReachableAvoiding(f, x, y)
  {
    var q :| ValidPath(f[0].children, q) && At(f[0].children, q).info.id == y && x !in PathIds(f[0].children, q);
    DescendPath(f, q);
  }

  /** Every id left after `RemoveNode(f, x)` is reached in `f` along a path without `x`. */
  lemma {:induction false} SurvivorIsReachable(f: seq<Node>, x: string, y: string)
    requires y in AllIds(RemoveNode(f, x))
    ensures ReachableAvoiding(f, x, y)
    decreases f
  {
    var rest := RemoveNode(f[1..], x);
    if f[0].info.id == x {
      assert RemoveNode(f, x) == rest;
      SurvivorIsReachable(f[1..], x, y);
      ReachableInTail(f, x, y);
    } else {
      var kept := Node(f[0].info, RemoveNode(f[0].children, x));
      assert RemoveNode(f, x) == [kept] + rest;
      AllIdsCons(kept, rest);
      if y == f[0].info.id {
        assert ValidPath(f, [0]) && At(f, [0]).info.id == y && PathIds(f, [0]) == [y];
      } else if y in AllIds(kept.children) {
        SurvivorIsReachable(f[0].children, x, y);
        ReachableBelowHead(f, x, y);
      } else {
        SurvivorIsReachable(f[1..], x, y);
        ReachableInTail(f, x, y);
      }
    }
  }

  /** Every id reached in `f` along a path without `x` is left after `RemoveNode(f, x)`. */
  lemma {:induction false} ReachableSurvives(f: seq<Node>, x: string, p: seq<int>)
    requires ValidPath(f, p) && x !in PathIds(f, p)
    ensures At(f, p).info.id in AllIds(RemoveNode(f, x))
    decreases f
  {
    var rest := RemoveNode(f[1..], x);
    var kept := Node(f[0].info, RemoveNode(f[0].children, x));
    if p[0] == 0 {
      assert PathIds(f, p)[0] == f[0].info.id;
      assert RemoveNode(f, x) == [kept] + rest;
      AllIdsCons(kept, rest);
      if |p| > 1 {
        ReachableSurvives(f[0].children, x, p[1..]);
      }
    } else {
      var q := [p[0] - 1] + p[1..];
      assert p == [q[0] + 1] + q[1..];
      assert ValidPath(f[1..], q);
      ShiftPath(f, q);
      ReachableSurvives(f[1..], x, q);
      if f[0].info.id != x {
        AllIdsCons(kept, rest);
      }
    }
  }

  /** A node stays after removing `x` exactly when neither it nor any of its
      ancestors has id `x`: the subtree of a removed node goes with it. */
  lemma RemoveNodeSurvivors(f: seq<Node>, x: string, y: string)
    ensures y in AllIds(RemoveNode(f, x)) <==> ReachableAvoiding(f, x, y)
  {
    if y in AllIds(RemoveNode(f, x)) {
      SurvivorIsReachable(f, x, y);
    }
    if ReachableAvoiding(f, x, y) {
      var p :| ValidPath(f, p) && At(f, p).info.id == y && x !in PathIds(f, p);
      ReachableSurvives(f, x, p);
    }
  }

  /** No node with the removed id remains at any depth. */
  lemma {:induction false} RemoveNodeGone(f: seq<Node>, x: string)
    ensures x !in AllIds(RemoveNode(f, x))
    decreases f
  {
    if |f| > 0 {
      RemoveNodeGone(f[1..], x);
      if f[0].info.id != x {
        RemoveNodeGone(f[0].children, x);
        AllIdsCons(Node(f[0].info, RemoveNode(f[0].children, x)), RemoveNode(f[1..], x));
      }
    }
  }

  /** Removal only ever drops nodes. */
  lemma {:induction false} RemoveNodeSubset(f: seq<Node>, x: string)
    ensures AllIds(RemoveNode(f, x)) <= AllIds(f)
    decreases f
  {
    if |f| > 0 {
      RemoveNodeSubset(f[1..], x);
      if f[0].info.id != x {
        RemoveNodeSubset(f[0].children, x);
        AllIdsCons(Node(f[0].info, RemoveNode(f[0].children, x)), RemoveNode(f[1..], x));
      }
    }
  }

  /** Removing an id that is nowhere in the forest leaves it unchanged. */
  lemma {:induction false} RemoveNodeAbsent(f: seq<Node>, x: string)
    requires x !in AllIds(f)
    ensures RemoveNode(f, x) == f
    decreases f
  {
    if |f| > 0 {
      RemoveNodeAbsent(f[1..], x);
      RemoveNodeAbsent(f[0].children, x);
      assert f == [f[0]] + f[1..];
    }
  }

  /** Removing the same id twice is the same as removing it once. */
  lemma RemoveNodeIdempotent(f: seq<Node>, x: string)
    ensures RemoveNode(RemoveNode(f, x), x) == RemoveNode(f, x)
  {
    RemoveNodeGone(f, x);
    RemoveNodeAbsent(RemoveNode(f, x), x);
  }

  /** The top-level nodes that stay are exactly those whose id is not the
      removed one, in their original order. */
  lemma {:induction false} RemoveNodeKeepsOrder(f: seq<Node>, x: string)
    ensures TopIds(RemoveNode(f, x)) == Filter(TopIds(f), y => y != x)
    decreases f
  {
    if |f| > 0 {
      RemoveNodeKeepsOrder(f[1..], x);
      assert TopIds(f)[1..] == TopIds(f[1..]);
      var kept := Node(f[0].info, RemoveNode(f[0].children, x));
      assert TopIds([kept] + RemoveNode(f[1..], x)) == [kept.info.id] + TopIds(RemoveNode(f[1..], x));
    }
  }

  /** Removal never adds nodes, and removes at least one when the id occurs. */
  lemma {:induction false} RemoveNodeShrinks(f: seq<Node>, x: string)
    ensures Size(RemoveNode(f, x)) <= Size(f)
    ensures x in AllIds(f) ==> Size(RemoveNode(f, x)) < Size(f)
    decreases f
  {
    if |f| > 0 {
      RemoveNodeShrinks(f[1..], x);
      RemoveNodeShrinks(f[0].children, x);
      var kept := Node(f[0].info, RemoveNode(f[0].children, x));
      var rest := RemoveNode(f[1..], x);
      assert ([kept] + rest)[1..] == rest;
    }
  }

  /** Removing the middle of a three-level chain leaves the top alone, with no children. */
  lemma RemoveMiddleOfChain(a: TreeNode, b: TreeNode, c: TreeNode)
    requires a.id != b.id
    ensures RemoveNode([Node(a, [Node(b, [Node(c, [])])])], b.id) == [Node(a, [])]
  {
    var low := [Node(c, [])];
    var mid := [Node(b, low)];
    assert mid[1..] == [];
    assert RemoveNode(mid, b.id) == [];
    var top := [Node(a, mid)];
    assert top[1..] == [];
  }

  /** `toggleExpand(nodeValue)`: flips whether one key is expanded. */
  function ToggleExpand(e: set<string>, k: string): (r: set<string>)
    ensures k in r <==> k !in e
    ensures forall j :: j != k ==> (j in r <==> j in e)
  {
    if k in e then e - {k} else e + {k}
  }

  /** Toggling a key twice restores the expansion state. */
  lemma ToggleTwice(e: set<string>, k: string)
    ensures ToggleExpand(ToggleExpand(e, k), k) == e
  {
  }

  /** A node draws its children when it has some and its key is expanded. */
  predicate ShowsChildren(e: set<string>, n: Node) {
    |n.children| > 0 && n.info.value in e
  }

  /** The nodes `renderNode` draws, in drawing order: every top-level node,
      and below a node its drawn children when it shows them. */
  function Rendered(f: seq<Node>, e: set<string>): (r: seq<TreeNode>)
    decreases f
  {
    if |f| == 0 then []
    else
      [f[0].info] + (if ShowsChildren(e, f[0]) then Rendered(f[0].children, e) else []) + Rendered(f[1..], e)
  }

  /** Every node, in drawing order, as drawn when everything is expanded. */
  function Preorder(f: seq<Node>): (r: seq<TreeNode>)
    ensures |r| == Size(f)
    decreases f
  {
    if |f| == 0 then [] else [f[0].info] + Preorder(f[0].children) + Preorder(f[1..])
  }

  /** The expansion keys of all nodes. */
  function AllKeys(f: seq<Node>): set<string>
    decreases f
  {
    if |f| == 0 then {} else {f[0].info.value} + AllKeys(f[0].children) + AllKeys(f[1..])
  }

  /** With nothing expanded, which is the initial state, exactly the top-level nodes are drawn. */
  lemma {:induction false} RenderedCollapsed(f: seq<Node>)
    ensures Rendered(f, {}) == Map(f, InfoOf)
    decreases f
  {
    if |f| > 0 {
      RenderedCollapsed(f[1..]);
      assert Map(f, InfoOf) == [f[0].info] + Map(f[1..], InfoOf);
    }
  }

  /** With every key expanded, every node is drawn. */
  lemma {:induction false} RenderedExpanded(f: seq<Node>, e: set<string>)
    requires AllKeys(f) <= e
    ensures Rendered(f, e) == Preorder(f)
    decreases f
  {
    if |f| > 0 {
      RenderedExpanded(f[0].children, e);
      RenderedExpanded(f[1..], e);
      if |f[0].children| == 0 {
        assert Preorder(f[0].children) == [];
      }
    }
  }

  /** The nodes that survive `RemoveNode(f, x)` keep their relative order at
      every depth: the preorder of the result is a subsequence of the
      preorder of `f`. */
  lemma {:induction false} RemoveNodeKeepsPreorder(f: seq<Node>, x: string)
    ensures IsSubsequence(Preorder(RemoveNode(f, x)), Preorder(f))
    decreases f
  {
    if |f| > 0 {
      var rest := RemoveNode(f[1..], x);
      RemoveNodeKeepsPreorder(f[1..], x);
      if f[0].info.id == x {
        assert RemoveNode(f, x) == rest;
        SubsequencePrepend(Preorder(rest), Preorder(f[1..]), [f[0].info] + Preorder(f[0].children));
      } else {
        var kept := Node(f[0].info, RemoveNode(f[0].children, x));
        var g := [kept] + rest;
        assert RemoveNode(f, x) == g;
        assert g[0] == kept && g[1..] == rest;
        assert Preorder(g) == [f[0].info] + Preorder(kept.children) + Preorder(rest);
        RemoveNodeKeepsPreorder(f[0].children, x);
        SubsequenceSelf([f[0].info]);
        SubsequenceConcat([f[0].info], [f[0].info], Preorder(kept.children), Preorder(f[0].children));
        SubsequenceConcat([f[0].info] + Preorder(kept.children), [f[0].info] + Preorder(f[0].children),
                          Preorder(rest), Preorder(f[1..]));
      }
    }
  }

  /** Expanding more keys only adds drawn nodes; the ones drawn before keep their order. */
  lemma {:induction false} RenderedMonotone(f: seq<Node>, e1: set<string>, e2: set<string>)
    requires e1 <= e2
    ensures IsSubsequence(Rendered(f, e1), Rendered(f, e2))
    decreases f
  {
    if |f| > 0 {
      RenderedMonotone(f[1..], e1, e2);
      var head := [f[0].info];
      var below1 := if ShowsChildren(e1, f[0]) then Rendered(f[0].children, e1) else [];
      var below2 := if ShowsChildren(e2, f[0]) then Rendered(f[0].children, e2) else [];
      if ShowsChildren(e1, f[0]) {
        RenderedMonotone(f[0].children, e1, e2);
      } else {
        EmptySubsequence(below2);
      }
      SubsequenceSelf(head);
      SubsequenceConcat(head, head, below1, below2);
      SubsequenceConcat(head + below1, head + below2, Rendered(f[1..], e1), Rendered(f[1..], e2));
    }
  }
}
