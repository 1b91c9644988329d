/** getElementsByTagName: an iterative walk over parent, first-child and next-sibling links. */
module TreeWalk {
  import opened Seqs

  const ELEMENT_NODE: int := 1

  class Node {
    var parentNode: Node?
    var firstChild: Node?
    var nextSibling: Node?
    var nodesCount: nat
    var nodeType: int
    var nodeName: string
  }

  /** The shape that well-formed links describe. */
  datatype Tree = Tree(node: Node, children: seq<Tree>)

  /** The nodes of a tree in document order. */
  ghost function Preorder(t: Tree): (s: seq<Node>)
    ensures |s| > 0 && s[0] == t.node
    decreases t, 1
  {
    [t.node] + PreorderAll(t.children)
  }

  ghost function PreorderAll(ts: seq<Tree>): seq<Node>
    decreases ts, 0
  {
    if |ts| == 0 then [] else Preorder(ts[0]) + PreorderAll(ts[1..])
  }

  ghost function First(ts: seq<Tree>): Node? {
    if |ts| == 0 then null else ts[0].node
  }

  ghost predicate Linked(t: Tree)
    reads *
    decreases t, 1
  {
    && t.node.firstChild == First(t.children)
    && (t.node.nodesCount > 0 <==> |t.children| > 0)
    && LinkedAll(t.children, t.node)
  }

  ghost predicate LinkedAll(ts: seq<Tree>, parent: Node)
    reads *
    decreases ts, 0
  {
    |ts| == 0 ||
    (ts[0].node.parentNode == parent && ts[0].node.nextSibling == First(ts[1..])
     && Linked(ts[0]) && LinkedAll(ts[1..], parent))
  }

  ghost predicate Matches(n: Node, tagName: string)
    reads n
  {
    n.nodeType == ELEMENT_NODE && (tagName == n.nodeName || tagName == "*")
  }

  ghost function Matching(nodes: seq<Node>, tagName: string): seq<Node>
    reads nodes
  {
    if |nodes| == 0 then []
    else (if Matches(nodes[0], tagName) then [nodes[0]] else []) + Matching(nodes[1..], tagName)
  }

  /** What is returned: of every stretch of the nodes, in their order, those that are elements and have the name,
      or, for "*", all that are elements. Node type 1 is an element (DOM Level 1, section 1.2). */
  lemma {:induction false} MatchingIff(nodes: seq<Node>, more: seq<Node>, tagName: string)
    ensures Matching(nodes + more, tagName) == Matching(nodes, tagName) + Matching(more, tagName)
    ensures forall n :: n in Matching(nodes, tagName) <==> n in nodes && n.nodeType == 1 && (tagName == "*" || n.nodeName == tagName)
    ensures (forall n <- nodes :: n.nodeType == 1) ==> Matching(nodes, "*") == nodes
  {
    if |nodes| == 0 {
      assert nodes + more == more;
    } else {
      assert (nodes + more)[1..] == nodes[1..] + more;
      MatchingIff(nodes[1..], more, tagName);
      assert nodes == [nodes[0]] + nodes[1..];
    }
  }

  /** A level of the walk: a node, and its children still to be visited. */
  datatype Level = Level(parent: Node, rest: seq<Tree>)

  /** The nodes still to be visited when the walk is done with the current subtree. */
  ghost function Remaining(levels: seq<Level>): seq<Node> {
    if |levels| == 0 then []
    else PreorderAll(levels[|levels| - 1].rest) + Remaining(levels[..|levels| - 1])
  }

  /** n is where these levels, from the start of the walk down, lead to. */
  ghost predicate At(n: Node, levels: seq<Level>, start: Node)
    reads *
    decreases |levels|
  {
    if |levels| == 0 then n == start
    else
      var top := levels[|levels| - 1];
      && n != start
      && n.parentNode == top.parent && n.nextSibling == First(top.rest) && LinkedAll(top.rest, top.parent)
      && At(top.parent, levels[..|levels| - 1], start)
  }

  lemma FirstSubtree(ts: seq<Tree>)
    requires |ts| > 0
    ensures PreorderAll(ts) == Preorder(ts[0]) + PreorderAll(ts[1..]) && PreorderAll(ts)[0] == ts[0].node
  {
  }

  /** Going down to the first child. */
  lemma PushLevel(t: Tree, levels: seq<Level>, start: Node)
    requires Linked(t) && At(t.node, levels, start) && t.node.firstChild != null
    requires start !in PreorderAll(t.children)
    ensures |t.children| > 0 && t.node.firstChild == t.children[0].node
    ensures var levels' := levels + [Level(t.node, t.children[1..])];
            && Linked(t.children[0]) && At(t.children[0].node, levels', start)
            && PreorderAll(t.children) + Remaining(levels) == Preorder(t.children[0]) + Remaining(levels')
  {
    var top := Level(t.node, t.children[1..]);
    FirstSubtree(t.children);
    assert start != t.children[0].node;
    assert (levels + [top])[..|levels|] == levels;
    hide Preorder, PreorderAll;
    assert Remaining(levels + [top]) == PreorderAll(top.rest) + Remaining(levels);
  }

  lemma LinkedCounts(t: Tree)
    requires Linked(t)
    ensures t.node.nodesCount > 0 ==> t.node.firstChild != null
    ensures t.node.nodesCount == 0 ==> PreorderAll(t.children) == []
  {
  }

  lemma NextLevel(n: Node, levels: seq<Level>, start: Node)
    requires |levels| > 0 && At(n, levels, start) && n.nextSibling != null && start !in Remaining(levels)
    ensures var top := levels[|levels| - 1];
            && |top.rest| > 0
            && var levels' := levels[..|levels| - 1] + [Level(top.parent, top.rest[1..])];
            && n.nextSibling == top.rest[0].node && Linked(top.rest[0]) && At(top.rest[0].node, levels', start)
            && Remaining(levels) == Preorder(top.rest[0]) + Remaining(levels')
  {
    var top, under := levels[|levels| - 1], levels[..|levels| - 1];
    var levels' := under + [Level(top.parent, top.rest[1..])];
    assert levels'[..|levels'| - 1] == under;
    FirstSubtree(top.rest);
    assert top.rest[0].node == Remaining(levels)[0];
  }

  lemma MatchingAfter(tagged: seq<Node>, first: Node, rest: seq<Node>, tagName: string)
    ensures tagged + Matching([first] + rest, tagName)
         == (if Matches(first, tagName) then tagged + [first] else tagged) + Matching(rest, tagName)
  {
    assert ([first] + rest)[1..] == rest;
  }

  /** From a node without children: up while there is no next sibling, then across. */
  method NextAfterSubtree(from: Node, start: Node, ghost pending: seq<Level>, ghost root: Tree)
    returns (node: Node?, ghost cur: Tree, ghost levels: seq<Level>)
    requires At(from, pending, start) && start !in Remaining(pending)
    requires start.nextSibling == null
    ensures node == null ==> Remaining(pending) == []
    ensures node != null ==> cur.node == node && Linked(cur) && At(node, levels, start)
    ensures node != null ==> Remaining(pending) == Preorder(cur) + Remaining(levels)
  {
    hide Preorder, PreorderAll, Linked, LinkedAll, Remaining;
    cur, levels := root, pending;
    var up := from;
    while up.nextSibling == null && up != start
      invariant up != null && At(up, levels, start) && Remaining(pending) == Remaining(levels)
      decreases |levels|
    {
      PopLevel(levels);
      up := up.parentNode;
      levels := levels[..|levels| - 1];
    }
    if up.nextSibling != null {
      NextLevel(up, levels, start);
      ghost var top := levels[|levels| - 1];
      cur := top.rest[0];
      levels := levels[..|levels| - 1] + [Level(top.parent, top.rest[1..])];
    } else {
      NoLevels();
    }
    node := up.nextSibling;
  }

  /** The element's matching descendants in document order. An element with a child must have no next sibling. */
  method GetElementsByTagName(start: Node, tagName: string, ghost tree: Tree) returns (tagged: seq<Node>)
    requires tree.node == start && Linked(tree) && start !in PreorderAll(tree.children)
    requires start.firstChild == null || start.nextSibling == null
    ensures tagged == Matching(PreorderAll(tree.children), tagName)
  {
    hide Preorder, PreorderAll, Matching, Linked, Remaining, At;
    tagged := [];
    ghost var all := PreorderAll(tree.children);
    ghost var cur, levels, todo := tree, [], all;
    var node := start.firstChild;
    if node != null {
      levels := Enter(tree);
      cur := tree.children[0];
    } else {
      NoChildren(tree);
    }
    while node != null
      invariant tagged + Matching(todo, tagName) == Matching(all, tagName)
      invariant node == null ==> todo == []
      invariant node != null ==> cur.node == node && Linked(cur) && At(node, levels, start)
      invariant node != null ==> todo == Preorder(cur) + Remaining(levels)
      invariant start !in todo && (node != null ==> start.firstChild != null)
      decreases |todo|
    {
      ghost var more := PreorderAll(cur.children) + Remaining(levels);
      VisitedFirst(cur, levels);
      LinkedCounts(cur);
      assert todo == [node] + more;
      MatchingAfter(tagged, node, more, tagName);
      if ELEMENT_NODE == node.nodeType {
        if tagName == node.nodeName || tagName == "*" {
          tagged := tagged + [node];
        }
      }
      todo := more;
      assert tagged + Matching(todo, tagName) == Matching(all, tagName);
      if node.nodesCount > 0 {
        node := node.firstChild;
        PushLevel(cur, levels, start);
        levels := levels + [Level(cur.node, cur.children[1..])];
        cur := cur.children[0];
      } else {
        assert more == Remaining(levels);
        node, cur, levels := NextAfterSubtree(node, start, levels, tree);
        assert tagged + Matching(todo, tagName) == Matching(all, tagName);
      }
    }
    NothingMatches(tagName);
  }

  lemma Enter(tree: Tree) returns (levels: seq<Level>)
    requires Linked(tree) && tree.node !in PreorderAll(tree.children) && tree.node.firstChild != null
    ensures |tree.children| > 0 && tree.node.firstChild == tree.children[0].node
    ensures |levels| > 0 && Linked(tree.children[0]) && At(tree.children[0].node, levels, tree.node)
    ensures PreorderAll(tree.children) == Preorder(tree.children[0]) + Remaining(levels)
  {
    PushLevel(tree, [], tree.node);
    levels := [] + [Level(tree.node, tree.children[1..])];
    NoLevels();
    assert PreorderAll(tree.children) + [] == PreorderAll(tree.children);
  }

  lemma NoLevels()
    ensures Remaining([]) == []
  {
  }

  lemma NoChildren(t: Tree)
    requires Linked(t) && t.node.firstChild == null
    ensures PreorderAll(t.children) == []
  {
  }

  lemma NothingMatches(tagName: string)
    ensures Matching([], tagName) == []
  {
  }

  lemma VisitedFirst(cur: Tree, levels: seq<Level>)
    ensures Preorder(cur) + Remaining(levels) == [cur.node] + (PreorderAll(cur.children) + Remaining(levels))
  {
    Associative([cur.node], PreorderAll(cur.children), Remaining(levels));
  }

  lemma PopLevel(levels: seq<Level>)
    requires |levels| > 0 && levels[|levels| - 1].rest == []
    ensures Remaining(levels) == Remaining(levels[..|levels| - 1])
  {
  }

  // ----- Where the walk goes when the start has a next sibling

  ghost function Ancestor(n: Node, k: nat): Node?
    reads *
    decreases k
  {
    if k == 0 then n else if n.parentNode == null then null else Ancestor(n.parentNode, k - 1)
  }

  /** The inner loop, entered at n, stops after k moves to a parent. */
  ghost predicate Climbs(start: Node, n: Node, k: nat)
    reads *
    decreases k
  {
    if k == 0 then n.nextSibling != null || n == start
    else n.nextSibling == null && n != start && n.parentNode != null && Climbs(start, n.parentNode, k - 1)
  }

  /** One iteration of the outer loop takes the cursor from n to m. */
  ghost predicate Moves(start: Node, n: Node, m: Node?)
    reads *
  {
    if n.nodesCount > 0 then m == n.firstChild
    else exists k: nat :: Climbs(start, n, k) && Ancestor(n, k) != null && m == Ancestor(n, k).nextSibling
  }

  /** The successive values of the cursor. */
  ghost predicate IsWalk(start: Node, cursor: seq<Node?>)
    reads *
  {
    forall i :: 0 <= i < |cursor| - 1 ==> cursor[i] != null && Moves(start, cursor[i], cursor[i + 1])
  }

  ghost function Cursors(nodes: seq<Node>): seq<Node?> {
    nodes
  }

  lemma {:induction false} ClimbsTo(n: Node, levels: seq<Level>, start: Node) returns (p: Node, k: nat, under: seq<Level>)
    requires At(n, levels, start)
    ensures Climbs(start, n, k) && Ancestor(n, k) == p && At(p, under, start) && Remaining(under) == Remaining(levels)
    ensures |under| <= |levels| && (|under| > 0 ==> p.nextSibling != null) && (|under| == 0 ==> p == start)
    decreases |levels|
  {
    if n.nextSibling != null || n == start {
      p, k, under := n, 0, levels;
    } else {
      p, k, under := ClimbsTo(n.parentNode, levels[..|levels| - 1], start);
      k := k + 1;
    }
  }

  lemma MovesDown(start: Node, n: Node)
    requires n.nodesCount > 0
    ensures Moves(start, n, n.firstChild)
  {
  }

  lemma MovesUp(start: Node, n: Node, p: Node, k: nat)
    requires n.nodesCount == 0 && Climbs(start, n, k) && Ancestor(n, k) == p
    ensures Moves(start, n, p.nextSibling)
  {
  }

  lemma StandsStill(start: Node, m: Node?)
    ensures IsWalk(start, Cursors([]) + [m])
  {
  }

  lemma {:induction false} WalkFrom(cur: Tree, levels: seq<Level>, start: Node)
    requires Linked(cur) && At(cur.node, levels, start) && |levels| > 0
    requires start !in Preorder(cur) + Remaining(levels)
    ensures IsWalk(start, Cursors(Preorder(cur) + Remaining(levels)) + [start.nextSibling])
    decreases |Preorder(cur) + Remaining(levels)|
  {
    hide Preorder, PreorderAll, Linked, LinkedAll, At, Remaining, IsWalk, Moves, Climbs, Ancestor;
    var todo := Preorder(cur) + Remaining(levels);
    var more := PreorderAll(cur.children) + Remaining(levels);
    VisitedFirst(cur, levels);
    LinkedCounts(cur);
    if cur.node.nodesCount > 0 {
      PushLevel(cur, levels, start);
      WalkFrom(cur.children[0], levels + [Level(cur.node, cur.children[1..])], start);
      MovesDown(start, cur.node);
    } else {
      assert more == Remaining(levels);
      var p, k, under := ClimbsTo(cur.node, levels, start);
      MovesUp(start, cur.node, p, k);
      if |under| > 0 {
        NextLevel(p, under, start);
        var top := under[|under| - 1];
        WalkFrom(top.rest[0], under[..|under| - 1] + [Level(top.parent, top.rest[1..])], start);
      } else {
        NoLevels();
        StandsStill(start, start.nextSibling);
      }
    }
    Prepend(start, cur.node, Cursors(more) + [start.nextSibling]);
    assert Cursors(todo) + [start.nextSibling] == [cur.node] + (Cursors(more) + [start.nextSibling]);
  }

  lemma Prepend(start: Node, n: Node, cursor: seq<Node?>)
    requires IsWalk(start, cursor) && |cursor| > 0 && Moves(start, n, cursor[0])
    ensures IsWalk(start, [n] + cursor)
  {
    var all: seq<Node?> := [n] + cursor;
    forall i | 0 <= i < |all| - 1 ensures all[i] != null && Moves(start, all[i], all[i + 1]) {
      if i > 0 {
        assert all[i] == cursor[i - 1] && all[i + 1] == cursor[i];
      }
    }
  }

  /** From the first child, if there is one, the cursor visits the descendants in document order and then
      takes the value of the start's next sibling. */
  lemma WalkVisitsDescendants(tree: Tree)
    requires Linked(tree) && tree.node !in PreorderAll(tree.children)
    ensures |tree.children| == 0 <==> tree.node.firstChild == null
    ensures |tree.children| > 0 ==>
              && |PreorderAll(tree.children)| > 0
              && IsWalk(tree.node, Cursors(PreorderAll(tree.children)) + [tree.node.nextSibling])
              && PreorderAll(tree.children)[0] == tree.node.firstChild
  {
    if |tree.children| == 0 {
      return;
    }
    LinkedCounts(tree);
    var levels := Enter(tree);
    WalkFrom(tree.children[0], levels, tree.node);
  }
}
