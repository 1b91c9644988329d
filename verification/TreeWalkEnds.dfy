/** When getElementsByTagName returns: the walk in the document around the element. */
module TreeWalkEnds {
  import opened Seqs
  import opened TreeWalk

  // ----- The walk is deterministic

  lemma {:induction false} ClimbIsUnique(start: Node, n: Node, j: nat, k: nat)
    requires Climbs(start, n, j) && Climbs(start, n, k)
    ensures j == k
    decreases j
  {
    if j > 0 && k > 0 {
      ClimbIsUnique(start, n.parentNode, j - 1, k - 1);
    }
  }

  lemma MoveIsUnique(start: Node, n: Node, a: Node?, b: Node?)
    requires Moves(start, n, a) && Moves(start, n, b)
    ensures a == b
  {
    if n.nodesCount == 0 {
      var j :| Climbs(start, n, j) && Ancestor(n, j) != null && a == Ancestor(n, j).nextSibling;
      var k :| Climbs(start, n, k) && Ancestor(n, k) != null && b == Ancestor(n, k).nextSibling;
      ClimbIsUnique(start, n, j, k);
    }
  }

  lemma {:induction false} WalkIsUnique(start: Node, a: seq<Node?>, b: seq<Node?>, i: nat)
    requires IsWalk(start, a) && IsWalk(start, b) && i < |a| && i < |b| && a[0] == b[0]
    ensures a[i] == b[i]
  {
    if i > 0 {
      WalkIsUnique(start, a, b, i - 1);
      MoveIsUnique(start, a[i - 1], a[i], b[i]);
    }
  }

  // ----- Falling off the root

  /** The inner loop, entered at n, comes after k moves to a node without a parent that does not stop it: the
      next move dereferences null. */
  ghost predicate FallsOff(start: Node, n: Node, k: nat)
    reads *
    decreases k
  {
    && n.nextSibling == null && n != start
    && if k == 0 then n.parentNode == null else n.parentNode != null && FallsOff(start, n.parentNode, k - 1)
  }

  /** The iteration that begins at n never ends. */
  ghost predicate Stuck(start: Node, n: Node)
    reads *
  {
    n.nodesCount == 0 && exists k: nat :: FallsOff(start, n, k)
  }

  lemma {:induction false} FallsOffNeverClimbs(start: Node, n: Node, k: nat, j: nat)
    requires FallsOff(start, n, k)
    ensures !Climbs(start, n, j)
    decreases k
  {
    if k > 0 && j > 0 {
      FallsOffNeverClimbs(start, n.parentNode, k - 1, j - 1);
    }
  }

  lemma StuckDoesNotMove(start: Node, n: Node, m: Node?)
    requires Stuck(start, n)
    ensures !Moves(start, n, m)
  {
    var k: nat :| FallsOff(start, n, k);
    forall j: nat ensures !Climbs(start, n, j) {
      FallsOffNeverClimbs(start, n, k, j);
    }
  }

  // ----- Positions in a document

  ghost predicate Distinct(s: seq<Node>) {
    forall i, j :: 0 <= i < j < |s| ==> s[i] != s[j]
  }

  /** A whole well-formed tree: nothing above its root, nothing beside it, no node twice. */
  ghost predicate Document(doc: Tree)
    reads *
  {
    Linked(doc) && doc.node.parentNode == null && doc.node.nextSibling == null && Distinct(Preorder(doc))
  }

  /** Where a node stands that is still to be visited from here on. */
  lemma {:induction false} Locate(cur: Tree, levels: seq<Level>, root: Node, start: Node)
    returns (e: Tree, under: seq<Level>, k: nat)
    requires Linked(cur) && At(cur.node, levels, root)
    requires var todo := Preorder(cur) + Remaining(levels); start in todo && root !in todo[1..]
    ensures e.node == start && Linked(e) && At(start, under, root)
    ensures var todo := Preorder(cur) + Remaining(levels);
            k <= |todo| && todo[k..] == Preorder(e) + Remaining(under)
    decreases |Preorder(cur) + Remaining(levels)|
  {
    hide Preorder, PreorderAll, Linked, LinkedAll, At;
    var todo := Preorder(cur) + Remaining(levels);
    var more := PreorderAll(cur.children) + Remaining(levels);
    VisitedFirst(cur, levels);
    assert todo == [cur.node] + more && todo[1..] == more;
    if cur.node == start {
      e, under, k := cur, levels, 0;
    } else {
      var next, rest := NextPosition(cur, levels, root);
      assert more == Preorder(next) + Remaining(rest);
      e, under, k := Locate(next, rest, root, start);
      k := k + 1;
      assert todo[k..] == more[k - 1..];
    }
  }

  /** The next node in document order, if there is one. */
  lemma NextPosition(cur: Tree, levels: seq<Level>, root: Node) returns (next: Tree, rest: seq<Level>)
    requires Linked(cur) && At(cur.node, levels, root)
    requires var more := PreorderAll(cur.children) + Remaining(levels); root !in more && more != []
    ensures Linked(next) && At(next.node, rest, root)
    ensures PreorderAll(cur.children) + Remaining(levels) == Preorder(next) + Remaining(rest)
  {
    hide Preorder, PreorderAll, Linked, LinkedAll, At;
    LinkedCounts(cur);
    if cur.node.nodesCount > 0 {
      PushLevel(cur, levels, root);
      next, rest := cur.children[0], levels + [Level(cur.node, cur.children[1..])];
    } else {
      assert PreorderAll(cur.children) + Remaining(levels) == Remaining(levels);
      var p, k, under := ClimbsTo(cur.node, levels, root);
      NextLevel(p, under, root);
      var top := under[|under| - 1];
      next, rest := top.rest[0], under[..|under| - 1] + [Level(top.parent, top.rest[1..])];
    }
  }

  /** A node has one depth. */
  lemma {:induction false} DepthIsUnique(n: Node, a: seq<Level>, b: seq<Level>, root: Node)
    requires At(n, a, root) && At(n, b, root)
    ensures |a| == |b|
    decreases |a|
  {
    if |a| > 0 && |b| > 0 {
      DepthIsUnique(n.parentNode, a[..|a| - 1], b[..|b| - 1], root);
    }
  }

  lemma {:induction false} ParentsAreHigher(n: Node, levels: seq<Level>, root: Node, k: nat)
    requires At(n, levels, root) && k < |levels|
    ensures At(levels[k].parent, levels[..k], root)
    decreases |levels|
  {
    var last := |levels| - 1;
    if k < last {
      ParentsAreHigher(n.parentNode, levels[..last], root, k);
      assert levels[..last][..k] == levels[..k];
    }
  }

  ghost predicate Passes(levels: seq<Level>, start: Node) {
    forall k :: 0 <= k < |levels| ==> levels[k].parent != start
  }

  /** No node lies above itself. */
  lemma NotItsOwnAncestor(start: Node, levels: seq<Level>, root: Node)
    requires At(start, levels, root)
    ensures Passes(levels, start)
  {
    forall k | 0 <= k < |levels| ensures levels[k].parent != start {
      ParentsAreHigher(start, levels, root, k);
      if levels[k].parent == start {
        DepthIsUnique(start, levels, levels[..k], root);
      }
    }
  }

  // ----- Outside the element

  /** The climb of a walk that does not meet its start: to a next sibling, or off the root. */
  lemma {:induction false} ClimbsPast(n: Node, levels: seq<Level>, root: Node, start: Node)
    returns (p: Node, k: nat, under: seq<Level>)
    requires At(n, levels, root) && n != start && Passes(levels, start)
    requires root.parentNode == null && root.nextSibling == null
    ensures Remaining(under) == Remaining(levels) && |under| <= |levels| && under <= levels
    ensures |under| > 0 ==> Climbs(start, n, k) && Ancestor(n, k) == p && At(p, under, root) && p.nextSibling != null
    ensures |under| == 0 ==> FallsOff(start, n, k)
    decreases |levels|
  {
    if n.nextSibling != null {
      p, k, under := n, 0, levels;
    } else if |levels| == 0 {
      p, k, under := n, 0, [];
    } else {
      PopLevel(levels);
      p, k, under := ClimbsPast(n.parentNode, levels[..|levels| - 1], root, start);
      k := k + 1;
    }
  }

  /** One iteration behind the element: to the next node of the document, or off its root. */
  lemma MovesOutside(cur: Tree, levels: seq<Level>, root: Node, start: Node) returns (next: Tree, rest: seq<Level>)
    requires Linked(cur) && At(cur.node, levels, root) && Passes(levels, start) && cur.node != start
    requires root.parentNode == null && root.nextSibling == null
    requires root !in PreorderAll(cur.children) + Remaining(levels)
    ensures var more := PreorderAll(cur.children) + Remaining(levels);
            && (more == [] ==> Stuck(start, cur.node))
            && (more != [] ==>
                  && more == Preorder(next) + Remaining(rest) && Moves(start, cur.node, next.node)
                  && Linked(next) && At(next.node, rest, root) && Passes(rest, start))
  {
    hide Preorder, PreorderAll, Linked, LinkedAll, At, Remaining, Passes, Stuck, Moves, Climbs, FallsOff, Ancestor;
    LinkedCounts(cur);
    next, rest := cur, levels;
    if cur.node.nodesCount > 0 {
      PushLevel(cur, levels, root);
      next, rest := cur.children[0], levels + [Level(cur.node, cur.children[1..])];
      PassesMore(levels, rest, start);
      DownMoves(start, cur.node);
      assert Preorder(next) + Remaining(rest) != [];
    } else {
      assert PreorderAll(cur.children) + Remaining(levels) == Remaining(levels);
      var p, k, under := ClimbsPast(cur.node, levels, root, start);
      if |under| > 0 {
        next, rest := Across(p, under, root);
        assert under[|under| - 1] == levels[|under| - 1] && rest[..|rest| - 1] == levels[..|under| - 1];
        PassesAt(levels, |under| - 1, start);
        PassesMore(levels, rest, start);
        ClimbMoves(start, cur.node, p, k);
        assert Preorder(next) + Remaining(rest) != [];
      } else {
        NoLevels();
        LastIsStuck(start, cur.node, k);
      }
    }
  }

  lemma Across(p: Node, under: seq<Level>, root: Node) returns (next: Tree, rest: seq<Level>)
    requires |under| > 0 && At(p, under, root) && p.nextSibling != null && root !in Remaining(under)
    ensures p.nextSibling == next.node && Linked(next) && At(next.node, rest, root)
    ensures |rest| == |under| && rest[..|rest| - 1] == under[..|under| - 1] && rest[|rest| - 1].parent == under[|under| - 1].parent
    ensures Remaining(under) == Preorder(next) + Remaining(rest)
  {
    hide Preorder, PreorderAll, Linked, LinkedAll, At, Remaining;
    NextLevel(p, under, root);
    var top := under[|under| - 1];
    next, rest := top.rest[0], under[..|under| - 1] + [Level(top.parent, top.rest[1..])];
  }

  /** From a node behind the element the walk visits what is left of the document and falls off its root. */
  lemma {:induction false} WalksOff(cur: Tree, levels: seq<Level>, root: Node, start: Node)
    requires Linked(cur) && At(cur.node, levels, root) && Passes(levels, start)
    requires root.parentNode == null && root.nextSibling == null
    requires var todo := Preorder(cur) + Remaining(levels); start !in todo && root !in todo[1..]
    ensures var todo := Preorder(cur) + Remaining(levels);
            |todo| > 0 && IsWalk(start, Cursors(todo)) && Stuck(start, todo[|todo| - 1])
    decreases |Preorder(cur) + Remaining(levels)|
  {
    hide Preorder, PreorderAll, Linked, LinkedAll, At, Remaining, Passes, IsWalk, Stuck, Moves;
    var todo := Preorder(cur) + Remaining(levels);
    var more := PreorderAll(cur.children) + Remaining(levels);
    VisitedFirst(cur, levels);
    assert todo == [cur.node] + more && todo[1..] == more && cur.node == todo[0];
    var next, rest := MovesOutside(cur, levels, root, start);
    if more == [] {
      assert todo == [cur.node];
      OneCursor(start, cur.node);
    } else {
      assert more[0] == next.node;
      WalksOff(next, rest, root, start);
      Onward(start, cur.node, more, todo);
    }
  }

  lemma OneCursor(start: Node, n: Node)
    ensures IsWalk(start, Cursors([n]))
  {
  }

  lemma PassesAt(levels: seq<Level>, k: nat, start: Node)
    requires Passes(levels, start) && k < |levels|
    ensures levels[k].parent != start
  {
  }

  lemma PassesMore(levels: seq<Level>, rest: seq<Level>, start: Node)
    requires Passes(levels, start) && |rest| > 0 && rest[|rest| - 1].parent != start
    requires rest[..|rest| - 1] <= levels
    ensures Passes(rest, start)
  {
    forall k | 0 <= k < |rest| ensures rest[k].parent != start {
      if k < |rest| - 1 {
        assert rest[k] == rest[..|rest| - 1][k] == levels[k];
      }
    }
  }

  lemma DownMoves(start: Node, n: Node)
    requires n.nodesCount > 0
    ensures Moves(start, n, n.firstChild)
  {
  }

  lemma ClimbMoves(start: Node, n: Node, p: Node, k: nat)
    requires n.nodesCount == 0 && Climbs(start, n, k) && Ancestor(n, k) == p
    ensures Moves(start, n, p.nextSibling)
  {
  }

  lemma LastIsStuck(start: Node, n: Node, k: nat)
    requires n.nodesCount == 0 && FallsOff(start, n, k)
    ensures Stuck(start, n)
  {
  }

  lemma Onward(start: Node, n: Node, more: seq<Node>, todo: seq<Node>)
    requires |more| > 0 && IsWalk(start, Cursors(more)) && Stuck(start, more[|more| - 1]) && todo == [n] + more
    requires Moves(start, n, more[0])
    ensures IsWalk(start, Cursors(todo)) && Stuck(start, todo[|todo| - 1])
  {
    Prepend(start, n, Cursors(more));
    assert Cursors(todo) == [n] + Cursors(more);
  }

  lemma WalksJoin(start: Node, a: seq<Node?>, b: seq<Node?>)
    requires |b| > 0 && IsWalk(start, a + [b[0]]) && IsWalk(start, b)
    ensures IsWalk(start, a + b)
  {
    var all, first := a + b, a + [b[0]];
    forall i | 0 <= i < |all| - 1 ensures all[i] != null && Moves(start, all[i], all[i + 1]) {
      if i < |a| {
        assert all[i] == first[i] && all[i + 1] == first[i + 1];
      } else {
        assert all[i] == b[i - |a|] && all[i + 1] == b[i - |a| + 1];
      }
    }
  }

  // ----- The condition

  /** The element in its document. */
  lemma Placed(doc: Tree, start: Node) returns (e: Tree, levels: seq<Level>)
    requires Document(doc) && start in Preorder(doc)
    ensures e.node == start && Linked(e) && At(start, levels, doc.node) && Passes(levels, start)
    ensures Distinct(Preorder(e) + Remaining(levels))
    ensures doc.node !in PreorderAll(e.children) + Remaining(levels)
    ensures start !in PreorderAll(e.children) + Remaining(levels)
  {
    hide Linked, LinkedAll;
    var root, all := doc.node, Preorder(doc);
    NoLevels();
    assert all + Remaining([]) == all;
    var k;
    e, levels, k := Locate(doc, [], root, start);
    NotItsOwnAncestor(start, levels, root);
    VisitedFirst(e, levels);
    var more := PreorderAll(e.children) + Remaining(levels);
    assert all[k..] == [start] + more;
    assert all[0] == root && all[k] == all[k..][0] == start;
    forall i | 0 <= i < |more| ensures more[i] != root && more[i] != start {
      assert more[i] == all[k..][1 + i] == all[k + 1 + i];
    }
  }

  /** An element with a child and a next sibling: the walk visits its descendants, goes on to the end of the
      document, and dereferences null at the root. */
  lemma WalksOutOfTheDocument(doc: Tree, start: Node) returns (cursor: seq<Node>)
    requires Document(doc) && start in Preorder(doc)
    requires start.firstChild != null && start.nextSibling != null
    ensures |cursor| > 0 && IsWalk(start, Cursors(cursor)) && cursor[0] == start.firstChild
    ensures Stuck(start, cursor[|cursor| - 1])
  {
    hide Preorder, PreorderAll, Linked, LinkedAll, At, Remaining, Stuck;
    var e, levels := Placed(doc, start);
    WalkVisitsDescendants(e);
    HasLevels(start, levels, doc.node);
    NextLevel(start, levels, doc.node);
    var top := levels[|levels| - 1];
    var next, rest := top.rest[0], levels[..|levels| - 1] + [Level(top.parent, top.rest[1..])];
    var inside, outside := PreorderAll(e.children), Preorder(next) + Remaining(rest);
    assert outside == Remaining(levels);
    assert outside[0] == next.node == start.nextSibling;
    WalksOff(next, rest, doc.node, start);
    WalksJoin(start, Cursors(inside), Cursors(outside));
    cursor := inside + outside;
    assert cursor[0] == inside[0] && cursor[|cursor| - 1] == outside[|outside| - 1];
    assert Cursors(cursor) == Cursors(inside) + Cursors(outside);
  }

  lemma HasLevels(n: Node, levels: seq<Level>, root: Node)
    requires At(n, levels, root) && n.nextSibling != null && root.nextSibling == null
    ensures |levels| > 0
  {
  }

  /** In every document: the walk from the first child comes to its end, null, if and only if the element has
      no child or no next sibling. */
  lemma EndsIff(doc: Tree, start: Node)
    requires Document(doc) && start in Preorder(doc)
    ensures (exists cursor: seq<Node?> :: |cursor| > 0 && IsWalk(start, cursor) && cursor[0] == start.firstChild
                                          && cursor[|cursor| - 1] == null)
            <==> start.firstChild == null || start.nextSibling == null
  {
    hide Preorder, PreorderAll, Linked, LinkedAll, At, Remaining;
    if start.firstChild == null {
      var none: seq<Node?> := [null];
      assert IsWalk(start, none) && none[|none| - 1] == null;
    } else if start.nextSibling == null {
      var e, levels := Placed(doc, start);
      WalkVisitsDescendants(e);
      var cursor := Cursors(PreorderAll(e.children)) + [start.nextSibling];
      assert cursor[0] == start.firstChild && cursor[|cursor| - 1] == null;
    } else {
      var off := WalksOutOfTheDocument(doc, start);
      forall cursor: seq<Node?> | |cursor| > 0 && IsWalk(start, cursor) && cursor[0] == start.firstChild
        ensures cursor[|cursor| - 1] != null
      {
        NoLonger(start, off, cursor);
        WalkIsUnique(start, Cursors(off), cursor, |cursor| - 1);
      }
    }
  }

  lemma NoLonger(start: Node, off: seq<Node>, cursor: seq<Node?>)
    requires |off| > 0 && IsWalk(start, Cursors(off)) && Stuck(start, off[|off| - 1])
    requires |cursor| > 0 && IsWalk(start, cursor) && cursor[0] == off[0]
    ensures |cursor| <= |off|
  {
    var last := |off| - 1;
    if |cursor| > |off| {
      WalkIsUnique(start, Cursors(off), cursor, last);
      StuckDoesNotMove(start, off[last], cursor[last + 1]);
    }
  }
}
