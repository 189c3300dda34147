/** The parser as it builds linked nodes, and what those nodes represent. */
module BeginEndTree {
  import opened Bytes
  import opened IcsText
  import opened ContentLine
  import opened BeginEnd

  class TreeNode {
    var line: Line
    var parent: TreeNode?
    var children: seq<TreeNode>

    constructor (line: Line)
      ensures this.line == line && parent == null && children == []
    {
      this.line := line;
      parent := null;
      children := [];
    }
  }

  /** The node n, with everything below it inside nodes, is the tree t. */
  ghost predicate Represents(n: TreeNode, t: Node, nodes: set<TreeNode>)
    reads nodes
    decreases t
  {
    && n in nodes && n.line == t.line && |n.children| == |t.children|
    && forall i :: 0 <= i < |t.children| ==> Represents(n.children[i], t.children[i], nodes)
  }

  ghost predicate RepresentAll(ns: seq<TreeNode>, ts: seq<Node>, nodes: set<TreeNode>)
    reads nodes
  {
    |ns| == |ts| && forall i :: 0 <= i < |ts| ==> Represents(ns[i], ts[i], nodes)
  }

  lemma {:induction false} RepresentsGrows(n: TreeNode, t: Node, nodes: set<TreeNode>, more: set<TreeNode>)
    requires Represents(n, t, nodes) && nodes <= more
    ensures Represents(n, t, more)
    decreases t
  {
    forall i | 0 <= i < |t.children|
      ensures Represents(n.children[i], t.children[i], more)
    {
      RepresentsGrows(n.children[i], t.children[i], nodes, more);
    }
  }

  lemma RepresentAllGrows(ns: seq<TreeNode>, ts: seq<Node>, nodes: set<TreeNode>, more: set<TreeNode>)
    requires RepresentAll(ns, ts, nodes) && nodes <= more
    ensures RepresentAll(ns, ts, more)
  {
    hide Represents;
    forall i | 0 <= i < |ts|
      ensures Represents(ns[i], ts[i], more)
    {
      RepresentsGrows(ns[i], ts[i], nodes, more);
    }
  }

  /** The open nodes: each is the last child of the one before, which is its parent. */
  ghost predicate Linked(spine: seq<TreeNode>)
    reads spine
  {
    && (forall j, k :: 0 <= j < k < |spine| ==> spine[j] != spine[k])
    && (forall k :: 0 < k < |spine| ==> spine[k].parent == spine[k - 1])
    && (|spine| > 0 ==> spine[0].parent == null)
  }

  /** The completed children of the open node k. */
  ghost function Done(spine: seq<TreeNode>, k: nat): seq<TreeNode>
    requires k < |spine|
    reads spine[k]
  {
    var c := spine[k].children;
    if k < |spine| - 1 && |c| > 0 then c[..|c| - 1] else c
  }

  ghost predicate OpenNode(spine: seq<TreeNode>, frames: seq<Frame>, k: nat, closed: set<TreeNode>)
    requires k < |spine| && k < |frames|
    reads spine[k], closed
  {
    && spine[k] !in closed && spine[k].line == frames[k].line
    && RepresentAll(Done(spine, k), frames[k].done, closed)
    && (k < |spine| - 1 ==> |spine[k].children| > 0 && spine[k].children[|spine[k].children| - 1] == spine[k + 1])
  }

  /** The nodes under construction are the open frames, with every completed node in closed. */
  ghost predicate Building(spine: seq<TreeNode>, frames: Spine, closed: set<TreeNode>)
    reads spine, closed
  {
    && |spine| == |frames| && Linked(spine)
    && forall k :: 0 <= k < |spine| ==> OpenNode(spine, frames, k, closed)
  }

  lemma OpenNodeKept(spine: seq<TreeNode>, frames: seq<Frame>, closed: set<TreeNode>,
                     spine': seq<TreeNode>, frames': seq<Frame>, closed': set<TreeNode>, k: nat)
    requires k < |spine| && k < |frames| && k < |spine'| && k < |frames'|
    requires OpenNode(spine, frames, k, closed) && closed <= closed'
    requires spine'[k] == spine[k] && frames'[k] == frames[k] && spine[k] !in closed'
    requires (k < |spine| - 1) == (k < |spine'| - 1) && (k < |spine| - 1 ==> spine'[k + 1] == spine[k + 1])
    ensures OpenNode(spine', frames', k, closed')
  {
    hide RepresentAll;
    RepresentAllGrows(Done(spine, k), frames[k].done, closed, closed');
  }

  /** The current node gets one more child that is already complete. */
  method AddLeaf(current: TreeNode, line: Line, ghost spine: seq<TreeNode>, ghost frames: Spine,
      ghost closed: set<TreeNode>)
      returns (ghost closed': set<TreeNode>)
    requires Building(spine, frames, closed) && current == spine[|spine| - 1]
    modifies current
    ensures fresh(closed' - closed)
    ensures Building(spine, WithChild(frames, Node(line, [])), closed')
  {
    hide RepresentAll;
    var node := new TreeNode(line);
    closed' := closed + {node};
    ghost var was, n := current.children, |spine| - 1;
    ghost var frames' := WithChild(frames, Node(line, []));
    assert OpenNode(spine, frames, n, closed);
    assert RepresentAll(was, frames[n].done, closed);
    current.children := current.children + [node];
    assert RepresentAll(was, frames[n].done, closed);
    AddRepresented(was, frames[n].done, node, Node(line, []), closed, closed');
    forall k | 0 <= k < |spine|
      ensures OpenNode(spine, frames', k, closed')
    {
      if k < n {
        assert OpenNode(spine, frames, k, closed);
        OpenNodeKept(spine, frames, closed, spine, frames', closed', k);
      }
    }
  }

  lemma AddRepresented(ns: seq<TreeNode>, ts: seq<Node>, n: TreeNode, t: Node, nodes: set<TreeNode>,
      more: set<TreeNode>)
    requires RepresentAll(ns, ts, nodes) && nodes <= more && Represents(n, t, more)
    ensures RepresentAll(ns + [n], ts + [t], more)
  {
    hide Represents;
    RepresentAllGrows(ns, ts, nodes, more);
  }

  /** A BEGIN line: its node becomes the last child of the current node, and the current node itself. */
  method Open(current: TreeNode, line: Line, ghost spine: seq<TreeNode>, ghost frames: Spine,
      ghost closed: set<TreeNode>)
      returns (node: TreeNode)
    requires Building(spine, frames, closed) && current == spine[|spine| - 1]
    modifies current
    ensures fresh(node)
    ensures Building(spine + [node], frames + [Frame(line, [])], closed)
  {
    hide RepresentAll;
    node := new TreeNode(line);
    node.parent := current;
    ghost var was, n := current.children, |spine| - 1;
    ghost var spine', frames' := spine + [node], frames + [Frame(line, [])];
    assert OpenNode(spine, frames, n, closed);
    assert RepresentAll(was, frames[n].done, closed);
    current.children := current.children + [node];
    assert RepresentAll(was, frames[n].done, closed);
    assert current.children[..|current.children| - 1] == was;
    forall k | 0 <= k < |spine'|
      ensures OpenNode(spine', frames', k, closed)
    {
      if k < n {
        assert OpenNode(spine, frames, k, closed);
        OpenNodeKept(spine, frames, closed, spine', frames', closed, k);
      } else if k == n + 1 {
        NoneRepresented(closed);
      }
    }
  }

  lemma NoneRepresented(nodes: set<TreeNode>)
    ensures RepresentAll([], [], nodes)
  {
  }

  lemma CurrentRepresents(n: TreeNode, t: Node, closed: set<TreeNode>, closed': set<TreeNode>)
    requires n.line == t.line && RepresentAll(n.children, t.children, closed) && closed' == closed + {n}
    ensures Represents(n, t, closed')
  {
    RepresentAllGrows(n.children, t.children, closed, closed');
  }

  /** What is complete below the current node becomes part of its parent's children. */
  lemma PopBuilding(spine: seq<TreeNode>, frames: Spine, closed: set<TreeNode>)
    requires Building(spine, frames, closed) && |frames| > 1
    ensures Building(spine[..|spine| - 1], Pop(frames), closed + {spine[|spine| - 1]})
  {
    hide RepresentAll, Represents;
    var n := |spine| - 1;
    var node, parent := spine[n], spine[n - 1];
    var spine', frames', closed' := spine[..n], Pop(frames), closed + {node};
    assert OpenNode(spine, frames, n, closed) && OpenNode(spine, frames, n - 1, closed);
    CurrentRepresents(node, Top(frames), closed, closed');
    var front := Done(spine, n - 1);
    assert parent.children == front + [node];
    AddRepresented(front, frames[n - 1].done, node, Top(frames), closed, closed');
    assert frames'[n - 1] == Frame(frames[n - 1].line, frames[n - 1].done + [Top(frames)]);
    forall k | 0 <= k < n
      ensures OpenNode(spine', frames', k, closed')
    {
      assert OpenNode(spine, frames, k, closed);
      if k < n - 1 {
        assert frames'[k] == frames[k];
        OpenNodeKept(spine, frames, closed, spine', frames', closed', k);
      }
    }
    LinkedFront(spine);
  }

  lemma LinkedFront(spine: seq<TreeNode>)
    requires Linked(spine) && |spine| > 0
    ensures Linked(spine[..|spine| - 1])
  {
  }

  /** At the end of the lines every open node counts as complete. */
  lemma {:induction false} CloseBuilding(spine: seq<TreeNode>, frames: Spine, closed: set<TreeNode>)
      returns (nodes: set<TreeNode>)
    requires Building(spine, frames, closed)
    ensures Represents(spine[0], Close(frames), nodes)
    decreases |spine|
  {
    hide RepresentAll, Represents, Pop;
    if |spine| == 1 {
      nodes := closed + {spine[0]};
      assert OpenNode(spine, frames, 0, closed);
      CurrentRepresents(spine[0], Top(frames), closed, nodes);
    } else {
      PopBuilding(spine, frames, closed);
      nodes := CloseBuilding(spine[..|spine| - 1], Pop(frames), closed + {spine[|spine| - 1]});
    }
  }

  /** What one line does to the nodes under construction. */
  method Take(current: TreeNode, line: Line, ghost spine: seq<TreeNode>, ghost frames: Spine,
      ghost closed: set<TreeNode>)
      returns (current': TreeNode, ghost spine': seq<TreeNode>, ghost closed': set<TreeNode>)
    requires Building(spine, frames, closed) && current == spine[|spine| - 1]
    modifies current
    ensures Building(spine', Step(frames, line), closed')
    ensures |spine'| > 0 && spine'[0] == spine[0] && current' == spine'[|spine'| - 1]
    ensures forall n :: n in spine' ==> n in spine || fresh(n)
  {
    hide Represents, RepresentAll, OpenNode, Linked, WithChild, Pop;
    current', spine', closed' := current, spine, closed;
    if line.key == BEGIN {
      current' := Open(current, line, spine, frames, closed);
      spine' := spine + [current'];
    } else if line.key == END {
      ParentOf(spine, frames, closed);
      if current.parent != null {
        PopBuilding(spine, frames, closed);
        closed' := closed + {current};
        spine' := spine[..|spine| - 1];
        current' := current.parent;
      }
    } else {
      closed' := AddLeaf(current, line, spine, frames, closed);
    }
  }

  /** The loop over the lines: the nodes hanging below the root are the tree of the lines. */
  method Parse(text: Bytes) returns (root: TreeNode, ghost nodes: set<TreeNode>)
    ensures fresh(root) && Represents(root, TextTree(text), nodes)
  {
    hide Represents, Building, Step, Unfold, ParseLine, ParseAll, Run;
    var lines := GetLines(text);
    root := new TreeNode(EMPTY_LINE);
    var current := root;
    ghost var spine: seq<TreeNode>, closed: set<TreeNode> := [root], {};
    ghost var all := ParseAll(lines);
    RootBuilding(root);
    for i := 0 to |lines|
      invariant |spine| > 0 && spine[0] == root && current == spine[|spine| - 1]
      invariant Building(spine, Run(START, all[..i]), closed)
      invariant forall n :: n in spine ==> fresh(n)
    {
      var line := ParseOneLine(lines[i]);
      ParseAllAt(lines, i);
      RunNext(all, i);
      assert current in spine;
      BuildingTop(spine, Run(START, all[..i]), closed);
      current, spine, closed := Take(current, line, spine, Run(START, all[..i]), closed);
    }
    assert all[..|lines|] == all;
    nodes := CloseBuilding(spine, Run(START, all), closed);
  }

  lemma BuildingTop(spine: seq<TreeNode>, frames: Spine, closed: set<TreeNode>)
    requires Building(spine, frames, closed)
    ensures |spine| == |frames|
  {
  }

  lemma RootBuilding(root: TreeNode)
    requires root.line == EMPTY_LINE && root.parent == null && root.children == []
    ensures Building([root], Run(START, []), {})
  {
    assert forall k :: 0 <= k < |[root]| ==> OpenNode([root], START, k, {});
  }

  lemma ParentOf(spine: seq<TreeNode>, frames: Spine, closed: set<TreeNode>)
    requires Building(spine, frames, closed)
    ensures spine[|spine| - 1].parent == if |frames| > 1 then spine[|spine| - 2] else null
  {
  }

  lemma {:induction false} ParseAllAt(lines: seq<Bytes>, i: nat)
    requires i < |lines|
    ensures ParseAll(lines)[i] == ParseLine(lines[i])
    decreases |lines|
  {
    hide ParseLine;
    if i < |lines| - 1 { ParseAllAt(lines[..|lines| - 1], i); }
  }

  lemma RunNext(all: seq<Line>, i: nat)
    requires i < |all|
    ensures Run(START, all[..i + 1]) == Step(Run(START, all[..i]), all[i])
  {
    assert all[..i + 1][..i] == all[..i];
  }

  /** What a caller gets: the first top-level node, or the bare root when there is none. */
  method ParseText(text: Bytes) returns (node: TreeNode, ghost nodes: set<TreeNode>)
    ensures Represents(node, Document(TextTree(text)), nodes)
  {
    hide TextTree;
    node, nodes := Parse(text);
    if node.children != [] {
      node := node.children[0];
    }
  }
}
