/**
 * The render tree of src/retrohtr.h as far as its shape goes: render nodes
 * live in one table that doubles when it fills, a new node is zeroed and
 * then linked in as the last child of its parent, and layout asks for the
 * previous sibling of a node that takes part in the box model. Sizes,
 * margins, colours, fonts and bitmaps of a node, and the layout that
 * computes them, are not modelled.
 */
module RetroHtr {
  import opened Maug
  import opened LinkTree

  /** MHTML_PARSER_TAGS_INIT_SZ: the number of nodes retrohtr_tree_init allocates. */
  const TAGS_INIT_SZ: nat := 10

  /**
   * struct RETROHTR_RENDER_NODE, as far as the tree needs it: the CSS
   * position, the parser tag the node renders, and its links.
   */
  datatype RNode = RNode(pos: nat, tag: int, link: Link)

  /** A node after maug_mzero: every field, every link included, is 0. */
  const ZERO_NODE: RNode := RNode(0, 0, Link(0, 0, 0))

  /** The links of every node, in table order. */
  function NodeLinks(nodes: seq<RNode>): (ls: seq<Link>)
    ensures |ls| == |nodes| && forall i :: 0 <= i < |nodes| ==> ls[i] == nodes[i].link
  {
    seq(|nodes|, i requires 0 <= i < |nodes| => nodes[i].link)
  }

  /** Replacing a node's links replaces them in the table of links. */
  lemma NodeLinksUpdate(nodes: seq<RNode>, k: nat, l: Link)
    requires k < |nodes|
    ensures NodeLinks(nodes[k := nodes[k].(link := l)]) == NodeLinks(nodes)[k := l]
  {
  }

  /** A zeroed node once retrohtr_add_node_child has set its links. */
  function NewNode(parent: int): (n: RNode)
    ensures n.link == Link(parent, -1, -1) && n.pos == ZERO_NODE.pos && n.tag == ZERO_NODE.tag
  {
    ZERO_NODE.(link := Link(parent, -1, -1))
  }

  /**
   * `b` holds the nodes of `a`, perhaps followed by more, and differs from
   * them only in their links.
   */
  predicate KeepsAllButLinks(a: seq<RNode>, b: seq<RNode>) {
    |a| <= |b| && forall i :: 0 <= i < |a| ==> b[i].(link := a[i].link) == a[i]
  }

  /** Appending a new root is AddChild with no parent. */
  lemma LinkedRoot(nodes: seq<RNode>, p: int)
    requires Forward(NodeLinks(nodes)) && p < 0
    ensures var r := nodes + [NewNode(p)];
      Forward(NodeLinks(r)) && NodeLinks(r) == AddChild(NodeLinks(nodes), p) && KeepsAllButLinks(nodes, r)
  {
    assert NodeLinks(nodes + [NewNode(p)]) == NodeLinks(nodes) + [Link(p, -1, -1)];
    AddChildAppends(NodeLinks(nodes), p);
  }

  /**
   * Appending a node under `p` keeps the links forward and p's sibling
   * chains where they ended; when `p` had no children, making the node its
   * first child is AddChild under `p`.
   */
  lemma LinkedFirstChild(nodes: seq<RNode>, p: nat)
    requires Forward(NodeLinks(nodes)) && p < |nodes|
    ensures var t := nodes + [NewNode(p)];
      && Forward(NodeLinks(t)) && NodeLinks(t) == NodeLinks(nodes) + [Link(p, -1, -1)]
      && (0 <= nodes[p].link.firstChild ==>
            LastSibling(NodeLinks(t), nodes[p].link.firstChild)
              == LastSibling(NodeLinks(nodes), nodes[p].link.firstChild))
      && (nodes[p].link.firstChild < 0 ==>
            var r := t[p := t[p].(link := t[p].link.(firstChild := |nodes|))];
            Forward(NodeLinks(r)) && NodeLinks(r) == AddChild(NodeLinks(nodes), p)
            && KeepsAllButLinks(nodes, r))
  {
    var ls := NodeLinks(nodes);
    var t := nodes + [NewNode(p)];
    assert NodeLinks(t) == ls + [Link(p, -1, -1)];
    AppendedKeepsForward(ls, p);
    AddChildAppends(ls, p);
    if 0 <= nodes[p].link.firstChild {
      LastSiblingAppended(ls, p, nodes[p].link.firstChild);
    } else {
      NodeLinksUpdate(t, p, t[p].link.(firstChild := |nodes|));
      assert (ls + [Link(p, -1, -1)])[p := ls[p].(firstChild := |nodes|)]
        == ls[p := ls[p].(firstChild := |nodes|)] + [Link(p, -1, -1)];
    }
  }

  /** Linking the new node after the last child `last` of `p` is AddChild under `p`. */
  lemma LinkedLaterChild(nodes: seq<RNode>, p: nat, last: nat)
    requires Forward(NodeLinks(nodes)) && p < |nodes| && 0 <= nodes[p].link.firstChild
    requires last == LastSibling(NodeLinks(nodes), nodes[p].link.firstChild)
    ensures var t := nodes + [NewNode(p)];
      var r := t[last := t[last].(link := t[last].link.(nextSibling := |nodes|))];
      Forward(NodeLinks(r)) && NodeLinks(r) == AddChild(NodeLinks(nodes), p) && KeepsAllButLinks(nodes, r)
  {
    var ls := NodeLinks(nodes);
    var t := nodes + [NewNode(p)];
    assert NodeLinks(t) == ls + [Link(p, -1, -1)];
    AddChildAppends(ls, p);
    NodeLinksUpdate(t, last, t[last].link.(nextSibling := |nodes|));
    assert (ls + [Link(p, -1, -1)])[last := ls[last].(nextSibling := |nodes|)]
      == ls[last := ls[last].(nextSibling := |nodes|)] + [Link(p, -1, -1)];
  }

  /**
   * retrohtr_node: the node at `idx`, or None (NULL) for a negative index.
   * The source does not check the upper bound, so neither may its callers
   * pass an index past the table.
   */
  function NodeAt(nodes: seq<RNode>, idx: int): (r: Option<RNode>)
    requires idx < |nodes|
    ensures r.None? <==> idx < 0
    ensures r.Some? ==> r.value == nodes[idx]
  {
    if 0 <= idx then Some(nodes[idx]) else None
  }

  /** retrohtr_node_parent: NULL for a negative index or a node without a parent. */
  function NodeParent(nodes: seq<RNode>, idx: int): (r: Option<RNode>)
    requires Forward(NodeLinks(nodes)) && idx < |nodes|
    ensures r.None? <==> idx < 0 || nodes[idx].link.parent < 0
    ensures r.Some? ==> 0 <= nodes[idx].link.parent < idx && r.value == nodes[nodes[idx].link.parent]
  {
    if 0 <= idx && 0 <= nodes[idx].link.parent then
      assert LinkForward(NodeLinks(nodes)[idx], idx, |nodes|);
      Some(nodes[nodes[idx].link.parent])
    else None
  }

  /**
   * The capacity retrohtr_get_next_free_node leaves: doubled when the
   * table has no room for one more node beyond the new one. From a table
   * with free room the new node always fits with room to spare.
   */
  function GrownMax(max: nat, sz: nat): (r: nat)
    requires sz < max
    ensures sz + 1 < r
    ensures r == max || r == 2 * max
    ensures r == 2 * max <==> max <= sz + 1
  {
    if max <= sz + 1 then 2 * max else max
  }

  /** The nodes of `c` before the first occurrence of `x`, or all of `c`. */
  function Prefix(c: seq<int>, x: int): (r: seq<int>)
    ensures |r| <= |c| && r == c[..|r|] && x !in r
    ensures |r| < |c| ==> c[|r|] == x
    ensures x !in c ==> r == c
  {
    if c == [] then []
    else if c[0] == x then []
    else [c[0]] + Prefix(c[1..], x)
  }

  /** The prefix before `x` of a sequence that starts with `v`, which lacks `x`. */
  lemma {:induction false} PrefixAppend(v: seq<int>, w: seq<int>, x: int)
    requires x !in v
    ensures Prefix(v + w, x) == v + Prefix(w, x)
  {
    if v != [] {
      assert (v + w)[1..] == v[1..] + w;
      PrefixAppend(v[1..], w, x);
      assert [v[0]] + v[1..] == v;
    } else {
      assert v + w == w;
    }
  }

  /** The last of the nodes `c` whose position is not `absolute`, or -1. */
  function LastPlaced(nodes: seq<RNode>, c: seq<int>, absolute: nat): (r: int)
    requires forall k :: 0 <= k < |c| ==> 0 <= c[k] < |nodes|
  {
    if c == [] then -1
    else if nodes[c[|c| - 1]].pos != absolute then c[|c| - 1]
    else LastPlaced(nodes, c[..|c| - 1], absolute)
  }

  /** One more node seen: it is the last placed one unless it is absolute. */
  lemma LastPlacedSnoc(nodes: seq<RNode>, v: seq<int>, x: nat, absolute: nat)
    requires forall k :: 0 <= k < |v| ==> 0 <= v[k] < |nodes|
    requires x < |nodes|
    ensures forall k :: 0 <= k < |v + [x]| ==> 0 <= (v + [x])[k] < |nodes|
    ensures LastPlaced(nodes, v + [x], absolute)
      == if nodes[x].pos != absolute then x else LastPlaced(nodes, v, absolute)
  {
    assert (v + [x])[..|v|] == v;
  }

  /** Following next_sibling from `i` moves one node of its chain into the seen part. */
  lemma ChainStep(ls: seq<Link>, c: seq<int>, seen: seq<int>, i: nat)
    requires Forward(ls) && i < |ls| && c == seen + Chain(ls, i)
    ensures ls[i].nextSibling < |ls| && c == (seen + [i]) + Chain(ls, ls[i].nextSibling)
  {
    assert LinkForward(ls[i], i, |ls|);
  }

  /**
   * The state of the sibling walk of retrohtr_find_prev_sibling_in_box_model:
   * `visited` is the part of the chain `c` already passed, which lacks the
   * node, `iter` starts the rest, and `r` is the last placed node passed.
   */
  ghost predicate Walking(ns: seq<RNode>, c: seq<int>, visited: seq<int>, iter: int,
                          nodeIdx: nat, r: int, absolute: nat)
  {
    && Forward(NodeLinks(ns))
    && iter < |ns| && c == visited + Chain(NodeLinks(ns), iter)
    && nodeIdx !in visited
    && (forall k :: 0 <= k < |visited| ==> 0 <= visited[k] < |ns|)
    && r == LastPlaced(ns, visited, absolute)
  }

  /** One step of the walk passes `iter` and moves to its next sibling. */
  lemma WalkStep(ns: seq<RNode>, c: seq<int>, visited: seq<int>, iter: nat,
                 nodeIdx: nat, r: int, absolute: nat)
    requires Walking(ns, c, visited, iter, nodeIdx, r, absolute) && nodeIdx != iter
    ensures Walking(ns, c, visited + [iter], ns[iter].link.nextSibling, nodeIdx,
                    if ns[iter].pos != absolute then iter else r, absolute)
  {
    LastPlacedSnoc(ns, visited, iter, absolute);
    ChainStep(NodeLinks(ns), c, visited, iter);
  }

  /** A walk that reached the node or the end of the chain has passed exactly its prefix. */
  lemma WalkDone(ns: seq<RNode>, c: seq<int>, visited: seq<int>, iter: int,
                 nodeIdx: nat, r: int, absolute: nat)
    requires Walking(ns, c, visited, iter, nodeIdx, r, absolute)
    requires iter < 0 || iter == nodeIdx
    ensures r == LastPlaced(ns, Prefix(c, nodeIdx), absolute)
  {
    var ls := NodeLinks(ns);
    PrefixAppend(visited, Chain(ls, iter), nodeIdx);
    if iter < 0 {
      assert Chain(ls, iter) == [];
    } else {
      assert Chain(ls, iter)[0] == nodeIdx;
    }
    assert visited + Prefix(Chain(ls, iter), nodeIdx) == visited;
  }

  /**
   * `r` is the last of the nodes `c` not placed `absolute`: -1 exactly
   * when every node of `c` is absolute, and otherwise a node of `c` that
   * is not absolute and is followed in `c` only by absolute nodes.
   */
  predicate IsLastPlaced(nodes: seq<RNode>, c: seq<int>, r: int, absolute: nat)
    requires forall k :: 0 <= k < |c| ==> 0 <= c[k] < |nodes|
  {
    && (r == -1 <==> forall k :: 0 <= k < |c| ==> nodes[c[k]].pos == absolute)
    && (r != -1 ==> exists k :: 0 <= k < |c| && c[k] == r && nodes[r].pos != absolute
                      && forall j :: k < j < |c| ==> nodes[c[j]].pos == absolute)
  }

  /** LastPlaced finds the last node of `c` that is not absolute. */
  lemma {:induction false} LastPlacedMeaning(nodes: seq<RNode>, c: seq<int>, absolute: nat)
    requires forall k :: 0 <= k < |c| ==> 0 <= c[k] < |nodes|
    ensures IsLastPlaced(nodes, c, LastPlaced(nodes, c, absolute), absolute)
  {
    if c != [] && nodes[c[|c| - 1]].pos == absolute {
      var c' := c[..|c| - 1];
      LastPlacedMeaning(nodes, c', absolute);
      var r := LastPlaced(nodes, c', absolute);
      if r != -1 {
        var k :| 0 <= k < |c'| && c'[k] == r && nodes[r].pos != absolute
          && forall j :: k < j < |c'| ==> nodes[c'[j]].pos == absolute;
        assert c[k] == r;
      } else {
        assert forall k :: 0 <= k < |c| ==> nodes[c[k]].pos == absolute by {
          forall k | 0 <= k < |c| ensures nodes[c[k]].pos == absolute {
            if k < |c'| {
              assert c[k] == c'[k];
            }
          }
        }
      }
    }
  }

  /**
   * The sibling retrohtr_find_prev_sibling_in_box_model looks for: among
   * the children of the node's parent that come before the node, the last
   * one whose position is not `absolute`; -1 for a node without a parent.
   */
  function PrevSibling(nodes: seq<RNode>, i: nat, absolute: nat): (r: int)
    requires Forward(NodeLinks(nodes)) && i < |nodes|
  {
    var ls := NodeLinks(nodes);
    var p := nodes[i].link.parent;
    if p < 0 then -1
    else
      assert LinkForward(ls[i], i, |ls|);
      LastPlaced(nodes, Prefix(Children(ls, p), i), absolute)
  }

  /**
   * The previous sibling is -1 for a root; otherwise it is the last of
   * the parent's children before the node that is not absolute, or -1
   * when all of them are absolute. It is never the node itself.
   */
  lemma PrevSiblingMeaning(nodes: seq<RNode>, i: nat, absolute: nat)
    requires Forward(NodeLinks(nodes)) && i < |nodes|
    ensures nodes[i].link.parent < 0 ==> PrevSibling(nodes, i, absolute) == -1
    ensures 0 <= nodes[i].link.parent ==>
      && nodes[i].link.parent < i
      && IsLastPlaced(nodes, Prefix(Children(NodeLinks(nodes), nodes[i].link.parent), i),
                      PrevSibling(nodes, i, absolute), absolute)
    ensures PrevSibling(nodes, i, absolute) != i
  {
    var ls := NodeLinks(nodes);
    var p := nodes[i].link.parent;
    if 0 <= p {
      assert LinkForward(ls[i], i, |ls|);
      LastPlacedMeaning(nodes, Prefix(Children(ls, p), i), absolute);
    }
  }

  /** struct RETROHTR_RENDER_TREE: the nodes in use and the allocated capacity. */
  class RenderTree {
    var nodes: seq<RNode>
    var nodesSzMax: nat

    /** There is always room for at least one more node than are in use. */
    ghost predicate Valid()
      reads this
    {
      |nodes| < nodesSzMax
    }

    /** Every node in use links forward. */
    ghost predicate Linked()
      reads this
    {
      Forward(NodeLinks(nodes))
    }

    /** retrohtr_tree_init: no nodes, room for MHTML_PARSER_TAGS_INIT_SZ. */
    constructor ()
      ensures Valid() && Linked() && nodes == [] && nodesSzMax == TAGS_INIT_SZ
    {
      nodes := [];
      nodesSzMax := TAGS_INIT_SZ;
    }

    /**
     * retrohtr_get_next_free_node: when the table is full up to one spare
     * node it doubles, and when that reallocation fails (`reallocOk` false)
     * -1 is returned and nothing changes; otherwise a zeroed node is
     * appended and its index returned.
     */
    method GetNextFreeNode(reallocOk: bool) returns (r: int)
      requires Valid()
      modifies this
      ensures Valid()
      ensures r == -1 <==> !reallocOk && old(nodesSzMax) <= old(|nodes|) + 1
      ensures r == -1 ==> nodes == old(nodes) && nodesSzMax == old(nodesSzMax)
      ensures r != -1 ==>
        && r == old(|nodes|) && nodes == old(nodes) + [ZERO_NODE]
        && nodesSzMax == GrownMax(old(nodesSzMax), old(|nodes|))
    {
      if nodesSzMax <= |nodes| + 1 {
        if !reallocOk {
          return -1;
        }
        nodesSzMax := nodesSzMax * 2;
      }
      r := |nodes|;
      nodes := nodes + [ZERO_NODE];
    }

    /**
     * The walk of retrohtr_add_node_child along next_sibling from the
     * parent's first child to its last child.
     */
    method LastChild(first: nat) returns (last: nat)
      requires Linked() && first < |nodes|
      ensures last == LastSibling(NodeLinks(nodes), first)
    {
      ghost var ls := NodeLinks(nodes);
      last := first;
      while nodes[last].link.nextSibling >= 0
        invariant first <= last < |nodes| && LastSibling(ls, last) == LastSibling(ls, first)
        decreases |nodes| - last
      {
        last := nodes[last].link.nextSibling;
      }
    }

    /**
     * retrohtr_add_node_child: a new node from GetNextFreeNode, or -1 when
     * there is none. The new node keeps its zeroed position and tag, has
     * `parent` as its parent (a negative one making it a root) and no
     * children or siblings, and is linked in as the parent's last child.
     */
    method AddNodeChild(parent: int, reallocOk: bool) returns (r: int)
      requires Valid() && Linked() && parent < |nodes|
      modifies this
      ensures Valid() && Linked()
      ensures r < 0 ==> r == -1 && nodes == old(nodes) && nodesSzMax == old(nodesSzMax)
      ensures 0 <= r ==>
        && r == old(|nodes|) && |nodes| == r + 1
        && NodeLinks(nodes) == AddChild(NodeLinks(old(nodes)), parent)
        && nodes[r] == NewNode(parent)
        && KeepsAllButLinks(old(nodes), nodes)
    {
      ghost var before := nodes;
      r := GetNextFreeNode(reallocOk);
      if r < 0 {
        return;
      }
      nodes := nodes[r := nodes[r].(link := Link(parent, -1, -1))];
      assert nodes == before + [NewNode(parent)];
      if parent < 0 {
        LinkedRoot(before, parent);
        return;
      }
      if nodes[parent].link.firstChild < 0 {
        LinkedFirstChild(before, parent);
        nodes := nodes[parent := nodes[parent].(link := nodes[parent].link.(firstChild := r))];
      } else {
        LinkedFirstChild(before, parent);
        var last := LastChild(nodes[parent].link.firstChild);
        LinkedLaterChild(before, parent, last);
        nodes := nodes[last := nodes[last].(link := nodes[last].link.(nextSibling := r))];
      }
    }

    /**
     * retrohtr_find_prev_sibling_in_box_model, with MCSS_POSITION_ABSOLUTE
     * as `absolute`: the node's previous sibling in the box model.
     */
    method FindPrevSibling(nodeIdx: nat, absolute: nat) returns (r: int)
      requires Linked() && nodeIdx < |nodes|
      ensures r == PrevSibling(nodes, nodeIdx, absolute)
    {
      ghost var ls := NodeLinks(nodes);
      var p := nodes[nodeIdx].link.parent;
      if p < 0 {
        return -1;
      }
      assert LinkForward(ls[nodeIdx], nodeIdx, |ls|);
      var first := nodes[p].link.firstChild;
      if first == nodeIdx {
        assert Prefix(Children(ls, p), nodeIdx) == [];
        return -1;
      }
      r := LastPlacedBefore(first, nodeIdx, absolute);
      assert Chain(ls, first) == Children(ls, p);
    }

    /**
     * The loop of retrohtr_find_prev_sibling_in_box_model: along the
     * sibling chain from `first` up to the node, the last sibling whose
     * position is not `absolute`.
     */
    method LastPlacedBefore(first: int, nodeIdx: nat, absolute: nat) returns (r: int)
      requires Linked() && first < |nodes|
      ensures r == LastPlaced(nodes, Prefix(Chain(NodeLinks(nodes), first), nodeIdx), absolute)
    {
      var ns := nodes;
      ghost var c := Chain(NodeLinks(ns), first);
      ghost var visited: seq<int> := [];
      var iter := first;
      r := -1;
      while 0 <= iter && nodeIdx != iter
        invariant Walking(ns, c, visited, iter, nodeIdx, r, absolute)
        decreases if 0 <= iter then |ns| - iter else 0
      {
        WalkStep(ns, c, visited, iter, nodeIdx, r, absolute);
        if ns[iter].pos != absolute {
          r := iter;
        }
        visited := visited + [iter];
        iter := ns[iter].link.nextSibling;
      }
      WalkDone(ns, c, visited, iter, nodeIdx, r, absolute);
    }
  }
}
