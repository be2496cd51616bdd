/**
 * The index-linked trees that src/mhtml.h keeps for parsed tags and
 * src/retrohtr.h for render nodes: each node records its parent, its
 * first child and its next sibling by index into one growing table, with
 * -1 (or any negative index) for none. A new node always takes the next
 * free index and is linked in as the last child of its parent, so every
 * link to a child or sibling points forward and every parent link back.
 */
module LinkTree {

  /** The parent, first_child and next_sibling fields of a node. */
  datatype Link = Link(parent: int, firstChild: int, nextSibling: int)

  /** A node's links point back to its parent and forward to its children and siblings. */
  predicate LinkForward(l: Link, i: int, n: int) {
    && l.parent < i
    && (l.firstChild == -1 || i < l.firstChild < n)
    && (l.nextSibling == -1 || i < l.nextSibling < n)
  }

  /** Every node of the table keeps its links forward. */
  predicate Forward(ls: seq<Link>) {
    forall i :: 0 <= i < |ls| ==> LinkForward(ls[i], i, |ls|)
  }

  /** The indices met following next_sibling from node `i` to the end of its chain. */
  function Chain(ls: seq<Link>, i: int): (r: seq<int>)
    requires Forward(ls)
    ensures forall k :: 0 <= k < |r| ==> 0 <= r[k] < |ls|
    decreases if 0 <= i then |ls| - i else 0
  {
    if i < 0 || |ls| <= i then []
    else [i] + Chain(ls, ls[i].nextSibling)
  }

  /** The last node of the sibling chain that starts at `i`. */
  function LastSibling(ls: seq<Link>, i: nat): (r: nat)
    requires Forward(ls) && i < |ls|
    ensures i <= r < |ls| && ls[r].nextSibling == -1
    decreases |ls| - i
  {
    if ls[i].nextSibling < 0 then i else LastSibling(ls, ls[i].nextSibling)
  }

  /** The children of node `p`, in order. */
  function Children(ls: seq<Link>, p: nat): (r: seq<int>)
    requires Forward(ls) && p < |ls|
  {
    Chain(ls, ls[p].firstChild)
  }

  /**
   * The table after a new node is appended under parent `p` (or as a
   * root when `p` is negative): the new node has no children or siblings,
   * and it becomes p's first child, or the next sibling of p's last child.
   */
  function AddChild(ls: seq<Link>, p: int): (r: seq<Link>)
    requires Forward(ls) && p < |ls|
  {
    var node := Link(p, -1, -1);
    if p < 0 then ls + [node]
    else if ls[p].firstChild < 0 then ls[p := ls[p].(firstChild := |ls|)] + [node]
    else
      var last := LastSibling(ls, ls[p].firstChild);
      ls[last := ls[last].(nextSibling := |ls|)] + [node]
  }

  /**
   * Linking the last node of a chain to a new node at the end of the
   * table lengthens that chain by the new index and nothing else.
   */
  lemma {:induction false} ChainExtended(ls: seq<Link>, i: nat, p: int)
    requires Forward(ls) && i < |ls| && p < |ls|
    ensures var last := LastSibling(ls, i);
      var ls' := ls[last := ls[last].(nextSibling := |ls|)] + [Link(p, -1, -1)];
      Forward(ls') && Chain(ls', i) == Chain(ls, i) + [|ls|]
    decreases |ls| - i
  {
    var last := LastSibling(ls, i);
    var ls' := ls[last := ls[last].(nextSibling := |ls|)] + [Link(p, -1, -1)];
    assert Forward(ls') by {
      forall k | 0 <= k < |ls'|
        ensures LinkForward(ls'[k], k, |ls'|)
      {
        if k < |ls| {
          assert LinkForward(ls[k], k, |ls|);
        }
      }
    }
    assert Chain(ls', |ls|) == [|ls|];
    if ls[i].nextSibling >= 0 {
      ChainExtended(ls, ls[i].nextSibling, p);
    }
  }

  /** A node appended with no children or siblings keeps the table's links forward. */
  lemma AppendedKeepsForward(ls: seq<Link>, p: int)
    requires Forward(ls) && p < |ls|
    ensures Forward(ls + [Link(p, -1, -1)])
  {
    var ls' := ls + [Link(p, -1, -1)];
    forall k | 0 <= k < |ls'|
      ensures LinkForward(ls'[k], k, |ls'|)
    {
      if k < |ls| {
        assert LinkForward(ls[k], k, |ls|);
      }
    }
  }

  /**
   * Appending a node that nothing links to leaves every sibling chain of
   * the earlier nodes ending where it did.
   */
  lemma {:induction false} LastSiblingAppended(ls: seq<Link>, p: int, i: nat)
    requires Forward(ls) && p < |ls| && i < |ls|
    ensures Forward(ls + [Link(p, -1, -1)])
    ensures LastSibling(ls + [Link(p, -1, -1)], i) == LastSibling(ls, i)
    decreases |ls| - i
  {
    AppendedKeepsForward(ls, p);
    assert (ls + [Link(p, -1, -1)])[i] == ls[i];
    if ls[i].nextSibling >= 0 {
      LastSiblingAppended(ls, p, ls[i].nextSibling);
    }
  }

  /**
   * Adding a child keeps the table's links forward, appends exactly one
   * node whose parent is `p` and which has no children or siblings, makes
   * it the last of p's children while keeping the earlier children in
   * order, and changes at most one other node: p itself or p's former last
   * child.
   */
  lemma AddChildAppends(ls: seq<Link>, p: int)
    requires Forward(ls) && p < |ls|
    ensures var r := AddChild(ls, p);
      && Forward(r) && |r| == |ls| + 1 && r[|ls|] == Link(p, -1, -1)
      && (0 <= p ==> Children(r, p) == Children(ls, p) + [|ls|])
      && (p < 0 ==> r[..|ls|] == ls)
      && (0 <= p ==> exists k :: 0 <= k < |ls| && r[..|ls|] == ls[k := r[k]])
  {
    var r := AddChild(ls, p);
    var node := Link(p, -1, -1);
    if p < 0 {
      assert Forward(r) by {
        forall k | 0 <= k < |r|
          ensures LinkForward(r[k], k, |r|)
        {
          if k < |ls| {
            assert LinkForward(ls[k], k, |ls|);
          }
        }
      }
    } else if ls[p].firstChild < 0 {
      assert Forward(r) by {
        forall k | 0 <= k < |r|
          ensures LinkForward(r[k], k, |r|)
        {
          if k < |ls| {
            assert LinkForward(ls[k], k, |ls|);
          }
        }
      }
      assert Chain(r, |ls|) == [|ls|];
      assert r[..|ls|] == ls[p := r[p]];
    } else {
      var last := LastSibling(ls, ls[p].firstChild);
      ChainExtended(ls, ls[p].firstChild, p);
      assert r[..|ls|] == ls[last := r[last]];
    }
  }
}
