/**
 * The A* pathfinder of src/retropth.h. Nodes move from a fixed open list
 * of RETROTILE_PATH_LIST_MAX entries to the caller's closed list; the
 * cheapest open node (first of the lowest f) is expanded into its four
 * neighbours, each scored with g = parent's g + 1 and the Manhattan
 * distance h, all in uint8_t. The tile map and the blocking callback's
 * data are folded into the callback, which is a parameter; so is the
 * direction offset table, whose definition is not part of this model.
 */
module RetroPth {
  import opened Maug

  /** RETROTILE_PATH_LIST_MAX: the capacity of the open list. */
  const LIST_MAX: nat := 20

  /** RETROTILE_PATH_ERROR_FARTHER, RETROTILE_PATH_ERROR_CLOSED, RETROTILE_RETVAL_BLOCKED. */
  const ERROR_FARTHER: int := -2
  const ERROR_CLOSED: int := -3
  const RETVAL_BLOCKED: int := -1

  /** MERROR_OVERFLOW as the int8_t the pathfinder returns. */
  const RETVAL_OVERFLOW: int := 4

  /** RETROTILE_PATH_FLAGS_TGT_OCCUPIED. */
  const FLAGS_TGT_OCCUPIED: bv8 := 0x01

  /** struct RETROTILE_PATH_NODE: uint16_t coordinates, uint8_t costs, int8_t direction. */
  datatype Node = Node(x: nat, y: nat, f: nat, g: nat, h: nat, dir: int)

  const ZERO_NODE: Node := Node(0, 0, 0, 0, 0, 0)

  /** The zeroed node with the start coordinates that seeds the open list. */
  function StartNode(x: nat, y: nat): (n: Node)
    ensures n.x == x && n.y == y && n.f == 0 && n.g == 0 && n.h == 0 && n.dir == 0
  {
    ZERO_NODE.(x := x, y := y)
  }

  /** retrotile_path_cmp_eq: two nodes are on the same tile. */
  predicate SameTile(a: Node, b: Node) {
    a.x == b.x && a.y == b.y
  }

  /** Some node of `s` is on the tile of `n`. */
  predicate TileIn(n: Node, s: seq<Node>) {
    exists k :: 0 <= k < |s| && SameTile(n, s[k])
  }

  /** No two nodes of `s` are on the same tile. */
  predicate Distinct(s: seq<Node>) {
    forall i, j :: 0 <= i < j < |s| ==> !SameTile(s[i], s[j])
  }

  /** Both coordinates fit a uint16_t. */
  predicate In16(n: Node) {
    n.x < 0x10000 && n.y < 0x10000
  }

  /** An offset table: four steps of -1, 0 or 1 on each axis. */
  predicate Offsets(offX: seq<int>, offY: seq<int>) {
    && 4 <= |offX| && 4 <= |offY|
    && (forall i :: 0 <= i < 4 ==> -1 <= offX[i] <= 1)
    && (forall i :: 0 <= i < 4 ==> -1 <= offY[i] <= 1)
  }

  /** A coordinate plus an offset, stored in a uint16_t. */
  function Step(v: int): (r: int)
    ensures 0 <= v <= 0x10000 ==> 0 <= r < 0x10000
    ensures 0 <= v < 0x10000 ==> r == v
  {
    if v == 0x10000 then 0 else v
  }

  /** `n` is the neighbour of `p` in direction n.dir, one of the four. */
  predicate StepOf(n: Node, p: Node, offX: seq<int>, offY: seq<int>)
    requires Offsets(offX, offY)
  {
    0 <= n.dir < 4 && n.x == Step(p.x + offX[n.dir]) && n.y == Step(p.y + offY[n.dir])
  }

  /** The flags say the target tile is occupied. */
  predicate TargetOccupied(flags: bv8) {
    FLAGS_TGT_OCCUPIED == FLAGS_TGT_OCCUPIED & flags
  }

  /**
   * The first half of test_add_child's blocking condition as the source
   * writes it: the tile is exempt when it differs from the target on both
   * axes is negated with `&&`, so every tile in the target's row or column
   * is exempt when the target is occupied.
   */
  predicate ChecksBlockAsWritten(flags: bv8, adj: Node, tgtX: nat, tgtY: nat): (r: bool)
    ensures !r <==> TargetOccupied(flags) && (adj.x == tgtX || adj.y == tgtY)
    ensures r ==> ChecksBlock(flags, adj, tgtX, tgtY)
  {
    !TargetOccupied(flags) || (tgtX != adj.x && tgtY != adj.y)
  }

  /** The same condition as intended: only the target tile itself is exempt. */
  predicate ChecksBlock(flags: bv8, adj: Node, tgtX: nat, tgtY: nat): (r: bool)
    ensures !r <==> TargetOccupied(flags) && adj.x == tgtX && adj.y == tgtY
  {
    !TargetOccupied(flags) || tgtX != adj.x || tgtY != adj.y
  }

  /**
   * As written, an occupied target exempts its whole row and column from
   * the blocking check: the tile (5, 6) next to the target (5, 5) is
   * never checked, although it is not the target.
   */
  lemma AsWrittenSkipsNeighbour()
    ensures !ChecksBlockAsWritten(FLAGS_TGT_OCCUPIED, Node(5, 6, 0, 0, 0, 0), 5, 5)
    ensures ChecksBlock(FLAGS_TGT_OCCUPIED, Node(5, 6, 0, 0, 0, 0), 5, 5)
  {
  }

  /**
   * A move from `parent` in direction `dir` onto `adj` is refused: the
   * tile is not exempt and the callback (when there is one) reports it
   * blocked.
   */
  predicate Blocks(flags: bv8, adj: Node, tgtX: nat, tgtY: nat,
                   cb: Option<(nat, nat, nat) -> bool>, parent: Node, dir: nat)
  {
    ChecksBlock(flags, adj, tgtX, tgtY) && cb.Some? && cb.value(parent.x, parent.y, dir)
  }

  /** The neighbour with the costs test_add_child gives it. */
  function Scored(adj: Node, parent: Node, tgtX: nat, tgtY: nat): (r: Node)
  {
    var g := U8(parent.g + 1);
    var h := U8(Abs(adj.x - tgtX) + Abs(adj.y - tgtY));
    adj.(g := g, h := h, f := U8(g + h))
  }

  /**
   * Scoring keeps the tile and direction and sets only the costs; g is
   * one more than the parent's, h the Manhattan distance to the target and
   * f their sum, each while it fits a uint8_t, and all three stay below 256.
   */
  lemma ScoredCosts(adj: Node, parent: Node, tgtX: nat, tgtY: nat)
    ensures var r := Scored(adj, parent, tgtX, tgtY);
      && r.(f := adj.f, g := adj.g, h := adj.h) == adj && SameTile(r, adj)
      && r.f < 0x100 && r.g < 0x100 && r.h < 0x100
      && (parent.g < 0xff ==> r.g == parent.g + 1)
      && (Abs(adj.x - tgtX) + Abs(adj.y - tgtY) < 0x100 ==> r.h == Abs(adj.x - tgtX) + Abs(adj.y - tgtY))
      && (r.g + r.h < 0x100 ==> r.f == r.g + r.h)
  {
  }

  /** The value test_add_child returns for these lists. */
  function AddChildResult(adj: Node, dir: nat, parent: Node, tgtX: nat, tgtY: nat,
                          openS: seq<Node>, closedS: seq<Node>, flags: bv8,
                          cb: Option<(nat, nat, nat) -> bool>): (r: int)
    ensures r in {0, ERROR_FARTHER, ERROR_CLOSED, RETVAL_BLOCKED, RETVAL_OVERFLOW}
  {
    if TileIn(adj, closedS) then ERROR_CLOSED
    else if Blocks(flags, adj, tgtX, tgtY, cb, parent, dir) then RETVAL_BLOCKED
    else if TileIn(Scored(adj, parent, tgtX, tgtY), openS) then ERROR_FARTHER
    else if |openS| + 1 >= LIST_MAX then RETVAL_OVERFLOW
    else 0
  }

  /**
   * A child is added only on a tile neither list holds yet, so adding it
   * keeps the open list free of repeated tiles and apart from the closed
   * list; a closed tile is never reopened.
   */
  lemma AddChildKeepsListsApart(adj: Node, dir: nat, parent: Node, tgtX: nat, tgtY: nat,
                                openS: seq<Node>, closedS: seq<Node>, flags: bv8,
                                cb: Option<(nat, nat, nat) -> bool>)
    requires Distinct(openS)
    ensures var child := Scored(adj, parent, tgtX, tgtY);
      AddChildResult(adj, dir, parent, tgtX, tgtY, openS, closedS, flags, cb) == 0 ==>
        Distinct(openS + [child]) && !TileIn(child, closedS) && |openS| + 1 < LIST_MAX
    ensures TileIn(adj, closedS) ==>
      AddChildResult(adj, dir, parent, tgtX, tgtY, openS, closedS, flags, cb) == ERROR_CLOSED
  {
    var child := Scored(adj, parent, tgtX, tgtY);
    if AddChildResult(adj, dir, parent, tgtX, tgtY, openS, closedS, flags, cb) == 0 {
      var s := openS + [child];
      forall i, j | 0 <= i < j < |s|
        ensures !SameTile(s[i], s[j])
      {
        if j == |openS| {
          assert SameTile(s[i], s[j]) ==> SameTile(child, openS[i]);
        }
      }
      assert TileIn(child, closedS) ==> TileIn(adj, closedS);
    }
  }

  /**
   * retrotile_path_list_append: MERROR_OVERFLOW, leaving the list alone,
   * when the list would reach RETROTILE_PATH_LIST_MAX entries; otherwise
   * the node goes at index `sz` and the size grows by one.
   */
  method ListAppend(list: array<Node>, sz: nat, node: Node) returns (e: Error, sz': nat)
    requires LIST_MAX <= list.Length
    modifies list
    ensures e == OK <==> sz + 1 < LIST_MAX
    ensures e != OK ==> e == Overflow && sz' == sz && list[..] == old(list[..])
    ensures e == OK ==> sz' == sz + 1 && list[..] == old(list[..])[sz := node]
  {
    if sz + 1 >= LIST_MAX {
      return Overflow, sz;
    }
    list[sz] := node;
    e, sz' := OK, sz + 1;
  }

  /**
   * retrotile_path_list_remove: the entries after `idx` move down one
   * place, keeping their order, and the size shrinks by one.
   */
  method ListRemove(list: array<Node>, sz: nat, idx: nat) returns (sz': nat)
    requires idx < sz <= list.Length
    modifies list
    ensures sz' == sz - 1
    ensures forall k :: 0 <= k < idx ==> list[k] == old(list[k])
    ensures forall k :: idx <= k < sz' ==> list[k] == old(list[k + 1])
    ensures forall k :: sz' <= k < list.Length ==> list[k] == old(list[k])
  {
    var j := idx;
    while j + 1 < sz
      invariant idx <= j < sz
      invariant forall k :: 0 <= k < idx ==> list[k] == old(list[k])
      invariant forall k :: idx <= k < j ==> list[k] == old(list[k + 1])
      invariant forall k :: j <= k < list.Length ==> list[k] == old(list[k])
    {
      list[j] := list[j + 1];
      j := j + 1;
    }
    sz' := sz - 1;
  }

  /** `idx` holds the lowest f of `s`, and no earlier entry is as cheap. */
  predicate IsLowestF(s: seq<Node>, idx: nat) {
    && idx < |s|
    && (forall j :: 0 <= j < |s| ==> s[idx].f <= s[j].f)
    && (forall j :: 0 <= j < idx ==> s[idx].f < s[j].f)
  }

  /**
   * retrotile_path_list_lowest_f: the index of the first node of least f,
   * or 0 for an empty list. The index is returned as an int8_t, so lists
   * of more than 128 nodes are outside the model.
   */
  method LowestF(list: array<Node>, sz: nat) returns (idx: nat)
    requires sz <= list.Length && sz <= 128
    ensures sz == 0 ==> idx == 0
    ensures 0 < sz ==> IsLowestF(list[..sz], idx)
  {
    idx := 0;
    var i := 0;
    while i < sz
      invariant i <= sz
      invariant idx == 0 || idx < i
      invariant 0 < i ==> forall j :: 0 <= j < i ==> list[idx].f <= list[j].f
      invariant forall j :: 0 <= j < idx ==> list[idx].f < list[j].f
    {
      if list[idx].f > list[i].f {
        idx := i;
      }
      i := i + 1;
    }
  }

  /**
   * retrotile_path_list_test_add_child: the neighbour `adj` of
   * closed[iterIdx] is refused when its tile is closed (ERROR_CLOSED) or
   * the move is blocked (RETVAL_BLOCKED); otherwise it is scored, and it is
   * refused when its tile is already open (ERROR_FARTHER) or the open list
   * is full (MERROR_OVERFLOW), and appended with result 0 otherwise. The
   * scan over the closed list counts in a nat, which is the intended
   * behaviour; the source's uint8_t counter wraps on lists of 256 nodes or
   * more (see ClosedScanAsWrittenWraps).
   */
  method TestAddChild(adj: Node, dir: nat, iterIdx: nat, tgtX: nat, tgtY: nat,
                      open: array<Node>, openSz: nat, closed: array<Node>, closedSz: nat,
                      flags: bv8, cb: Option<(nat, nat, nat) -> bool>)
    returns (r: int, adj': Node, openSz': nat)
    requires iterIdx < closedSz <= closed.Length
    requires openSz < LIST_MAX <= open.Length && open != closed
    modifies open
    ensures r == AddChildResult(adj, dir, closed[iterIdx], tgtX, tgtY, old(open[..openSz]),
                                closed[..closedSz], flags, cb)
    ensures r == ERROR_CLOSED || r == RETVAL_BLOCKED ==> adj' == adj
    ensures r != ERROR_CLOSED && r != RETVAL_BLOCKED ==> adj' == Scored(adj, closed[iterIdx], tgtX, tgtY)
    ensures r == 0 ==> openSz' == openSz + 1 && open[..] == old(open[..])[openSz := adj']
    ensures r != 0 ==> openSz' == openSz && open[..] == old(open[..])
  {
    var i := 0;
    while i < closedSz
      invariant i <= closedSz
      invariant forall k :: 0 <= k < i ==> !SameTile(adj, closed[k])
    {
      if SameTile(adj, closed[i]) {
        assert closed[..closedSz][i] == closed[i];
        return ERROR_CLOSED, adj, openSz;
      }
      i := i + 1;
    }
    assert !TileIn(adj, closed[..closedSz]);
    var parent := closed[iterIdx];
    if ChecksBlock(flags, adj, tgtX, tgtY) && cb.Some? && cb.value(parent.x, parent.y, dir) {
      return RETVAL_BLOCKED, adj, openSz;
    }
    adj' := Scored(adj, parent, tgtX, tgtY);
    i := 0;
    while i < openSz
      invariant i <= openSz
      invariant forall k :: 0 <= k < i ==> !SameTile(adj', open[k])
    {
      if SameTile(adj', open[i]) {
        assert open[..openSz][i] == open[i];
        return ERROR_FARTHER, adj', openSz;
      }
      i := i + 1;
    }
    assert !TileIn(adj', open[..openSz]);
    var e;
    e, openSz' := ListAppend(open, openSz, adj');
    if e != OK {
      return RETVAL_OVERFLOW, adj', openSz';
    }
    r := 0;
  }

  /**
   * The for loop of retrotile_path_start over the four directions from
   * closed[iterIdx]: a step off the low edge, or past 255, is skipped;
   * every other neighbour goes through test_add_child. The open list keeps
   * its entries and gains only neighbours of the expanded node.
   */
  method Expand(closed: array<Node>, iterIdx: nat, closedSz: nat,
                open: array<Node>, openSz: nat, adj: Node, tgtX: nat, tgtY: nat,
                flags: bv8, cb: Option<(nat, nat, nat) -> bool>, offX: seq<int>, offY: seq<int>)
    returns (openSz': nat, adj': Node)
    requires iterIdx < closedSz <= closed.Length
    requires openSz < LIST_MAX <= open.Length && open != closed
    requires In16(closed[iterIdx]) && Offsets(offX, offY)
    modifies open
    ensures openSz <= openSz' < LIST_MAX
    ensures forall k :: 0 <= k < openSz ==> open[k] == old(open[k])
    ensures forall k :: openSz <= k < openSz' ==>
      StepOf(open[k], closed[iterIdx], offX, offY) && In16(open[k])
  {
    var p := closed[iterIdx];
    openSz', adj' := openSz, adj;
    var i := 0;
    while i < 4
      invariant i <= 4 && openSz <= openSz' < LIST_MAX
      invariant forall k :: 0 <= k < openSz ==> open[k] == old(open[k])
      invariant forall k :: openSz <= k < openSz' ==> StepOf(open[k], p, offX, offY) && In16(open[k])
    {
      if (p.x == 0 && offX[i] == -1) || (p.y == 0 && offY[i] == -1)
        || (p.x == 255 && offX[i] == 1) || (p.y == 255 && offY[i] == 1)
      {
        i := i + 1;
        continue;
      }
      adj' := adj'.(x := Step(p.x + offX[i]), y := Step(p.y + offY[i]), dir := i);
      assert StepOf(adj', p, offX, offY) && In16(adj');
      var r;
      r, adj', openSz' := TestAddChild(adj', i, iterIdx, tgtX, tgtY, open, openSz', closed, closedSz, flags, cb);
      i := i + 1;
    }
  }

  /** The node is on the target tile. */
  predicate AtTarget(n: Node, tgtX: nat, tgtY: nat) {
    n.x == tgtX && n.y == tgtY
  }

  /**
   * What the search loop of retrotile_path_start keeps, over the closed
   * list `cs` and the open list `os`: the closed list holds the nodes
   * expanded since index c0 (the start node first, then a neighbour of it)
   * and zeroes after them; every node in either list has a direction among
   * the four and uint16_t coordinates; before the first expansion the open
   * list holds only the start node, and just after it only neighbours of
   * the start.
   */
  ghost predicate Searching(cs: seq<Node>, c0: nat, closedSz: nat, closedSzMax: nat,
                            os: seq<Node>, openSz: nat, start: Node,
                            offX: seq<int>, offY: seq<int>)
    requires Offsets(offX, offY)
  {
    && c0 <= closedSz < closedSzMax <= |cs| && openSz < LIST_MAX <= |os|
    && (forall k :: closedSz <= k < closedSzMax ==> cs[k] == ZERO_NODE)
    && (forall k :: 0 <= k < closedSz ==> 0 <= cs[k].dir < 4 && In16(cs[k]))
    && (forall k :: 0 <= k < openSz ==> 0 <= os[k].dir < 4 && In16(os[k]))
    && (closedSz == c0 ==> openSz == 1 && os[0] == start)
    && (c0 < closedSz ==> cs[c0] == start)
    && (closedSz == c0 + 1 ==> forall k :: 0 <= k < openSz ==> StepOf(os[k], start, offX, offY))
    && (c0 + 2 <= closedSz ==> StepOf(cs[c0 + 1], start, offX, offY))
  }

  /** No node closed since index c0 is on the target. */
  ghost predicate NoneAtTarget(cs: seq<Node>, c0: nat, closedSz: nat, tgtX: nat, tgtY: nat)
    requires closedSz <= |cs|
  {
    forall k :: c0 <= k < closedSz ==> !AtTarget(cs[k], tgtX, tgtY)
  }

  /**
   * As written, the closed-list scan of retrotile_path_list_test_add_child
   * counts in a uint8_t `i`, which after `steps` increments holds
   * U8(steps). On a closed list of 256 nodes or more the test
   * `closed_sz > i` holds at every step, the counter returns to 0 after
   * 255 and repeats, so closed[256..] is never compared and only a match
   * among closed[0..255] leaves the loop.
   */
  lemma ClosedScanAsWrittenWraps(closedSz: nat)
    requires 0x100 <= closedSz
    ensures forall steps: nat :: U8(steps) < closedSz
    ensures U8(0xff + 1) == 0
    ensures forall steps: nat :: U8(steps + 0x100) == U8(steps)
  {
  }

  /**
   * As written, `iter_idx = *p_closed_sz` stores the index in a uint8_t,
   * so the node closed at index 256 is not the one expanded: iter_idx is
   * 0, and the start node's neighbours are tested again. SearchPass
   * expands closed[closedSz] itself.
   */
  lemma IterIdxAsWrittenTruncates()
    ensures U8(0x100) == 0
    ensures U8(0x100) != 0x100
  {
  }

  /** The outcome of one pass of retrotile_path_start's loop. */
  datatype Pass = Continue | Full | Reached

  /**
   * One pass of retrotile_path_start's loop: the cheapest open node is
   * closed at index closedSz, and no other closed entry changes; the closed
   * list is then full, or that node is on the target, or its neighbours
   * are checked and the search goes on with the loop's invariant kept.
   */
  method SearchPass(closed: array<Node>, c0: nat, closedSz: nat, closedSzMax: nat,
                    open: array<Node>, openSz: nat, start: Node, adj: Node,
                    tgtX: nat, tgtY: nat, flags: bv8, cb: Option<(nat, nat, nat) -> bool>,
                    offX: seq<int>, offY: seq<int>)
    returns (pass: Pass, closedSz': nat, openSz': nat, adj': Node)
    requires Offsets(offX, offY) && open != closed && 0 < openSz
    requires Searching(closed[..], c0, closedSz, closedSzMax, open[..], openSz, start, offX, offY)
    requires NoneAtTarget(closed[..], c0, closedSz, tgtX, tgtY)
    modifies closed, open
    ensures closedSz' == closedSz + 1
    ensures closed[..] == old(closed[..])[closedSz := closed[closedSz]]
    ensures 0 <= closed[closedSz].dir < 4 && In16(closed[closedSz])
    ensures closedSz == c0 ==> closed[closedSz] == start
    ensures closedSz == c0 + 1 ==> StepOf(closed[closedSz], start, offX, offY)
    ensures pass == Full <==> closedSz' == closedSzMax
    ensures pass == Reached <==> closedSz' < closedSzMax && AtTarget(closed[closedSz], tgtX, tgtY)
    ensures pass == Continue ==>
      && Searching(closed[..], c0, closedSz', closedSzMax, open[..], openSz', start, offX, offY)
      && NoneAtTarget(closed[..], c0, closedSz', tgtX, tgtY)
  {
    var lo := LowestF(open, openSz);
    var n := open[lo];
    assert 0 <= n.dir < 4 && In16(n);
    assert closedSz == c0 ==> n == start;
    assert closedSz == c0 + 1 ==> StepOf(n, start, offX, offY);
    closed[closedSz] := n;
    openSz' := ListRemove(open, openSz, lo);
    assert forall k :: 0 <= k < openSz' ==> 0 <= open[k].dir < 4 && In16(open[k]);
    closedSz' := closedSz + 1;
    adj' := adj;
    if closedSz' >= closedSzMax {
      return Full, closedSz', openSz', adj';
    }
    if AtTarget(closed[closedSz], tgtX, tgtY) {
      return Reached, closedSz', openSz', adj';
    }
    ghost var cs := closed[..];
    openSz', adj' := Expand(closed, closedSz, closedSz', open, openSz', adj, tgtX, tgtY, flags, cb, offX, offY);
    assert closed[..] == cs;
    assert closedSz == c0 ==> forall k :: 0 <= k < openSz' ==> StepOf(open[k], start, offX, offY);
    assert forall k :: 0 <= k < openSz' ==> 0 <= open[k].dir < 4 && In16(open[k]);
    pass := Continue;
  }

  /**
   * retrotile_path_start: the closed list is zeroed and the start node
   * opened; the cheapest open node is closed at index closedSz, which then
   * grows. MERROR_OVERFLOW when the closed list fills; the direction of
   * closed[1] once a node on the target is closed; RETVAL_BLOCKED when the
   * open list runs out first. The closed list starts filling at the
   * caller's size, which the source does not reset; starting from 0,
   * closed[1] is the neighbour of the start closed second, so the result
   * is the direction of that first step (or 0 when the start is the target).
   * The index of the node to expand is a nat, which is the intended
   * behaviour; the source's uint8_t iter_idx truncates it on lists of more
   * than 256 nodes (see IterIdxAsWrittenTruncates).
   */
  method PathStart(startX: nat, startY: nat, tgtX: nat, tgtY: nat,
                   closed: array<Node>, closedSz0: nat, closedSzMax: nat, flags: bv8,
                   cb: Option<(nat, nat, nat) -> bool>, offX: seq<int>, offY: seq<int>)
    returns (r: int, closedSz: nat)
    requires startX < 0x10000 && startY < 0x10000
    requires 2 <= closedSzMax <= closed.Length && closedSz0 < closedSzMax
    requires Offsets(offX, offY)
    modifies closed
    ensures r == RETVAL_BLOCKED || r == RETVAL_OVERFLOW || 0 <= r < 4
    ensures closedSz0 < closedSz <= closedSzMax
    ensures closed[closedSz0] == StartNode(startX, startY)
    ensures r == RETVAL_OVERFLOW <==> closedSz == closedSzMax
    ensures 0 <= r < 4 ==> r == closed[1].dir && AtTarget(closed[closedSz - 1], tgtX, tgtY)
    ensures r == RETVAL_BLOCKED ==>
      forall k :: closedSz0 <= k < closedSz ==> !AtTarget(closed[k], tgtX, tgtY)
    ensures closedSz0 == 0 && 0 <= r < 4 && 2 <= closedSz ==> StepOf(closed[1], closed[0], offX, offY)
    ensures closedSz0 == 0 && startX == tgtX && startY == tgtY ==> r == 0 && closedSz == 1
  {
    var open := new Node[LIST_MAX](_ => ZERO_NODE);
    forall k | 0 <= k < closedSzMax {
      closed[k] := ZERO_NODE;
    }
    var start := StartNode(startX, startY);
    var adj := start;
    var e, openSz := ListAppend(open, 0, adj);
    closedSz := closedSz0;
    var reached := false;
    while 0 < openSz
      invariant Searching(closed[..], closedSz0, closedSz, closedSzMax, open[..], openSz, start, offX, offY)
      invariant NoneAtTarget(closed[..], closedSz0, closedSz, tgtX, tgtY)
      decreases closedSzMax - closedSz
    {
      var pass;
      pass, closedSz, openSz, adj := SearchPass(closed, closedSz0, closedSz, closedSzMax, open, openSz,
                                               start, adj, tgtX, tgtY, flags, cb, offX, offY);
      if pass == Full {
        assert closed[closedSz0] == start;
        return RETVAL_OVERFLOW, closedSz;
      }
      if pass == Reached {
        assert closed[closedSz0] == start;
        assert AtTarget(closed[closedSz - 1], tgtX, tgtY);
        assert closedSz < closedSzMax ==> closed[1] == ZERO_NODE || 0 <= closed[1].dir < 4;
        reached := true;
        break;
      }
    }
    if reached {
      r := closed[1].dir;
    } else {
      r := RETVAL_BLOCKED;
    }
  }
}
