/**
 * The MLISP parser of src/mlispp.h: a character-level state machine that
 * builds the abstract syntax tree in one growing table. Each node records
 * its parent and up to MLISP_AST_IDX_CHILDREN_MAX child slots, -1 for a
 * free one; the parser keeps a cursor (ast_node_iter) on the node being
 * filled in. An open parenthesis adds an empty child and moves the cursor
 * onto it, the first symbol after it becomes that node's operator, each
 * later symbol becomes a leaf child, and a close parenthesis moves the
 * cursor back up. The string pool that holds the tokens is not part of
 * this model: a node holds its token's text.
 */
module MLispP {
  import opened Maug
  import opened MParser

  /** MLISP_AST_FLAG_*: special forms recognised from a node's operator. */
  const AST_FLAG_LAMBDA: bv8 := 0x02
  const AST_FLAG_IF: bv8 := 0x04
  const AST_FLAG_DEFINE: bv8 := 0x08
  const AST_FLAG_BEGIN: bv8 := 0x20

  /** MLISP_AST_IDX_CHILDREN_MAX: the child slots of a node. */
  const AST_IDX_CHILDREN_MAX: nat := 10

  /** MLISP_PARSER_PSTATE_TABLE. */
  const PSTATE_NONE: nat := 0
  const PSTATE_SYMBOL_OP: nat := 1
  const PSTATE_SYMBOL: nat := 2
  const PSTATE_STRING: nat := 3
  const PSTATE_LAMBDA_ARGS: nat := 4
  const PSTATE_COMMENT: nat := 5

  /**
   * struct MLISP_AST_NODE: flags, token (None for token_idx -1), parent
   * index (-1 for none), the child slots and how many are filled.
   */
  datatype AstNode = AstNode(flags: bv8, token: Option<string>, parent: int, children: seq<int>, childrenSz: nat)

  /** The node _mlisp_ast_add_child appends: no token, every child slot free. */
  function NewNode(parent: int, flags: bv8): (n: AstNode)
    ensures |n.children| == AST_IDX_CHILDREN_MAX
    ensures forall s :: 0 <= s < |n.children| ==> n.children[s] == -1
  {
    AstNode(flags, None, parent, seq(AST_IDX_CHILDREN_MAX, _ => -1), 0)
  }

  /*
   * The child slot search of _mlisp_ast_add_child.
   */

  /**
   * The slot the source's search for a free slot stops at, counting from
   * `k`, as far as the slots go: the size of the slot array means the
   * search has run past the last slot into the memory after it.
   */
  function SlotSearchAsWritten(ch: seq<int>, k: nat): (r: nat)
    requires k <= |ch|
    ensures k <= r <= |ch|
    decreases |ch| - k
  {
    if k == |ch| then k
    else if ch[k] != -1 then SlotSearchAsWritten(ch, k + 1)
    else k
  }

  /** The first free slot from `k` on, or None when every slot is taken. */
  function FreeSlotFrom(ch: seq<int>, k: nat): (r: Option<nat>)
    requires k <= |ch|
    ensures r.Some? ==> k <= r.value < |ch| && ch[r.value] == -1
    ensures r.Some? ==> forall j :: k <= j < r.value ==> ch[j] != -1
    ensures r.None? ==> forall j :: k <= j < |ch| ==> ch[j] != -1
    decreases |ch| - k
  {
    if k == |ch| then None
    else if ch[k] == -1 then Some(k)
    else FreeSlotFrom(ch, k + 1)
  }

  /** With every slot from `k` on taken, the source's search runs off the end of the slots. */
  lemma {:induction false} SearchRunsOff(ch: seq<int>, k: nat)
    requires k <= |ch| && forall j :: k <= j < |ch| ==> ch[j] != -1
    ensures SlotSearchAsWritten(ch, k) == |ch|
    decreases |ch| - k
  {
    if k < |ch| {
      SearchRunsOff(ch, k + 1);
    }
  }

  /**
   * A parent whose ten child slots are all taken: the source's search
   * reaches slot 10, past ast_idx_children, and writes the new child's
   * index there; the corrected search reports that there is no slot.
   */
  lemma FullParentOverruns(ch: seq<int>)
    requires |ch| == AST_IDX_CHILDREN_MAX && forall j :: 0 <= j < |ch| ==> ch[j] != -1
    ensures SlotSearchAsWritten(ch, 0) == AST_IDX_CHILDREN_MAX
    ensures FreeSlotFrom(ch, 0) == None
  {
    SearchRunsOff(ch, 0);
  }

  /*
   * The table of nodes.
   */

  /** Every node's parent comes before it, or is -1. */
  predicate ParentsBack(ast: seq<AstNode>) {
    forall k :: 0 <= k < |ast| ==> -1 <= ast[k].parent < k
  }

  /** Node `k`'s first childrenSz slots name later nodes of the table and the rest are free. */
  predicate SlotsOk(n: AstNode, k: int, len: int) {
    && |n.children| == AST_IDX_CHILDREN_MAX && n.childrenSz <= AST_IDX_CHILDREN_MAX
    && forall s :: 0 <= s < |n.children| ==>
         (s < n.childrenSz ==> k < n.children[s] < len) && (n.childrenSz <= s ==> n.children[s] == -1)
  }

  /** A well-formed table: parents point back and child slots are filled in order. */
  predicate Tree(ast: seq<AstNode>) {
    && ParentsBack(ast)
    && forall k :: 0 <= k < |ast| ==> SlotsOk(ast[k], k, |ast|)
  }

  /** The number of nodes from node `k` up to the root, 0 for -1. */
  function Depth(ast: seq<AstNode>, k: int): nat
    requires ParentsBack(ast) && -1 <= k < |ast|
    decreases k + 1
  {
    if k < 0 then 0 else 1 + Depth(ast, ast[k].parent)
  }

  /** The children of a node, in the order they were added. */
  function Children(n: AstNode): seq<int>
    requires n.childrenSz <= |n.children|
  {
    n.children[..n.childrenSz]
  }

  /** In a well-formed node the first free slot is the one after its children. */
  lemma FreeSlotIsCount(n: AstNode, k: int, len: int)
    requires SlotsOk(n, k, len) && k >= -1
    ensures n.childrenSz < AST_IDX_CHILDREN_MAX ==> FreeSlotFrom(n.children, 0) == Some(n.childrenSz)
    ensures n.childrenSz == AST_IDX_CHILDREN_MAX ==> FreeSlotFrom(n.children, 0) == None
  {
    assert forall j :: 0 <= j < n.childrenSz ==> n.children[j] != -1;
    if n.childrenSz < AST_IDX_CHILDREN_MAX {
      assert n.children[n.childrenSz] == -1;
    }
  }

  /**
   * The table after _mlisp_ast_add_child under `p`: a new node appended
   * and, when `p` is a node, entered in p's first free slot. None when p
   * has no free slot left.
   */
  function AddChildAst(ast: seq<AstNode>, p: int, flags: bv8): (r: Option<seq<AstNode>>)
    requires -1 <= p < |ast|
    ensures r.Some? ==> |r.value| == |ast| + 1 && r.value[|ast|] == NewNode(p, flags)
  {
    var node := NewNode(p, flags);
    if p < 0 then Some(ast + [node])
    else match FreeSlotFrom(ast[p].children, 0)
      case None => None
      case Some(s) =>
        var pn := ast[p].(children := ast[p].children[s := |ast|], childrenSz := ast[p].childrenSz + 1);
        Some(ast[p := pn] + [node])
  }

  /** Adding a child keeps every parent link, and so every depth, of the earlier nodes. */
  lemma {:induction false} DepthKept(ast: seq<AstNode>, ast': seq<AstNode>, k: int)
    requires ParentsBack(ast) && ParentsBack(ast') && |ast| <= |ast'|
    requires forall j :: 0 <= j < |ast| ==> ast'[j].parent == ast[j].parent
    requires -1 <= k < |ast|
    ensures Depth(ast', k) == Depth(ast, k)
    decreases k + 1
  {
    if k >= 0 {
      DepthKept(ast, ast', ast[k].parent);
    }
  }

  /** Slots that are valid in a table stay valid when the table grows by one node. */
  lemma SlotsGrow(n: AstNode, k: int, len: int)
    requires SlotsOk(n, k, len)
    ensures SlotsOk(n, k, len + 1)
  {
  }

  /** A new node has no children yet, so its slots are valid wherever it sits. */
  lemma NewNodeSlots(p: int, flags: bv8, k: int)
    ensures SlotsOk(NewNode(p, flags), k, k + 1)
  {
  }

  /** Entering index `len` in the first free slot of node `k` keeps its slots valid and makes it the last child. */
  lemma SlotFilled(n: AstNode, k: int, len: int)
    requires SlotsOk(n, k, len) && k < len && n.childrenSz < AST_IDX_CHILDREN_MAX
    ensures var n' := n.(children := n.children[n.childrenSz := len], childrenSz := n.childrenSz + 1);
      SlotsOk(n', k, len + 1) && Children(n') == Children(n) + [len]
  {
    var n' := n.(children := n.children[n.childrenSz := len], childrenSz := n.childrenSz + 1);
    assert Children(n') == Children(n) + [len];
  }

  /**
   * Adding a child under `p` in a well-formed table fails exactly when p
   * already has ten children; otherwise the table stays well-formed, the
   * new node is one deeper than p, is p's last child, and no earlier
   * node's parent or depth changes.
   */
  lemma AddChildKeepsTree(ast: seq<AstNode>, p: int, flags: bv8)
    requires Tree(ast) && -1 <= p < |ast|
    ensures var r := AddChildAst(ast, p, flags);
      && (r.None? <==> 0 <= p && ast[p].childrenSz == AST_IDX_CHILDREN_MAX)
      && (r.Some? ==> Tree(r.value) && |r.value| == |ast| + 1)
      && (r.Some? ==> r.value[|ast|] == NewNode(p, flags))
      && (r.Some? ==> forall j :: 0 <= j < |ast| ==> r.value[j].parent == ast[j].parent)
      && (r.Some? ==> Depth(r.value, |ast|) == Depth(ast, p) + 1)
      && (r.Some? && 0 <= p ==> Children(r.value[p]) == Children(ast[p]) + [|ast|])
  {
    var r := AddChildAst(ast, p, flags);
    var node := NewNode(p, flags);
    if 0 <= p {
      FreeSlotIsCount(ast[p], p, |ast|);
    }
    if r.Some? {
      var t := r.value;
      assert t[|ast|] == node;
      assert ParentsBack(t) by {
        forall k | 0 <= k < |t|
          ensures -1 <= t[k].parent < k
        {
          if k < |ast| {
            assert t[k].parent == ast[k].parent;
          }
        }
      }
      forall k | 0 <= k < |t|
        ensures SlotsOk(t[k], k, |t|)
      {
        if k == |ast| {
          NewNodeSlots(p, flags, k);
        } else if k == p {
          SlotFilled(ast[k], k, |ast|);
        } else {
          assert t[k] == ast[k];
          SlotsGrow(ast[k], k, |ast|);
        }
      }
      DepthKept(ast, t, p);
      if 0 <= p {
        SlotFilled(ast[p], p, |ast|);
      }
    }
  }

  /** MLISP_AST_FLAG_* for a node whose operator is `tok`: only an exact keyword sets one. */
  function TokenFlag(tok: string): (f: bv8)
    ensures f == AST_FLAG_LAMBDA <==> tok == "lambda"
    ensures f == AST_FLAG_IF <==> tok == "if"
    ensures f == AST_FLAG_BEGIN <==> tok == "begin"
    ensures f == AST_FLAG_DEFINE <==> tok == "define"
    ensures f == 0 <==> tok !in ["lambda", "if", "begin", "define"]
  {
    if tok == "lambda" then AST_FLAG_LAMBDA
    else if tok == "if" then AST_FLAG_IF
    else if tok == "begin" then AST_FLAG_BEGIN
    else if tok == "define" then AST_FLAG_DEFINE
    else 0
  }

  /** The table after _mlisp_ast_set_child_token gives node `k` the token `tok`. */
  function SetTokenAst(ast: seq<AstNode>, k: nat, tok: string): (r: seq<AstNode>)
    requires k < |ast|
    ensures |r| == |ast| && r[k].parent == ast[k].parent && r[k].token == Some(tok)
  {
    ast[k := ast[k].(flags := ast[k].flags | TokenFlag(tok), token := Some(tok))]
  }

  /** Setting a token changes no parent or child slot. */
  lemma SetTokenKeepsTree(ast: seq<AstNode>, k: nat, tok: string)
    requires Tree(ast) && k < |ast|
    ensures var r := SetTokenAst(ast, k, tok);
      && Tree(r) && |r| == |ast|
      && forall j :: 0 <= j < |ast| ==> r[j].parent == ast[j].parent && r[j].children == ast[j].children
  {
    var r := SetTokenAst(ast, k, tok);
    forall j | 0 <= j < |r|
      ensures SlotsOk(r[j], j, |r|)
    {
      assert SlotsOk(ast[j], j, |ast|);
    }
  }

  /*
   * The parser's state and mlisp_parse_c.
   */

  /**
   * struct MLISP_PARSER as the parser uses it: the node table, the cursor,
   * the pstate stack, the token being gathered, the last character and
   * the character count.
   */
  datatype LState = LState(ast: seq<AstNode>, iter: int, pstate: seq<nat>, token: string, lastC: char, i: nat)

  /** mlisp_parser_init: an empty table, the cursor on no node, nothing gathered. */
  const INIT: LState := LState([], -1, [], [], 0 as char, 0)

  /** The states a parenthesis opens. */
  predicate IsParen(t: nat) {
    t == PSTATE_SYMBOL_OP || t == PSTATE_SYMBOL || t == PSTATE_LAMBDA_ARGS
  }

  /** Characters that end a symbol: whitespace and parentheses. */
  predicate Terminator(c: char) {
    c == '\r' || c == '\n' || c == '\t' || c == ' ' || c == ')' || c == '('
  }

  /** mlisp_parser_pstate_push asserts a free slot before a push. */
  predicate Room(st: LState, c: char) {
    var t := Top(st.pstate);
    ((c == '(' && (t == PSTATE_NONE || t == PSTATE_SYMBOL)) || (c == ';' && t != PSTATE_COMMENT))
      ==> |st.pstate| < PSTATE_SZ_MAX
  }

  /** The open parentheses on the stack: all of it but a comment on top. */
  function Parens(p: seq<nat>): nat {
    if 0 < |p| && p[|p| - 1] == PSTATE_COMMENT then |p| - 1 else |p|
  }

  /** A stack of parenthesis states with perhaps a comment on top. */
  predicate Shape(p: seq<nat>) {
    forall j :: 0 <= j < |p| ==> IsParen(p[j]) || (j == |p| - 1 && p[j] == PSTATE_COMMENT)
  }

  /**
   * The parser's invariant: a well-formed table, a cursor on a node or
   * -1 at the depth of the open parentheses, and a symbol being gathered
   * whenever the last character was part of one.
   */
  predicate Valid(st: LState) {
    && Tree(st.ast) && -1 <= st.iter < |st.ast|
    && Shape(st.pstate) && |st.pstate| <= PSTATE_SZ_MAX
    && Depth(st.ast, st.iter) == Parens(st.pstate)
    && (IsParen(Top(st.pstate)) && !Terminator(st.lastC) ==> 0 < |st.token|)
  }

  /** With a parenthesis open, the cursor is on a node. */
  lemma ParenTopHasNode(st: LState)
    requires Valid(st) && IsParen(Top(st.pstate))
    ensures 0 <= st.iter && 0 < |st.pstate|
  {
  }

  /** The initial state is valid. */
  lemma InitValid()
    ensures Valid(INIT)
  {
  }

  /** The flags and child count of the node under the cursor, or zeros when there is none. */
  function CurrentNode(st: LState): (r: (bv8, nat))
    ensures 0 <= st.iter < |st.ast| ==> r == (st.ast[st.iter].flags, st.ast[st.iter].childrenSz)
    ensures !(0 <= st.iter < |st.ast|) ==> r == (0, 0)
  {
    if 0 <= st.iter < |st.ast| then (st.ast[st.iter].flags, st.ast[st.iter].childrenSz) else (0, 0)
  }

  /**
   * _mlisp_ast_add_raw_token: the gathered token becomes a leaf child of
   * the node under the cursor, the token is reset, and the cursor comes
   * back from the leaf to its parent. MERROR_OVERFLOW and nothing changed
   * when the node has no free slot.
   */
  function RawToken(st: LState): (r: (LState, Error))
    requires -1 <= st.iter < |st.ast|
    ensures r.1 in {OK, Overflow}
    ensures r.1 == OK ==> r.0.iter == st.iter && |r.0.ast| == |st.ast| + 1 && r.0.pstate == st.pstate
  {
    match AddChildAst(st.ast, st.iter, 0)
    case None => (st, Overflow)
    case Some(ast1) =>
      var ast2 := SetTokenAst(ast1, |st.ast|, st.token);
      (st.(ast := ast2, token := [], iter := ast2[|st.ast|].parent), OK)
  }

  /** The gathered token with `c` appended (mlisp_parser_append_token). */
  function Appended(st: LState, c: char): LState {
    st.(token := st.token + [c])
  }

  /** The whitespace case of mlisp_parse_c, newlines outside a comment included. */
  function OnSpace(st: LState, c: char): (r: (LState, Error))
    requires Valid(st)
  {
    var t := Top(st.pstate);
    if t == PSTATE_SYMBOL_OP && !Terminator(st.lastC) then
      ParenTopHasNode(st);
      (st.(ast := SetTokenAst(st.ast, st.iter, st.token), token := [],
           pstate := st.pstate[..|st.pstate| - 1] + [PSTATE_SYMBOL]), OK)
    else if (t == PSTATE_SYMBOL || t == PSTATE_LAMBDA_ARGS) && !Terminator(st.lastC) then
      RawToken(st)
    else if t == PSTATE_STRING then (Appended(st, c), OK)
    else (st, OK)
  }

  /**
   * The '(' case: a new empty child under the cursor, entered with
   * LAMBDA_ARGS when the node under the cursor is a lambda with no
   * children yet and with SYMBOL_OP otherwise.
   */
  function OnOpen(st: LState): (r: (LState, Error))
    requires Valid(st)
  {
    var t := Top(st.pstate);
    var (nFlags, nChildren) := CurrentNode(st);
    if t == PSTATE_NONE || t == PSTATE_SYMBOL then
      var next := if nFlags & AST_FLAG_LAMBDA == AST_FLAG_LAMBDA && nChildren == 0
        then PSTATE_LAMBDA_ARGS else PSTATE_SYMBOL_OP;
      match AddChildAst(st.ast, st.iter, 0)
      case None => (st, Overflow)
      case Some(ast1) => (st.(pstate := st.pstate + [next], token := [], ast := ast1, iter := |st.ast|), OK)
    else if t == PSTATE_STRING then (Appended(st, '('), OK)
    else (st, Marge)
  }

  /**
   * The ')' case: a token still being gathered becomes a leaf, then the
   * parenthesis state is popped and the cursor moves to the parent.
   */
  function OnClose(st: LState): (r: (LState, Error))
    requires Valid(st)
  {
    var t := Top(st.pstate);
    if IsParen(t) then
      ParenTopHasNode(st);
      var (st1, e) := if 0 < |st.token| then RawToken(st) else (st, OK);
      if e != OK then (st1, e)
      else (st1.(pstate := st1.pstate[..|st1.pstate| - 1], iter := st1.ast[st1.iter].parent), OK)
    else if t == PSTATE_STRING then (Appended(st, ')'), OK)
    else (st, Marge)
  }

  /** The default case: characters are gathered, except inside a comment. */
  function OnOther(st: LState, c: char): LState {
    if Top(st.pstate) == PSTATE_COMMENT then st else Appended(st, c)
  }

  /**
   * mlisp_parse_c: one character's effect on the parser, and its result.
   * The last character is always recorded; the count advances unless the
   * parse stopped at a full child table. The cases fall through as in
   * the source: a newline outside a comment is whitespace, and a ';'
   * inside one is an ordinary character.
   */
  function Dispatch(st: LState, c: char): (r: (LState, Error))
    requires Valid(st)
  {
    var t := Top(st.pstate);
    if (c == '\r' || c == '\n') && t == PSTATE_COMMENT then (st.(pstate := st.pstate[..|st.pstate| - 1]), OK)
    else if c == '\r' || c == '\n' || c == '\t' || c == ' ' then OnSpace(st, c)
    else if c == '(' then OnOpen(st)
    else if c == ')' then OnClose(st)
    else if c == ';' && t != PSTATE_COMMENT then (st.(pstate := st.pstate + [PSTATE_COMMENT]), OK)
    else (OnOther(st, c), OK)
  }

  /** Dispatch, then the bookkeeping every call of mlisp_parse_c does. */
  function Step(st: LState, c: char): (r: (LState, Error))
    requires Valid(st)
  {
    var (st1, e) := Dispatch(st, c);
    (st1.(lastC := c, i := if e == Overflow then st.i else st.i + 1), e)
  }

  /*
   * What mlisp_parse_c keeps and does.
   */

  /**
   * _mlisp_ast_add_raw_token fails with MERROR_OVERFLOW exactly when the
   * node under the cursor has ten children. Otherwise it appends one leaf
   * holding the gathered token as the last child of that node, leaves
   * the cursor and every earlier node's parent and depth as they were,
   * and the table well-formed.
   */
  lemma RawTokenLeaf(st: LState)
    requires Tree(st.ast) && -1 <= st.iter < |st.ast|
    ensures var (st', e) := RawToken(st);
      && (e == Overflow <==> 0 <= st.iter && st.ast[st.iter].childrenSz == AST_IDX_CHILDREN_MAX)
      && (e == Overflow ==> st' == st)
      && (e == OK ==> Tree(st'.ast) && st'.token == [] && st'.iter == st.iter)
      && (e == OK ==> st'.ast[|st.ast|].token == Some(st.token) && st'.ast[|st.ast|].parent == st.iter)
      && (e == OK ==> st'.ast[|st.ast|].childrenSz == 0)
      && (e == OK && 0 <= st.iter ==> Children(st'.ast[st.iter]) == Children(st.ast[st.iter]) + [|st.ast|])
      && (e == OK ==> Depth(st'.ast, st.iter) == Depth(st.ast, st.iter))
      && (e == OK ==> st' == st.(ast := st'.ast, token := []))
  {
    AddChildKeepsTree(st.ast, st.iter, 0);
    var r := AddChildAst(st.ast, st.iter, 0);
    if r.Some? {
      var ast1 := r.value;
      SetTokenKeepsTree(ast1, |st.ast|, st.token);
      var ast2 := SetTokenAst(ast1, |st.ast|, st.token);
      DepthKept(st.ast, ast2, st.iter);
      if 0 <= st.iter {
        assert ast2[st.iter] == ast1[st.iter];
      }
    }
  }

  /** A newline ends a comment and keeps the parser valid. */
  lemma NewlineInCommentKeepsValid(st: LState, c: char)
    requires Valid(st) && (c == '\r' || c == '\n') && Top(st.pstate) == PSTATE_COMMENT
    ensures Valid(Step(st, c).0)
    ensures Step(st, c) == (st.(pstate := st.pstate[..|st.pstate| - 1], lastC := c, i := st.i + 1), OK)
  {
  }

  /** Whitespace keeps the parser valid. */
  lemma SpaceKeepsValid(st: LState, c: char)
    requires Valid(st) && Terminator(c) && c != '(' && c != ')'
    requires !((c == '\r' || c == '\n') && Top(st.pstate) == PSTATE_COMMENT)
    ensures Valid(Step(st, c).0)
  {
    var t := Top(st.pstate);
    if t == PSTATE_SYMBOL_OP && !Terminator(st.lastC) {
      ParenTopHasNode(st);
      SetTokenKeepsTree(st.ast, st.iter, st.token);
      DepthKept(st.ast, SetTokenAst(st.ast, st.iter, st.token), st.iter);
    } else if (t == PSTATE_SYMBOL || t == PSTATE_LAMBDA_ARGS) && !Terminator(st.lastC) {
      RawTokenLeaf(st);
    }
  }

  /** An open parenthesis keeps the parser valid, one level deeper unless it fails. */
  lemma OpenKeepsValid(st: LState)
    requires Valid(st) && Room(st, '(')
    ensures Valid(Step(st, '(').0)
  {
    var t := Top(st.pstate);
    if t == PSTATE_NONE || t == PSTATE_SYMBOL {
      AddChildKeepsTree(st.ast, st.iter, 0);
    }
  }

  /** A close parenthesis keeps the parser valid, one level up unless it fails. */
  lemma CloseKeepsValid(st: LState)
    requires Valid(st)
    ensures Valid(Step(st, ')').0)
  {
    var t := Top(st.pstate);
    if IsParen(t) {
      ParenTopHasNode(st);
      RawTokenLeaf(st);
    }
  }

  /** Every other character keeps the parser valid. */
  lemma OtherKeepsValid(st: LState, c: char)
    requires Valid(st) && Room(st, c) && !Terminator(c)
    ensures Valid(Step(st, c).0)
  {
  }

  /**
   * mlisp_parse_c keeps the parser's invariant, whatever the character
   * and whether or not it is accepted.
   */
  lemma StepKeepsValid(st: LState, c: char)
    requires Valid(st) && Room(st, c)
    ensures Valid(Step(st, c).0)
  {
    if (c == '\r' || c == '\n') && Top(st.pstate) == PSTATE_COMMENT {
      NewlineInCommentKeepsValid(st, c);
    } else if c == '(' {
      OpenKeepsValid(st);
    } else if c == ')' {
      CloseKeepsValid(st);
    } else if Terminator(c) {
      SpaceKeepsValid(st, c);
    } else {
      OtherKeepsValid(st, c);
    }
  }

  /**
   * An open parenthesis followed at once by a close parenthesis leaves
   * one new empty child under the cursor and the cursor, the pstate
   * stack and the gathered token (now empty) where they were.
   */
  lemma OpenThenClose(st: LState)
    requires Valid(st) && Room(st, '(')
    requires Top(st.pstate) == PSTATE_NONE || Top(st.pstate) == PSTATE_SYMBOL
    requires AddChildAst(st.ast, st.iter, 0).Some?
    ensures var (st1, e1) := Step(st, '(');
      && e1 == OK && Valid(st1)
      && var (st2, e2) := Step(st1, ')');
      && e2 == OK && st2.ast == AddChildAst(st.ast, st.iter, 0).value
      && st2.iter == st.iter && st2.pstate == st.pstate && st2.token == []
  {
    OpenKeepsValid(st);
    var st1 := Step(st, '(').0;
    assert st1.iter == |st.ast|;
    assert st1.ast[|st.ast|].parent == st.iter;
    assert st1.pstate[..|st1.pstate| - 1] == st.pstate;
  }

  /** A ';' outside a comment pushes the comment state and changes nothing else. */
  lemma SemicolonOpensComment(st: LState)
    requires Valid(st) && Top(st.pstate) != PSTATE_COMMENT && |st.pstate| < PSTATE_SZ_MAX
    ensures Step(st, ';') == (st.(pstate := st.pstate + [PSTATE_COMMENT], lastC := ';', i := st.i + 1), OK)
    ensures Valid(Step(st, ';').0)
  {
  }

  /**
   * A ';' outside a comment starts one and the next newline ends it,
   * leaving the tree, the cursor, the pstate stack and the token as they
   * were.
   */
  lemma CommentThenNewline(st: LState, nl: char)
    requires Valid(st) && Top(st.pstate) != PSTATE_COMMENT && |st.pstate| < PSTATE_SZ_MAX
    requires nl == '\r' || nl == '\n'
    ensures var (st1, e1) := Step(st, ';');
      && e1 == OK && Valid(st1) && Top(st1.pstate) == PSTATE_COMMENT
      && var (st2, e2) := Step(st1, nl);
      && e2 == OK && st2.ast == st.ast && st2.iter == st.iter && st2.pstate == st.pstate && st2.token == st.token
  {
    SemicolonOpensComment(st);
    var st1 := Step(st, ';').0;
    NewlineInCommentKeepsValid(st1, nl);
    assert st1.pstate[..|st1.pstate| - 1] == st.pstate;
  }

  /** Inside a comment every character but a newline or a parenthesis is skipped. */
  lemma CommentSkips(st: LState, c: char)
    requires Valid(st) && Top(st.pstate) == PSTATE_COMMENT
    requires c != '\r' && c != '\n' && c != '(' && c != ')'
    ensures Step(st, c) == (st.(lastC := c, i := st.i + 1), OK)
  {
  }

  /** Inside a comment a parenthesis is an invalid character: the parse fails with error 1. */
  lemma ParenInComment(st: LState, c: char)
    requires Valid(st) && Top(st.pstate) == PSTATE_COMMENT && (c == '(' || c == ')')
    ensures Step(st, c) == (st.(lastC := c, i := st.i + 1), Marge)
  {
  }

  /**
   * Whitespace after the first symbol of a list makes that symbol the
   * node's operator, sets the node's flag when it names a special form,
   * and switches from SYMBOL_OP to SYMBOL.
   */
  lemma OperatorNamed(st: LState, c: char)
    requires Valid(st) && Top(st.pstate) == PSTATE_SYMBOL_OP && !Terminator(st.lastC)
    requires c == '\r' || c == '\n' || c == '\t' || c == ' '
    ensures 0 <= st.iter
    ensures var (st', e) := Step(st, c);
      && e == OK && st'.iter == st.iter && st'.token == []
      && st'.ast[st.iter].token == Some(st.token)
      && st'.ast[st.iter].flags == st.ast[st.iter].flags | TokenFlag(st.token)
      && Top(st'.pstate) == PSTATE_SYMBOL && |st'.pstate| == |st.pstate|
  {
    ParenTopHasNode(st);
  }

  /**
   * An open parenthesis directly under a lambda with no children yet
   * opens its argument list; any other opens an operator position.
   */
  lemma LambdaArgsOpen(st: LState)
    requires Valid(st) && Room(st, '(')
    requires Top(st.pstate) == PSTATE_NONE || Top(st.pstate) == PSTATE_SYMBOL
    requires AddChildAst(st.ast, st.iter, 0).Some?
    ensures var (nFlags, nChildren) := CurrentNode(st);
      var lambdaArgs := nFlags & AST_FLAG_LAMBDA == AST_FLAG_LAMBDA && nChildren == 0;
      Step(st, '(').0.pstate == st.pstate + [if lambdaArgs then PSTATE_LAMBDA_ARGS else PSTATE_SYMBOL_OP]
  {
  }

  /**
   * An open parenthesis under a node that already has ten children stops
   * the parse with MERROR_OVERFLOW, recording only the character.
   */
  lemma FullNodeOverflows(st: LState)
    requires Valid(st) && Top(st.pstate) in {PSTATE_NONE, PSTATE_SYMBOL}
    requires 0 <= st.iter && st.ast[st.iter].childrenSz == AST_IDX_CHILDREN_MAX
    ensures Step(st, '(') == (st.(lastC := '('), Overflow)
  {
    AddChildKeepsTree(st.ast, st.iter, 0);
  }

  /** struct MLISP_PARSER: the node table, the cursor and the character-level parser state. */
  class Parser {
    var ast: seq<AstNode>
    var iter: int
    var pstate: seq<nat>
    var token: string
    var lastC: char
    var i: nat

    /** The parser's fields as one value. */
    function State(): (st: LState)
      reads this
      ensures st.ast == ast && st.iter == iter && st.pstate == pstate && st.token == token
    {
      LState(ast, iter, pstate, token, lastC, i)
    }

    /** mlisp_parser_init. */
    constructor Init()
      ensures State() == INIT && Valid(State())
    {
      ast, iter, pstate, token, lastC, i := [], -1, [], [], 0 as char, 0;
      InitValid();
    }

    /**
     * _mlisp_ast_add_child: a new node under the cursor, entered in the
     * first free child slot, becomes the cursor; MERROR_OVERFLOW and
     * nothing changed when there is no free slot.
     */
    method AddChild(flags: bv8) returns (e: Error)
      requires -1 <= iter < |ast|
      modifies this
      ensures var r := AddChildAst(old(ast), old(iter), flags);
        && (r.None? ==> e == Overflow && ast == old(ast) && iter == old(iter))
        && (r.Some? ==> e == OK && ast == r.value && iter == |old(ast)|)
      ensures pstate == old(pstate) && token == old(token) && lastC == old(lastC) && i == old(i)
    {
      var node := NewNode(iter, flags);
      if 0 <= iter {
        var ch := ast[iter].children;
        var k := 0;
        while k < |ch| && ch[k] != -1
          invariant k <= |ch| && FreeSlotFrom(ch, k) == FreeSlotFrom(ch, 0)
        {
          k := k + 1;
        }
        if k == |ch| {
          return Overflow;
        }
        var parent := ast[iter].(children := ch[k := |ast|], childrenSz := ast[iter].childrenSz + 1);
        ast := ast[iter := parent];
      }
      iter := |ast|;
      ast := ast + [node];
      e := OK;
    }

    /** _mlisp_ast_set_child_token: the node under the cursor takes `tok`, and its flag if it names a special form. */
    method SetChildToken(tok: string)
      requires 0 <= iter < |ast| && 0 < |tok|
      modifies this
      ensures ast == SetTokenAst(old(ast), old(iter) as nat, tok)
      ensures iter == old(iter) && pstate == old(pstate) && token == old(token) && lastC == old(lastC) && i == old(i)
    {
      var f: bv8 := 0;
      if tok == "lambda" {
        f := AST_FLAG_LAMBDA;
      } else if tok == "if" {
        f := AST_FLAG_IF;
      } else if tok == "begin" {
        f := AST_FLAG_BEGIN;
      } else if tok == "define" {
        f := AST_FLAG_DEFINE;
      }
      assert f == TokenFlag(tok);
      ast := ast[iter := ast[iter].(flags := ast[iter].flags | f, token := Some(tok))];
    }

    /** _mlisp_ast_traverse_parent: the cursor moves to its node's parent. */
    method TraverseParent()
      requires 0 <= iter < |ast|
      modifies this
      ensures iter == old(ast[iter].parent)
      ensures ast == old(ast) && pstate == old(pstate) && token == old(token) && lastC == old(lastC) && i == old(i)
    {
      iter := ast[iter].parent;
    }

    /** _mlisp_ast_add_raw_token. */
    method AddRawToken() returns (e: Error)
      requires -1 <= iter < |ast| && 0 < |token|
      modifies this
      ensures (State(), e) == RawToken(old(State()))
    {
      ghost var st := State();
      e := AddChild(0);
      if e != OK {
        return;
      }
      SetChildToken(token);
      token := [];
      TraverseParent();
      assert ast == SetTokenAst(AddChildAst(st.ast, st.iter, 0).value, |st.ast|, st.token);
    }

    /** mlisp_parser_pstate_push, after its assertion of a free slot. */
    method PushState(p: nat)
      modifies this
      ensures pstate == old(pstate) + [p]
      ensures ast == old(ast) && iter == old(iter) && token == old(token) && lastC == old(lastC) && i == old(i)
    {
      pstate := pstate + [p];
    }

    /** mlisp_parser_pstate_pop. */
    method PopState()
      requires 0 < |pstate|
      modifies this
      ensures pstate == old(pstate)[..|old(pstate)| - 1]
      ensures ast == old(ast) && iter == old(iter) && token == old(token) && lastC == old(lastC) && i == old(i)
    {
      pstate := pstate[..|pstate| - 1];
    }

    /** The whitespace case of mlisp_parse_c. */
    method ParseSpace(c: char) returns (e: Error)
      requires Valid(State())
      modifies this
      ensures (State(), e) == OnSpace(old(State()), c)
    {
      var t := Top(pstate);
      e := OK;
      if t == PSTATE_SYMBOL_OP && !Terminator(lastC) {
        ParenTopHasNode(State());
        var tok := token;
        token := [];
        SetChildToken(tok);
        PopState();
        PushState(PSTATE_SYMBOL);
      } else if (t == PSTATE_SYMBOL || t == PSTATE_LAMBDA_ARGS) && !Terminator(lastC) {
        e := AddRawToken();
      } else if t == PSTATE_STRING {
        // Nothing pushes PSTATE_STRING, so Shape rules this case out.
        assert false;
      }
    }

    /** The '(' case of mlisp_parse_c. */
    method ParseOpen() returns (e: Error)
      requires Valid(State())
      modifies this
      ensures (State(), e) == OnOpen(old(State()))
    {
      var t := Top(pstate);
      var nFlags: bv8, nChildren := 0, 0;
      if 0 <= iter < |ast| {
        nFlags, nChildren := ast[iter].flags, ast[iter].childrenSz;
      }
      if t == PSTATE_NONE || t == PSTATE_SYMBOL {
        ghost var st := State();
        var next := if nFlags & AST_FLAG_LAMBDA == AST_FLAG_LAMBDA && nChildren == 0
          then PSTATE_LAMBDA_ARGS else PSTATE_SYMBOL_OP;
        if 0 <= iter && FreeSlotFrom(ast[iter].children, 0).None? {
          return Overflow;
        }
        PushState(next);
        token := [];
        e := AddChild(0);
      } else if t == PSTATE_STRING {
        // Nothing pushes PSTATE_STRING, so Shape rules this case out.
        assert false;
        e := OK;
      } else {
        e := Marge;
      }
    }

    /** The ')' case of mlisp_parse_c. */
    method ParseClose() returns (e: Error)
      requires Valid(State())
      modifies this
      ensures (State(), e) == OnClose(old(State()))
    {
      var t := Top(pstate);
      if IsParen(t) {
        ParenTopHasNode(State());
        e := OK;
        if 0 < |token| {
          e := AddRawToken();
          if e != OK {
            return;
          }
        }
        PopState();
        TraverseParent();
      } else if t == PSTATE_STRING {
        // Nothing pushes PSTATE_STRING, so Shape rules this case out.
        assert false;
        e := OK;
      } else {
        e := Marge;
      }
    }

    /** The switch of mlisp_parse_c. */
    method DispatchC(c: char) returns (e: Error)
      requires Valid(State())
      modifies this
      ensures (State(), e) == Dispatch(old(State()), c)
    {
      var t := Top(pstate);
      if (c == '\r' || c == '\n') && t == PSTATE_COMMENT {
        PopState();
        e := OK;
      } else if c == '\r' || c == '\n' || c == '\t' || c == ' ' {
        e := ParseSpace(c);
      } else if c == '(' {
        e := ParseOpen();
      } else if c == ')' {
        e := ParseClose();
      } else if c == ';' && t != PSTATE_COMMENT {
        PushState(PSTATE_COMMENT);
        e := OK;
      } else {
        if t != PSTATE_COMMENT {
          token := token + [c];
        }
        e := OK;
      }
    }

    /** mlisp_parse_c: one character, and the invariant kept. */
    method ParseC(c: char) returns (e: Error)
      requires Valid(State()) && Room(State(), c)
      modifies this
      ensures (State(), e) == Step(old(State()), c)
      ensures Valid(State())
    {
      StepKeepsValid(State(), c);
      e := DispatchC(c);
      if e != Overflow {
        i := i + 1;
      }
      lastC := c;
    }
  }
}
