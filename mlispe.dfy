/**
 * The MLISP interpreter's data stack and environment (src/mlispe.h):
 * values are pushed and popped on a stack of typed nodes, and names are
 * bound by appending typed nodes to an environment that is searched from
 * its newest end, so later bindings shadow earlier ones. Argument frames
 * are marked in the environment by ARGS_S and ARGS_E nodes, and the
 * nodes a `begin` leaves on the stack are bounded below by a BEGIN node.
 * The two vectors are sequences here; their storage, locking and the
 * string pool that holds names are not part of this model (a name is the
 * text it holds).
 */
module MLispE {
  import opened Maug

  /** The MLISP_TYPE_* tags of MLISP_TYPE_TABLE. */
  const TYPE_INT: nat := 1
  const TYPE_FLOAT: nat := 2
  const TYPE_BOOLEAN: nat := 3
  const TYPE_STR: nat := 4
  const TYPE_CB: nat := 5
  const TYPE_LAMBDA: nat := 6
  const TYPE_ARGS_S: nat := 7
  const TYPE_ARGS_E: nat := 8
  const TYPE_BEGIN: nat := 10

  /** MLISP_ENV_FLAG_*: the comparison and arithmetic a builtin performs. */
  const ENV_FLAG_BUILTIN: bv8 := 0x02
  const ENV_FLAG_CMP_GT: bv8 := 0x10
  const ENV_FLAG_CMP_LT: bv8 := 0x20
  const ENV_FLAG_CMP_EQ: bv8 := 0x40
  const ENV_FLAG_ARI_ADD: bv8 := 0x10
  const ENV_FLAG_ARI_MUL: bv8 := 0x20

  /**
   * union MLISP_VAL together with its type tag. An INT is an int16_t, a
   * BOOLEAN an mlisp_bool_t (uint8_t); a FLOAT is held as an exact real.
   * A callback is known by an opaque number.
   */
  datatype Val =
    | Int(i: int)
    | Float(f: real)
    | Bool(b: int)
    | Str(strpoolIdx: int)
    | Cb(cb: nat)
    | Lambda(lambda: int)
    | ArgsS(argsStart: int)
    | ArgsE(argsEnd: int)
    | Begin(begin: int)

  /** The MLISP_TYPE_* tag a value carries on the stack. */
  function TypeOf(v: Val): (t: nat)
    ensures 1 <= t <= 10 && t != 9
  {
    match v
    case Int(_) => TYPE_INT
    case Float(_) => TYPE_FLOAT
    case Bool(_) => TYPE_BOOLEAN
    case Str(_) => TYPE_STR
    case Cb(_) => TYPE_CB
    case Lambda(_) => TYPE_LAMBDA
    case ArgsS(_) => TYPE_ARGS_S
    case ArgsE(_) => TYPE_ARGS_E
    case Begin(_) => TYPE_BEGIN
  }

  /**
   * struct MLISP_ENV_NODE: the flags, the type byte, the name, and the
   * value stored as the caller handed it in.
   */
  datatype EnvNode = EnvNode(flags: bv8, etype: nat, name: string, value: Val)

  /** A C cast of a floating value to int: toward zero. */
  function TruncReal(r: real): (n: int)
    ensures 0.0 <= r ==> n as real <= r < n as real + 1.0
    ensures r < 0.0 ==> n as real - 1.0 < r <= n as real
  {
    if 0.0 <= r then r.Floor else -((-r).Floor)
  }

  /** The number a numeric value compares as, after the cast to int; None for the other types. */
  function NumAsInt(v: Val): (r: Option<int>)
    ensures r.Some? <==> TypeOf(v) in {TYPE_INT, TYPE_FLOAT, TYPE_BOOLEAN}
  {
    match v
    case Int(i) => Some(i)
    case Float(f) => Some(TruncReal(f))
    case Bool(b) => Some(b)
    case _ => None
  }

  /*
   * mlisp_stack_pop.
   */

  /**
   * Popping a stack: MERROR_OVERFLOW and nothing on an empty stack,
   * otherwise its top node and the rest.
   */
  function PopSpec(s: seq<Val>): (r: (Error, Option<Val>, seq<Val>))
    ensures |s| == 0 <==> r.0 == Overflow
    ensures r.0 == Overflow ==> r.1 == None && r.2 == s
    ensures r.0 != Overflow ==> r.0 == OK && r.1 == Some(s[|s| - 1]) && s == r.2 + [s[|s| - 1]]
  {
    if |s| == 0 then (Overflow, None, s)
    else (OK, Some(s[|s| - 1]), s[..|s| - 1])
  }

  /** Popping undoes a push. */
  lemma PopUndoesPush(s: seq<Val>, v: Val)
    ensures PopSpec(s + [v]) == (OK, Some(v), s)
  {
    assert (s + [v])[..|s|] == s;
  }

  /*
   * mlisp_env_get_strpool and _mlisp_env_get_env_frame.
   */

  /** The newest of the first `n` nodes of `env` named `token`. */
  function LatestNamed(env: seq<EnvNode>, token: string, n: nat): (r: Option<nat>)
    requires n <= |env|
    ensures r.Some? ==> r.value < n && env[r.value].name == token
    ensures r.Some? ==> forall j :: r.value < j < n ==> env[j].name != token
    ensures r.None? ==> forall j :: 0 <= j < n ==> env[j].name != token
  {
    if n == 0 then None
    else if env[n - 1].name == token then Some(n - 1)
    else LatestNamed(env, token, n - 1)
  }

  /** Appending a node leaves the search among the nodes before it as it was. */
  lemma {:induction false} LatestNamedPrefix(env: seq<EnvNode>, n: EnvNode, token: string, m: nat)
    requires m <= |env|
    ensures LatestNamed(env + [n], token, m) == LatestNamed(env, token, m)
  {
    if m > 0 {
      assert (env + [n])[m - 1] == env[m - 1];
      LatestNamedPrefix(env, n, token, m - 1);
    }
  }

  /**
   * A new binding shadows every older binding of its name, and leaves
   * the lookup of every other name as it was.
   */
  lemma BindingShadows(env: seq<EnvNode>, n: EnvNode, token: string)
    ensures LatestNamed(env + [n], n.name, |env| + 1) == Some(|env|)
    ensures token != n.name ==> LatestNamed(env + [n], token, |env| + 1) == LatestNamed(env, token, |env|)
  {
    assert (env + [n])[|env|] == n;
    LatestNamedPrefix(env, n, token, |env|);
  }

  /** The newest of the first `n` nodes of `env` that opens an argument frame. */
  function LatestFrame(env: seq<EnvNode>, n: nat): (r: Option<nat>)
    requires n <= |env|
    ensures r.Some? ==> r.value < n && env[r.value].etype == TYPE_ARGS_S
    ensures r.Some? ==> forall j :: r.value < j < n ==> env[j].etype != TYPE_ARGS_S
    ensures r.None? ==> forall j :: 0 <= j < n ==> env[j].etype != TYPE_ARGS_S
  {
    if n == 0 then None
    else if env[n - 1].etype == TYPE_ARGS_S then Some(n - 1)
    else LatestFrame(env, n - 1)
  }

  /** Where _mlisp_env_get_env_frame says the current frame starts: its ARGS_S node, or 0 when there is none. */
  function FrameStart(env: seq<EnvNode>): (i: nat)
    ensures |env| == 0 ==> i == 0
    ensures 0 < |env| ==> i < |env|
  {
    match LatestFrame(env, |env|)
    case Some(k) => k
    case None => 0
  }

  /** The first node from `i` on that closes an argument frame. */
  function FirstArgsEnd(env: seq<EnvNode>, i: nat): (r: Option<nat>)
    requires i <= |env|
    ensures r.Some? ==> i <= r.value < |env| && env[r.value].etype == TYPE_ARGS_E
    ensures r.Some? ==> forall j :: i <= j < r.value ==> env[j].etype != TYPE_ARGS_E
    ensures r.None? ==> forall j :: i <= j < |env| ==> env[j].etype != TYPE_ARGS_E
    decreases |env| - i
  {
    if i == |env| then None
    else if env[i].etype == TYPE_ARGS_E then Some(i)
    else FirstArgsEnd(env, i + 1)
  }

  /**
   * The environment after _mlisp_env_prune_args: the nodes from the
   * current frame's start through the first ARGS_E after it are gone.
   */
  function Pruned(env: seq<EnvNode>): (r: seq<EnvNode>)
    requires FirstArgsEnd(env, FrameStart(env)).Some?
    ensures |r| < |env|
  {
    var i := FrameStart(env);
    var k := FirstArgsEnd(env, i).value;
    env[..i] + env[k + 1..]
  }

  /** A node that binds a name to a value of no frame-marking type. */
  predicate PlainNode(n: EnvNode) {
    n.etype != TYPE_ARGS_S && n.etype != TYPE_ARGS_E
  }

  /** A frame's bindings all bind plain values. */
  predicate AllPlain(args: seq<EnvNode>) {
    forall j :: 0 <= j < |args| ==> PlainNode(args[j])
  }

  /**
   * Opening a frame, binding plain arguments in it and closing it, then
   * pruning, gives back the environment from before the frame.
   */
  lemma PruneRestoresEnv(env: seq<EnvNode>, open: EnvNode, args: seq<EnvNode>, close: EnvNode)
    requires open.etype == TYPE_ARGS_S && close.etype == TYPE_ARGS_E && AllPlain(args)
    ensures var framed := env + [open] + args + [close];
      FirstArgsEnd(framed, FrameStart(framed)).Some? && Pruned(framed) == env
  {
    var framed := env + [open] + args + [close];
    var n := |env|;
    assert framed[n] == open;
    assert forall j :: n < j < |framed| ==> framed[j].etype != TYPE_ARGS_S by {
      forall j | n < j < |framed|
        ensures framed[j].etype != TYPE_ARGS_S
      {
        if j < |framed| - 1 {
          assert framed[j] == args[j - n - 1];
        }
      }
    }
    LatestFrameAt(framed, n);
    assert FrameStart(framed) == n;
    var k := n + |args| + 1;
    assert framed[k] == close;
    assert forall j :: n <= j < k ==> framed[j].etype != TYPE_ARGS_E by {
      forall j | n <= j < k
        ensures framed[j].etype != TYPE_ARGS_E
      {
        if n < j {
          assert framed[j] == args[j - n - 1];
        }
      }
    }
    FirstArgsEndAt(framed, n, k);
    assert framed[..n] == env;
    assert framed[k + 1..] == [];
  }

  /** The newest frame start is the one no later node follows. */
  lemma LatestFrameAt(env: seq<EnvNode>, k: nat)
    requires k < |env| && env[k].etype == TYPE_ARGS_S
    requires forall j :: k < j < |env| ==> env[j].etype != TYPE_ARGS_S
    ensures LatestFrame(env, |env|) == Some(k)
  {
  }

  /** The first frame end from `i` is the one no earlier node precedes. */
  lemma FirstArgsEndAt(env: seq<EnvNode>, i: nat, k: nat)
    requires i <= k < |env| && env[k].etype == TYPE_ARGS_E
    requires forall j :: i <= j < k ==> env[j].etype != TYPE_ARGS_E
    ensures FirstArgsEnd(env, i) == Some(k)
  {
  }

  /*
   * _mlisp_env_cb_cmp.
   */

  /**
   * The truth a comparison builtin pushes for `a` (popped second) and `b`
   * (popped first): greater-than wins over less-than over equality, and
   * no comparison flag is an error.
   */
  function CmpTruth(flags: bv8, a: int, b: int): (r: Option<bool>)
    ensures r.None? <==> flags & (ENV_FLAG_CMP_GT | ENV_FLAG_CMP_LT | ENV_FLAG_CMP_EQ) == 0
  {
    if flags & ENV_FLAG_CMP_GT == ENV_FLAG_CMP_GT then Some(a > b)
    else if flags & ENV_FLAG_CMP_LT == ENV_FLAG_CMP_LT then Some(a < b)
    else if flags & ENV_FLAG_CMP_EQ == ENV_FLAG_CMP_EQ then Some(a == b)
    else None
  }

  /** An mlisp_bool_t: 1 for true, 0 for false. */
  function BoolVal(t: bool): Val {
    Bool(if t then 1 else 0)
  }

  /**
   * A comparison builtin on stack `s`: pop b, check it is numeric, pop a,
   * check it, and push the truth of the comparison. Each failure stops
   * with the stack as far as it was popped.
   */
  function CmpSpec(s: seq<Val>, flags: bv8): (r: (Error, seq<Val>))
  {
    var (e1, b, s1) := PopSpec(s);
    if e1 != OK then (e1, s1)
    else if NumAsInt(b.value).None? then (Exec, s1)
    else
      var (e2, a, s2) := PopSpec(s1);
      if e2 != OK then (e2, s2)
      else if NumAsInt(a.value).None? then (Exec, s2)
      else match CmpTruth(flags, NumAsInt(a.value).value, NumAsInt(b.value).value)
        case None => (Exec, s2)
        case Some(t) => (OK, s2 + [BoolVal(t)])
  }

  /**
   * On two numbers on top of the stack, a comparison replaces them with
   * its truth, and fails with MERROR_EXEC exactly when it has no
   * comparison flag.
   */
  lemma CmpOnNumbers(s: seq<Val>, a: Val, b: Val, flags: bv8)
    requires NumAsInt(a).Some? && NumAsInt(b).Some?
    ensures var (e, s') := CmpSpec(s + [a, b], flags);
      && (e == OK <==> flags & (ENV_FLAG_CMP_GT | ENV_FLAG_CMP_LT | ENV_FLAG_CMP_EQ) != 0)
      && (e == OK ==> s' == s + [BoolVal(CmpTruth(flags, NumAsInt(a).value, NumAsInt(b).value).value)])
      && (e != OK ==> e == Exec && s' == s)
  {
    PopUndoesPush(s + [a], b);
    PopUndoesPush(s, a);
    assert s + [a, b] == s + [a] + [b];
  }

  /** Greater-than with the operands swapped is less-than. */
  lemma GtIsSwappedLt(s: seq<Val>, a: int, b: int)
    ensures CmpSpec(s + [Int(a), Int(b)], ENV_FLAG_CMP_GT) == CmpSpec(s + [Int(b), Int(a)], ENV_FLAG_CMP_LT)
  {
    CmpOnNumbers(s, Int(a), Int(b), ENV_FLAG_CMP_GT);
    CmpOnNumbers(s, Int(b), Int(a), ENV_FLAG_CMP_LT);
  }

  /** A comparison on a stack with fewer than two nodes underflows. */
  lemma CmpUnderflow(s: seq<Val>, flags: bv8)
    requires |s| < 2 && (|s| == 1 ==> NumAsInt(s[0]).Some?)
    ensures CmpSpec(s, flags) == (Overflow, [])
  {
    if |s| == 1 {
      assert s[..0] == [];
    }
  }

  /*
   * _mlisp_env_cb_arithmetic.
   */

  /** The value the fold starts from: 1 with the multiply flag, 0 otherwise. */
  function ArithStart(flags: bv8): int {
    if flags & ENV_FLAG_ARI_MUL == ENV_FLAG_ARI_MUL then 1 else 0
  }

  /**
   * One popped value folded into the int accumulator: added with the add
   * flag, else multiplied with the multiply flag, else ignored; a float
   * is combined as a float and cast back. None for a non-numeric value.
   */
  function ArithStep(flags: bv8, product: int, v: Val): (r: Option<int>)
    ensures r.Some? <==> NumAsInt(v).Some?
  {
    var add := flags & ENV_FLAG_ARI_ADD == ENV_FLAG_ARI_ADD;
    var mul := flags & ENV_FLAG_ARI_MUL == ENV_FLAG_ARI_MUL;
    match v
    case Int(i) => Some(if add then product + i else if mul then product * i else product)
    case Bool(b) => Some(if add then product + b else if mul then product * b else product)
    case Float(f) => Some(
      if add then TruncReal(product as real + f)
      else if mul then TruncReal(product as real * f)
      else product)
    case _ => None
  }

  /** Popping `n` more values and folding each into `product`, stopping at the first failure. */
  function ArithPops(s: seq<Val>, flags: bv8, n: nat, product: int): (r: (Error, seq<Val>, int))
    ensures r.0 in {OK, Overflow, Exec}
    ensures r.0 == OK ==> |r.1| + n == |s| && r.1 == s[..|r.1|]
  {
    if n == 0 then (OK, s, product)
    else
      var (e, v, s') := PopSpec(s);
      if e != OK then (e, s', product)
      else match ArithStep(flags, product, v.value)
        case None => (Exec, s', product)
        case Some(p) => ArithPops(s', flags, n - 1, p)
  }

  /**
   * An arithmetic builtin on stack `s`: two values folded from the start
   * value, the result pushed as an int16_t.
   */
  function ArithSpec(s: seq<Val>, flags: bv8): (r: (Error, seq<Val>))
  {
    var (e, s', p) := ArithPops(s, flags, 2, ArithStart(flags));
    if e != OK then (e, s') else (OK, s' + [Int(Wrap16(p))])
  }

  /**
   * On two numbers on top of the stack, an arithmetic builtin folds the
   * top one into the start value, then the one below it, and replaces
   * both with the int16_t result.
   */
  lemma ArithOnNumbers(s: seq<Val>, x: Val, y: Val, flags: bv8)
    requires NumAsInt(x).Some? && NumAsInt(y).Some?
    ensures var p := ArithStep(flags, ArithStep(flags, ArithStart(flags), y).value, x).value;
      ArithSpec(s + [x, y], flags) == (OK, s + [Int(Wrap16(p))])
  {
    PopUndoesPush(s + [x], y);
    PopUndoesPush(s, x);
    assert s + [x, y] == s + [x] + [y];
    var p1 := ArithStep(flags, ArithStart(flags), y).value;
    var p2 := ArithStep(flags, p1, x).value;
    assert ArithPops(s + [x], flags, 1, p1) == (OK, s, p2);
    assert ArithPops(s + [x, y], flags, 2, ArithStart(flags)) == (OK, s, p2);
  }

  /** Adding two ints pushes their int16_t sum, whichever order they were pushed in. */
  lemma AddInts(s: seq<Val>, a: int, b: int)
    ensures ArithSpec(s + [Int(a), Int(b)], ENV_FLAG_ARI_ADD) == (OK, s + [Int(Wrap16(a + b))])
    ensures ArithSpec(s + [Int(a), Int(b)], ENV_FLAG_ARI_ADD) == ArithSpec(s + [Int(b), Int(a)], ENV_FLAG_ARI_ADD)
  {
    ArithOnNumbers(s, Int(a), Int(b), ENV_FLAG_ARI_ADD);
    ArithOnNumbers(s, Int(b), Int(a), ENV_FLAG_ARI_ADD);
  }

  /** Multiplying two ints pushes their int16_t product, whichever order they were pushed in. */
  lemma MulInts(s: seq<Val>, a: int, b: int)
    ensures ArithSpec(s + [Int(a), Int(b)], ENV_FLAG_ARI_MUL) == (OK, s + [Int(Wrap16(a * b))])
    ensures ArithSpec(s + [Int(a), Int(b)], ENV_FLAG_ARI_MUL) == ArithSpec(s + [Int(b), Int(a)], ENV_FLAG_ARI_MUL)
  {
    ArithOnNumbers(s, Int(a), Int(b), ENV_FLAG_ARI_MUL);
    ArithOnNumbers(s, Int(b), Int(a), ENV_FLAG_ARI_MUL);
    MulFold(a, b);
    MulFold(b, a);
  }

  /** Multiplying by the top int, then the one below, from 1. */
  lemma MulFold(a: int, b: int)
    ensures ArithStart(ENV_FLAG_ARI_MUL) == 1
    ensures ArithStep(ENV_FLAG_ARI_MUL, ArithStep(ENV_FLAG_ARI_MUL, 1, Int(b)).value, Int(a)).value == a * b
  {
    assert b * a == a * b;
  }

  /** A non-numeric value on top makes an arithmetic builtin fail after popping it. */
  lemma ArithRejects(s: seq<Val>, v: Val, flags: bv8)
    requires NumAsInt(v).None?
    ensures ArithSpec(s + [v], flags) == (Exec, s)
  {
    PopUndoesPush(s, v);
  }

  /*
   * _mlisp_stack_cleanup.
   */

  /** The newest of the first `n` nodes of `s` that is the BEGIN marker for `nIdx`. */
  function LatestBegin(s: seq<Val>, nIdx: int, n: nat): (r: Option<nat>)
    requires n <= |s|
    ensures r.Some? ==> r.value < n && s[r.value] == Begin(nIdx)
    ensures r.Some? ==> forall j :: r.value < j < n ==> s[j] != Begin(nIdx)
    ensures r.None? ==> forall j :: 0 <= j < n ==> s[j] != Begin(nIdx)
  {
    if n == 0 then None
    else if s[n - 1] == Begin(nIdx) then Some(n - 1)
    else LatestBegin(s, nIdx, n - 1)
  }

  /** The stack after cleanup for `nIdx`: below its newest BEGIN marker, or empty when there is none. */
  function Cleaned(s: seq<Val>, nIdx: int): (r: seq<Val>)
  {
    match LatestBegin(s, nIdx, |s|)
    case Some(k) => s[..k]
    case None => []
  }

  /** Cleanup takes away a BEGIN marker and whatever was pushed after it. */
  lemma CleanupRestores(s: seq<Val>, nIdx: int, rest: seq<Val>)
    requires forall j :: 0 <= j < |rest| ==> rest[j] != Begin(nIdx)
    ensures Cleaned(s + [Begin(nIdx)] + rest, nIdx) == s
  {
    var t := s + [Begin(nIdx)] + rest;
    var k := |s|;
    assert t[k] == Begin(nIdx);
    forall j | k < j < |t|
      ensures t[j] != Begin(nIdx)
    {
      assert t[j] == rest[j - k - 1];
    }
    LatestBeginAt(t, nIdx, k);
    assert t[..k] == s;
  }

  /** The newest marker is the one no later marker follows. */
  lemma LatestBeginAt(s: seq<Val>, nIdx: int, k: nat)
    requires k < |s| && s[k] == Begin(nIdx)
    requires forall j :: k < j < |s| ==> s[j] != Begin(nIdx)
    ensures LatestBegin(s, nIdx, |s|) == Some(k)
  {
  }

  /**
   * Removing node `i` again from an environment whose nodes i to
   * i + r - 1 are already gone removes node i + r of the original.
   */
  lemma RemoveOneMore(env0: seq<EnvNode>, i: nat, r: nat)
    requires i + r < |env0|
    ensures var env := env0[..i] + env0[i + r..];
      && env[i] == env0[i + r]
      && env[..i] + env[i + 1..] == env0[..i] + env0[i + r + 1..]
  {
    var env := env0[..i] + env0[i + r..];
    assert env[..i] == env0[..i];
    assert env[i + 1..] == env0[i + r + 1..];
  }

  /**
   * The state of the loop of _mlisp_env_prune_args: `removed` nodes from
   * the frame start `i` are gone, none of them past the first ARGS_E.
   */
  ghost predicate Pruning(env0: seq<EnvNode>, es: seq<EnvNode>, i: nat, removed: nat) {
    && i < |env0| && FirstArgsEnd(env0, i).Some?
    && i + removed <= FirstArgsEnd(env0, i).value
    && es == env0[..i] + env0[i + removed..]
  }

  /** Before the loop nothing is removed. */
  lemma PruneStart(env0: seq<EnvNode>, i: nat)
    requires i < |env0| && FirstArgsEnd(env0, i).Some?
    ensures Pruning(env0, env0, i, 0)
  {
    assert env0[..i] + env0[i..] == env0;
  }

  /** A node at the frame start that does not close the frame is removed and the loop goes on. */
  lemma PruneStep(env0: seq<EnvNode>, es: seq<EnvNode>, i: nat, removed: nat)
    requires Pruning(env0, es, i, removed)
    ensures i < |es| && es[i] == env0[i + removed]
    ensures es[i].etype != TYPE_ARGS_E ==> Pruning(env0, es[..i] + es[i + 1..], i, removed + 1)
  {
    RemoveOneMore(env0, i, removed);
  }

  /** Once the node at the frame start closes the frame, removing it completes the pruning. */
  lemma PruneDone(env0: seq<EnvNode>, es: seq<EnvNode>, i: nat, removed: nat)
    requires Pruning(env0, es, i, removed) && i == FrameStart(env0)
    requires i < |es| && es[i].etype == TYPE_ARGS_E
    ensures es[..i] + es[i + 1..] == Pruned(env0)
  {
    RemoveOneMore(env0, i, removed);
  }

  /** struct MLISP_EXEC_STATE, as far as the stack and the environment go. */
  class Exec {
    var stack: seq<Val>
    var env: seq<EnvNode>

    /** An execution state with an empty stack and an empty environment. */
    constructor()
      ensures stack == [] && env == []
    {
      stack := [];
      env := [];
    }

    /** mlisp_stack_push: the value becomes the top of the stack. */
    method Push(v: Val)
      modifies this
      ensures stack == old(stack) + [v] && env == old(env)
    {
      stack := stack + [v];
    }

    /** mlisp_stack_pop: the top of the stack is taken off and handed back. */
    method Pop() returns (e: Error, o: Option<Val>)
      modifies this
      ensures (e, o, stack) == PopSpec(old(stack)) && env == old(env)
    {
      if |stack| == 0 {
        e, o := Overflow, None;
        return;
      }
      var nIdx := |stack| - 1;
      o := Some(stack[nIdx]);
      stack := stack[..nIdx];
      e := OK;
    }

    /** mlisp_env_get_strpool: the newest binding of `token`, found by walking back from the end. */
    method EnvGet(token: string) returns (r: Option<nat>)
      ensures r == LatestNamed(env, token, |env|)
    {
      var i: nat := |env|;
      while 0 < i
        invariant i <= |env|
        invariant LatestNamed(env, token, |env|) == LatestNamed(env, token, i)
      {
        if env[i - 1].name == token {
          return Some(i - 1);
        }
        i := i - 1;
      }
      r := None;
    }

    /**
     * mlisp_env_set: a new binding of `token` appended to the environment,
     * or MERROR_EXEC and nothing changed for a type it cannot store.
     */
    method EnvSet(token: string, envType: nat, data: Val, flags: bv8) returns (e: Error)
      requires 0 < |token|
      modifies this
      ensures e == OK <==> 1 <= envType <= 8
      ensures e == OK ==> env == old(env) + [EnvNode(flags, envType, token, data)]
      ensures e != OK ==> e == Exec && env == old(env)
      ensures stack == old(stack)
    {
      if envType < 1 || 8 < envType {
        return Exec;
      }
      env := env + [EnvNode(flags, envType, token, data)];
      e := OK;
    }

    /** _mlisp_env_get_env_frame: the newest ARGS_S node, or 0 when there is none. */
    method EnvFrame() returns (i: nat)
      ensures i == FrameStart(env)
    {
      var j: nat := |env|;
      while 0 < j
        invariant j <= |env|
        invariant LatestFrame(env, |env|) == LatestFrame(env, j)
      {
        if env[j - 1].etype == TYPE_ARGS_S {
          return j - 1;
        }
        j := j - 1;
      }
      i := 0;
    }

    /**
     * _mlisp_env_prune_args: the nodes of the current frame, from its
     * ARGS_S through the first ARGS_E after it, removed one at a time.
     */
    method PruneArgs()
      requires 0 < |env| && FirstArgsEnd(env, FrameStart(env)).Some?
      modifies this
      ensures env == Pruned(old(env)) && stack == old(stack)
    {
      var i := EnvFrame();
      var es := env;
      ghost var k := FirstArgsEnd(es, i).value;
      ghost var removed := 0;
      PruneStart(es, i);
      while es[i].etype != TYPE_ARGS_E
        modifies {}
        invariant Pruning(old(env), es, i, removed)
        decreases k - (i + removed)
      {
        PruneStep(old(env), es, i, removed);
        es := es[..i] + es[i + 1..];
        removed := removed + 1;
      }
      PruneDone(old(env), es, i, removed);
      env := es[..i] + es[i + 1..];
    }

    /**
     * _mlisp_env_cb_cmp: two numbers popped and the truth of their
     * comparison pushed.
     */
    method Cmp(flags: bv8) returns (e: Error)
      modifies this
      ensures (e, stack) == CmpSpec(old(stack), flags) && env == old(env)
    {
      var b, a;
      e, b := Pop();
      if e != OK {
        return;
      }
      var bInt := NumAsInt(b.value);
      if bInt.None? {
        return Exec;
      }
      e, a := Pop();
      if e != OK {
        return;
      }
      var aInt := NumAsInt(a.value);
      if aInt.None? {
        return Exec;
      }
      var truth := CmpTruth(flags, aInt.value, bInt.value);
      if truth.None? {
        return Exec;
      }
      Push(BoolVal(truth.value));
    }

    /**
     * _mlisp_env_cb_arithmetic: two numbers popped and folded into the
     * start value, the result pushed as an int16_t.
     */
    method Arithmetic(flags: bv8) returns (e: Error)
      modifies this
      ensures (e, stack) == ArithSpec(old(stack), flags) && env == old(env)
    {
      var product := ArithStart(flags);
      var i := 0;
      while i < 2
        invariant i <= 2 && env == old(env)
        invariant ArithPops(stack, flags, 2 - i, product) == ArithPops(old(stack), flags, 2, ArithStart(flags))
      {
        var v;
        e, v := Pop();
        if e != OK {
          return;
        }
        var p := ArithStep(flags, product, v.value);
        if p.None? {
          return Exec;
        }
        product := p.value;
        i := i + 1;
      }
      Push(Int(Wrap16(product)));
      e := OK;
    }

    /**
     * _mlisp_stack_cleanup: nodes popped until the BEGIN marker for `nIdx`
     * has been popped, or the stack is empty.
     */
    method StackCleanup(nIdx: int) returns (e: Error)
      modifies this
      ensures e == OK && stack == Cleaned(old(stack), nIdx) && env == old(env)
    {
      ghost var s0 := stack;
      var i := |stack|;
      while 0 < i
        invariant i == |stack| && stack == s0[..i] && env == old(env)
        invariant LatestBegin(s0, nIdx, |s0|) == LatestBegin(s0, nIdx, i)
      {
        var o;
        e, o := Pop();
        if o == Some(Begin(nIdx)) {
          return OK;
        }
        i := i - 1;
      }
      e := OK;
    }
  }
}
