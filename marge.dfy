/**
 * src/marge.h: the command-line dispatcher. Options are registered with
 * maug_add_arg; maug_parse_args walks argv from index 1, hands each entry
 * to the matching option's callback and then to the most recently matched
 * option's callback, and finally gives every option that was never called
 * its default call ("" with count -1). A callback is modelled by the result
 * it returns for a call; what it does to its `data` is not part of the model.
 */
module Marge {
  import opened Maug

  /** MAUG_CLI_ARG_SZ_MAX, MAUG_CLI_ARG_HELP_SZ_MAX and MAUG_CLI_ARG_C_DEFAULT. */
  const ARG_SZ_MAX: nat := 20
  const HELP_SZ_MAX: nat := 127
  const ARG_C_DEFAULT: int := -1

  /**
   * struct MARGE_ARG without its data pointer; of the callback pointer only
   * whether it is NULL is kept (`hasCallback`), its results being `cb`'s.
   */
  datatype Arg = Arg(name: seq<char>, nameSz: nat, help: seq<char>, called: nat, hasCallback: bool)

  /** One callback invocation: the option's index, the string passed and the count. */
  datatype Call = Call(idx: nat, arg: seq<char>, count: int)

  /** The character a C string holds at `i`: NUL past its end. */
  function CharAt(s: seq<char>, i: nat): char {
    if i < |s| then s[i] else '\0'
  }

  /** strncmp(a, b, n) == 0, comparing from position i. */
  predicate StrnEq(a: seq<char>, b: seq<char>, i: nat, n: nat)
    decreases n - i
  {
    i >= n || (CharAt(a, i) == CharAt(b, i) && (CharAt(a, i) == '\0' || StrnEq(a, b, i + 1, n)))
  }

  /** maug_strncpy into a field of `max` chars: the string, cut at its NUL and at `max`. */
  function Truncate(s: seq<char>, max: nat): (r: seq<char>)
    ensures |r| <= max && |r| <= |s| && r == s[..|r|]
    ensures forall i :: 0 <= i < |r| ==> r[i] != '\0'
    ensures |r| < max ==> |r| == Strlen(s)
  {
    var n := Strlen(s);
    if n <= max then s[..n] else s[..max]
  }

  /** The option's first arg_sz characters compare equal to the argument. */
  predicate Matches(a: Arg, s: seq<char>) {
    StrnEq(a.name, s, 0, a.nameSz)
  }

  /** The first option at or after `j` that matches `s`. */
  function FindArg(args: seq<Arg>, s: seq<char>, j: nat): (r: Option<nat>)
    decreases |args| - j
    ensures r.Some? ==> j <= r.value < |args| && Matches(args[r.value], s)
    ensures r.Some? ==> forall k :: j <= k < r.value ==> !Matches(args[k], s)
    ensures r.None? ==> forall k :: j <= k < |args| ==> !Matches(args[k], s)
  {
    if j >= |args| then None
    else if Matches(args[j], s) then Some(j)
    else FindArg(args, s, j + 1)
  }

  /** The parser's progress: the options, last_i, the calls so far and retval. */
  datatype Parsing = Parsing(args: seq<Arg>, lastI: nat, calls: seq<Call>, retval: Error)

  /** `arg->called++` (a uint8_t) and a call of option k's callback with `s`. */
  function Invoke(p: Parsing, k: nat, s: seq<char>, cb: Call -> Error): Parsing
    requires k < |p.args|
  {
    var n := U8(p.args[k].called + 1);
    var c := Call(k, s, n);
    Parsing(p.args[k := p.args[k].(called := n)], p.lastI, p.calls + [c], cb(c))
  }

  /**
   * One argv entry: the first matching option (if any) is called and
   * becomes last_i; unless that call failed, the option at last_i (if it
   * exists) is then called with the same entry.
   */
  function Step(p: Parsing, s: seq<char>, cb: Call -> Error): (r: Parsing)
    requires p.retval == OK
    ensures |r.args| == |p.args| && |p.calls| <= |r.calls|
    ensures r.calls[..|p.calls|] == p.calls
    ensures r.lastI == (match FindArg(p.args, s, 0) case Some(k) => k case None => p.lastI)
    ensures r.retval == OK && r.lastI < |r.args| ==>
      |r.calls| > |p.calls| && r.calls[|r.calls| - 1] == Call(r.lastI, s, r.args[r.lastI].called)
    ensures r.retval == OK && |r.calls| > |p.calls| ==> cb(r.calls[|r.calls| - 1]) == OK
    ensures r.retval != OK ==> |r.calls| > |p.calls| && cb(r.calls[|r.calls| - 1]) == r.retval
    ensures forall i :: |p.calls| <= i < |r.calls| - 1 ==> cb(r.calls[i]) == OK
  {
    var m := FindArg(p.args, s, 0);
    var p1 := if m.Some? then Invoke(p, m.value, s, cb).(lastI := m.value) else p;
    if p1.retval != OK then p1
    else if p1.lastI < |p1.args| then Invoke(p1, p1.lastI, s, cb)
    else p1
  }

  /**
   * Every callback before the last returned MERROR_OK, and retval is what
   * the last one returned (MERROR_OK when there was no call).
   */
  predicate StoppedAtFirstError(p: Parsing, cb: Call -> Error) {
    (forall i :: 0 <= i < |p.calls| - 1 ==> cb(p.calls[i]) == OK)
    && (p.calls == [] ==> p.retval == OK)
    && (p.calls != [] ==> cb(p.calls[|p.calls| - 1]) == p.retval)
  }

  /** The argv loop from index i on; a failed callback ends it. */
  function ParseFrom(p: Parsing, argv: seq<seq<char>>, i: nat, cb: Call -> Error): (r: Parsing)
    decreases |argv| - i
    ensures |r.args| == |p.args| && |p.calls| <= |r.calls| && r.calls[..|p.calls|] == p.calls
    ensures StoppedAtFirstError(p, cb) ==> StoppedAtFirstError(r, cb)
  {
    if i >= |argv| || p.retval != OK then p
    else
      var q := Step(p, argv[i], cb);
      var r := ParseFrom(q, argv, i + 1, cb);
      assert r.calls[..|p.calls|] == p.calls by {
        assert r.calls[..|q.calls|][..|p.calls|] == r.calls[..|p.calls|];
      }
      assert StoppedAtFirstError(p, cb) ==> StoppedAtFirstError(q, cb) by {
        if StoppedAtFirstError(p, cb) {
          StoppedExtends(p, q, cb);
        }
      }
      r
  }

  /**
   * Appending calls that all succeeded, except the last, whose result
   * becomes retval, keeps StoppedAtFirstError.
   */
  lemma StoppedExtends(p: Parsing, q: Parsing, cb: Call -> Error)
    requires StoppedAtFirstError(p, cb) && p.retval == OK
    requires |p.calls| <= |q.calls| && q.calls[..|p.calls|] == p.calls
    requires forall i :: |p.calls| <= i < |q.calls| - 1 ==> cb(q.calls[i]) == OK
    requires |q.calls| == |p.calls| ==> q.retval == OK
    requires |p.calls| < |q.calls| ==> cb(q.calls[|q.calls| - 1]) == q.retval
    ensures StoppedAtFirstError(q, cb)
  {
    forall i | 0 <= i < |q.calls| - 1
      ensures cb(q.calls[i]) == OK
    {
      if i < |p.calls| {
        assert q.calls[i] == q.calls[..|p.calls|][i];
      }
    }
  }

  /**
   * The default loop from option j on: each option never called gets
   * ("", -1); an option whose callback is NULL is skipped.
   */
  function Defaults(p: Parsing, j: nat, cb: Call -> Error): (r: Parsing)
    decreases |p.args| - j
    ensures r.args == p.args && |p.calls| <= |r.calls| && r.calls[..|p.calls|] == p.calls
    ensures forall i :: |p.calls| <= i < |r.calls| ==>
      r.calls[i].arg == "" && r.calls[i].count == ARG_C_DEFAULT
      && j <= r.calls[i].idx < |p.args| && p.args[r.calls[i].idx].called == 0
      && p.args[r.calls[i].idx].hasCallback
    ensures p.retval == OK && r.retval == OK ==>
      forall k :: j <= k < |p.args| && p.args[k].called == 0 && p.args[k].hasCallback ==>
        Call(k, "", ARG_C_DEFAULT) in r.calls
    ensures StoppedAtFirstError(p, cb) ==> StoppedAtFirstError(r, cb)
  {
    if j >= |p.args| || p.retval != OK then p
    else if !p.args[j].hasCallback || p.args[j].called != 0 then Defaults(p, j + 1, cb)
    else
      var c := Call(j, "", ARG_C_DEFAULT);
      var q := p.(calls := p.calls + [c], retval := cb(c));
      var r := Defaults(q, j + 1, cb);
      assert r.calls[..|p.calls|] == p.calls by {
        assert r.calls[..|q.calls|][..|p.calls|] == r.calls[..|p.calls|];
      }
      assert r.calls[|p.calls|] == c by {
        assert r.calls[..|q.calls|][|p.calls|] == c;
      }
      assert StoppedAtFirstError(p, cb) ==> StoppedAtFirstError(q, cb) by {
        if StoppedAtFirstError(p, cb) {
          assert q.calls[..|p.calls|] == p.calls;
          StoppedExtends(p, q, cb);
        }
      }
      r
  }

  /** maug_parse_args: the argv loop, then (if it succeeded) the default calls. */
  function Parsed(args: seq<Arg>, argv: seq<seq<char>>, cb: Call -> Error): (r: Parsing)
    ensures |r.args| == |args|
    ensures StoppedAtFirstError(r, cb)
    ensures var p := ParseFrom(Parsing(args, 0, [], OK), argv, 1, cb);
      r.retval == OK ==>
        forall k :: 0 <= k < |args| && p.args[k].called == 0 && p.args[k].hasCallback ==>
          Call(k, "", ARG_C_DEFAULT) in r.calls
  {
    var p := ParseFrom(Parsing(args, 0, [], OK), argv, 1, cb);
    if p.retval != OK then p else Defaults(p, 0, cb)
  }

  /**
   * An argument that matches an option reaches that option's callback
   * twice: once from the matching loop and once as data for last_i. With
   * the single option "-v" and argv ["prog", "-v"], the callback sees
   * ("-v", 1) and then ("-v", 2), and no default call follows.
   */
  lemma MatchedCalledTwice(cb: Call -> Error)
    requires forall c :: cb(c) == OK
    ensures Parsed([Arg("-v", 2, "", 0, true)], ["prog", "-v"], cb).calls == [Call(0, "-v", 1), Call(0, "-v", 2)]
  {
    var args := [Arg("-v", 2, "", 0, true)];
    assert StrnEq("-v", "-v", 0, 2) by {
      assert StrnEq("-v", "-v", 2, 2);
      assert StrnEq("-v", "-v", 1, 2);
    }
    assert FindArg(args, "-v", 0) == Some(0);
    assert U8(1) == 1 && U8(2) == 2;
    var p := ParseFrom(Parsing(args, 0, [], OK), ["prog", "-v"], 1, cb);
    assert p.calls == [Call(0, "-v", 1), Call(0, "-v", 2)];
    assert p.args[0].called == 2;
  }

  /**
   * An option registered without a callback gets no default call: with
   * options "-q" (no callback) and "-v" and no arguments, only "-v" is
   * called, with ("", -1).
   */
  lemma NoCallbackNoDefault(cb: Call -> Error)
    requires forall c :: cb(c) == OK
    ensures Parsed([Arg("-q", 2, "", 0, false), Arg("-v", 2, "", 0, true)], ["prog"], cb).calls
      == [Call(1, "", ARG_C_DEFAULT)]
  {
    var p := Parsing([Arg("-q", 2, "", 0, false), Arg("-v", 2, "", 0, true)], 0, [], OK);
    assert ParseFrom(p, ["prog"], 1, cb) == p;
    var q := p.(calls := [Call(1, "", ARG_C_DEFAULT)]);
    assert Defaults(p, 1, cb) == Defaults(q, 2, cb);
  }

  /**
   * An argument that matches no option is data for the option matched
   * last (option 0 before any match): its callback sees it with the next
   * count, and last_i stays.
   */
  lemma UnmatchedGoesToLast(p: Parsing, s: seq<char>, cb: Call -> Error)
    requires p.retval == OK && FindArg(p.args, s, 0).None? && p.lastI < |p.args|
    ensures Step(p, s, cb).lastI == p.lastI
    ensures Step(p, s, cb).calls == p.calls + [Call(p.lastI, s, U8(p.args[p.lastI].called + 1))]
  {
  }

  /**
   * One pass of maug_parse_args' argv loop: the search for a matching
   * option, its call, and the call of the option at last_i.
   */
  method ArgStep(args: seq<Arg>, lastI: nat, calls: seq<Call>, s: seq<char>, cb: Call -> Error)
    returns (args': seq<Arg>, lastI': nat, calls': seq<Call>, retval: Error)
    ensures Parsing(args', lastI', calls', retval) == Step(Parsing(args, lastI, calls, OK), s, cb)
  {
    args', lastI', calls', retval := args, lastI, calls, OK;
    var constI := 0;
    while constI < |args'|
      invariant constI <= |args'|
      invariant args' == args && lastI' == lastI && calls' == calls && retval == OK
      invariant FindArg(args, s, 0) == FindArg(args, s, constI)
    {
      if StrnEq(args'[constI].name, s, 0, args'[constI].nameSz) {
        lastI' := constI;
        var n := U8(args'[constI].called + 1);
        args' := args'[constI := args'[constI].(called := n)];
        calls' := calls' + [Call(constI, s, n)];
        retval := cb(Call(constI, s, n));
        if retval != OK {
          return;
        }
        break;
      }
      constI := constI + 1;
    }
    if lastI' < |args'| {
      var n := U8(args'[lastI'].called + 1);
      args' := args'[lastI' := args'[lastI'].(called := n)];
      calls' := calls' + [Call(lastI', s, n)];
      retval := cb(Call(lastI', s, n));
    }
  }

  /** maug_parse_args' default loop: options never called and with a callback get ("", -1). */
  method DefaultCalls(args: seq<Arg>, lastI: nat, calls: seq<Call>, cb: Call -> Error)
    returns (calls': seq<Call>, retval: Error)
    ensures Parsing(args, lastI, calls', retval) == Defaults(Parsing(args, lastI, calls, OK), 0, cb)
  {
    calls', retval := calls, OK;
    var constI := 0;
    while constI < |args|
      invariant constI <= |args| && retval == OK
      invariant Defaults(Parsing(args, lastI, calls', OK), constI, cb) == Defaults(Parsing(args, lastI, calls, OK), 0, cb)
    {
      if args[constI].hasCallback && args[constI].called == 0 {
        calls' := calls' + [Call(constI, "", ARG_C_DEFAULT)];
        retval := cb(Call(constI, "", ARG_C_DEFAULT));
        if retval != OK {
          return;
        }
      }
      constI := constI + 1;
    }
  }

  /** The g_marge_args table. */
  class Cli {
    var args: seq<Arg>

    constructor ()
      ensures args == []
    {
      args := [];
    }

    /**
     * maug_add_arg: one option appended with called = 0, its name and help
     * cut to their fields' sizes; arg_sz is kept as given and help_sz unused.
     * `hasCallback` says whether arg_cb is non-NULL.
     */
    method AddArg(name: seq<char>, nameSz: nat, help: seq<char>, helpSz: nat, hasCallback: bool)
      returns (retval: Error)
      modifies this
      ensures retval == OK
      ensures args == old(args) + [Arg(Truncate(name, ARG_SZ_MAX), nameSz, Truncate(help, HELP_SZ_MAX), 0, hasCallback)]
    {
      var newArg := Arg(Truncate(name, ARG_SZ_MAX), nameSz, Truncate(help, HELP_SZ_MAX), 0, hasCallback);
      args := args + [newArg];
      retval := OK;
    }

    /** maug_parse_args, with the callbacks' results given by `cb`. */
    method ParseArgs(argv: seq<seq<char>>, cb: Call -> Error) returns (retval: Error, calls: seq<Call>)
      modifies this
      ensures var r := Parsed(old(args), argv, cb);
        args == r.args && calls == r.calls && retval == r.retval
    {
      ghost var start := Parsing(args, 0, [], OK);
      var lastI := 0;
      calls := [];
      retval := OK;
      var argI := 1;
      while argI < |argv|
        invariant 1 <= argI
        invariant ParseFrom(Parsing(args, lastI, calls, OK), argv, argI, cb) == ParseFrom(start, argv, 1, cb)
      {
        args, lastI, calls, retval := ArgStep(args, lastI, calls, argv[argI], cb);
        if retval != OK {
          return;
        }
        argI := argI + 1;
      }
      assert ParseFrom(Parsing(args, lastI, calls, OK), argv, argI, cb) == Parsing(args, lastI, calls, OK);
      calls, retval := DefaultCalls(args, lastI, calls, cb);
    }
  }
}
