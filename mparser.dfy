/**
 * The parse-state stack that src/mparser.h gives every character-level
 * parser: a fixed array of MTILEMAP_PSTATE_SZ_MAX state numbers with a
 * count. Pushing asserts a free slot and popping asserts a state to pop;
 * the state of an empty stack reads as 0, each parser's NONE state.
 */
module MParser {

  /** MTILEMAP_PSTATE_SZ_MAX: the capacity of the pstate array. */
  const PSTATE_SZ_MAX: nat := 24

  /** mparser_pstate: the state on top of the stack, or 0 when it is empty. */
  function Top(s: seq<nat>): (t: nat)
    ensures |s| == 0 ==> t == 0
    ensures |s| > 0 ==> t == s[|s| - 1] && t in s
  {
    if |s| > 0 then s[|s| - 1] else 0
  }

  /** mparser_pstate_push: the state just pushed is the one read next, and the states below it are kept. */
  lemma TopAfterPush(s: seq<nat>, x: nat)
    ensures Top(s + [x]) == x
    ensures (s + [x])[..|s|] == s
  {
  }

  /**
   * mparser_pstate_pop: after a pop the state read is the one pushed before
   * the popped one, or 0 when the popped state was the only one; a push
   * then a pop reads as before the push.
   */
  lemma TopAfterPop(s: seq<nat>, x: nat)
    requires 0 < |s|
    ensures |s| == 1 ==> Top(s[..|s| - 1]) == 0
    ensures 1 < |s| ==> Top(s[..|s| - 1]) == s[|s| - 2]
    ensures Top((s + [x])[..|s|]) == Top(s)
  {
    assert (s + [x])[..|s|] == s;
  }

}
