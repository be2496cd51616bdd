/**
 * The character-level JSON parser of src/mjson.h. mjson_parse_c takes one
 * character at a time and keeps a stack of parse states (object key,
 * object value, string, list); it collects the characters of the current
 * token and hands a finished token to the caller's token parser, and it
 * tells the caller when an object opens or closes, when a list closes and
 * when an object value ends. Here those callbacks become a log of events,
 * and the value the token parser returns is a parameter.
 */
module MJson {
  import opened Maug
  import opened MParser

  /** MJSON_PARSER_PSTATE_TABLE. */
  const PSTATE_NONE: nat := 0
  const PSTATE_OBJECT_KEY: nat := 1
  const PSTATE_OBJECT_VAL: nat := 2
  const PSTATE_STRING: nat := 3
  const PSTATE_LIST: nat := 4

  /** The callbacks of struct MJSON_PARSER, as calls made to them. */
  datatype Event =
    | Token(text: seq<char>)  // token_parser, with the token collected so far
    | OpenObj                 // open_obj
    | CloseObj                // close_obj
    | CloseList               // close_list
    | CloseVal                // close_val

  /** The parser's state stack, its token buffer, and the callbacks made so far. */
  datatype JState = JState(pstate: seq<nat>, token: seq<char>, events: seq<Event>)

  /** The parser that has read nothing. */
  const START: JState := JState([], [], [])

  /** The characters mjson_parse_c treats as whitespace. */
  predicate IsSpace(c: char) {
    c == '\r' || c == '\n' || c == '\t' || c == ' '
  }

  /**
   * The state at `i` can only have been pushed on top of the state below
   * it: a key or a list at the bottom or inside a list or an object value,
   * an object value right above its key, and a string only on top, inside
   * a key, a value or a list.
   */
  predicate InPlace(s: seq<nat>, i: nat)
    requires i < |s|
  {
    && 1 <= s[i] <= 4
    && (s[i] == PSTATE_OBJECT_KEY || s[i] == PSTATE_LIST ==>
          i == 0 || s[i - 1] == PSTATE_LIST || s[i - 1] == PSTATE_OBJECT_VAL)
    && (s[i] == PSTATE_OBJECT_VAL ==> 0 < i && s[i - 1] == PSTATE_OBJECT_KEY)
    && (s[i] == PSTATE_STRING ==> i == |s| - 1 && 0 < i && s[i - 1] != PSTATE_STRING)
  }

  /** A state stack the parser can reach: every state is in place. */
  predicate Nested(s: seq<nat>) {
    forall i :: 0 <= i < |s| ==> InPlace(s, i)
  }

  /** Whether `c` with state `t` on top pushes a new state. */
  predicate Pushes(t: nat, c: char) {
    || (c == '{' && (t == PSTATE_NONE || t == PSTATE_LIST || t == PSTATE_OBJECT_VAL))
    || (c == '[' && (t == PSTATE_NONE || t == PSTATE_LIST || t == PSTATE_OBJECT_VAL))
    || (c == '"' && (t == PSTATE_OBJECT_KEY || t == PSTATE_OBJECT_VAL || t == PSTATE_LIST))
    || (c == ':' && t == PSTATE_OBJECT_KEY)
  }

  /**
   * The stack fits its array, and a character that pushes finds room, as
   * mparser_pstate_push asserts.
   */
  predicate Room(s: seq<nat>, c: char) {
    |s| <= PSTATE_SZ_MAX && (Pushes(Top(s), c) ==> |s| < PSTATE_SZ_MAX)
  }

  /** Whether `c` is rejected (mjson_parser_invalid_c) with state `t` on top. */
  predicate Invalid(t: nat, c: char) {
    && t != PSTATE_STRING
    && (|| (c == '{' && t != PSTATE_NONE && t != PSTATE_LIST && t != PSTATE_OBJECT_VAL)
        || (c == '}' && t != PSTATE_OBJECT_VAL)
        || (c == '[' && t != PSTATE_NONE && t != PSTATE_LIST && t != PSTATE_OBJECT_VAL)
        || (c == ']' && t != PSTATE_LIST)
        || (c == '"' && t == PSTATE_NONE)
        || (c == ',' && t != PSTATE_OBJECT_VAL && t != PSTATE_LIST)
        || (c == ':' && t != PSTATE_OBJECT_KEY))
  }

  /** The character appended to the token; the parser's answer for a string's characters. */
  function Appended(st: JState, c: char): (r: (JState, Error))
    ensures r.0.token == st.token + [c] && r.0.pstate == st.pstate && r.0.events == st.events
    ensures r.1 == OK
  {
    (st.(token := st.token + [c]), OK)
  }

  /** Whitespace: part of a string's token, and ignored anywhere else. */
  function OnSpace(st: JState, c: char): (r: (JState, Error))
  {
    if Top(st.pstate) == PSTATE_STRING then Appended(st, c) else (st, OK)
  }

  /** '{': a key state is pushed and open_obj called where a value may start. */
  function OnOpenObj(st: JState): (r: (JState, Error))
  {
    var t := Top(st.pstate);
    if t == PSTATE_NONE || t == PSTATE_LIST || t == PSTATE_OBJECT_VAL then
      (JState(st.pstate + [PSTATE_OBJECT_KEY], [], st.events + [OpenObj]), OK)
    else if t == PSTATE_STRING then Appended(st, '{')
    else (st, Marge)
  }

  /** '[': a list state is pushed where a value may start. */
  function OnOpenList(st: JState): (r: (JState, Error))
  {
    var t := Top(st.pstate);
    if t == PSTATE_NONE || t == PSTATE_OBJECT_VAL || t == PSTATE_LIST then
      (JState(st.pstate + [PSTATE_LIST], [], st.events), OK)
    else if t == PSTATE_STRING then Appended(st, '[')
    else (st, Marge)
  }

  /** The token parser called on the token, returning `cb`. */
  function Called(st: JState): (events: seq<Event>)
  {
    st.events + [Token(st.token)]
  }

  /**
   * '}': in an object value the token is parsed, the value and its key
   * are popped and close_obj is called.
   */
  function OnCloseObj(st: JState, cb: Error): (r: (JState, Error))
    requires Nested(st.pstate)
    ensures |r.0.pstate| <= |st.pstate|
  {
    var s := st.pstate;
    var t := Top(s);
    if t == PSTATE_OBJECT_VAL then
      assert InPlace(s, |s| - 1);
      if cb != OK then (st.(events := Called(st)), cb)
      else (JState(s[..|s| - 2], [], Called(st) + [CloseObj]), OK)
    else if t == PSTATE_STRING then Appended(st, '}')
    else (st, Marge)
  }

  /** ']': in a list the token is parsed, the list is popped and close_list is called. */
  function OnCloseList(st: JState, cb: Error): (r: (JState, Error))
  {
    var s := st.pstate;
    var t := Top(s);
    if t == PSTATE_LIST then
      if cb != OK then (st.(events := Called(st)), cb)
      else (JState(s[..|s| - 1], [], Called(st) + [CloseList]), OK)
    else if t == PSTATE_STRING then Appended(st, ']')
    else (st, Marge)
  }

  /** '"': a string starts inside a key, a value or a list, and ends inside a string. */
  function OnQuote(st: JState): (r: (JState, Error))
  {
    var s := st.pstate;
    var t := Top(s);
    if t == PSTATE_OBJECT_KEY || t == PSTATE_OBJECT_VAL || t == PSTATE_LIST then
      (st.(pstate := s + [PSTATE_STRING]), OK)
    else if t == PSTATE_STRING then (st.(pstate := s[..|s| - 1]), OK)
    else (st, Marge)
  }

  /**
   * ',': in an object value the token is parsed, the value and its key
   * give way to a new key and close_val is called; in a list the token is
   * parsed and the list goes on.
   */
  function OnComma(st: JState, cb: Error): (r: (JState, Error))
    requires Nested(st.pstate)
    ensures |r.0.pstate| <= |st.pstate|
  {
    var s := st.pstate;
    var t := Top(s);
    if t == PSTATE_OBJECT_VAL then
      assert InPlace(s, |s| - 1);
      if cb != OK then (st.(events := Called(st)), cb)
      else (JState(s[..|s| - 2] + [PSTATE_OBJECT_KEY], [], Called(st) + [CloseVal]), OK)
    else if t == PSTATE_LIST then
      if cb != OK then (st.(events := Called(st)), cb)
      else (JState(s, [], Called(st)), OK)
    else if t == PSTATE_STRING then Appended(st, ',')
    else (st, Marge)
  }

  /** ':': after a key the token is parsed and a value state is pushed. */
  function OnColon(st: JState, cb: Error): (r: (JState, Error))
  {
    var s := st.pstate;
    var t := Top(s);
    if t == PSTATE_OBJECT_KEY then
      if cb != OK then (st.(events := Called(st)), cb)
      else (JState(s + [PSTATE_OBJECT_VAL], [], Called(st)), OK)
    else if t == PSTATE_STRING then Appended(st, ':')
    else (st, Marge)
  }

  /**
   * mjson_parse_c on one character `c`, with `cb` the value the token
   * parser returns when it is called: the new state and the return value.
   * A failing token parser stops the character after the call, with the
   * stack and token as they were.
   */
  function Step(st: JState, c: char, cb: Error): (r: (JState, Error))
    requires Nested(st.pstate)
    ensures |r.0.pstate| <= |st.pstate| + 1
    ensures |st.events| <= |r.0.events| && r.0.events[..|st.events|] == st.events
  {
    if IsSpace(c) then OnSpace(st, c)
    else if c == '{' then OnOpenObj(st)
    else if c == '}' then OnCloseObj(st, cb)
    else if c == '[' then OnOpenList(st)
    else if c == ']' then OnCloseList(st, cb)
    else if c == '"' then OnQuote(st)
    else if c == ',' then OnComma(st, cb)
    else if c == ':' then OnColon(st, cb)
    else Appended(st, c)
  }

  /** A prefix of a nested stack is nested. */
  lemma NestedPrefix(s: seq<nat>, n: nat)
    requires Nested(s) && n <= |s|
    ensures Nested(s[..n])
  {
    forall i | 0 <= i < n
      ensures InPlace(s[..n], i)
    {
      assert InPlace(s, i);
    }
  }

  /** Pushing a state that fits on top of a nested stack without a string on top keeps it nested. */
  lemma NestedPush(s: seq<nat>, p: nat)
    requires Nested(s) && Top(s) != PSTATE_STRING
    requires 1 <= p <= 4
    requires p == PSTATE_OBJECT_KEY || p == PSTATE_LIST ==>
      Top(s) == PSTATE_NONE || Top(s) == PSTATE_LIST || Top(s) == PSTATE_OBJECT_VAL
    requires p == PSTATE_OBJECT_VAL ==> Top(s) == PSTATE_OBJECT_KEY
    requires p == PSTATE_STRING ==> Top(s) != PSTATE_NONE
    ensures Nested(s + [p])
  {
    var s' := s + [p];
    forall i | 0 <= i < |s'|
      ensures InPlace(s', i)
    {
      if i < |s| {
        assert InPlace(s, i);
      } else if 0 < |s| {
        assert InPlace(s, |s| - 1);
      }
    }
  }

  /** '}' and ',' keep the stack nested: their two pops find a key below the value. */
  lemma CloseKeepsNested(st: JState, c: char, cb: Error)
    requires Nested(st.pstate) && (c == '}' || c == ',')
    ensures Nested(Step(st, c, cb).0.pstate)
  {
    var s := st.pstate;
    var t := Top(s);
    if 0 < |s| {
      assert InPlace(s, |s| - 1);
    }
    if t == PSTATE_OBJECT_VAL {
      assert InPlace(s, |s| - 2);
      NestedPrefix(s, |s| - 2);
      if c == ',' {
        if 2 < |s| {
          assert InPlace(s, |s| - 3);
        }
        NestedPush(s[..|s| - 2], PSTATE_OBJECT_KEY);
      }
    }
  }

  /** Every character other than '}' and ',' keeps the stack nested. */
  lemma OtherKeepsNested(st: JState, c: char, cb: Error)
    requires Nested(st.pstate) && c != '}' && c != ','
    ensures Nested(Step(st, c, cb).0.pstate)
  {
    var s := st.pstate;
    var t := Top(s);
    if 0 < |s| {
      assert InPlace(s, |s| - 1);
    }
    if c == ']' && t == PSTATE_LIST {
      NestedPrefix(s, |s| - 1);
    } else if c == '"' && t == PSTATE_STRING {
      NestedPrefix(s, |s| - 1);
    } else if Pushes(t, c) {
      var p := if c == '{' then PSTATE_OBJECT_KEY else if c == '[' then PSTATE_LIST
        else if c == '"' then PSTATE_STRING else PSTATE_OBJECT_VAL;
      NestedPush(s, p);
    }
  }

  /**
   * The parser only ever reaches nested stacks: every character keeps the
   * stack nested, so the two pops of '}' and ',' always find a key below
   * the value, as mparser_pstate_pop asserts, and the stack stays within
   * its array.
   */
  lemma StepNested(st: JState, c: char, cb: Error)
    requires Nested(st.pstate) && Room(st.pstate, c)
    ensures Nested(Step(st, c, cb).0.pstate) && |Step(st, c, cb).0.pstate| <= PSTATE_SZ_MAX
  {
    if c == '}' || c == ',' {
      CloseKeepsNested(st, c, cb);
    } else {
      OtherKeepsNested(st, c, cb);
      var s := st.pstate;
      if !Pushes(Top(s), c) && 0 < |s| {
        assert InPlace(s, |s| - 1);
      }
    }
  }

  /**
   * A character is rejected exactly when Invalid says so: the result is
   * MERROR_MARGE's value 1 with nothing changed. Any other character with
   * a token parser that succeeds returns MERROR_OK.
   */
  lemma StepRejects(st: JState, c: char, cb: Error)
    requires Nested(st.pstate) && Room(st.pstate, c)
    ensures Invalid(Top(st.pstate), c) ==> Step(st, c, cb) == (st, Marge)
    ensures !Invalid(Top(st.pstate), c) && cb == OK ==> Step(st, c, cb).1 == OK
    ensures !Invalid(Top(st.pstate), c) && cb != Marge ==> Step(st, c, cb).1 != Marge
  {
    if 0 < |st.pstate| {
      assert InPlace(st.pstate, |st.pstate| - 1);
    }
  }

  /**
   * Inside a string every character but the closing quote is appended to
   * the token as it is, and outside a string whitespace changes nothing.
   */
  lemma StringsVerbatim(st: JState, c: char, cb: Error)
    requires Nested(st.pstate) && Room(st.pstate, c)
    ensures Top(st.pstate) == PSTATE_STRING && c != '"' ==>
      Step(st, c, cb) == (st.(token := st.token + [c]), OK)
    ensures Top(st.pstate) != PSTATE_STRING && IsSpace(c) ==> Step(st, c, cb) == (st, OK)
  {
  }

  /**
   * The parser fed `cs` one character at a time until a character fails.
   * Each character pushes at most one state, so a document no longer
   * than the free room on the stack never runs out of it.
   */
  function Run(st: JState, cs: seq<char>, cb: Error): (r: (JState, Error))
    requires Nested(st.pstate) && |st.pstate| + |cs| <= PSTATE_SZ_MAX
    decreases |cs|
  {
    if cs == [] then (st, OK)
    else
      var (st', e) := Step(st, cs[0], cb);
      StepNested(st, cs[0], cb);
      if e != OK then (st', e) else Run(st', cs[1..], cb)
  }

  /**
   * One character that succeeds: `st'` is the state Step leaves, field by
   * field.
   */
  predicate StepsTo(st: JState, c: char, st': JState)
    requires Nested(st.pstate)
  {
    var (r, e) := Step(st, c, OK);
    e == OK && r.pstate == st'.pstate && r.token == st'.token && r.events == st'.events
  }

  /** Feeding the character at `i` when it succeeds, then the rest. */
  lemma RunCons(st: JState, cs: seq<char>, i: nat, st': JState)
    requires i < |cs| && Nested(st.pstate) && |st.pstate| + |cs| - i <= PSTATE_SZ_MAX
    requires StepsTo(st, cs[i], st')
    ensures Nested(st'.pstate) && |st'.pstate| + |cs| - (i + 1) <= PSTATE_SZ_MAX
    ensures Run(st, cs[i..], OK) == Run(st', cs[i + 1..], OK)
  {
    StepNested(st, cs[i], OK);
    assert Step(st, cs[i], OK).0 == st';
    assert cs[i..][0] == cs[i] && cs[i..][1..] == cs[i + 1..];
  }

  /** The states after the third, sixth, ninth and twelfth character of the object holding a list. */
  const LIST_DOC_3 := JState([PSTATE_OBJECT_KEY, PSTATE_STRING], "a", [OpenObj])
  const LIST_DOC_6 := JState([PSTATE_OBJECT_KEY, PSTATE_OBJECT_VAL, PSTATE_LIST], [], [OpenObj, Token("a")])
  const LIST_DOC_9 := JState([PSTATE_OBJECT_KEY, PSTATE_OBJECT_VAL, PSTATE_LIST], "b", [OpenObj, Token("a")])
  const LIST_DOC_12 := JState([PSTATE_OBJECT_KEY, PSTATE_OBJECT_VAL, PSTATE_LIST, PSTATE_STRING], "c", [OpenObj, Token("a"), Token("b")])

  /** Where the object holding a list ends: every callback made and the stack empty. */
  const LIST_DOC_END := JState([], [], [OpenObj, Token("a"), Token("b"), Token("c"), CloseList, Token([]), CloseObj])

  /** Characters 1 to 3 of the object holding a list. */
  lemma ListDocPart1(doc: seq<char>)
    requires doc == "{\"a\":[\"b\",\"c\"]}"
    ensures Nested(START.pstate) && |doc| <= PSTATE_SZ_MAX
    ensures Run(START, doc[0..], OK) == Run(LIST_DOC_3, doc[3..], OK)
  {
    var s1 := JState([PSTATE_OBJECT_KEY], [], [OpenObj]);
    RunCons(START, doc, 0, s1);
    var s2 := JState([PSTATE_OBJECT_KEY, PSTATE_STRING], [], [OpenObj]);
    RunCons(s1, doc, 1, s2);
    RunCons(s2, doc, 2, LIST_DOC_3);
  }

  /** Characters 4 to 6 of the object holding a list. */
  lemma ListDocPart2(doc: seq<char>)
    requires doc == "{\"a\":[\"b\",\"c\"]}"
    ensures Nested(LIST_DOC_3.pstate) && |LIST_DOC_3.pstate| + |doc| - 3 <= PSTATE_SZ_MAX
    ensures Run(LIST_DOC_3, doc[3..], OK) == Run(LIST_DOC_6, doc[6..], OK)
  {
    var s4 := JState([PSTATE_OBJECT_KEY], "a", [OpenObj]);
    RunCons(LIST_DOC_3, doc, 3, s4);
    var s5 := JState([PSTATE_OBJECT_KEY, PSTATE_OBJECT_VAL], [], [OpenObj, Token("a")]);
    RunCons(s4, doc, 4, s5);
    RunCons(s5, doc, 5, LIST_DOC_6);
  }

  /** Characters 7 to 9 of the object holding a list. */
  lemma ListDocPart3(doc: seq<char>)
    requires doc == "{\"a\":[\"b\",\"c\"]}"
    ensures Nested(LIST_DOC_6.pstate) && |LIST_DOC_6.pstate| + |doc| - 6 <= PSTATE_SZ_MAX
    ensures Run(LIST_DOC_6, doc[6..], OK) == Run(LIST_DOC_9, doc[9..], OK)
  {
    var s7 := JState([PSTATE_OBJECT_KEY, PSTATE_OBJECT_VAL, PSTATE_LIST, PSTATE_STRING], [], [OpenObj, Token("a")]);
    RunCons(LIST_DOC_6, doc, 6, s7);
    var s8 := JState([PSTATE_OBJECT_KEY, PSTATE_OBJECT_VAL, PSTATE_LIST, PSTATE_STRING], "b", [OpenObj, Token("a")]);
    RunCons(s7, doc, 7, s8);
    RunCons(s8, doc, 8, LIST_DOC_9);
  }

  /** Characters 10 to 12 of the object holding a list. */
  lemma ListDocPart4(doc: seq<char>)
    requires doc == "{\"a\":[\"b\",\"c\"]}"
    ensures Nested(LIST_DOC_9.pstate) && |LIST_DOC_9.pstate| + |doc| - 9 <= PSTATE_SZ_MAX
    ensures Run(LIST_DOC_9, doc[9..], OK) == Run(LIST_DOC_12, doc[12..], OK)
  {
    var s10 := JState([PSTATE_OBJECT_KEY, PSTATE_OBJECT_VAL, PSTATE_LIST], [], [OpenObj, Token("a"), Token("b")]);
    RunCons(LIST_DOC_9, doc, 9, s10);
    var s11 := JState([PSTATE_OBJECT_KEY, PSTATE_OBJECT_VAL, PSTATE_LIST, PSTATE_STRING], [], [OpenObj, Token("a"), Token("b")]);
    RunCons(s10, doc, 10, s11);
    RunCons(s11, doc, 11, LIST_DOC_12);
  }

  /** Characters 13 to 15 of the object holding a list. */
  lemma ListDocPart5(doc: seq<char>)
    requires doc == "{\"a\":[\"b\",\"c\"]}"
    ensures Nested(LIST_DOC_12.pstate) && |LIST_DOC_12.pstate| + |doc| - 12 <= PSTATE_SZ_MAX
    ensures Run(LIST_DOC_12, doc[12..], OK) == Run(LIST_DOC_END, doc[15..], OK)
  {
    var s13 := JState([PSTATE_OBJECT_KEY, PSTATE_OBJECT_VAL, PSTATE_LIST], "c", [OpenObj, Token("a"), Token("b")]);
    RunCons(LIST_DOC_12, doc, 12, s13);
    var s14 := JState([PSTATE_OBJECT_KEY, PSTATE_OBJECT_VAL], [], [OpenObj, Token("a"), Token("b"), Token("c"), CloseList]);
    RunCons(s13, doc, 13, s14);
    RunCons(s14, doc, 14, LIST_DOC_END);
  }

  /**
   * An object holding a list of two strings: the token parser sees the
   * key, then each list item, then the empty token left when the list
   * closes, and the stack is empty again at the end.
   */
  lemma ObjectWithList(doc: seq<char>)
    requires doc == "{\"a\":[\"b\",\"c\"]}"
    ensures var (r, e) := Run(START, doc, OK);
      && e == OK && r.pstate == [] && r.token == []
      && r.events == [OpenObj, Token("a"), Token("b"), Token("c"), CloseList, Token([]), CloseObj]
  {
    assert doc[0..] == doc;
    ListDocPart1(doc);
    ListDocPart2(doc);
    ListDocPart3(doc);
    ListDocPart4(doc);
    ListDocPart5(doc);
    assert doc[15..] == [];
  }

  /** struct MJSON_PARSER: the state stack, the token, the callbacks made and last_c. */
  class JsonParser {
    var pstate: seq<nat>
    var token: seq<char>
    var events: seq<Event>
    var lastC: char

    ghost predicate Valid()
      reads this
    {
      Nested(pstate) && |pstate| <= PSTATE_SZ_MAX
    }

    /** The parser state as Step sees it. */
    function State(): (st: JState)
      reads this
      ensures st.pstate == pstate && st.token == token && st.events == events
    {
      JState(pstate, token, events)
    }

    /** A zeroed parser: empty stack, empty token, no callbacks made. */
    constructor ()
      ensures Valid() && State() == START && lastC == '\0'
    {
      pstate := [];
      token := [];
      events := [];
      lastC := '\0';
    }

    /** mparser_pstate_push. */
    method Push(p: nat)
      requires |pstate| < PSTATE_SZ_MAX
      modifies this
      ensures pstate == old(pstate) + [p]
      ensures token == old(token) && events == old(events) && lastC == old(lastC)
    {
      pstate := pstate + [p];
    }

    /** mparser_pstate_pop. */
    method Pop()
      requires 0 < |pstate|
      modifies this
      ensures pstate == old(pstate)[..|old(pstate)| - 1]
      ensures token == old(token) && events == old(events) && lastC == old(lastC)
    {
      pstate := pstate[..|pstate| - 1];
    }

    /** mjson_parser_append_token. */
    method AppendToken(c: char)
      modifies this
      ensures (State(), OK) == Appended(old(State()), c)
      ensures lastC == old(lastC)
    {
      token := token + [c];
    }

    /** mjson_parser_parse_token: the token parser is called with the token and returns `cb`. */
    method ParseToken(cb: Error) returns (e: Error)
      modifies this
      ensures e == cb && events == Called(old(State()))
      ensures pstate == old(pstate) && token == old(token) && lastC == old(lastC)
    {
      events := events + [Token(token)];
      e := cb;
    }

    /** The '{' case of mjson_parse_c. */
    method ParseOpenObj() returns (e: Error)
      requires Valid() && Room(pstate, '{')
      modifies this
      ensures (State(), e) == OnOpenObj(old(State())) && lastC == old(lastC)
    {
      var t := Top(pstate);
      e := OK;
      if t == PSTATE_NONE || t == PSTATE_LIST || t == PSTATE_OBJECT_VAL {
        Push(PSTATE_OBJECT_KEY);
        token := [];
        events := events + [OpenObj];
      } else if t == PSTATE_STRING {
        AppendToken('{');
      } else {
        e := Marge;
      }
    }

    /** The '[' case of mjson_parse_c. */
    method ParseOpenList() returns (e: Error)
      requires Valid() && Room(pstate, '[')
      modifies this
      ensures (State(), e) == OnOpenList(old(State())) && lastC == old(lastC)
    {
      var t := Top(pstate);
      e := OK;
      if t == PSTATE_NONE || t == PSTATE_OBJECT_VAL || t == PSTATE_LIST {
        Push(PSTATE_LIST);
        token := [];
      } else if t == PSTATE_STRING {
        AppendToken('[');
      } else {
        e := Marge;
      }
    }

    /** The '}' case of mjson_parse_c. */
    method ParseCloseObj(cb: Error) returns (e: Error)
      requires Valid()
      modifies this
      ensures (State(), e) == OnCloseObj(old(State()), cb) && lastC == old(lastC)
    {
      var t := Top(pstate);
      e := OK;
      if t == PSTATE_OBJECT_VAL {
        assert InPlace(pstate, |pstate| - 1);
        ghost var s := pstate;
        e := ParseToken(cb);
        if e == OK {
          Pop();
          Pop();
          assert pstate == s[..|s| - 2];
          token := [];
          events := events + [CloseObj];
        }
      } else if t == PSTATE_STRING {
        AppendToken('}');
      } else {
        e := Marge;
      }
    }

    /** The ']' case of mjson_parse_c. */
    method ParseCloseList(cb: Error) returns (e: Error)
      modifies this
      ensures (State(), e) == OnCloseList(old(State()), cb) && lastC == old(lastC)
    {
      var t := Top(pstate);
      e := OK;
      if t == PSTATE_LIST {
        e := ParseToken(cb);
        if e == OK {
          Pop();
          token := [];
          events := events + [CloseList];
        }
      } else if t == PSTATE_STRING {
        AppendToken(']');
      } else {
        e := Marge;
      }
    }

    /** The '"' case of mjson_parse_c. */
    method ParseQuote() returns (e: Error)
      requires Valid() && Room(pstate, '"')
      modifies this
      ensures (State(), e) == OnQuote(old(State())) && lastC == old(lastC)
    {
      var t := Top(pstate);
      e := OK;
      if t == PSTATE_OBJECT_KEY || t == PSTATE_OBJECT_VAL || t == PSTATE_LIST {
        Push(PSTATE_STRING);
      } else if t == PSTATE_STRING {
        Pop();
      } else {
        e := Marge;
      }
    }

    /** The ',' case of mjson_parse_c. */
    method ParseComma(cb: Error) returns (e: Error)
      requires Valid() && |pstate| <= PSTATE_SZ_MAX
      modifies this
      ensures (State(), e) == OnComma(old(State()), cb) && lastC == old(lastC)
    {
      var t := Top(pstate);
      e := OK;
      if t == PSTATE_OBJECT_VAL {
        assert InPlace(pstate, |pstate| - 1);
        ghost var s := pstate;
        e := ParseToken(cb);
        if e == OK {
          Pop();
          Pop();
          assert pstate == s[..|s| - 2];
          Push(PSTATE_OBJECT_KEY);
          token := [];
          events := events + [CloseVal];
        }
      } else if t == PSTATE_LIST {
        e := ParseToken(cb);
        if e == OK {
          token := [];
        }
      } else if t == PSTATE_STRING {
        AppendToken(',');
      } else {
        e := Marge;
      }
    }

    /** The ':' case of mjson_parse_c. */
    method ParseColon(cb: Error) returns (e: Error)
      requires Room(pstate, ':')
      modifies this
      ensures (State(), e) == OnColon(old(State()), cb) && lastC == old(lastC)
    {
      var t := Top(pstate);
      e := OK;
      if t == PSTATE_OBJECT_KEY {
        e := ParseToken(cb);
        if e == OK {
          Push(PSTATE_OBJECT_VAL);
          token := [];
        }
      } else if t == PSTATE_STRING {
        AppendToken(':');
      } else {
        e := Marge;
      }
    }

    /**
     * mjson_parse_c: the state moves as Step says, the stack stays nested
     * and within its array, and last_c becomes `c` whatever happened.
     */
    method ParseC(c: char, cb: Error) returns (e: Error)
      requires Valid() && Room(pstate, c)
      modifies this
      ensures Valid() && lastC == c
      ensures (State(), e) == Step(old(State()), c, cb)
    {
      StepNested(State(), c, cb);
      if IsSpace(c) {
        e := OK;
        if Top(pstate) == PSTATE_STRING {
          AppendToken(c);
        }
      } else if c == '{' {
        e := ParseOpenObj();
      } else if c == '}' {
        e := ParseCloseObj(cb);
      } else if c == '[' {
        e := ParseOpenList();
      } else if c == ']' {
        e := ParseCloseList(cb);
      } else if c == '"' {
        e := ParseQuote();
      } else if c == ',' {
        e := ParseComma(cb);
      } else if c == ':' {
        e := ParseColon(cb);
      } else {
        AppendToken(c);
        e := OK;
      }
      lastC := c;
    }
  }
}
