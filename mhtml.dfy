/**
 * The tag tree of src/mhtml.h: the parser appends tags to one table and
 * links each new tag in as the last child of the current tag (tag_iter),
 * which it then becomes; popping moves tag_iter back to the parent.
 * Element names and attribute names are looked up in fixed tables, a
 * STYLE element only flags the text tag that follows, and text tags lose
 * their trailing spaces. The character-level state machine, the CSS
 * parser and the token buffer's own macros are not part of this model: a
 * token arrives here as the characters it holds, and element and
 * attribute names are upper-cased as maug_str_upper does before lookup.
 */
module MHtml {
  import opened Maug
  import opened LinkTree
  import MString

  /** MHTML_TAG_FLAG_STYLE: the next text tag holds CSS. */
  const TAG_FLAG_STYLE: bv8 := 0x02

  /** gc_mhtml_tag_names: MHTML_TAG_TABLE's names, indexed by tag type. */
  const TAG_NAMES: seq<string> :=
    ["NONE", "BODY", "DIV", "HEAD", "HTML", "TEXT", "TITLE", "SPAN", "BR", "STYLE", "IMG", "INPUT"]

  /** MHTML_TAG_TYPE_BODY, MHTML_TAG_TYPE_TEXT and MHTML_TAG_TYPE_STYLE. */
  const TAG_TYPE_BODY: nat := 1
  const TAG_TYPE_TEXT: nat := 5
  const TAG_TYPE_STYLE: nat := 9

  /** gc_mhtml_attrib_names: MHTML_ATTRIB_TABLE's names, indexed by attribute key. */
  const ATTRIB_NAMES: seq<string> := ["NONE", "STYLE", "CLASS", "ID", "NAME", "SRC", "TYPE", "VALUE"]

  /**
   * union MHTML_TAG, as far as the tree needs it: the type, flags, links,
   * explicit style index, and the text of a TEXT tag. Class, id and the
   * per-type attribute buffers are not modelled.
   */
  datatype Tag = Tag(kind: nat, flags: bv8, link: Link, style: int, content: seq<char>)

  /** The links of every tag, in table order. */
  function LinksOf(tags: seq<Tag>): (ls: seq<Link>)
    ensures |ls| == |tags| && forall i :: 0 <= i < |tags| ==> ls[i] == tags[i].link
  {
    seq(|tags|, i requires 0 <= i < |tags| => tags[i].link)
  }

  /**
   * `b` holds the tags of `a`, perhaps followed by more, and differs from
   * them only in their child and sibling links.
   */
  predicate KeepsAllButLinks(a: seq<Tag>, b: seq<Tag>) {
    && |a| <= |b|
    && forall i :: 0 <= i < |a| ==>
         b[i].(link := a[i].link) == a[i] && b[i].link.parent == a[i].link.parent
  }

  /** A tag table whose links point forward and whose parents are tags or -1. */
  predicate TableValid(tags: seq<Tag>) {
    && Forward(LinksOf(tags))
    && forall i :: 0 <= i < |tags| ==> -1 <= tags[i].link.parent
  }

  /** The tag mhtml_push_tag appends under `parent`, carrying `flags`. */
  function NewTag(parent: int, flags: bv8): (t: Tag)
    ensures t.link == Link(parent, -1, -1) && t.kind == 0 && t.style == -1 && t.content == []
  {
    Tag(0, flags, Link(parent, -1, -1), -1, [])
  }

  /** Appending a tag whose parent is a tag or -1 keeps the other tags as they were. */
  lemma AppendKeeps(tags: seq<Tag>, t: Tag)
    requires forall i :: 0 <= i < |tags| ==> -1 <= tags[i].link.parent
    requires -1 <= t.link.parent
    ensures LinksOf(tags + [t]) == LinksOf(tags) + [t.link]
    ensures KeepsAllButLinks(tags, tags + [t])
    ensures forall i :: 0 <= i < |tags| + 1 ==> -1 <= (tags + [t])[i].link.parent
  {
  }

  /** Pushing a root tag is AddChild with no parent. */
  lemma PushedRoot(tags: seq<Tag>, flags: bv8)
    requires TableValid(tags)
    ensures var r := tags + [NewTag(-1, flags)];
      TableValid(r) && LinksOf(r) == AddChild(LinksOf(tags), -1) && KeepsAllButLinks(tags, r)
  {
    AppendKeeps(tags, NewTag(-1, flags));
    AddChildAppends(LinksOf(tags), -1);
  }

  /** Pushing the first child of tag `p` is AddChild under `p`. */
  lemma PushedFirstChild(tags: seq<Tag>, p: nat, flags: bv8)
    requires TableValid(tags) && p < |tags| && tags[p].link.firstChild < 0
    ensures var r := tags[p := tags[p].(link := tags[p].link.(firstChild := |tags|))] + [NewTag(p, flags)];
      TableValid(r) && LinksOf(r) == AddChild(LinksOf(tags), p) && KeepsAllButLinks(tags, r)
  {
    var linked := tags[p := tags[p].(link := tags[p].link.(firstChild := |tags|))];
    assert LinksOf(linked) == LinksOf(tags)[p := linked[p].link];
    assert KeepsAllButLinks(tags, linked);
    AppendKeeps(linked, NewTag(p, flags));
    AddChildAppends(LinksOf(tags), p);
  }

  /** Pushing a later child of tag `p` after its last child `last` is AddChild under `p`. */
  lemma PushedLaterChild(tags: seq<Tag>, p: nat, last: nat, flags: bv8)
    requires TableValid(tags) && p < |tags| && 0 <= tags[p].link.firstChild
    requires last == LastSibling(LinksOf(tags), tags[p].link.firstChild)
    ensures var r := tags[last := tags[last].(link := tags[last].link.(nextSibling := |tags|))] + [NewTag(p, flags)];
      TableValid(r) && LinksOf(r) == AddChild(LinksOf(tags), p) && KeepsAllButLinks(tags, r)
  {
    var linked := tags[last := tags[last].(link := tags[last].link.(nextSibling := |tags|))];
    assert LinksOf(linked) == LinksOf(tags)[last := linked[last].link];
    assert KeepsAllButLinks(tags, linked);
    AppendKeeps(linked, NewTag(p, flags));
    AddChildAppends(LinksOf(tags), p);
  }

  /** The index of the first name in `names` equal to `token`. */
  function IndexOf(names: seq<string>, token: string, from: nat): (r: Option<nat>)
    ensures r.Some? ==> from <= r.value < |names| && names[r.value] == token
    decreases |names| - from
  {
    if |names| <= from then None
    else if names[from] == token then Some(from)
    else IndexOf(names, token, from + 1)
  }

  /** IndexOf finds the first match, and None means no name from `from` on matches. */
  lemma {:induction false} IndexOfFirst(names: seq<string>, token: string, from: nat)
    ensures var r := IndexOf(names, token, from);
      && (r.Some? ==> forall j :: from <= j < r.value ==> names[j] != token)
      && (r.None? ==> forall j :: from <= j < |names| ==> names[j] != token)
    decreases |names| - from
  {
    if from < |names| && names[from] != token {
      IndexOfFirst(names, token, from + 1);
    }
  }

  /**
   * The lookup loops of mhtml_push_element_tag and mhtml_push_attrib_key:
   * a name matches when it has the token's length and the same characters.
   */
  method LookupName(names: seq<string>, token: string) returns (r: Option<nat>)
    ensures r == IndexOf(names, token, 0)
    ensures r.Some? ==> r.value < |names| && names[r.value] == token
    ensures r.None? ==> token !in names
  {
    IndexOfFirst(names, token, 0);
    var i := 0;
    while i < |names|
      invariant i <= |names|
      invariant IndexOf(names, token, i) == IndexOf(names, token, 0)
    {
      if |names[i]| == |token| && names[i] == token {
        return Some(i);
      }
      i := i + 1;
    }
    r := None;
  }

  /** A token as the lookups see it: upper-cased in place by mparser_token_upper. */
  function TokenUpper(token: string): (u: string)
    ensures |u| == |token|
    ensures forall i :: 0 <= i < |token| ==> u[i] == MString.UpperChar(token[i])
  {
    MString.Upper(token, |token|)
  }

  /**
   * Tag types and attribute keys are the names' positions; the table
   * lookup itself is case-sensitive, and the upper-casing before it makes
   * lower-case element and attribute names match.
   */
  lemma TagTypes()
    ensures IndexOf(TAG_NAMES, "BODY", 0) == Some(TAG_TYPE_BODY)
    ensures IndexOf(TAG_NAMES, "TEXT", 0) == Some(TAG_TYPE_TEXT)
    ensures IndexOf(TAG_NAMES, "STYLE", 0) == Some(TAG_TYPE_STYLE)
    ensures IndexOf(TAG_NAMES, "body", 0) == None
    ensures IndexOf(ATTRIB_NAMES, "CLASS", 0) == Some(2)
    ensures TokenUpper("body") == "BODY" && TokenUpper("Style") == "STYLE" && TokenUpper("class") == "CLASS"
  {
    assert TokenUpper("body") == "BODY";
    assert TokenUpper("Style") == "STYLE";
    assert TokenUpper("class") == "CLASS";
  }

  /** The length of `token` once its trailing spaces are dropped. */
  function TrimmedLength(token: seq<char>): (n: nat)
    ensures n <= |token|
  {
    if |token| == 0 || token[|token| - 1] != ' ' then |token|
    else TrimmedLength(token[..|token| - 1])
  }

  /**
   * Trimming drops only spaces, stops at a character that is not a space,
   * and keeps a token that has one.
   */
  lemma {:induction false} TrimmedLengthMeaning(token: seq<char>)
    ensures var n := TrimmedLength(token);
      && (forall i :: n <= i < |token| ==> token[i] == ' ')
      && (n == 0 || token[n - 1] != ' ')
      && ((exists i :: 0 <= i < |token| && token[i] != ' ') ==> 0 < n)
    decreases |token|
  {
    if 0 < |token| && token[|token| - 1] == ' ' {
      var t := token[..|token| - 1];
      TrimmedLengthMeaning(t);
      var n := TrimmedLength(token);
      assert forall i :: n <= i < |t| ==> token[i] == t[i];
      if exists i :: 0 <= i < |token| && token[i] != ' ' {
        var i :| 0 <= i < |token| && token[i] != ' ';
        assert t[i] != ' ';
      }
    }
  }

  /**
   * The loop of mhtml_push_text_tag that drops trailing spaces. It reads
   * the character before the end without checking for an empty token, so
   * it needs a token with a character other than a space, which the
   * parser's handling of spaces guarantees.
   */
  method TrimTrailingSpaces(token: seq<char>) returns (n: nat)
    requires exists i :: 0 <= i < |token| && token[i] != ' '
    ensures n == TrimmedLength(token) && 0 < n
  {
    TrimmedLengthMeaning(token);
    n := |token|;
    assert token[..n] == token;
    while token[n - 1] == ' '
      invariant TrimmedLength(token) <= n <= |token| && 0 < n
      invariant TrimmedLength(token[..n]) == TrimmedLength(token)
      decreases n
    {
      assert token[..n - 1] == token[..n][..n - 1];
      n := n - 1;
      if n == TrimmedLength(token) {
        assert token[..n][n - 1] == token[n - 1];
        break;
      }
    }
    assert n == |token[..n]|;
  }

  /** struct MHTML_PARSER without its character-level state and CSS parser. */
  class HtmlParser {
    var tags: seq<Tag>
    var tagIter: int
    var tagFlags: bv8
    var bodyIdx: int
    var attribKey: nat

    /**
     * The tag table links forward, every parent is a tag or -1, and
     * tag_iter and body_idx are tags or -1.
     */
    ghost predicate Valid()
      reads this
    {
      && TableValid(tags)
      && -1 <= tagIter < |tags| && -1 <= bodyIdx < |tags|
    }

    /** mhtml_parser_init on a zeroed parser: no tags, no current tag and no body. */
    constructor ()
      ensures Valid() && tags == [] && tagIter == -1 && bodyIdx == -1 && tagFlags == 0 && attribKey == 0
    {
      tags := [];
      tagIter := -1;
      bodyIdx := -1;
      tagFlags := 0;
      attribKey := 0;
    }

    /** mhtml_pop_tag: tag_iter moves to the current tag's parent, or -1 at a root. */
    method PopTag() returns (e: Error)
      requires Valid() && 0 <= tagIter
      modifies this
      ensures Valid() && e == OK
      ensures tagIter == old(tags[tagIter].link.parent)
      ensures tags == old(tags) && tagFlags == old(tagFlags) && bodyIdx == old(bodyIdx)
      ensures attribKey == old(attribKey)
    {
      tagIter := tags[tagIter].link.parent;
      e := OK;
    }

    /**
     * mhtml_push_tag: a new tag with no parent, children, siblings or
     * style, carrying the pending tag flags (which are then cleared), is
     * appended. Without a current tag it becomes current as a root;
     * otherwise it is linked in as the last child of the current tag and
     * becomes current. Only its links change in the other tags.
     */
    method PushTag() returns (e: Error)
      requires Valid()
      modifies this
      ensures Valid() && e == OK
      ensures |tags| == |old(tags)| + 1 && tagIter == |old(tags)|
      ensures var parent := if old(tagIter) < 0 then -1 else old(tagIter);
        && LinksOf(tags) == AddChild(LinksOf(old(tags)), parent)
        && tags[|old(tags)|] == NewTag(parent, old(tagFlags))
        && tags[tagIter].link.parent == parent
      ensures KeepsAllButLinks(old(tags), tags)
      ensures tagFlags == 0 && bodyIdx == old(bodyIdx) && attribKey == old(attribKey)
    {
      var n := |tags|;
      var flags := tagFlags;
      tagFlags := 0;
      if tagIter < 0 {
        PushedRoot(tags, flags);
        tags := tags + [NewTag(-1, flags)];
      } else {
        var p := tagIter;
        if tags[p].link.firstChild < 0 {
          PushedFirstChild(tags, p, flags);
          tags := tags[p := tags[p].(link := tags[p].link.(firstChild := n))] + [NewTag(p, flags)];
        } else {
          var last := LastChild(tags[p].link.firstChild);
          PushedLaterChild(tags, p, last, flags);
          tags := tags[last := tags[last].(link := tags[last].link.(nextSibling := n))] + [NewTag(p, flags)];
        }
      }
      tagIter := n;
      e := OK;
    }

    /**
     * The walk of mhtml_push_tag along next_sibling from the current tag's
     * first child to its last child.
     */
    method LastChild(first: nat) returns (last: nat)
      requires Valid() && first < |tags|
      ensures last == LastSibling(LinksOf(tags), first)
    {
      ghost var ls := LinksOf(tags);
      last := first;
      while tags[last].link.nextSibling >= 0
        invariant first <= last < |tags| && LastSibling(ls, last) == LastSibling(ls, first)
        decreases |tags| - last
      {
        last := tags[last].link.nextSibling;
      }
    }

    /**
     * mhtml_push_element_tag with the upper-cased token: STYLE sets the
     * STYLE flag for the next tag and pushes nothing; any other token
     * pushes a tag whose type is the matching name's index (NONE when no
     * name matches), and a BODY tag's index is recorded as body_idx.
     */
    method PushElementTag(token: string) returns (e: Error)
      requires Valid()
      modifies this
      ensures Valid() && e == OK
      ensures var u := TokenUpper(token);
        u == "STYLE" ==>
          tags == old(tags) && tagIter == old(tagIter) && bodyIdx == old(bodyIdx)
          && tagFlags == old(tagFlags) | TAG_FLAG_STYLE
      ensures var u := TokenUpper(token);
        u != "STYLE" ==>
          && |tags| == |old(tags)| + 1 && tagIter == |old(tags)| && tagFlags == 0
          && tags[tagIter].kind == (match IndexOf(TAG_NAMES, u, 0) case Some(k) => k case None => 0)
          && tags[tagIter].flags == old(tagFlags)
          && (bodyIdx == tagIter <==> u == "BODY")
          && (u != "BODY" ==> bodyIdx == old(bodyIdx))
      ensures attribKey == old(attribKey)
    {
      var token := TokenUpper(token);
      if token == "STYLE" {
        tagFlags := tagFlags | TAG_FLAG_STYLE;
        return OK;
      }
      e := PushTag();
      ghost var pushed := tags;
      var k := LookupName(TAG_NAMES, token);
      if k.Some? {
        tags := tags[tagIter := tags[tagIter].(kind := k.value)];
        if k.value == TAG_TYPE_BODY {
          bodyIdx := tagIter;
        }
      }
      assert LinksOf(tags) == LinksOf(pushed);
    }

    /**
     * mhtml_push_text_tag: a tag is pushed; it is a STYLE tag when the STYLE
     * flag was pending, whose text goes to the CSS parser, and a TEXT tag
     * otherwise, holding the token without its trailing spaces.
     */
    method PushTextTag(token: seq<char>) returns (e: Error)
      requires Valid() && exists i :: 0 <= i < |token| && token[i] != ' '
      modifies this
      ensures Valid() && e == OK
      ensures |tags| == |old(tags)| + 1 && tagIter == |old(tags)| && tagFlags == 0
      ensures old(tagFlags) & TAG_FLAG_STYLE == TAG_FLAG_STYLE ==> tags[tagIter].kind == TAG_TYPE_STYLE
      ensures old(tagFlags) & TAG_FLAG_STYLE != TAG_FLAG_STYLE ==>
        tags[tagIter].kind == TAG_TYPE_TEXT && tags[tagIter].content == token[..TrimmedLength(token)]
      ensures bodyIdx == old(bodyIdx) && attribKey == old(attribKey)
    {
      e := PushTag();
      var t := tags[tagIter];
      if t.flags & TAG_FLAG_STYLE == TAG_FLAG_STYLE {
        t := t.(kind := TAG_TYPE_STYLE);
      } else {
        var n := TrimTrailingSpaces(token);
        t := t.(kind := TAG_TYPE_TEXT, content := token[..n]);
      }
      ghost var before := tags;
      tags := tags[tagIter := t];
      assert LinksOf(tags) == LinksOf(before);
    }

    /**
     * mhtml_push_attrib_key with the upper-cased token: attrib_key becomes
     * the matching attribute's index; an unknown name leaves it unchanged.
     */
    method PushAttribKey(token: string) returns (e: Error)
      requires Valid()
      modifies this
      ensures Valid() && e == OK
      ensures var k := IndexOf(ATTRIB_NAMES, TokenUpper(token), 0);
        && (k.Some? ==> attribKey == k.value)
        && (k.None? ==> attribKey == old(attribKey))
      ensures tags == old(tags) && tagIter == old(tagIter) && tagFlags == old(tagFlags) && bodyIdx == old(bodyIdx)
    {
      var token := TokenUpper(token);
      var k := LookupName(ATTRIB_NAMES, token);
      if k.Some? {
        attribKey := k.value;
      }
      e := OK;
    }
  }
}
