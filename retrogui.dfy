/**
 * The portable control table of src/retrogui.h: controls are initialised
 * with retrogui_init_ctl, copied into the GUI's fixed table by
 * retrogui_push_ctl, found again by their IDC, and a listbox keeps its
 * items as NUL-separated text in a buffer that doubles as it fills. The
 * Windows branches (window handles, SendMessage) are not modelled.
 */
module RetroGui {
  import opened Maug

  /** RETROGUI_CTL_TYPE_NONE and RETROGUI_CTL_TYPE_LISTBOX. */
  const CTL_TYPE_NONE: nat := 0
  const CTL_TYPE_LISTBOX: nat := 1

  /** RETROFLAT_COLOR_NULL and the palette indices the listbox uses. */
  const COLOR_NULL: int := -1
  const COLOR_BLACK: int := 0
  const COLOR_WHITE: int := 15

  /** The size of the first listbox item buffer. */
  const LIST_SZ_INIT: nat := 255

  /** RETROGUI_CTL_SZ_MAX_INIT: the control slots retrogui_init sets up. */
  const CTL_SZ_MAX_INIT: nat := 10

  /**
   * sizeof( struct RETROGUI ) and sizeof( union RETROGUI_CTL ) in an LP64
   * build without window handles: five 8-byte members, and the LISTBOX
   * member (a 56-byte base and five 8-byte fields), the largest in the union.
   */
  const SIZEOF_GUI: nat := 40
  const SIZEOF_CTL: nat := 96

  /**
   * union RETROGUI_CTL: the base fields and the LISTBOX fields, which share
   * the union with every other control type. `list` is the part of the
   * item buffer in use (`list_sz` characters); `listSzMax` is its capacity.
   */
  datatype Ctl = Ctl(
    kind: nat, idc: nat, x: nat, y: nat, w: nat, h: nat, bg: int, fg: int,
    list: seq<char>, listSzMax: nat, selIdx: nat)

  /** A control whose item buffer is consistent: text in use fits its capacity. */
  predicate CtlValid(c: Ctl) {
    |c.list| > 0 ==> |c.list| < c.listSzMax
  }

  /**
   * retrogui_init_ctl: the control is zeroed, gets its type and IDC and
   * null colours; retrogui_init_LISTBOX then gives a listbox black on white.
   */
  function InitCtl(kind: nat, idc: nat): (c: Ctl)
    ensures c.kind == kind && c.idc == idc && c.list == [] && c.listSzMax == 0 && c.selIdx == 0
    ensures kind == CTL_TYPE_LISTBOX ==> c.fg == COLOR_BLACK && c.bg == COLOR_WHITE
    ensures kind != CTL_TYPE_LISTBOX ==> c.fg == COLOR_NULL && c.bg == COLOR_NULL
  {
    var base := Ctl(kind, idc, 0, 0, 0, 0, COLOR_NULL, COLOR_NULL, [], 0, 0);
    if kind == CTL_TYPE_LISTBOX then base.(fg := COLOR_BLACK, bg := COLOR_WHITE) else base
  }

  /** Whether retrogui_push_ctl stores the control: neither colour is null. */
  predicate Pushable(c: Ctl) {
    c.bg != COLOR_NULL && c.fg != COLOR_NULL
  }

  /**
   * The per-type push after the control is stored: retrogui_push_NONE
   * returns MERROR_GUI, retrogui_push_LISTBOX (without window handles)
   * MERROR_OK, and a type outside the table has no push at all.
   */
  function TypePush(kind: nat): (e: Error)
    ensures e == OK || e == Gui
    ensures e == Gui <==> kind == CTL_TYPE_NONE
  {
    if kind == CTL_TYPE_NONE then Gui else OK
  }

  /**
   * A freshly initialised control has the given type and IDC, no position,
   * size or items, and can be pushed exactly when it is a listbox: every
   * other type keeps its null colours until the caller sets them.
   */
  lemma InitCtlPushable(kind: nat, idc: nat)
    ensures var c := InitCtl(kind, idc);
      && c.kind == kind && c.idc == idc && c.x == 0 && c.y == 0 && c.w == 0 && c.h == 0
      && c.list == [] && CtlValid(c)
      && (Pushable(c) <==> kind == CTL_TYPE_LISTBOX)
      && (kind == CTL_TYPE_LISTBOX ==> c.fg == COLOR_BLACK && c.bg == COLOR_WHITE)
  {
  }

  /** The index of the first of `ctls[from..]` with IDC `idc`. */
  function FirstIdc(ctls: seq<Ctl>, idc: nat, from: nat): (r: Option<nat>)
    ensures r.Some? ==> from <= r.value < |ctls|
    decreases |ctls| - from
  {
    if from >= |ctls| then None
    else if ctls[from].idc == idc then Some(from)
    else FirstIdc(ctls, idc, from + 1)
  }

  /** FirstIdc finds the earliest control with the IDC, and None means there is none. */
  lemma {:induction false} FirstIdcMeaning(ctls: seq<Ctl>, idc: nat, from: nat)
    ensures var r := FirstIdc(ctls, idc, from);
      && (r.Some? ==>
            from <= r.value < |ctls| && ctls[r.value].idc == idc
            && forall j :: from <= j < r.value ==> ctls[j].idc != idc)
      && (r.None? ==> forall j :: from <= j < |ctls| ==> ctls[j].idc != idc)
    decreases |ctls| - from
  {
    if from < |ctls| && ctls[from].idc != idc {
      FirstIdcMeaning(ctls, idc, from + 1);
    }
  }

  /**
   * strncpy(dest, item, n): the characters of `item` up to its NUL, then
   * NULs, `n` characters in all.
   */
  function StrnCopy(item: seq<char>, n: nat): (r: seq<char>)
  {
    seq(n, i requires 0 <= i < n => if i < Strlen(item) then item[i] else '\0')
  }

  /** The item as a listbox stores it: exactly `itemSz` characters and a NUL. */
  function StoredItem(item: seq<char>, itemSz: nat): (r: seq<char>)
  {
    StrnCopy(item, itemSz) + ['\0']
  }

  /**
   * A stored item takes `itemSz + 1` characters, ends in its terminator,
   * and reads back as the item cut at `itemSz`: its text up to the first
   * NUL is the item's text when that is shorter than `itemSz`.
   */
  lemma StoredItemShape(item: seq<char>, itemSz: nat)
    ensures var s := StoredItem(item, itemSz);
      && |s| == itemSz + 1 && s[itemSz] == '\0'
      && (Strlen(item) <= itemSz ==> s[..Strlen(item)] == item[..Strlen(item)] && s[Strlen(item)] == '\0')
      && (itemSz < Strlen(item) ==> s[..itemSz] == item[..itemSz])
  {
  }

  /** The capacity after doubling `max` until it exceeds `need`. */
  function Grown(max: nat, need: nat): (r: nat)
    requires 0 < max
    decreases need + 1 - max
  {
    if max <= need then Grown(2 * max, need) else max
  }

  /**
   * The grown capacity exceeds what is needed, never shrinks, and is no
   * more than twice what is needed when it had to grow.
   */
  lemma {:induction false} GrownBounds(max: nat, need: nat)
    requires 0 < max
    ensures need < Grown(max, need) && max <= Grown(max, need)
    ensures max <= need ==> Grown(max, need) <= 2 * need
    ensures need < max ==> Grown(max, need) == max
    decreases need + 1 - max
  {
    if max <= need {
      GrownBounds(2 * max, need);
    }
  }

  /** The listbox after retrogui_push_listbox_item stores an item in it. */
  function WithItem(c: Ctl, item: seq<char>, itemSz: nat): (r: Ctl)
    requires CtlValid(c)
  {
    var max := if |c.list| == 0 then LIST_SZ_INIT else c.listSzMax;
    c.(list := c.list + StoredItem(item, itemSz), listSzMax := Grown(max, |c.list| + itemSz + 1))
  }

  /**
   * Storing an item keeps the earlier items, adds item_sz + 1 characters
   * and leaves a consistent buffer large enough for the text in use.
   */
  lemma WithItemGrows(c: Ctl, item: seq<char>, itemSz: nat)
    requires CtlValid(c)
    ensures var r := WithItem(c, item, itemSz);
      && CtlValid(r) && |r.list| == |c.list| + itemSz + 1 && r.list[..|c.list|] == c.list
      && r.list[|c.list|..] == StoredItem(item, itemSz)
      && |c.list| + itemSz + 1 < r.listSzMax
      && r.(list := c.list, listSzMax := c.listSzMax) == c
  {
    var max := if |c.list| == 0 then LIST_SZ_INIT else c.listSzMax;
    GrownBounds(max, |c.list| + itemSz + 1);
    var r := WithItem(c, item, itemSz);
    assert r.list[..|c.list|] == c.list;
  }

  /**
   * What retrogui_init leaves as written: the return value, whether the
   * table exists, ctls_sz_max and the bytes allocated for the table.
   */
  datatype InitState = InitState(retval: Error, hasTable: bool, ctlsSzMax: nat, tableBytes: nat)

  /**
   * retrogui_init as written: the table is RETROGUI_CTL_SZ_MAX_INIT times
   * sizeof( struct RETROGUI ) bytes, and the NULL test is on `gui`, which
   * is never NULL there, so a failed allocation still returns MERROR_OK.
   */
  function InitAsWritten(allocOk: bool): (r: InitState)
    ensures r.retval == OK && r.ctlsSzMax == CTL_SZ_MAX_INIT
    ensures r.hasTable <==> allocOk
  {
    InitState(OK, allocOk, CTL_SZ_MAX_INIT, if allocOk then CTL_SZ_MAX_INIT * SIZEOF_GUI else 0)
  }

  /**
   * The table retrogui_init allocates holds only 4 controls while
   * ctls_sz_max says 10: the fifth push, which retrogui_push_ctl's
   * assertion lets through (4 + 1 < 10), writes past the allocation.
   */
  lemma InitAsWrittenTableTooSmall()
    ensures var s := InitAsWritten(true);
      && s.tableBytes / SIZEOF_CTL == 4 < s.ctlsSzMax
      && 4 + 1 < s.ctlsSzMax && s.tableBytes < (4 + 1) * SIZEOF_CTL
  {
  }

  /** As written, a failed allocation of the table returns MERROR_OK with no table. */
  lemma InitAsWrittenMissesAllocFailure()
    ensures InitAsWritten(false).retval == OK && !InitAsWritten(false).hasTable
  {
  }

  /**
   * The control retrogui_push_listbox_item's cleanup reads
   * `ctl->LISTBOX.list` through, as written: None (a NULL `ctl`) when
   * locking the table failed or no control has the IDC, since both jump to
   * cleanup before `ctl` is set.
   */
  function CleanupCtlAsWritten(lockOk: bool, ctls: seq<Ctl>, idc: nat): (r: Option<nat>)
    ensures r.Some? ==> lockOk && r.value < |ctls| && ctls[r.value].idc == idc
  {
    if !lockOk then None else
      FirstIdcMeaning(ctls, idc, 0);
      FirstIdc(ctls, idc, 0)
  }

  /**
   * As written, a missing IDC or a failed lock sends the cleanup through
   * a NULL control pointer.
   */
  lemma {:induction false} PushListboxItemAsWrittenReadsNull(ctls: seq<Ctl>, idc: nat)
    ensures (forall j :: 0 <= j < |ctls| ==> ctls[j].idc != idc) ==> CleanupCtlAsWritten(true, ctls, idc).None?
    ensures CleanupCtlAsWritten(false, ctls, idc).None?
  {
    FirstIdcMeaning(ctls, idc, 0);
  }

  /** struct RETROGUI: the control table `ctls` with ctls_sz entries in use. */
  class Gui {
    const ctls: array<Ctl>
    var ctlsSz: nat

    ghost predicate Valid()
      reads this, ctls
    {
      ctlsSz <= ctls.Length && forall i :: 0 <= i < ctlsSz ==> CtlValid(ctls[i])
    }

    /** An empty table of `capacity` control slots. */
    constructor (capacity: nat)
      ensures Valid() && ctlsSz == 0 && ctls.Length == capacity && fresh(ctls)
    {
      ctls := new Ctl[capacity](_ => InitCtl(CTL_TYPE_NONE, 0));
      ctlsSz := 0;
    }

    /**
     * retrogui_init, corrected: room for RETROGUI_CTL_SZ_MAX_INIT controls,
     * and MERROR_ALLOC with no GUI when the table cannot be allocated.
     */
    static method Init(allocOk: bool) returns (e: Error, g: Gui?)
      ensures e == OK <==> allocOk
      ensures e != OK ==> e == Alloc && g == null
      ensures e == OK ==>
        && g != null && fresh(g) && fresh(g.ctls) && g.Valid()
        && g.ctlsSz == 0 && g.ctls.Length == CTL_SZ_MAX_INIT
    {
      if !allocOk {
        return Alloc, null;
      }
      g := new Gui(CTL_SZ_MAX_INIT);
      e := OK;
    }

    /**
     * retrogui_get_ctl_by_idc: the slot of the first control in use with
     * IDC `idc`, or None (NULL).
     */
    method GetCtlByIdc(idc: nat) returns (r: Option<nat>)
      requires ctlsSz <= ctls.Length
      ensures r == FirstIdc(ctls[..ctlsSz], idc, 0)
      ensures r.Some? ==> r.value < ctlsSz && ctls[r.value].idc == idc
      ensures r.None? ==> forall j :: 0 <= j < ctlsSz ==> ctls[j].idc != idc
    {
      var i := 0;
      while i < ctlsSz
        invariant i <= ctlsSz
        invariant FirstIdc(ctls[..ctlsSz], idc, 0) == FirstIdc(ctls[..ctlsSz], idc, i)
      {
        if ctls[i].idc == idc {
          FirstIdcMeaning(ctls[..ctlsSz], idc, 0);
          return Some(i);
        }
        i := i + 1;
      }
      FirstIdcMeaning(ctls[..ctlsSz], idc, 0);
      r := None;
    }

    /**
     * retrogui_push_ctl: a control with a null background or foreground is
     * refused with MERROR_GUI and nothing is stored; otherwise it is copied
     * into slot ctls_sz, ctls_sz grows by one, and the result is that of
     * the push for its type, so a NONE control is stored and still yields
     * MERROR_GUI. The table does not grow, so the source asserts a free
     * slot beyond the new one.
     */
    method PushCtl(ctl: Ctl) returns (e: Error)
      requires Valid() && CtlValid(ctl)
      requires ctlsSz + 1 < ctls.Length
      modifies this, ctls
      ensures Valid()
      ensures e == OK <==> Pushable(ctl) && ctl.kind != CTL_TYPE_NONE
      ensures e == OK || e == Gui
      ensures !Pushable(ctl) ==> ctlsSz == old(ctlsSz) && ctls[..] == old(ctls[..])
      ensures Pushable(ctl) ==> ctlsSz == old(ctlsSz) + 1 && ctls[..] == old(ctls[..])[old(ctlsSz) := ctl]
    {
      if ctl.bg == COLOR_NULL {
        return Gui;
      }
      if ctl.fg == COLOR_NULL {
        return Gui;
      }
      ctls[ctlsSz] := ctl;
      ctlsSz := ctlsSz + 1;
      e := TypePush(ctl.kind);
    }

    /**
     * retrogui_push_listbox_item: MERROR_GUI when no control has the IDC;
     * otherwise that control's item buffer receives the item, as WithItem
     * states, and no other control changes.
     */
    method PushListboxItem(idc: nat, item: seq<char>, itemSz: nat) returns (e: Error)
      requires Valid()
      modifies ctls
      ensures Valid()
      ensures var k := FirstIdc(old(ctls[..ctlsSz]), idc, 0);
        && (e == OK <==> k.Some?)
        && (k.None? ==> e == Gui && ctls[..] == old(ctls[..]))
        && (k.Some? ==> ctls[..] == old(ctls[..])[k.value := WithItem(old(ctls[k.value]), item, itemSz)])
    {
      var k := GetCtlByIdc(idc);
      if k.None? {
        return Gui;
      }
      var i := k.value;
      var c := ctls[i];
      var list := c.list;
      var max := c.listSzMax;
      if |list| == 0 {
        max := LIST_SZ_INIT;
      }
      while |list| + itemSz + 1 >= max
        invariant 0 < max
        invariant Grown(max, |list| + itemSz + 1) == Grown(if |c.list| == 0 then LIST_SZ_INIT else c.listSzMax, |list| + itemSz + 1)
        decreases |list| + itemSz + 1 - max
      {
        max := max * 2;
      }
      assert max == Grown(if |c.list| == 0 then LIST_SZ_INIT else c.listSzMax, |list| + itemSz + 1);
      list := list + StrnCopy(item, itemSz) + ['\0'];
      assert c.(list := list, listSzMax := max) == WithItem(c, item, itemSz);
      ctls[i] := c.(list := list, listSzMax := max);
      WithItemGrows(c, item, itemSz);
      e := OK;
    }
  }
}
