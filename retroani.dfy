/**
 * The animation stack of src/retroani.h: animations live in a vector of
 * struct RETROANI; create appends one, pause and resume set or clear the
 * PAUSED flag on every animation that carries a given set of flags,
 * set_colors fills an animation's palette and stop zeroes its entry. The
 * vector is modelled as a sequence field; its locking is not modelled.
 */
module RetroAni {
  import opened Maug

  /** RETROANI_FLAG_INIT, RETROANI_FLAG_CLEANUP and RETROANI_FLAG_PAUSED. */
  const FLAG_INIT: bv16 := 0x0002
  const FLAG_CLEANUP: bv16 := 0x0004
  const FLAG_PAUSED: bv16 := 0x0008

  /** `~RETROANI_FLAG_PAUSED` as a 16-bit mask. */
  const NOT_PAUSED: bv16 := 0xFFF7

  /** RETROANI_DEFAUL_MSPF: milliseconds per frame of a new animation. */
  const DEFAULT_MSPF: nat := 100

  /** RETROANI_TILE_SZ: RETROFLAT_TILE_W * RETROFLAT_TILE_H. */
  const TILE_SZ: nat := 16 * 16

  /** RETROANI_COLOR_CT_MAX. */
  const COLOR_CT_MAX: nat := 4

  /** The RETROANI_TYPE_ values of RETROANI_CB_TABLE that create treats specially. */
  const TYPE_FIRE: nat := 2
  const TYPE_SNOW: nat := 3
  const TYPE_STRING: nat := 6

  /** The RETROFLAT_COLOR indices create uses. */
  const COLOR_BLACK: int := 0
  const COLOR_RED: int := 12
  const COLOR_YELLOW: int := 14
  const COLOR_WHITE: int := 15

  /** struct RETROANI_HOLE. */
  datatype Hole = Hole(x: int, y: int, w: int, h: int)

  /**
   * struct RETROANI without its font and drawing target. A colour slot that
   * create leaves uninitialised is None.
   */
  datatype Ani = Ani(
    kind: nat, x: int, y: int, w: int, h: int, flags: bv16,
    tile: seq<int>, targetSet: bool, nextFrameMs: nat, mspf: nat,
    hole: Hole, colors: seq<Option<int>>)

  /**
   * The animation retroani_create appends: exactly the flags, type,
   * position and size it was created with, a blank tile and no hole, the
   * default frame rate and no target. FIRE starts red, yellow, white; SNOW
   * white; STRING black; the other slots are left unset.
   */
  function NewAni(kind: nat, flags: bv16, x: int, y: int, w: int, h: int): (a: Ani)
    ensures a.kind == kind && a.flags == flags && a.x == x && a.y == y && a.w == w && a.h == h
    ensures |a.tile| == TILE_SZ && forall i :: 0 <= i < |a.tile| ==> a.tile[i] == 0
    ensures a.mspf == DEFAULT_MSPF && a.nextFrameMs == 0 && !a.targetSet && a.hole == Hole(0, 0, 0, 0)
    ensures |a.colors| == COLOR_CT_MAX && a.colors[3].None?
    ensures kind == TYPE_FIRE <==> a.colors[1] == Some(COLOR_YELLOW)
    ensures kind == TYPE_FIRE ==> a.colors[0] == Some(COLOR_RED) && a.colors[2] == Some(COLOR_WHITE)
    ensures kind == TYPE_SNOW ==> a.colors[0] == Some(COLOR_WHITE) && a.colors[1].None?
    ensures kind == TYPE_STRING ==> a.colors[0] == Some(COLOR_BLACK) && a.colors[1].None?
    ensures kind !in {TYPE_FIRE, TYPE_SNOW, TYPE_STRING} <==> a.colors[0].None?
  {
    var colors :=
      if kind == TYPE_FIRE then [Some(COLOR_RED), Some(COLOR_YELLOW), Some(COLOR_WHITE), None]
      else if kind == TYPE_SNOW then [Some(COLOR_WHITE), None, None, None]
      else if kind == TYPE_STRING then [Some(COLOR_BLACK), None, None, None]
      else [None, None, None, None];
    Ani(kind, x, y, w, h, flags, seq(TILE_SZ, _ => 0), false, 0, DEFAULT_MSPF, Hole(0, 0, 0, 0), colors)
  }

  /** What maug_mzero leaves in an entry that retroani_stop cleared. */
  function Zeroed(): (a: Ani)
  {
    Ani(0, 0, 0, 0, 0, 0, seq(TILE_SZ, _ => 0), false, 0, 0, Hole(0, 0, 0, 0), seq(COLOR_CT_MAX, _ => Some(0)))
  }

  /** `flags == (ani->flags & flags)`: the animation carries every flag asked for. */
  predicate Matches(aniFlags: bv16, flags: bv16) {
    flags == aniFlags & flags
  }

  /** `flags | RETROANI_FLAG_PAUSED`. */
  function SetPaused(f: bv16): bv16 {
    f | FLAG_PAUSED
  }

  /** `flags & ~RETROANI_FLAG_PAUSED`. */
  function ClearPaused(f: bv16): bv16 {
    f & NOT_PAUSED
  }

  /** One animation after retroani_pause's loop visits it. */
  function Paused(a: Ani, flags: bv16): Ani {
    if Matches(a.flags, flags) then a.(flags := SetPaused(a.flags)) else a
  }

  /** One animation after retroani_resume's loop visits it. */
  function Resumed(a: Ani, flags: bv16): Ani {
    if Matches(a.flags, flags) then a.(flags := ClearPaused(a.flags)) else a
  }

  /** Pausing sets PAUSED on a matching animation and keeps every other bit. */
  lemma PausedBits(a: Ani, flags: bv16)
    ensures Matches(a.flags, flags) ==> Paused(a, flags).flags & FLAG_PAUSED == FLAG_PAUSED
    ensures Paused(a, flags).flags & NOT_PAUSED == a.flags & NOT_PAUSED
  {
  }

  /** Resuming clears PAUSED on a matching animation and keeps every other bit. */
  lemma ResumedBits(a: Ani, flags: bv16)
    ensures Matches(a.flags, flags) ==> Resumed(a, flags).flags & FLAG_PAUSED == 0
    ensures Resumed(a, flags).flags & NOT_PAUSED == a.flags & NOT_PAUSED
  {
  }

  /**
   * Pausing and resuming change no field but the flags, and leave an
   * animation that does not match alone.
   */
  lemma OnlyFlagsChange(a: Ani, flags: bv16)
    ensures Paused(a, flags).(flags := a.flags) == a && Resumed(a, flags).(flags := a.flags) == a
    ensures !Matches(a.flags, flags) ==> Paused(a, flags) == a && Resumed(a, flags) == a
  {
  }

  /** Pausing twice with the same flags is pausing once. */
  lemma PauseIdempotent(a: Ani, flags: bv16)
    ensures Paused(Paused(a, flags), flags) == Paused(a, flags)
  {
  }

  /**
   * Setting PAUSED never changes which animations match, so resuming after
   * a pause with the same flags is the same as resuming alone.
   */
  lemma ResumeAfterPause(a: Ani, flags: bv16)
    ensures Matches(Paused(a, flags).flags, flags) == Matches(a.flags, flags)
    ensures Resumed(Paused(a, flags), flags) == Resumed(a, flags)
  {
  }

  /**
   * When the flags asked for do not include PAUSED itself, pausing after a
   * resume is the same as pausing alone; with PAUSED among them a resumed
   * animation no longer matches and stays running.
   */
  lemma PauseAfterResume(a: Ani, flags: bv16)
    ensures flags & FLAG_PAUSED == 0 ==> Paused(Resumed(a, flags), flags) == Paused(a, flags)
    ensures flags & FLAG_PAUSED != 0 && Matches(a.flags, flags) ==>
      Paused(Resumed(a, flags), flags) == Resumed(a, flags)
  {
  }

  /** An entry cleared by stop carries no flags, so only pause(0) touches it. */
  lemma ZeroedMatchesOnlyNothing(flags: bv16)
    ensures Matches(Zeroed().flags, flags) <==> flags == 0
  {
  }

  /** The animation vector the functions receive as ani_stack. */
  class AniStack {
    var anis: seq<Ani>

    constructor ()
      ensures anis == []
    {
      anis := [];
    }

    /**
     * retroani_create: the new animation goes at the end and its index is
     * returned. The vector's allocation failure is not part of the model.
     */
    method Create(kind: nat, flags: bv16, x: int, y: int, w: int, h: int) returns (idx: int)
      modifies this
      ensures idx == |old(anis)| && anis == old(anis) + [NewAni(kind, flags, x, y, w, h)]
    {
      idx := |anis|;
      anis := anis + [NewAni(kind, flags, x, y, w, h)];
    }

    /**
     * retroani_set_colors: MERROR_OVERFLOW for an index past the end;
     * otherwise the four colours replace the animation's palette and
     * nothing else changes.
     */
    method SetColors(aIdx: nat, c1: int, c2: int, c3: int, c4: int) returns (e: Error)
      modifies this
      ensures e == OK <==> aIdx < |old(anis)|
      ensures e != OK ==> e == Overflow && anis == old(anis)
      ensures e == OK ==>
        anis == old(anis)[aIdx := old(anis)[aIdx].(colors := [Some(c1), Some(c2), Some(c3), Some(c4)])]
    {
      if aIdx >= |anis| {
        return Overflow;
      }
      anis := anis[aIdx := anis[aIdx].(colors := [Some(c1), Some(c2), Some(c3), Some(c4)])];
      e := OK;
    }

    /**
     * retroani_pause: every animation that carries all of `flags` gets
     * PAUSED; the others, and the length, are unchanged.
     */
    method Pause(flags: bv16) returns (e: Error)
      modifies this
      ensures e == OK && |anis| == |old(anis)|
      ensures forall i :: 0 <= i < |anis| ==> anis[i] == Paused(old(anis)[i], flags)
    {
      if |anis| == 0 {
        return OK;
      }
      var i := 0;
      while i < |anis|
        invariant i <= |anis| == |old(anis)|
        invariant forall k :: 0 <= k < i ==> anis[k] == Paused(old(anis)[k], flags)
        invariant forall k :: i <= k < |anis| ==> anis[k] == old(anis)[k]
      {
        var a := anis[i];
        if Matches(a.flags, flags) {
          a := a.(flags := SetPaused(a.flags));
        }
        assert a == Paused(old(anis)[i], flags);
        anis := anis[i := a];
        i := i + 1;
      }
      e := OK;
    }

    /**
     * retroani_resume: every animation that carries all of `flags` loses
     * PAUSED; the others, and the length, are unchanged.
     */
    method Resume(flags: bv16) returns (e: Error)
      modifies this
      ensures e == OK && |anis| == |old(anis)|
      ensures forall i :: 0 <= i < |anis| ==> anis[i] == Resumed(old(anis)[i], flags)
    {
      if |anis| == 0 {
        return OK;
      }
      var i := 0;
      while i < |anis|
        invariant i <= |anis| == |old(anis)|
        invariant forall k :: 0 <= k < i ==> anis[k] == Resumed(old(anis)[k], flags)
        invariant forall k :: i <= k < |anis| ==> anis[k] == old(anis)[k]
      {
        var a := anis[i];
        if Matches(a.flags, flags) {
          a := a.(flags := ClearPaused(a.flags));
        }
        assert a == Resumed(old(anis)[i], flags);
        anis := anis[i := a];
        i := i + 1;
      }
      e := OK;
    }

    /**
     * retroani_stop: MERROR_OVERFLOW for an empty vector or an index past
     * the end; otherwise the entry is zeroed in place, so later indices
     * stay valid.
     */
    method Stop(idx: nat) returns (e: Error)
      modifies this
      ensures e == OK <==> idx < |old(anis)|
      ensures e != OK ==> e == Overflow && anis == old(anis)
      ensures e == OK ==> anis == old(anis)[idx := Zeroed()]
    {
      if |anis| == 0 || |anis| <= idx {
        return Overflow;
      }
      anis := anis[idx := Zeroed()];
      e := OK;
    }
  }
}
