/**
 * The portable parts of src/retroflt.h: the text-buffer editing macros used
 * by text entry, the eight-way direction reversal, and the generic viewport
 * that tracks where the screen looks into the world tilemap.
 */
module RetroFlt {
  import opened Maug

  /** RETROFLAT_TILE_W / _H and their _BITS. */
  const TILE_W: nat := 16
  const TILE_H: nat := 16
  const TILE_W_BITS: nat := 4
  const TILE_H_BITS: nat := 4

  /*
   * Text buffers: `buffer` holds `sz` characters followed by a NUL, and the
   * cursor `cur` is an insertion point in 0..sz.
   */

  /** The text after inserting `c` at `cur`. */
  function Inserted(s: seq<char>, cur: nat, c: char): (r: seq<char>)
    requires cur <= |s|
  {
    s[..cur] + [c] + s[cur..]
  }

  /** The text after removing the character before `cur`. */
  function Removed(s: seq<char>, cur: nat): (r: seq<char>)
    requires 0 < cur <= |s|
  {
    s[..cur - 1] + s[cur..]
  }

  /** A backspace right after an insert takes the inserted character out again. */
  lemma {:induction false} BkspUndoesInsert(s: seq<char>, cur: nat, c: char)
    requires cur <= |s|
    ensures |Inserted(s, cur, c)| == |s| + 1
    ensures Inserted(s, cur, c)[cur] == c
    ensures Removed(Inserted(s, cur, c), cur + 1) == s
  {
    var t := Inserted(s, cur, c);
    assert t[..cur] == s[..cur];
    assert t[cur + 1..] == s[cur..];
  }

  /** The memmove of retroflat_buffer_insert: a[from..from+n] moves up by one slot. */
  method MoveUp(a: array<char>, from: nat, n: nat)
    requires from + n < a.Length
    modifies a
    ensures a[..from + 1] == old(a[..from + 1])
    ensures a[from + 1..from + n + 1] == old(a[from..from + n])
    ensures a[from + n + 1..] == old(a[from + n + 1..])
  {
    var i := n;
    while i > 0
      invariant 0 <= i <= n
      invariant a[..from + i + 1] == old(a[..from + i + 1])
      invariant a[from + i + 1..from + n + 1] == old(a[from + i..from + n])
      invariant a[from + n + 1..] == old(a[from + n + 1..])
    {
      a[from + i] := a[from + i - 1];
      i := i - 1;
    }
  }

  /** The memmove of retroflat_buffer_bksp: a[from..from+n] moves down by one slot. */
  method MoveDown(a: array<char>, from: nat, n: nat)
    requires 0 < from && from + n <= a.Length
    modifies a
    ensures a[..from - 1] == old(a[..from - 1])
    ensures a[from - 1..from + n - 1] == old(a[from..from + n])
    ensures a[from + n - 1..] == old(a[from + n - 1..])
  {
    var i := 0;
    while i < n
      invariant i <= n
      invariant a[..from - 1] == old(a[..from - 1])
      invariant a[from - 1..from - 1 + i] == old(a[from..from + i])
      invariant a[from - 1 + i..] == old(a[from - 1 + i..])
    {
      a[from - 1 + i] := a[from + i];
      i := i + 1;
    }
  }

  /** A text buffer, its cursor and its length, as the macros receive them. */
  class TextBuffer {
    const buffer: array<char>
    var cur: nat
    var sz: nat

    ghost predicate Valid()
      reads this
    {
      cur <= sz < buffer.Length
    }

    function Text(): seq<char>
      reads this, buffer
      requires Valid()
    {
      buffer[..sz]
    }

    constructor (capacity: nat)
      requires 0 < capacity
      ensures Valid() && Text() == [] && cur == 0 && buffer.Length == capacity && fresh(buffer)
    {
      buffer := new char[capacity](_ => '\0');
      cur := 0;
      sz := 0;
    }

    /**
     * retroflat_buffer_insert: acts only when sz + 1 < mx; then `c` goes in
     * at the cursor, the tail moves right, cursor and length grow by one and
     * the text stays NUL-terminated.
     */
    method Insert(c: char, mx: nat)
      requires Valid() && mx <= buffer.Length
      modifies this, buffer
      ensures Valid()
      ensures old(sz) + 1 < mx ==>
        Text() == Inserted(old(Text()), old(cur), c) && cur == old(cur) + 1 && buffer[sz] == '\0'
      ensures mx <= old(sz) + 1 ==> Text() == old(Text()) && cur == old(cur) && sz == old(sz)
    {
      if sz + 1 < mx {
        ghost var s := buffer[..sz];
        var k, n := cur, sz;
        if k < n {
          MoveUp(buffer, k, n - k);
        }
        assert buffer[..k] == s[..k] && buffer[k + 1..n + 1] == s[k..];
        buffer[k] := c;
        assert buffer[..n + 1] == s[..k] + [c] + s[k..] by {
          assert buffer[..n + 1] == buffer[..k] + [buffer[k]] + buffer[k + 1..n + 1];
        }
        cur := k + 1;
        sz := n + 1;
        buffer[sz] := '\0';
        assert buffer[..sz] == s[..k] + [c] + s[k..];
      }
    }

    /**
     * retroflat_buffer_bksp: with the cursor past the start, the character
     * before it is removed, cursor and length shrink by one and the text
     * stays NUL-terminated; at the start nothing changes.
     */
    method Bksp()
      requires Valid()
      modifies this, buffer
      ensures Valid()
      ensures 0 < old(cur) ==>
        Text() == Removed(old(Text()), old(cur)) && cur == old(cur) - 1 && buffer[sz] == '\0'
      ensures old(cur) == 0 ==> Text() == old(Text()) && cur == 0 && sz == old(sz)
    {
      if 0 < cur {
        ghost var s := buffer[..sz];
        if cur < sz {
          MoveDown(buffer, cur, sz - cur);
        }
        cur := cur - 1;
        sz := sz - 1;
        buffer[sz] := '\0';
        assert buffer[..sz] == s[..cur] + s[cur + 1..];
      }
    }
  }

  /** RETROFLAT_DIR8_NONE. */
  const DIR8_NONE: int := -1

  /**
   * retroflat_dir8_reverse: (dir + 4) % 8 with C's remainder, so the
   * result lies four directions round from `dir` and takes the sign of
   * dir + 4.
   */
  function Dir8Reverse(dir: int): (r: int)
    ensures -8 < r < 8
    ensures (r - (dir + 4)) % 8 == 0
    ensures 0 <= dir + 4 ==> 0 <= r
    ensures dir + 4 < 0 ==> r <= 0
  {
    var n := dir + 4;
    if n >= 0 then n % 8 else -((-n) % 8)
  }

  /**
   * Reversing a direction 0..7 gives the opposite direction, and reversing
   * twice gives the direction back. RETROFLAT_DIR8_NONE is not kept: it
   * reverses to 3.
   */
  lemma Dir8ReverseInvolution(dir: int)
    ensures 0 <= dir < 8 ==> 0 <= Dir8Reverse(dir) < 8 && Dir8Reverse(dir) != dir
    ensures 0 <= dir < 8 ==> Dir8Reverse(Dir8Reverse(dir)) == dir
    ensures Dir8Reverse(DIR8_NONE) == 3
  {
  }

  /** The value an int16_t holds after `x >> bits`. */
  function TileOf(x: int, bits: nat): int {
    Wrap16(Shr(x, bits))
  }

  /** The fields of struct RETROFLAT_VIEWPORT that the generic code keeps. */
  class Viewport {
    var screenX: int
    var screenY: int
    var worldX: int
    var worldY: int
    var worldW: int
    var worldH: int
    var screenW: int
    var screenH: int
    var screenWRemainder: int
    var screenHRemainder: int
    var screenTileW: int
    var screenTileH: int
    var worldTileX: int
    var worldTileY: int

    constructor ()
      ensures worldX == 0 && worldY == 0 && worldW == 0 && worldH == 0
      ensures screenW == 0 && screenH == 0 && worldTileX == 0 && worldTileY == 0
    {
      screenX, screenY, worldX, worldY, worldW, worldH := 0, 0, 0, 0, 0, 0;
      screenW, screenH, screenWRemainder, screenHRemainder := 0, 0, 0, 0;
      screenTileW, screenTileH, worldTileX, worldTileY := 0, 0, 0, 0;
    }

    /** The tile position agrees with the pixel position, as set_world_pos sets it. */
    ghost predicate TilesAgree()
      reads this
    {
      worldTileX == TileOf(worldX, TILE_W_BITS) && worldTileY == TileOf(worldY, TILE_H_BITS)
    }

    /** The screen fields that only set_pos_size writes: position, remainders and size in tiles. */
    ghost function ScreenFields(): (int, int, int, int, int, int)
      reads this
    {
      (screenX, screenY, screenWRemainder, screenHRemainder, screenTileW, screenTileH)
    }

    /**
     * retroflat_viewport_set_world_generic: the int16_t fields keep `w` and
     * `h` as C's conversion to int16_t leaves them.
     */
    method SetWorld(w: int, h: int)
      modifies this
      ensures worldW == Wrap16(w) && worldH == Wrap16(h)
      ensures -0x8000 <= w < 0x8000 && -0x8000 <= h < 0x8000 ==> worldW == w && worldH == h
      ensures worldX == old(worldX) && worldY == old(worldY) && screenW == old(screenW) && screenH == old(screenH)
      ensures worldTileX == old(worldTileX) && worldTileY == old(worldTileY)
      ensures ScreenFields() == old(ScreenFields())
    {
      worldW := Wrap16(w);
      worldH := Wrap16(h);
    }

    /**
     * retroflat_viewport_set_world_pos_generic: pixel position and the tile
     * it falls in, each stored into an int16_t field. The tile is shifted
     * from the argument before the store, so it agrees with the stored
     * position whenever the argument is an int16_t.
     */
    method SetWorldPos(x: int, y: int)
      modifies this
      ensures worldX == Wrap16(x) && worldY == Wrap16(y)
      ensures worldTileX == TileOf(x, TILE_W_BITS) && worldTileY == TileOf(y, TILE_H_BITS)
      ensures -0x8000 <= x < 0x8000 && -0x8000 <= y < 0x8000 ==> worldX == x && worldY == y && TilesAgree()
      ensures worldW == old(worldW) && worldH == old(worldH) && screenW == old(screenW) && screenH == old(screenH)
      ensures ScreenFields() == old(ScreenFields())
    {
      worldX := Wrap16(x);
      worldY := Wrap16(y);
      worldTileX := TileOf(x, TILE_W_BITS);
      worldTileY := TileOf(y, TILE_H_BITS);
    }

    /**
     * retroflat_viewport_set_pos_size_generic: the viewport width and height
     * are rounded down to whole tiles; the remainders keep what is left of
     * position plus size.
     */
    method SetPosSize(xPx: int, yPx: int, wPx: int, hPx: int)
      requires 0 <= xPx < 0x8000 && 0 <= yPx < 0x8000 && 0 <= wPx < 0x8000 && 0 <= hPx < 0x8000
      modifies this
      ensures screenX == xPx && screenY == yPx
      ensures screenTileW == wPx / TILE_W && screenTileH == hPx / TILE_H
      ensures screenW == screenTileW * TILE_W && screenH == screenTileH * TILE_H
      ensures wPx - TILE_W < screenW <= wPx && hPx - TILE_H < screenH <= hPx
      ensures screenWRemainder == xPx + wPx - screenW && screenHRemainder == yPx + hPx - screenH
      ensures worldX == old(worldX) && worldY == old(worldY) && worldW == old(worldW) && worldH == old(worldH)
      ensures worldTileX == old(worldTileX) && worldTileY == old(worldTileY)
    {
      screenX := xPx;
      screenY := yPx;
      screenTileW := wPx / TILE_W;
      screenTileH := hPx / TILE_H;
      screenW := (wPx / TILE_W) * TILE_W;
      screenH := (hPx / TILE_H) * TILE_H;
      screenWRemainder := xPx + wPx - screenW;
      screenHRemainder := yPx + hPx - screenH;
    }

    /**
     * retroflat_viewport_move_x_generic as written: the move happens, and 1
     * is returned, only if the new int16_t position is at least 0 and the
     * viewport still ends inside the world; the tile position moves by
     * x >> RETROFLAT_TILE_W_BITS.
     */
    method MoveXAsWritten(x: int) returns (moved: bool)
      requires -0x8000 <= x < 0x8000
      modifies this
      ensures var nx := Wrap16(old(worldX) + x);
        moved <==> 0 <= nx && nx + old(screenW) <= old(worldW)
      ensures moved ==> worldX == Wrap16(old(worldX) + x) && worldTileX == Wrap16(old(worldTileX) + Shr(x, TILE_W_BITS))
      ensures !moved ==> worldX == old(worldX) && worldTileX == old(worldTileX)
      ensures worldY == old(worldY) && worldTileY == old(worldTileY)
      ensures worldW == old(worldW) && worldH == old(worldH) && screenW == old(screenW) && screenH == old(screenH)
      ensures ScreenFields() == old(ScreenFields())
    {
      var newWorldX := Wrap16(worldX + x);
      if 0 <= newWorldX && worldW >= newWorldX + screenW {
        worldX := newWorldX;
        worldTileX := Wrap16(worldTileX + Shr(x, TILE_W_BITS));
        return true;
      }
      return false;
    }

    /**
     * retroflat_viewport_move_x_generic with the tile position recomputed
     * from the new pixel position, as set_world_pos computes it.
     */
    method MoveX(x: int) returns (moved: bool)
      requires -0x8000 <= x < 0x8000
      modifies this
      ensures var nx := Wrap16(old(worldX) + x);
        moved <==> 0 <= nx && nx + old(screenW) <= old(worldW)
      ensures moved ==> worldX == Wrap16(old(worldX) + x) && 0 <= worldX && worldX + screenW <= worldW
      ensures !moved ==> worldX == old(worldX) && worldTileX == old(worldTileX)
      ensures old(TilesAgree()) ==> TilesAgree()
      ensures worldY == old(worldY) && worldTileY == old(worldTileY)
      ensures worldW == old(worldW) && worldH == old(worldH) && screenW == old(screenW) && screenH == old(screenH)
      ensures ScreenFields() == old(ScreenFields())
    {
      var newWorldX := Wrap16(worldX + x);
      if 0 <= newWorldX && worldW >= newWorldX + screenW {
        worldX := newWorldX;
        worldTileX := TileOf(newWorldX, TILE_W_BITS);
        return true;
      }
      return false;
    }

    /**
     * retroflat_viewport_move_y_generic as written: the same check on the
     * vertical fields; the tile position moves by y >> RETROFLAT_TILE_H_BITS.
     */
    method MoveYAsWritten(y: int) returns (moved: bool)
      requires -0x8000 <= y < 0x8000
      modifies this
      ensures var ny := Wrap16(old(worldY) + y);
        moved <==> 0 <= ny && ny + old(screenH) <= old(worldH)
      ensures moved ==> worldY == Wrap16(old(worldY) + y) && worldTileY == Wrap16(old(worldTileY) + Shr(y, TILE_H_BITS))
      ensures !moved ==> worldY == old(worldY) && worldTileY == old(worldTileY)
      ensures worldX == old(worldX) && worldTileX == old(worldTileX)
      ensures worldW == old(worldW) && worldH == old(worldH) && screenW == old(screenW) && screenH == old(screenH)
      ensures ScreenFields() == old(ScreenFields())
    {
      var newWorldY := Wrap16(worldY + y);
      if 0 <= newWorldY && worldH >= newWorldY + screenH {
        worldY := newWorldY;
        worldTileY := Wrap16(worldTileY + Shr(y, TILE_H_BITS));
        return true;
      }
      return false;
    }

    /** retroflat_viewport_move_y_generic, with the tile position recomputed as in MoveX. */
    method MoveY(y: int) returns (moved: bool)
      requires -0x8000 <= y < 0x8000
      modifies this
      ensures var ny := Wrap16(old(worldY) + y);
        moved <==> 0 <= ny && ny + old(screenH) <= old(worldH)
      ensures moved ==> worldY == Wrap16(old(worldY) + y) && 0 <= worldY && worldY + screenH <= worldH
      ensures !moved ==> worldY == old(worldY) && worldTileY == old(worldTileY)
      ensures old(TilesAgree()) ==> TilesAgree()
      ensures worldX == old(worldX) && worldTileX == old(worldTileX)
      ensures worldW == old(worldW) && worldH == old(worldH) && screenW == old(screenW) && screenH == old(screenH)
      ensures ScreenFields() == old(ScreenFields())
    {
      var newWorldY := Wrap16(worldY + y);
      if 0 <= newWorldY && worldH >= newWorldY + screenH {
        worldY := newWorldY;
        worldTileY := TileOf(newWorldY, TILE_H_BITS);
        return true;
      }
      return false;
    }
  }

  /**
   * The tile update of move_x as written loses the carry of a partial tile:
   * from world_x 8 (tile 0) a move by 8 reaches world_x 16, whose tile is 1,
   * while 0 + (8 >> 4) leaves the tile at 0.
   */
  lemma MoveXAsWrittenLosesTile()
    ensures TileOf(8, TILE_W_BITS) == 0
    ensures Wrap16(TileOf(8, TILE_W_BITS) + Shr(8, TILE_W_BITS)) == 0
    ensures TileOf(Wrap16(8 + 8), TILE_W_BITS) == 1
  {
    assert Shr(8, 4) == 0;
    assert Shr(16, 4) == 1;
  }

  /** The same lost carry in move_y: from world_y 8 (tile 0) a move by 8 leaves the tile at 0. */
  lemma MoveYAsWrittenLosesTile()
    ensures TileOf(8, TILE_H_BITS) == 0
    ensures Wrap16(TileOf(8, TILE_H_BITS) + Shr(8, TILE_H_BITS)) == 0
    ensures TileOf(Wrap16(8 + 8), TILE_H_BITS) == 1
  {
    assert Shr(8, 4) == 0;
    assert Shr(16, 4) == 1;
  }
}
