/**
 * The portable core of src/retrotil.h: the state machine that follows the
 * keys of a Tiled JSON map (each key moves the parser to a state that may
 * only be entered from its parent state, and closing a list or an object
 * moves it back up), the layout of a tilemap buffer (a header followed by
 * one block per layer, each block a layer header and its tiles), and the
 * smoothing pass that replaces each tile by the average of its neighbours.
 */
module RetroTil {
  import opened Maug
  import Marge

  /* RETROTILE_PARSER_MSTATE_TABLE: the parser's states. */
  const MTILESTATE_NONE: nat := 0
  const MTILESTATE_HEIGHT: nat := 1
  const MTILESTATE_WIDTH: nat := 2
  const MTILESTATE_LAYERS: nat := 3
  const MTILESTATE_LAYER_DATA: nat := 4
  const MTILESTATE_LAYER_NAME: nat := 5
  const MTILESTATE_TILES: nat := 6
  const MTILESTATE_TILESETS: nat := 9
  const MTILESTATE_TILESETS_FGID: nat := 11
  const MTILESTATE_TILESETS_PROP: nat := 12
  const MTILESTATE_GRID: nat := 13
  const MTILESTATE_TILES_PROP: nat := 14
  const MTILESTATE_LAYER: nat := 15
  const MTILESTATE_PROP: nat := 19
  const MTILESTATE_LAYER_CLASS: nat := 23
  const MTILESTATE_TPROP: nat := 27

  const RETROTILE_PARSER_MODE_MAP: nat := 0
  const RETROTILE_PARSER_MODE_DEFS: nat := 1

  /** A row of RETROTILE_PARSER_MSTATE_TABLE: the JSON key, the parent state and the mode. */
  datatype MStateRow = MStateRow(token: string, parent: nat, mode: nat)

  /**
   * gc_retrotile_mstate_tokens, gc_retrotile_mstate_parents and
   * gc_retrotile_mstate_modes, row by row; the empty token that ends the
   * C arrays is the end of the sequence here.
   */
  const MSTATES: seq<MStateRow> := [
    MStateRow("", 0, 0),
    MStateRow("height", 0, 0),
    MStateRow("width", 0, 0),
    MStateRow("layers", 0, 0),
    MStateRow("data", 15, 0),
    MStateRow("name", 15, 0),
    MStateRow("tiles", 0, 1),
    MStateRow("id", 6, 1),
    MStateRow("image", 6, 1),
    MStateRow("tilesets", 0, 0),
    MStateRow("source", 9, 0),
    MStateRow("firstgid", 9, 0),
    MStateRow("firstgid", 9, 0),
    MStateRow("grid", 0, 1),
    MStateRow("properties", 6, 1),
    MStateRow("layers", 3, 0),
    MStateRow("name", 14, 1),
    MStateRow("type", 14, 1),
    MStateRow("value", 14, 1),
    MStateRow("properties", 0, 0),
    MStateRow("name", 19, 0),
    MStateRow("type", 19, 0),
    MStateRow("value", 19, 0),
    MStateRow("class", 15, 0),
    MStateRow("type", 6, 1),
    MStateRow("name", 0, 1),
    MStateRow("wangsets", 0, 1),
    MStateRow("properties", 0, 1),
    MStateRow("name", 27, 1),
    MStateRow("type", 27, 1),
    MStateRow("value", 27, 1)]

  /** Row `j` is one that key `token` leads to from `mstate` in `mode`. */
  predicate MatchesAt(rows: seq<MStateRow>, token: seq<char>, mstate: nat, mode: nat, j: nat)
    requires j < |rows|
  {
    rows[j].token == token && rows[j].parent == mstate && rows[j].mode == mode
  }

  /** The first row from `j` on that `token` leads to, or -1 at the end of the table. */
  function Match(rows: seq<MStateRow>, token: seq<char>, mstate: nat, mode: nat, j: nat): (r: int)
    requires 1 <= j <= |rows|
    decreases |rows| - j
  {
    if j == |rows| then -1
    else if MatchesAt(rows, token, mstate, mode, j) then j
    else Match(rows, token, mstate, mode, j + 1)
  }

  /**
   * Match finds the first row whose key, parent and mode all agree, and
   * -1 only when there is none.
   */
  lemma {:induction false} MatchFirst(rows: seq<MStateRow>, token: seq<char>, mstate: nat, mode: nat, j: nat)
    requires 1 <= j <= |rows|
    ensures var r := Match(rows, token, mstate, mode, j);
      && (r == -1 || (j <= r < |rows| && MatchesAt(rows, token, mstate, mode, r)))
      && (forall k :: j <= k < |rows| && (r == -1 || k < r) ==> !MatchesAt(rows, token, mstate, mode, k))
    decreases |rows| - j
  {
    if j < |rows| && !MatchesAt(rows, token, mstate, mode, j) {
      MatchFirst(rows, token, mstate, mode, j + 1);
    }
  }

  /** No state is its own parent. */
  lemma ParentsBefore()
    ensures forall j :: 1 <= j < |MSTATES| ==> MSTATES[j].parent != j
  {
  }

  /** retrotile_parser_match_token on the parser's state: the state the key leads to, or the same state. */
  function Matched(token: seq<char>, mstate: nat, mode: nat): (r: nat)
  {
    var j := Match(MSTATES, token, mstate, mode, 1);
    if j < 0 then mstate else j
  }

  /**
   * A key moves the parser exactly when some state has that key, the
   * current state as its parent and the current mode; it then moves to
   * the first such state, whose parent is the state it came from.
   */
  lemma MatchedMeaning(token: seq<char>, mstate: nat, mode: nat)
    ensures var r := Matched(token, mstate, mode);
      && (r == mstate <==> forall k :: 1 <= k < |MSTATES| ==> !MatchesAt(MSTATES, token, mstate, mode, k))
      && (r != mstate ==>
            && 1 <= r < |MSTATES| && MSTATES[r].parent == mstate
            && MSTATES[r].token == token && MSTATES[r].mode == mode
            && forall k :: 1 <= k < r ==> !MatchesAt(MSTATES, token, mstate, mode, k))
  {
    MatchFirst(MSTATES, token, mstate, mode, 1);
    ParentsBefore();
  }

  /** A row that does not match is never the one found. */
  lemma {:induction false} MatchSkips(rows: seq<MStateRow>, token: seq<char>, mstate: nat, mode: nat, j: nat, b: nat)
    requires 1 <= j <= |rows| && b < |rows| && !MatchesAt(rows, token, mstate, mode, b)
    ensures Match(rows, token, mstate, mode, j) != b
    decreases |rows| - j
  {
    if j < |rows| && !MatchesAt(rows, token, mstate, mode, j) {
      MatchSkips(rows, token, mstate, mode, j + 1, b);
    }
  }

  /** A row that repeats an earlier row is never the one found. */
  lemma {:induction false} RepeatShadowed(rows: seq<MStateRow>, token: seq<char>, mstate: nat, mode: nat, j: nat, a: nat, b: nat)
    requires 1 <= j <= a < b < |rows| && rows[a] == rows[b]
    ensures Match(rows, token, mstate, mode, j) != b
    decreases a - j
  {
    if !MatchesAt(rows, token, mstate, mode, j) {
      if j < a {
        RepeatShadowed(rows, token, mstate, mode, j + 1, a, b);
      } else {
        MatchSkips(rows, token, mstate, mode, j + 1, b);
      }
    }
  }

  /**
   * TILESETS_PROP repeats the key, parent and mode of TILESETS_FGID one
   * row earlier, so no key ever leads to it.
   */
  lemma TilesetsPropUnreachable(token: seq<char>, mstate: nat, mode: nat)
    ensures Matched(token, mstate, mode) == MTILESTATE_TILESETS_PROP ==> mstate == MTILESTATE_TILESETS_PROP
  {
    assert MSTATES[MTILESTATE_TILESETS_FGID] == MSTATES[MTILESTATE_TILESETS_PROP];
    RepeatShadowed(MSTATES, token, mstate, mode, 1, MTILESTATE_TILESETS_FGID, MTILESTATE_TILESETS_PROP);
  }

  /** retrotile_json_close_list: the state a closing ']' leaves. */
  function AfterCloseList(s: nat): (r: nat)
  {
    if s == MTILESTATE_LAYER_DATA then MTILESTATE_LAYER
    else if s == MTILESTATE_LAYERS || s == MTILESTATE_TILESETS then MTILESTATE_NONE
    else if s == MTILESTATE_TILES_PROP then MTILESTATE_TILES
    else if s == MTILESTATE_TILES || s == MTILESTATE_PROP || s == MTILESTATE_TPROP then MTILESTATE_NONE
    else s
  }

  /** The states whose value is a list. */
  const LIST_STATES: set<nat> := {
    MTILESTATE_LAYER_DATA, MTILESTATE_LAYERS, MTILESTATE_TILESETS, MTILESTATE_TILES_PROP,
    MTILESTATE_TILES, MTILESTATE_PROP, MTILESTATE_TPROP}

  /** retrotile_json_close_obj: the state a closing '}' leaves. */
  function AfterCloseObj(s: nat): (r: nat)
  {
    if s == MTILESTATE_LAYER then MTILESTATE_LAYERS
    else if s == MTILESTATE_GRID then MTILESTATE_NONE
    else s
  }

  /** The states whose value is an object. */
  const OBJECT_STATES: set<nat> := {MTILESTATE_LAYER, MTILESTATE_GRID}

  /**
   * Closing a list or an object goes back to the parent the state table
   * gives the state being closed, and any other close changes nothing.
   */
  lemma ClosesGoUp(s: nat)
    requires s < |MSTATES|
    ensures AfterCloseList(s) == (if s in LIST_STATES then MSTATES[s].parent else s)
    ensures AfterCloseObj(s) == (if s in OBJECT_STATES then MSTATES[s].parent else s)
  {
  }

  /**
   * A key that opens a list or an object and the close that ends it
   * bring the parser back to the state it was in before the key.
   */
  lemma KeyThenClose(token: seq<char>, mstate: nat, mode: nat)
    ensures var j := Matched(token, mstate, mode);
      && (j != mstate && j in LIST_STATES ==> AfterCloseList(j) == mstate)
      && (j != mstate && j in OBJECT_STATES ==> AfterCloseObj(j) == mstate)
  {
    MatchedMeaning(token, mstate, mode);
    var j := Matched(token, mstate, mode);
    if j != mstate {
      ClosesGoUp(j);
    }
  }

  /** retrotile_json_open_obj: an object opened in the layer list is a layer. */
  function AfterOpenObj(s: nat): (r: nat)
  {
    if s == MTILESTATE_LAYERS then MTILESTATE_LAYER else s
  }

  /**
   * One layer of a map: '{' in the layer list, the "data" key, the ']'
   * that ends the tiles and the '}' that ends the layer bring the parser
   * back to the layer list.
   */
  lemma LayerCycle()
    ensures AfterOpenObj(MTILESTATE_LAYERS) == MTILESTATE_LAYER
    ensures Matched("data", MTILESTATE_LAYER, RETROTILE_PARSER_MODE_MAP) == MTILESTATE_LAYER_DATA
    ensures AfterCloseList(MTILESTATE_LAYER_DATA) == MTILESTATE_LAYER
    ensures AfterCloseObj(MTILESTATE_LAYER) == MTILESTATE_LAYERS
  {
    assert MatchesAt(MSTATES, "data", MTILESTATE_LAYER, RETROTILE_PARSER_MODE_MAP, MTILESTATE_LAYER_DATA);
    assert Match(MSTATES, "data", MTILESTATE_LAYER, RETROTILE_PARSER_MODE_MAP, 1) == MTILESTATE_LAYER_DATA;
  }

  /** RETROTILE_PROP_TYPE_*: the kinds of a custom property's value. */
  const RETROTILE_PROP_TYPE_OTHER: nat := 0
  const RETROTILE_PROP_TYPE_STRING: nat := 1
  const RETROTILE_PROP_TYPE_FILE: nat := 2
  const RETROTILE_PROP_TYPE_INT: nat := 3

  /** retrotile_parse_prop_type: a Tiled "type" field as one of the kinds. */
  function PropType(token: seq<char>): (r: nat)
    ensures r <= RETROTILE_PROP_TYPE_INT
    ensures r == RETROTILE_PROP_TYPE_STRING <==> token == "string"
    ensures r == RETROTILE_PROP_TYPE_FILE <==> token == "file"
    ensures r == RETROTILE_PROP_TYPE_INT <==> token == "int"
  {
    if token == "string" then RETROTILE_PROP_TYPE_STRING
    else if token == "file" then RETROTILE_PROP_TYPE_FILE
    else if token == "int" then RETROTILE_PROP_TYPE_INT
    else RETROTILE_PROP_TYPE_OTHER
  }

  /**
   * The parts of struct RETROTILE_PARSER the state machine and the tile
   * list use.
   */
  class TileParser {
    var mstate: nat
    var mode: nat
    var pass: nat
    var passLayerIter: nat
    var layerTileIter: nat
    /** The class of the layer being read, from its "class" key. */
    var layerClass: nat

    /** The parser as retrotile_parse_json_file zeroes it, in the given mode and pass. */
    constructor(mode: nat, pass: nat)
      ensures this.mode == mode && this.pass == pass
      ensures mstate == MTILESTATE_NONE && passLayerIter == 0 && layerTileIter == 0
      ensures layerClass == RETROTILE_CLASS_TILE
    {
      this.mode := mode;
      this.pass := pass;
      mstate := MTILESTATE_NONE;
      passLayerIter := 0;
      layerTileIter := 0;
      layerClass := RETROTILE_CLASS_TILE;
    }

    /** retrotile_parser_match_token: follow a key to the state it leads to from here. */
    method MatchToken(token: seq<char>)
      modifies this
      ensures mstate == Matched(token, old(mstate), mode)
      ensures mode == old(mode) && pass == old(pass) && layerClass == old(layerClass)
      ensures passLayerIter == old(passLayerIter) && layerTileIter == old(layerTileIter)
    {
      var j := 1;
      while j < |MSTATES|
        invariant 1 <= j <= |MSTATES| && mstate == old(mstate)
        invariant Match(MSTATES, token, mstate, mode, j) == Match(MSTATES, token, mstate, mode, 1)
        decreases |MSTATES| - j
      {
        if MSTATES[j].token != token {
          j := j + 1;
        } else if mstate != MSTATES[j].parent {
          j := j + 1;
        } else if mode != MSTATES[j].mode {
          j := j + 1;
        } else {
          mstate := j;
          return;
        }
      }
    }

    /** The asserts of retrotile_json_close_list: each list belongs to its mode, and a layer has tiles. */
    predicate CloseListAllowed()
      reads this
    {
      && (mstate == MTILESTATE_LAYER_DATA ==> mode == RETROTILE_PARSER_MODE_MAP && layerTileIter > 0)
      && (mstate == MTILESTATE_LAYERS || mstate == MTILESTATE_TILESETS ==> mode == RETROTILE_PARSER_MODE_MAP)
      && (mstate == MTILESTATE_TILES_PROP || mstate == MTILESTATE_TILES ==> mode == RETROTILE_PARSER_MODE_DEFS)
    }

    /** retrotile_json_close_list. */
    method CloseList() returns (e: Error)
      requires CloseListAllowed()
      modifies this
      ensures e == OK && mstate == AfterCloseList(old(mstate))
      ensures mode == old(mode) && pass == old(pass) && layerClass == old(layerClass)
      ensures passLayerIter == old(passLayerIter) && layerTileIter == old(layerTileIter)
    {
      if mstate == MTILESTATE_LAYER_DATA {
        mstate := MTILESTATE_LAYER;
      } else if mstate == MTILESTATE_LAYERS {
        mstate := MTILESTATE_NONE;
      } else if mstate == MTILESTATE_TILESETS {
        mstate := MTILESTATE_NONE;
      } else if mstate == MTILESTATE_TILES_PROP {
        mstate := MTILESTATE_TILES;
      } else if mstate == MTILESTATE_TILES {
        mstate := MTILESTATE_NONE;
      } else if mstate == MTILESTATE_PROP {
        mstate := MTILESTATE_NONE;
      } else if mstate == MTILESTATE_TPROP {
        mstate := MTILESTATE_NONE;
      }
      e := OK;
    }

    /** retrotile_json_open_obj: a new layer starts counting its tiles from 0. */
    method OpenObj() returns (e: Error)
      requires mstate == MTILESTATE_LAYERS ==> mode == RETROTILE_PARSER_MODE_MAP
      modifies this
      ensures e == OK && mstate == AfterOpenObj(old(mstate))
      ensures layerTileIter == if old(mstate) == MTILESTATE_LAYERS then 0 else old(layerTileIter)
      ensures mode == old(mode) && pass == old(pass) && passLayerIter == old(passLayerIter)
      ensures layerClass == old(layerClass)
    {
      if mstate == MTILESTATE_LAYERS {
        layerTileIter := 0;
        mstate := MTILESTATE_LAYER;
      }
      e := OK;
    }

    /** retrotile_json_close_obj: the end of a layer moves on to the next layer. */
    method CloseObj() returns (e: Error)
      requires mstate == MTILESTATE_LAYER ==> mode == RETROTILE_PARSER_MODE_MAP
      modifies this
      ensures e == OK && mstate == AfterCloseObj(old(mstate))
      ensures passLayerIter == if old(mstate) == MTILESTATE_LAYER then old(passLayerIter) + 1 else old(passLayerIter)
      ensures mode == old(mode) && pass == old(pass) && layerTileIter == old(layerTileIter)
      ensures layerClass == old(layerClass)
    {
      if mstate == MTILESTATE_LAYER {
        passLayerIter := passLayerIter + 1;
        mstate := MTILESTATE_LAYERS;
      } else if mstate == MTILESTATE_GRID {
        mstate := MTILESTATE_NONE;
      }
      e := OK;
    }

    /**
     * The "class" value of a layer in retrotile_parser_parse_token: the
     * token "mobile" (strncmp over its 7 bytes, terminator included) makes
     * the layer MOBILE and any other token makes it TILE; the parser goes
     * back to the layer.
     */
    method ClassToken(token: seq<char>) returns (e: Error)
      requires mstate == MTILESTATE_LAYER_CLASS
      modifies this
      ensures e == OK && mstate == MTILESTATE_LAYER
      ensures layerClass == RETROTILE_CLASS_MOBILE <==> token == "mobile"
      ensures layerClass == RETROTILE_CLASS_TILE <==> token != "mobile"
      ensures mode == old(mode) && pass == old(pass)
      ensures passLayerIter == old(passLayerIter) && layerTileIter == old(layerTileIter)
    {
      if token == "mobile" {
        layerClass := RETROTILE_CLASS_MOBILE;
      } else {
        layerClass := RETROTILE_CLASS_TILE;
      }
      mstate := MTILESTATE_LAYER;
      e := OK;
    }

    /**
     * retrotile_parser_parse_token on a token inside a JSON list, with
     * `value` what atoi makes of it and `tiles` the current layer's tiles:
     * on the second pass in a layer's data the parser's layer class is
     * first stored in the current layer's header, then the value is
     * stored, as an int16_t, at the next tile, and a tile past the end of
     * the layer is MERROR_OVERFLOW with no tile stored or counted; every
     * other list token is only counted. The source asserts that the
     * current layer exists.
     */
    method ListToken(t: Tilemap, tiles: array<int>, value: int) returns (e: Error)
      requires pass == 1 && mstate == MTILESTATE_LAYER_DATA ==> passLayerIter < t.layersCount
      requires pass == 1 && mstate == MTILESTATE_LAYER_DATA && layerTileIter < tiles.Length ==>
        tiles[layerTileIter] == 0
      modifies this, tiles, t`hdrs
      ensures var store := old(pass) == 1 && old(mstate) == MTILESTATE_LAYER_DATA;
        && (store && old(layerTileIter) >= tiles.Length ==>
              e == Overflow && tiles[..] == old(tiles[..]) && layerTileIter == old(layerTileIter))
        && (store && old(layerTileIter) < tiles.Length ==>
              e == OK && tiles[..] == old(tiles[..])[old(layerTileIter) := Wrap16(value)]
              && layerTileIter == old(layerTileIter) + 1)
        && (!store ==> e == OK && tiles[..] == old(tiles[..]) && layerTileIter == old(layerTileIter) + 1)
      ensures var off := Walk(old(t.hdrs), RETROTILE_HDR_SZ, passLayerIter);
        old(pass) == 1 && old(mstate) == MTILESTATE_LAYER_DATA ==>
          t.hdrs == old(t.hdrs)[off := HdrAt(old(t.hdrs), off).(layerClass := layerClass)]
      ensures !(old(pass) == 1 && old(mstate) == MTILESTATE_LAYER_DATA) ==> t.hdrs == old(t.hdrs)
      ensures mstate == old(mstate) && mode == old(mode) && pass == old(pass)
      ensures passLayerIter == old(passLayerIter) && layerClass == old(layerClass)
    {
      if pass == 1 && mstate == MTILESTATE_LAYER_DATA {
        var layer := t.GetLayerP(passLayerIter);
        var off := layer.value;
        t.hdrs := t.hdrs[off := HdrAt(t.hdrs, off).(layerClass := layerClass)];
        if layerTileIter >= tiles.Length {
          return Overflow;
        }
        tiles[layerTileIter] := Wrap16(value);
      }
      layerTileIter := layerTileIter + 1;
      e := OK;
    }
  }

  /*
   * The tilemap buffer. Sizes are those of a 64-bit (LP64) build; a tile
   * (retroflat_tile_t) is an int16_t.
   */

  /** sizeof( struct RETROTILE ). */
  const RETROTILE_HDR_SZ: nat := 72
  /** sizeof( struct RETROTILE_LAYER ). */
  const RETROTILE_LAYER_HDR_SZ: nat := 24
  /** sizeof( retroflat_tile_t ). */
  const RETROTILE_TILE_SZ: nat := 2
  /** RETROTILE_NAME_SZ_MAX. */
  const RETROTILE_NAME_SZ_MAX: nat := 10

  /* RETROTILE_CLASS_TABLE: the layer and tile classes used here. */
  const RETROTILE_CLASS_TILE: nat := 0
  const RETROTILE_CLASS_MOBILE: nat := 1

  /** RETROTILE_TILE_SCALE_DEFAULT, a float in the source. */
  const RETROTILE_TILE_SCALE_DEFAULT: real := 1.0

  /** struct RETROTILE_LAYER. */
  datatype LayerHdr = LayerHdr(sz: nat, totalSz: nat, layerClass: nat)

  /** A layer header in zeroed memory. */
  const ZERO_HDR := LayerHdr(0, 0, 0)

  /** A layer header and its w*h tiles. */
  function LayerSize(w: nat, h: nat): (n: nat)
    ensures n >= RETROTILE_LAYER_HDR_SZ
  {
    RETROTILE_LAYER_HDR_SZ + w * h * RETROTILE_TILE_SZ
  }

  /** The header, then `n` layer headers, then `n` layers of w*h tiles. */
  function TilemapSize(w: nat, h: nat, n: nat): (sz: nat)
  {
    RETROTILE_HDR_SZ + n * RETROTILE_LAYER_HDR_SZ + n * (w * h * RETROTILE_TILE_SZ)
  }

  /** The layer header at byte offset `off`; memory nothing was written to reads as zero. */
  function HdrAt(hdrs: map<nat, LayerHdr>, off: nat): LayerHdr
  {
    if off in hdrs then hdrs[off] else ZERO_HDR
  }

  /** The offset reached from `off` by stepping over `k` layers, each by its own total_sz. */
  function Walk(hdrs: map<nat, LayerHdr>, off: nat, k: nat): nat
    decreases k
  {
    if k == 0 then off else Walk(hdrs, off + HdrAt(hdrs, off).totalSz, k - 1)
  }

  /** The layer headers of a fresh tilemap, the first `i` of them written. */
  function Layout(w: nat, h: nat, i: nat): (m: map<nat, LayerHdr>)
  {
    if i == 0 then map[]
    else Layout(w, h, i - 1)[RETROTILE_HDR_SZ + (i - 1) * LayerSize(w, h) :=
      LayerHdr(RETROTILE_LAYER_HDR_SZ, LayerSize(w, h), 0)]
  }

  lemma MulDistinct(a: nat, b: nat, c: nat)
    requires a != b && c > 0
    ensures a * c != b * c
  {
    if a < b {
      assert b * c == a * c + (b - a) * c;
    } else {
      assert a * c == b * c + (a - b) * c;
    }
  }

  /** Layer `j` of a layout with `i` layers written sits where it was written. */
  lemma {:induction false} LayoutAt(w: nat, h: nat, i: nat, j: nat)
    requires j < i
    ensures HdrAt(Layout(w, h, i), RETROTILE_HDR_SZ + j * LayerSize(w, h)) ==
      LayerHdr(RETROTILE_LAYER_HDR_SZ, LayerSize(w, h), 0)
  {
    if j < i - 1 {
      LayoutAt(w, h, i - 1, j);
      MulDistinct(j, i - 1, LayerSize(w, h));
    }
  }

  /** Every header a layout holds is before the offset of layer `i`. */
  lemma {:induction false} LayoutKeys(w: nat, h: nat, i: nat)
    ensures forall off :: off in Layout(w, h, i) ==> off < RETROTILE_HDR_SZ + i * LayerSize(w, h)
  {
    if i > 0 {
      LayoutKeys(w, h, i - 1);
      assert (i - 1) * LayerSize(w, h) + LayerSize(w, h) == i * LayerSize(w, h);
    }
  }

  /**
   * Stepping over written layers one by one from layer `j` reaches layer
   * j + k: each layer's total_sz leads to the next.
   */
  lemma {:induction false} WalkLayout(w: nat, h: nat, i: nat, j: nat, k: nat)
    requires j + k <= i
    ensures Walk(Layout(w, h, i), RETROTILE_HDR_SZ + j * LayerSize(w, h), k) ==
      RETROTILE_HDR_SZ + (j + k) * LayerSize(w, h)
    decreases k
  {
    if k > 0 {
      LayoutAt(w, h, i, j);
      assert RETROTILE_HDR_SZ + j * LayerSize(w, h) + LayerSize(w, h) ==
        RETROTILE_HDR_SZ + (j + 1) * LayerSize(w, h);
      WalkLayout(w, h, i, j + 1, k - 1);
    }
  }

  /**
   * The layers retrotile_alloc lays out fill the buffer exactly: layer i
   * starts after the header and i whole layers, lies inside the buffer,
   * and stepping over all of them ends at the buffer's size.
   */
  lemma LayoutFillsBuffer(w: nat, h: nat, n: nat)
    ensures forall i :: 0 <= i <= n ==>
      Walk(Layout(w, h, n), RETROTILE_HDR_SZ, i) == RETROTILE_HDR_SZ + i * LayerSize(w, h)
    ensures forall i :: 0 <= i < n ==>
      RETROTILE_HDR_SZ + i * LayerSize(w, h) + LayerSize(w, h) <= TilemapSize(w, h, n)
    ensures Walk(Layout(w, h, n), RETROTILE_HDR_SZ, n) == TilemapSize(w, h, n)
  {
    forall i | 0 <= i <= n
      ensures Walk(Layout(w, h, n), RETROTILE_HDR_SZ, i) == RETROTILE_HDR_SZ + i * LayerSize(w, h)
    {
      WalkLayout(w, h, n, 0, i);
    }
    forall i | 0 <= i < n
      ensures RETROTILE_HDR_SZ + i * LayerSize(w, h) + LayerSize(w, h) <= TilemapSize(w, h, n)
    {
      assert i * LayerSize(w, h) + LayerSize(w, h) == (i + 1) * LayerSize(w, h);
      assert (i + 1) * LayerSize(w, h) <= n * LayerSize(w, h) by {
        MulLe(i + 1, n, LayerSize(w, h));
      }
    }
    assert n * LayerSize(w, h) == n * RETROTILE_LAYER_HDR_SZ + n * (w * h * RETROTILE_TILE_SZ);
  }

  lemma MulLe(a: nat, b: nat, c: nat)
    requires a <= b
    ensures a * c <= b * c
  {
    assert b * c == a * c + (b - a) * c;
  }

  /** struct RETROTILE, with the layer headers that follow it in the same buffer. */
  class Tilemap {
    var sz: nat
    var name: seq<char>
    var tileset: seq<char>
    var totalSz: nat
    var layersCount: nat
    var tilesW: nat
    var tilesH: nat
    var tileScale: real
    /** The layer headers written in the buffer, by byte offset from its start. */
    var hdrs: map<nat, LayerHdr>

    /**
     * retrotile_get_layer_p: the offset of layer `layerIdx`, found by
     * stepping from the end of the header over each earlier layer by its
     * total_sz, or None when there are no layers or the index is past the
     * last.
     */
    method GetLayerP(layerIdx: nat) returns (r: Option<nat>)
      ensures layersCount == 0 || layerIdx >= layersCount ==> r == None
      ensures 0 < layersCount && layerIdx < layersCount ==>
        r == Some(Walk(hdrs, RETROTILE_HDR_SZ, layerIdx))
    {
      if layersCount == 0 || layerIdx >= layersCount {
        return None;
      }
      var off: nat := RETROTILE_HDR_SZ;
      var idx: nat := layerIdx;
      while idx > 0
        invariant Walk(hdrs, off, idx) == Walk(hdrs, RETROTILE_HDR_SZ, layerIdx)
      {
        off := off + HdrAt(hdrs, off).totalSz;
        idx := idx - 1;
      }
      r := Some(off);
    }

    /**
     * retrotile_alloc: a zeroed tilemap of `n` layers of w by h tiles,
     * with its sizes, names and every layer header set. The size is
     * stored in a uint32_t. Every layer must be found by
     * retrotile_get_layer_p, as the source asserts, so `n` fits the
     * uint32_t layer count.
     */
    constructor Alloc(w: nat, h: nat, n: nat, tilemapName: seq<char>, tilesetName: seq<char>)
      requires n < TWO_32
      ensures sz == RETROTILE_HDR_SZ && totalSz == U32(TilemapSize(w, h, n))
      ensures layersCount == n && tilesW == w && tilesH == h
      ensures tileScale == RETROTILE_TILE_SCALE_DEFAULT
      ensures name == Marge.Truncate(tilemapName, RETROTILE_NAME_SZ_MAX)
      ensures tileset == Marge.Truncate(tilesetName, RETROTILE_NAME_SZ_MAX)
      ensures hdrs == Layout(w, h, n)
    {
      totalSz := U32(TilemapSize(w, h, n));
      layersCount := n;
      tilesW := w;
      tilesH := h;
      tileScale := RETROTILE_TILE_SCALE_DEFAULT;
      sz := RETROTILE_HDR_SZ;
      name := Marge.Truncate(tilemapName, RETROTILE_NAME_SZ_MAX);
      tileset := Marge.Truncate(tilesetName, RETROTILE_NAME_SZ_MAX);
      hdrs := map[];
      new;
      var i := 0;
      while i < n
        invariant i <= n && hdrs == Layout(w, h, i)
        invariant layersCount == n && tilesW == w && tilesH == h && sz == RETROTILE_HDR_SZ
        invariant totalSz == U32(TilemapSize(w, h, n))
        invariant tileScale == RETROTILE_TILE_SCALE_DEFAULT
        invariant name == Marge.Truncate(tilemapName, RETROTILE_NAME_SZ_MAX)
        invariant tileset == Marge.Truncate(tilesetName, RETROTILE_NAME_SZ_MAX)
      {
        var layer := GetLayerP(i);
        WalkLayout(w, h, i, 0, i);
        var off := layer.value;
        FreshOffset(w, h, i);
        hdrs := hdrs[off := HdrAt(hdrs, off).(totalSz := LayerSize(w, h))];
        hdrs := hdrs[off := hdrs[off].(sz := RETROTILE_LAYER_HDR_SZ)];
        i := i + 1;
      }
    }
  }

  /** The next layer's offset holds no header yet, so it reads as zero. */
  lemma FreshOffset(w: nat, h: nat, i: nat)
    ensures HdrAt(Layout(w, h, i), RETROTILE_HDR_SZ + i * LayerSize(w, h)) == ZERO_HDR
  {
    LayoutKeys(w, h, i);
  }

  /*
   * retrotile_gen_smooth_iter: every tile of a layer, row by row and left
   * to right, becomes the average of the tiles around it. Tiles already
   * smoothed count with their new values.
   */

  /** gc_retroflat_offsets8_x and gc_retroflat_offsets8_y: the eight neighbours, clockwise from up. */
  const OFFSETS8_X: seq<int> := [0, 1, 1, 1, 0, -1, -1, -1]
  const OFFSETS8_Y: seq<int> := [-1, -1, 0, 1, 1, 1, 0, -1]

  /** Tile (x, y) of a w by h layer is at y * w + x. */
  lemma CellInside(w: nat, h: nat, x: nat, y: nat)
    requires x < w && y < h
    ensures y * w + x < w * h
  {
    MulLe(y + 1, h, w);
  }

  /** The index of tile (x, y) in a w by h layer. */
  function Idx(w: nat, h: nat, x: nat, y: nat): (i: nat)
    requires x < w && y < h
    ensures i < w * h
  {
    CellInside(w, h, x, y);
    y * w + x
  }

  /**
   * The neighbours on the map among the first `n` directions, and the sum
   * of their tiles as the int16_t accumulator of the source keeps it.
   */
  function Sides(t: seq<int>, w: nat, h: nat, x: nat, y: nat, n: nat): (r: (nat, int))
    requires |t| == w * h && x < w && y < h && n <= 8
    ensures r.0 <= n
    decreases n
  {
    if n == 0 then (0, 0)
    else
      var (a, s) := Sides(t, w, h, x, y, n - 1);
      var nx, ny := x + OFFSETS8_X[n - 1], y + OFFSETS8_Y[n - 1];
      if nx < 0 || w <= nx || ny < 0 || h <= ny then (a, s)
      else (a + 1, Wrap16(s + t[Idx(w, h, nx, ny)]))
  }

  /**
   * A tile has no neighbour on the map exactly when the map is a single
   * tile.
   */
  lemma NoSidesAlone(t: seq<int>, w: nat, h: nat, x: nat, y: nat)
    requires |t| == w * h && x < w && y < h
    ensures Sides(t, w, h, x, y, 8).0 == 0 <==> w == 1 && h == 1
  {
  }

  /**
   * The new value of tile (x, y) as the source computes it, or None where
   * it divides by a neighbour count of 0.
   */
  function SmoothCellAsWritten(t: seq<int>, w: nat, h: nat, x: nat, y: nat): (v: Option<int>)
    requires |t| == w * h && x < w && y < h
    ensures v == None <==> Sides(t, w, h, x, y, 8).0 == 0
  {
    var (a, s) := Sides(t, w, h, x, y, 8);
    if a == 0 then None else Some(CDiv(s, a))
  }

  /** On a map of one tile the source divides by zero. */
  lemma LoneTileDividesByZero(v: int)
    ensures SmoothCellAsWritten([v], 1, 1, 0, 0) == None
  {
    NoSidesAlone([v], 1, 1, 0, 0);
  }

  /**
   * The new value of tile (x, y): the average of its neighbours, rounded
   * toward zero, and the tile unchanged when it has none.
   */
  function SmoothCell(t: seq<int>, w: nat, h: nat, x: nat, y: nat): (v: int)
    requires |t| == w * h && x < w && y < h
    ensures SmoothCellAsWritten(t, w, h, x, y).Some? ==> v == SmoothCellAsWritten(t, w, h, x, y).value
  {
    var (a, s) := Sides(t, w, h, x, y, 8);
    if a == 0 then t[Idx(w, h, x, y)] else CDiv(s, a)
  }

  /** The layer after the first `x` tiles of row `y` are smoothed, in order. */
  function RowSmoothed(t: seq<int>, w: nat, h: nat, y: nat, x: nat): (r: seq<int>)
    requires |t| == w * h && y < h && x <= w
    ensures |r| == |t|
    decreases x
  {
    if x == 0 then t
    else
      var p := RowSmoothed(t, w, h, y, x - 1);
      p[Idx(w, h, x - 1, y) := SmoothCell(p, w, h, x - 1, y)]
  }

  /** The layer after its first `y` rows are smoothed, in order. */
  function RowsSmoothed(t: seq<int>, w: nat, h: nat, y: nat): (r: seq<int>)
    requires |t| == w * h && y <= h
    ensures |r| == |t|
    decreases y
  {
    if y == 0 then t else RowSmoothed(RowsSmoothed(t, w, h, y - 1), w, h, y - 1, w)
  }

  /** Every tile lies in lo..hi. */
  predicate InRange(t: seq<int>, lo: int, hi: int) {
    forall i :: 0 <= i < |t| ==> lo <= t[i] <= hi
  }

  /** Tiles small enough that eight of them add up without leaving int16_t. */
  predicate Small(lo: int, hi: int) {
    -0x1000 <= lo <= hi < 0x1000
  }

  /** A sum of `a` tiles lies between a times lo and a times hi. */
  predicate SumWithin(a: nat, s: int, lo: int, hi: int) {
    a * lo <= s <= a * hi
  }

  /** One more tile in lo..hi keeps the sum of a + 1 tiles in its bounds, without wrapping. */
  lemma SumStep(a: nat, s: int, v: int, lo: int, hi: int)
    requires a < 8 && Small(lo, hi) && SumWithin(a, s, lo, hi) && lo <= v <= hi
    ensures SumWithin(a + 1, Wrap16(s + v), lo, hi)
  {
    assert (a + 1) * lo == a * lo + lo && (a + 1) * hi == a * hi + hi;
    MulBound(a + 1, lo, hi);
  }

  /** The sum of the neighbours lies between their count times lo and times hi. */
  lemma {:induction false} SidesBounds(t: seq<int>, w: nat, h: nat, x: nat, y: nat, n: nat, lo: int, hi: int)
    requires |t| == w * h && x < w && y < h && n <= 8
    requires InRange(t, lo, hi) && Small(lo, hi)
    ensures SumWithin(Sides(t, w, h, x, y, n).0, Sides(t, w, h, x, y, n).1, lo, hi)
    decreases n
  {
    var r := Sides(t, w, h, x, y, n);
    if n > 0 {
      SidesBounds(t, w, h, x, y, n - 1, lo, hi);
      var p := Sides(t, w, h, x, y, n - 1);
      var nx, ny := x + OFFSETS8_X[n - 1], y + OFFSETS8_Y[n - 1];
      if 0 <= nx < w && 0 <= ny < h {
        var v := t[Idx(w, h, nx, ny)];
        SumStep(p.0, p.1, v, lo, hi);
        assert r == (p.0 + 1, Wrap16(p.1 + v));
      } else {
        assert r == p;
      }
    } else {
      assert r == (0, 0);
    }
  }

  /** At most eight small tiles sum within int16_t. */
  lemma MulBound(a: nat, lo: int, hi: int)
    requires a <= 8 && Small(lo, hi)
    ensures -0x8000 <= a * lo && a * hi < 0x8000
  {
    if lo < 0 {
      MulLe(a, 8, -lo);
    }
    if hi > 0 {
      MulLe(a, 8, hi);
    }
  }

  lemma LtCancel(x: int, y: int, a: int)
    requires a > 0 && x * a < y * a
    ensures x < y
  {
  }

  lemma LeCancel(x: int, y: int, a: int)
    requires a > 0 && x * a <= y * a
    ensures x <= y
  {
  }

  lemma DivLower(s: int, a: nat, lo: int)
    requires a > 0 && a * lo <= s
    ensures lo <= s / a
  {
    var q, r := s / a, s % a;
    assert s == q * a + r && 0 <= r < a;
    assert a * lo < (q + 1) * a;
    LtCancel(lo, q + 1, a);
  }

  lemma DivUpper(s: int, a: nat, hi: int)
    requires a > 0 && s <= a * hi
    ensures s / a <= hi
  {
    var q, r := s / a, s % a;
    assert s == q * a + r && 0 <= r < a;
    LeCancel(q, hi, a);
  }

  /** A quotient rounded toward zero stays between the bounds the dividend has per unit of divisor. */
  lemma CDivBounds(s: int, a: nat, lo: int, hi: int)
    requires a > 0 && a * lo <= s <= a * hi
    ensures lo <= CDiv(s, a) <= hi
  {
    if s >= 0 {
      DivLower(s, a, lo);
      DivUpper(s, a, hi);
    } else {
      DivUpper(-s, a, -lo);
      DivLower(-s, a, -hi);
    }
  }

  /** The smoothed tile stays within the bounds of the layer's tiles. */
  lemma SmoothCellBounds(t: seq<int>, w: nat, h: nat, x: nat, y: nat, lo: int, hi: int)
    requires |t| == w * h && x < w && y < h
    requires InRange(t, lo, hi) && Small(lo, hi)
    ensures lo <= SmoothCell(t, w, h, x, y) <= hi
  {
    SidesBounds(t, w, h, x, y, 8, lo, hi);
    var (a, s) := Sides(t, w, h, x, y, 8);
    if a > 0 {
      CDivBounds(s, a, lo, hi);
    }
  }

  /** Smoothing part of a row keeps every tile of the layer within the bounds. */
  lemma {:induction false} RowSmoothedInRange(t: seq<int>, w: nat, h: nat, y: nat, x: nat, lo: int, hi: int)
    requires |t| == w * h && y < h && x <= w
    requires InRange(t, lo, hi) && Small(lo, hi)
    ensures InRange(RowSmoothed(t, w, h, y, x), lo, hi)
    decreases x
  {
    if x > 0 {
      RowSmoothedInRange(t, w, h, y, x - 1, lo, hi);
      var p := RowSmoothed(t, w, h, y, x - 1);
      var v := SmoothCell(p, w, h, x - 1, y);
      SmoothCellBounds(p, w, h, x - 1, y, lo, hi);
      UpdateInRange(p, Idx(w, h, x - 1, y), v, lo, hi);
    }
  }

  /** Writing a value within the bounds keeps every tile within them. */
  lemma UpdateInRange(t: seq<int>, i: nat, v: int, lo: int, hi: int)
    requires i < |t| && InRange(t, lo, hi) && lo <= v <= hi
    ensures InRange(t[i := v], lo, hi)
  {
  }

  /** Smoothing rows keeps every tile of the layer within the bounds. */
  lemma {:induction false} RowsSmoothedInRange(t: seq<int>, w: nat, h: nat, y: nat, lo: int, hi: int)
    requires |t| == w * h && y <= h
    requires InRange(t, lo, hi) && Small(lo, hi)
    ensures InRange(RowsSmoothed(t, w, h, y), lo, hi)
    decreases y
  {
    if y > 0 {
      RowsSmoothedInRange(t, w, h, y - 1, lo, hi);
      RowSmoothedInRange(RowsSmoothed(t, w, h, y - 1), w, h, y - 1, w, lo, hi);
    }
  }

  /** A flat layer, every tile the same small value, comes out of smoothing unchanged. */
  lemma FlatLayerUnchanged(t: seq<int>, w: nat, h: nat, c: int)
    requires |t| == w * h && Small(c, c)
    requires forall i :: 0 <= i < |t| ==> t[i] == c
    ensures RowsSmoothed(t, w, h, h) == t
  {
    RowsSmoothedInRange(t, w, h, h, c, c);
  }

  /**
   * Smoothing the first `x` tiles of row `y` changes none of the tiles
   * before that row, after it, or after those `x` tiles.
   */
  lemma {:induction false} RowSmoothedOnlyRow(t: seq<int>, w: nat, h: nat, y: nat, x: nat)
    requires |t| == w * h && y < h && x <= w
    ensures forall i :: 0 <= i < |t| && (i < y * w || y * w + x <= i) ==> RowSmoothed(t, w, h, y, x)[i] == t[i]
    decreases x
  {
    if x > 0 {
      RowSmoothedOnlyRow(t, w, h, y, x - 1);
      assert Idx(w, h, x - 1, y) == y * w + x - 1;
    }
  }

  /** Smoothing the first `y` rows leaves the rows after them unchanged. */
  lemma {:induction false} RowsSmoothedOnlyRows(t: seq<int>, w: nat, h: nat, y: nat)
    requires |t| == w * h && y <= h
    ensures forall i :: y * w <= i < |t| ==> RowsSmoothed(t, w, h, y)[i] == t[i]
    decreases y
  {
    if y > 0 {
      RowsSmoothedOnlyRows(t, w, h, y - 1);
      RowSmoothedOnlyRow(RowsSmoothed(t, w, h, y - 1), w, h, y - 1, w);
      assert (y - 1) * w + w == y * w;
    }
  }

  /** The first row from `y` on whose animation callback fails, or `h` when none does. */
  function FirstFailRow(anim: nat -> Error, h: nat, y: nat): (k: nat)
    requires y <= h
    ensures y <= k <= h
    ensures forall j :: y <= j < k ==> anim(j) == OK
    ensures k < h ==> anim(k) != OK
    decreases h - y
  {
    if y == h then h else if anim(y) != OK then y else FirstFailRow(anim, h, y + 1)
  }

  /** The average of the neighbours of tile (x, y), as the side loop of the source gathers it. */
  method CellValue(tiles: array<int>, w: nat, h: nat, x: nat, y: nat) returns (v: int)
    requires tiles.Length == w * h && x < w && y < h
    ensures v == SmoothCell(tiles[..], w, h, x, y)
  {
    var avail: nat, sum := 0, 0;
    var side := 0;
    while side < 8
      invariant side <= 8
      invariant (avail, sum) == Sides(tiles[..], w, h, x, y, side)
    {
      var nx, ny := x + OFFSETS8_X[side], y + OFFSETS8_Y[side];
      if 0 <= nx < w && 0 <= ny < h {
        avail := avail + 1;
        sum := Wrap16(sum + tiles[Idx(w, h, nx, ny)]);
      }
      side := side + 1;
    }
    if avail == 0 {
      v := tiles[Idx(w, h, x, y)];
    } else {
      v := CDiv(sum, avail);
    }
  }

  /** One row of retrotile_gen_smooth_iter: its tiles smoothed left to right. */
  method SmoothRow(tiles: array<int>, w: nat, h: nat, y: nat)
    requires tiles.Length == w * h && y < h
    modifies tiles
    ensures tiles[..] == RowSmoothed(old(tiles[..]), w, h, y, w)
  {
    ghost var r := tiles[..];
    var x := 0;
    while x < w
      invariant x <= w && tiles[..] == RowSmoothed(r, w, h, y, x)
    {
      var v := CellValue(tiles, w, h, x, y);
      tiles[Idx(w, h, x, y)] := v;
      x := x + 1;
    }
  }

  /**
   * retrotile_gen_smooth_iter on a layer of w by h tiles. The animation
   * callback is a function of the row (a missing callback is one that
   * always answers OK); the first row it fails on stops the pass with its
   * error, leaving the rows before it smoothed and the rest as they were.
   */
  method GenSmoothIter(tiles: array<int>, w: nat, h: nat, anim: nat -> Error) returns (e: Error)
    requires tiles.Length == w * h
    modifies tiles
    ensures tiles[..] == RowsSmoothed(old(tiles[..]), w, h, FirstFailRow(anim, h, 0))
    ensures FirstFailRow(anim, h, 0) == h ==> e == OK
    ensures FirstFailRow(anim, h, 0) < h ==> e == anim(FirstFailRow(anim, h, 0))
  {
    ghost var t0 := tiles[..];
    var y := 0;
    while y < h
      invariant y <= h && FirstFailRow(anim, h, y) == FirstFailRow(anim, h, 0)
      invariant tiles[..] == RowsSmoothed(t0, w, h, y)
    {
      e := anim(y);
      if e != OK {
        return;
      }
      SmoothRow(tiles, w, h, y);
      y := y + 1;
    }
    e := OK;
  }
}
