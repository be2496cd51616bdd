/**
 * api/font/soft/mrapifon.h: the software font renderer's memory layout and
 * metrics. A loaded font is one allocation: the RETROFONT header followed by
 * glyph_sz bytes per glyph, indexed from first_glyph. Glyph rows are decoded
 * from the hex text of a font file line, and retrofont_string_sz measures
 * the box a string occupies.
 */
module RetroFon {
  import opened Maug
  import MString

  /**
   * sizeof( struct RETROFONT ): three uint16_t and three uint8_t fields,
   * padded to the two-byte alignment of the uint16_t members.
   */
  const HEADER_SZ: nat := 10

  /** struct RETROFONT; the uint8_t fields hold values below 256. */
  datatype Font = Font(
    sz: nat,
    firstGlyph: nat,
    glyphsCount: nat,
    glyphW: nat,
    glyphH: nat,
    glyphSz: nat)

  /**
   * retrofont_glyph_at: the byte offset of glyph `idx` from the start of the
   * font. Glyphs from first_glyph on start after the header; an index below
   * first_glyph, which the function does not check, lands inside the header
   * or before the font.
   */
  function GlyphAt(f: Font, idx: int): (r: int)
    ensures f.firstGlyph <= idx ==> f.sz <= r
    ensures idx < f.firstGlyph && 0 < f.glyphSz ==> r < f.sz
  {
    f.sz + f.glyphSz * (idx - f.firstGlyph)
  }

  /** glyph_w_bytes: half the hex digits per row, stored in a uint8_t. */
  function WidthBytes(hexLen: nat, glyphH: nat): (wb: nat)
    requires 0 < glyphH
    ensures wb < 0x100
  {
    U8(hexLen / glyphH / 2)
  }

  /** The bytes retrofont_load allocates: the header and one more glyph than glyphs_count. */
  function AllocSize(glyphH: nat, widthBytes: nat, glyphsCount: nat): nat {
    HEADER_SZ + glyphH * widthBytes * (1 + glyphsCount)
  }

  /**
   * The header retrofont_load writes, given the hex length of the first
   * glyph line; glyph_w and glyph_sz are uint8_t stores.
   */
  function Loaded(hexLen: nat, glyphH: nat, firstGlyph: nat): (f: Font)
    requires 0 < glyphH < 0x100
    ensures f.sz == HEADER_SZ && f.firstGlyph == firstGlyph && f.glyphH == glyphH
    ensures f.glyphW < 0x100 && f.glyphSz < 0x100
  {
    var wb := WidthBytes(hexLen, glyphH);
    Font(HEADER_SZ, firstGlyph, 0, U8(wb * 8), glyphH, U8(glyphH * wb))
  }

  /** Exact division: k rows of h items divide back to k. */
  lemma DivExact(h: nat, k: nat)
    requires 0 < h
    ensures h * k / h == k
  {
    var q := h * k / h;
    var r := h * k % h;
    assert h * k == h * q + r && 0 <= r < h;
    assert h * (k + 1) == h * k + h && h * (q + 1) == h * q + h;
    MulMono(h, k + 1, q);
    MulMono(h, q + 1, k);
  }

  /**
   * A line of two hex digits per byte, `widthBytes` bytes per row and
   * `glyphH` rows, gives a font `widthBytes` bytes wide: 8 pixels per byte.
   */
  lemma WidthFromHex(glyphH: nat, widthBytes: nat, firstGlyph: nat)
    requires 0 < glyphH < 0x100 && widthBytes < 32
    ensures WidthBytes(2 * widthBytes * glyphH, glyphH) == widthBytes
    ensures Loaded(2 * widthBytes * glyphH, glyphH, firstGlyph).glyphW == 8 * widthBytes
  {
    assert 2 * widthBytes * glyphH == glyphH * (2 * widthBytes);
    DivExact(glyphH, 2 * widthBytes);
  }

  lemma MulLe(a: nat, b: nat, c: nat, d: nat)
    requires a <= c && b <= d
    ensures a * b <= c * d
  {
    assert a * b <= c * b;
    assert c * b <= c * d;
  }

  lemma MulMono(h: nat, a: nat, b: nat)
    ensures a <= b ==> h * a <= h * b
  {
    if a <= b {
      MulLe(h, a, h, b);
    }
  }

  /** A uint8_t store never enlarges a non-negative value. */
  lemma U8Le(x: nat)
    ensures U8(x) <= x
  {
  }

  /** The header retrofont_load writes keeps glyph_sz within glyph_h * glyph_w_bytes. */
  lemma LoadedGlyphSz(hexLen: nat, glyphH: nat, firstGlyph: nat)
    requires 0 < glyphH < 0x100
    ensures Loaded(hexLen, glyphH, firstGlyph).glyphSz <= glyphH * WidthBytes(hexLen, glyphH)
  {
    U8Le(glyphH * WidthBytes(hexLen, glyphH));
  }

  /** Slot idx of a font whose glyph_sz is at most p ends inside an allocation of p * (1 + count). */
  lemma GlyphFits(f: Font, p: nat, count: nat, idx: nat)
    requires f.sz == HEADER_SZ && f.glyphSz <= p
    requires f.firstGlyph <= idx <= f.firstGlyph + count
    ensures HEADER_SZ <= GlyphAt(f, idx) && GlyphAt(f, idx) + f.glyphSz <= HEADER_SZ + p * (1 + count)
  {
    var k := idx - f.firstGlyph;
    var g := f.glyphSz;
    assert g * k + g == g * (k + 1);
    MulLe(g, k + 1, p, 1 + count);
  }

  /**
   * Every glyph retrofont_load keeps (first_glyph <= idx <= first_glyph +
   * glyphs_count) lies inside the allocation, even when glyph_sz wraps.
   */
  lemma GlyphInAllocation(hexLen: nat, glyphH: nat, firstGlyph: nat, glyphsCount: nat, idx: nat)
    requires 0 < glyphH < 0x100
    requires firstGlyph <= idx <= firstGlyph + glyphsCount
    ensures HEADER_SZ <= GlyphAt(Loaded(hexLen, glyphH, firstGlyph), idx)
    ensures GlyphAt(Loaded(hexLen, glyphH, firstGlyph), idx) + Loaded(hexLen, glyphH, firstGlyph).glyphSz
      <= AllocSize(glyphH, WidthBytes(hexLen, glyphH), glyphsCount)
  {
    LoadedGlyphSz(hexLen, glyphH, firstGlyph);
    GlyphFits(Loaded(hexLen, glyphH, firstGlyph), glyphH * WidthBytes(hexLen, glyphH), glyphsCount, idx);
  }

  /** Distinct glyph indices get disjoint glyph_sz-byte slots, in index order. */
  lemma GlyphsDisjoint(f: Font, i: int, j: int)
    requires i < j
    ensures GlyphAt(f, i) + f.glyphSz <= GlyphAt(f, j)
  {
    var a := i - f.firstGlyph;
    var b := j - f.firstGlyph;
    assert f.glyphSz * b == f.glyphSz * (a + 1) + f.glyphSz * (b - a - 1);
    MulLe(f.glyphSz, 1, f.glyphSz, b - a);
  }

  /** Bitwise OR of two non-negative integers, one bit at a time. */
  function Or(x: nat, y: nat): nat
    decreases x + y
  {
    if x == 0 then y
    else if y == 0 then x
    else 2 * Or(x / 2, y / 2) + (if x % 2 == 1 || y % 2 == 1 then 1 else 0)
  }

  function Pow2(k: nat): (p: nat)
    ensures 0 < p
  {
    if k == 0 then 1 else 2 * Pow2(k - 1)
  }

  /** OR-ing in a value below 2^k to a multiple of 2^k is adding it. */
  lemma {:induction false} OrLow(x: nat, y: nat, k: nat)
    requires y < Pow2(k)
    ensures Or(x * Pow2(k), y) == x * Pow2(k) + y
  {
    if k > 0 && x != 0 && y != 0 {
      var h := x * Pow2(k - 1);
      assert x * Pow2(k) == 2 * h;
      OrLow(x, y / 2, k - 1);
    }
  }

  /**
   * p_glyph[i] = hctoi( hi ) << 4 | hctoi( lo ), stored in a uint8_t: the
   * low byte of the shifted high digit OR-ed with the low byte of the low one.
   */
  function RowByte(hi: char, lo: char): (r: byte)
    ensures IsHex(hi) && IsHex(lo) ==>
      r as int == 16 * MString.HexCharToInt(hi) + MString.HexCharToInt(lo)
  {
    var a := MString.HexCharToInt(hi);
    var b := MString.HexCharToInt(lo);
    assert IsHex(hi) && IsHex(lo) ==> Or(U8(16 * U8(a)), U8(b)) == 16 * a + b by {
      if IsHex(hi) && IsHex(lo) {
        assert U8(a) == a && U8(b) == b && U8(16 * a) == 16 * a;
        assert Pow2(4) == 16 by {
          assert Pow2(2) == 4;
        }
        OrLow(a, b, 4);
      }
    }
    U8(Or(U8(16 * U8(a)), U8(b))) as byte
  }

  /** The row byte as written: the same store, decoded with maug_hctoi as it stands. */
  function RowByteAsWritten(hi: char, lo: char): byte {
    U8(Or(U8(16 * U8(MString.HexCharToIntAsWritten(hi))), U8(MString.HexCharToIntAsWritten(lo)))) as byte
  }

  /**
   * As written, a glyph row spelled "09" loads as 0x02, where the corrected
   * decode gives 0x09; rows without the digit 9 agree.
   */
  lemma RowByteAsWrittenMisreadsNine()
    ensures RowByteAsWritten('0', '9') == 0x02
    ensures RowByte('0', '9') == 0x09
    ensures RowByteAsWritten('1', '8') == RowByte('1', '8') == 0x18
  {
    MString.HexCharToIntAsWrittenMisreadsNine();
    assert Or(0, 2) == 2;
    assert Or(16, 8) == 24 by {
      assert Pow2(4) == 16 by {
        assert Pow2(2) == 4;
      }
      OrLow(1, 8, 4);
    }
  }

  predicate IsHex(c: char) {
    '0' <= c <= '9' || 'A' <= c <= 'F' || 'a' <= c <= 'f'
  }

  /** The rows the width-8 decode writes: row r from hex digits 2r and 2r+1. */
  function Rows(bytes: seq<char>, n: nat): (rows: seq<byte>)
    requires 2 * n <= |bytes|
    ensures |rows| == n
  {
    if n == 0 then [] else Rows(bytes, n - 1) + [RowByte(bytes[2 * n - 2], bytes[2 * n - 1])]
  }

  /** The hex text a glyph row is written as: two digits, high nibble first. */
  function HexRow(b: byte): (t: seq<char>)
    ensures |t| == 2 && IsHex(t[0]) && IsHex(t[1])
  {
    [MString.DigitChar(b as nat / 16), MString.DigitChar(b as nat % 16)]
  }

  /** Glyph rows spelled out as hex text. */
  function HexRows(rows: seq<byte>): (t: seq<char>)
    ensures |t| == 2 * |rows|
  {
    if |rows| == 0 then [] else HexRows(rows[..|rows| - 1]) + HexRow(rows[|rows| - 1])
  }

  /** The two hex digits of a row decode back to the row. */
  lemma HexRowDecodes(b: byte)
    ensures RowByte(HexRow(b)[0], HexRow(b)[1]) == b
  {
    var t := HexRow(b);
    MString.HexCharToIntInvertsDigitChar(b as nat / 16);
    MString.HexCharToIntInvertsDigitChar(b as nat % 16);
  }

  /** Decoding a glyph's hex text gives back its rows. */
  lemma {:induction false} RowsOfHexRows(rows: seq<byte>)
    ensures Rows(HexRows(rows), |rows|) == rows
  {
    if |rows| > 0 {
      var n := |rows|;
      var init := rows[..n - 1];
      var last := HexRow(rows[n - 1]);
      var t := HexRows(rows);
      assert t == HexRows(init) + last;
      assert t[2 * n - 2] == last[0] && t[2 * n - 1] == last[1];
      assert Rows(t, n - 1) == init by {
        RowsPrefix(HexRows(init), last, n - 1);
        RowsOfHexRows(init);
      }
      HexRowDecodes(rows[n - 1]);
      assert rows == init + [rows[n - 1]];
    }
  }

  /** Extra text after the first 2n digits does not change the first n rows. */
  lemma {:induction false} RowsPrefix(t: seq<char>, u: seq<char>, n: nat)
    requires 2 * n <= |t|
    ensures Rows(t + u, n) == Rows(t, n)
  {
    if n > 0 {
      RowsPrefix(t, u, n - 1);
    }
  }

  /** The glyph bytes after `i` rows of the width-8 decode at offset `at`. */
  ghost predicate DecodedTo(now: seq<byte>, before: seq<byte>, at: nat, bytes: seq<char>, i: nat)
    requires 2 * i <= |bytes|
  {
    at + i <= |before| && now == before[..at] + Rows(bytes, i) + before[at + i..]
  }

  /** Writing row i extends the decoded rows by one. */
  lemma DecodeStep(now: seq<byte>, before: seq<byte>, at: nat, bytes: seq<char>, i: nat)
    requires 2 * i + 2 <= |bytes| && at + i < |before|
    requires DecodedTo(now, before, at, bytes, i)
    ensures DecodedTo(now[at + i := RowByte(bytes[2 * i], bytes[2 * i + 1])], before, at, bytes, i + 1)
  {
    var b := RowByte(bytes[2 * i], bytes[2 * i + 1]);
    assert Rows(bytes, i + 1) == Rows(bytes, i) + [b];
    var next := now[at + i := b];
    assert next == before[..at] + Rows(bytes, i + 1) + before[at + i + 1..];
  }

  /**
   * The row loop of retrofont_load for one glyph at offset `at`: a width-8
   * font decodes glyph_h rows; widths 16 and 32 write nothing; any other
   * width is MERROR_PARSE as soon as a row is attempted.
   */
  method DecodeGlyph(glyph: array<byte>, at: nat, f: Font, bytes: seq<char>) returns (retval: Error)
    requires at + f.glyphH <= glyph.Length
    requires f.glyphW == 8 ==> 2 * f.glyphH <= |bytes|
    modifies glyph
    ensures retval == (if 0 < f.glyphH && f.glyphW != 8 && f.glyphW != 16 && f.glyphW != 32 then Parse else OK)
    ensures f.glyphW == 8 ==> glyph[..] == old(glyph[..at]) + Rows(bytes, f.glyphH) + old(glyph[at + f.glyphH..])
    ensures f.glyphW != 8 ==> glyph[..] == old(glyph[..])
  {
    var i := 0;
    retval := OK;
    if f.glyphW != 8 {
      if 0 < f.glyphH && f.glyphW != 16 && f.glyphW != 32 {
        retval := Parse;
      }
      return;
    }
    ghost var before := glyph[..];
    assert DecodedTo(glyph[..], before, at, bytes, 0) by {
      assert before == before[..at] + [] + before[at..];
    }
    while i < f.glyphH
      invariant 0 <= i <= f.glyphH
      invariant DecodedTo(glyph[..], before, at, bytes, i)
    {
      DecodeStep(glyph[..], before, at, bytes, i);
      glyph[at + i] := RowByte(bytes[2 * i], bytes[2 * i + 1]);
      i := i + 1;
    }
  }

  /** The measuring state of retrofont_string_sz: x_iter, *p_out_w, *p_out_h and retval. */
  datatype Pen = Pen(x: nat, w: Option<nat>, h: nat, retval: Error)

  predicate IsBreak(c: char) {
    c == '\r' || c == '\n'
  }

  /**
   * One character of retrofont_string_sz. A forced newline starts a new
   * line; any other character advances x by glyph_w, widens *p_out_w, and
   * wraps when max_w is set and the next glyph would not fit. The source's
   * extra `i < str_sz` test is always true inside the loop.
   */
  function Advance(f: Font, maxW: nat, maxH: nat, p: Pen, c: char): Pen {
    if IsBreak(c) then p.(x := 0, h := p.h + f.glyphH)
    else
      var x := p.x + f.glyphW;
      var w := if p.w.Some? && p.w.value <= x then Some(x) else p.w;
      if 0 < maxW && maxW < x + f.glyphW then
        var h := p.h + f.glyphH;
        Pen(0, w, h, if 0 < maxH && maxH <= h + f.glyphH then Gui else p.retval)
      else Pen(x, w, p.h, p.retval)
  }

  /** Where the character loop stops: at n, at a NUL, or at the end of the buffer. */
  function Stop(s: seq<char>, n: nat, i: nat): (j: nat)
    requires i <= |s|
    ensures i <= j <= |s|
    decreases |s| - i
  {
    if n <= i || |s| <= i || s[i] == '\0' then i else Stop(s, n, i + 1)
  }

  /** The character loop of retrofont_string_sz from index i. */
  function Run(f: Font, maxW: nat, maxH: nat, s: seq<char>, n: nat, i: nat, p: Pen): Pen
    decreases |s| - i
  {
    if n <= i || |s| <= i || s[i] == '\0' then p
    else Run(f, maxW, maxH, s, n, i + 1, Advance(f, maxW, maxH, p, s[i]))
  }

  /** The forced newlines in `t`. */
  function Breaks(t: seq<char>): nat {
    if |t| == 0 then 0 else (if IsBreak(t[0]) then 1 else 0) + Breaks(t[1..])
  }

  /**
   * What retrofont_string_sz leaves: MERROR_GUI and no change for a NULL
   * font; otherwise the loop over str_sz characters (strlen when 0), then
   * one more glyph_h of height and 1 more of width.
   */
  function StringSize(str: seq<char>, strSz: nat, font: Option<Font>, maxW: nat, maxH: nat, outW: Option<nat>, outH: nat): (r: (Error, Option<nat>, nat))
    ensures font.None? ==> r == (Gui, outW, outH)
    ensures font.Some? ==> outH + font.value.glyphH <= r.2
    ensures font.Some? ==> r.0 in {OK, Gui}
    ensures r.1.Some? <==> outW.Some?
    ensures font.Some? && outW.Some? ==> outW.value < r.1.value
  {
    if font.None? then (Gui, outW, outH)
    else
      var f := font.value;
      var n := if strSz == 0 then Strlen(str) else strSz;
      var p := Run(f, maxW, maxH, str, n, 0, Pen(0, outW, outH, OK));
      RunGrows(f, maxW, maxH, str, n, 0, Pen(0, outW, outH, OK));
      (p.retval, if p.w.Some? then Some(p.w.value + 1) else None, p.h + f.glyphH)
  }

  /**
   * The character loop only adds height, keeps a NULL width NULL, never
   * narrows a width it was given, and only ever sets the result to MERROR_GUI.
   */
  lemma {:induction false} RunGrows(f: Font, maxW: nat, maxH: nat, s: seq<char>, n: nat, i: nat, p: Pen)
    ensures var q := Run(f, maxW, maxH, s, n, i, p);
      && p.h <= q.h
      && (q.w.Some? <==> p.w.Some?)
      && (p.w.Some? ==> p.w.value <= q.w.value)
      && (q.retval == p.retval || q.retval == Gui)
    decreases |s| - i
  {
    if !(n <= i || |s| <= i || s[i] == '\0') {
      RunGrows(f, maxW, maxH, s, n, i + 1, Advance(f, maxW, maxH, p, s[i]));
    }
  }

  /** retrofont_string_sz; a NULL p_out_w is None, a NULL p_out_h is an initial height of 0. */
  method StringSz(str: seq<char>, strSz: nat, font: Option<Font>, maxW: nat, maxH: nat, outW: Option<nat>, outH: nat)
    returns (retval: Error, w: Option<nat>, h: nat)
    requires strSz <= |str| || '\0' in str
    ensures (retval, w, h) == StringSize(str, strSz, font, maxW, maxH, outW, outH)
    ensures font.None? ==> retval == Gui && w == outW && h == outH
  {
    if font.None? {
      return Gui, outW, outH;
    }
    var f := font.value;
    var n := if strSz == 0 then Strlen(str) else strSz;
    var p := Pen(0, outW, outH, OK);
    var i := 0;
    while i < n
      invariant Run(f, maxW, maxH, str, n, i, p) == Run(f, maxW, maxH, str, n, 0, Pen(0, outW, outH, OK))
      decreases n - i
    {
      if i >= |str| || str[i] == '\0' {
        break;
      }
      p := Advance(f, maxW, maxH, p, str[i]);
      i := i + 1;
    }
    retval := p.retval;
    w := if p.w.Some? then Some(p.w.value + 1) else None;
    h := p.h + f.glyphH;
  }

  /**
   * Without wrapping (max_w 0) the height grows by glyph_h per forced
   * newline and nothing is reported as not fitting.
   */
  lemma {:induction false} UnwrappedHeight(f: Font, maxH: nat, s: seq<char>, n: nat, i: nat, p: Pen)
    requires i <= |s|
    ensures Run(f, 0, maxH, s, n, i, p).h == p.h + f.glyphH * Breaks(s[i..Stop(s, n, i)])
    ensures Run(f, 0, maxH, s, n, i, p).retval == p.retval
    decreases |s| - i
  {
    if n <= i || |s| <= i || s[i] == '\0' {
      assert s[i..Stop(s, n, i)] == [];
    } else {
      var q := Advance(f, 0, maxH, p, s[i]);
      UnwrappedHeight(f, maxH, s, n, i + 1, q);
      var t := s[i..Stop(s, n, i)];
      assert t[1..] == s[i + 1..Stop(s, n, i + 1)];
      assert t[0] == s[i];
      var k := Breaks(t[1..]);
      if IsBreak(s[i]) {
        assert f.glyphH * (1 + k) == f.glyphH + f.glyphH * k;
      }
    }
  }

  /**
   * Without wrapping, a line with no forced newline is glyph_w per
   * character wide, and *p_out_w ends at the larger of its start and that.
   */
  lemma {:induction false} LineWidth(f: Font, maxH: nat, s: seq<char>, n: nat, i: nat, p: Pen)
    requires i <= |s| && Breaks(s[i..Stop(s, n, i)]) == 0
    requires p.w.None? || p.x <= p.w.value
    ensures Run(f, 0, maxH, s, n, i, p).x == p.x + f.glyphW * (Stop(s, n, i) - i)
    ensures p.w.Some? ==> Run(f, 0, maxH, s, n, i, p).w == Some(Max(p.w.value, Run(f, 0, maxH, s, n, i, p).x))
    ensures p.w.None? ==> Run(f, 0, maxH, s, n, i, p).w.None?
    decreases |s| - i
  {
    if !(n <= i || |s| <= i || s[i] == '\0') {
      var t := s[i..Stop(s, n, i)];
      assert t[1..] == s[i + 1..Stop(s, n, i + 1)] && t[0] == s[i];
      assert !IsBreak(s[i]);
      var x := p.x + f.glyphW;
      var q := Pen(x, if p.w.Some? && p.w.value <= x then Some(x) else p.w, p.h, p.retval);
      assert Advance(f, 0, maxH, p, s[i]) == q;
      assert Run(f, 0, maxH, s, n, i, p) == Run(f, 0, maxH, s, n, i + 1, q);
      LineWidth(f, maxH, s, n, i + 1, q);
      var m := Stop(s, n, i) - i - 1;
      assert f.glyphW * (m + 1) == f.glyphW + f.glyphW * m;
    }
  }

  function Max(a: nat, b: nat): nat {
    if a < b then b else a
  }

  /** With max_w set, the pen never stands where the next glyph would cross max_w. */
  predicate WithinMaxW(f: Font, maxW: nat, p: Pen) {
    p.x == 0 || p.x + f.glyphW <= maxW
  }

  /**
   * With wrapping (max_w > 0), the measured width never exceeds the
   * larger of the caller's starting width, max_w and one glyph.
   */
  lemma {:induction false} WrappedWidth(f: Font, maxW: nat, maxH: nat, s: seq<char>, n: nat, i: nat, p: Pen, bound: nat)
    requires 0 < maxW && WithinMaxW(f, maxW, p)
    requires p.w.Some? && p.w.value <= bound && maxW <= bound && f.glyphW <= bound
    ensures WithinMaxW(f, maxW, Run(f, maxW, maxH, s, n, i, p))
    ensures Run(f, maxW, maxH, s, n, i, p).w.Some?
    ensures Run(f, maxW, maxH, s, n, i, p).w.value <= bound
    decreases |s| - i
  {
    if !(n <= i || |s| <= i || s[i] == '\0') {
      WrappedWidth(f, maxW, maxH, s, n, i + 1, Advance(f, maxW, maxH, p, s[i]), bound);
    }
  }
}
