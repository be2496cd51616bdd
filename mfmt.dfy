/**
 * The Windows bitmap reader of src/mfmt.h: the BITMAPINFOHEADER fields
 * and their checks, the palette, and the unpacking of 1, 2, 4 or 8-bit
 * pixels stored bottom-up, most significant bits first, with each row
 * padded to a multiple of four bytes.
 */
module MFmt {
  import opened Maug

  /** The size of a BITMAPINFOHEADER, the only header the reader accepts. */
  const BMPINFO_SZ: nat := 40

  /** MFMT_BMP_COMPRESSION_NONE. */
  const COMPRESSION_NONE: nat := 0

  /*
   * Little-endian fields.
   */

  /** The unsigned little-endian value of the bytes `s`. */
  function LE(s: seq<byte>): nat
  {
    if |s| == 0 then 0 else s[0] as nat + 0x100 * LE(s[1..])
  }

  /** The `n` little-endian bytes of `v` (its low `n` bytes). */
  function LEBytes(v: nat, n: nat): (s: seq<byte>)
    ensures |s| == n
    decreases n
  {
    if n == 0 then [] else [U8(v) as byte] + LEBytes(v / 0x100, n - 1)
  }

  /** 256 to the power `n`. */
  function Pow256(n: nat): (p: nat)
    ensures 0 < p
  {
    if n == 0 then 1 else 0x100 * Pow256(n - 1)
  }

  /** Reading `n` bytes back gives the value written, when it fits in them. */
  lemma {:induction false} LEOfLEBytes(v: nat, n: nat)
    requires v < Pow256(n)
    ensures LE(LEBytes(v, n)) == v
    decreases n
  {
    if n > 0 {
      U8IsMod(v);
      var s := LEBytes(v, n);
      assert s[1..] == LEBytes(v / 0x100, n - 1);
      LEOfLEBytes(v / 0x100, n - 1);
    }
  }

  /*
   * mfmt_read_bmp_header.
   */

  /** The fields of struct MFMT_STRUCT_BMPINFO the reader fills. */
  datatype BmpInfo = BmpInfo(
    sz: nat,
    width: int,
    height: int,
    bpp: nat,
    compression: nat,
    paletteNcolors: nat)

  /**
   * A little-endian field of `n` bytes at `pos` of the header bytes `h`,
   * as a field read delivers it: the bytes' value when they lie inside the
   * file, and otherwise `prev`, what the destination held before, because
   * a read past the end is refused and copies nothing.
   */
  function FieldAt(h: seq<byte>, pos: nat, n: nat, prev: nat): nat
  {
    if pos + n <= |h| then LE(h[pos..pos + n]) else prev
  }

  /** The bytes of the file from `offset` on; none when `offset` lies past its end. */
  function From(data: seq<byte>, offset: nat): (h: seq<byte>)
    ensures offset <= |data| ==> h == data[offset..]
    ensures |data| < offset ==> h == []
  {
    if offset <= |data| then data[offset..] else []
  }

  /**
   * mfmt_read_bmp_header: `header` is what the caller's structure holds
   * (its `sz` selects the info header), `data` the file and `offset` the
   * start of the info header. The header size read from the file must be
   * 40, the bits per pixel at most 8 and the compression none; anything
   * else is MERROR_FILE. The results of the field reads are not checked,
   * so a field cut off by the end of the file keeps the caller's value; a
   * header size that cannot be read stays 0 and is refused.
   */
  function ReadBmpHeader(header: BmpInfo, data: seq<byte>, offset: nat): (r: Result<BmpInfo>)
    ensures r.Err? ==> r.error == File
    ensures header.sz != BMPINFO_SZ || |data| < offset + 4 ==> r == Err(File)
    ensures r.Ok? ==>
      && r.value.sz == BMPINFO_SZ && r.value.bpp <= 8
      && r.value.compression == COMPRESSION_NONE
    ensures r.Ok? && offset + BMPINFO_SZ <= |data| ==>
      && -0x8000_0000 <= r.value.width < 0x8000_0000
      && -0x8000_0000 <= r.value.height < 0x8000_0000
    ensures r.Ok? && |data| < offset + 8 ==> r.value.width == header.width
    ensures r.Ok? && |data| < offset + 12 ==> r.value.height == header.height
    ensures r.Ok? && |data| < offset + 36 ==> r.value.paletteNcolors == header.paletteNcolors
  {
    ParseInfoHeader(header, From(data, offset))
  }

  /** The checks and reads of mfmt_read_bmp_header on the bytes `h` from the header's start. */
  function ParseInfoHeader(header: BmpInfo, h: seq<byte>): (r: Result<BmpInfo>)
  {
    if header.sz != BMPINFO_SZ then Err(File)
    else if FieldAt(h, 0, 4, 0) != BMPINFO_SZ then Err(File)
    else
      var width := if 8 <= |h| then Wrap32(LE(h[4..8])) else header.width;
      var height := if 12 <= |h| then Wrap32(LE(h[8..12])) else header.height;
      var bpp := FieldAt(h, 14, 2, header.bpp);
      if 8 < bpp then Err(File)
      else
        var compression := FieldAt(h, 16, 4, header.compression);
        if compression != COMPRESSION_NONE then Err(File)
        else Ok(BmpInfo(header.sz, width, height, bpp, compression, FieldAt(h, 32, 4, header.paletteNcolors)))
  }

  /**
   * A BITMAPINFOHEADER as a writer lays it out: size 40, width, height,
   * one colour plane, bits per pixel, no compression, three zero fields,
   * the palette size and no important colours.
   */
  function InfoHeaderBytes(width: int, height: int, bpp: nat, ncolors: nat): (s: seq<byte>)
    ensures |s| == BMPINFO_SZ
  {
    LEBytes(BMPINFO_SZ, 4) + LEBytes(U32(width), 4) + LEBytes(U32(height), 4)
      + LEBytes(1, 2) + LEBytes(bpp, 2) + LEBytes(COMPRESSION_NONE, 4)
      + LEBytes(0, 12) + LEBytes(ncolors, 4) + LEBytes(0, 4)
  }

  /** A signed 32-bit value survives its conversion to uint32_t and back. */
  lemma Wrap32OfU32(x: int)
    requires -0x8000_0000 <= x < 0x8000_0000
    ensures Wrap32(U32(x)) == x
  {
    if x < 0 {
      assert U32(x) == U32(x + 0x1_0000_0000) == x + 0x1_0000_0000;
      assert Wrap32(x + 0x1_0000_0000) == Wrap32(x);
    }
  }

  /**
   * The header reader recovers the fields of a well-formed info header
   * wherever it sits in the file, and refuses one with more than 8 bits
   * per pixel.
   */
  lemma ReadInfoHeader(header: BmpInfo, pre: seq<byte>, width: int, height: int, bpp: nat, ncolors: nat,
                       post: seq<byte>)
    requires header.sz == BMPINFO_SZ
    requires -0x8000_0000 <= width < 0x8000_0000 && -0x8000_0000 <= height < 0x8000_0000
    requires bpp < 0x1_0000 && ncolors < 0x1_0000_0000
    ensures ReadBmpHeader(header, pre + InfoHeaderBytes(width, height, bpp, ncolors) + post, |pre|)
      == if bpp <= 8 then Ok(BmpInfo(BMPINFO_SZ, width, height, bpp, COMPRESSION_NONE, ncolors))
         else Err(File)
  {
    ReadAfter(header, pre, InfoHeaderBytes(width, height, bpp, ncolors) + post);
    assert pre + InfoHeaderBytes(width, height, bpp, ncolors) + post
      == pre + (InfoHeaderBytes(width, height, bpp, ncolors) + post);
    ParseInfoHeaderBytes(header, width, height, bpp, ncolors, post);
  }

  /** Reading at the end of `pre` parses what follows it. */
  lemma ReadAfter(header: BmpInfo, pre: seq<byte>, rest: seq<byte>)
    ensures ReadBmpHeader(header, pre + rest, |pre|) == ParseInfoHeader(header, rest)
  {
    assert From(pre + rest, |pre|) == rest by {
      assert (pre + rest)[|pre|..] == rest;
    }
  }

  /** The header fields read back from InfoHeaderBytes, whatever follows it. */
  lemma ParseInfoHeaderBytes(header: BmpInfo, width: int, height: int, bpp: nat, ncolors: nat, post: seq<byte>)
    requires header.sz == BMPINFO_SZ
    requires -0x8000_0000 <= width < 0x8000_0000 && -0x8000_0000 <= height < 0x8000_0000
    requires bpp < 0x1_0000 && ncolors < 0x1_0000_0000
    ensures ParseInfoHeader(header, InfoHeaderBytes(width, height, bpp, ncolors) + post)
      == if bpp <= 8 then Ok(BmpInfo(BMPINFO_SZ, width, height, bpp, COMPRESSION_NONE, ncolors))
         else Err(File)
  {
    HeaderBytesFields(header, width, height, bpp, ncolors, post);
    Wrap32OfU32(width);
    Wrap32OfU32(height);
  }

  /** Each field of InfoHeaderBytes reads back as written, whatever follows it. */
  lemma HeaderBytesFields(header: BmpInfo, width: int, height: int, bpp: nat, ncolors: nat, post: seq<byte>)
    requires bpp < 0x1_0000 && ncolors < 0x1_0000_0000
    ensures var hp := InfoHeaderBytes(width, height, bpp, ncolors) + post;
      && FieldAt(hp, 0, 4, 0) == BMPINFO_SZ
      && 12 <= |hp| && LE(hp[4..8]) == U32(width) && LE(hp[8..12]) == U32(height)
      && FieldAt(hp, 14, 2, header.bpp) == bpp
      && FieldAt(hp, 16, 4, header.compression) == COMPRESSION_NONE
      && FieldAt(hp, 32, 4, header.paletteNcolors) == ncolors
  {
    assert Pow256(2) == 0x1_0000 && Pow256(4) == 0x1_0000_0000 by {
      assert Pow256(1) == 0x100;
      assert Pow256(3) == 0x100_0000;
    }
    var h := InfoHeaderBytes(width, height, bpp, ncolors);
    var hp := h + post;
    assert hp[0..4] == h[0..4] && hp[4..8] == h[4..8] && hp[8..12] == h[8..12];
    assert hp[14..16] == h[14..16] && hp[16..20] == h[16..20] && hp[32..36] == h[32..36];
    InfoHeaderFields(width, height, bpp, ncolors);
    LEOfLEBytes(BMPINFO_SZ, 4);
    LEOfLEBytes(U32(width), 4);
    LEOfLEBytes(U32(height), 4);
    LEOfLEBytes(bpp, 2);
    LEOfLEBytes(COMPRESSION_NONE, 4);
    LEOfLEBytes(ncolors, 4);
  }

  /** Where each field sits in InfoHeaderBytes. */
  lemma InfoHeaderFields(width: int, height: int, bpp: nat, ncolors: nat)
    ensures var h := InfoHeaderBytes(width, height, bpp, ncolors);
      && h[0..4] == LEBytes(BMPINFO_SZ, 4)
      && h[4..8] == LEBytes(U32(width), 4)
      && h[8..12] == LEBytes(U32(height), 4)
      && h[14..16] == LEBytes(bpp, 2)
      && h[16..20] == LEBytes(COMPRESSION_NONE, 4)
      && h[32..36] == LEBytes(ncolors, 4)
  {
    var f0, f1, f2 := LEBytes(BMPINFO_SZ, 4), LEBytes(U32(width), 4), LEBytes(U32(height), 4);
    var f3, f4, f5 := LEBytes(1, 2), LEBytes(bpp, 2), LEBytes(COMPRESSION_NONE, 4);
    var f6, f7, f8 := LEBytes(0, 12), LEBytes(ncolors, 4), LEBytes(0, 4);
    var p1 := f0 + f1;
    var p2 := p1 + f2;
    var p4 := p2 + f3 + f4;
    var p5 := p4 + f5;
    var p7 := p5 + f6 + f7;
    var h := p7 + f8;
    assert h == InfoHeaderBytes(width, height, bpp, ncolors);
    assert h[0..4] == f0 by {
      Prefix(p7, f8, 0, 4); Prefix(p5 + f6, f7, 0, 4); Prefix(p5, f6, 0, 4);
      Prefix(p4, f5, 0, 4); Prefix(p2 + f3, f4, 0, 4); Prefix(p2, f3, 0, 4);
      Prefix(p1, f2, 0, 4); Prefix(f0, f1, 0, 4);
    }
    assert h[4..8] == f1 by {
      Prefix(p7, f8, 4, 8); Prefix(p5 + f6, f7, 4, 8); Prefix(p5, f6, 4, 8);
      Prefix(p4, f5, 4, 8); Prefix(p2 + f3, f4, 4, 8); Prefix(p2, f3, 4, 8);
      Prefix(p1, f2, 4, 8); Suffix(f0, f1, 0, 4);
    }
    assert h[8..12] == f2 by {
      Prefix(p7, f8, 8, 12); Prefix(p5 + f6, f7, 8, 12); Prefix(p5, f6, 8, 12);
      Prefix(p4, f5, 8, 12); Prefix(p2 + f3, f4, 8, 12); Prefix(p2, f3, 8, 12);
      Suffix(p1, f2, 0, 4);
    }
    assert h[14..16] == f4 by {
      Prefix(p7, f8, 14, 16); Prefix(p5 + f6, f7, 14, 16); Prefix(p5, f6, 14, 16);
      Prefix(p4, f5, 14, 16); Suffix(p2 + f3, f4, 0, 2);
    }
    assert h[16..20] == f5 by {
      Prefix(p7, f8, 16, 20); Prefix(p5 + f6, f7, 16, 20); Prefix(p5, f6, 16, 20);
      Suffix(p4, f5, 0, 4);
    }
    assert h[32..36] == f7 by {
      Prefix(p7, f8, 32, 36); Suffix(p5 + f6, f7, 0, 4);
    }
  }

  /** A slice of the first part of a concatenation. */
  lemma Prefix(a: seq<byte>, b: seq<byte>, i: nat, j: nat)
    requires i <= j <= |a|
    ensures (a + b)[i..j] == a[i..j]
  {
  }

  /** A slice of the second part of a concatenation. */
  lemma Suffix(a: seq<byte>, b: seq<byte>, i: nat, j: nat)
    requires i <= j <= |b|
    ensures (a + b)[|a| + i..|a| + j] == b[i..j]
  {
  }

  /*
   * mfmt_read_bmp_palette.
   */

  /**
   * Palette entry `i`: the little-endian uint32_t at byte 4 * i of the
   * palette, or `prev`, what the entry held, when those bytes run past the
   * end of the file and the read copies nothing.
   */
  function PaletteEntry(data: seq<byte>, offset: nat, i: nat, prev: nat): (v: nat)
    ensures offset + 4 * (i + 1) <= |data| ==> v == LE(data[offset + 4 * i..offset + 4 * i + 4])
    ensures |data| < offset + 4 * (i + 1) ==> v == prev
  {
    FieldAt(data, offset + 4 * i, 4, prev)
  }

  /**
   * mfmt_read_bmp_palette, with the bound check corrected: entry `i` is
   * read only when its four bytes fit in the `paletteSz` bytes of
   * `palette`, otherwise the result is MERROR_OVERFLOW. Every entry that
   * fits is read, and nothing else in `palette` changes. The result of
   * each read is not checked, so an entry past the end of a truncated file
   * keeps its old value and the result is still MERROR_OK.
   */
  method ReadBmpPalette(info: BmpInfo, palette: array<nat>, paletteSz: nat, data: seq<byte>, offset: nat)
    returns (e: Error)
    requires paletteSz <= 4 * palette.Length
    modifies palette
    ensures info.sz != BMPINFO_SZ ==> e == File && palette[..] == old(palette[..])
    ensures info.sz == BMPINFO_SZ ==>
      && (e == OK || e == Overflow)
      && (e == OK <==> 4 * info.paletteNcolors <= paletteSz)
      && forall i | 0 <= i < info.paletteNcolors && 4 * (i + 1) <= paletteSz ::
           palette[i] == PaletteEntry(data, offset, i, old(palette[i]))
    ensures forall i | 0 <= i < palette.Length && !(i < info.paletteNcolors && 4 * (i + 1) <= paletteSz) ::
      palette[i] == old(palette[i])
  {
    if info.sz != BMPINFO_SZ {
      return File;
    }
    var i := 0;
    while i < info.paletteNcolors
      invariant i <= info.paletteNcolors && 4 * i <= paletteSz
      invariant forall k | 0 <= k < i :: palette[k] == PaletteEntry(data, offset, k, old(palette[k]))
      invariant forall k | i <= k < palette.Length :: palette[k] == old(palette[k])
    {
      if 4 * (i + 1) > paletteSz {
        return Overflow;
      }
      palette[i] := FieldAt(data, offset + 4 * i, 4, palette[i]);
      i := i + 1;
    }
    return OK;
  }

  /**
   * The number of entries mfmt_read_bmp_palette as written stores, from
   * entry `i` on: it stops only once `i * 4 > paletteSz`, so the entry
   * starting exactly at byte `paletteSz` is still stored.
   */
  function PaletteStoresAsWritten(ncolors: nat, paletteSz: nat, i: nat): (n: nat)
    requires i <= ncolors
    ensures i <= n <= ncolors
    decreases ncolors - i
  {
    if i == ncolors then ncolors
    else if i * 4 > paletteSz then i
    else PaletteStoresAsWritten(ncolors, paletteSz, i + 1)
  }

  /**
   * As written, a palette of three colours read into an 8-byte buffer
   * stores all three entries: the third lies in bytes 8 to 11, past the
   * buffer. The corrected reader stores two and reports MERROR_OVERFLOW.
   */
  lemma PaletteAsWrittenOverflows()
    ensures PaletteStoresAsWritten(3, 8, 0) == 3
    ensures 4 * PaletteStoresAsWritten(3, 8, 0) > 8
  {
  }

  /*
   * mfmt_read_bmp_px: the layout of the pixel array.
   */

  /** The pixel depths the unpacker handles: a pixel never straddles a byte. */
  predicate ValidBpp(bpp: nat)
  {
    bpp == 1 || bpp == 2 || bpp == 4 || bpp == 8
  }

  /** Pixels per byte. */
  function PerByte(bpp: nat): (p: nat)
    requires ValidBpp(bpp)
    ensures 1 <= p <= 8
  {
    if bpp == 1 then 8 else if bpp == 2 then 4 else if bpp == 4 then 2 else 1
  }

  /**
   * The reader's pixel mask for `n` bits: `n` rounds of shifting right by
   * one and setting the top bit, which leaves `n` one bits at the top.
   */
  function TopOnes(n: nat): bv8
  {
    if n == 0 then 0 else (TopOnes(n - 1) >> 1) | 0x80
  }

  /** `b >> s`, one bit at a time. */
  function ShrN(b: bv8, s: nat): bv8
  {
    if s == 0 then b else ShrN(b >> 1, s - 1)
  }

  /**
   * The `bpp`-bit pixel of `b` whose highest bit is bit `k` - 1, taken as
   * the reader takes it: masked with MaskAt, then shifted down.
   */
  function Field(b: bv8, k: nat, bpp: nat): bv8
    requires 1 <= bpp <= k <= 8
  {
    ShrN(b & MaskAt(k, bpp), k - bpp)
  }

  /** The pixels of `b` below bit `k`, most significant first. */
  function Fields(b: bv8, k: nat, bpp: nat): (s: seq<bv8>)
    requires 1 <= bpp && k <= 8
    decreases k
  {
    if k < bpp then [] else [Field(b, k, bpp)] + Fields(b, k - bpp, bpp)
  }

  /** The pixels packed in `s`, byte after byte. */
  function Unpack(s: seq<byte>, bpp: nat): seq<bv8>
    requires 1 <= bpp <= 8
  {
    if |s| == 0 then [] else Unpack(s[..|s| - 1], bpp) + Fields(s[|s| - 1] as bv8, 8, bpp)
  }

  /** The bytes holding `width` pixels. */
  function RowBytes(width: nat, bpp: nat): nat
    requires ValidBpp(bpp)
  {
    if bpp == 1 then (width + 7) / 8
    else if bpp == 2 then (width + 3) / 4
    else if bpp == 4 then (width + 1) / 2
    else width
  }

  /** The bytes of a stored row: RowBytes padded to a multiple of four. */
  function Stride(width: nat, bpp: nat): (n: nat)
    requires ValidBpp(bpp)
  {
    (RowBytes(width, bpp) + 3) / 4 * 4
  }

  /** Where stored row `r` begins. */
  function RowOffset(r: nat, stride: nat): nat
  {
    if r == 0 then 0 else RowOffset(r - 1, stride) + stride
  }

  /**
   * The index of pixel (`x`, `y`) in the output: `y` rows of `width`
   * pixels, then `x`, which lies inside a `width` x `height` buffer.
   */
  function PxIndex(y: nat, x: nat, width: nat, height: nat): (i: nat)
    requires x < width && y < height
    ensures i < width * height
  {
    RowOffsetMono(y, height, width);
    RowOffsetProduct(height, width);
    RowOffset(y, width) + x
  }

  /**
   * Output row `y` of a `width` x `height` image whose pixel array begins
   * at `offset`: stored row `height - 1 - y`, because rows are stored
   * bottom-up.
   */
  function BmpRow(data: seq<byte>, offset: nat, width: nat, height: nat, bpp: nat, y: nat): (row: seq<bv8>)
    requires ValidBpp(bpp) && y < height
    requires offset + RowOffset(height, Stride(width, bpp)) <= |data|
    ensures |row| == width
  {
    var stride := Stride(width, bpp);
    var start := offset + RowOffset(height - 1 - y, stride);
    RowOffsetMono(height - 1 - y, height, stride);
    StrideCovers(width, bpp);
    UnpackLength(data[start..start + RowBytes(width, bpp)], bpp);
    RowBytesCover(width, bpp);
    Unpack(data[start..start + RowBytes(width, bpp)], bpp)[..width]
  }

  /*
   * Facts about the layout.
   */

  /** Every byte unpacks to PerByte pixels. */
  lemma {:induction false} UnpackLength(s: seq<byte>, bpp: nat)
    requires ValidBpp(bpp)
    ensures |Unpack(s, bpp)| == |s| * PerByte(bpp)
  {
    if |s| > 0 {
      var n, p := |s|, PerByte(bpp);
      UnpackLength(s[..n - 1], bpp);
      FieldsLength(s[n - 1] as bv8, bpp);
      assert |Unpack(s, bpp)| == (n - 1) * p + p;
    }
  }

  /** A whole byte holds PerByte pixels. */
  lemma FieldsLength(b: bv8, bpp: nat)
    requires ValidBpp(bpp)
    ensures |Fields(b, 8, bpp)| == PerByte(bpp)
  {
    FieldsCount(b, 8, bpp);
  }

  /** The bytes of a row hold at least `width` pixels. */
  lemma RowBytesCover(width: nat, bpp: nat)
    requires ValidBpp(bpp)
    ensures width <= RowBytes(width, bpp) * PerByte(bpp)
  {
  }

  /** The stride holds the row's bytes and is a multiple of four. */
  lemma StrideCovers(width: nat, bpp: nat)
    requires ValidBpp(bpp)
    ensures RowBytes(width, bpp) <= Stride(width, bpp) < RowBytes(width, bpp) + 4
    ensures Stride(width, bpp) % 4 == 0
  {
  }

  /** Rows of equal length: row `r` begins at `r * stride`. */
  lemma {:induction false} RowOffsetProduct(r: nat, stride: nat)
    ensures RowOffset(r, stride) == r * stride
  {
    if r > 0 {
      RowOffsetProduct(r - 1, stride);
      assert (r - 1) * stride + stride == r * stride;
    }
  }

  /** A row ends no later than the next one begins. */
  lemma {:induction false} RowOffsetMono(r: nat, s: nat, stride: nat)
    requires r < s
    ensures RowOffset(r, stride) + stride <= RowOffset(s, stride)
    decreases s - r
  {
    if r + 1 < s {
      RowOffsetMono(r, s - 1, stride);
    }
  }

  /** The pixels below bit `k`: one for every `bpp` bits. */
  lemma {:induction false} FieldsCount(b: bv8, k: nat, bpp: nat)
    requires 1 <= bpp && k <= 8
    ensures |Fields(b, k, bpp)| * bpp <= k < (|Fields(b, k, bpp)| + 1) * bpp
    decreases k
  {
    if bpp <= k {
      FieldsCount(b, k - bpp, bpp);
    }
  }

  /** `k` is a whole number of `bpp`-bit pixels. */
  predicate Multiple(k: nat, bpp: nat)
    requires 1 <= bpp
    decreases k
  {
    k == 0 || (bpp <= k && Multiple(k - bpp, bpp))
  }

  /** A whole byte holds a whole number of pixels. */
  lemma WholeByte(bpp: nat)
    requires ValidBpp(bpp)
    ensures Multiple(8, bpp)
  {
    if bpp == 1 {
      assert Multiple(4, 1) by { assert Multiple(2, 1); }
      assert Multiple(7, 1);
    } else if bpp == 2 {
      assert Multiple(4, 2);
    }
  }

  /** The mask after the pixels above bit `k` have been taken. */
  function MaskAt(k: nat, bpp: nat): bv8
    requires bpp <= k <= 8
  {
    ShrN(TopOnes(bpp), 8 - k)
  }

  /** At four bits per pixel the high nibble comes first, then the low one. */
  lemma FourBitFields(b: bv8)
    ensures Fields(b, 8, 4) == [b >> 4, b & 0x0f]
  {
    var m := b & 0xf0;
    assert MaskAt(8, 4) == 0xf0 by {
      assert TopOnes(2) == 0xc0;
    }
    assert ShrN(m, 4) == b >> 4 by {
      assert ShrN(m, 4) == ShrN(m >> 1, 3) == ShrN((m >> 1) >> 1, 2);
      assert ShrN((m >> 1) >> 1, 2) == ShrN(((m >> 1) >> 1) >> 1, 1) == (((m >> 1) >> 1) >> 1) >> 1;
    }
    assert MaskAt(4, 4) == 0x0f by {
      var t := TopOnes(4);
      assert ShrN(t, 4) == ShrN(t >> 1, 3) == ShrN((t >> 1) >> 1, 2);
      assert ShrN((t >> 1) >> 1, 2) == ShrN(((t >> 1) >> 1) >> 1, 1) == (((t >> 1) >> 1) >> 1) >> 1;
    }
    assert Fields(b, 0, 4) == [];
  }

  /** At eight bits per pixel the byte is the pixel. */
  lemma EightBitFields(b: bv8)
    ensures Fields(b, 8, 8) == [b]
  {
    assert Fields(b, 0, 8) == [];
  }

  /** Shifting the mask right by `bpp` moves it to the next pixel. */
  lemma MaskNext(k: nat, bpp: nat)
    requires ValidBpp(bpp) && bpp <= k <= 8
    ensures bpp <= k - bpp ==> ShrN(MaskAt(k, bpp), bpp) == MaskAt(k - bpp, bpp)
  {
    ShrNAdd(TopOnes(bpp), 8 - k, bpp);
  }

  /** Two shifts in a row shift by their sum. */
  lemma {:induction false} ShrNAdd(b: bv8, s: nat, t: nat)
    ensures ShrN(ShrN(b, s), t) == ShrN(b, s + t)
    decreases s
  {
    if s > 0 {
      ShrNAdd(b >> 1, s - 1, t);
    }
  }

  /** Fewer than a byte's worth of bits leaves fewer than PerByte pixels. */
  lemma FieldsFewer(b: bv8, k: nat, bpp: nat)
    requires ValidBpp(bpp) && k < 8
    ensures |Fields(b, k, bpp)| < PerByte(bpp)
  {
    FieldsCount(b, k, bpp);
  }

  /** A row's bytes are whole once its `width` pixels leave fewer than a byte's worth. */
  lemma RowEnd(n: nat, width: nat, rest: nat, bpp: nat)
    requires ValidBpp(bpp) && rest < PerByte(bpp)
    requires n * PerByte(bpp) == width + rest
    ensures n == RowBytes(width, bpp)
  {
  }

  /** Bytes that unpack to `width` pixels and less than a byte more are a row's bytes. */
  lemma RowLength(bytes: seq<byte>, width: nat, rest: nat, bpp: nat)
    requires ValidBpp(bpp) && rest < PerByte(bpp)
    requires |Unpack(bytes, bpp)| == width + rest
    ensures |bytes| == RowBytes(width, bpp)
  {
    UnpackLength(bytes, bpp);
    RowEnd(|bytes|, width, rest, bpp);
  }

  /** While fewer than `width` pixels are decoded, the row has bytes left. */
  lemma ReadBound(n: nat, x: nat, width: nat, bpp: nat)
    requires ValidBpp(bpp) && x < width
    requires n * PerByte(bpp) == x
    ensures n < RowBytes(width, bpp)
  {
  }

  /** Every row begins at a multiple of four. */
  lemma {:induction false} RowOffsetAligned(r: nat, stride: nat)
    requires stride % 4 == 0
    ensures RowOffset(r, stride) % 4 == 0
  {
    if r > 0 {
      RowOffsetAligned(r - 1, stride);
    }
  }

  /** Padding the end of a row to four bytes reaches the start of the next row. */
  lemma PadRow(start: nat, j: nat, width: nat, bpp: nat)
    requires ValidBpp(bpp) && start % 4 == 0
    requires j % 4 == 0 && start + RowBytes(width, bpp) <= j < start + RowBytes(width, bpp) + 4
    ensures j == start + Stride(width, bpp)
  {
  }

  /** Reading one more byte of a row appends its pixels. */
  lemma ReadStep(data: seq<byte>, offset: nat, start: nat, idx: nat, next: nat, bpp: nat, row: seq<bv8>, b: bv8)
    requires 1 <= bpp <= 8 && start <= idx && next == idx + 1 && offset + idx < |data|
    requires b == data[offset + idx] as bv8
    requires Unpack(data[offset + start..offset + idx], bpp) == row
    ensures Unpack(data[offset + start..offset + next], bpp) == row + Fields(b, 8, bpp)
  {
    assert data[offset + start..offset + next] == data[offset + start..offset + idx] + [data[offset + idx]];
    UnpackLast(data[offset + start..offset + next], data[offset + start..offset + idx], data[offset + idx], bpp);
  }

  /** Unpacking a byte string that ends in `c`. */
  lemma UnpackLast(s: seq<byte>, t: seq<byte>, c: byte, bpp: nat)
    requires 1 <= bpp <= 8 && s == t + [c]
    ensures Unpack(s, bpp) == Unpack(t, bpp) + Fields(c as bv8, 8, bpp)
  {
    assert s[..|s| - 1] == t;
  }

  /**
   * Once `width` pixels of stored row `height - 1 - y` are decoded with
   * less than a byte left over, the bytes read are exactly the row's and
   * the pixels are output row `y`.
   */
  lemma RowDone(data: seq<byte>, offset: nat, width: nat, height: nat, bpp: nat, y: nat,
                end: nat, row: seq<bv8>, rest: seq<bv8>)
    requires ValidBpp(bpp) && y < height
    requires offset + RowOffset(height, Stride(width, bpp)) <= |data|
    requires RowOffset(height - 1 - y, Stride(width, bpp)) <= end
    requires offset + end <= |data|
    requires Unpack(data[offset + RowOffset(height - 1 - y, Stride(width, bpp))..offset + end], bpp) == row + rest
    requires |row| == width && |rest| < PerByte(bpp)
    ensures end == RowOffset(height - 1 - y, Stride(width, bpp)) + RowBytes(width, bpp)
    ensures row == BmpRow(data, offset, width, height, bpp, y)
  {
    var start := offset + RowOffset(height - 1 - y, Stride(width, bpp));
    var seg := data[start..offset + end];
    assert offset + end == start + RowBytes(width, bpp) by {
      RowLength(seg, width, |rest|, bpp);
    }
    assert row == Unpack(seg, bpp)[..width] by {
      assert (row + rest)[..width] == row;
    }
    BmpRowIs(data, offset, width, height, bpp, y);
  }

  /** Output row `y` is the first `width` pixels unpacked from stored row `height - 1 - y`. */
  lemma BmpRowIs(data: seq<byte>, offset: nat, width: nat, height: nat, bpp: nat, y: nat)
    requires ValidBpp(bpp) && y < height
    requires offset + RowOffset(height, Stride(width, bpp)) <= |data|
    ensures var start := offset + RowOffset(height - 1 - y, Stride(width, bpp));
      start + RowBytes(width, bpp) <= |data|
      && width <= |Unpack(data[start..start + RowBytes(width, bpp)], bpp)|
      && BmpRow(data, offset, width, height, bpp, y) == Unpack(data[start..start + RowBytes(width, bpp)], bpp)[..width]
  {
    var start := offset + RowOffset(height - 1 - y, Stride(width, bpp));
    var rb := RowBytes(width, bpp);
    assert start + rb <= |data| by {
      RowOffsetMono(height - 1 - y, height, Stride(width, bpp));
      StrideCovers(width, bpp);
    }
    var seg := data[start..start + rb];
    assert width <= |Unpack(seg, bpp)| by {
      UnpackLength(seg, bpp);
      RowBytesCover(width, bpp);
    }
  }

  /**
   * The bytes of `data` from `offset + start` up to `offset + idx` unpack to
   * the pixels `row` already taken followed by those still in the top `k`
   * bits of the byte buffer `b`.
   */
  ghost predicate Decoded(data: seq<byte>, offset: nat, start: nat, idx: nat, bpp: nat, row: seq<bv8>, b: bv8, k: nat)
  {
    && 1 <= bpp <= 8 && k <= 8 && start <= idx && offset + idx <= |data|
    && Unpack(data[offset + start..offset + idx], bpp) == row + Fields(b, k, bpp)
  }

  /** Taking the pixel below bit `k` moves it from the byte buffer to the row. */
  lemma DecodedStep(data: seq<byte>, offset: nat, start: nat, idx: nat, bpp: nat, row: seq<bv8>, b: bv8, k: nat)
    requires 1 <= bpp <= k && Multiple(k, bpp)
    requires Decoded(data, offset, start, idx, bpp, row, b, k)
    ensures Decoded(data, offset, start, idx, bpp, row + [Field(b, k, bpp)], b, k - bpp)
    ensures Multiple(k - bpp, bpp)
    ensures k - bpp != 0 ==> bpp <= k - bpp
  {
    var f, rest := Field(b, k, bpp), Fields(b, k - bpp, bpp);
    assert Fields(b, k, bpp) == [f] + rest;
    assert row + ([f] + rest) == (row + [f]) + rest;
  }

  /**
   * While fewer than `width` pixels of a row are decoded and the byte
   * buffer is used up, the row's next byte is in the data.
   */
  lemma ReadBounds(data: seq<byte>, offset: nat, width: nat, height: nat, bpp: nat, y: nat, r: nat,
                   end: nat, row: seq<bv8>, b: bv8, k: nat)
    requires ValidBpp(bpp) && y < height && r == height - 1 - y && k <= 8
    requires offset + RowOffset(height, Stride(width, bpp)) <= |data|
    requires RowOffset(r, Stride(width, bpp)) <= end
    requires offset + end <= |data|
    requires Decoded(data, offset, RowOffset(r, Stride(width, bpp)), end, bpp, row, b, k)
    requires |row| < width
    ensures k == 0 ==> offset + end < |data|
  {
    if k == 0 {
      var start := RowOffset(r, Stride(width, bpp));
      assert Fields(b, 0, bpp) == [];
      UnpackLength(data[offset + start..offset + end], bpp);
      ReadBound(end - start, |row|, width, bpp);
      RowOffsetMono(r, height, Stride(width, bpp));
      StrideCovers(width, bpp);
    }
  }

  /**
   * At the end of output row `y`: the decoded pixels are the row, and
   * padding the byte index to four reaches the next stored row.
   */
  lemma NextRow(data: seq<byte>, offset: nat, width: nat, height: nat, bpp: nat, y: nat, r: nat,
                start: nat, end: nat, padded: nat, row: seq<bv8>, b: bv8, k: nat)
    requires ValidBpp(bpp) && y < height && r == height - 1 - y && k < 8
    requires offset + RowOffset(height, Stride(width, bpp)) <= |data|
    requires start == RowOffset(r, Stride(width, bpp))
    requires start <= end && offset + end <= |data|
    requires Decoded(data, offset, start, end, bpp, row, b, k)
    requires |row| == width
    requires padded % 4 == 0 && end <= padded < end + 4
    ensures row == BmpRow(data, offset, width, height, bpp, y)
    ensures padded == start + Stride(width, bpp) == RowOffset(r + 1, Stride(width, bpp))
    ensures offset + padded <= |data|
    ensures Unpack(data[offset + padded..offset + padded], bpp) == []
  {
    var stride := Stride(width, bpp);
    StrideCovers(width, bpp);
    RowOffsetMono(r, height, stride);
    FieldsFewer(b, k, bpp);
    RowDone(data, offset, width, height, bpp, y, end, row, Fields(b, k, bpp));
    RowOffsetAligned(r, stride);
    PadRow(start, padded, width, bpp);
  }

  /** The mask loop: `bpp` rounds of shifting right and setting the top bit. */
  method ByteMask(bpp: nat) returns (mask: bv8)
    requires bpp <= 8
    ensures mask == TopOnes(bpp)
  {
    mask := 0;
    var i: nat := 0;
    while i < bpp
      invariant i <= bpp && mask == TopOnes(i)
    {
      mask := mask >> 1;
      mask := mask | 0x80;
      i := i + 1;
    }
  }

  /** The padding loop: steps `i` up to the next multiple of four. */
  method PadToFour(i: nat) returns (j: nat)
    ensures j % 4 == 0 && i <= j < i + 4
  {
    ghost var next := i + (4 - i % 4) % 4;
    assert next % 4 == 0;
    j := i;
    while j % 4 != 0
      invariant i <= j <= next
      decreases next - j
    {
      j := j + 1;
    }
  }

  /**
   * A fresh byte: read at `byteIdx`, with the bit position back at 8 and
   * the mask rebuilt over the top `bpp` bits.
   */
  method LoadByte(data: seq<byte>, offset: nat, bpp: nat, ghost start: nat, ghost row: seq<bv8>, byteIdx: nat)
    returns (byteIdx': nat, bitIdx': nat, byteBuf': bv8, mask': bv8)
    requires ValidBpp(bpp) && start <= byteIdx && offset + byteIdx < |data|
    requires Unpack(data[offset + start..offset + byteIdx], bpp) == row
    ensures byteIdx' == byteIdx + 1 && bitIdx' == 8 && Multiple(bitIdx', bpp)
    ensures byteBuf' == data[offset + byteIdx] as bv8
    ensures mask' == MaskAt(bitIdx', bpp)
    ensures Decoded(data, offset, start, byteIdx', bpp, row, byteBuf', bitIdx')
  {
    byteBuf' := data[offset + byteIdx] as bv8;
    byteIdx' := byteIdx + 1;
    ReadStep(data, offset, start, byteIdx, byteIdx', bpp, row, byteBuf');
    bitIdx' := 8;
    mask' := ByteMask(bpp);
    WholeByte(bpp);
  }

  /** With the buffer used up (bit position 0), load the next byte; otherwise keep the buffer. */
  method Refill(data: seq<byte>, offset: nat, bpp: nat, ghost start: nat, ghost row: seq<bv8>,
                byteIdx: nat, bitIdx: nat, byteBuf: bv8, mask: bv8)
    returns (byteIdx': nat, bitIdx': nat, byteBuf': bv8, mask': bv8)
    requires ValidBpp(bpp) && bitIdx < 8 && Multiple(bitIdx, bpp)
    requires bitIdx != 0 ==> bpp <= bitIdx && mask == MaskAt(bitIdx, bpp)
    requires start <= byteIdx && offset + byteIdx <= |data|
    requires bitIdx == 0 ==> offset + byteIdx < |data|
    requires Decoded(data, offset, start, byteIdx, bpp, row, byteBuf, bitIdx)
    ensures bpp <= bitIdx' <= 8 && Multiple(bitIdx', bpp) && mask' == MaskAt(bitIdx', bpp)
    ensures bitIdx != 0 ==> byteIdx' == byteIdx && bitIdx' == bitIdx && byteBuf' == byteBuf
    ensures bitIdx == 0 ==> byteIdx' == byteIdx + 1 && bitIdx' == 8 && byteBuf' == data[offset + byteIdx] as bv8
    ensures offset + byteIdx' <= |data|
    ensures Decoded(data, offset, start, byteIdx', bpp, row, byteBuf', bitIdx')
  {
    byteIdx', bitIdx', byteBuf', mask' := byteIdx, bitIdx, byteBuf, mask;
    if bitIdx == 0 {
      assert Fields(byteBuf, 0, bpp) == [];
      byteIdx', bitIdx', byteBuf', mask' := LoadByte(data, offset, bpp, start, row, byteIdx);
    }
  }

  /** Or-ing the masked byte into a cleared buffer and shifting gives the pixel. */
  lemma MaskedPixel(b: bv8, mask: bv8, k: nat, bpp: nat)
    requires 1 <= bpp <= k <= 8 && mask == MaskAt(k, bpp)
    ensures ShrN(0 | (b & mask), k - bpp) == Field(b, k, bpp)
  {
    assert 0 | (b & mask) == b & mask;
  }

  /**
   * One pixel from the byte buffer: the bits under the mask shifted down
   * to bit 0, then the mask and the bit position moved on by `bpp`.
   */
  method TakePixel(byteBuf: bv8, mask: bv8, bitIdx: nat, bpp: nat) returns (pixel: bv8, mask': bv8, bitIdx': nat)
    requires ValidBpp(bpp) && bpp <= bitIdx <= 8
    requires mask == MaskAt(bitIdx, bpp)
    ensures pixel == Field(byteBuf, bitIdx, bpp)
    ensures bitIdx' == bitIdx - bpp
    ensures bpp <= bitIdx' ==> mask' == MaskAt(bitIdx', bpp)
  {
    pixel := 0;
    pixel := pixel | (byteBuf & mask);
    pixel := ShrN(pixel, bitIdx - bpp);
    MaskedPixel(byteBuf, mask, bitIdx, bpp);
    mask' := ShrN(mask, bpp);
    bitIdx' := bitIdx - bpp;
    MaskNext(bitIdx, bpp);
  }

  /**
   * One pixel of the reader's loop: a fresh byte when the bits of the
   * last one are used up, then the pixel under the mask, and the mask and
   * bit position moved to the next pixel.
   */
  method NextPixel(data: seq<byte>, offset: nat, bpp: nat, ghost start: nat, ghost row: seq<bv8>,
                   byteIdx: nat, bitIdx: nat, byteBuf: bv8, mask: bv8)
    returns (pixel: bv8, byteIdx': nat, bitIdx': nat, byteBuf': bv8, mask': bv8)
    requires ValidBpp(bpp) && bitIdx < 8 && Multiple(bitIdx, bpp)
    requires bitIdx != 0 ==> bpp <= bitIdx && mask == MaskAt(bitIdx, bpp)
    requires start <= byteIdx && offset + byteIdx <= |data|
    requires bitIdx == 0 ==> offset + byteIdx < |data|
    requires Decoded(data, offset, start, byteIdx, bpp, row, byteBuf, bitIdx)
    ensures bitIdx' < 8 && Multiple(bitIdx', bpp)
    ensures bitIdx' != 0 ==> bpp <= bitIdx' && mask' == MaskAt(bitIdx', bpp)
    ensures byteIdx <= byteIdx' && offset + byteIdx' <= |data|
    ensures Decoded(data, offset, start, byteIdx', bpp, row + [pixel], byteBuf', bitIdx')
  {
    byteIdx', bitIdx', byteBuf', mask' := Refill(data, offset, bpp, start, row, byteIdx, bitIdx, byteBuf, mask);
    DecodedStep(data, offset, start, byteIdx', bpp, row, byteBuf', bitIdx');
    pixel, mask', bitIdx' := TakePixel(byteBuf', mask', bitIdx', bpp);
  }

  /** What the pixel reader needs of a BITMAPINFOHEADER image and its buffers. */
  predicate PxFits(info: BmpInfo, pxLength: nat, dataLength: nat, offset: nat)
  {
    && 0 < info.width
    && 0 <= info.height
    && ValidBpp(info.bpp)
    && info.width * info.height <= pxLength
    && offset + RowOffset(info.height, Stride(info.width, info.bpp)) <= dataLength
  }

  /** Pixel indexes of rows below `y` lie past every pixel of row `y`. */
  lemma PxIndexOrder(y: nat, x: nat, width: nat, height: nat)
    requires x < width && y < height
    ensures forall yy: nat, xx: nat | y < yy < height && xx < width ::
      PxIndex(y, x, width, height) < PxIndex(yy, xx, width, height)
  {
    forall yy: nat, xx: nat | y < yy < height && xx < width
      ensures PxIndex(y, x, width, height) < PxIndex(yy, xx, width, height)
    {
      RowOffsetMono(y, yy, width);
    }
  }

  /** Output rows below `lo` hold the image's rows. */
  ghost predicate RowsFrom(s: seq<bv8>, data: seq<byte>, offset: nat, width: nat, height: nat, bpp: nat, lo: int)
    requires ValidBpp(bpp) && offset + RowOffset(height, Stride(width, bpp)) <= |data|
    requires width * height <= |s|
  {
    forall yy: nat, j: nat | lo < yy < height && j < width ::
      s[PxIndex(yy, j, width, height)] == BmpRow(data, offset, width, height, bpp, yy)[j]
  }

  /** Output row `y` begins with `row`. */
  ghost predicate RowPrefix(s: seq<bv8>, y: nat, width: nat, height: nat, row: seq<bv8>)
    requires y < height && |row| <= width && width * height <= |s|
  {
    forall j | 0 <= j < |row| :: s[PxIndex(y, j, width, height)] == row[j]
  }

  /** `s` agrees with `orig` from index `n` on. */
  ghost predicate SameFrom(s: seq<bv8>, orig: seq<bv8>, n: int)
  {
    |s| == |orig| && forall k | 0 <= k < |s| && n <= k :: s[k] == orig[k]
  }

  /** Storing the next pixel of row `y` extends its prefix and keeps the rows below. */
  lemma PutPixel(s: seq<bv8>, data: seq<byte>, offset: nat, width: nat, height: nat, bpp: nat,
                 y: nat, row: seq<bv8>, v: bv8, orig: seq<bv8>)
    requires ValidBpp(bpp) && offset + RowOffset(height, Stride(width, bpp)) <= |data|
    requires y < height && |row| < width && width * height <= |s|
    requires RowsFrom(s, data, offset, width, height, bpp, y)
    requires RowPrefix(s, y, width, height, row)
    requires SameFrom(s, orig, width * height)
    ensures SameFrom(s[PxIndex(y, |row|, width, height) := v], orig, width * height)
    ensures RowsFrom(s[PxIndex(y, |row|, width, height) := v], data, offset, width, height, bpp, y)
    ensures RowPrefix(s[PxIndex(y, |row|, width, height) := v], y, width, height, row + [v])
  {
    PxIndexOrder(y, |row|, width, height);
  }

  /** A finished row `y` joins the rows below. */
  lemma FinishRow(s: seq<bv8>, data: seq<byte>, offset: nat, width: nat, height: nat, bpp: nat,
                  y: nat, row: seq<bv8>)
    requires ValidBpp(bpp) && offset + RowOffset(height, Stride(width, bpp)) <= |data|
    requires y < height && width * height <= |s|
    requires row == BmpRow(data, offset, width, height, bpp, y)
    requires RowsFrom(s, data, offset, width, height, bpp, y)
    requires RowPrefix(s, y, width, height, row)
    ensures RowsFrom(s, data, offset, width, height, bpp, y - 1)
  {
  }

  /**
   * The step after a pixel is stored: on to the next column or, at the
   * end of a row, up to the next stored row, with the byte index padded
   * to four and the bit position cleared. `s` is the output so far.
   */
  method NextPosition(data: seq<byte>, offset: nat, width: nat, height: nat, bpp: nat, ghost s: seq<bv8>,
                      x: nat, y: int, byteIdx: nat, bitIdx: nat, byteBuf: bv8,
                      ghost r: nat, ghost rowStart: nat, ghost rowOut: seq<bv8>)
    returns (x': nat, y': int, byteIdx': nat, bitIdx': nat, ghost r': nat, ghost rowStart': nat, ghost rowOut': seq<bv8>)
    requires ValidBpp(bpp) && width * height <= |s| && offset + RowOffset(height, Stride(width, bpp)) <= |data|
    requires 0 <= y < height && 0 < x <= width && bitIdx < 8 && Multiple(bitIdx, bpp)
    requires r == height - 1 - y && rowStart == RowOffset(r, Stride(width, bpp))
    requires rowStart <= byteIdx && offset + byteIdx <= |data|
    requires Decoded(data, offset, rowStart, byteIdx, bpp, rowOut, byteBuf, bitIdx)
    requires |rowOut| == x
    requires RowPrefix(s, y, width, height, rowOut)
    requires RowsFrom(s, data, offset, width, height, bpp, y)
    ensures -1 <= y' < height && x' < width && (y' < y || (y' == y && x' == x))
    ensures bitIdx' < 8 && Multiple(bitIdx', bpp) && (bitIdx' != 0 ==> bitIdx' == bitIdx)
    ensures r' == height - 1 - y' && rowStart' == RowOffset(r', Stride(width, bpp))
    ensures rowStart' <= byteIdx' && offset + byteIdx' <= |data|
    ensures Decoded(data, offset, rowStart', byteIdx', bpp, rowOut', byteBuf, bitIdx')
    ensures |rowOut'| == x'
    ensures 0 <= y' ==> RowPrefix(s, y', width, height, rowOut')
    ensures RowsFrom(s, data, offset, width, height, bpp, y')
  {
    x', y', byteIdx', bitIdx', r', rowStart', rowOut' := x, y, byteIdx, bitIdx, r, rowStart, rowOut;
    if x' >= width {
      var padded := PadToFour(byteIdx);
      NextRow(data, offset, width, height, bpp, y, r, rowStart, byteIdx, padded, rowOut, byteBuf, bitIdx);
      FinishRow(s, data, offset, width, height, bpp, y, rowOut);
      y' := y - 1;
      x' := 0;
      byteIdx' := padded;
      bitIdx' := 0;
      r' := r + 1;
      rowStart' := padded;
      rowOut' := [];
      assert Fields(byteBuf, 0, bpp) == [];
    }
  }

  /**
   * mfmt_read_bmp_px with the bit position cleared at the end of each row:
   * reads the stored rows bottom-up from `offset` in `data` and writes the
   * unpacked pixels to `px`, output row `y` at `y * width`.
   */
  method ReadBmpPx(info: BmpInfo, px: array<bv8>, data: seq<byte>, offset: nat) returns (e: Error)
    requires info.sz == BMPINFO_SZ ==> PxFits(info, px.Length, |data|, offset)
    modifies px
    ensures info.sz != BMPINFO_SZ ==> e == File && px[..] == old(px[..])
    ensures info.sz == BMPINFO_SZ ==> e == OK
    ensures info.sz == BMPINFO_SZ ==>
      forall y: nat, x: nat | y < info.height && x < info.width ::
        px[PxIndex(y, x, info.width, info.height)] == BmpRow(data, offset, info.width, info.height, info.bpp, y)[x]
    ensures info.sz == BMPINFO_SZ ==> px[info.width * info.height..] == old(px[info.width * info.height..])
  {
    if info.sz != BMPINFO_SZ {
      return File;
    }
    ReadPixels(px, data, offset, info.width, info.height, info.bpp);
    e := OK;
  }

  /** The state of the pixel loop of mfmt_read_bmp_px between two pixels. */
  ghost predicate Reading(s: seq<bv8>, orig: seq<bv8>, data: seq<byte>, offset: nat, width: nat, height: nat, bpp: nat,
                          x: nat, y: int, byteIdx: nat, bitIdx: nat, byteBuf: bv8, mask: bv8,
                          r: nat, rowStart: nat, rowOut: seq<bv8>)
  {
    && ValidBpp(bpp) && width * height <= |s| && offset + RowOffset(height, Stride(width, bpp)) <= |data|
    && -1 <= y < height && x < width
    && bitIdx < 8 && Multiple(bitIdx, bpp)
    && (bitIdx != 0 ==> bpp <= bitIdx && mask == MaskAt(bitIdx, bpp))
    && r == height - 1 - y && rowStart == RowOffset(r, Stride(width, bpp))
    && rowStart <= byteIdx && offset + byteIdx <= |data|
    && Decoded(data, offset, rowStart, byteIdx, bpp, rowOut, byteBuf, bitIdx)
    && |rowOut| == x
    && (0 <= y ==> RowPrefix(s, y, width, height, rowOut))
    && RowsFrom(s, data, offset, width, height, bpp, y)
    && SameFrom(s, orig, width * height)
  }

  /** Before the first pixel nothing is read and nothing is stored. */
  lemma ReadingStart(s: seq<bv8>, data: seq<byte>, offset: nat, width: nat, height: nat, bpp: nat)
    requires 0 < width && ValidBpp(bpp) && width * height <= |s|
    requires offset + RowOffset(height, Stride(width, bpp)) <= |data|
    ensures Reading(s, s, data, offset, width, height, bpp, 0, height - 1, 0, 0, 0, 0, 0, 0, [])
  {
    assert Unpack(data[offset..offset], bpp) == [];
  }

  /** When the loop ends every output row is in place and nothing past the image changed. */
  lemma ReadingDone(s: seq<bv8>, orig: seq<bv8>, data: seq<byte>, offset: nat, width: nat, height: nat, bpp: nat,
                    x: nat, y: int, byteIdx: nat, bitIdx: nat, byteBuf: bv8, mask: bv8,
                    r: nat, rowStart: nat, rowOut: seq<bv8>)
    requires y < 0
    requires Reading(s, orig, data, offset, width, height, bpp, x, y, byteIdx, bitIdx, byteBuf, mask, r, rowStart, rowOut)
    ensures |s| == |orig| && 0 <= width * height <= |s|
    ensures forall yy: nat, xx: nat | yy < height && xx < width ::
      s[PxIndex(yy, xx, width, height)] == BmpRow(data, offset, width, height, bpp, yy)[xx]
    ensures s[width * height..] == orig[width * height..]
  {
    AreaNat(width, height);
  }

  /** The pixel count of an image is never negative. */
  lemma AreaNat(width: nat, height: nat)
    ensures 0 <= width * height
  {
  }

  /** One pass of the pixel loop: read the next pixel, store it, move on. */
  method ReadOne(px: array<bv8>, ghost orig: seq<bv8>, data: seq<byte>, offset: nat, width: nat, height: nat, bpp: nat,
                 x: nat, y: int, byteIdx: nat, bitIdx: nat, byteBuf: bv8, mask: bv8,
                 ghost r: nat, ghost rowStart: nat, ghost rowOut: seq<bv8>)
    returns (x': nat, y': int, byteIdx': nat, bitIdx': nat, byteBuf': bv8, mask': bv8,
             ghost r': nat, ghost rowStart': nat, ghost rowOut': seq<bv8>)
    requires 0 <= y
    requires Reading(px[..], orig, data, offset, width, height, bpp, x, y, byteIdx, bitIdx, byteBuf, mask, r, rowStart, rowOut)
    modifies px
    ensures Reading(px[..], orig, data, offset, width, height, bpp, x', y', byteIdx', bitIdx', byteBuf', mask', r', rowStart', rowOut')
    ensures y' < y || (y' == y && x < x')
  {
    ReadBounds(data, offset, width, height, bpp, y, r, byteIdx, rowOut, byteBuf, bitIdx);
    var pixel;
    pixel, byteIdx', bitIdx', byteBuf', mask' := NextPixel(data, offset, bpp, rowStart, rowOut, byteIdx, bitIdx, byteBuf, mask);
    ghost var s := px[..];
    px[PxIndex(y, x, width, height)] := pixel;
    assert px[..] == s[PxIndex(y, x, width, height) := pixel];
    PutPixel(s, data, offset, width, height, bpp, y, rowOut, pixel, orig);
    x', y', byteIdx', bitIdx', r', rowStart', rowOut' :=
      NextPosition(data, offset, width, height, bpp, px[..], x + 1, y, byteIdx', bitIdx', byteBuf', r, rowStart, rowOut + [pixel]);
  }

  /** The pixel loop of mfmt_read_bmp_px, once the header is accepted. */
  method ReadPixels(px: array<bv8>, data: seq<byte>, offset: nat, width: nat, height: nat, bpp: nat)
    requires 0 < width && ValidBpp(bpp) && width * height <= px.Length
    requires offset + RowOffset(height, Stride(width, bpp)) <= |data|
    modifies px
    ensures forall y: nat, x: nat | y < height && x < width ::
      px[PxIndex(y, x, width, height)] == BmpRow(data, offset, width, height, bpp, y)[x]
    ensures px[width * height..] == old(px[width * height..])
  {
    var x: nat, y: int := 0, height - 1;
    var byteIdx: nat, bitIdx: nat := 0, 0;
    var byteBuf: bv8, mask: bv8 := 0, 0;
    ghost var r: nat, rowStart: nat, rowOut: seq<bv8> := 0, 0, [];
    ReadingStart(px[..], data, offset, width, height, bpp);
    while 0 <= y
      invariant Reading(px[..], old(px[..]), data, offset, width, height, bpp, x, y, byteIdx, bitIdx, byteBuf, mask, r, rowStart, rowOut)
      decreases y + 1, width - x
    {
      x, y, byteIdx, bitIdx, byteBuf, mask, r, rowStart, rowOut :=
        ReadOne(px, old(px[..]), data, offset, width, height, bpp, x, y, byteIdx, bitIdx, byteBuf, mask, r, rowStart, rowOut);
    }
    ReadingDone(px[..], old(px[..]), data, offset, width, height, bpp, x, y, byteIdx, bitIdx, byteBuf, mask, r, rowStart, rowOut);
  }

  /*
   * The pixel loop as written: at the end of a row the byte index is padded
   * to four but the bit position is kept, so a row that ends part way into
   * a byte makes the next row start with that byte's remaining bits.
   */

  /**
   * The rest of the as-written loop from column `x` of output row `y`,
   * returning the pixel buffer, or None on a byte past the end of `data`.
   */
  function ReadPxAsWritten(data: seq<byte>, offset: nat, width: nat, height: nat, bpp: nat,
                           x: nat, y: int, byteIdx: nat, bitIdx: nat, byteBuf: bv8, mask: bv8,
                           px: seq<bv8>): (r: Option<seq<bv8>>)
    requires ValidBpp(bpp) && x < width && -1 <= y < height && width * height <= |px|
    requires bitIdx < 8 && Multiple(bitIdx, bpp) && (bitIdx != 0 ==> bpp <= bitIdx)
    ensures r.Some? ==> |r.value| == |px|
    decreases y + 1, width - x
  {
    if y < 0 then Some(px)
    else if bitIdx == 0 && |data| <= offset + byteIdx then None
    else
      var (byteIdx1, bitIdx1, byteBuf1, mask1) :=
        if bitIdx == 0 then (byteIdx + 1, 8, data[offset + byteIdx] as bv8, TopOnes(bpp))
        else (byteIdx, bitIdx, byteBuf, mask);
      WholeByte(bpp);
      var pixel := ShrN(0 | (byteBuf1 & mask1), bitIdx1 - bpp);
      RowMajor(y, x, width, height);
      var px' := px[y * width + x := pixel];
      DecodedStepBits(bitIdx1, bpp);
      if x + 1 >= width then
        ReadPxAsWritten(data, offset, width, height, bpp, 0, y - 1, byteIdx1 + (4 - byteIdx1 % 4) % 4,
                        bitIdx1 - bpp, byteBuf1, ShrN(mask1, bpp), px')
      else
        ReadPxAsWritten(data, offset, width, height, bpp, x + 1, y, byteIdx1,
                        bitIdx1 - bpp, byteBuf1, ShrN(mask1, bpp), px')
  }

  /** The source's pixel index `y * width + x` is PxIndex, inside the image. */
  lemma RowMajor(y: nat, x: nat, width: nat, height: nat)
    requires x < width && y < height
    ensures y * width + x == PxIndex(y, x, width, height) < width * height
  {
    RowOffsetProduct(y, width);
  }

  /** Taking a pixel from a whole number of pixels leaves a whole number. */
  lemma DecodedStepBits(k: nat, bpp: nat)
    requires 1 <= bpp <= k && Multiple(k, bpp)
    ensures Multiple(k - bpp, bpp) && (k - bpp != 0 ==> bpp <= k - bpp)
  {
  }

  /** A one-bit image one pixel wide and two rows high: stored rows 0x00 and 0x80, each padded to four bytes. */
  function TwoRowImage(): (data: seq<byte>)
    ensures |data| == 8
  {
    [0x00, 0, 0, 0, 0x80, 0, 0, 0]
  }

  /** Two bit patterns of the example: the one-bit mask and its shifts. */
  lemma OneBitMasks()
    ensures TopOnes(1) == 0x80
    ensures ShrN(0x80, 1) == 0x40 && ShrN(0x40, 1) == 0x20
    ensures ShrN(0, 7) == 0 && ShrN(0, 6) == 0
  {
  }

  /**
   * As written, the only pixel of the bottom stored row comes from byte 0,
   * which leaves bit position 7 for the next row.
   */
  lemma AsWrittenFirstRow()
    ensures ReadPxAsWritten(TwoRowImage(), 0, 1, 2, 1, 0, 1, 0, 0, 0, 0, [0, 0])
        == ReadPxAsWritten(TwoRowImage(), 0, 1, 2, 1, 0, 0, 4, 7, 0, 0x40, [0, 0])
  {
    OneBitMasks();
    var zero: bv8 := 0;
    assert TwoRowImage()[0] as bv8 == zero;
    assert ShrN(zero | (zero & 0x80), 7) == 0;
    assert [0, 0][1 * 1 + 0 := zero] == [0, 0];
    assert 1 + (4 - 1 % 4) % 4 == 4;
  }

  /** As written, the top row's pixel is bit 6 of byte 0 again, not a bit of byte 4. */
  lemma AsWrittenSecondRow()
    ensures ReadPxAsWritten(TwoRowImage(), 0, 1, 2, 1, 0, 0, 4, 7, 0, 0x40, [0, 0]) == Some([0, 0])
  {
    OneBitMasks();
    var zero: bv8 := 0;
    assert ShrN(zero | (zero & 0x40), 6) == 0;
    assert [0, 0][0 * 1 + 0 := zero] == [0, 0];
    assert 4 + (4 - 4 % 4) % 4 == 4;
    assert ReadPxAsWritten(TwoRowImage(), 0, 1, 2, 1, 0, -1, 4, 6, 0, 0x20, [0, 0]) == Some([0, 0]);
  }

  /** The top row of the example holds the single pixel 1, the top bit of byte 4. */
  lemma TwoRowImageTopRow()
    ensures BmpRow(TwoRowImage(), 0, 1, 2, 1, 0) == [1]
  {
    OneBitMasks();
    var data := TwoRowImage();
    assert Stride(1, 1) == 4 && RowOffset(1, 4) == 4 && RowBytes(1, 1) == 1;
    assert data[4..5] == [0x80];
    var b: bv8 := 0x80;
    assert data[4] as bv8 == b;
    assert MaskAt(8, 1) == 0x80;
    assert b & 0x80 == 0x80;
    assert ShrN(0x80, 7) == ShrN(0x40, 6) == ShrN(0x20, 5) == ShrN(0x10, 4) == ShrN(0x08, 3) == ShrN(0x04, 2) == ShrN(0x02, 1) == 1;
    assert Unpack([0x80], 1) == [] + Fields(b, 8, 1);
    assert Fields(b, 8, 1)[..1] == [Field(b, 8, 1)];
  }

  /**
   * The as-written loop stores 0 at index 0 (`y * width + x` for the
   * top-left pixel), where the image, and so ReadBmpPx, has 1.
   */
  lemma BitIdxNotReset()
    ensures BmpRow(TwoRowImage(), 0, 1, 2, 1, 0) == [1]
    ensures ReadPxAsWritten(TwoRowImage(), 0, 1, 2, 1, 0, 1, 0, 0, 0, 0, [0, 0]) == Some([0, 0])
  {
    TwoRowImageTopRow();
    AsWrittenFirstRow();
    AsWrittenSecondRow();
  }
}
