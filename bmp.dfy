/**
 * tools/bmp.py: a Python reader for 8-bit, unpadded BMP files. The
 * constructor reads five little-endian header fields at fixed offsets;
 * `pixels` walks the stored rows bottom-up and reports each pixel and each
 * finished display row to two callbacks.
 *
 * The callbacks are modelled as the trace of events they receive. A Python
 * binary file is modelled by `PyFile`: a read past the end returns fewer
 * bytes (none at all once the position is at or beyond the end), and
 * `int.from_bytes` of fewer bytes reads just those, so 0 for none.
 */
module BmpTool {
  import opened Maug

  /** The bytes a Python `read(n)` at position `p` returns. */
  function Clamp(d: seq<byte>, p: nat, n: nat): (r: seq<byte>)
    ensures |r| <= n
    ensures p + n <= |d| ==> r == d[p..p + n]
    ensures |d| <= p ==> r == []
  {
    if |d| <= p then [] else if p + n <= |d| then d[p..p + n] else d[p..]
  }

  /** `int.from_bytes(b, 'little')`. */
  function FromLE(b: seq<byte>): (v: nat)
  {
    if b == [] then 0 else b[0] as nat + 0x100 * FromLE(b[1..])
  }

  /** A four-byte little-endian value read from offset `off`. */
  function FieldAt(d: seq<byte>, off: nat): nat {
    FromLE(Clamp(d, off, 4))
  }

  /** One pixel as `int.from_bytes(f.read(1))` yields it: 0 past the end. */
  function ByteAt(d: seq<byte>, i: nat): (v: nat)
    ensures v < 0x100
    ensures i < |d| ==> v == d[i] as nat
    ensures |d| <= i ==> v == 0
  {
    if i < |d| then d[i] as nat else 0
  }

  /** The pixel events of `n` consecutive bytes from `start`. */
  function Pixels(d: seq<byte>, start: nat, n: nat): (r: seq<Event>)
  {
    if n == 0 then [] else Pixels(d, start, n - 1) + [Px(ByteAt(d, start + n - 1))]
  }

  /** A Python binary file opened for reading. */
  class PyFile {
    const data: seq<byte>
    var pos: nat

    constructor (data: seq<byte>)
      ensures this.data == data && pos == 0
    {
      this.data := data;
      pos := 0;
    }

    /** `seek(p)`: a negative position raises, and the exception is `ok == false`. */
    method Seek(p: int) returns (ok: bool)
      modifies this
      ensures ok <==> 0 <= p
      ensures ok ==> pos == p
      ensures !ok ==> pos == old(pos)
    {
      if p < 0 {
        return false;
      }
      pos := p;
      ok := true;
    }

    /** `read(n)`: at most `n` bytes from the position, which moves past them. */
    method Read(n: nat) returns (b: seq<byte>)
      modifies this
      ensures b == Clamp(data, old(pos), n)
      ensures pos == old(pos) + |b|
    {
      b := Clamp(data, pos, n);
      pos := pos + |b|;
    }
  }

  /** The header fields bmp.py and icn.py read. */
  datatype Header = Header(bmpSz: nat, pxOffset: nat, headerSz: nat, width: nat, height: nat)

  /** The header as its fixed offsets 2, 10, 14, 18 and 22 give it. */
  function HeaderOf(d: seq<byte>): Header {
    Header(FieldAt(d, 2), FieldAt(d, 10), FieldAt(d, 14), FieldAt(d, 18), FieldAt(d, 22))
  }

  /**
   * A read of four bytes that leaves the position at `p + 4` or at the end of
   * the file, so the next four-byte read sees what offset `p + 4` holds.
   */
  lemma NextField(d: seq<byte>, p: nat, b: seq<byte>)
    requires b == Clamp(d, p, 4)
    ensures Clamp(d, p + |b|, 4) == Clamp(d, p + 4, 4)
  {
  }

  /**
   * The header reads of Bitmap.__init__ (and of icn.py's main): seek 2, read
   * the size, seek 10, then four consecutive reads.
   */
  method ReadHeader(f: PyFile) returns (h: Header)
    modifies f
    ensures h == HeaderOf(f.data)
  {
    var ok := f.Seek(2);
    var b := f.Read(4);
    var bmpSz := FromLE(b);
    ok := f.Seek(10);
    b := f.Read(4);
    var pxOffset := FromLE(b);
    NextField(f.data, 10, b);
    b := f.Read(4);
    var headerSz := FromLE(b);
    NextField(f.data, 14, b);
    b := f.Read(4);
    var width := FromLE(b);
    NextField(f.data, 18, b);
    b := f.Read(4);
    var height := FromLE(b);
    h := Header(bmpSz, pxOffset, headerSz, width, height);
  }

  /** A field read from a file long enough to hold it is its four bytes, little-endian. */
  lemma FieldAtFull(d: seq<byte>, off: nat)
    requires off + 4 <= |d|
    ensures FieldAt(d, off) == d[off] as nat + 0x100 * d[off + 1] as nat
      + 0x1_0000 * d[off + 2] as nat + 0x100_0000 * d[off + 3] as nat
  {
    var b := d[off..off + 4];
    assert Clamp(d, off, 4) == b;
    assert b[3..][1..] == [];
    assert FromLE(b[3..]) == d[off + 3] as nat;
    assert b[2..][1..] == b[3..];
    assert FromLE(b[2..]) == d[off + 2] as nat + 0x100 * d[off + 3] as nat;
    assert b[1..][1..] == b[2..];
    assert FromLE(b[1..]) == d[off + 1] as nat + 0x100 * FromLE(b[2..]);
  }

  /** What the two callbacks of `pixels` receive, in order. */
  datatype Event = Px(value: nat) | Line(y: nat)

  /** Where display row `y` starts: rows are stored bottom-up, `width` bytes each. */
  function RowStart(h: Header, y: nat): nat
    requires y < h.height
  {
    h.pxOffset + ((h.height - 1) - y) * h.width
  }

  /** The events of display row `y`: its `width` pixels, then the row callback. */
  function RowEvents(d: seq<byte>, h: Header, y: nat): (r: seq<Event>)
    requires y < h.height
  {
    Pixels(d, RowStart(h, y), h.width) + [Line(y)]
  }

  /** The events of the first `n` display rows. */
  function Trace(d: seq<byte>, h: Header, n: nat): seq<Event>
    requires n <= h.height
  {
    if n == 0 then [] else Trace(d, h, n - 1) + RowEvents(d, h, n - 1)
  }

  /**
   * Bitmap: the header fields set on `self` by __init__, and the file the
   * later `pixels` call seeks in.
   */
  class Bitmap {
    var header: Header
    const f: PyFile

    constructor (inBmpF: PyFile)
      modifies inBmpF
      ensures f == inBmpF && header == HeaderOf(inBmpF.data)
    {
      var h := ReadHeader(inBmpF);
      header := h;
      f := inBmpF;
    }

    /**
     * Bitmap.pixels: for each display row y in 0..height-1, seek to the
     * stored row height-1-y and report `width` one-byte pixels, then y.
     */
    method Pixels() returns (events: seq<Event>)
      modifies f
      ensures events == Trace(f.data, header, header.height)
    {
      var y := 0;
      events := [];
      while y < header.height
        invariant y <= header.height
        invariant events == Trace(f.data, header, y)
      {
        var row := ReadRow(f, header, y);
        events := events + row + [Line(y)];
        y := y + 1;
      }
    }
  }

  /** The inner loop of `pixels`: seek to the row's start and read `width` single bytes. */
  method ReadRow(f: PyFile, h: Header, y: nat) returns (row: seq<Event>)
    requires y < h.height
    modifies f
    ensures row + [Line(y)] == RowEvents(f.data, h, y)
  {
    var start := RowStart(h, y);
    var ok := f.Seek(start);
    row := [];
    var x := 0;
    while x < h.width
      invariant x <= h.width
      invariant f.pos == start + x || (|f.data| <= f.pos && |f.data| <= start + x)
      invariant row == Pixels(f.data, start, x)
    {
      var b := f.Read(1);
      assert FromLE(b) == ByteAt(f.data, start + x) by {
        if b != [] {
          assert b[1..] == [];
        }
      }
      row := row + [Px(FromLE(b))];
      x := x + 1;
    }
  }

  function PxCount(es: seq<Event>): nat {
    if es == [] then 0 else PxCount(es[..|es| - 1]) + (if es[|es| - 1].Px? then 1 else 0)
  }

  lemma {:induction false} PxCountAppend(a: seq<Event>, b: seq<Event>)
    ensures PxCount(a + b) == PxCount(a) + PxCount(b)
    decreases |b|
  {
    if b == [] {
      assert a + b == a;
    } else {
      assert (a + b)[..|a + b| - 1] == a + b[..|b| - 1];
      PxCountAppend(a, b[..|b| - 1]);
    }
  }

  lemma {:induction false} PixelsShape(d: seq<byte>, start: nat, n: nat)
    ensures |Pixels(d, start, n)| == n && PxCount(Pixels(d, start, n)) == n
    ensures forall x :: 0 <= x < n ==> Pixels(d, start, n)[x] == Px(ByteAt(d, start + x))
  {
    if n > 0 {
      PixelsShape(d, start, n - 1);
      var s := Pixels(d, start, n);
      assert s[..n - 1] == Pixels(d, start, n - 1);
    }
  }

  /** The trace of the first `n` rows has `width + 1` events per row, `width` of them pixels. */
  lemma {:induction false} TraceLength(d: seq<byte>, h: Header, n: nat)
    requires n <= h.height
    ensures |Trace(d, h, n)| == n * (h.width + 1)
    ensures PxCount(Trace(d, h, n)) == n * h.width
  {
    if n > 0 {
      var t := Trace(d, h, n - 1);
      var row := RowEvents(d, h, n - 1);
      assert |t| == (n - 1) * (h.width + 1) && PxCount(t) == (n - 1) * h.width by {
        TraceLength(d, h, n - 1);
      }
      assert |row| == h.width + 1 && PxCount(row) == h.width by {
        var px := Pixels(d, RowStart(h, n - 1), h.width);
        PixelsShape(d, RowStart(h, n - 1), h.width);
        PxCountAppend(px, [Line(n - 1)]);
        assert PxCount([Line(n - 1)]) == 0 by {
          assert [Line(n - 1)][..0] == [];
        }
      }
      assert Trace(d, h, n) == t + row;
      PxCountAppend(t, row);
      assert n * (h.width + 1) == (n - 1) * (h.width + 1) + (h.width + 1);
      assert n * h.width == (n - 1) * h.width + h.width;
    }
  }

  /** The trace of fewer rows is a prefix of the trace of more rows. */
  lemma {:induction false} TracePrefix(d: seq<byte>, h: Header, m: nat, n: nat)
    requires m <= n <= h.height
    ensures |Trace(d, h, m)| <= |Trace(d, h, n)|
    ensures Trace(d, h, n)[..|Trace(d, h, m)|] == Trace(d, h, m)
  {
    if m < n {
      TracePrefix(d, h, m, n - 1);
      var t := Trace(d, h, n - 1);
      assert (t + RowEvents(d, h, n - 1))[..|Trace(d, h, m)|] == t[..|Trace(d, h, m)|];
    }
  }

  /**
   * Event x (x < width) of display row y is pixel x of stored row
   * height-1-y, read with stride `width` and no row padding; event `width`
   * of row y is the row callback for y.
   */
  lemma TraceAt(d: seq<byte>, h: Header, n: nat, y: nat, x: nat)
    requires n <= h.height && y < n && x <= h.width
    ensures |Trace(d, h, n)| == n * (h.width + 1)
    ensures y * (h.width + 1) + x < |Trace(d, h, n)|
    ensures Trace(d, h, n)[y * (h.width + 1) + x]
      == if x < h.width then Px(ByteAt(d, RowStart(h, y) + x)) else Line(y)
  {
    TraceLength(d, h, n);
    var t := Trace(d, h, y);
    var row := RowEvents(d, h, y);
    assert |t| == y * (h.width + 1) by {
      TraceLength(d, h, y);
    }
    assert |row| == h.width + 1 && row[x] == if x < h.width then Px(ByteAt(d, RowStart(h, y) + x)) else Line(y) by {
      PixelsShape(d, RowStart(h, y), h.width);
    }
    assert Trace(d, h, y + 1) == t + row;
    ghost var all := Trace(d, h, n);
    assert |t| + |row| <= |all| && all[..|t| + |row|] == t + row by {
      TracePrefix(d, h, y + 1, n);
    }
    PrefixAt(all, t, row, x);
  }

  /** An element of a sequence that starts with `t + row` at offset |t| + x is row[x]. */
  lemma PrefixAt<T>(s: seq<T>, t: seq<T>, row: seq<T>, x: nat)
    requires |t| + |row| <= |s| && s[..|t| + |row|] == t + row && x < |row|
    ensures s[|t| + x] == row[x]
  {
    assert s[|t| + x] == s[..|t| + |row|][|t| + x];
  }

  /** The lowercase text of `hex(p)` for p > 0: "0x" and the digits without leading zeros. */
  function HexDigits(p: nat): (s: seq<char>)
    decreases p
  {
    var c := "0123456789abcdef"[p % 16];
    if p < 16 then [c] else HexDigits(p / 16) + [c]
  }

  /** What the main programs print for one pixel: `hex(p)` and a space, or four spaces. */
  function Cell(p: nat): (s: seq<char>)
  {
    if 0 < p then "0x" + HexDigits(p) + " " else "    "
  }

  /**
   * Zero pixels print as blank padding as wide as the cell of a non-zero
   * index below 16, and every non-zero pixel prints in hexadecimal.
   */
  lemma CellShape(p: nat)
    ensures p == 0 ==> Cell(p) == "    "
    ensures 0 < p ==> Cell(p)[..2] == "0x" && Cell(p)[|Cell(p)| - 1] == ' '
    ensures 0 < p < 16 ==> |Cell(p)| == 4
    ensures 16 <= p < 0x100 ==> |Cell(p)| == 5
  {
    if 16 <= p < 0x100 {
      assert |HexDigits(p / 16)| == 1;
    }
  }
}
