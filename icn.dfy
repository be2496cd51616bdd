/**
 * tools/icn.py: reads the same BMP header fields as tools/bmp.py, then
 * prints 16 display rows of the image, bottom-up in the file, one text cell
 * per pixel. The printed text is the model's output; a negative seek
 * position raises in Python and ends the program, modelled by returning
 * the number of rows printed before it.
 */
module IcnTool {
  import opened Maug
  import opened BmpTool

  /** icn.py always prints this many rows, whatever the image height. */
  const ICN_ROWS: nat := 16

  /** The seek position of display row `y`: may be negative once y >= height. */
  function IcnStart(h: Header, y: nat): int {
    h.pxOffset + ((h.height - 1) - y) * h.width
  }

  /** The cells of `n` consecutive pixels from `start`. */
  function Cells(d: seq<byte>, start: nat, n: nat): seq<char> {
    if n == 0 then [] else Cells(d, start, n - 1) + Cell(ByteAt(d, start + n - 1))
  }

  /** The text of one display row: `width` cells and the newline of `print('')`. */
  function RowText(d: seq<byte>, h: Header, y: nat): seq<char>
    requires 0 <= IcnStart(h, y)
  {
    Cells(d, IcnStart(h, y), h.width) + "\n"
  }

  /** Every row up to `n` has a seek position the file accepts. */
  predicate Seekable(h: Header, n: nat) {
    n == 0 || (Seekable(h, n - 1) && 0 <= IcnStart(h, n - 1))
  }

  /** The text of the first `n` display rows. */
  function Rows(d: seq<byte>, h: Header, n: nat): seq<char>
    requires Seekable(h, n)
  {
    if n == 0 then [] else Rows(d, h, n - 1) + RowText(d, h, n - 1)
  }

  /** `int.from_bytes( f.read( 1 ) )`: the byte at the position, or 0 at the end of the file. */
  method ReadByte(f: PyFile) returns (px: nat)
    modifies f
    ensures px == ByteAt(f.data, old(f.pos))
    ensures f.pos == old(f.pos) + 1 || (|f.data| <= old(f.pos) && f.pos == old(f.pos))
  {
    var b := f.Read(1);
    px := if b == [] then 0 else b[0] as nat;
  }

  /** The inner loop of icn.py's main: `width` one-byte reads from `start`, one cell each. */
  method ReadRow(f: PyFile, start: nat, width: nat) returns (line: seq<char>)
    requires f.pos == start
    modifies f
    ensures line == Cells(f.data, start, width)
  {
    var x := 0;
    line := [];
    while x < width
      invariant x <= width
      invariant f.pos == start + x || (|f.data| <= f.pos && |f.data| <= start + x)
      invariant line == Cells(f.data, start, x)
    {
      var px := ReadByte(f);
      assert px == ByteAt(f.data, start + x);
      assert Cells(f.data, start, x + 1) == line + Cell(px);
      line := line + Cell(px);
      x := x + 1;
    }
  }

  /**
   * icn.py's main after the header: for y in 0..15, seek to the stored row
   * and print one cell per pixel, then a newline. `rows` is the number of
   * rows printed; fewer than 16 means the seek of row `rows` raised.
   */
  method PrintRows(data: seq<byte>) returns (out: seq<char>, rows: nat)
    ensures rows <= ICN_ROWS
    ensures Seekable(HeaderOf(data), rows)
    ensures out == Rows(data, HeaderOf(data), rows)
    ensures rows < ICN_ROWS ==> IcnStart(HeaderOf(data), rows) < 0
  {
    var f := new PyFile(data);
    var h := ReadHeader(f);
    out := [];
    rows := 0;
    while rows < ICN_ROWS
      invariant rows <= ICN_ROWS && f.data == data
      invariant Seekable(h, rows)
      invariant out == Rows(data, h, rows)
    {
      var start := IcnStart(h, rows);
      var ok := f.Seek(start);
      if !ok {
        return;
      }
      var line := ReadRow(f, start, h.width);
      out := out + line + "\n";
      rows := rows + 1;
    }
  }

  /** The line breaks in printed text. */
  function Newlines(s: seq<char>): nat {
    multiset(s)['\n']
  }

  /** No character of `s` is a line break. */
  predicate NoBreak(s: seq<char>) {
    forall i :: 0 <= i < |s| ==> s[i] != '\n'
  }

  lemma CellNoBreak(p: nat)
    requires p < 0x100
    ensures NoBreak(Cell(p))
  {
    CellShape(p);
    if 0 < p {
      HexDigitsAreDigits(p);
    }
  }

  lemma {:induction false} HexDigitsAreDigits(p: nat)
    ensures forall i :: 0 <= i < |HexDigits(p)| ==> HexDigits(p)[i] in "0123456789abcdef"
    decreases p
  {
    if 16 <= p {
      HexDigitsAreDigits(p / 16);
    }
  }

  lemma NoNewlines(s: seq<char>)
    requires NoBreak(s)
    ensures Newlines(s) == 0
  {
    assert '\n' !in s;
  }

  lemma {:induction false} CellsNoBreak(d: seq<byte>, start: nat, n: nat)
    ensures NoBreak(Cells(d, start, n))
  {
    if n > 0 {
      var init := Cells(d, start, n - 1);
      var cell := Cell(ByteAt(d, start + n - 1));
      assert Cells(d, start, n) == init + cell;
      CellsNoBreak(d, start, n - 1);
      CellNoBreak(ByteAt(d, start + n - 1));
    }
  }

  /** The text of `n` rows holds exactly `n` line breaks, one closing each row. */
  lemma {:induction false} RowsNewlines(d: seq<byte>, h: Header, n: nat)
    requires Seekable(h, n)
    ensures Newlines(Rows(d, h, n)) == n
  {
    if n > 0 {
      var init := Rows(d, h, n - 1);
      var row := RowText(d, h, n - 1);
      assert Newlines(row) == 1 by {
        var st: nat := IcnStart(h, n - 1);
        var cells := Cells(d, st, h.width);
        assert row == cells + "\n";
        CellsNoBreak(d, st, h.width);
        NoNewlines(cells);
      }
      RowsNewlines(d, h, n - 1);
      NewlinesJoin(init, row);
      assert Rows(d, h, n) == init + row;
    }
  }

  lemma NewlinesJoin(a: seq<char>, b: seq<char>)
    ensures Newlines(a + b) == Newlines(a) + Newlines(b)
  {
    assert multiset(a + b) == multiset(a) + multiset(b);
  }

  /**
   * An image at least 16 rows high prints exactly 16 lines, whatever its
   * actual height: only the top 16 display rows appear.
   */
  lemma SixteenRows(data: seq<byte>, out: seq<char>, rows: nat)
    requires 16 <= HeaderOf(data).height
    requires rows <= ICN_ROWS && Seekable(HeaderOf(data), rows)
    requires out == Rows(data, HeaderOf(data), rows)
    requires rows < ICN_ROWS ==> IcnStart(HeaderOf(data), rows) < 0
    ensures rows == ICN_ROWS && Newlines(out) == 16
  {
    var h := HeaderOf(data);
    assert rows == ICN_ROWS by {
      if rows < ICN_ROWS {
        RaisesOnlyPastImage(h, rows);
      }
    }
    RowsNewlines(data, h, rows);
  }

  /**
   * The seek raises only for a row past the image: when fewer than 16 rows
   * are printed, the image is at most that many rows high.
   */
  lemma RaisesOnlyPastImage(h: Header, y: nat)
    requires IcnStart(h, y) < 0
    ensures h.height <= y && 0 < h.width
  {
    assert y < h.height ==> 0 <= (h.height - 1 - y) * h.width;
  }
}
