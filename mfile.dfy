/**
 * The memory-buffer file of src/mfile.h: a cursor over a fixed buffer
 * with block reads, seeks, line reads and inserting writes, and
 * mfile_assign_path.
 */
module MFile {
  import opened Maug
  import MString

  /** MAUG_PATH_SZ_MAX. */
  const PATH_SZ_MAX: nat := 256

  /** MFILE_ASSIGN_FLAG_TRIM_EXT. */
  const ASSIGN_FLAG_TRIM_EXT: bv8 := 0x01

  /** The byte value of '\n'. */
  const NEWLINE: byte := 10

  /**
   * A struct MFILE_CADDY of type MFILE_CADDY_TYPE_MEM_BUFFER. `mem` is the
   * buffer behind the handle or pointer, `sz` the size given when it was
   * locked, `cursor` the mem_cursor. Locking and releasing a handle around
   * each operation leaves these unchanged and is not modelled.
   */
  class MemFile {
    var mem: array<byte>
    var sz: nat
    var cursor: nat
    var readOnly: bool
    var usesHandle: bool

    ghost predicate Valid()
      reads this
    {
      sz <= mem.Length
    }

    /** mfile_mem_cursor. */
    function Cursor(): nat
      reads this
    {
      cursor
    }

    /**
     * mfile_mem_has_bytes: the bytes left after the cursor; the cursor
     * plus what is left is the data size, and the count is negative
     * exactly when the cursor is past the end.
     */
    function HasBytes(): (n: int)
      reads this
      ensures cursor + n == sz
      ensures n < 0 <==> sz < cursor
    {
      sz - cursor
    }

    constructor (buffer: array<byte>, handleSz: nat, handle: bool)
      requires handleSz <= buffer.Length
      ensures Valid()
      ensures mem == buffer && sz == handleSz && cursor == 0 && !readOnly && usesHandle == handle
    {
      mem := buffer;
      sz := handleSz;
      cursor := 0;
      readOnly := false;
      usesHandle := handle;
    }

    /**
     * mfile_mem_read_block, with the bound the source leaves out: a block
     * that starts at or after the end, or runs past it, is refused with
     * MERROR_FILE; otherwise `bufSz` bytes are copied into `buf` at `off`
     * and the cursor advances by `bufSz`.
     */
    method ReadBlock(buf: array<byte>, off: nat, bufSz: nat) returns (e: Error)
      requires Valid() && buf != mem
      requires off + bufSz <= buf.Length
      modifies this, buf
      ensures Valid() && mem == old(mem) && sz == old(sz)
      ensures readOnly == old(readOnly) && usesHandle == old(usesHandle)
      ensures e == OK <==> old(cursor) < sz && old(cursor) + bufSz <= sz
      ensures e != OK ==> e == File && cursor == old(cursor) && buf[..] == old(buf[..])
      ensures e == OK ==> (cursor == old(cursor) + bufSz
        && buf[off..off + bufSz] == mem[old(cursor)..cursor]
        && buf[..off] == old(buf[..off]) && buf[off + bufSz..] == old(buf[off + bufSz..]))
    {
      if cursor >= sz || cursor + bufSz > sz {
        return File;
      }
      var i := 0;
      while i < bufSz
        invariant mem == old(mem) && sz == old(sz) && readOnly == old(readOnly) && usesHandle == old(usesHandle)
        invariant i <= bufSz && cursor == old(cursor) + i <= sz
        invariant buf[off..off + i] == mem[old(cursor)..cursor]
        invariant buf[..off] == old(buf[..off]) && buf[off + bufSz..] == old(buf[off + bufSz..])
      {
        buf[off + i] := mem[cursor];
        assert buf[off..off + i + 1] == buf[off..off + i] + [mem[cursor]];
        cursor := cursor + 1;
        i := i + 1;
      }
      e := OK;
    }

    /** mfile_mem_read_byte: a one-byte ReadBlock, returning the byte. */
    method ReadByte() returns (e: Error, b: byte)
      requires Valid()
      modifies this
      ensures Valid() && mem == old(mem) && sz == old(sz)
      ensures readOnly == old(readOnly) && usesHandle == old(usesHandle)
      ensures e == OK <==> old(cursor) < sz
      ensures e != OK ==> e == File && cursor == old(cursor)
      ensures e == OK ==> b == mem[old(cursor)] && cursor == old(cursor) + 1
    {
      if cursor >= sz {
        return File, 0;
      }
      b := mem[cursor];
      cursor := cursor + 1;
      e := OK;
    }

    /** mfile_mem_seek: moves the cursor to `pos`; always MERROR_OK. */
    method Seek(pos: nat) returns (e: Error)
      requires Valid()
      modifies this
      ensures Valid() && e == OK && cursor == pos && HasBytes() == sz - pos
      ensures mem == old(mem) && sz == old(sz) && readOnly == old(readOnly) && usesHandle == old(usesHandle)
    {
      cursor := pos;
      e := OK;
    }

    /**
     * mfile_mem_read_line: reads bytes into `buffer` until a newline, the
     * end of the data or buffer_sz - 1 characters, then writes a NUL where
     * the next character (or the newline) would go. The loop's test is
     * has_bytes being non-zero, so a cursor past the end keeps going with
     * failed reads; there the buffer keeps its old characters and still
     * gets its NUL.
     */
    method ReadLine(buffer: array<char>, bufferSz: nat) returns (e: Error)
      requires Valid()
      requires 1 <= bufferSz <= buffer.Length
      modifies this, buffer
      ensures Valid() && e == OK && mem == old(mem) && sz == old(sz)
      ensures readOnly == old(readOnly) && usesHandle == old(usesHandle)
      ensures buffer[bufferSz..] == old(buffer[bufferSz..])
      ensures old(cursor) <= sz ==>
        var n := LineLength(mem[old(cursor)..sz], bufferSz - 1);
        buffer[n] == '\0' && BytesAsChars(buffer[..n], mem[old(cursor)..sz][..n])
        && cursor == old(cursor) + n + (if NewlineTaken(mem[old(cursor)..sz], bufferSz - 1) then 1 else 0)
      ensures sz < old(cursor) ==> (cursor == old(cursor)
        && exists n :: 0 <= n < bufferSz && buffer[n] == '\0' && buffer[..n] == old(buffer[..n]))
    {
      ghost var c0 := cursor;
      ghost var avail := if c0 <= sz then mem[c0..sz] else [];
      var i := 0;
      ghost var newline := false;
      while i < bufferSz - 1 && HasBytes() != 0
        invariant mem == old(mem) && sz == old(sz) && readOnly == old(readOnly) && usesHandle == old(usesHandle)
        invariant i < bufferSz && buffer[bufferSz..] == old(buffer[bufferSz..])
        invariant c0 <= sz ==> (avail == mem[c0..sz] && cursor == c0 + i && i <= |avail| && NoNewline(avail[..i])
          && BytesAsChars(buffer[..i], avail[..i]))
        invariant sz < c0 ==> cursor == c0 && buffer[..] == old(buffer[..])
        invariant !newline
      {
        var r, b := ReadByte();
        if r == OK {
          buffer[i] := b as int as char;
        }
        if buffer[i] == '\n' {
          newline := true;
          break;
        }
        if c0 <= sz {
          assert NoNewline(avail[..i + 1]) && BytesAsChars(buffer[..i + 1], avail[..i + 1]) by {
            ReadStep(buffer[..], avail, i);
          }
        }
        i := i + 1;
      }
      ghost var kept := buffer[..i];
      buffer[i] := '\0';
      assert buffer[..i] == kept;
      if c0 <= sz {
        LineEnd(avail, i, bufferSz - 1, newline);
      }
      e := OK;
    }

    /**
     * mfile_mem_write_block: an empty write does nothing and a read-only
     * file yields MERROR_FILE. Otherwise the bytes from the cursor move
     * right by `bufSz` (what passes `sz` is lost), `buf` fills the gap and
     * the cursor moves past it; `sz` does not change. Writing past the end
     * is left to a TODO in the source, so the block must fit.
     */
    method WriteBlock(buf: seq<byte>, bufSz: nat) returns (e: Error)
      requires Valid()
      requires bufSz <= |buf|
      requires 0 < bufSz && !readOnly ==> cursor + bufSz <= sz
      modifies this, mem
      ensures Valid() && mem == old(mem) && sz == old(sz)
      ensures readOnly == old(readOnly) && usesHandle == old(usesHandle)
      ensures bufSz == 0 ==> e == OK && cursor == old(cursor) && mem[..] == old(mem[..])
      ensures 0 < bufSz && readOnly ==> e == File && cursor == old(cursor) && mem[..] == old(mem[..])
      ensures 0 < bufSz && !readOnly ==> (e == OK && cursor == old(cursor) + bufSz
        && mem[..sz] == old(mem[..cursor]) + buf[..bufSz] + old(mem[cursor..sz - bufSz])
        && mem[sz..] == old(mem[sz..]))
    {
      if bufSz == 0 {
        return OK;
      }
      if readOnly {
        return File;
      }
      InsertBytes(mem, cursor, buf[..bufSz], sz);
      cursor := cursor + bufSz;
      e := OK;
    }
  }

  /**
   * The memmove and memcpy of mfile_mem_write_block: the `sz - (c + |w|)`
   * bytes at `c` move up by |w| and `w` is copied in at `c`.
   */
  method InsertBytes(a: array<byte>, c: nat, w: seq<byte>, sz: nat)
    requires c + |w| <= sz <= a.Length
    modifies a
    ensures a[..sz] == old(a[..c]) + w + old(a[c..sz - |w|])
    ensures a[sz..] == old(a[sz..])
  {
    var mvSz := sz - (c + |w|);
    if 0 < mvSz {
      forall j | 0 <= j < mvSz {
        a[c + |w| + j] := a[c + j];
      }
    }
    forall j | 0 <= j < |w| {
      a[c + j] := w[j];
    }
    WriteBlockContents(old(a[..]), a[..], c, w, sz);
  }

  /** The shape WriteBlock leaves, stated on whole buffers. */
  lemma WriteBlockContents(before: seq<byte>, after: seq<byte>, c: nat, w: seq<byte>, sz: nat)
    requires c + |w| <= sz <= |before| == |after|
    requires forall j :: 0 <= j < c ==> after[j] == before[j]
    requires forall j :: c <= j < c + |w| ==> after[j] == w[j - c]
    requires forall j :: c + |w| <= j < sz ==> after[j] == before[j - |w|]
    requires forall j :: sz <= j < |after| ==> after[j] == before[j]
    ensures after[..sz] == before[..c] + w + before[c..sz - |w|]
    ensures after[sz..] == before[sz..]
  {
    assert after[..sz] == after[..c] + after[c..c + |w|] + after[c + |w|..sz];
  }

  /** No byte of `s` is a newline. */
  predicate NoNewline(s: seq<byte>) {
    forall j :: 0 <= j < |s| ==> s[j] != NEWLINE
  }

  /** The characters `cs` are the bytes `bs`, one for one. */
  predicate BytesAsChars(cs: seq<char>, bs: seq<byte>) {
    |cs| == |bs| && forall j :: 0 <= j < |cs| ==> cs[j] == bs[j] as int as char
  }

  /** The position of the first newline in `s`, or |s|. */
  function NewlineIndex(s: seq<byte>): (k: nat)
    ensures k <= |s| && NoNewline(s[..k])
    ensures k < |s| ==> s[k] == NEWLINE
  {
    if |s| == 0 then 0
    else if s[0] == NEWLINE then 0
    else
      assert s[..1 + NewlineIndex(s[1..])] == [s[0]] + s[1..][..NewlineIndex(s[1..])];
      1 + NewlineIndex(s[1..])
  }

  /** Where the first newline of `s` is, from what lies before it. */
  lemma {:induction false} NewlineIndexIs(s: seq<byte>, i: nat)
    requires i <= |s| && NoNewline(s[..i])
    requires i < |s| ==> s[i] == NEWLINE
    ensures NewlineIndex(s) == i
    decreases i
  {
    if 0 < i {
      assert s[..i][0] == s[0];
      assert s[1..][..i - 1] == s[..i][1..];
      NewlineIndexIs(s[1..], i - 1);
    }
  }

  /**
   * How ReadLine's loop ends over the bytes `s` with room for `limit`
   * characters: on a newline at `i`, at the limit, or at the end of `s`.
   */
  lemma LineEnd(s: seq<byte>, i: nat, limit: nat, newline: bool)
    requires i <= limit && i <= |s| && NoNewline(s[..i])
    requires newline ==> i < limit && i < |s| && s[i] == NEWLINE
    requires !newline ==> i == limit || i == |s|
    ensures LineLength(s, limit) == i
    ensures NewlineTaken(s, limit) == newline
  {
    var k := NewlineIndex(s);
    if newline {
      NewlineIndexIs(s, i);
    } else if i == |s| {
      assert s[..i] == s;
      NewlineIndexIs(s, i);
    } else {
      assert i <= k;
    }
  }

  /** One more byte read as a character that is not a newline. */
  lemma ReadStep(cs: seq<char>, bs: seq<byte>, i: nat)
    requires i < |cs| && i < |bs|
    requires NoNewline(bs[..i]) && BytesAsChars(cs[..i], bs[..i])
    requires cs[i] == bs[i] as int as char && cs[i] != '\n'
    ensures NoNewline(bs[..i + 1]) && BytesAsChars(cs[..i + 1], bs[..i + 1])
  {
    assert bs[..i + 1] == bs[..i] + [bs[i]];
    assert cs[..i + 1] == cs[..i] + [cs[i]];
  }

  /** The characters ReadLine keeps from `s` when at most `limit` fit. */
  function LineLength(s: seq<byte>, limit: nat): (n: nat)
    ensures n <= limit && n <= |s| && NoNewline(s[..n])
    ensures n < limit && n < |s| ==> s[n] == NEWLINE
  {
    if NewlineIndex(s) < limit then NewlineIndex(s) else limit
  }

  /** Whether ReadLine consumes a newline after the characters it keeps. */
  predicate NewlineTaken(s: seq<byte>, limit: nat) {
    NewlineIndex(s) < limit && NewlineIndex(s) < |s|
  }

  /**
   * mfile_lock_buffer: a memory file over exactly one of a handle or a
   * pointer; both or neither yields MERROR_FILE.
   */
  method LockBuffer(handle: Option<array<byte>>, ptr: Option<array<byte>>, handleSz: nat)
    returns (r: Result<MemFile>)
    requires handle.Some? && ptr.None? ==> handleSz <= handle.value.Length
    requires handle.None? && ptr.Some? ==> handleSz <= ptr.value.Length
    ensures r.Ok? <==> handle.Some? != ptr.Some?
    ensures r.Err? ==> r.error == File
    ensures r.Ok? ==> (fresh(r.value) && r.value.Valid() && r.value.sz == handleSz && r.value.cursor == 0
      && !r.value.readOnly && r.value.usesHandle == handle.Some?
      && r.value.mem == (if handle.Some? then handle.value else ptr.value))
  {
    if handle.None? && ptr.Some? {
      var f := new MemFile(ptr.value, handleSz, false);
      r := Ok(f);
    } else if handle.Some? && ptr.None? {
      var f := new MemFile(handle.value, handleSz, true);
      r := Ok(f);
    } else {
      r := Err(File);
    }
  }

  /** mfile_mem_read_block as written: the range of buffer indices it reads, or None when refused. */
  function ReadBlockAsWrittenSpan(cursor: nat, sz: nat, bufSz: nat): (r: Option<(nat, nat)>)
    ensures r.None? <==> sz <= cursor
    ensures r.Some? ==> r.value.0 == cursor && r.value.1 == cursor + bufSz
  {
    if cursor >= sz then None else Some((cursor, cursor + bufSz))
  }

  /**
   * The guard lets a read run past the end: with the eight-byte buffer of
   * the file test and the cursor on its last byte, a two-byte read is
   * accepted and reads index 8.
   */
  lemma ReadBlockAsWrittenOverReads()
    ensures ReadBlockAsWrittenSpan(7, 8, 2) == Some((7, 9))
    ensures 8 < 9
  {
  }

  /**
   * The text TRIM_EXT leaves: everything before the last '.', or the
   * whole text when it has none.
   */
  function TrimExt(t: seq<char>): (r: seq<char>)
    ensures |r| <= |t| && r == t[..|r|]
    ensures '.' in t ==> |r| < |t| && t[|r|] == '.' && '.' !in t[|r| + 1..]
    ensures '.' !in t ==> r == t
  {
    if |t| == 0 then t
    else if t[|t| - 1] == '.' then t[..|t| - 1]
    else
      var r := TrimExt(t[..|t| - 1]);
      assert t[..|t| - 1][..|r|] == t[..|r|];
      assert '.' in t[..|t| - 1] ==> t[|r| + 1..] == t[..|t| - 1][|r| + 1..] + [t[|t| - 1]];
      if '.' in t[..|t| - 1] then r else t
  }

  /**
   * The characters maug_snprintf(buffer, sz, "%s", src) stores from index
   * 0: maug_bufcat stops once `sz` characters are stored, and the closing
   * NUL is stored only if it still fits, so a text of `sz` or more
   * characters is left without one.
   */
  function SnprintfText(src: seq<char>, sz: nat): (w: seq<char>)
    requires 0 < sz
    ensures |w| <= sz
    ensures '\0' in w <==> Strlen(src) < sz
    ensures forall i :: 0 <= i < |w| && i < Strlen(src) ==> w[i] == src[i]
  {
    if Strlen(src) < sz then src[..Strlen(src)] + ['\0'] else src[..sz]
  }

  /**
   * maug_vsnprintf with the format "%s", as written: the characters of
   * `src` go in one at a time until `sz` are stored, then the NUL if it
   * fits; nothing past what is stored changes. The result is the number of
   * characters stored.
   */
  method SnprintfString(buffer: array<char>, sz: nat, src: seq<char>) returns (n: nat)
    requires 0 < sz <= buffer.Length
    modifies buffer
    ensures n == |SnprintfText(src, sz)|
    ensures buffer[..n] == SnprintfText(src, sz)
    ensures buffer[n..] == old(buffer[n..])
  {
    var j := 0;
    while j < |src| && src[j] != '\0'
      invariant j <= Strlen(src) && j < sz
      invariant buffer[..j] == src[..j]
      invariant buffer[j..] == old(buffer[j..])
    {
      buffer[j] := src[j];
      j := j + 1;
      if j >= sz {
        assert buffer[..j] == src[..j];
        return j;
      }
    }
    buffer[j] := '\0';
    assert buffer[..j + 1] == src[..j] + ['\0'];
    assert buffer[j + 1..] == old(buffer[j..])[1..];
    return j + 1;
  }

  /**
   * mfile_assign_path as written: a source of MAUG_PATH_SZ_MAX characters
   * or more fills the first MAUG_PATH_SZ_MAX bytes of the target with no
   * NUL (the path type has one byte more, which keeps whatever it held, and
   * maug_strrchr under TRIM_EXT scans on from there), where the corrected copy keeps
   * MAUG_PATH_SZ_MAX - 1 characters and ends them. Shorter sources are
   * copied alike.
   */
  lemma AssignPathAsWrittenUnterminated(src: seq<char>)
    ensures PATH_SZ_MAX <= Strlen(src) ==> |SnprintfText(src, PATH_SZ_MAX)| == PATH_SZ_MAX
    ensures PATH_SZ_MAX <= Strlen(src) ==>
      forall i :: 0 <= i < PATH_SZ_MAX ==> SnprintfText(src, PATH_SZ_MAX)[i] != '\0'
    ensures PATH_SZ_MAX <= Strlen(src) ==> AssignedPath(src, false) == src[..PATH_SZ_MAX - 1]
    ensures Strlen(src) < PATH_SZ_MAX ==> SnprintfText(src, PATH_SZ_MAX) == AssignedPath(src, false) + ['\0']
  {
    var w := SnprintfText(src, PATH_SZ_MAX);
    if PATH_SZ_MAX <= Strlen(src) {
      assert w == src[..PATH_SZ_MAX];
      forall i | 0 <= i < PATH_SZ_MAX
        ensures w[i] != '\0'
      {
        assert w[i] == src[i];
      }
    }
  }

  /**
   * The characters the corrected copy keeps: at most MAUG_PATH_SZ_MAX - 1,
   * so that the NUL always fits.
   */
  function PathCopied(src: seq<char>): (t: seq<char>)
    ensures |t| < PATH_SZ_MAX && '\0' !in t
  {
    src[..if Strlen(src) < PATH_SZ_MAX - 1 then Strlen(src) else PATH_SZ_MAX - 1]
  }

  /**
   * mfile_assign_path, corrected: copies at most MAUG_PATH_SZ_MAX - 1 characters of
   * `src` with a terminator, then with TRIM_EXT ends the text at its last
   * '.'.
   */
  method AssignPath(tgt: array<char>, src: seq<char>, flags: bv8) returns (e: Error)
    requires PATH_SZ_MAX <= tgt.Length
    modifies tgt
    ensures e == OK
    ensures var r := AssignedPath(src, flags & ASSIGN_FLAG_TRIM_EXT == ASSIGN_FLAG_TRIM_EXT);
      tgt[..|r|] == r && tgt[|r|] == '\0' && Strlen(tgt[..]) == |r|
    ensures tgt[|PathCopied(src)| + 1..] == old(tgt[|PathCopied(src)| + 1..])
  {
    var trim := flags & ASSIGN_FLAG_TRIM_EXT == ASSIGN_FLAG_TRIM_EXT;
    var n := Strlen(src);
    if PATH_SZ_MAX - 1 < n {
      n := PATH_SZ_MAX - 1;
    }
    ghost var t := PathCopied(src);
    assert src[..n] == t;
    CopyPrefix(tgt, src, n);
    ghost var copied := tgt[..];
    assert tgt[..n] == t;
    if trim {
      CutAtLastDot(tgt, n);
      assert tgt[n + 1..] == copied[n + 1..] by {
        assert tgt[n + 1..] == tgt[n..][1..];
      }
    } else {
      StrlenAt(tgt[..], n);
    }
    e := OK;
  }

  /** The text mfile_assign_path leaves, with or without TRIM_EXT. */
  function AssignedPath(src: seq<char>, trim: bool): (r: seq<char>)
    ensures |r| < PATH_SZ_MAX && '\0' !in r
    ensures !trim ==> r == PathCopied(src)
    ensures trim ==> r == TrimExt(PathCopied(src))
  {
    if trim then TrimExt(PathCopied(src)) else PathCopied(src)
  }

  /**
   * The TRIM_EXT step: the NUL goes over the last '.' that maug_strrchr
   * finds, if any.
   */
  method CutAtLastDot(tgt: array<char>, n: nat)
    requires n < tgt.Length && tgt[n] == '\0' && '\0' !in tgt[..n]
    modifies tgt
    ensures var r := TrimExt(old(tgt[..n]));
      tgt[..|r|] == r && tgt[|r|] == '\0' && Strlen(tgt[..]) == |r|
    ensures tgt[n..] == old(tgt[n..])
  {
    ghost var t := tgt[..n];
    assert tgt[..][n] == '\0';
    var dot := MString.Strrchr(tgt[..], '.');
    TrimAt(t, tgt[..], dot);
    if dot.Some? {
      tgt[dot.value] := '\0';
      assert tgt[..dot.value] == t[..dot.value];
    }
    StrlenAt(tgt[..], |TrimExt(t)|);
  }

  /** Copies the first `n` characters of `src` into `tgt` and ends them with a NUL. */
  method CopyPrefix(tgt: array<char>, src: seq<char>, n: nat)
    requires n < tgt.Length && n <= |src|
    modifies tgt
    ensures tgt[..n] == src[..n] && tgt[n] == '\0'
    ensures tgt[n + 1..] == old(tgt[n + 1..])
  {
    var i := 0;
    while i < n
      invariant i <= n
      invariant tgt[..i] == src[..i]
      invariant tgt[n + 1..] == old(tgt[n + 1..])
    {
      tgt[i] := src[i];
      i := i + 1;
    }
    tgt[n] := '\0';
    assert tgt[..n] == src[..n];
  }

  /**
   * The last '.' Strrchr finds in a copied path marks where TrimExt cuts
   * it.
   */
  lemma TrimAt(t: seq<char>, s: seq<char>, dot: Option<nat>)
    requires |t| < |s| && s[..|t|] == t && s[|t|] == '\0' && '\0' !in t
    requires dot.Some? ==> (dot.value <= Strlen(s) && s[dot.value] == '.'
      && forall j :: dot.value < j <= Strlen(s) ==> s[j] != '.')
    requires dot.None? ==> forall j :: 0 <= j <= Strlen(s) ==> s[j] != '.'
    ensures Strlen(s) == |t|
    ensures dot.Some? ==> dot.value < |t| && TrimExt(t) == t[..dot.value]
    ensures dot.None? ==> TrimExt(t) == t
  {
    assert forall j :: 0 <= j < |t| ==> s[j] == t[j];
    StrlenAt(s, |t|);
    var r := TrimExt(t);
    if dot.Some? {
      var d := dot.value;
      assert d < |t|;
      assert '.' in t by { assert t[d] == '.'; }
    } else {
      assert '.' !in t by {
        forall j | 0 <= j < |t| ensures t[j] != '.' {
          assert s[j] == t[j];
        }
      }
    }
  }

  /** A text whose first NUL is at `k` has length `k`. */
  lemma StrlenAt(s: seq<char>, k: nat)
    requires k < |s| && s[k] == '\0'
    requires forall j :: 0 <= j < k ==> s[j] != '\0'
    ensures Strlen(s) == k
  {
  }

  /**
   * The insert test of the file suite, for any data: a block written at
   * `pos` in a buffer-backed file reads back unchanged from `pos`, and the
   * bytes it displaced read back right after it.
   */
  method WriteThenReadBack(data: seq<byte>, w: seq<byte>, pos: nat) returns (got: seq<byte>, after: seq<byte>)
    requires 0 < |w| && pos + |w| <= |data|
    ensures got == w
    ensures after == data[pos..|data| - |w|]
  {
    var a := new byte[|data|](i requires 0 <= i < |data| => data[i]);
    assert a[..] == data;
    var r := LockBuffer(None, Some(a), |data|);
    var f := r.value;
    var e := f.Seek(pos);
    e := f.WriteBlock(w, |w|);
    ghost var m := f.mem[..f.sz];
    InsertedSlices(data, w, pos, m);
    e := f.Seek(pos);
    var n := |data| - pos;
    var buf := new byte[n];
    e := f.ReadBlock(buf, 0, n);
    assert buf[..] == m[pos..];
    got := buf[..|w|];
    after := buf[|w|..];
  }

  /** Where the inserted block and the displaced bytes sit after an insert. */
  lemma InsertedSlices(data: seq<byte>, w: seq<byte>, pos: nat, m: seq<byte>)
    requires pos + |w| <= |data|
    requires m == data[..pos] + w + data[pos..|data| - |w|]
    ensures |m| == |data|
    ensures m[pos..][..|w|] == w
    ensures m[pos..][|w|..] == data[pos..|data| - |w|]
  {
  }
}
