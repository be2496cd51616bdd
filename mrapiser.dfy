/**
 * The ASN.1 BER-style serialiser of api/serial/asn1/mrapiser.h: integers
 * as tag, length and big-endian value, lengths in the short or long form
 * of section 8.1.3 of ITU-T X.690, and sequences whose length is
 * inserted in front of their contents once they are complete.
 */
module MSerial {
  import opened Maug

  /** MSERIALIZE_ASN_TYPE_*: the tags written. */
  const ASN_TYPE_STRING: byte := 0x16
  const ASN_TYPE_INT: byte := 0x02
  const ASN_TYPE_BLOB: byte := 0x04
  const ASN_TYPE_SEQUENCE: byte := 0x30

  /** The bit _mserialize_asn_int sets in the tag of a negative integer. */
  const ASN_NEGATIVE: byte := 0x40

  /** MSERIALIZE_TYPE_*: the kinds mserialize_header is asked for. */
  const TYPE_OBJECT: nat := 1
  const TYPE_STRING: nat := 2
  const TYPE_INTEGER: nat := 3
  const TYPE_FLOAT: nat := 4
  const TYPE_ARRAY: nat := 5

  const INT32_MIN: int := -0x8000_0000
  const INT32_MAX: int := 0x7fff_ffff

  /** 256 to the power `k`. */
  function Pow256(k: nat): (p: nat)
    ensures 0 < p
  {
    if k == 0 then 1 else 256 * Pow256(k - 1)
  }

  /** `v >> (8 * k)` on a non-negative value. */
  function ShrBytes(v: nat, k: nat): nat
  {
    if k == 0 then v else ShrBytes(v / 256, k - 1)
  }

  /** `x & 0xff` as a byte. */
  function LowByte(x: nat): byte
  {
    U8(x) as byte
  }

  /**
   * The bytes _mserialize_asn_int_value writes for `v` with `n` bytes:
   * `(v >> (8 * i)) & 0xff` for i from n - 1 down to 0.
   */
  function BigEndian(v: nat, n: nat): (s: seq<byte>)
    ensures |s| == n
  {
    if n == 0 then [] else [LowByte(ShrBytes(v, n - 1))] + BigEndian(v, n - 1)
  }

  /** The value of big-endian bytes: the reading BigEndian is checked against. */
  function DecodeBE(s: seq<byte>): nat
  {
    if |s| == 0 then 0 else DecodeBE(s[..|s| - 1]) * 256 + s[|s| - 1] as nat
  }

  /** The last byte written is the low byte; the ones before encode v / 256. */
  lemma {:induction false} BigEndianSnoc(v: nat, n: nat)
    requires 0 < n
    ensures BigEndian(v, n) == BigEndian(v / 256, n - 1) + [LowByte(v)]
  {
    if n == 1 {
      assert BigEndian(v, 1) == [LowByte(ShrBytes(v, 0))] + BigEndian(v, 0);
    } else {
      BigEndianSnoc(v, n - 1);
      assert ShrBytes(v, n - 1) == ShrBytes(v / 256, n - 2);
    }
  }

  /** Decoding `n` big-endian bytes of a value below 256^n gives it back. */
  lemma {:induction false} DecodeBigEndian(v: nat, n: nat)
    requires v < Pow256(n)
    ensures DecodeBE(BigEndian(v, n)) == v
  {
    if 0 < n {
      BigEndianSnoc(v, n);
      var s := BigEndian(v, n);
      assert s[..n - 1] == BigEndian(v / 256, n - 1);
      DecodeBigEndian(v / 256, n - 1);
      U8IsMod(v);
    }
  }

  /**
   * _mserialize_asn_get_int_sz: the number of value bytes. The masks
   * `value & 0xffff` etc. equal `value` exactly when a positive value is
   * at most the mask; below 2^32 the last mask always matches, so the
   * source's -1 is never produced.
   */
  function GetIntSz(value: int): (r: int)
    requires value < 0x1_0000_0000
    ensures 1 <= r <= 4
    ensures r == 1 <==> value <= 0x7f
    ensures r == 2 <==> 0x7f < value <= 0xffff
    ensures r == 3 <==> 0xffff < value <= 0xff_ffff
    ensures r == 4 <==> 0xff_ffff < value
  {
    if value <= 0x7f then 1
    else if value <= 0xffff then 2
    else if value <= 0xff_ffff then 3
    else 4
  }

  /** Every non-negative value below 2^32 fits in the bytes GetIntSz gives it. */
  lemma GetIntSzFits(value: nat)
    requires value < 0x1_0000_0000
    ensures value < Pow256(GetIntSz(value))
  {
    assert Pow256(1) == 0x100 && Pow256(2) == 0x1_0000;
    assert Pow256(3) == 0x100_0000 && Pow256(4) == 0x1_0000_0000;
  }

  /**
   * The bytes _mserialize_asn_sz writes for a length: one byte up to 127
   * (the low byte of the size_t, read on a little-endian machine),
   * otherwise 0x80 | n followed by n big-endian bytes.
   */
  function SzBytes(sz: nat): (s: seq<byte>)
    requires sz < 0x8000_0000
    ensures 1 <= |s| <= 5
  {
    if 127 < sz then
      var n := GetIntSz(sz);
      [(0x80 + n) as byte] + BigEndian(sz, n)
    else
      [sz as byte]
  }

  /**
   * A length in the forms of section 8.1.3 of ITU-T X.690, as a reader
   * takes it from the front of `s`: the length and the bytes it used.
   * The indefinite form (0x80) is refused.
   */
  function DecodeLength(s: seq<byte>): (r: Option<(nat, nat)>)
    ensures r.Some? ==> 1 <= r.value.1 <= |s|
  {
    if |s| == 0 then None
    else if s[0] < 0x80 then Some((s[0] as nat, 1))
    else
      var n := s[0] as nat - 0x80;
      if n == 0 || |s| < 1 + n then None
      else Some((DecodeBE(s[1..1 + n]), 1 + n))
  }

  /** SzBytes is a length of X.690 section 8.1.3: a reader gets the size back. */
  lemma SzBytesDecodes(sz: nat, rest: seq<byte>)
    requires sz < 0x8000_0000
    ensures DecodeLength(SzBytes(sz) + rest) == Some((sz, |SzBytes(sz)|))
  {
    var s := SzBytes(sz) + rest;
    if 127 < sz {
      var n := GetIntSz(sz);
      assert s[1..1 + n] == BigEndian(sz, n);
      GetIntSzFits(sz);
      DecodeBigEndian(sz, n);
    }
  }

  /**
   * The bytes _mserialize_asn_int writes, with the value size taken from
   * the magnitude: tag 0x02 (with 0x40 for a negative value), the length
   * and the magnitude big-endian.
   */
  function IntBytes(value: int): (s: seq<byte>)
    requires INT32_MIN <= value <= INT32_MAX
    ensures 3 <= |s| <= 6
    ensures s[0] == if value < 0 then ASN_TYPE_INT + ASN_NEGATIVE else ASN_TYPE_INT
  {
    var mag := Abs(value);
    var n := GetIntSz(mag);
    [if value < 0 then ASN_TYPE_INT + ASN_NEGATIVE else ASN_TYPE_INT]
      + SzBytes(n) + BigEndian(mag, n)
  }

  /**
   * _mserialize_asn_int as written: the value size is computed before the
   * negation, so every negative value gets one byte, the low byte of its
   * magnitude.
   */
  function IntBytesAsWritten(value: int): (s: seq<byte>)
    requires INT32_MIN <= value <= INT32_MAX
    ensures 0 <= value ==> s == IntBytes(value)
    ensures value < 0 ==> s == [ASN_TYPE_INT + ASN_NEGATIVE, 1, LowByte(-value)]
  {
    var n := GetIntSz(value);
    var mag := Abs(value);
    [if value < 0 then ASN_TYPE_INT + ASN_NEGATIVE else ASN_TYPE_INT]
      + SzBytes(n) + BigEndian(mag, n)
  }

  /** A reader of what _mserialize_asn_int writes: the value and the bytes used. */
  function DecodeInt(s: seq<byte>): (r: Option<(int, nat)>)
    ensures r.Some? ==> r.value.1 <= |s|
  {
    if |s| == 0 || (s[0] != ASN_TYPE_INT && s[0] != ASN_TYPE_INT + ASN_NEGATIVE) then None
    else match DecodeLength(s[1..]) {
      case None => None
      case Some((len, used)) =>
        if |s| < 1 + used + len then None
        else
          var mag: int := DecodeBE(s[1 + used..1 + used + len]);
          Some((if s[0] == ASN_TYPE_INT then mag else -mag, 1 + used + len))
    }
  }

  /** Every 32-bit integer written by IntBytes reads back, whatever follows it. */
  lemma IntBytesDecodes(value: int, rest: seq<byte>)
    requires INT32_MIN <= value <= INT32_MAX
    ensures DecodeInt(IntBytes(value) + rest) == Some((value, |IntBytes(value)|))
  {
    var mag := Abs(value);
    var n := GetIntSz(mag);
    var s := IntBytes(value) + rest;
    assert SzBytes(n) == [n as byte];
    assert s[1..] == SzBytes(n) + (BigEndian(mag, n) + rest);
    SzBytesDecodes(n, BigEndian(mag, n) + rest);
    assert s[2..2 + n] == BigEndian(mag, n);
    GetIntSzFits(mag);
    DecodeBigEndian(mag, n);
  }

  /**
   * As written, -300 is written as 0x42 0x01 0x2c: the reader gets -44,
   * because the magnitude needs two bytes and only one was written.
   */
  lemma IntBytesAsWrittenLosesNegative()
    ensures IntBytesAsWritten(-300) == [0x42, 0x01, 0x2c]
    ensures DecodeInt(IntBytesAsWritten(-300)) == Some((-44, 3))
  {
    U8IsMod(300);
    var s := IntBytesAsWritten(-300);
    assert s[1..] == [0x01, 0x2c];
    assert s[2..3] == [0x2c];
    assert DecodeBE([0x2c]) == DecodeBE([]) * 256 + 0x2c;
  }

  /** Every item of `xs` is a 32-bit integer. */
  predicate Int32s(xs: seq<int>) {
    forall i :: 0 <= i < |xs| ==> INT32_MIN <= xs[i] <= INT32_MAX
  }

  /** The writes of a sequence of integers, in order. */
  function IntsBytes(xs: seq<int>): (s: seq<byte>)
    requires Int32s(xs)
  {
    if |xs| == 0 then [] else IntsBytes(xs[..|xs| - 1]) + IntBytes(xs[|xs| - 1])
  }

  /** The writes of the first i + 1 items are those of the first i, then item i's. */
  lemma IntsBytesSnoc(xs: seq<int>, i: nat)
    requires Int32s(xs) && i < |xs|
    ensures Int32s(xs[..i]) && Int32s(xs[..i + 1])
    ensures IntsBytes(xs[..i + 1]) == IntsBytes(xs[..i]) + IntBytes(xs[i])
  {
    assert xs[..i + 1][..i] == xs[..i];
  }

  /** `w` inserted into `d` at `c`. */
  function Inserted(d: seq<byte>, c: nat, w: seq<byte>): (r: seq<byte>)
    requires c <= |d|
    ensures |r| == |d| + |w|
  {
    d[..c] + w + d[c..]
  }

  /** An insert at the end is an append. */
  lemma InsertedAtEnd(d: seq<byte>, w: seq<byte>)
    ensures Inserted(d, |d|, w) == d + w
  {
    assert d[..|d|] == d;
  }

  /** Two inserts, the second right after the first, are one insert. */
  lemma InsertedTwice(d: seq<byte>, c: nat, w1: seq<byte>, w2: seq<byte>)
    requires c <= |d|
    ensures Inserted(Inserted(d, c, w1), c + |w1|, w2) == Inserted(d, c, w1 + w2)
  {
    var d1 := Inserted(d, c, w1);
    assert d1[..c + |w1|] == d[..c] + w1;
    assert d1[c + |w1|..] == d[c..];
  }

  /**
   * What a run of writes through the unix write_block leaves when the first
   * is one byte at cursor `c`: that byte goes in at `c`, the position then
   * stands at the end of the file, and every later byte is appended there.
   */
  function Placed(d: seq<byte>, c: nat, w: seq<byte>): (r: seq<byte>)
    requires c <= |d| && 0 < |w|
    ensures |r| == |d| + |w|
    ensures r[..c] == d[..c] && r[c] == w[0]
  {
    Inserted(d, c, w[..1]) + w[1..]
  }

  /** Written from the end of the file, the bytes are appended in order, as an insert there would put them. */
  lemma PlacedAtEnd(d: seq<byte>, w: seq<byte>)
    requires 0 < |w|
    ensures Placed(d, |d|, w) == d + w == Inserted(d, |d|, w)
  {
    assert d[..|d|] == d;
    assert w[..1] + w[1..] == w;
  }

  /** One byte is placed where an insert puts it. */
  lemma PlacedOne(d: seq<byte>, c: nat, w: seq<byte>)
    requires c <= |d| && |w| == 1
    ensures Placed(d, c, w) == Inserted(d, c, w)
  {
    assert w[..1] == w;
  }

  /** Bytes appended after a placed run extend the run. */
  lemma PlacedAppend(d: seq<byte>, c: nat, w: seq<byte>, v: seq<byte>)
    requires c <= |d| && 0 < |w|
    ensures Placed(d, c, w) + v == Placed(d, c, w + v)
  {
    assert (w + v)[..1] == w[..1];
    assert (w + v)[1..] == w[1..] + v;
  }

  /**
   * The mfile_t a serialiser writes to, as a growable file over the unix
   * back end: write_block inserts at the cursor, shifts the rest of the
   * file up, and leaves the position at the end of the file.
   */
  class SerialFile {
    var data: seq<byte>
    var cursor: nat

    ghost predicate Valid()
      reads this
    {
      cursor <= |data|
    }

    /** An empty file open for writing. */
    constructor ()
      ensures Valid() && data == [] && cursor == 0
    {
      data := [];
      cursor := 0;
    }

    /** The file's `cursor` member, ftell on the unix back end. */
    function Cursor(): nat
      reads this
    {
      cursor
    }

    /** The file's `sz` field. */
    function Sz(): nat
      reads this
    {
      |data|
    }

    /**
     * mfile_file_write_block: `buf` goes in at the cursor and the rest of
     * the file moves up, so the size grows by |buf|. Before the end of the
     * file the rest is read out, the position rewound, `buf` written and
     * the rest written after it, and nothing seeks back: the `cursor +=
     * written` there only updates a local. Either way the position ends at
     * the end of the file.
     */
    method WriteBlock(buf: seq<byte>) returns (e: Error)
      requires Valid()
      modifies this
      ensures Valid() && e == OK
      ensures data == Inserted(old(data), old(cursor), buf)
      ensures cursor == |data|
      ensures old(cursor) == |old(data)| ==> cursor == old(cursor) + |buf|
    {
      data := data[..cursor] + buf + data[cursor..];
      cursor := |data|;
      e := OK;
    }

    /** seek: moves the cursor within the file. */
    method Seek(pos: nat) returns (e: Error)
      requires pos <= |data|
      modifies this
      ensures Valid() && e == OK && data == old(data) && cursor == pos
    {
      cursor := pos;
      e := OK;
    }
  }

  /**
   * _mserialize_asn_int_value: writes `valueSz` bytes of `value`, most
   * significant first, one write_block each. The first byte goes in at
   * the cursor and the others follow at the end of the file, which is
   * right after it when the cursor started at the end.
   */
  method IntValue(f: SerialFile, value: nat, valueSz: nat) returns (e: Error)
    requires f.Valid() && 0 < valueSz
    modifies f
    ensures f.Valid() && e == OK && f.cursor == |f.data|
    ensures f.data == Placed(old(f.data), old(f.cursor), BigEndian(value, valueSz))
    ensures old(f.cursor) == |old(f.data)| ==> f.data == old(f.data) + BigEndian(value, valueSz)
  {
    ghost var d := f.data;
    ghost var c := f.cursor;
    ghost var be := BigEndian(value, valueSz);
    var i: int := valueSz - 1;
    e := OK;
    while 0 <= i
      invariant -1 <= i < valueSz && f.Valid() && e == OK
      invariant i == valueSz - 1 ==> f.data == d && f.cursor == c
      invariant i < valueSz - 1 ==> f.data == Placed(d, c, be[..valueSz - 1 - i]) && f.cursor == |f.data|
    {
      var intBuf := LowByte(ShrBytes(value, i));
      ghost var w := be[..valueSz - 1 - i];
      e := f.WriteBlock([intBuf]);
      assert be[..valueSz - i] == w + [intBuf] by {
        BigEndianAt(value, valueSz, valueSz - 1 - i);
      }
      if i == valueSz - 1 {
        PlacedOne(d, c, [intBuf]);
      } else {
        InsertedAtEnd(Placed(d, c, w), [intBuf]);
        PlacedAppend(d, c, w, [intBuf]);
      }
      i := i - 1;
    }
    assert be[..valueSz] == be;
    if c == |d| {
      PlacedAtEnd(d, be);
    }
  }

  /** Byte `j` of BigEndian(v, n) is byte n - 1 - j of v. */
  lemma {:induction false} BigEndianAt(v: nat, n: nat, j: nat)
    requires j < n
    ensures BigEndian(v, n)[j] == LowByte(ShrBytes(v, n - 1 - j))
  {
    if 0 < j {
      BigEndianAt(v, n - 1, j - 1);
    }
  }

  /**
   * _mserialize_asn_sz: writes a length, in one byte up to 127 and in the
   * long form beyond, 0x80 | n and then the n bytes through
   * _mserialize_asn_int_value. Written at the end of the file, or in the
   * short form, the length lies at the cursor and reads back; in the long
   * form before the end, its n bytes land at the end of the file. The
   * source's TODO on the int32_t conversion of the size_t stands: sizes
   * are below 2^31.
   */
  method AsnSz(f: SerialFile, sz: nat) returns (e: Error)
    requires f.Valid() && sz < 0x8000_0000
    modifies f
    ensures f.Valid() && e == OK && f.cursor == |f.data|
    ensures f.data == Placed(old(f.data), old(f.cursor), SzBytes(sz))
    ensures sz <= 127 ==> f.data == Inserted(old(f.data), old(f.cursor), SzBytes(sz))
    ensures old(f.cursor) == |old(f.data)| ==> f.data == old(f.data) + SzBytes(sz)
    ensures sz <= 127 || old(f.cursor) == |old(f.data)| ==>
      DecodeLength(f.data[old(f.cursor)..]) == Some((sz, |SzBytes(sz)|))
  {
    ghost var d := f.data;
    ghost var c := f.cursor;
    var szOfSz := GetIntSz(sz);
    if 127 < sz {
      var szOfSzAsn: byte := (0x80 + szOfSz) as byte;
      var ignored := f.WriteBlock([szOfSzAsn]);
      e := IntValue(f, sz, szOfSz);
      PlacedOne(d, c, [szOfSzAsn]);
      PlacedAppend(d, c, [szOfSzAsn], BigEndian(sz, szOfSz));
    } else {
      e := f.WriteBlock([sz as byte]);
      PlacedOne(d, c, [sz as byte]);
    }
    if c == |d| {
      PlacedAtEnd(d, SzBytes(sz));
    }
    if sz <= 127 || c == |d| {
      assert f.data[c..] == SzBytes(sz) + d[c..];
      SzBytesDecodes(sz, d[c..]);
    }
  }

  /**
   * _mserialize_asn_int with the value size taken from the magnitude:
   * writes the tag, the length and the value. The tag goes in at the
   * cursor and the rest follows at the end of the file.
   */
  method AsnInt(f: SerialFile, value: int) returns (e: Error)
    requires f.Valid() && INT32_MIN <= value <= INT32_MAX
    modifies f
    ensures f.Valid() && e == OK && f.cursor == |f.data|
    ensures f.data == Placed(old(f.data), old(f.cursor), IntBytes(value))
    ensures old(f.cursor) == |old(f.data)| ==> f.data == old(f.data) + IntBytes(value)
  {
    ghost var d := f.data;
    ghost var c := f.cursor;
    var typeVal := ASN_TYPE_INT;
    var mag: int := value;
    if 0 > value {
      typeVal := typeVal + ASN_NEGATIVE;
      mag := -value;
    }
    var valSz := GetIntSz(mag);
    e := f.WriteBlock([typeVal]);
    PlacedOne(d, c, [typeVal]);
    e := AsnSz(f, valSz);
    PlacedAppend(d, c, [typeVal], SzBytes(valSz));
    e := IntValue(f, mag, valSz);
    PlacedAppend(d, c, [typeVal] + SzBytes(valSz), BigEndian(mag, valSz));
    if c == |d| {
      PlacedAtEnd(d, IntBytes(value));
    }
  }

  /**
   * mserialize_header: an object or a string writes its tag and returns
   * the cursor, where the footer later puts the length; any other kind
   * writes nothing and returns 0.
   */
  method Header(f: SerialFile, kind: nat) returns (off: nat)
    requires f.Valid()
    modifies f
    ensures f.Valid()
    ensures kind == TYPE_OBJECT ==> f.data == Inserted(old(f.data), old(f.cursor), [ASN_TYPE_SEQUENCE])
    ensures kind == TYPE_STRING ==> f.data == Inserted(old(f.data), old(f.cursor), [ASN_TYPE_STRING])
    ensures kind == TYPE_OBJECT || kind == TYPE_STRING ==> off == f.cursor == |f.data|
    ensures (kind == TYPE_OBJECT || kind == TYPE_STRING) && old(f.cursor) == |old(f.data)| ==>
      off == old(f.cursor) + 1
    ensures kind != TYPE_OBJECT && kind != TYPE_STRING ==>
      off == 0 && f.data == old(f.data) && f.cursor == old(f.cursor)
  {
    var e := Usr;
    if kind == TYPE_OBJECT {
      e := f.WriteBlock([ASN_TYPE_SEQUENCE]);
    } else if kind == TYPE_STRING {
      e := f.WriteBlock([ASN_TYPE_STRING]);
    }
    if e == OK {
      off := f.Cursor();
    } else {
      off := 0;
    }
  }

  /**
   * mserialize_footer as written: a header of 0 needs no length;
   * otherwise the cursor goes back to the header and _mserialize_asn_sz
   * writes the length of everything after it, and the cursor returns to
   * the end. A length up to 127 is inserted at the header; a longer one
   * has its first byte there and the rest at the end of the file.
   */
  method FooterAsWritten(f: SerialFile, header: nat) returns (e: Error)
    requires f.Valid() && header <= f.cursor == |f.data|
    requires 0 < header ==> |f.data| - header < 0x8000_0000
    modifies f
    ensures f.Valid() && e == OK && f.cursor == |f.data|
    ensures header == 0 ==> f.data == old(f.data)
    ensures 0 < header ==> f.data == Placed(old(f.data), header, SzBytes(old(|f.data|) - header))
    ensures 0 < header && old(|f.data|) - header <= 127 ==>
      f.data == Inserted(old(f.data), header, SzBytes(old(|f.data|) - header))
  {
    e := OK;
    if header == 0 {
      return;
    }
    var seqSz := f.Sz() - header;
    var ignored := f.Seek(header);
    e := AsnSz(f, seqSz);
    ignored := f.Seek(f.Sz());
  }

  /**
   * As written, a 128-byte sequence gets the long-form length 82 00 80
   * split up: 82 follows the tag and 00 80 land after the contents, so a
   * reader at the header takes the first two content bytes as the length
   * and reads 0 where the footer meant 128.
   */
  lemma FooterAsWrittenMisplacesLength()
    ensures var d := [ASN_TYPE_SEQUENCE] + seq(128, _ => 0 as byte);
      && SzBytes(128) == [0x82, 0x00, 0x80]
      && Placed(d, 1, SzBytes(128)) == [ASN_TYPE_SEQUENCE, 0x82] + seq(128, _ => 0 as byte) + [0x00, 0x80]
      && DecodeLength(Placed(d, 1, SzBytes(128))[1..]) == Some((0, 3))
      && DecodeLength(Inserted(d, 1, SzBytes(128))[1..]) == Some((128, 3))
  {
    var z := seq(128, _ => 0 as byte);
    var d := [ASN_TYPE_SEQUENCE] + z;
    assert GetIntSz(128) == 2;
    assert ShrBytes(128, 1) == 0 && ShrBytes(128, 0) == 128;
    assert BigEndian(128, 2) == [LowByte(0)] + BigEndian(128, 1);
    assert BigEndian(128, 1) == [LowByte(128)] + BigEndian(128, 0);
    assert SzBytes(128) == [0x82, 0x00, 0x80];
    var p := Placed(d, 1, SzBytes(128));
    assert p == [ASN_TYPE_SEQUENCE, 0x82] + z + [0x00, 0x80];
    assert p[2] == z[0] == 0 && p[3] == z[1] == 0;
    assert p[1..][1..3] == [p[2], p[3]] == [0, 0];
    assert DecodeBE([0, 0]) == 0 by {
      assert [0, 0][..1] == [0 as byte];
      assert [0 as byte][..0] == [];
    }
    assert Inserted(d, 1, SzBytes(128))[1..] == SzBytes(128) + z;
    SzBytesDecodes(128, z);
  }

  /**
   * mserialize_footer corrected: the length of everything after the
   * header is inserted at the header in one write_block, so it reads back
   * there and the contents follow it unchanged; the cursor returns to the
   * end.
   */
  method Footer(f: SerialFile, header: nat) returns (e: Error)
    requires f.Valid() && header <= f.cursor == |f.data|
    requires 0 < header ==> |f.data| - header < 0x8000_0000
    modifies f
    ensures f.Valid() && e == OK && f.cursor == |f.data|
    ensures header == 0 ==> f.data == old(f.data)
    ensures 0 < header ==>
      f.data == old(f.data)[..header] + SzBytes(old(|f.data|) - header) + old(f.data)[header..]
    ensures 0 < header ==>
      DecodeLength(f.data[header..]) == Some((old(|f.data|) - header, |SzBytes(old(|f.data|) - header)|))
  {
    e := OK;
    if header == 0 {
      return;
    }
    ghost var d := f.data;
    var seqSz := f.Sz() - header;
    var ignored := f.Seek(header);
    e := f.WriteBlock(SzBytes(seqSz));
    ignored := f.Seek(f.Sz());
    assert f.data[header..] == SzBytes(seqSz) + d[header..];
    SzBytesDecodes(seqSz, d[header..]);
  }

  /**
   * _mserialize_asn_vector_int over the items of a vector of integers:
   * the ARRAY header writes nothing, so the items are written one after
   * the other with no tag or length of their own around them.
   */
  method VectorInt(f: SerialFile, xs: seq<int>) returns (e: Error)
    requires f.Valid() && f.cursor == |f.data|
    requires Int32s(xs)
    modifies f
    ensures f.Valid() && e == OK && f.cursor == |f.data|
    ensures f.data == old(f.data) + IntsBytes(xs)
  {
    var header := Header(f, TYPE_ARRAY);
    if |xs| == 0 {
      e := Footer(f, header);
      return;
    }
    e := WriteInts(f, xs);
    e := Footer(f, header);
  }

  /** The loop of _mserialize_asn_vector_int: each item through _mserialize_asn_int. */
  method WriteInts(f: SerialFile, xs: seq<int>) returns (e: Error)
    requires f.Valid() && f.cursor == |f.data| && Int32s(xs)
    modifies f
    ensures f.Valid() && e == OK && f.cursor == |f.data|
    ensures f.data == old(f.data) + IntsBytes(xs)
  {
    var i := 0;
    e := OK;
    while i < |xs|
      invariant i <= |xs| && f.Valid() && f.cursor == |f.data| && e == OK
      invariant f.data == old(f.data) + IntsBytes(xs[..i])
    {
      ghost var before := f.data;
      e := AsnInt(f, xs[i]);
      WriteIntsStep(old(f.data), before, f.data, xs, i);
      i := i + 1;
    }
    assert xs[..i] == xs;
  }

  /** One more item's encoding appended after the first `i` items' gives the first `i + 1` items'. */
  lemma WriteIntsStep(d0: seq<byte>, before: seq<byte>, after: seq<byte>, xs: seq<int>, i: nat)
    requires Int32s(xs) && i < |xs| && Int32s(xs[..i])
    requires before == d0 + IntsBytes(xs[..i]) && after == before + IntBytes(xs[i])
    ensures Int32s(xs[..i + 1]) && after == d0 + IntsBytes(xs[..i + 1])
  {
    IntsBytesSnoc(xs, i);
  }

  /** Writing one more item appends its bytes. */
  lemma IntsBytesAppend(xs: seq<int>, x: int)
    requires Int32s(xs) && INT32_MIN <= x <= INT32_MAX
    ensures Int32s(xs + [x])
    ensures IntsBytes(xs + [x]) == IntsBytes(xs) + IntBytes(x)
  {
    assert (xs + [x])[..|xs|] == xs;
  }

  /** A value up to 0x7f takes one byte. */
  lemma IntBytesOne(v: int)
    requires 0 <= v <= 0x7f
    ensures IntBytes(v) == [ASN_TYPE_INT, 1, v as byte]
  {
    U8IsMod(v);
  }

  /** A value from 0x80 to 0xffff takes two bytes. */
  lemma IntBytesTwo(v: int, hi: byte, lo: byte)
    requires 0x7f < v <= 0xffff && v == hi as int * 256 + lo as int
    ensures IntBytes(v) == [ASN_TYPE_INT, 2, hi, lo]
  {
    assert v / 256 == hi as int && v % 256 == lo as int;
    assert ShrBytes(v, 1) == hi as int;
    assert ShrBytes(v, 0) == v;
    U8IsMod(v);
    assert BigEndian(v, 2) == [LowByte(hi as int)] + BigEndian(v, 1);
    assert BigEndian(v, 1) == [LowByte(v)] + BigEndian(v, 0);
  }
}
