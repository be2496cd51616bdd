/**
 * src/retrofnt.h: the platform-independent helpers of the font loader.
 * retrofont_sz_from_filename reads the glyph height out of a font file
 * name such as "unscii-16.hex"; retrofont_read_line splits a font line
 * "index:bytes" in place and recognises "SUB" substitution lines.
 */
module RetroFnt {
  import opened Maug

  /** RETROFONT_LINE_SZ. */
  const LINE_SZ: nat := 80

  /** The size of glyph_h_buf. */
  const HEIGHT_BUF_SZ: nat := 10

  /** strlen: the index of the first NUL, or the whole buffer. */
  function Len(s: seq<char>): (n: nat)
    ensures n <= |s|
  {
    if |s| == 0 || s[0] == '\0' then 0 else 1 + Len(s[1..])
  }

  /** The text of a C string: its characters before the first NUL. */
  function Text(s: seq<char>): (t: seq<char>)
    ensures |t| <= |s|
  {
    s[..Len(s)]
  }

  /** A string whose first NUL is at k has length k. */
  lemma {:induction false} LenAt(s: seq<char>, k: nat)
    requires k < |s| && s[k] == '\0'
    requires forall i :: 0 <= i < k ==> s[i] != '\0'
    ensures Len(s) == k
  {
    if k > 0 {
      LenAt(s[1..], k - 1);
    }
  }

  /** A string with no NUL has its whole length. */
  lemma {:induction false} LenNoNul(s: seq<char>)
    requires forall i :: 0 <= i < |s| ==> s[i] != '\0'
    ensures Len(s) == |s|
  {
    if |s| > 0 {
      LenNoNul(s[1..]);
    }
  }

  /** The characters before strlen are not NUL, and the one at it is. */
  lemma {:induction false} LenShape(s: seq<char>)
    ensures forall i :: 0 <= i < Len(s) ==> s[i] != '\0'
    ensures Len(s) < |s| ==> s[Len(s)] == '\0'
  {
    if |s| > 0 && s[0] != '\0' {
      LenShape(s[1..]);
    }
  }

  /** The last index of `c` in `t`, as maug_strrchr finds it. */
  function LastIndex(t: seq<char>, c: char): (r: Option<nat>)
    ensures r.Some? ==> r.value < |t| && t[r.value] == c && forall j :: r.value < j < |t| ==> t[j] != c
    ensures r.None? ==> forall j :: 0 <= j < |t| ==> t[j] != c
  {
    if |t| == 0 then None
    else if t[|t| - 1] == c then Some(|t| - 1)
    else LastIndex(t[..|t| - 1], c)
  }

  /** The first index of `c` in `t`, as strchr finds it. */
  function FirstIndex(t: seq<char>, c: char): (r: Option<nat>)
    ensures r.Some? ==> r.value < |t| && t[r.value] == c && forall j :: 0 <= j < r.value ==> t[j] != c
    ensures r.None? ==> forall j :: 0 <= j < |t| ==> t[j] != c
  {
    if |t| == 0 then None
    else if t[0] == c then Some(0)
    else match FirstIndex(t[1..], c)
      case None => None
      case Some(k) => Some(k + 1)
  }

  /** The characters the height scan stops at. */
  predicate IsSep(c: char) {
    c == '-' || c == '_'
  }

  /**
   * Where the characters copied into glyph_h_buf begin when the backward
   * scan is at `p`: the scan stops after a '-' or '_', and in any case
   * before it would step onto index 0.
   */
  function FieldStart(name: seq<char>, p: nat): (r: nat)
    requires p <= |name|
    ensures r <= p && (p < 2 ==> r == p)
    decreases p
  {
    if p < 2 then p
    else if IsSep(name[p - 1]) then p
    else FieldStart(name, p - 1)
  }

  /** glyph_h_buf after holding `f`: its first ten characters, NUL-padded. */
  function HeightBuf(f: seq<char>): (b: seq<char>)
    ensures |b| == HEIGHT_BUF_SZ
  {
    if |f| >= HEIGHT_BUF_SZ then f[..HEIGHT_BUF_SZ]
    else f + Nuls(HEIGHT_BUF_SZ - |f|)
  }

  /** `n` NUL characters. */
  function Nuls(n: nat): (r: seq<char>)
    ensures |r| == n && forall i :: 0 <= i < n ==> r[i] == '\0'
  {
    if n == 0 then [] else Nuls(n - 1) + ['\0']
  }

  /** Prepending a character shifts the buffer up by one, dropping the last. */
  lemma HeightBufPrepend(c: char, f: seq<char>)
    ensures HeightBuf([c] + f) == [c] + HeightBuf(f)[..HEIGHT_BUF_SZ - 1]
  {
    var l := HeightBuf([c] + f);
    var r := [c] + HeightBuf(f)[..HEIGHT_BUF_SZ - 1];
    assert forall i :: 0 <= i < HEIGHT_BUF_SZ ==> l[i] == r[i];
  }

  predicate IsDigit(c: char) {
    '0' <= c <= '9'
  }

  predicate IsSpace(c: char) {
    c == ' ' || c == '\t' || c == '\n' || c == '\r' || c == 11 as char || c == 12 as char
  }

  /** The value of the decimal digits `p`. */
  function DecValue(p: seq<char>): (v: nat)
    requires forall i :: 0 <= i < |p| ==> IsDigit(p[i])
  {
    if |p| == 0 then 0
    else
      assert IsDigit(p[|p| - 1]);
      DecValue(p[..|p| - 1]) * 10 + (p[|p| - 1] as int - '0' as int)
  }

  /** The number of leading decimal digits of `t`. */
  function DigitRun(t: seq<char>): (n: nat)
    ensures n <= |t| && forall i :: 0 <= i < n ==> IsDigit(t[i])
    ensures n < |t| ==> !IsDigit(t[n])
  {
    if |t| == 0 || !IsDigit(t[0]) then 0 else 1 + DigitRun(t[1..])
  }

  /** The leading digits' value once leading white space is skipped. */
  function DigitsValue(t: seq<char>): nat {
    DecValue(t[..DigitRun(t)])
  }

  /**
   * atoi on a buffer: white space skipped, an optional sign, then the
   * leading digits; a NUL or any other character ends the number.
   */
  function Atoi(t: seq<char>): int
    decreases |t|
  {
    if |t| > 0 && IsSpace(t[0]) then Atoi(t[1..])
    else if |t| > 0 && t[0] == '-' then -(DigitsValue(t[1..]) as int)
    else if |t| > 0 && t[0] == '+' then DigitsValue(t[1..])
    else DigitsValue(t)
  }

  /** `name`'s text holds a '.', as the pointer walk needs. */
  predicate HasDot(name: seq<char>) {
    LastIndex(Text(name), '.').Some?
  }

  /**
   * What retrofont_sz_from_filename returns for `name`. It agrees with the
   * intended Sz except when the height field would start at index 0.
   */
  function SzAsWritten(name: seq<char>): (h: int)
    requires HasDot(name)
    ensures var d := LastIndex(Text(name), '.').value;
      d == 0 || 0 < HeightStart(name, d) ==> h == Sz(name)
  {
    var d := LastIndex(Text(name), '.').value;
    FieldStartFromOne(name, d);
    Atoi(HeightBuf(name[FieldStart(name, d)..d]))
  }

  /** The shift loop of retrofont_sz_from_filename: glyph_h_buf[9..1] = glyph_h_buf[8..0]. */
  method ShiftUp(buf: array<char>)
    requires buf.Length == HEIGHT_BUF_SZ
    modifies buf
    ensures buf[0] == old(buf[0]) && buf[1..] == old(buf[..HEIGHT_BUF_SZ - 1])
  {
    var i := HEIGHT_BUF_SZ - 1;
    while 0 < i
      invariant 0 <= i < HEIGHT_BUF_SZ
      invariant buf[..i + 1] == old(buf[..i + 1])
      invariant buf[i + 1..] == old(buf[i..HEIGHT_BUF_SZ - 1])
    {
      buf[i] := buf[i - 1];
      i := i - 1;
    }
  }

  /** One step of the backward copy: shift glyph_h_buf up and put `c` at its front. */
  method PushFront(buf: array<char>, c: char)
    requires buf.Length == HEIGHT_BUF_SZ
    modifies buf
    ensures buf[..] == [c] + old(buf[..HEIGHT_BUF_SZ - 1])
  {
    ShiftUp(buf);
    buf[0] := c;
    assert buf[1..] == old(buf[..HEIGHT_BUF_SZ - 1]);
  }

  /** Copying a non-separator at p extends the field backwards by one character. */
  lemma ScanStep(name: seq<char>, p: nat, d: nat)
    requires 1 <= p < d <= |name| && !IsSep(name[p])
    ensures FieldStart(name, p + 1) == FieldStart(name, p)
    ensures HeightBuf(name[p..d]) == [name[p]] + HeightBuf(name[p + 1..d])[..HEIGHT_BUF_SZ - 1]
  {
    HeightBufPrepend(name[p], name[p + 1..d]);
    assert [name[p]] + name[p + 1..d] == name[p..d];
  }

  /**
   * retrofont_sz_from_filename: from the last '.', walk back copying each
   * character to the front of glyph_h_buf until a '-' or '_' or the second
   * character of the name, then atoi the buffer.
   */
  method SzFromFilename(name: seq<char>) returns (glyphH: int)
    requires HasDot(name)
    ensures glyphH == SzAsWritten(name)
  {
    var d := LastIndex(Text(name), '.').value;
    var buf := new char[HEIGHT_BUF_SZ](_ => '\0');
    var p: nat := d;
    ghost var start := d;
    assert buf[..] == HeightBuf(name[d..d]) by {
      assert name[d..d] == [];
    }
    while p - 1 > 0
      invariant start == p <= d
      invariant FieldStart(name, p) == FieldStart(name, d)
      invariant buf[..] == HeightBuf(name[p..d])
    {
      p := p - 1;
      if IsSep(name[p]) {
        start := p + 1;
        break;
      }
      ScanStep(name, p, d);
      PushFront(buf, name[p]);
      start := p;
    }
    assert start == FieldStart(name, d);
    assert buf[..] == HeightBuf(name[FieldStart(name, d)..d]);
    glyphH := Atoi(buf[..]);
  }

  /**
   * A name whose height digits start it loses the first digit: the scan
   * never reads index 0, so "16.hex" gives 6.
   */
  lemma SzDropsFirstDigit()
    ensures HasDot("16.hex")
    ensures SzAsWritten("16.hex") == 6
  {
    var name := "16.hex";
    TextOfNoNul(name);
    LastIndexIs(name, '.', 2);
    assert FieldStart(name, 2) == 1;
    assert name[1..2] == "6";
    AtoiOfDigits("6");
    assert DecValue("6") == 6 by {
      assert "6"[..0] == [];
    }
  }

  /** The evident intent: the field starts after the last '-' or '_', or at the name's start. */
  function HeightStart(name: seq<char>, p: nat): (r: nat)
    requires p <= |name|
    ensures r <= p && (forall i :: r <= i < p ==> !IsSep(name[i]))
    ensures r == 0 || IsSep(name[r - 1])
    decreases p
  {
    if p == 0 then 0
    else if IsSep(name[p - 1]) then p
    else HeightStart(name, p - 1)
  }

  /**
   * The scan as written stops where the intended one does, except that it
   * never goes below index 1.
   */
  lemma {:induction false} FieldStartFromOne(name: seq<char>, p: nat)
    requires p <= |name|
    ensures FieldStart(name, p) == if p == 0 then 0 else if HeightStart(name, p) == 0 then 1 else HeightStart(name, p)
    decreases p
  {
    if p >= 2 && !IsSep(name[p - 1]) {
      FieldStartFromOne(name, p - 1);
    }
  }

  /** retrofont_sz_from_filename with the scan reaching index 0. */
  function Sz(name: seq<char>): int
    requires HasDot(name)
  {
    var d := LastIndex(Text(name), '.').value;
    Atoi(HeightBuf(name[HeightStart(name, d)..d]))
  }

  /** A run of n digits ended by a non-digit is the leading digit run. */
  lemma {:induction false} DigitRunIs(t: seq<char>, n: nat)
    requires n < |t| && !IsDigit(t[n])
    requires forall i :: 0 <= i < n ==> IsDigit(t[i])
    ensures DigitRun(t) == n
    decreases n
  {
    if n > 0 {
      DigitRunIs(t[1..], n - 1);
    }
  }

  /** A C string with no NUL is its own text. */
  lemma TextOfNoNul(s: seq<char>)
    requires forall i :: 0 <= i < |s| ==> s[i] != '\0'
    ensures Text(s) == s
  {
    LenNoNul(s);
  }

  lemma LastIndexIs(t: seq<char>, c: char, d: nat)
    requires d < |t| && t[d] == c && forall j :: d < j < |t| ==> t[j] != c
    ensures LastIndex(t, c) == Some(d)
  {
    var r := LastIndex(t, c);
    assert r.Some? && r.value >= d;
  }

  lemma HeightStartIs(name: seq<char>, r: nat, d: nat)
    requires r <= d <= |name|
    requires r == 0 || IsSep(name[r - 1])
    requires forall i :: r <= i < d ==> !IsSep(name[i])
    ensures HeightStart(name, d) == r
  {
  }

  /** atoi of text that starts with a digit reads the leading digit run. */
  lemma AtoiOfDigitStart(t: seq<char>)
    requires 0 < |t| && IsDigit(t[0])
    ensures Atoi(t) == DigitsValue(t)
  {
    assert !IsSpace(t[0]) && t[0] != '-' && t[0] != '+';
  }

  /** A short field fills the front of glyph_h_buf and a NUL follows it. */
  lemma HeightBufShort(f: seq<char>)
    requires |f| < HEIGHT_BUF_SZ
    ensures HeightBuf(f)[..|f|] == f && HeightBuf(f)[|f|] == '\0'
  {
    var b := HeightBuf(f);
    assert b == f + Nuls(HEIGHT_BUF_SZ - |f|);
  }

  /** A buffer holding one to nine digits and NULs reads as those digits. */
  lemma AtoiOfDigits(digits: seq<char>)
    requires 0 < |digits| < HEIGHT_BUF_SZ
    requires forall i :: 0 <= i < |digits| ==> IsDigit(digits[i])
    ensures Atoi(HeightBuf(digits)) == DecValue(digits)
  {
    var b := HeightBuf(digits);
    var n := |digits|;
    HeightBufShort(digits);
    assert IsDigit(b[0]) by {
      assert b[0] == b[..n][0];
    }
    AtoiOfDigitStart(b);
    assert !IsDigit(b[n]);
    assert forall i :: 0 <= i < n ==> IsDigit(b[i]) by {
      forall i | 0 <= i < n
        ensures IsDigit(b[i])
      {
        assert b[i] == b[..n][i];
      }
    }
    DigitRunIs(b, n);
  }

  /**
   * The corrected height: when the characters after the last '-' or '_'
   * (or from the start of the name) up to the last '.' are one to nine
   * digits, the result is their value.
   */
  lemma SzReadsDigits(name: seq<char>, h: nat, d: nat)
    requires forall i :: 0 <= i < |name| ==> name[i] != '\0'
    requires h < d < |name| && name[d] == '.'
    requires forall j :: d < j < |name| ==> name[j] != '.'
    requires h == 0 || IsSep(name[h - 1])
    requires d - h < HEIGHT_BUF_SZ
    requires forall i :: h <= i < d ==> IsDigit(name[i])
    ensures HasDot(name) && Sz(name) == DecValue(name[h..d])
  {
    TextOfNoNul(name);
    LastIndexIs(name, '.', d);
    HeightStartIs(name, h, d);
    AtoiOfDigits(name[h..d]);
  }

  /** strncmp( "SUB", glyph_idx_str, 3 ) == 0 once the index is cut at `k`. */
  predicate IsSub(idx: seq<char>) {
    |idx| >= 3 && idx[..3] == "SUB"
  }

  /** The substitute name with one trailing new line, return, tab or space removed. */
  function StripLast(b: seq<char>): (r: seq<char>)
    ensures |b| - 1 <= |r| <= |b| && r == b[..|r|]
  {
    if |b| > 0 && (b[|b| - 1] == '\n' || b[|b| - 1] == '\r' || b[|b| - 1] == '\t' || b[|b| - 1] == ' ')
    then b[..|b| - 1]
    else b
  }

  /** Writing a NUL over character k of a string's text splits it there. */
  lemma TextCut(s: seq<char>, k: nat)
    requires k < Len(s)
    ensures Text(s[k := '\0']) == Text(s)[..k]
    ensures Text(s[k := '\0'][k + 1..]) == Text(s)[k + 1..]
  {
    var s2 := s[k := '\0'];
    var n := Len(s);
    LenShape(s);
    assert forall i :: 0 <= i < k ==> s2[i] == s[i];
    LenAt(s2, k);
    assert s2[k + 1..] == s[k + 1..];
    var tail := s[k + 1..];
    assert forall i :: 0 <= i < n - k - 1 ==> tail[i] == s[k + 1 + i];
    if n < |s| {
      assert tail[n - k - 1] == '\0';
      LenAt(tail, n - k - 1);
    } else {
      LenNoNul(tail);
    }
  }

  /** A trailing new line, return, tab or space. */
  predicate IsBlank(c: char) {
    c == '\n' || c == '\r' || c == '\t' || c == ' '
  }

  /** The buffer after the "SUB" branch cuts one trailing blank of the text at `from`. */
  function Stripped(u: seq<char>, from: nat): seq<char>
    requires from <= |u|
  {
    var last := Len(u[from..]);
    if 0 < last && IsBlank(u[from + last - 1]) then u[from + last - 1 := '\0'] else u
  }

  /** Only the text at `from` changes, and it loses its trailing blank. */
  lemma StrippedText(u: seq<char>, from: nat)
    requires from <= |u|
    ensures |Stripped(u, from)| == |u| && Stripped(u, from)[..from] == u[..from]
    ensures Text(Stripped(u, from)[from..]) == StripLast(Text(u[from..]))
  {
    var last := Len(u[from..]);
    if 0 < last && IsBlank(u[from + last - 1]) {
      var v := u[from + last - 1 := '\0'][from..];
      assert v == u[from..][last - 1 := '\0'];
      LenShape(u[from..]);
      LenAt(v, last - 1);
    }
  }

  /** The tail of the "SUB" branch: strlen, then a blank last character becomes NUL. */
  method StripTrailing(line: array<char>, from: nat)
    requires from <= line.Length
    modifies line
    ensures line[..] == Stripped(old(line[..]), from)
  {
    var last := Len(line[from..]);
    if 0 < last {
      var c := line[from + last - 1];
      if c == '\n' || c == '\r' || c == '\t' || c == ' ' {
        line[from + last - 1] := '\0';
      }
    }
  }

  /**
   * The buffer `after` and the result (retval, bytes) are what splitting
   * the line `before` yields: no ':' means MERROR_WAIT and no change;
   * otherwise the index text ends at the ':' and `bytes` points past it,
   * and a "SUB" index has one trailing blank cut from the rest and gives
   * MERROR_PARSE.
   */
  ghost predicate SplitAs(before: seq<char>, after: seq<char>, retval: Error, bytes: nat) {
    var t := Text(before);
    match FirstIndex(t, ':')
    case None => retval == Wait && after == before
    case Some(k) =>
      bytes == k + 1 && bytes <= |after|
      && Text(after) == t[..k]
      && Text(after[bytes..]) == (if IsSub(t[..k]) then StripLast(t[k + 1..]) else t[k + 1..])
      && retval == (if IsSub(t[..k]) then Parse else OK)
  }

  /** A text is its part before index k, the character at k, and the part after. */
  lemma Rejoin(t: seq<char>, k: nat)
    requires k < |t|
    ensures t == t[..k] + [t[k]] + t[k + 1..]
  {
  }

  /** Splitting a line that is not a "SUB" line loses nothing: index, ':' and rest rejoin. */
  lemma SplitRejoins(before: seq<char>, after: seq<char>, bytes: nat)
    requires SplitAs(before, after, OK, bytes)
    ensures Text(before) == Text(after) + ":" + Text(after[bytes..])
  {
    var t := Text(before);
    var k := FirstIndex(t, ':').value;
    assert !IsSub(t[..k]);
    assert Text(after) == t[..k] && Text(after[bytes..]) == t[k + 1..];
    Rejoin(t, k);
  }

  lemma CutSplits(s: seq<char>, k: nat)
    requires FirstIndex(Text(s), ':') == Some(k)
    ensures k < Len(s) && IsSub(s[k := '\0'][..k]) == IsSub(Text(s)[..k])
    ensures !IsSub(Text(s)[..k]) ==> SplitAs(s, s[k := '\0'], OK, k + 1)
  {
    TextCut(s, k);
    assert s[k := '\0'][..k] == Text(s)[..k];
  }

  lemma SubSplits(s: seq<char>, k: nat)
    requires FirstIndex(Text(s), ':') == Some(k) && IsSub(Text(s)[..k])
    ensures k < |s| && SplitAs(s, Stripped(s[k := '\0'], k + 1), Parse, k + 1)
  {
    var t := Text(s);
    var cut := s[k := '\0'];
    TextCut(s, k);
    var after := Stripped(cut, k + 1);
    StrippedText(cut, k + 1);
    assert Text(after[k + 1..]) == StripLast(t[k + 1..]);
    assert Text(after) == t[..k] by {
      assert after[..k + 1] == cut[..k + 1];
      assert after[k] == '\0';
      assert forall i :: 0 <= i < k ==> after[i] != '\0' by {
        LenShape(s);
        assert forall i :: 0 <= i < k ==> after[i] == s[i];
      }
      LenAt(after, k);
      assert after[..k] == t[..k];
    }
  }

  /** The buffer retrofont_read_line leaves: ':' cut to NUL, and a "SUB" line's trailing blank. */
  function SplitBuffer(s: seq<char>): seq<char> {
    match FirstIndex(Text(s), ':')
    case None => s
    case Some(k) =>
      var cut := s[k := '\0'];
      if IsSub(s[..k]) then Stripped(cut, k + 1) else cut
  }

  /** What retrofont_read_line returns, and where its bytes pointer ends up. */
  function SplitResult(s: seq<char>): (Error, nat) {
    match FirstIndex(Text(s), ':')
    case None => (Wait, 0)
    case Some(k) => (if IsSub(s[..k]) then Parse else OK, k + 1)
  }

  /** The split buffer and result mean what SplitAs says. */
  lemma SplitMeaning(s: seq<char>)
    ensures SplitAs(s, SplitBuffer(s), SplitResult(s).0, SplitResult(s).1)
  {
    var colon := FirstIndex(Text(s), ':');
    if colon.Some? {
      var k := colon.value;
      assert s[..k] == Text(s)[..k];
      if IsSub(s[..k]) {
        assert SplitBuffer(s) == Stripped(s[k := '\0'], k + 1);
        assert SplitResult(s) == (Parse, k + 1);
        SubSplits(s, k);
      } else {
        assert SplitBuffer(s) == s[k := '\0'];
        assert SplitResult(s) == (OK, k + 1);
        CutSplits(s, k);
      }
    }
  }

  /**
   * retrofont_read_line after its read_line call: strchr for ':', the
   * ':' overwritten with NUL, and for a "SUB" index one trailing blank cut.
   */
  method SplitLine(line: array<char>) returns (retval: Error, bytes: nat)
    modifies line
    ensures line[..] == SplitBuffer(old(line[..]))
    ensures (retval, bytes) == SplitResult(old(line[..]))
  {
    var colon := FirstIndex(Text(line[..]), ':');
    if colon.None? {
      return Wait, 0;
    }
    var k := colon.value;
    line[k] := '\0';
    bytes := k + 1;
    if IsSub(line[..k]) {
      StripTrailing(line, bytes);
      retval := Parse;
    } else {
      retval := OK;
    }
  }
}
