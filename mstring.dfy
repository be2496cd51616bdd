/**
 * Number and string utilities of src/mstring.h: digit counting, integer to
 * text and back, case folding, tokenising, Pascal strings and hex digits.
 *
 * C strings are `seq<char>` buffers; the working length of a routine that
 * takes a size of 0 to mean "use strlen" is `EffectiveSize`.
 */
module MString {
  import opened Maug

  predicate IsDigit(c: char) { '0' <= c <= '9' }

  /** The text maug_is_num accepts: decimal digits, with one leading '-' when signed. */
  predicate NumText(t: seq<char>, sign: bool) {
    forall i :: 0 <= i < |t| ==> IsDigit(t[i]) || (sign && i == 0 && t[i] == '-')
  }

  /** The text maug_is_float accepts: decimal digits and '.' anywhere. */
  predicate FloatText(t: seq<char>) {
    forall i :: 0 <= i < |t| ==> IsDigit(t[i]) || t[i] == '.'
  }

  /** maug_is_num; `base` is accepted and ignored, as in the source. */
  method IsNum(str: seq<char>, strSz: nat, base: nat, sign: bool) returns (r: bool)
    requires strSz <= |str|
    ensures r <==> NumText(str[..EffectiveSize(str, strSz)], sign)
  {
    var n := EffectiveSize(str, strSz);
    var i := 0;
    while i < n
      invariant i <= n
      invariant NumText(str[..i], sign)
    {
      if sign && i == 0 && str[i] == '-' {
      } else if str[i] < '0' || '9' < str[i] {
        assert !NumText(str[..n], sign) by {
          assert str[..n][i] == str[i];
        }
        return false;
      }
      assert str[..i + 1][i] == str[i];
      i := i + 1;
    }
    assert str[..n] == str[..i];
    return true;
  }

  /** maug_is_float. */
  method IsFloat(str: seq<char>, strSz: nat) returns (r: bool)
    requires strSz <= |str|
    ensures r <==> FloatText(str[..EffectiveSize(str, strSz)])
  {
    var n := EffectiveSize(str, strSz);
    var i := 0;
    while i < n
      invariant i <= n
      invariant FloatText(str[..i])
    {
      if (str[i] < '0' || '9' < str[i]) && str[i] != '.' {
        assert !FloatText(str[..n]) by {
          assert str[..n][i] == str[i];
        }
        return false;
      }
      assert str[..i + 1][i] == str[i];
      i := i + 1;
    }
    assert str[..n] == str[..i];
    return true;
  }

  // ---------------------------------------------------------------------
  // Integer to text
  // ---------------------------------------------------------------------

  /** The character maug_xtoa writes for one place value. */
  function DigitChar(d: nat): (c: char)
    requires d < 36
    ensures d < 10 ==> IsDigit(c) && c as int == d + '0' as int
    ensures 10 <= d ==> 'a' <= c && c as int == d - 10 + 'a' as int
  {
    if 9 < d then (d - 10 + 'a' as int) as char else (d + '0' as int) as char
  }

  /** A character that is a digit of `base` in the text the xtoa family writes. */
  predicate IsBaseDigit(c: char, base: nat) {
    IsDigit(c) || (10 < base && 'a' <= c && (c as int) < 'a' as int + base - 10)
  }

  /**
   * The place values of `n` in `base`, most significant first, as the
   * first loop of maug_xtoa writes them: nothing at all for 0.
   */
  function Places(n: nat, base: nat): (s: seq<char>)
    requires 2 <= base <= 36
    ensures 0 < n <==> 0 < |s|
    decreases n
  {
    if n == 0 then [] else Places(n / base, base) + [DigitChar(n % base)]
  }

  /** The digits of `n` with no leading zeros: "0" for 0, the place values otherwise. */
  function NatText(n: nat, base: nat): (s: seq<char>)
    requires 2 <= base <= 36
    ensures 1 <= |s|
    ensures 0 < n ==> s == Places(n, base)
  {
    if n == 0 then "0" else Places(n, base)
  }

  /** Quotient and remainder facts about one place value, kept apart from the sequence reasoning. */
  lemma DivModBase(n: nat, base: nat)
    requires 2 <= base
    ensures (n / base) * base + n % base == n
    ensures n % base < base
    ensures base <= n ==> 0 < n / base < n
    ensures n < base ==> n % base == n && n / base == 0
  {
    var q := n / base;
    var r := n % base;
    assert n == q * base + r && 0 <= r < base;
    if q == 0 {
      assert n == r;
    } else {
      MulAtLeast(q, base);
    }
  }

  /** A positive multiple of `b` is at least `b` and at least twice the multiplier when 2 <= b. */
  lemma {:induction false} MulAtLeast(q: nat, b: nat)
    requires 1 <= q && 2 <= b
    ensures b <= q * b && 2 * q <= q * b
    decreases q
  {
    if 1 < q {
      MulAtLeast(q - 1, b);
      assert q * b == (q - 1) * b + b;
    }
  }

  /** One step of NatText: the last character is the lowest place value. */
  lemma NatTextStep(n: nat, base: nat)
    requires 2 <= base <= 36
    ensures base <= n ==> NatText(n, base) == NatText(n / base, base) + [DigitChar(n % base)]
    ensures n < base ==> NatText(n, base) == [DigitChar(n)]
  {
    DivModBase(n, base);
    if 0 < n < base {
      assert Places(n, base) == Places(0, base) + [DigitChar(n)];
    }
  }

  /** Every character of Places is a digit of its base. */
  lemma {:induction false} PlacesDigits(n: nat, base: nat)
    requires 2 <= base <= 36
    ensures forall i :: 0 <= i < |Places(n, base)| ==> IsBaseDigit(Places(n, base)[i], base)
    decreases n
  {
    if 0 < n {
      var d := n % base;
      DivModBase(n, base);
      assert IsBaseDigit(DigitChar(d), base);
      PlacesDigits(n / base, base);
    }
  }

  /** Every character of NatText is a digit of its base. */
  lemma NatTextDigits(n: nat, base: nat)
    requires 2 <= base <= 36
    ensures forall i :: 0 <= i < |NatText(n, base)| ==> IsBaseDigit(NatText(n, base)[i], base)
  {
    PlacesDigits(n, base);
  }

  /** The text maug_itoa writes: a '-' for negative numbers, then the magnitude. */
  function ItoaText(n: int, base: nat): (s: seq<char>)
    requires 2 <= base <= 36
  {
    (if n < 0 then "-" else "") + NatText(Abs(n), base)
  }

  /**
   * maug_digits: the number of characters maug_itoa needs for `num`
   * (at least 1, and one more for the '-' of a negative number).
   */
  method Digits(num: int, base: nat) returns (digits: nat)
    requires 2 <= base <= 36
    ensures digits == |ItoaText(num, base)|
    ensures digits >= 1
    ensures digits == |NatText(Abs(num), base)| + (if num < 0 then 1 else 0)
  {
    var n: nat := Abs(num);
    var negative := num < 0;
    digits := 0;
    while 0 < n
      invariant digits + |Places(n, base)| == |Places(Abs(num), base)|
      decreases n
    {
      DivModBase(n, base);
      n := n / base;
      digits := digits + 1;
    }
    if digits == 0 {
      digits := 1;
    }
    if negative {
      digits := digits + 1;
    }
  }

  function Zeros(k: nat): (s: seq<char>)
    ensures |s| == k
    ensures forall i :: 0 <= i < k ==> s[i] == '0'
  {
    if k == 0 then [] else ['0'] + Zeros(k - 1)
  }

  /**
   * The maug_xtoa macro: right-aligns the place values of `num` in the
   * `digits` characters after `destIdx`, and pads with '0' until
   * `digitsDone` (counting the place values written) reaches `digits`.
   * Returns the final `dest_idx`.
   */
  method Xtoa(num: nat, base: nat, dest: array<char>, destIdx: nat, digits: nat, digitsDone: nat)
    returns (r: nat)
    requires 2 <= base <= 36
    requires destIdx + digits <= dest.Length
    requires digitsDone + |Places(num, base)| <= digits
    modifies dest
    ensures r == destIdx + digitsDone
    ensures dest[r..destIdx + digits] == Zeros(digits - digitsDone - |Places(num, base)|) + Places(num, base)
    ensures forall i :: 0 <= i < dest.Length && !(r <= i < destIdx + digits) ==> dest[i] == old(dest[i])
  {
    ghost var w := Places(num, base);
    var idx := XtoaPlaces(num, base, dest, destIdx + digits);
    ghost var placed := dest[..];
    r := XtoaPad(dest, idx, destIdx + digits, digitsDone + (destIdx + digits - idx), digits);
    assert dest[r..destIdx + digits] == Zeros(idx - r) + w by {
      assert dest[idx..destIdx + digits] == placed[idx..destIdx + digits];
      ZerosThen(dest[r..destIdx + digits], idx - r, w);
    }
  }

  /**
   * The first loop of maug_xtoa: writes the place values of `num` leftwards
   * from `end`, so that they end just before it.
   */
  method XtoaPlaces(num: nat, base: nat, dest: array<char>, end: nat) returns (idx: nat)
    requires 2 <= base <= 36
    requires end <= dest.Length
    requires |Places(num, base)| <= end
    modifies dest
    ensures idx + |Places(num, base)| == end && dest[idx..end] == Places(num, base)
    ensures forall i :: 0 <= i < dest.Length && !(idx <= i < end) ==> dest[i] == old(dest[i])
  {
    var n: nat := num;
    idx := end;
    ghost var written: seq<char> := [];
    while n != 0
      invariant idx + |written| == end
      invariant Places(num, base) == Places(n, base) + written
      invariant dest[idx..end] == written
      invariant forall i :: 0 <= i < dest.Length && !(idx <= i < end) ==> dest[i] == old(dest[i])
      decreases n
    {
      var rem := n % base;
      XtoaStep(n, base, written);
      idx := idx - 1;
      dest[idx] := DigitChar(rem);
      written := [DigitChar(rem)] + written;
      assert dest[idx..end] == written;
      n := n / base;
    }
  }

  /** A text of `k` '0' characters followed by `w`. */
  lemma ZerosThen(a: seq<char>, k: nat, w: seq<char>)
    requires |a| == k + |w|
    requires forall i :: 0 <= i < k ==> a[i] == '0'
    requires a[k..] == w
    ensures a == Zeros(k) + w
  {
  }

  /**
   * The second loop of maug_xtoa: writes '0' leftwards from `idx` while
   * `done` is below `digits`.
   */
  method XtoaPad(dest: array<char>, idx: nat, end: nat, done: nat, digits: nat) returns (r: nat)
    requires idx <= end <= dest.Length
    requires done <= digits && digits - done <= idx
    modifies dest
    ensures r + digits - done == idx
    ensures forall i :: r <= i < idx ==> dest[i] == '0'
    ensures forall i :: 0 <= i < dest.Length && !(r <= i < idx) ==> dest[i] == old(dest[i])
  {
    r := idx;
    var d := done;
    while d < digits
      invariant d <= digits && r + d == idx + done
      invariant forall i :: r <= i < idx ==> dest[i] == '0'
      invariant forall i :: 0 <= i < dest.Length && !(r <= i < idx) ==> dest[i] == old(dest[i])
    {
      r := r - 1;
      dest[r] := '0';
      d := d + 1;
    }
  }

  /** The place value maug_xtoa writes moves from the unwritten text to the written tail. */
  lemma {:induction false} XtoaStep(n: nat, base: nat, written: seq<char>)
    requires 2 <= base <= 36
    requires 0 < n
    ensures n % base < base
    ensures n / base < n
    ensures Places(n, base) + written == Places(n / base, base) + ([DigitChar(n % base)] + written)
  {
    DivModBase(n, base);
  }

  /**
   * maug_itoa: writes ItoaText(num) followed by a NUL into `dest` and
   * returns its length; `dest_sz` must exceed that length.
   */
  method Itoa(num: int, dest: array<char>, destSz: nat, base: nat) returns (r: nat)
    requires 2 <= base <= 36
    requires destSz <= dest.Length
    requires |ItoaText(num, base)| < destSz
    modifies dest
    ensures r == |ItoaText(num, base)|
    ensures dest[..r] == ItoaText(num, base)
    ensures dest[r] == '\0'
    ensures dest[r + 1..] == old(dest[r + 1..])
  {
    var digits := Digits(num, base);
    var done := 0;
    var n: nat := Abs(num);
    var negative := false;
    if num == 0 {
      dest[0] := '0';
      done := done + 1;
    } else if num < 0 {
      negative := true;
    }
    var idx := Xtoa(n, base, dest, 0, digits, done);
    if negative {
      dest[idx] := '-';
    }
    ItoaPlaced(num, base, dest[..digits]);
    dest[digits] := '\0';
    r := digits;
  }

  /** What maug_itoa's buffer holds once the sign is in place: the whole of ItoaText. */
  lemma ItoaPlaced(num: int, base: nat, a: seq<char>)
    requires 2 <= base <= 36
    requires |a| == |ItoaText(num, base)|
    requires num == 0 ==> a == "0"
    requires num < 0 ==> a[0] == '-' && a[1..] == Places(-num, base)
    requires 0 < num ==> a == Zeros(0) + Places(num, base)
    ensures a == ItoaText(num, base)
  {
  }

  /** maug_utoa: the unsigned 32-bit counterpart of Itoa. */
  method Utoa(num: nat, dest: array<char>, destSz: nat, base: nat) returns (r: nat)
    requires num < TWO_32
    requires 2 <= base <= 36
    requires destSz <= dest.Length
    requires |NatText(num, base)| < destSz
    modifies dest
    ensures r == |NatText(num, base)|
    ensures dest[..r] == NatText(num, base)
    ensures dest[r] == '\0'
    ensures dest[r + 1..] == old(dest[r + 1..])
  {
    var digits := Digits(num, base);
    var done := 0;
    if num == 0 {
      dest[0] := '0';
      done := done + 1;
    }
    var idx := Xtoa(num, base, dest, 0, digits, done);
    ItoaPlaced(num, base, dest[..digits]);
    dest[digits] := '\0';
    r := digits;
  }

  /**
   * maug_zdigits: the size_t counterpart of Digits, with no sign to count
   * (its `negative` flag is never set).
   */
  method ZDigits(num: nat, base: nat) returns (digits: nat)
    requires 2 <= base <= 36
    ensures digits == |NatText(num, base)|
  {
    var n: nat := num;
    digits := 0;
    while 0 < n
      invariant digits + |Places(n, base)| == |Places(num, base)|
      decreases n
    {
      DivModBase(n, base);
      n := n / base;
      digits := digits + 1;
    }
    if digits == 0 {
      digits := 1;
    }
  }

  /** maug_ztoa: Utoa for a size_t, sized by ZDigits. */
  method Ztoa(num: nat, dest: array<char>, destSz: nat, base: nat) returns (r: nat)
    requires 2 <= base <= 36
    requires destSz <= dest.Length
    requires |NatText(num, base)| < destSz
    modifies dest
    ensures r == |NatText(num, base)|
    ensures dest[..r] == NatText(num, base)
    ensures dest[r] == '\0'
    ensures dest[r + 1..] == old(dest[r + 1..])
  {
    var digits := ZDigits(num, base);
    var done := 0;
    if num == 0 {
      dest[0] := '0';
      done := done + 1;
    }
    var idx := Xtoa(num, base, dest, 0, digits, done);
    ItoaPlaced(num, base, dest[..digits]);
    dest[digits] := '\0';
    r := digits;
  }

  // ---------------------------------------------------------------------
  // Text to integer
  // ---------------------------------------------------------------------

  /**
   * The value maug_atou32 gives one character, or None where it stops.
   * Any character at or above 'a' (or 'A') counts as a letter digit when
   * base > 10, and any at or above '0' as a decimal digit.
   */
  function AtouDigit(c: char, base: nat): (d: Option<nat>)
    ensures d.None? <==> c < '0'
  {
    if 10 < base && 'a' <= c then Some(c as int - 'a' as int + 10)
    else if 10 < base && 'A' <= c then Some(c as int - 'A' as int + 10)
    else if '0' <= c then Some(c as int - '0' as int)
    else None
  }

  /** Length of the leading run of `t` that maug_atou32 consumes. */
  function AtouRun(t: seq<char>, base: nat): (n: nat)
    ensures n <= |t|
    ensures forall i :: 0 <= i < n ==> AtouDigit(t[i], base).Some?
    ensures n < |t| ==> AtouDigit(t[n], base).None?
  {
    if |t| == 0 || AtouDigit(t[0], base).None? then 0 else 1 + AtouRun(t[1..], base)
  }

  /** The uint32_t accumulator after consuming all of `p`. */
  function U32Value(p: seq<char>, base: nat): (u: nat)
    requires forall i :: 0 <= i < |p| ==> AtouDigit(p[i], base).Some?
    ensures u < TWO_32
  {
    if |p| == 0 then 0
    else U32(U32Value(p[..|p| - 1], base) * base + AtouDigit(p[|p| - 1], base).value)
  }

  /** maug_atou32: accumulates digits until the first character below '0'. */
  method Atou32(buffer: seq<char>, bufferSz: nat, base: nat) returns (u: nat)
    requires bufferSz <= |buffer|
    ensures var t := buffer[..EffectiveSize(buffer, bufferSz)];
      u == U32Value(t[..AtouRun(t, base)], base)
  {
    var n := EffectiveSize(buffer, bufferSz);
    ghost var t := buffer[..n];
    u := 0;
    var i := 0;
    while i < n
      invariant i <= AtouRun(t, base)
      invariant u == U32Value(t[..i], base)
    {
      var c := buffer[i];
      var d: nat;
      if 10 < base && 'a' <= c {
        d := c as int - 'a' as int + 10;
      } else if 10 < base && 'A' <= c {
        d := c as int - 'A' as int + 10;
      } else if '0' <= c {
        d := c as int - '0' as int;
      } else {
        break;
      }
      AtouStep(t, i, base, u, d);
      u := U32(u * base + d);
      i := i + 1;
    }
    assert i == AtouRun(t, base);
  }

  /** One character of maug_atou32's loop: the accumulator follows U32Value along the run. */
  lemma AtouStep(t: seq<char>, i: nat, base: nat, u: nat, d: nat)
    requires i < |t| && i <= AtouRun(t, base)
    requires AtouDigit(t[i], base) == Some(d)
    requires u == U32Value(t[..i], base)
    ensures i + 1 <= AtouRun(t, base)
    ensures U32(u * base + d) == U32Value(t[..i + 1], base)
  {
    U32ValueSnoc(t[..i], t[i], base, u, d);
    assert t[..i] + [t[i]] == t[..i + 1];
  }

  /** Length of the leading run of decimal digits of `t`. */
  function DecimalRun(t: seq<char>): (n: nat)
    ensures n <= |t|
    ensures forall i :: 0 <= i < n ==> IsDigit(t[i])
    ensures n < |t| ==> !IsDigit(t[n])
  {
    if |t| == 0 || !IsDigit(t[0]) then 0 else 1 + DecimalRun(t[1..])
  }

  /** The int32_t accumulator after consuming the decimal digits `p`. */
  function S32Value(p: seq<char>): (s: int)
    requires forall i :: 0 <= i < |p| ==> IsDigit(p[i])
    ensures -0x8000_0000 <= s < 0x8000_0000
  {
    if |p| == 0 then 0
    else Wrap32(S32Value(p[..|p| - 1]) * 10 + (p[|p| - 1] as int - '0' as int))
  }

  /** What maug_atos32 returns for the text `t`. */
  function Atos32Value(t: seq<char>): int {
    var neg := 0 < |t| && t[0] == '-';
    var body := if neg then t[1..] else t;
    var v := S32Value(body[..DecimalRun(body)]);
    if neg then Wrap32(-v) else v
  }

  /**
   * maug_atos32: a '-' in the first position negates, decimal digits
   * accumulate, and anything else stops the scan. Signed overflow is
   * taken as two's-complement wrap-around.
   */
  method Atos32(buffer: seq<char>, bufferSz: nat) returns (s: int)
    requires bufferSz <= |buffer|
    ensures s == Atos32Value(buffer[..EffectiveSize(buffer, bufferSz)])
    ensures -0x8000_0000 <= s < 0x8000_0000
  {
    var n := EffectiveSize(buffer, bufferSz);
    s := Atos32Scan(buffer[..n]);
  }

  /** One digit of maug_atos32's scan: the accumulator follows S32Value along the digit run. */
  lemma DecimalStep(body: seq<char>, k: nat, s: int)
    requires k < |body| && IsDigit(body[k])
    requires k <= DecimalRun(body)
    requires s == S32Value(body[..k])
    ensures Wrap32(s * 10 + (body[k] as int - '0' as int)) == S32Value(body[..k + 1])
  {
    S32ValueSnoc(body[..k], body[k], s);
    assert body[..k] + [body[k]] == body[..k + 1];
  }

  /** The scanning loop of maug_atos32 over the `buffer_sz` characters `t`. */
  method Atos32Scan(t: seq<char>) returns (s: int)
    ensures s == Atos32Value(t)
  {
    ghost var neg := 0 < |t| && t[0] == '-';
    ghost var body := if neg then t[1..] else t;
    ghost var start := if neg then 1 else 0;
    ghost var k := 0;  // digits consumed so far
    s := 0;
    var isNeg := false;
    var i := 0;
    while i < |t|
      invariant i <= |t|
      invariant isNeg <==> (neg && 0 < i)
      invariant k == (if i < start then 0 else i - start)
      invariant k <= DecimalRun(body)
      invariant s == S32Value(body[..k])
    {
      if t[i] == '-' && i == 0 {
        isNeg := true;
      } else if '0' <= t[i] <= '9' {
        assert body[k] == t[i];
        DecimalStep(body, k, s);
        s := Wrap32(s * 10 + (t[i] as int - '0' as int));
        k := k + 1;
      } else {
        assert k < |body| && !IsDigit(body[k]);
        break;
      }
      i := i + 1;
    }
    assert k == DecimalRun(body);
    if isNeg {
      s := Wrap32(-s);
    }
  }

  // ---------------------------------------------------------------------
  // Round trips
  // ---------------------------------------------------------------------

  lemma AtouDigitOfDigitChar(d: nat, base: nat)
    requires 2 <= base <= 36 && d < base
    ensures AtouDigit(DigitChar(d), base) == Some(d)
  {
  }

  lemma AtouDigitsOfNatText(n: nat, base: nat)
    requires 2 <= base <= 36
    ensures forall i :: 0 <= i < |NatText(n, base)| ==> AtouDigit(NatText(n, base)[i], base).Some?
  {
    NatTextDigits(n, base);
  }

  /** Every character maug_utoa writes is one maug_atou32 consumes. */
  lemma AtouRunOfNatText(n: nat, base: nat)
    requires 2 <= base <= 36
    ensures AtouRun(NatText(n, base), base) == |NatText(n, base)|
  {
    AtouDigitsOfNatText(n, base);
  }

  /** Consuming one more digit `d` after a prefix worth `q` gives q * base + d, as a uint32_t. */
  lemma U32ValueSnoc(p: seq<char>, c: char, base: nat, q: nat, d: nat)
    requires forall i :: 0 <= i < |p| ==> AtouDigit(p[i], base).Some?
    requires AtouDigit(c, base) == Some(d)
    requires U32Value(p, base) == q
    ensures forall i :: 0 <= i < |p + [c]| ==> AtouDigit((p + [c])[i], base).Some?
    ensures U32Value(p + [c], base) == U32(q * base + d)
  {
    assert (p + [c])[..|p|] == p;
  }

  /** The place values maug_xtoa writes accumulate back to `n` in maug_atou32's loop. */
  lemma {:induction false} U32ValueOfPlaces(n: nat, base: nat)
    requires n < TWO_32
    requires 2 <= base <= 36
    ensures forall i :: 0 <= i < |Places(n, base)| ==> AtouDigit(Places(n, base)[i], base).Some?
    ensures U32Value(Places(n, base), base) == n
    decreases n
  {
    PlacesDigits(n, base);
    if 0 < n {
      var q := n / base;
      var d := n % base;
      DivModBase(n, base);
      AtouDigitOfDigitChar(d, base);
      U32ValueOfPlaces(q, base);
      U32ValueSnoc(Places(q, base), DigitChar(d), base, q, d);
      assert q * base + d == n;
    }
  }

  /** maug_atou32 reads back the digits maug_utoa writes, in any base up to 36. */
  lemma U32ValueOfNatText(n: nat, base: nat)
    requires n < TWO_32
    requires 2 <= base <= 36
    ensures forall i :: 0 <= i < |NatText(n, base)| ==> AtouDigit(NatText(n, base)[i], base).Some?
    ensures U32Value(NatText(n, base), base) == n
  {
    U32ValueOfPlaces(n, base);
    if n == 0 {
      U32ValueSnoc([], '0', base, 0, 0);
      assert [] + ['0'] == NatText(n, base);
    }
  }
  /** Round trip: maug_atou32 of maug_utoa's output is the original number. */
  lemma UtoaAtou32RoundTrip(n: nat, base: nat)
    requires n < TWO_32
    requires 2 <= base <= 36
    ensures AtouRun(NatText(n, base), base) == |NatText(n, base)|
    ensures U32Value(NatText(n, base)[..AtouRun(NatText(n, base), base)], base) == n
  {
    AtouRunOfNatText(n, base);
    U32ValueOfNatText(n, base);
    assert NatText(n, base)[..|NatText(n, base)|] == NatText(n, base);
  }

  /** Consuming one more decimal digit after a prefix worth `q`. */
  lemma S32ValueSnoc(p: seq<char>, c: char, q: int)
    requires forall i :: 0 <= i < |p| ==> IsDigit(p[i])
    requires IsDigit(c)
    requires S32Value(p) == q
    ensures forall i :: 0 <= i < |p + [c]| ==> IsDigit((p + [c])[i])
    ensures S32Value(p + [c]) == Wrap32(q * 10 + (c as int - '0' as int))
  {
    assert (p + [c])[..|p|] == p;
  }

  /** The decimal place values of a magnitude up to 2^31 accumulate to its int32_t value. */
  lemma {:induction false} S32ValueOfPlaces(m: nat)
    requires m <= 0x8000_0000
    ensures forall i :: 0 <= i < |Places(m, 10)| ==> IsDigit(Places(m, 10)[i])
    ensures S32Value(Places(m, 10)) == Wrap32(m)
    decreases m
  {
    PlacesDigits(m, 10);
    if 0 < m {
      var q := m / 10;
      var d := m % 10;
      assert q * 10 + d == m && d < 10 && q < 0x8000_0000 by {
        DivModBase(m, 10);
      }
      S32ValueOfPlaces(q);
      var c := DigitChar(d);
      assert Places(m, 10) == Places(q, 10) + [c];
      assert S32Value(Places(q, 10) + [c]) == Wrap32(q * 10 + d) by {
        assert c as int - '0' as int == d;
        S32ValueSnoc(Places(q, 10), c, q);
      }
    }
  }

  /** The decimal digits of a magnitude up to 2^31 accumulate to its int32_t value. */
  lemma S32ValueOfNatText(m: nat)
    requires m <= 0x8000_0000
    ensures forall i :: 0 <= i < |NatText(m, 10)| ==> IsDigit(NatText(m, 10)[i])
    ensures S32Value(NatText(m, 10)) == Wrap32(m)
  {
    S32ValueOfPlaces(m);
    if m == 0 {
      S32ValueSnoc([], '0', 0);
      assert [] + ['0'] == NatText(m, 10);
    }
  }
  /** A text of decimal digits is consumed whole. */
  lemma {:induction false} DecimalRunOfDigits(s: seq<char>)
    requires forall i :: 0 <= i < |s| ==> IsDigit(s[i])
    ensures DecimalRun(s) == |s|
    ensures s[..DecimalRun(s)] == s
  {
    if 0 < |s| {
      DecimalRunOfDigits(s[1..]);
    }
  }

  /** A '-' in front of an unsigned text negates what maug_atos32 reads, with wrap-around. */
  lemma Atos32ValueNegated(s: seq<char>, v: int)
    requires 0 < |s| && s[0] != '-'
    requires Atos32Value(s) == v
    ensures Atos32Value("-" + s) == Wrap32(-v)
  {
    assert ("-" + s)[1..] == s;
  }

  /** Negating the int32_t reading of a magnitude up to 2^31 gives back the negative number. */
  lemma Wrap32NegatedMagnitude(m: nat)
    requires 0 < m <= 0x8000_0000
    ensures Wrap32(-Wrap32(m)) == -(m as int)
  {
    if m == 0x8000_0000 {
      assert Wrap32(m) == -0x8000_0000;
    }
  }

  /** maug_atos32 reads the decimal digits of a magnitude up to 2^31 as its int32_t value. */
  lemma Atos32ValueOfNatText(m: nat)
    requires m <= 0x8000_0000
    ensures 0 < |NatText(m, 10)| && NatText(m, 10)[0] != '-'
    ensures Atos32Value(NatText(m, 10)) == Wrap32(m)
  {
    S32ValueOfNatText(m);
    Atos32ValueOfDigits(NatText(m, 10), Wrap32(m));
  }

  /** maug_atos32 reads a non-empty run of decimal digits whole. */
  lemma Atos32ValueOfDigits(s: seq<char>, v: int)
    requires 0 < |s| && forall i :: 0 <= i < |s| ==> IsDigit(s[i])
    requires S32Value(s) == v
    ensures s[0] != '-' && Atos32Value(s) == v
  {
    DecimalRunOfDigits(s);
  }

  /** A negative number's text is '-' followed by the digits of its magnitude. */
  lemma ItoaTextNegative(n: int)
    requires n < 0
    ensures ItoaText(n, 10) == "-" + NatText(-n, 10)
  {
  }

  /** A '-' before the digits of a magnitude up to 2^31 reads back as the negative number. */
  lemma Atos32ValueOfMinusNatText(m: nat)
    requires 0 < m <= 0x8000_0000
    ensures Atos32Value("-" + NatText(m, 10)) == -(m as int)
  {
    var s := NatText(m, 10);
    S32ValueOfNatText(m);
    Atos32ValueOfDigits(s, Wrap32(m));
    Atos32ValueNegated(s, Wrap32(m));
    Wrap32NegatedMagnitude(m);
  }

  /** maug_atos32 reads back maug_itoa's decimal text of a negative int32_t. */
  lemma ItoaAtos32Negative(n: int)
    requires -0x8000_0000 <= n < 0
    ensures Atos32Value(ItoaText(n, 10)) == n
  {
    ItoaTextNegative(n);
    Atos32ValueOfMinusNatText(-n);
  }

  /** maug_atos32 reads back maug_itoa's decimal text of a non-negative int32_t. */
  lemma ItoaAtos32NonNegative(n: nat)
    requires n < 0x8000_0000
    ensures Atos32Value(ItoaText(n, 10)) == n
  {
    assert ItoaText(n, 10) == NatText(n, 10);
    Atos32ValueOfNatText(n);
  }

  /** Round trip: maug_atos32 of maug_itoa's decimal output is the original int32_t. */
  lemma ItoaAtos32RoundTrip(n: int)
    requires -0x8000_0000 <= n < 0x8000_0000
    ensures Atos32Value(ItoaText(n, 10)) == n
  {
    if n < 0 {
      ItoaAtos32Negative(n);
    } else {
      ItoaAtos32NonNegative(n);
    }
  }

  // ---------------------------------------------------------------------
  // Case folding
  // ---------------------------------------------------------------------

  function UpperChar(c: char): char {
    if 'a' <= c <= 'z' then (c as int - 0x20) as char else c
  }

  function LowerChar(c: char): char {
    if 'A' <= c <= 'Z' then (c as int + 0x20) as char else c
  }

  /** The first `n` characters of `s` folded by `f`, the rest untouched. */
  function Upper(s: seq<char>, n: nat): (r: seq<char>)
    requires n <= |s|
    ensures |r| == |s|
    ensures forall i :: 0 <= i < |s| ==> r[i] == (if i < n then UpperChar(s[i]) else s[i])
  {
    seq(|s|, i requires 0 <= i < |s| => if i < n then UpperChar(s[i]) else s[i])
  }

  function Lower(s: seq<char>, n: nat): (r: seq<char>)
    requires n <= |s|
    ensures |r| == |s|
    ensures forall i :: 0 <= i < |s| ==> r[i] == (if i < n then LowerChar(s[i]) else s[i])
  {
    seq(|s|, i requires 0 <= i < |s| => if i < n then LowerChar(s[i]) else s[i])
  }

  /** maug_str_upper: 'a'..'z' in the first `lineSz` bytes move down by 0x20. */
  method StrUpper(line: array<char>, lineSz: nat)
    requires lineSz <= line.Length
    modifies line
    ensures line[..] == Upper(old(line[..]), lineSz)
  {
    var i := 0;
    while i < lineSz
      invariant i <= lineSz
      invariant forall k :: 0 <= k < line.Length ==> line[k] == (if k < i then UpperChar(old(line[k])) else old(line[k]))
    {
      if 'a' <= line[i] <= 'z' {
        line[i] := (line[i] as int - 0x20) as char;
      }
      i := i + 1;
    }
  }

  /** maug_str_lower: 'A'..'Z' in the first `lineSz` bytes move up by 0x20. */
  method StrLower(line: array<char>, lineSz: nat)
    requires lineSz <= line.Length
    modifies line
    ensures line[..] == Lower(old(line[..]), lineSz)
  {
    var i := 0;
    while i < lineSz
      invariant i <= lineSz
      invariant forall k :: 0 <= k < line.Length ==> line[k] == (if k < i then LowerChar(old(line[k])) else old(line[k]))
    {
      if 'A' <= line[i] <= 'Z' {
        line[i] := (line[i] as int + 0x20) as char;
      }
      i := i + 1;
    }
  }

  /** Upper-casing changes exactly the lower-case letters, and is idempotent. */
  lemma UpperChangesOnlyLowerCase(s: seq<char>, n: nat)
    requires n <= |s|
    ensures forall i :: 0 <= i < |s| ==> (Upper(s, n)[i] != s[i] <==> i < n && 'a' <= s[i] <= 'z')
    ensures Upper(Upper(s, n), n) == Upper(s, n)
  {
  }

  /** Lower-casing an upper-cased text gives the lower-cased original. */
  lemma LowerAfterUpper(s: seq<char>, n: nat)
    requires n <= |s|
    ensures Lower(Upper(s, n), n) == Lower(s, n)
  {
  }

  // ---------------------------------------------------------------------
  // Tokenising
  // ---------------------------------------------------------------------

  /** maug_tok_str treats NUL and every character of the separator string as a separator. */
  predicate IsSep(c: char, sep: seq<char>) {
    c == '\0' || c in sep[..Strlen(sep)]
  }

  /** The fields of `p` that a separator has closed, in order. */
  function Fields(p: seq<char>, sep: seq<char>): seq<seq<char>>
  {
    if |p| == 0 then []
    else if IsSep(p[|p| - 1], sep) then Fields(p[..|p| - 1], sep) + [Pending(p[..|p| - 1], sep)]
    else Fields(p[..|p| - 1], sep)
  }

  /** The characters of `p` after its last separator. */
  function Pending(p: seq<char>, sep: seq<char>): seq<char>
  {
    if |p| == 0 then []
    else if IsSep(p[|p| - 1], sep) then []
    else Pending(p[..|p| - 1], sep) + [p[|p| - 1]]
  }

  /**
   * Reading further only appends fields: the fields closed so far stay,
   * and the pending text is a prefix of what that field becomes.
   */
  lemma {:induction false} FieldsGrow(t: seq<char>, i: nat, j: nat, sep: seq<char>)
    requires i <= j <= |t|
    ensures |Fields(t[..i], sep)| <= |Fields(t[..j], sep)|
    ensures Fields(t[..i], sep) == Fields(t[..j], sep)[..|Fields(t[..i], sep)|]
    ensures |Fields(t[..i], sep)| == |Fields(t[..j], sep)| ==>
      Pending(t[..i], sep) <= Pending(t[..j], sep)
    ensures |Fields(t[..i], sep)| < |Fields(t[..j], sep)| ==>
      Pending(t[..i], sep) <= Fields(t[..j], sep)[|Fields(t[..i], sep)|]
    decreases j - i
  {
    if i < j {
      FieldsGrow(t, i, j - 1, sep);
      assert t[..j][..j - 1] == t[..j - 1];
    }
  }

  /** The separator test at the head of maug_tok_str's loop. */
  method MatchSep(c: char, sep: seq<char>) returns (sepMatch: bool)
    ensures sepMatch <==> IsSep(c, sep)
  {
    sepMatch := false;
    if c == '\0' {
      sepMatch := true;
    } else {
      var k := 0;
      var sepLen := Strlen(sep);
      while k < sepLen
        invariant k <= sepLen
        invariant c !in sep[..k]
      {
        if sep[k] == c {
          sepMatch := true;
          break;
        }
        assert sep[..k + 1] == sep[..k] + [sep[k]];
        k := k + 1;
      }
      assert !sepMatch ==> sep[..k] == sep[..sepLen];
    }
  }

  /**
   * maug_tok_str: copies field `idx` of the first strlen+1 (or line_sz+1)
   * characters of `line`, NUL-terminated, into `out`. It returns OK only
   * when that field exists and fits in `out_sz`, and MERROR_OVERFLOW
   * otherwise. Either way it has copied the field's characters it reached,
   * at most `out_sz - 1` of them (TokCopied), and it writes nothing past
   * them but the NUL that ends a field found whole.
   */
  method TokStr(idx: nat, line: seq<char>, lineSz: nat, out: array<char>, outSz: nat, sep: seq<char>)
    returns (e: Error)
    requires lineSz <= |line| && EffectiveSize(line, lineSz) < |line|
    requires 1 <= outSz <= out.Length
    modifies out
    ensures e == OK || e == Overflow
    ensures var f := Fields(line[..EffectiveSize(line, lineSz) + 1], sep);
      (e == OK <==> idx < |f| && |f[idx]| < outSz)
    ensures var f := Fields(line[..EffectiveSize(line, lineSz) + 1], sep);
      e == OK ==> (idx < |f| && out[..|f[idx]| + 1] == f[idx] + ['\0'])
    ensures var tok := TokCopied(line[..EffectiveSize(line, lineSz) + 1], sep, idx, outSz);
      out[..|tok|] == tok
    ensures var tok := TokCopied(line[..EffectiveSize(line, lineSz) + 1], sep, idx, outSz);
      e == OK ==> out[|tok| + 1..] == old(out[|tok| + 1..])
    ensures var tok := TokCopied(line[..EffectiveSize(line, lineSz) + 1], sep, idx, outSz);
      e == Overflow ==> out[|tok|..] == old(out[|tok|..])
  {
    var n := EffectiveSize(line, lineSz);
    ghost var t := line[..n + 1];
    ghost var f := Fields(t, sep);
    var idxIter := 0;
    var iOut := 0;
    var iIn := 0;
    e := Overflow;
    while iIn <= n
      invariant iIn <= n + 1
      invariant idxIter == |Fields(t[..iIn], sep)| <= idx
      invariant idxIter == idx ==> (iOut == |Pending(t[..iIn], sep)| && iOut < outSz
        && out[..iOut] == Pending(t[..iIn], sep))
      invariant idxIter < idx ==> iOut == 0
      invariant out[iOut..] == old(out[iOut..])
    {
      var sepMatch := MatchSep(line[iIn], sep);
      FieldsStep(t, iIn, sep);
      if sepMatch {
        idxIter := idxIter + 1;
        if idxIter > idx {
          out[iOut] := '\0';
          TokFound(t, iIn, sep, idx);
          assert out[..iOut + 1] == f[idx] + ['\0'];
          e := OK;
          break;
        }
        iOut := 0;
      } else if idxIter == idx {
        if iOut + 1 >= outSz {
          TokTooLong(t, iIn, sep, idx, outSz);
          TokCut(t, iIn, sep, idx, outSz);
          break;
        }
        out[iOut] := line[iIn];
        iOut := iOut + 1;
      }
      iIn := iIn + 1;
    }
    if n < iIn {
      TokMissing(t, sep, idx);
      assert t[..iIn] == t;
    }
  }

  /**
   * The characters maug_tok_str copies for field `idx` of `t`: the field,
   * or the text after the last separator when the field is still open at
   * the end of `t`, cut to `out_sz - 1` characters; nothing when `t` has
   * fewer fields.
   */
  function TokCopied(t: seq<char>, sep: seq<char>, idx: nat, outSz: nat): (tok: seq<char>)
    requires 1 <= outSz
    ensures |tok| < outSz
  {
    var f := Fields(t, sep);
    var whole := if idx < |f| then f[idx] else if idx == |f| then Pending(t, sep) else [];
    if |whole| < outSz then whole else whole[..outSz - 1]
  }

  /** The copy stops with `out_sz - 1` characters of field `idx`, which are what TokCopied keeps. */
  lemma TokCut(t: seq<char>, i: nat, sep: seq<char>, idx: nat, outSz: nat)
    requires i < |t| && !IsSep(t[i], sep) && 1 <= outSz
    requires |Fields(t[..i], sep)| == idx
    requires outSz == |Pending(t[..i], sep)| + 1
    ensures TokCopied(t, sep, idx, outSz) == Pending(t[..i], sep)
  {
    FieldsGrow(t, i, |t|, sep);
    assert t[..|t|] == t;
  }

  /** A separator after field `idx` has begun closes it with the pending text. */
  lemma TokFound(t: seq<char>, i: nat, sep: seq<char>, idx: nat)
    requires i < |t| && IsSep(t[i], sep)
    requires |Fields(t[..i], sep)| == idx
    ensures idx < |Fields(t, sep)| && Fields(t, sep)[idx] == Pending(t[..i], sep)
  {
    FieldsStep(t, i, sep);
    FieldsSettled(t, i + 1, sep);
  }

  /** Field `idx` can no longer fit once its pending text fills `out_sz - 1` bytes. */
  lemma TokTooLong(t: seq<char>, i: nat, sep: seq<char>, idx: nat, outSz: nat)
    requires i < |t| && !IsSep(t[i], sep)
    requires |Fields(t[..i], sep)| == idx
    requires outSz <= |Pending(t[..i], sep)| + 1
    ensures !(idx < |Fields(t, sep)| && |Fields(t, sep)[idx]| < outSz)
  {
    FieldsStep(t, i, sep);
    FieldsSettled(t, i + 1, sep);
  }

  /** A text with at most `idx` fields has no field `idx`. */
  lemma TokMissing(t: seq<char>, sep: seq<char>, idx: nat)
    requires |Fields(t[..|t|], sep)| <= idx
    ensures idx >= |Fields(t, sep)|
  {
    assert t[..|t|] == t;
  }

  /** Reading one more character closes a field at a separator and extends the pending text otherwise. */
  lemma FieldsStep(t: seq<char>, i: nat, sep: seq<char>)
    requires i < |t|
    ensures IsSep(t[i], sep) ==> (Fields(t[..i + 1], sep) == Fields(t[..i], sep) + [Pending(t[..i], sep)]
      && Pending(t[..i + 1], sep) == [])
    ensures !IsSep(t[i], sep) ==> (Fields(t[..i + 1], sep) == Fields(t[..i], sep)
      && Pending(t[..i + 1], sep) == Pending(t[..i], sep) + [t[i]])
  {
    assert t[..i + 1][..i] == t[..i];
  }

  /** What the first `i` characters have decided about every field of `t`. */
  lemma FieldsSettled(t: seq<char>, i: nat, sep: seq<char>)
    requires i <= |t|
    ensures |Fields(t[..i], sep)| <= |Fields(t, sep)|
    ensures Fields(t[..i], sep) == Fields(t, sep)[..|Fields(t[..i], sep)|]
    ensures |Fields(t[..i], sep)| < |Fields(t, sep)| ==>
      |Pending(t[..i], sep)| <= |Fields(t, sep)[|Fields(t[..i], sep)|]|
  {
    FieldsGrow(t, i, |t|, sep);
    assert t[..|t|] == t;
  }

  // ---------------------------------------------------------------------
  // Pascal strings, reverse search, hex digits
  // ---------------------------------------------------------------------

  /** What strncpy leaves in a `k`-byte destination: the text, then NUL padding. */
  function StrNCopy(s: seq<char>, k: nat): (r: seq<char>)
    ensures |r| == k
  {
    var n := if Strlen(s) < k then Strlen(s) else k;
    s[..n] + seq(k - n, _ => '\0')
  }

  /**
   * maug_strncpy (strncpy): copies the first `k` characters of `src` into
   * `dst` at `off`, stopping at the terminator and filling the rest with NUL.
   */
  method StrNCopyInto(dst: array<char>, off: nat, src: seq<char>, k: nat)
    requires off + k <= dst.Length
    modifies dst
    ensures dst[off..off + k] == StrNCopy(src, k)
    ensures forall j :: 0 <= j < dst.Length && !(off <= j < off + k) ==> dst[j] == old(dst[j])
  {
    var n := Strlen(src);
    ghost var want := StrNCopy(src, k);
    var i := 0;
    while i < k
      invariant i <= k
      invariant dst[off..off + i] == want[..i]
      invariant forall j :: 0 <= j < dst.Length && !(off <= j < off + k) ==> dst[j] == old(dst[j])
    {
      dst[off + i] := if i < n then src[i] else '\0';
      assert dst[off..off + i + 1] == dst[off..off + i] + [dst[off + i]];
      i := i + 1;
    }
  }

  /** A text shorter than `k` is copied whole by StrNCopy, terminator included. */
  lemma StrNCopyWhole(s: seq<char>, k: nat)
    requires Strlen(s) < k
    ensures StrNCopy(s, k)[..Strlen(s)] == s[..Strlen(s)]
    ensures StrNCopy(s, k)[Strlen(s)] == '\0'
  {
  }

  /**
   * maug_str_c2p: byte 0 receives strlen as an int8_t, the text follows
   * strncpy-style; MERROR_OVERFLOW when the text does not fit before a
   * terminator or is longer than 127.
   */
  method StrC2P(strIn: seq<char>, strOut: array<char>, strOutSz: nat) returns (e: Error)
    requires 1 <= strOutSz <= strOut.Length
    modifies strOut
    ensures var n := Strlen(strIn);
      (e == Overflow <==> strOutSz - 1 <= n || 127 < n) && (e == OK || e == Overflow)
    ensures strOut[0] as int == U8(Strlen(strIn))
    ensures strOut[1..strOutSz] == StrNCopy(strIn, strOutSz - 1)
    ensures strOut[strOutSz..] == old(strOut[strOutSz..])
    ensures e == OK ==> (strOut[0] as int == Strlen(strIn)
      && strOut[1..Strlen(strIn) + 1] == strIn[..Strlen(strIn)]
      && strOut[Strlen(strIn) + 1] == '\0')
  {
    var strSz := Strlen(strIn);
    e := OK;
    if strSz >= strOutSz - 1 || 127 < strSz {
      e := Overflow;
    }
    strOut[0] := U8(strSz) as char;  // the int8_t length, as a byte
    StrNCopyInto(strOut, 1, strIn, strOutSz - 1);
    if e == OK {
      C2PPayload(strOut, strOutSz, strIn);
    }
  }

  /** When the text fits, the payload after the length byte is the text and its terminator. */
  lemma C2PPayload(a: array<char>, sz: nat, s: seq<char>)
    requires 1 <= sz <= a.Length
    requires Strlen(s) < sz - 1
    requires a[1..sz] == StrNCopy(s, sz - 1)
    ensures a[1..Strlen(s) + 1] == s[..Strlen(s)]
    ensures a[Strlen(s) + 1] == '\0'
  {
    StrNCopyWhole(s, sz - 1);
    assert a[1..Strlen(s) + 1] == a[1..sz][..Strlen(s)];
    assert a[Strlen(s) + 1] == a[1..sz][Strlen(s)];
  }

  /**
   * maug_strchr: the first position of `c` among the characters before
   * the terminator; unlike maug_strrchr it never finds the terminator.
   */
  method Strchr(str: seq<char>, c: char) returns (r: Option<nat>)
    requires '\0' in str
    ensures r.Some? ==> (r.value < Strlen(str) && str[r.value] == c
      && forall j :: 0 <= j < r.value ==> str[j] != c)
    ensures r.None? ==> forall j :: 0 <= j < Strlen(str) ==> str[j] != c
  {
    var n := Strlen(str);
    var i := 0;
    while i < n
      invariant i <= n
      invariant forall j :: 0 <= j < i ==> str[j] != c
    {
      if str[i] == c {
        return Some(i);
      }
      i := i + 1;
    }
    return None;
  }

  /**
   * maug_strrchr: the last position of `c` among the characters up to and
   * including the terminator, so searching for NUL finds the terminator.
   */
  method Strrchr(str: seq<char>, c: char) returns (r: Option<nat>)
    requires '\0' in str
    ensures r.Some? ==> (r.value <= Strlen(str) && str[r.value] == c
      && forall j :: r.value < j <= Strlen(str) ==> str[j] != c)
    ensures r.None? ==> forall j :: 0 <= j <= Strlen(str) ==> str[j] != c
  {
    var i: int := Strlen(str);
    while 0 <= i
      invariant -1 <= i <= Strlen(str)
      invariant forall j :: i < j <= Strlen(str) ==> str[j] != c
    {
      if str[i] == c {
        return Some(i);
      }
      i := i - 1;
    }
    return None;
  }

  /** maug_hctoi as written: '9' is not below '9', so it takes the letter branch. */
  function HexCharToIntAsWritten(c: char): (d: int)
    ensures '0' <= c <= '8' ==> d == c as int - '0' as int
    ensures c == '9' ==> d == 2
    ensures 'A' <= c <= 'F' ==> d == c as int - 'A' as int + 10
    ensures 'a' <= c <= 'f' ==> d == c as int - 'a' as int + 10
  {
    if c < '9' then c as int - '0' as int
    else if c < 'a' then 10 + c as int - 'A' as int
    else 10 + c as int - 'a' as int
  }

  /** The digit '9' decodes to 2 instead of 9. */
  lemma HexCharToIntAsWrittenMisreadsNine()
    ensures HexCharToIntAsWritten('9') == 2
    ensures HexCharToIntAsWritten('8') == 8
  {
  }

  /** maug_hctoi with '9' in the decimal branch. */
  function HexCharToInt(c: char): (d: int)
    ensures '0' <= c <= '9' ==> d == c as int - '0' as int
    ensures 'A' <= c <= 'F' ==> d == c as int - 'A' as int + 10
    ensures 'a' <= c <= 'f' ==> d == c as int - 'a' as int + 10
  {
    if c <= '9' then c as int - '0' as int
    else if c < 'a' then 10 + c as int - 'A' as int
    else 10 + c as int - 'a' as int
  }

  /** Every hex digit maug_xtoa writes decodes back to its place value. */
  lemma HexCharToIntInvertsDigitChar(d: nat)
    requires d < 16
    ensures HexCharToInt(DigitChar(d)) == d
  {
  }
}
