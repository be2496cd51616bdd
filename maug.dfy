/**
 * Shared vocabulary of the maug model: the MERROR_RETVAL codes, optional
 * values, fixed-width C integer arithmetic and NUL-terminated C strings.
 */
module Maug {

  /** The MERROR_RETVAL values the core returns. */
  datatype Error =
    | OK        // MERROR_OK
    | Marge     // MERROR_MARGE
    | Alloc     // MERROR_ALLOC
    | Overflow  // MERROR_OVERFLOW
    | File      // MERROR_FILE
    | Gui       // MERROR_GUI
    | Exec      // MERROR_EXEC
    | Parse     // MERROR_PARSE
    | Wait      // MERROR_WAIT
    | Usr       // MERROR_USR

  /** Numeric value of the codes merror.h defines. */
  function Code(e: Error): (c: int)
    requires e in {OK, Marge, Alloc, Overflow}
    ensures c == 0 <==> e == OK
    ensures c > 0
      ==> c == 1 || c == 2 || c == 4
  {
    match e
    case OK => 0
    case Marge => 1
    case Alloc => 2
    case Overflow => 4
  }

  datatype Option<T> = None | Some(value: T)

  datatype Result<T> = Ok(value: T) | Err(error: Error)

  /** A uint8_t. */
  newtype byte = x: int | 0 <= x < 0x100

  const TWO_8: int := 0x100
  const TWO_16: int := 0x1_0000
  const TWO_32: int := 0x1_0000_0000

  /*
   * Fixed-width wrap-around. Each function adds or subtracts the modulus
   * until the value is in range; the ...IsMod lemmas show that this is
   * the usual reduction modulo 2^n.
   */

  /** The value a C conversion to `int8_t` leaves (two's complement). */
  function Wrap8(x: int): (r: int)
    ensures -0x80 <= r < 0x80
    ensures -0x80 <= x < 0x80 ==> r == x
    decreases if x < -0x80 then -0x80 - x else if 0x80 <= x then x - 0x80 + 1 else 0
  {
    if x < -0x80 then Wrap8(x + 0x100)
    else if 0x80 <= x then Wrap8(x - 0x100)
    else x
  }

  /** The value a C conversion to `int16_t` leaves (two's complement). */
  function Wrap16(x: int): (r: int)
    ensures -0x8000 <= r < 0x8000
    ensures -0x8000 <= x < 0x8000 ==> r == x
    decreases if x < -0x8000 then -0x8000 - x else if 0x8000 <= x then x - 0x8000 + 1 else 0
  {
    if x < -0x8000 then Wrap16(x + 0x1_0000)
    else if 0x8000 <= x then Wrap16(x - 0x1_0000)
    else x
  }

  /** The value a C conversion to `int32_t` leaves (two's complement). */
  function Wrap32(x: int): (r: int)
    ensures -0x8000_0000 <= r < 0x8000_0000
    ensures -0x8000_0000 <= x < 0x8000_0000 ==> r == x
    decreases if x < -0x8000_0000 then -0x8000_0000 - x else if 0x8000_0000 <= x then x - 0x8000_0000 + 1 else 0
  {
    if x < -0x8000_0000 then Wrap32(x + 0x1_0000_0000)
    else if 0x8000_0000 <= x then Wrap32(x - 0x1_0000_0000)
    else x
  }

  /** The value a C conversion to `uint32_t` leaves. */
  function U32(x: int): (r: nat)
    ensures r < 0x1_0000_0000
    ensures 0 <= x < 0x1_0000_0000 ==> r == x
    decreases if x < 0 then 0 - x else if 0x1_0000_0000 <= x then x - 0x1_0000_0000 + 1 else 0
  {
    if x < 0 then U32(x + 0x1_0000_0000)
    else if 0x1_0000_0000 <= x then U32(x - 0x1_0000_0000)
    else x
  }

  /** The byte a C store into an 8-bit location leaves (the stored value modulo 2^8). */
  function U8(x: int): (r: nat)
    ensures r < 0x100
    ensures 0 <= x < 0x100 ==> r == x
    decreases if x < 0 then 0 - x else if 0x100 <= x then x - 0x100 + 1 else 0
  {
    if x < 0 then U8(x + 0x100)
    else if 0x100 <= x then U8(x - 0x100)
    else x
  }

  /** Wrap32 agrees with reduction modulo 2^32 into [-2^31, 2^31). */
  lemma {:induction false} Wrap32IsMod(x: int)
    ensures (Wrap32(x) - x) % 0x1_0000_0000 == 0
    decreases if x < -0x8000_0000 then -0x8000_0000 - x else if 0x8000_0000 <= x then x - 0x8000_0000 + 1 else 0
  {
    if x < -0x8000_0000 {
      Wrap32IsMod(x + 0x1_0000_0000);
    } else if 0x8000_0000 <= x {
      Wrap32IsMod(x - 0x1_0000_0000);
    }
  }

  /** Wrap16 agrees with reduction modulo 2^16 into [-2^15, 2^15). */
  lemma {:induction false} Wrap16IsMod(x: int)
    ensures (Wrap16(x) - x) % 0x1_0000 == 0
    decreases if x < -0x8000 then -0x8000 - x else if 0x8000 <= x then x - 0x8000 + 1 else 0
  {
    if x < -0x8000 {
      Wrap16IsMod(x + 0x1_0000);
    } else if 0x8000 <= x {
      Wrap16IsMod(x - 0x1_0000);
    }
  }

  /** U32 is reduction modulo 2^32. */
  lemma {:induction false} U32IsMod(x: int)
    ensures U32(x) == x % 0x1_0000_0000
    decreases if x < 0 then 0 - x else if 0x1_0000_0000 <= x then x - 0x1_0000_0000 + 1 else 0
  {
    if x < 0 {
      U32IsMod(x + 0x1_0000_0000);
    } else if 0x1_0000_0000 <= x {
      U32IsMod(x - 0x1_0000_0000);
    }
  }

  /** U8 is reduction modulo 2^8. */
  lemma {:induction false} U8IsMod(x: int)
    ensures U8(x) == x % 0x100
    decreases if x < 0 then 0 - x else if 0x100 <= x then x - 0x100 + 1 else 0
  {
    if x < 0 {
      U8IsMod(x + 0x100);
    } else if 0x100 <= x {
      U8IsMod(x - 0x100);
    }
  }

  /** C division on signed operands: the quotient is truncated toward zero. */
  function CDiv(a: int, b: nat): int
    requires b > 0
  {
    if a >= 0 then a / b else -((-a) / b)
  }

  function Abs(x: int): (r: nat)
    ensures r == x || r == -x
  {
    if x < 0 then -x else x
  }

  /** C `>>` on a signed operand: an arithmetic shift, rounding down. */
  function Shr(x: int, n: nat): (r: int)
    ensures x >= 0 ==> 0 <= r <= x
    ensures x < 0 ==> x <= r < 0
    decreases n
  {
    if n == 0 then x else Shr(x / 2, n - 1)
  }

  /** Length of a C string: the index of its first NUL, or the whole buffer. */
  function Strlen(s: seq<char>): (n: nat)
    ensures n <= |s|
    ensures forall i :: 0 <= i < n ==> s[i] != '\0'
    ensures n < |s| ==> s[n] == '\0'
    ensures '\0' in s ==> n < |s|
  {
    if |s| == 0 || s[0] == '\0' then 0 else 1 + Strlen(s[1..])
  }

  /** The size a maug string routine works on: `sz`, or strlen when `sz` is 0. */
  function EffectiveSize(s: seq<char>, sz: nat): (n: nat)
    requires sz <= |s|
    ensures n <= |s|
    ensures sz != 0 ==> n == sz
    ensures sz == 0 ==> (forall i :: 0 <= i < n ==> s[i] != '\0') && (n < |s| ==> s[n] == '\0')
  {
    if sz == 0 then Strlen(s) else sz
  }
}
