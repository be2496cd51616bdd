/**
 * src/retrofp.h: sine and cosine by table lookup on fixed-point numbers with
 * three decimal places (RETROFP_PI is 3141). `retrofp_lut` folds a negative
 * angle to its magnitude, takes 2*pi off once, indexes the 63-entry table
 * with num / 100, scales by `mult` / 1000 in int16_t arithmetic and restores
 * the sign.
 */
module RetroFp {
  import opened Maug

  /** RETROFP_PI. */
  const PI: int := 3141

  /** The tables have 63 entries: 0 .. 6.2 radians in steps of 0.1. */
  const LUT_SZ: nat := 63

  /** g_retrofp_cos: cosine of i/10 radians, times 1000. */
  function CosEntry(i: nat): (v: int)
    requires i < LUT_SZ
    ensures -1000 <= v <= 1000
  {
    match i
    case 0 => 1000
    case 1 => 995
    case 2 => 980
    case 3 => 955
    case 4 => 921
    case 5 => 877
    case 6 => 825
    case 7 => 764
    case 8 => 696
    case 9 => 621
    case 10 => 540
    case 11 => 453
    case 12 => 362
    case 13 => 267
    case 14 => 169
    case 15 => 70
    case 16 => -29
    case 17 => -128
    case 18 => -227
    case 19 => -323
    case 20 => -416
    case 21 => -504
    case 22 => -588
    case 23 => -666
    case 24 => -737
    case 25 => -801
    case 26 => -856
    case 27 => -904
    case 28 => -942
    case 29 => -970
    case 30 => -989
    case 31 => -999
    case 32 => -998
    case 33 => -987
    case 34 => -966
    case 35 => -936
    case 36 => -896
    case 37 => -848
    case 38 => -790
    case 39 => -725
    case 40 => -653
    case 41 => -574
    case 42 => -490
    case 43 => -400
    case 44 => -307
    case 45 => -210
    case 46 => -112
    case 47 => -12
    case 48 => 87
    case 49 => 186
    case 50 => 283
    case 51 => 377
    case 52 => 468
    case 53 => 554
    case 54 => 634
    case 55 => 708
    case 56 => 775
    case 57 => 834
    case 58 => 885
    case 59 => 927
    case 60 => 960
    case 61 => 983
    case _ => 996
  }

  /** g_retrofp_sin: sine of i/10 radians, times 1000. */
  function SinEntry(i: nat): (v: int)
    requires i < LUT_SZ
    ensures -1000 <= v <= 1000
  {
    match i
    case 0 => 0
    case 1 => 99
    case 2 => 198
    case 3 => 295
    case 4 => 389
    case 5 => 479
    case 6 => 564
    case 7 => 644
    case 8 => 717
    case 9 => 783
    case 10 => 841
    case 11 => 891
    case 12 => 932
    case 13 => 963
    case 14 => 985
    case 15 => 997
    case 16 => 999
    case 17 => 991
    case 18 => 973
    case 19 => 946
    case 20 => 909
    case 21 => 863
    case 22 => 808
    case 23 => 745
    case 24 => 675
    case 25 => 598
    case 26 => 515
    case 27 => 427
    case 28 => 334
    case 29 => 239
    case 30 => 141
    case 31 => 41
    case 32 => -58
    case 33 => -157
    case 34 => -255
    case 35 => -350
    case 36 => -442
    case 37 => -529
    case 38 => -611
    case 39 => -687
    case 40 => -756
    case 41 => -818
    case 42 => -871
    case 43 => -916
    case 44 => -951
    case 45 => -977
    case 46 => -993
    case 47 => -999
    case 48 => -996
    case 49 => -982
    case 50 => -958
    case 51 => -925
    case 52 => -883
    case 53 => -832
    case 54 => -772
    case 55 => -705
    case 56 => -631
    case 57 => -550
    case 58 => -464
    case 59 => -373
    case 60 => -279
    case 61 => -182
    case _ => -83
  }

  /** The two tables retrofp_lut is given: g_retrofp_sin and g_retrofp_cos. */
  datatype Table = SinTable | CosTable

  function Entry(t: Table, i: nat): (v: int)
    requires i < LUT_SZ
  {
    match t
    case SinTable => SinEntry(i)
    case CosTable => CosEntry(i)
  }

  /** An int16_t value. */
  predicate Int16(x: int) {
    -0x8000 <= x < 0x8000
  }

  /**
   * The angles whose table index stays inside the table: magnitude below
   * 2*(2*PI) + 300, so below 4*pi with room to spare.
   */
  predicate InTable(num: int) {
    -12582 < num < 12582
  }

  /** The index retrofp_lut reads: magnitude, less 2*PI once if at least 2*PI, over 100. */
  function Index(num: int): (idx: nat)
    requires InTable(num)
    ensures idx < LUT_SZ
  {
    var m := Abs(num);
    var m2 := if m >= 2 * PI then m - 2 * PI else m;
    m2 / 100
  }

  /**
   * retrofp_lut as written: the table entry times `mult` stored back into
   * the int16_t `cos_out`, divided by 1000 toward zero, negated for a
   * negative angle. Angles outside InTable would index past the table.
   */
  function Lut(lut: Table, num: int, mult: int): (r: int)
    requires InTable(num) && Int16(mult)
    ensures -33 < r < 33
  {
    var scaled := CDiv(Wrap16(Entry(lut, Index(num)) * mult), 1000);
    ScaledSmall(Entry(lut, Index(num)) * mult);
    if num < 0 then Wrap16(-scaled) else scaled
  }

  /** The scaled entry is small: a value of int16_t over 1000 lies in -32..32. */
  lemma ScaledSmall(p: int)
    ensures -33 < CDiv(Wrap16(p), 1000) < 33
  {
  }

  /** An entry of at most 1000 in magnitude scales `mult` by at most 1. */
  lemma ScaledBound(e: int, mult: int)
    requires -1000 <= e <= 1000
    ensures Abs(CDiv(e * mult, 1000)) <= Abs(mult)
  {
    var p := e * mult;
    assert Abs(p) == Abs(e) * Abs(mult) by {
      if e < 0 && mult < 0 { assert p == (-e) * (-mult); }
      else if e < 0 { assert -p == (-e) * mult; }
      else if mult < 0 { assert -p == e * (-mult); }
    }
    assert Abs(e) * Abs(mult) <= 1000 * Abs(mult);
  }

  /** retrofp_lut(-n) == -retrofp_lut(n) for every angle n > 0 in the table's range. */
  lemma LutOdd(lut: Table, n: int, mult: int)
    requires InTable(n) && 0 < n && Int16(mult)
    ensures Lut(lut, -n, mult) == -Lut(lut, n, mult)
  {
    assert Index(-n) == Index(n);
    ScaledSmall(Entry(lut, Index(n)) * mult);
  }

  /**
   * An angle from 2*PI up to 4*PI reads the entry of the angle less 2*PI:
   * 2*PI is taken off once, and once is enough below 4*PI.
   */
  lemma LutPeriod(lut: Table, n: int, mult: int)
    requires 2 * PI <= n < 4 * PI && Int16(mult)
    ensures InTable(n) && InTable(n - 2 * PI)
    ensures Lut(lut, n, mult) == Lut(lut, n - 2 * PI, mult)
  {
    assert Index(n) == Index(n - 2 * PI);
  }

  /**
   * While the product fits in int16_t, the result is the table entry scaled
   * by mult / 1000, truncated toward zero, with the angle's sign.
   */
  lemma LutScales(lut: Table, n: int, mult: int)
    requires InTable(n) && Int16(mult)
    requires Int16(Entry(lut, Index(n)) * mult)
    ensures Lut(lut, n, mult)
      == if n < 0 then -CDiv(Entry(lut, Index(n)) * mult, 1000) else CDiv(Entry(lut, Index(n)) * mult, 1000)
  {
    ScaledSmall(Entry(lut, Index(n)) * mult);
  }

  /** retrofp_cos(-1, 10) is -10 while retrofp_cos(1, 10) is 10: the cosine comes out odd. */
  lemma CosAsWrittenIsOdd()
    ensures Lut(CosTable, 1, 10) == 10 && Lut(CosTable, -1, 10) == -10
  {
    assert Index(1) == 0 && Index(-1) == 0;
    assert CosEntry(0) == 1000;
  }

  /** retrofp_sin(1571, 1000), the sine of pi/2 at scale 1000, wraps in int16_t and gives 13. */
  lemma SinAsWrittenWraps()
    ensures Lut(SinTable, 1571, 1000) == 13
  {
    assert Index(1571) == 15;
    assert SinEntry(15) == 997;
    assert Wrap16(997000) == 13960 by {
      Wrap16IsMod(997000);
    }
  }

  /*
   * The evident intent: sine odd, cosine even, and the product formed at
   * full width (int) before the precision is removed.
   */

  /** The table entry scaled by mult / 1000, computed without the int16_t store. */
  function Scaled(lut: Table, num: int, mult: int): int
    requires InTable(num)
  {
    CDiv(Entry(lut, Index(num)) * mult, 1000)
  }

  /** retrofp_sin as intended: never larger than `mult` in magnitude. */
  function Sin(num: int, mult: int): (r: int)
    requires InTable(num)
    ensures Abs(r) <= Abs(mult)
  {
    ScaledBound(Entry(SinTable, Index(num)), mult);
    if num < 0 then -Scaled(SinTable, num, mult) else Scaled(SinTable, num, mult)
  }

  /** retrofp_cos as intended: never larger than `mult` in magnitude. */
  function Cos(num: int, mult: int): (r: int)
    requires InTable(num)
    ensures Abs(r) <= Abs(mult)
  {
    ScaledBound(Entry(CosTable, Index(num)), mult);
    Scaled(CosTable, num, mult)
  }

  /**
   * The corrected functions: sine is odd, cosine even, and at scale 1000
   * each returns its table entry exactly.
   */
  lemma SinOddCosEven(n: int, mult: int)
    requires InTable(n)
    ensures Sin(-n, mult) == -Sin(n, mult)
    ensures Cos(-n, mult) == Cos(n, mult)
    ensures Sin(n, 1000) == if n < 0 then -SinEntry(Index(n)) else SinEntry(Index(n))
    ensures Cos(n, 1000) == CosEntry(Index(n))
  {
    assert Index(-n) == Index(n);
    if n == 0 {
      assert SinEntry(0) == 0;
    }
  }
}
