/**
 * The containers of src/mdata.h: a growable vector of fixed-size items
 * and a string pool that hands out byte offsets and deduplicates strings.
 */
module MData {
  import opened Maug

  /** MDATA_VECTOR_INIT_SZ: the capacity mdata_vector_append asks for first. */
  const VECTOR_INIT_SZ: nat := 10

  /**
   * struct MDATA_VECTOR. `data` is the buffer behind the handle, so its
   * length is ct_max; `ct` items are in use. `hasBuffer` says the buffer
   * exists, `locked` that it is locked (data_bytes is set).
   */
  class Vector<T(0)> {
    var data: array<T>
    var ct: nat
    var itemSz: nat
    var hasBuffer: bool
    var locked: bool

    ghost predicate Valid()
      reads this
    {
      ct <= data.Length
      && (hasBuffer ==> 0 < data.Length)
      && (!hasBuffer ==> ct == 0 && data.Length == 0 && !locked)
    }

    /** The items in use, in index order. */
    function Items(): seq<T>
      reads this, data
      requires Valid()
    {
      data[..ct]
    }

    /** mdata_vector_ct. */
    function Count(): nat
      reads this
    {
      ct
    }

    /** A zeroed struct MDATA_VECTOR. */
    constructor ()
      ensures Valid() && !hasBuffer && !locked
      ensures Items() == [] && data.Length == 0
    {
      data := new T[0];
      ct := 0;
      itemSz := 0;
      hasBuffer := false;
      locked := false;
    }

    /**
     * mdata_vector_alloc: refuses a locked vector with MERROR_ALLOC;
     * otherwise creates the buffer with `ctInit` slots, or doubles it
     * when at most one free slot is left. Items are kept.
     */
    method Alloc(newItemSz: nat, ctInit: nat) returns (e: Error)
      requires Valid()
      requires hasBuffer || 0 < ctInit
      requires hasBuffer && !locked && data.Length <= ct + 1 ==> newItemSz == itemSz
      modifies this
      ensures Valid()
      ensures ct == old(ct) && locked == old(locked) && Items() == old(Items())
      ensures old(locked) ==> e == Error.Alloc && data == old(data) && hasBuffer && itemSz == old(itemSz)
      ensures !old(locked) ==> e == OK && hasBuffer
      ensures !old(locked) && !old(hasBuffer) ==> data.Length == ctInit && itemSz == newItemSz && fresh(data)
      ensures !old(locked) && old(hasBuffer) && old(data.Length) <= ct + 1 ==>
        data.Length == 2 * old(data.Length) && itemSz == old(itemSz) && fresh(data)
      ensures !old(locked) && old(hasBuffer) && ct + 1 < old(data.Length) ==>
        data == old(data) && itemSz == old(itemSz)
      ensures !old(locked) ==> ct < data.Length
    {
      if locked {
        return Error.Alloc;
      }
      e := OK;
      if !hasBuffer {
        data := new T[ctInit];
        itemSz := newItemSz;
        hasBuffer := true;
      } else if data.Length <= ct + 1 {
        var grown := new T[2 * data.Length];
        forall i | 0 <= i < data.Length {
          grown[i] := data[i];
        }
        assert grown[..ct] == data[..ct];
        data := grown;
      }
    }

    /**
     * mdata_vector_lock: sets data_bytes from the handle; a vector with no
     * buffer yields MERROR_ALLOC. Appending or allocating on a locked
     * vector is forbidden by the header, so locking twice is not allowed.
     */
    method Lock() returns (e: Error)
      requires Valid() && !locked
      modifies this
      ensures Valid()
      ensures data == old(data) && ct == old(ct) && hasBuffer == old(hasBuffer) && itemSz == old(itemSz)
      ensures e == OK <==> old(hasBuffer)
      ensures e != OK ==> e == Error.Alloc
      ensures locked <==> e == OK
    {
      if !hasBuffer {
        return Error.Alloc;
      }
      locked := true;
      e := OK;
    }

    /** mdata_vector_unlock: releases data_bytes if it is set. */
    method Unlock()
      requires Valid()
      modifies this
      ensures Valid() && !locked
      ensures data == old(data) && ct == old(ct) && hasBuffer == old(hasBuffer) && itemSz == old(itemSz)
    {
      locked := false;
    }

    /**
     * mdata_vector_append: grows the vector through Alloc, then copies the
     * item to index ct, increments ct and returns that index; a NULL item
     * (None) leaves the items alone and returns 0. The vector must not be
     * locked, as the header warns.
     */
    method Append(item: Option<T>, newItemSz: nat) returns (idx: int)
      requires Valid() && !locked
      requires hasBuffer && data.Length <= ct + 1 ==> newItemSz == itemSz
      modifies this, data
      ensures Valid() && !locked && hasBuffer
      ensures itemSz == if old(hasBuffer) then old(itemSz) else newItemSz
      ensures fresh(data) || data == old(data)
      ensures item.Some? ==> idx == old(ct) && Items() == old(Items()) + [item.value]
      ensures item.None? ==> idx == 0 && Items() == old(Items())
      ensures !old(hasBuffer) ==> data.Length == VECTOR_INIT_SZ && itemSz == newItemSz
      ensures old(hasBuffer) && old(data.Length) <= old(ct) + 1 ==> data.Length == 2 * old(data.Length)
      ensures old(hasBuffer) && old(ct) + 1 < old(data.Length) ==> data.Length == old(data.Length)
    {
      var e := Alloc(newItemSz, VECTOR_INIT_SZ);
      locked := true;
      if item.Some? {
        idx := ct;
        data[ct] := item.value;
        ct := ct + 1;
      } else {
        idx := 0;
      }
      locked := false;
    }

    /**
     * mdata_vector_remove: MERROR_ALLOC on a locked vector, MERROR_OVERFLOW
     * when idx >= ct; otherwise shifts the later items down by one, so the
     * rest keep their order, and decrements ct. Every path ends in the
     * cleanup that unlocks the vector, the refused locked case included.
     */
    method Remove(idx: nat) returns (e: Error)
      requires Valid()
      modifies this, data
      ensures Valid() && !locked
      ensures data == old(data) && hasBuffer == old(hasBuffer) && itemSz == old(itemSz)
      ensures old(locked) ==> e == Error.Alloc && Items() == old(Items())
      ensures !old(locked) && old(ct) <= idx ==> e == Overflow && Items() == old(Items())
      ensures !old(locked) && idx < old(ct) ==>
        e == OK && Items() == old(Items()[..idx] + Items()[idx + 1..])
    {
      if locked {
        locked := false;
        return Error.Alloc;
      }
      if ct <= idx {
        return Overflow;
      }
      locked := true;
      ShiftDown(data, ct, idx);
      ct := ct - 1;
      locked := false;
      e := OK;
    }

    /**
     * mdata_vector_get_void on a locked vector: the item at `idx`, or NULL
     * (None) exactly when idx >= ct.
     */
    function GetVoid(idx: nat): (r: Option<T>)
      reads this, data
      requires Valid() && locked
      ensures r.None? <==> Count() <= idx
      ensures r.Some? ==> idx < |Items()| && r.value == Items()[idx]
    {
      if idx >= ct then None else Some(data[idx])
    }

    /** mdata_vector_get_last: the last item, or NULL for an empty vector. */
    function GetLast(): (r: Option<T>)
      reads this, data
      requires Valid() && locked
      ensures r.None? <==> Items() == []
      ensures r.Some? ==> r.value == Items()[|Items()| - 1]
    {
      if 0 < ct then GetVoid(ct - 1) else None
    }

    /** mdata_vector_remove_last: Remove(ct - 1), or MERROR_OVERFLOW when empty. */
    method RemoveLast() returns (e: Error)
      requires Valid()
      modifies this, data
      ensures Valid() && data == old(data)
      ensures old(ct) == 0 ==> e == Overflow && Items() == old(Items()) && locked == old(locked)
      ensures 0 < old(ct) && old(locked) ==> e == Error.Alloc && Items() == old(Items()) && !locked
      ensures 0 < old(ct) && !old(locked) ==> e == OK && Items() == old(Items()[..|Items()| - 1]) && !locked
    {
      if 0 < ct {
        e := Remove(ct - 1);
      } else {
        e := Overflow;
      }
    }
  }

  /**
   * The memcpy loop of mdata_vector_remove: moves each item after `idx`
   * down by one slot among the first `n`.
   */
  method ShiftDown<T>(a: array<T>, n: nat, idx: nat)
    requires idx < n <= a.Length
    modifies a
    ensures a[..n - 1] == old(a[..n])[..idx] + old(a[..n])[idx + 1..]
  {
    ghost var before := a[..n];
    var i := idx;
    while i + 1 < n
      invariant idx <= i < n
      invariant a[..i] == before[..idx] + before[idx + 1..i + 1]
      invariant a[i + 1..n] == before[i + 1..]
    {
      a[i] := a[i + 1];
      assert a[..i + 1] == a[..i] + [before[i + 1]];
      i := i + 1;
    }
  }

  /**
   * The set-up loop of the vector test: appending each value in turn
   * stores them in order after the existing items.
   */
  method AppendEach<T(0)>(v: Vector<T>, xs: seq<T>, itemSz: nat)
    requires v.Valid() && !v.locked
    requires v.hasBuffer ==> itemSz == v.itemSz
    modifies v, v.data
    ensures v.Valid() && !v.locked
    ensures v.Items() == old(v.Items()) + xs
  {
    var i := 0;
    while i < |xs|
      invariant i <= |xs|
      invariant v.Valid() && !v.locked
      invariant v.hasBuffer ==> itemSz == v.itemSz
      invariant v.Items() == old(v.Items()) + xs[..i]
      invariant fresh(v.data) || v.data == old(v.data)
    {
      var idx := v.Append(Some(xs[i]), itemSz);
      assert xs[..i + 1] == xs[..i] + [xs[i]];
      i := i + 1;
    }
  }

  // ---------------------------------------------------------------------
  // String pool
  // ---------------------------------------------------------------------

  /** sizeof(size_t) on the platforms modelled here. */
  const SIZE_T: nat := 8

  /** The padding mdata_strpool_append adds after `len` bytes (a whole word when already aligned). */
  function Padding(len: nat): (p: nat)
    ensures 0 < p <= SIZE_T
    decreases len
  {
    if len < SIZE_T then SIZE_T - len else Padding(len - SIZE_T)
  }

  /** Padding is sizeof(size_t) minus the length modulo sizeof(size_t). */
  lemma {:induction false} PaddingIsMod(len: nat)
    ensures Padding(len) == SIZE_T - len % SIZE_T
    decreases len
  {
    if SIZE_T <= len {
      PaddingIsMod(len - SIZE_T);
    }
  }

  /** The bytes mdata_strpool_append reserves for a string of `len` characters. */
  function EntrySize(len: nat): nat {
    SIZE_T + len + 1 + Padding(len + 1)
  }

  /** Every entry is a whole number of size_t words, with room for the header, text and NUL. */
  lemma {:induction false} EntrySizeAligned(len: nat)
    ensures EntrySize(len) % SIZE_T == 0
    ensures SIZE_T + len + 1 < EntrySize(len) + 1 && EntrySize(len) <= 2 * SIZE_T + len + 1
  {
    PaddingIsMod(len + 1);
  }

  /** One string in the pool: its text and the bytes its entry takes. */
  datatype Entry = Entry(text: seq<char>, size: nat)

  /** The byte offset of entry `k`: the sizes of the entries before it. */
  function Offset(es: seq<Entry>, k: nat): nat
    requires k <= |es|
  {
    if k == 0 then 0 else Offset(es, k - 1) + es[k - 1].size
  }

  /** Appending an entry leaves the offsets of the earlier ones alone. */
  lemma {:induction false} OffsetAppend(es: seq<Entry>, e: Entry, k: nat)
    requires k <= |es|
    ensures Offset(es + [e], k) == Offset(es, k)
  {
    if 0 < k {
      OffsetAppend(es, e, k - 1);
      assert (es + [e])[k - 1] == es[k - 1];
    }
  }

  /** Offsets grow strictly along entries of positive size. */
  lemma {:induction false} OffsetGrows(es: seq<Entry>, j: nat, k: nat)
    requires j < k <= |es|
    requires forall i :: 0 <= i < |es| ==> 0 < es[i].size
    ensures Offset(es, j) < Offset(es, k)
    decreases k
  {
    if j < k - 1 {
      OffsetGrows(es, j, k - 1);
    }
  }

  /**
   * strncmp(a, b, n) == 0: the first `n` characters agree, comparing stops
   * after a NUL both share. Reading past either text counts as a mismatch.
   */
  predicate StrNEq(a: seq<char>, b: seq<char>, n: nat)
    decreases n
  {
    n == 0 || (0 < |a| && 0 < |b| && a[0] == b[0] && (a[0] == '\0' || StrNEq(a[1..], b[1..], n - 1)))
  }

  /** The test mdata_strpool_find applies to one entry. */
  predicate Matches(e: Entry, str: seq<char>, len: nat) {
    StrNEq(e.text + ['\0'], str, len + 1)
  }

  /** The first entry at or after `k` that matches `str`. */
  function FindFrom(es: seq<Entry>, str: seq<char>, len: nat, k: nat): (r: Option<nat>)
    requires k <= |es|
    ensures r.Some? ==> k <= r.value < |es| && Matches(es[r.value], str, len)
    ensures r.Some? ==> forall j :: k <= j < r.value ==> !Matches(es[j], str, len)
    ensures r.None? ==> forall j :: k <= j < |es| ==> !Matches(es[j], str, len)
    decreases |es| - k
  {
    if k == |es| then None
    else if Matches(es[k], str, len) then Some(k)
    else FindFrom(es, str, len, k + 1)
  }

  /** What strncpy followed by the explicit NUL leaves: the text up to `len` or its own end. */
  function Stored(str: seq<char>, len: nat): (t: seq<char>)
    requires len <= |str|
    ensures |t| <= len && '\0' !in t
  {
    str[..if Strlen(str) < len then Strlen(str) else len]
  }

  /**
   * struct MDATA_STRPOOL. Each entry is a size_t holding the entry's size,
   * then the text, its NUL and padding; a string is named by the offset of
   * its text. `strSz` is the bytes in use, `strSzMax` the buffer size.
   */
  class StrPool {
    var entries: seq<Entry>
    var strSz: nat
    var strSzMax: nat
    var hasBuffer: bool

    ghost predicate Valid()
      reads this
    {
      strSz == Offset(entries, |entries|)
      && strSz <= strSzMax
      && (hasBuffer ==> 0 < strSzMax)
      && (!hasBuffer ==> entries == [] && strSzMax == 0)
      && (forall i :: 0 <= i < |entries| ==> 0 < entries[i].size)
      && (forall i :: 0 <= i < |entries| ==> '\0' !in entries[i].text)
    }

    /** The index mdata_strpool_find returns: the first matching entry's text offset, or -1. */
    function FindIndex(str: seq<char>, len: nat): int
      reads this
    {
      match FindFrom(entries, str, len, 0)
      case None => -1
      case Some(k) => Offset(entries, k) + SIZE_T
    }

    /** An empty struct MDATA_STRPOOL. */
    constructor ()
      ensures Valid() && entries == [] && !hasBuffer
    {
      entries := [];
      strSz := 0;
      strSzMax := 0;
      hasBuffer := false;
    }

    /**
     * mdata_strpool_find: walks the entries by their stored sizes and
     * returns the offset of the first text equal to `str` under
     * strncmp(.., len + 1), or -1.
     */
    method Find(str: seq<char>, len: nat) returns (r: int)
      requires Valid()
      ensures r == FindIndex(str, len)
      ensures r == -1 <==> FindFrom(entries, str, len, 0).None?
    {
      if !hasBuffer {
        return -1;
      }
      var i := 0;
      var k := 0;  // the entry whose size header sits at byte offset i
      while i < strSz
        invariant k <= |entries| && i == Offset(entries, k)
        invariant FindFrom(entries, str, len, k) == FindFrom(entries, str, len, 0)
      {
        if k == |entries| {
          assert false;
        }
        if Matches(entries[k], str, len) {
          return i + SIZE_T;
        }
        i := i + entries[k].size;
        k := k + 1;
      }
      if k < |entries| {
        OffsetGrows(entries, k, |entries|);
      }
      r := -1;
    }

    /**
     * mdata_strpool_alloc: creates a buffer of exactly `allocSz` bytes, or
     * doubles the buffer until it exceeds strSz + allocSz.
     */
    method Alloc(allocSz: nat) returns (e: Error)
      requires Valid()
      requires hasBuffer || 0 < allocSz
      modifies this
      ensures Valid() && hasBuffer && e == OK
      ensures entries == old(entries) && strSz == old(strSz)
      ensures !old(hasBuffer) ==> strSzMax == allocSz
      ensures old(hasBuffer) && strSz + allocSz < old(strSzMax) ==> strSzMax == old(strSzMax)
      ensures old(hasBuffer) && old(strSzMax) <= strSz + allocSz ==>
        strSz + allocSz < strSzMax <= 2 * (strSz + allocSz)
    {
      e := OK;
      if !hasBuffer {
        strSzMax := allocSz;
        hasBuffer := true;
      } else if strSzMax <= strSz + allocSz {
        while strSzMax <= strSz + allocSz
          invariant entries == old(entries) && strSz == old(strSz) && hasBuffer
          invariant 0 < strSzMax <= 2 * (strSz + allocSz)
          invariant strSz <= strSzMax
          decreases strSz + allocSz - strSzMax
        {
          strSzMax := strSzMax * 2;
        }
      }
    }

    /**
     * mdata_strpool_append: returns the offset of an equal string already
     * in the pool; otherwise adds an entry of EntrySize(len) bytes holding
     * the first `len` characters and returns the offset of its text.
     */
    method Append(str: seq<char>, len: nat) returns (idx: int)
      requires Valid()
      requires len <= |str|
      requires 0 < len || (0 < strSz && FindIndex(str, len) != -1)
      modifies this
      ensures Valid() && hasBuffer == (old(hasBuffer) || idx != -1)
      ensures 0 < old(strSz) && old(FindIndex(str, len)) != -1 ==>
        idx == old(FindIndex(str, len)) && entries == old(entries) && strSzMax == old(strSzMax)
      ensures old(strSz) == 0 || old(FindIndex(str, len)) == -1 ==>
        idx == old(strSz) + SIZE_T
        && entries == old(entries) + [Entry(Stored(str, len), EntrySize(len))]
    {
      if 0 < strSz {
        idx := Find(str, len);
        if idx != -1 {
          return;
        }
      }
      var allocSz := EntrySize(len);
      var e := Alloc(allocSz);
      ghost var es := entries;
      entries := entries + [Entry(Stored(str, len), allocSz)];
      OffsetAppend(es, Entry(Stored(str, len), allocSz), |es|);
      idx := strSz + SIZE_T;
      strSz := strSz + allocSz;
    }

    /** The text of the entry whose text starts at offset `idx`, if any. */
    function StringAt(idx: int): (r: Option<seq<char>>)
      reads this
    {
      StringFrom(entries, idx, 0)
    }
  }

  /** Searching the entries from `k` on for the one whose text starts at `idx`. */
  function StringFrom(es: seq<Entry>, idx: int, k: nat): Option<seq<char>>
    requires k <= |es|
    decreases |es| - k
  {
    if k == |es| then None
    else if Offset(es, k) + SIZE_T == idx then Some(es[k].text)
    else StringFrom(es, idx, k + 1)
  }

  /** The offset of entry `k` names entry `k` when offsets grow strictly. */
  lemma {:induction false} StringFromOffset(es: seq<Entry>, k: nat, j: nat)
    requires j <= k < |es|
    requires forall i :: 0 <= i < |es| ==> 0 < es[i].size
    ensures StringFrom(es, Offset(es, k) + SIZE_T, j) == Some(es[k].text)
    decreases k - j
  {
    if j < k {
      OffsetGrows(es, j, k);
      StringFromOffset(es, k, j + 1);
    }
  }

  /**
   * The index mdata_strpool_append returns names the string it stands for:
   * a fresh entry holds the stored text, a deduplicated one an equal text.
   */
  lemma AppendedStringReadsBack(p: StrPool, str: seq<char>, len: nat, idx: int, found: bool)
    requires p.Valid()
    requires found ==> idx == p.FindIndex(str, len) && idx != -1
    requires !found ==> 0 < |p.entries| && idx == Offset(p.entries, |p.entries| - 1) + SIZE_T
    ensures found ==> exists k :: 0 <= k < |p.entries|
                        && p.StringAt(idx) == Some(p.entries[k].text) && Matches(p.entries[k], str, len)
    ensures !found ==> p.StringAt(idx) == Some(p.entries[|p.entries| - 1].text)
  {
    if found {
      var k := FindFrom(p.entries, str, len, 0).value;
      StringFromOffset(p.entries, k, 0);
    } else {
      StringFromOffset(p.entries, |p.entries| - 1, 0);
    }
  }
}
