/**
 * Processing a list of miptex records one after another, as the loops of
 * process_wad and process_bsp do.
 *
 * Each record is read, with its level 0, from the file as the records
 * before it left it. When no slot of levels 1 to 3 overlaps a byte that
 * some record reads (its 40 bytes or its level 0), which is the layout
 * every well-formed file has, the whole run is one list of writes
 * computed from the original file alone.
 */
module Patch {
  import opened Layout
  import opened Texture

  /** The file after the records at `bases` have been processed in order;
      None when some record's reads or writes would leave the file, which
      the program does not check for. */
  function RemipAll(s: seq<Byte>, bases: seq<int>, shrink: Shrink): (r: Option<seq<Byte>>)
    requires Shrinks(shrink)
    ensures r.Some? ==> |r.value| == |s|
    decreases |bases|
  {
    if |bases| == 0 then Some(s)
    else
      match RemipAll(s, bases[..|bases| - 1], shrink)
      case None => None
      case Some(t) =>
        var base := bases[|bases| - 1];
        if TextureFits(t, base) then Some(Remip(t, base, shrink)) else None
  }

  /** Processing two lists in turn is processing their concatenation. */
  lemma {:induction false} RemipAllAppend(s: seq<Byte>, xs: seq<int>, ys: seq<int>, shrink: Shrink)
    requires Shrinks(shrink)
    ensures RemipAll(s, xs + ys, shrink)
      == if RemipAll(s, xs, shrink).None? then None else RemipAll(RemipAll(s, xs, shrink).value, ys, shrink)
    decreases |ys|
  {
    if |ys| == 0 {
      assert xs + ys == xs;
    } else {
      var n := |ys| - 1;
      RemipAllAppend(s, xs, ys[..n], shrink);
      assert (xs + ys)[..|xs + ys| - 1] == xs + ys[..n];
      assert (xs + ys)[|xs + ys| - 1] == ys[n];
    }
  }

  /** When a whole run stays inside the file, so does every prefix of it. */
  lemma RemipAllPrefix(s: seq<Byte>, bases: seq<int>, k: int, shrink: Shrink)
    requires Shrinks(shrink) && 0 <= k <= |bases|
    requires RemipAll(s, bases, shrink).Some?
    ensures RemipAll(s, bases[..k], shrink).Some?
  {
    assert bases == bases[..k] + bases[k..];
    RemipAllAppend(s, bases[..k], bases[k..], shrink);
  }

  /** Within a run that stays inside the file, record k is processed on
      the file the records before it left: it fits there, and processing
      it gives the file after the first k + 1 records. */
  lemma RemipAllStep(s: seq<Byte>, bases: seq<int>, k: int, shrink: Shrink)
    requires Shrinks(shrink) && 0 <= k < |bases|
    requires RemipAll(s, bases, shrink).Some?
    ensures RemipAll(s, bases[..k], shrink).Some?
    ensures TextureFits(RemipAll(s, bases[..k], shrink).value, bases[k])
    ensures RemipAll(s, bases[..k + 1], shrink)
      == Some(Remip(RemipAll(s, bases[..k], shrink).value, bases[k], shrink))
  {
    RemipAllPrefix(s, bases, k + 1, shrink);
    assert bases[..k + 1][..k] == bases[..k];
  }

  /** Every record of the list fits in the file. */
  predicate AllTexturesFit(s: seq<Byte>, bases: seq<int>)
  {
    forall k :: 0 <= k < |bases| ==> TextureFits(s, bases[k])
  }

  /** The writes of all the records, in order, every one computed from the
      records and levels 0 of `s`. */
  function AllWrites(s: seq<Byte>, bases: seq<int>, shrink: Shrink): (ws: seq<Write>)
    requires AllTexturesFit(s, bases) && Shrinks(shrink)
    ensures AllFit(ws, |s|)
    ensures |ws| == (MIP_LEVELS - 1) * |bases|
    decreases |bases|
  {
    if |bases| == 0 then []
    else
      var n := |bases| - 1;
      var ws := AllWrites(s, bases[..n], shrink);
      var plan := Plan(s, bases[n], shrink);
      AllFitAppend(ws, plan, |s|);
      ws + plan
  }

  /** No slot of levels 1 to 3 of any record covers a byte that any record
      reads: its own 40 bytes or level 0, or those of another record. */
  predicate Separate(s: seq<Byte>, bases: seq<int>)
    requires AllTexturesFit(s, bases)
  {
    forall k, k', m, i | 0 <= k < |bases| && 0 <= k' < |bases| && 1 <= m < MIP_LEVELS && 0 <= i < |s| ::
      InSlot(s, bases[k'], m, i) ==> !ReadsByte(s, bases[k], i)
  }

  /** A byte in no slot of levels 1 to 3 of any record is left alone by all
      the writes, whatever file they are applied to. */
  lemma {:induction false} AllWritesFrame(s: seq<Byte>, bases: seq<int>, shrink: Shrink, s0: seq<Byte>, i: int)
    requires AllTexturesFit(s, bases) && Shrinks(shrink) && |s0| == |s| && 0 <= i < |s|
    requires forall k, m :: 0 <= k < |bases| && 1 <= m < MIP_LEVELS ==> !InSlot(s, bases[k], m, i)
    ensures Written(s0, AllWrites(s, bases, shrink))[i] == s0[i]
    decreases |bases|
  {
    if |bases| > 0 {
      var n := |bases| - 1;
      var ws := AllWrites(s, bases[..n], shrink);
      var plan := Plan(s, bases[n], shrink);
      AllWritesFrame(s, bases[..n], shrink, s0, i);
      WrittenAppend(s0, ws, plan);
      PlanFrame(s, bases[n], shrink, Written(s0, ws), i);
    }
  }

  /** Slot m of record k covers byte i and no later slot does: neither a
      higher level of record k nor any level 1 to 3 of a later record. */
  predicate LastSlot(s: seq<Byte>, bases: seq<int>, k: int, m: int, i: int)
    requires AllTexturesFit(s, bases) && 0 <= k < |bases| && 1 <= m < MIP_LEVELS
  {
    && InSlot(s, bases[k], m, i)
    && (forall m' :: m < m' < MIP_LEVELS ==> !InSlot(s, bases[k], m', i))
    && (forall k', m' :: k < k' < |bases| && 1 <= m' < MIP_LEVELS ==> !InSlot(s, bases[k'], m', i))
  }

  /** When slot m of an earlier record is the last to cover byte i, it is
      also the last among the records before the final one, and no slot of
      the final record covers i. */
  lemma LastSlotPrefix(s: seq<Byte>, bases: seq<int>, n: int, k: int, m: int, i: int)
    requires AllTexturesFit(s, bases) && n == |bases| - 1 && 0 <= k < n && 1 <= m < MIP_LEVELS
    requires LastSlot(s, bases, k, m, i)
    ensures AllTexturesFit(s, bases[..n]) && bases[..n][k] == bases[k]
    ensures LastSlot(s, bases[..n], k, m, i)
    ensures forall m' :: 1 <= m' < MIP_LEVELS ==> !InSlot(s, bases[n], m', i)
  {
    assert forall k' :: 0 <= k' < n ==> bases[..n][k'] == bases[k'];
  }

  /** A byte whose last covering slot is level m of record k holds, after
      all the writes, the byte of that level that belongs there. */
  lemma {:induction false} AllWritesSlot(s: seq<Byte>, bases: seq<int>, shrink: Shrink, s0: seq<Byte>, k: int, m: int, i: int)
    requires AllTexturesFit(s, bases) && Shrinks(shrink) && |s0| == |s|
    requires 0 <= k < |bases| && 1 <= m < MIP_LEVELS && LastSlot(s, bases, k, m, i)
    ensures Written(s0, AllWrites(s, bases, shrink))[i]
      == SlotByte(s, bases[k], m, shrink, i)
    decreases |bases|
  {
    var n := |bases| - 1;
    var ws := AllWrites(s, bases[..n], shrink);
    var plan := Plan(s, bases[n], shrink);
    assert AllWrites(s, bases, shrink) == ws + plan;
    WrittenAppend(s0, ws, plan);
    if k == n {
      PlanSlot(s, bases[n], shrink, Written(s0, ws), m, i);
    } else {
      LastSlotPrefix(s, bases, n, k, m, i);
      AllWritesSlot(s, bases[..n], shrink, s0, k, m, i);
      PlanFrame(s, bases[n], shrink, Written(s0, ws), i);
    }
  }

  /** A prefix of a separate list is separate. */
  lemma SeparatePrefix(s: seq<Byte>, bases: seq<int>, n: int)
    requires AllTexturesFit(s, bases) && Separate(s, bases) && 0 <= n <= |bases|
    ensures AllTexturesFit(s, bases[..n]) && Separate(s, bases[..n])
  {
    assert forall k :: 0 <= k < n ==> bases[..n][k] == bases[k];
  }

  /** A byte that record k reads lies in no slot of levels 1 to 3 of any
      record of a separate list. */
  lemma ReadsOutsideSlots(s: seq<Byte>, bases: seq<int>, k: int, n: int, i: int)
    requires AllTexturesFit(s, bases) && Separate(s, bases)
    requires 0 <= k < |bases| && 0 <= n <= |bases| && 0 <= i < |s| && ReadsByte(s, bases[k], i)
    ensures forall k', m :: 0 <= k' < n && 1 <= m < MIP_LEVELS ==> !InSlot(s, bases[..n][k'], m, i)
  {
    assert forall k' :: 0 <= k' < n ==> bases[..n][k'] == bases[k'];
  }

  /** With separate slots, processing the records one after another is
      applying all their writes, each computed from the original file:
      a record's levels never depend on what earlier records wrote. */
  lemma {:induction false} RemipAllSeparate(s: seq<Byte>, bases: seq<int>, shrink: Shrink)
    requires AllTexturesFit(s, bases) && Shrinks(shrink) && Separate(s, bases)
    ensures RemipAll(s, bases, shrink) == Some(Written(s, AllWrites(s, bases, shrink)))
    decreases |bases|
  {
    if |bases| > 0 {
      var n := |bases| - 1;
      var init := bases[..n];
      var base := bases[n];
      SeparatePrefix(s, bases, n);
      RemipAllSeparate(s, init, shrink);
      var ws := AllWrites(s, init, shrink);
      var t := Written(s, ws);
      forall i | 0 <= i < |s| && ReadsByte(s, base, i)
        ensures t[i] == s[i]
      {
        ReadsOutsideSlots(s, bases, n, n, i);
        AllWritesFrame(s, init, shrink, s, i);
      }
      PlanFromLevelZero(s, t, base, shrink);
      WrittenAppend(s, ws, Plan(s, base, shrink));
    }
  }

  /** No slot of levels 1 to 3 of any record covers the 40 bytes of any
      record. Each record finds its slots in its own 40 bytes, as they stand
      when it is processed, so this is all the frame below needs. */
  predicate HeadersSeparate(s: seq<Byte>, bases: seq<int>)
    requires AllTexturesFit(s, bases)
  {
    forall k, k', m, i | 0 <= k < |bases| && 0 <= k' < |bases| && 1 <= m < MIP_LEVELS && 0 <= i < |s| ::
      InSlot(s, bases[k'], m, i) ==> !(bases[k] <= i < bases[k] + MIPTEX_BYTES)
  }

  /** Separate slots keep clear of the headers in particular. */
  lemma SeparateHeaders(s: seq<Byte>, bases: seq<int>)
    requires AllTexturesFit(s, bases) && Separate(s, bases)
    ensures HeadersSeparate(s, bases)
  {
  }

  /** A prefix of a list whose slots keep clear of the headers keeps clear
      of them too. */
  lemma HeadersSeparatePrefix(s: seq<Byte>, bases: seq<int>, n: int)
    requires AllTexturesFit(s, bases) && HeadersSeparate(s, bases) && 0 <= n <= |bases|
    ensures AllTexturesFit(s, bases[..n]) && HeadersSeparate(s, bases[..n])
  {
    assert forall k :: 0 <= k < n ==> bases[..n][k] == bases[k];
  }

  /** A byte outside the slots of a record keeps its value when the record
      is processed on a file that still holds the record's 40 bytes. */
  lemma FrameLast(s: seq<Byte>, t: seq<Byte>, base: int, shrink: Shrink, i: int)
    requires TextureFits(s, base) && Shrinks(shrink) && |t| == |s| && 0 <= i < |s|
    requires forall j :: base <= j < base + MIPTEX_BYTES ==> t[j] == s[j]
    requires forall m :: 1 <= m < MIP_LEVELS ==> !InSlot(s, base, m, i)
    ensures TextureFits(t, base) && Remip(t, base, shrink)[i] == t[i]
  {
    RecordAgree(s, t, base);
    RemipFrame(t, base, shrink, i);
  }

  /** Byte i lies in no slot of levels 1 to 3 of any record. */
  predicate NoSlot(s: seq<Byte>, bases: seq<int>, i: int)
    requires AllTexturesFit(s, bases)
  {
    forall k, m :: 0 <= k < |bases| && 1 <= m < MIP_LEVELS ==> !InSlot(s, bases[k], m, i)
  }

  /** A byte in no slot of a list is in no slot of a prefix of it. */
  lemma NoSlotPrefix(s: seq<Byte>, bases: seq<int>, n: int, i: int)
    requires AllTexturesFit(s, bases) && 0 <= n <= |bases| && NoSlot(s, bases, i)
    ensures AllTexturesFit(s, bases[..n]) && NoSlot(s, bases[..n], i)
  {
    assert forall k :: 0 <= k < n ==> bases[..n][k] == bases[k];
  }

  /** The 40 bytes of a record are in no slot of the records before it. */
  lemma HeaderNoSlot(s: seq<Byte>, bases: seq<int>, n: int, j: int)
    requires AllTexturesFit(s, bases) && HeadersSeparate(s, bases)
    requires 0 <= n < |bases| && bases[n] <= j < bases[n] + MIPTEX_BYTES && j < |s|
    ensures AllTexturesFit(s, bases[..n]) && NoSlot(s, bases[..n], j)
  {
    assert forall k :: 0 <= k < n ==> bases[..n][k] == bases[k];
  }

  /** When no slot covers a header, a byte in no slot of levels 1 to 3 of
      any record keeps its value: the directory, every record's 40 bytes
      and everything else in the file. Slots may overlap each other or
      another record's level 0. */
  lemma {:induction false} RemipAllFrame(s: seq<Byte>, bases: seq<int>, shrink: Shrink, i: int)
    requires AllTexturesFit(s, bases) && Shrinks(shrink) && HeadersSeparate(s, bases) && 0 <= i < |s|
    requires NoSlot(s, bases, i)
    ensures RemipAll(s, bases, shrink).Some?
    ensures RemipAll(s, bases, shrink).value[i] == s[i]
    decreases |bases|
  {
    if |bases| > 0 {
      var n := |bases| - 1;
      var init := bases[..n];
      HeadersSeparatePrefix(s, bases, n);
      NoSlotPrefix(s, bases, n, i);
      RemipAllFrame(s, init, shrink, i);
      var t := RemipAll(s, init, shrink).value;
      forall j | bases[n] <= j < bases[n] + MIPTEX_BYTES
        ensures t[j] == s[j]
      {
        HeaderNoSlot(s, bases, n, j);
        RemipAllFrame(s, init, shrink, j);
      }
      FrameLast(s, t, bases[n], shrink, i);
    }
  }

  /** With separate slots, a byte whose last covering slot is level m of
      record k ends up holding the byte of that level, resampled from the
      original level 0 of record k. */
  lemma RemipAllSlot(s: seq<Byte>, bases: seq<int>, shrink: Shrink, k: int, m: int, i: int)
    requires AllTexturesFit(s, bases) && Shrinks(shrink) && Separate(s, bases)
    requires 0 <= k < |bases| && 1 <= m < MIP_LEVELS && LastSlot(s, bases, k, m, i)
    ensures RemipAll(s, bases, shrink).Some?
    ensures RemipAll(s, bases, shrink).value[i]
      == SlotByte(s, bases[k], m, shrink, i)
  {
    RemipAllSeparate(s, bases, shrink);
    AllWritesSlot(s, bases, shrink, s, k, m, i);
  }

  /** Files that agree on every byte the records read get the same
      writes. */
  lemma {:induction false} AllWritesFromReads(s: seq<Byte>, s': seq<Byte>, bases: seq<int>, shrink: Shrink)
    requires AllTexturesFit(s, bases) && AllTexturesFit(s', bases) && Shrinks(shrink) && |s'| == |s|
    requires forall k, i :: 0 <= k < |bases| && 0 <= i < |s| && ReadsByte(s, bases[k], i) ==> s'[i] == s[i]
    ensures AllWrites(s', bases, shrink) == AllWrites(s, bases, shrink)
    decreases |bases|
  {
    if |bases| > 0 {
      var n := |bases| - 1;
      assert forall k :: 0 <= k < n ==> bases[..n][k] == bases[k];
      AllWritesFromReads(s, s', bases[..n], shrink);
      PlanFromLevelZero(s, s', bases[n], shrink);
    }
  }

  /** Files that agree on every record's 40 bytes have the same slots and
      read the same bytes, so one list is separate in both or in neither. */
  lemma SeparateAgree(s: seq<Byte>, s': seq<Byte>, bases: seq<int>)
    requires AllTexturesFit(s, bases) && Separate(s, bases) && |s'| == |s|
    requires forall k, i :: 0 <= k < |bases| && bases[k] <= i < bases[k] + MIPTEX_BYTES ==> s'[i] == s[i]
    ensures AllTexturesFit(s', bases) && Separate(s', bases)
  {
    forall k | 0 <= k < |bases|
      ensures TextureFits(s', bases[k])
      ensures forall m, i :: 0 <= m < MIP_LEVELS ==> (InSlot(s', bases[k], m, i) <==> InSlot(s, bases[k], m, i))
      ensures forall i :: ReadsByte(s', bases[k], i) <==> ReadsByte(s, bases[k], i)
    {
      RecordAgree(s, s', bases[k]);
    }
  }

  /** With separate slots, processing the records a second time, on the
      file the first pass left, changes nothing: every level is computed
      from level 0 again, and level 0 and the records are as they were. */
  lemma RemipAllTwice(s: seq<Byte>, bases: seq<int>, shrink: Shrink)
    requires AllTexturesFit(s, bases) && Shrinks(shrink) && Separate(s, bases)
    ensures RemipAll(s, bases, shrink).Some?
    ensures var t := RemipAll(s, bases, shrink).value; RemipAll(t, bases, shrink) == Some(t)
  {
    RemipAllSeparate(s, bases, shrink);
    var ws := AllWrites(s, bases, shrink);
    var t := Written(s, ws);
    forall k, i | 0 <= k < |bases| && 0 <= i < |s| && ReadsByte(s, bases[k], i)
      ensures t[i] == s[i]
    {
      ReadsOutsideSlots(s, bases, k, |bases|, i);
      assert bases[..|bases|] == bases;
      AllWritesFrame(s, bases, shrink, s, i);
    }
    SeparateAgree(s, t, bases);
    AllWritesFromReads(s, t, bases, shrink);
    RemipAllSeparate(t, bases, shrink);
    WrittenTwice(s, ws);
  }
}
