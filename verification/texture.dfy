/**
 * One miptex record and the regeneration of its mip levels 1 to 3.
 *
 * A miptex_t is 40 bytes: a 16-byte name, then width, height and four
 * level offsets, each an int32_t relative to the start of the record.
 * Level m (m = 1, 2, 3) is (width >> m) by (height >> m) bytes, and it is
 * always recomputed from the level-0 bytes read before any level is
 * written, never from the level before it.
 */
module Texture {
  import opened Layout
  import opened Palette
  import opened Resample

  const MIPTEX_BYTES: int := 40
  const NAME_BYTES: int := 16
  const MIP_LEVELS: int := 4

  /** A decoded miptex_t. */
  datatype Miptex = Miptex(name: seq<Byte>, width: int, height: int, offsets: seq<int>)
  {
    /** The shape a record decoded from 40 bytes has. */
    predicate WellFormed()
    {
      && |name| == NAME_BYTES && |offsets| == MIP_LEVELS
      && forall k :: 0 <= k < |Fields()| ==> IsI32(Fields()[k])
    }

    /** The six int32_t fields after the name, in file order. */
    function Fields(): seq<int>
    {
      [width, height] + offsets
    }
  }

  /** fread(miptex, sizeof(miptex_t), 1, file) at `at`. */
  function ReadMiptex(s: seq<Byte>, at: int): (mt: Miptex)
    requires 0 <= at && at + MIPTEX_BYTES <= |s|
    ensures mt.WellFormed()
  {
    var fs := I32s(s[at + NAME_BYTES..at + MIPTEX_BYTES], 6);
    var mt := Miptex(s[at..at + NAME_BYTES], fs[0], fs[1], fs[2..]);
    assert mt.Fields() == fs;
    mt
  }

  /** The 40 bytes that store a miptex_t. */
  function EncodeMiptex(mt: Miptex): (s: seq<Byte>)
    requires mt.WellFormed()
    ensures |s| == MIPTEX_BYTES
  {
    mt.name + EncodeI32s(mt.Fields())
  }

  /** Decoding an encoded record gives it back. */
  lemma ReadEncodeMiptex(mt: Miptex)
    requires mt.WellFormed()
    ensures ReadMiptex(EncodeMiptex(mt), 0) == mt
  {
    var s := EncodeMiptex(mt);
    assert s[NAME_BYTES..MIPTEX_BYTES] == EncodeI32s(mt.Fields());
    DecodeEncodeI32s(mt.Fields());
    assert mt.Fields()[2..] == mt.offsets;
  }

  /** Encoding a decoded record gives back the 40 bytes it came from. */
  lemma EncodeReadMiptex(s: seq<Byte>, at: int)
    requires 0 <= at && at + MIPTEX_BYTES <= |s|
    ensures EncodeMiptex(ReadMiptex(s, at)) == s[at..at + MIPTEX_BYTES]
  {
    var b := s[at + NAME_BYTES..at + MIPTEX_BYTES];
    EncodeDecodeI32s(b, 6);
    assert ReadMiptex(s, at).Fields() == I32s(b, 6);
    assert s[at..at + MIPTEX_BYTES] == s[at..at + NAME_BYTES] + b;
  }

  /** Two files that agree on a record's 40 bytes decode the same record. */
  lemma ReadMiptexAgree(s: seq<Byte>, s': seq<Byte>, at: int)
    requires 0 <= at && at + MIPTEX_BYTES <= |s| && at + MIPTEX_BYTES <= |s'|
    requires forall i :: at <= i < at + MIPTEX_BYTES ==> s[i] == s'[i]
    ensures ReadMiptex(s, at) == ReadMiptex(s', at)
  {
    assert s[at..at + NAME_BYTES] == s'[at..at + NAME_BYTES];
    assert s[at + NAME_BYTES..at + MIPTEX_BYTES] == s'[at + NAME_BYTES..at + MIPTEX_BYTES];
  }

  /** `v >> m` on an int32_t: one halving, rounding down, per step. */
  function Shr(v: int, m: nat): int
    decreases m
  {
    if m == 0 then v else Shr(v / 2, m - 1)
  }

  function Pow2(m: nat): (p: int)
    ensures p >= 1
    decreases m
  {
    if m == 0 then 1 else 2 * Pow2(m - 1)
  }

  /** The shift is floor division by 2^m, negative values included. */
  lemma {:induction false} ShrIsFloorDivision(v: int, m: nat)
    ensures Shr(v, m) == v / Pow2(m)
    decreases m
  {
    if m > 0 {
      ShrIsFloorDivision(v / 2, m - 1);
      NestedDivision(v, Pow2(m - 1));
    }
  }

  /** Halving and then dividing by p is dividing by 2p. */
  lemma NestedDivision(v: int, p: int)
    requires p >= 1
    ensures v / 2 / p == v / (2 * p)
  {
    var q := v / 2 / p;
    var r := v - 2 * p * q;
    assert v == 2 * (v / 2) + v % 2;
    assert v / 2 == p * q + (v / 2) % p;
    assert v == 2 * p * q + (2 * ((v / 2) % p) + v % 2);
    assert 0 <= r < 2 * p;
    DivisionUnique(v, 2 * p, q, r);
  }

  lemma DivisionUnique(a: int, d: int, q: int, r: int)
    requires d > 0 && 0 <= r < d && a == q * d + r
    ensures a / d == q
  {
    var q' := a / d;
    var r' := a % d;
    assert (q - q') * d == r' - r;
    if q > q' {
      AtLeastFactor(q - q', d);
      assert false;
    } else if q < q' {
      AtLeastFactor(q' - q, d);
      assert false;
    }
  }

  /** A shifted non-negative size stays between 0 and the size itself. */
  lemma {:induction false} ShrBounds(v: int, m: nat)
    requires v >= 0
    ensures 0 <= Shr(v, m) <= v
    decreases m
  {
    if m > 0 {
      ShrBounds(v / 2, m - 1);
    }
  }

  /** Where level m of the record at `base` starts in the file. */
  function SlotStart(base: int, mt: Miptex, m: int): int
    requires mt.WellFormed() && 0 <= m < MIP_LEVELS
  {
    base + mt.offsets[m]
  }

  /** The number of bytes of level m: (width >> m) * (height >> m). */
  function LevelSize(mt: Miptex, m: nat): int
  {
    Shr(mt.width, m) * Shr(mt.height, m)
  }

  /** Every read and write the program makes for the record at `base`
      stays inside the file: the record, level 0 and levels 1 to 3. The
      program checks none of this; reads and writes past the end are not
      modelled. */
  predicate TextureFits(s: seq<Byte>, base: int)
  {
    && 0 <= base && base + MIPTEX_BYTES <= |s|
    && var mt := ReadMiptex(s, base);
    && mt.width >= 0 && mt.height >= 0
    && (forall m :: 0 <= m < MIP_LEVELS ==>
          0 <= SlotStart(base, mt, m) && SlotStart(base, mt, m) + LevelSize(mt, m) <= |s|)
  }

  /** The slot of level m of a record that fits lies inside the file. */
  lemma SlotInFile(s: seq<Byte>, base: int, m: int)
    requires TextureFits(s, base) && 0 <= m < MIP_LEVELS
    ensures var mt := ReadMiptex(s, base);
      0 <= SlotStart(base, mt, m) <= SlotStart(base, mt, m) + LevelSize(mt, m) <= |s|
  {
    var mt := ReadMiptex(s, base);
    ShrBounds(mt.width, m);
    ShrBounds(mt.height, m);
    NonNegativeProduct(Shr(mt.width, m), Shr(mt.height, m));
  }

  lemma NonNegativeProduct(a: int, b: int)
    requires a >= 0 && b >= 0
    ensures a * b >= 0
  {
  }

  /** Byte i lies in the slot of level m of the record at `base`. */
  predicate InSlot(s: seq<Byte>, base: int, m: int, i: int)
    requires TextureFits(s, base) && 0 <= m < MIP_LEVELS
  {
    var mt := ReadMiptex(s, base);
    SlotStart(base, mt, m) <= i < SlotStart(base, mt, m) + LevelSize(mt, m)
  }

  /** Byte i is one the program reads for the record at `base`: the
      record itself or level 0. */
  predicate ReadsByte(s: seq<Byte>, base: int, i: int)
    requires TextureFits(s, base)
  {
    (base <= i < base + MIPTEX_BYTES) || InSlot(s, base, 0, i)
  }

  /** The level-0 bytes: src, read before any level is written. */
  function Source(s: seq<Byte>, base: int): (src: seq<Byte>)
    requires TextureFits(s, base)
    ensures var mt := ReadMiptex(s, base); |src| == mt.width * mt.height
  {
    var mt := ReadMiptex(s, base);
    SlotInFile(s, base, 0);
    s[SlotStart(base, mt, 0)..SlotStart(base, mt, 0) + LevelSize(mt, 0)]
  }

  /** A resampler: the level of newW by newH pixels computed from a level 0
      of w by h pixels. The program's own is bilinear_u8 (Shrinker); a
      record's levels depend on nothing else. */
  type Shrink = (seq<Byte>, int, int, int, int) -> seq<Byte>

  /** The resampler returns newW * newH bytes for every shrink. */
  ghost predicate Shrinks(shrink: Shrink)
  {
    forall src, w, h, newW, newH :: Shape(src, w, h, newW, newH) ==> |shrink(src, w, h, newW, newH)| == newW * newH
  }

  /** What bilinear_u8 needs of its inputs: a 768-byte palette, and
      truncated source coordinates that land inside the source. */
  ghost predicate ResamplerReady(palette: seq<Byte>, f: Filter)
  {
    |palette| == PALETTE_BYTES && f.Valid()
  }

  /** bilinear_u8 with the given palette and floating-point parts, as a
      resampler. */
  ghost function Shrinker(palette: seq<Byte>, f: Filter): (shrink: Shrink)
    requires ResamplerReady(palette, f)
    ensures Shrinks(shrink)
  {
    (src, w, h, newW, newH) =>
      if Shape(src, w, h, newW, newH) then Resampled(src, w, h, newW, newH, palette, f) else []
  }

  /** Level m, shrunk from level 0 to (width >> m) by (height >> m). */
  function Level(s: seq<Byte>, base: int, m: int, shrink: Shrink): (mip: seq<Byte>)
    requires TextureFits(s, base) && 1 <= m < MIP_LEVELS && Shrinks(shrink)
    ensures |mip| == LevelSize(ReadMiptex(s, base), m)
  {
    var mt := ReadMiptex(s, base);
    ShrBounds(mt.width, m);
    ShrBounds(mt.height, m);
    shrink(Source(s, base), mt.width, mt.height, Shr(mt.width, m), Shr(mt.height, m))
  }

  /** With the program's resampler, level m is what bilinear_u8 returns
      for level 0 shrunk to (width >> m) by (height >> m). */
  lemma LevelIsBilinear(s: seq<Byte>, base: int, m: int, palette: seq<Byte>, f: Filter)
    requires TextureFits(s, base) && 1 <= m < MIP_LEVELS && ResamplerReady(palette, f)
    ensures var mt := ReadMiptex(s, base);
      && 0 <= Shr(mt.width, m) <= mt.width && 0 <= Shr(mt.height, m) <= mt.height
      && Level(s, base, m, Shrinker(palette, f))
         == Resampled(Source(s, base), mt.width, mt.height, Shr(mt.width, m), Shr(mt.height, m), palette, f)
  {
    var mt := ReadMiptex(s, base);
    ShrBounds(mt.width, m);
    ShrBounds(mt.height, m);
  }

  /** The byte of level m that belongs at byte i of its slot. */
  function SlotByte(s: seq<Byte>, base: int, m: int, shrink: Shrink, i: int): Byte
    requires TextureFits(s, base) && 1 <= m < MIP_LEVELS && Shrinks(shrink) && InSlot(s, base, m, i)
  {
    Level(s, base, m, shrink)[i - SlotStart(base, ReadMiptex(s, base), m)]
  }

  /** The three writes made for the record at `base`, in order: write
      m - 1 puts level m into its slot, every level computed from level 0
      of `s`. */
  function Plan(s: seq<Byte>, base: int, shrink: Shrink): (ws: seq<Write>)
    requires TextureFits(s, base) && Shrinks(shrink)
    ensures |ws| == MIP_LEVELS - 1 && AllFit(ws, |s|)
  {
    var mt := ReadMiptex(s, base);
    var ws := seq(MIP_LEVELS - 1, k requires 0 <= k < MIP_LEVELS - 1 =>
      Write(SlotStart(base, mt, k + 1), Level(s, base, k + 1, shrink)));
    assert AllFit(ws, |s|) by {
      forall k | 0 <= k < |ws|
        ensures ws[k].FitsIn(|s|)
      {
        SlotInFile(s, base, k + 1);
      }
    }
    ws
  }

  /** Write k of the plan puts level k + 1 into its slot, and covers
      exactly that slot. */
  lemma PlanAt(s: seq<Byte>, base: int, shrink: Shrink, k: int)
    requires TextureFits(s, base) && Shrinks(shrink) && 0 <= k < MIP_LEVELS - 1
    ensures var w := Plan(s, base, shrink)[k];
      && w.at == SlotStart(base, ReadMiptex(s, base), k + 1)
      && w.data == Level(s, base, k + 1, shrink)
      && forall i :: w.Covers(i) <==> InSlot(s, base, k + 1, i)
  {
  }

  /** The file after the record at `base` has been processed. */
  function Remip(s: seq<Byte>, base: int, shrink: Shrink): (r: seq<Byte>)
    requires TextureFits(s, base) && Shrinks(shrink)
    ensures |r| == |s|
  {
    Written(s, Plan(s, base, shrink))
  }

  /** The writes of the record at `base` leave alone every byte outside
      the slots of levels 1 to 3, in whatever file of the same length they
      are made. */
  lemma PlanFrame(s: seq<Byte>, base: int, shrink: Shrink, t: seq<Byte>, i: int)
    requires TextureFits(s, base) && Shrinks(shrink) && |t| == |s| && 0 <= i < |s|
    requires forall m :: 1 <= m < MIP_LEVELS ==> !InSlot(s, base, m, i)
    ensures Written(t, Plan(s, base, shrink))[i] == t[i]
  {
    var ws := Plan(s, base, shrink);
    forall k | 0 <= k < |ws|
      ensures !ws[k].Covers(i)
    {
      PlanAt(s, base, shrink, k);
    }
    WrittenFrame(t, ws, i);
  }

  /** After the writes of the record at `base`, in whatever file of the
      same length, a byte of the slot of level m holds the byte of level m
      at that position, unless the slot of a later level covers it. */
  lemma PlanSlot(s: seq<Byte>, base: int, shrink: Shrink, t: seq<Byte>, m: int, i: int)
    requires TextureFits(s, base) && Shrinks(shrink) && |t| == |s|
    requires 1 <= m < MIP_LEVELS && InSlot(s, base, m, i)
    requires forall m' :: m < m' < MIP_LEVELS ==> !InSlot(s, base, m', i)
    ensures Written(t, Plan(s, base, shrink))[i] == SlotByte(s, base, m, shrink, i)
  {
    var ws := Plan(s, base, shrink);
    assert m - 1 + 1 == m;
    PlanAt(s, base, shrink, m - 1);
    forall k | m - 1 < k < |ws|
      ensures !ws[k].Covers(i)
    {
      PlanAt(s, base, shrink, k);
    }
    WrittenLast(t, ws, m - 1, i);
    assert i - ws[m - 1].at == i - SlotStart(base, ReadMiptex(s, base), m);
  }

  /** Processing a record changes no byte outside the slots of levels 1
      to 3: the record itself, level 0 and the rest of the file keep
      their bytes unless one of those slots covers them. */
  lemma RemipFrame(s: seq<Byte>, base: int, shrink: Shrink, i: int)
    requires TextureFits(s, base) && Shrinks(shrink) && 0 <= i < |s|
    requires forall m :: 1 <= m < MIP_LEVELS ==> !InSlot(s, base, m, i)
    ensures Remip(s, base, shrink)[i] == s[i]
  {
    PlanFrame(s, base, shrink, s, i);
  }

  /** After processing, byte i of the slot of level m holds the byte of
      level m as computed from level 0 at that position, unless the slot
      of a later level covers it. */
  lemma RemipSlot(s: seq<Byte>, base: int, shrink: Shrink, m: int, i: int)
    requires TextureFits(s, base) && Shrinks(shrink)
    requires 1 <= m < MIP_LEVELS && InSlot(s, base, m, i)
    requires forall m' :: m < m' < MIP_LEVELS ==> !InSlot(s, base, m', i)
    ensures Remip(s, base, shrink)[i] == SlotByte(s, base, m, shrink, i)
  {
    PlanSlot(s, base, shrink, s, m, i);
  }

  /** Two files of one length that agree on a record's 40 bytes see the
      same record there: the same slots and the same bytes read. */
  lemma RecordAgree(s: seq<Byte>, s': seq<Byte>, base: int)
    requires TextureFits(s, base) && |s'| == |s|
    requires forall i :: base <= i < base + MIPTEX_BYTES ==> s'[i] == s[i]
    ensures TextureFits(s', base) && ReadMiptex(s', base) == ReadMiptex(s, base)
    ensures forall m, i :: 0 <= m < MIP_LEVELS ==> (InSlot(s', base, m, i) <==> InSlot(s, base, m, i))
    ensures forall i :: ReadsByte(s', base, i) <==> ReadsByte(s, base, i)
  {
    ReadMiptexAgree(s, s', base);
  }

  /** The writes for a record depend only on the record and on level 0:
      two files of one length that agree there get the same three writes,
      whatever else they hold (in particular, whatever the slot of the
      previous level holds). */
  lemma PlanFromLevelZero(s: seq<Byte>, s': seq<Byte>, base: int, shrink: Shrink)
    requires TextureFits(s, base) && Shrinks(shrink) && |s'| == |s|
    requires forall i :: 0 <= i < |s| && ReadsByte(s, base, i) ==> s'[i] == s[i]
    ensures TextureFits(s', base)
    ensures Plan(s', base, shrink) == Plan(s, base, shrink)
  {
    forall i | base <= i < base + MIPTEX_BYTES
      ensures s'[i] == s[i]
    {
      assert ReadsByte(s, base, i);
    }
    ReadMiptexAgree(s, s', base);
    var mt := ReadMiptex(s, base);
    var lo := SlotStart(base, mt, 0);
    var hi := lo + LevelSize(mt, 0);
    SlotInFile(s, base, 0);
    forall i | lo <= i < hi
      ensures s'[i] == s[i]
    {
      assert InSlot(s, base, 0, i);
    }
    assert Source(s', base) == Source(s, base);
  }

  /** process_wad / process_bsp, one record: read the record and level 0,
      then compute and write levels 1 to 3. */
  method RemipTexture(file: array<Byte>, base: int, palette: seq<Byte>, f: Filter)
    requires TextureFits(file[..], base) && ResamplerReady(palette, f)
    modifies file
    ensures file[..] == Remip(old(file[..]), base, Shrinker(palette, f))
  {
    ghost var s := file[..];
    ghost var plan := Plan(s, base, Shrinker(palette, f));
    var mt := ReadMiptex(file[..], base);
    var src := file[SlotStart(base, mt, 0)..SlotStart(base, mt, 0) + mt.width * mt.height];
    assert src == Source(s, base);
    for m := 1 to MIP_LEVELS
      invariant file[..] == Written(s, plan[..m - 1])
    {
      var newW := Shr(mt.width, m);
      var newH := Shr(mt.height, m);
      ShrBounds(mt.width, m);
      ShrBounds(mt.height, m);
      var mip := Bilinear(src, mt.width, mt.height, newW, newH, palette, f);
      LevelIsBilinear(s, base, m, palette, f);
      assert plan[m - 1] == Write(SlotStart(base, mt, m), mip[..]);
      WrittenStep(s, plan, m - 1);
      WriteAt(file, SlotStart(base, mt, m), mip[..]);
    }
    assert plan[..MIP_LEVELS - 1] == plan;
  }
}
