/**
 * The two containers the program patches, and the dispatch on the first
 * four bytes of a file.
 *
 * A WAD2 archive starts with "WAD2", the lump count and the offset of the
 * directory; each directory entry is 32 bytes and names a lump by offset
 * and type, and only lumps of type 0x44 are miptex records. A BSP version
 * 29 map stores at byte 20 the offset of its texture lump, which holds a
 * count followed by that many offsets relative to the lump; every one of
 * them is a miptex record. Both tables are read once, before any record is
 * processed, and the records are then processed in table order.
 *
 * The program checks none of the counts and offsets it reads. The
 * functions below return None where a read or a write would leave the
 * file, and the methods require that this does not happen.
 */
module Container {
  import opened Layout
  import opened Palette
  import opened Resample
  import opened Texture
  import opened Patch

  /** "WAD2" read as a little-endian uint32_t. */
  const WAD2_MAGIC: int := 0x3244_4157
  const BSP_MAGIC: int := 29
  /** The four bytes 'W', 'A', 'D', '2'. */
  const WAD2_SIGNATURE: seq<Byte> := [0x57, 0x41, 0x44, 0x32]
  const BSP_SIGNATURE: seq<Byte> := [29, 0, 0, 0]

  const WAD2_LUMP_PALETTE: Byte := 0x40
  const WAD2_LUMP_SBAR: Byte := 0x42
  const WAD2_LUMP_MIPTEX: Byte := 0x44
  const WAD2_LUMP_CONPIC: Byte := 0x45

  /** Size of one directory entry (struct wad_lump). */
  const LUMP_BYTES: int := 32
  /** Magic, lump count, directory offset. */
  const WAD_HEADER_BYTES: int := 12
  /** Where a BSP stores the offset of its texture lump. */
  const BSP_MIPTEX_AT: int := 20

  /** What main does with a file. */
  datatype Kind = Wad | Bsp | Unknown

  /** The magic dispatch of main: the first four bytes read as a uint32_t
      and compared with the two signatures. A file of fewer than four
      bytes matches neither. */
  function KindOf(s: seq<Byte>): (k: Kind)
  {
    if |s| < 4 then Unknown
    else if U32(s, 0) == WAD2_MAGIC then Wad
    else if U32(s, 0) == BSP_MAGIC then Bsp
    else Unknown
  }

  /** A file is taken as a WAD exactly when it starts with the bytes
      "WAD2", as a BSP exactly when it starts with 29, 0, 0, 0, and as
      neither otherwise. */
  lemma KindOfSignature(s: seq<Byte>)
    ensures KindOf(s) == Wad <==> |s| >= 4 && s[..4] == WAD2_SIGNATURE
    ensures KindOf(s) == Bsp <==> |s| >= 4 && s[..4] == BSP_SIGNATURE
    ensures KindOf(s) == Unknown <==> |s| < 4 || (s[..4] != WAD2_SIGNATURE && s[..4] != BSP_SIGNATURE)
  {
    if |s| >= 4 {
      U32Bytes(s, 0, WAD2_SIGNATURE);
      U32Bytes(s, 0, BSP_SIGNATURE);
    }
  }

  /** One decoded directory entry (struct wad_lump). */
  datatype Lump = Lump(offset: int, size: int, rawSize: int, kind: Byte, compression: Byte, padding: int, name: seq<Byte>)
  {
    /** The shape an entry decoded from 32 bytes has. */
    predicate WellFormed()
    {
      IsI32(offset) && IsI32(size) && IsI32(rawSize) && 0 <= padding < 0x1_0000 && |name| == NAME_BYTES
    }
  }

  /** The directory entry stored at `at`: three int32_t, the type and
      compression bytes, a uint16_t of padding and a 16-byte name. */
  function ReadLump(s: seq<Byte>, at: int): (l: Lump)
    requires 0 <= at && at + LUMP_BYTES <= |s|
    ensures l.WellFormed()
  {
    var fs := I32s(s[at..at + 12], 3);
    Lump(fs[0], fs[1], fs[2], s[at + 12], s[at + 13], (s[at + 14] as int) + 0x100 * (s[at + 15] as int), s[at + 16..at + LUMP_BYTES])
  }

  /** The 32 bytes that store a directory entry. */
  function EncodeLump(l: Lump): (b: seq<Byte>)
    requires l.WellFormed()
    ensures |b| == LUMP_BYTES
  {
    EncodeI32s([l.offset, l.size, l.rawSize]) + [l.kind, l.compression, l.padding % 0x100, l.padding / 0x100] + l.name
  }

  /** Decoding an encoded entry gives it back. */
  lemma ReadEncodeLump(l: Lump)
    requires l.WellFormed()
    ensures ReadLump(EncodeLump(l), 0) == l
  {
    var b := EncodeLump(l);
    assert b[..12] == EncodeI32s([l.offset, l.size, l.rawSize]);
    DecodeEncodeI32s([l.offset, l.size, l.rawSize]);
    assert b[16..LUMP_BYTES] == l.name;
  }

  /** Encoding a decoded entry gives back the 32 bytes it came from. */
  lemma EncodeReadLump(s: seq<Byte>, at: int)
    requires 0 <= at && at + LUMP_BYTES <= |s|
    ensures EncodeLump(ReadLump(s, at)) == s[at..at + LUMP_BYTES]
  {
    var l := ReadLump(s, at);
    EncodeDecodeI32s(s[at..at + 12], 3);
    assert [l.offset, l.size, l.rawSize] == I32s(s[at..at + 12], 3);
    assert s[at..at + LUMP_BYTES] == s[at..at + 12] + s[at + 12..at + 16] + s[at + 16..at + LUMP_BYTES];
  }

  /** Two files that agree on an entry's 32 bytes decode the same entry. */
  lemma ReadLumpAgree(s: seq<Byte>, s': seq<Byte>, at: int, at': int)
    requires 0 <= at && at + LUMP_BYTES <= |s| && 0 <= at' && at' + LUMP_BYTES <= |s'|
    requires s[at..at + LUMP_BYTES] == s'[at'..at' + LUMP_BYTES]
    ensures ReadLump(s, at) == ReadLump(s', at')
  {
    assert s[at..at + 12] == s[at..at + LUMP_BYTES][..12];
    assert s'[at'..at' + 12] == s'[at'..at' + LUMP_BYTES][..12];
    assert s[at + 16..at + LUMP_BYTES] == s[at..at + LUMP_BYTES][16..];
    assert s'[at' + 16..at' + LUMP_BYTES] == s'[at'..at' + LUMP_BYTES][16..];
    assert s[at + 12] == s'[at' + 12] && s[at + 13] == s'[at' + 13];
    assert s[at + 14] == s'[at' + 14] && s[at + 15] == s'[at' + 15];
  }

  /** fread(lumps, 32, n, file) at `at`: n entries one after another. */
  function ReadLumps(s: seq<Byte>, at: int, n: int): (ls: seq<Lump>)
    requires 0 <= at && 0 <= n && at + 32 * n <= |s|
    ensures |ls| == n
  {
    seq(n, j requires 0 <= j < n => ReadLump(s, at + 32 * j))
  }

  /** A directory read from bytes that hold, entry after entry, the
      encodings of `ls` is `ls`. */
  lemma ReadEncodeLumps(s: seq<Byte>, at: int, ls: seq<Lump>)
    requires 0 <= at && at + 32 * |ls| <= |s|
    requires forall j :: 0 <= j < |ls| ==>
      ls[j].WellFormed() && s[at + 32 * j..at + 32 * j + LUMP_BYTES] == EncodeLump(ls[j])
    ensures ReadLumps(s, at, |ls|) == ls
  {
    forall j | 0 <= j < |ls|
      ensures ReadLumps(s, at, |ls|)[j] == ls[j]
    {
      ReadEncodedLump(s, at + 32 * j, ls[j]);
    }
  }

  /** The entry read from bytes that encode `l` is `l`. */
  lemma ReadEncodedLump(s: seq<Byte>, at: int, l: Lump)
    requires l.WellFormed() && 0 <= at && at + LUMP_BYTES <= |s| && s[at..at + LUMP_BYTES] == EncodeLump(l)
    ensures ReadLump(s, at) == l
  {
    var e := EncodeLump(l);
    ReadLumpAgree(s, e, at, 0);
    assert e[0..LUMP_BYTES] == e;
    ReadEncodeLump(l);
  }

  /** The directory of a WAD2 file, as process_wad reads it: the count at
      byte 4, the directory offset at byte 8, then the entries. None when
      the header or the directory lies outside the file or the count is
      negative. */
  function WadDirectory(s: seq<Byte>): (d: Option<seq<Lump>>)
    ensures d.Some? ==> |s| >= WAD_HEADER_BYTES && |d.value| == I32(s, 4)
  {
    if |s| < WAD_HEADER_BYTES then None
    else
      var num := I32(s, 4);
      var ofs := I32(s, 8);
      if num < 0 || ofs < 0 || ofs + 32 * num > |s| then None
      else Some(ReadLumps(s, ofs, num))
  }

  /** A file whose header gives the count and offset of an encoded
      directory yields that directory. */
  lemma WadDirectoryOfEncoded(s: seq<Byte>, ofs: int, ls: seq<Lump>)
    requires |s| >= WAD_HEADER_BYTES && IsI32(|ls|) && IsI32(ofs)
    requires s[4..8] == EncodeI32(|ls|) && s[8..12] == EncodeI32(ofs)
    requires 0 <= ofs && ofs + 32 * |ls| <= |s|
    requires forall j :: 0 <= j < |ls| ==>
      ls[j].WellFormed() && s[ofs + 32 * j..ofs + 32 * j + LUMP_BYTES] == EncodeLump(ls[j])
    ensures WadDirectory(s) == Some(ls)
  {
    DecodeAt(s, 4, |ls|);
    DecodeAt(s, 8, ofs);
    ReadEncodeLumps(s, ofs, ls);
  }

  /** The bases of the records process_wad handles: the data offsets of
      the entries of type 0x44, in directory order. */
  function MiptexBases(lumps: seq<Lump>): (bases: seq<int>)
    ensures |bases| <= |lumps|
  {
    if |lumps| == 0 then []
    else
      var last := lumps[|lumps| - 1];
      MiptexBases(lumps[..|lumps| - 1]) + (if last.kind == WAD2_LUMP_MIPTEX then [last.offset] else [])
  }

  /** The filter distributes over concatenation. */
  lemma {:induction false} MiptexBasesAppend(xs: seq<Lump>, ys: seq<Lump>)
    ensures MiptexBases(xs + ys) == MiptexBases(xs) + MiptexBases(ys)
    decreases |ys|
  {
    if |ys| > 0 {
      var n := |ys| - 1;
      MiptexBasesAppend(xs, ys[..n]);
      assert (xs + ys)[..|xs + ys| - 1] == xs + ys[..n];
      assert (xs + ys)[|xs + ys| - 1] == ys[n];
    } else {
      assert xs + ys == xs;
    }
  }

  /** A base is processed exactly when some entry of type 0x44 has it as
      its data offset: entries of every other type are skipped. */
  lemma {:induction false} MiptexBasesMembers(lumps: seq<Lump>)
    ensures forall x :: x in MiptexBases(lumps) <==>
      exists j :: 0 <= j < |lumps| && lumps[j].kind == WAD2_LUMP_MIPTEX && lumps[j].offset == x
  {
    if |lumps| > 0 {
      var n := |lumps| - 1;
      MiptexBasesMembers(lumps[..n]);
      forall x | x in MiptexBases(lumps)
        ensures exists j :: 0 <= j < |lumps| && lumps[j].kind == WAD2_LUMP_MIPTEX && lumps[j].offset == x
      {
        if x in MiptexBases(lumps[..n]) {
          var j :| 0 <= j < n && lumps[..n][j].kind == WAD2_LUMP_MIPTEX && lumps[..n][j].offset == x;
          assert lumps[j] == lumps[..n][j];
        } else {
          assert lumps[n].kind == WAD2_LUMP_MIPTEX && lumps[n].offset == x;
        }
      }
      forall j | 0 <= j < |lumps| && lumps[j].kind == WAD2_LUMP_MIPTEX
        ensures lumps[j].offset in MiptexBases(lumps)
      {
        if j < n {
          assert lumps[..n][j] == lumps[j];
        }
      }
    }
  }

  /** A directory without an entry of type 0x44 yields no record. */
  lemma {:induction false} NoMiptexNoBases(lumps: seq<Lump>)
    requires forall j :: 0 <= j < |lumps| ==> lumps[j].kind != WAD2_LUMP_MIPTEX
    ensures MiptexBases(lumps) == []
  {
    if |lumps| > 0 {
      var n := |lumps| - 1;
      assert forall j :: 0 <= j < n ==> lumps[..n][j] == lumps[j];
      NoMiptexNoBases(lumps[..n]);
    }
  }

  /** Entry l of a directory yields one more record after those of the
      entries before it when it has type 0x44, and none otherwise. */
  lemma MiptexBasesStep(lumps: seq<Lump>, l: int)
    requires 0 <= l < |lumps|
    ensures MiptexBases(lumps[..l + 1])
      == MiptexBases(lumps[..l]) + (if lumps[l].kind == WAD2_LUMP_MIPTEX then [lumps[l].offset] else [])
  {
    var pre := lumps[..l + 1];
    assert pre[..|pre| - 1] == lumps[..l];
    assert pre[|pre| - 1] == lumps[l];
  }

  /** The records of a directory start with those of its first l + 1
      entries. */
  lemma MiptexBasesPrefix(lumps: seq<Lump>, l: int)
    requires 0 <= l < |lumps|
    ensures MiptexBases(lumps) == MiptexBases(lumps[..l + 1]) + MiptexBases(lumps[l + 1..])
  {
    assert lumps == lumps[..l + 1] + lumps[l + 1..];
    MiptexBasesAppend(lumps[..l + 1], lumps[l + 1..]);
  }

  /** The bases of the records of a WAD2 file. */
  function WadBases(s: seq<Byte>): (bases: Option<seq<int>>)
    ensures bases.Some? <==> WadDirectory(s).Some?
    ensures bases.Some? ==> forall x :: x in bases.value <==>
      exists j :: 0 <= j < |WadDirectory(s).value| && WadDirectory(s).value[j].kind == WAD2_LUMP_MIPTEX && WadDirectory(s).value[j].offset == x
  {
    match WadDirectory(s)
    case None => None
    case Some(d) => MiptexBasesMembers(d); Some(MiptexBases(d))
  }

  /** The bases of the records of a BSP file, as process_bsp computes
      them: the texture lump offset at byte 20, the count at that offset,
      then the relative offsets, each added to the lump offset. None when
      one of these lies outside the file or the count is negative. */
  function BspBases(s: seq<Byte>): (bases: Option<seq<int>>)
    ensures bases.Some? ==> |s| >= BSP_MIPTEX_AT + 4 && 0 <= I32(s, BSP_MIPTEX_AT) && I32(s, BSP_MIPTEX_AT) + 4 <= |s|
    ensures bases.Some? ==> |bases.value| == I32(s, I32(s, BSP_MIPTEX_AT))
  {
    if |s| < BSP_MIPTEX_AT + 4 then None
    else
      var ofs := I32(s, BSP_MIPTEX_AT);
      if ofs < 0 || ofs + 4 > |s| then None
      else
        var num := I32(s, ofs);
        if num < 0 || ofs + 4 + 4 * num > |s| then None
        else
          Some(Rebase(ofs, ReadTable(s, ofs + 4, num)))
  }

  /** fread(table, 4, n, file) at `at`: n int32_t one after another. */
  function ReadTable(s: seq<Byte>, at: int, n: int): (vs: seq<int>)
    requires 0 <= at && 0 <= n && at + 4 * n <= |s|
    ensures |vs| == n
  {
    seq(n, t requires 0 <= t < n => I32(s, at + 4 * t))
  }

  /** Offsets relative to the texture lump, made absolute. */
  function Rebase(ofs: int, offsets: seq<int>): seq<int>
  {
    seq(|offsets|, t requires 0 <= t < |offsets| => ofs + offsets[t])
  }

  /** A file that stores at byte 20 the offset of an encoded texture lump
      (a count, then the relative offsets) yields the lump offset plus
      each relative offset, in order. */
  lemma BspBasesOfEncoded(s: seq<Byte>, ofs: int, rel: seq<int>)
    requires |s| >= BSP_MIPTEX_AT + 4 && IsI32(ofs) && IsI32(|rel|)
    requires s[BSP_MIPTEX_AT..BSP_MIPTEX_AT + 4] == EncodeI32(ofs)
    requires 0 <= ofs && ofs + 4 + 4 * |rel| <= |s| && s[ofs..ofs + 4] == EncodeI32(|rel|)
    requires forall t :: 0 <= t < |rel| ==> IsI32(rel[t]) && s[ofs + 4 + 4 * t..ofs + 8 + 4 * t] == EncodeI32(rel[t])
    ensures BspBases(s) == Some(Rebase(ofs, rel))
  {
    DecodeAt(s, BSP_MIPTEX_AT, ofs);
    DecodeAt(s, ofs, |rel|);
    forall t | 0 <= t < |rel|
      ensures ReadTable(s, ofs + 4, |rel|)[t] == rel[t]
    {
      DecodeAt(s, ofs + 4 + 4 * t, rel[t]);
    }
    BspBasesFrom(s, ofs, rel);
  }

  /** The four bytes at `at` that encode v decode to v. */
  lemma DecodeAt(s: seq<Byte>, at: int, v: int)
    requires IsI32(v) && 0 <= at && at + 4 <= |s| && s[at..at + 4] == EncodeI32(v)
    ensures I32(s, at) == v
  {
    I32Shift(s, at);
    I32Agree(s[at..], EncodeI32(v), 0);
    DecodeEncodeI32(v);
  }

  /** BspBases unfolded, given the values it reads. */
  lemma BspBasesFrom(s: seq<Byte>, ofs: int, offsets: seq<int>)
    requires |s| >= BSP_MIPTEX_AT + 4 && I32(s, BSP_MIPTEX_AT) == ofs
    requires 0 <= ofs && ofs + 4 + 4 * |offsets| <= |s| && I32(s, ofs) == |offsets|
    requires ReadTable(s, ofs + 4, |offsets|) == offsets
    ensures BspBases(s) == Some(Rebase(ofs, offsets))
  {
  }

  /** The records main has processed for a file, by its kind: none for a
      file of neither kind. */
  function Bases(s: seq<Byte>): Option<seq<int>>
  {
    match KindOf(s)
    case Wad => WadBases(s)
    case Bsp => BspBases(s)
    case Unknown => Some([])
  }

  /** The file after main has handled it: its records processed in table
      order, each from the file as the records before it left it. None
      when a table or a record lies outside the file. */
  function RemipFile(s: seq<Byte>, shrink: Shrink): (r: Option<seq<Byte>>)
    requires Shrinks(shrink)
    ensures r.Some? ==> |r.value| == |s|
  {
    match Bases(s)
    case None => None
    case Some(bases) => RemipAll(s, bases, shrink)
  }

  /** A file whose signature is neither "WAD2" nor 29 is left exactly as
      it was. */
  lemma UnknownUnchanged(s: seq<Byte>, shrink: Shrink)
    requires Shrinks(shrink)
    requires |s| < 4 || (s[..4] != WAD2_SIGNATURE && s[..4] != BSP_SIGNATURE)
    ensures Bases(s) == Some([])
    ensures RemipFile(s, shrink) == Some(s)
  {
    KindOfSignature(s);
  }

  /** A WAD2 file whose directory has no entry of type 0x44 is left
      exactly as it was. */
  lemma NoMiptexUnchanged(s: seq<Byte>, shrink: Shrink)
    requires Shrinks(shrink) && KindOf(s) == Wad && WadDirectory(s).Some?
    requires forall j :: 0 <= j < |WadDirectory(s).value| ==> WadDirectory(s).value[j].kind != WAD2_LUMP_MIPTEX
    ensures RemipFile(s, shrink) == Some(s)
  {
    NoMiptexNoBases(WadDirectory(s).value);
  }

  /** In a WAD2 file whose slots keep clear of the records' 40 bytes, a byte in no slot of
      levels 1 to 3 of any record named by an entry of type 0x44 keeps its
      value: the header, the directory, the records, their levels 0, the
      lumps of every other type and whatever else the file holds. */
  lemma WadFrame(s: seq<Byte>, shrink: Shrink, i: int)
    requires Shrinks(shrink) && KindOf(s) == Wad && WadDirectory(s).Some? && 0 <= i < |s|
    requires var d := WadDirectory(s).value;
      && AllTexturesFit(s, MiptexBases(d)) && HeadersSeparate(s, MiptexBases(d))
      && forall j, m :: 0 <= j < |d| && d[j].kind == WAD2_LUMP_MIPTEX && 1 <= m < MIP_LEVELS ==>
           TextureFits(s, d[j].offset) && !InSlot(s, d[j].offset, m, i)
    ensures RemipFile(s, shrink).Some? && RemipFile(s, shrink).value[i] == s[i]
  {
    var d := WadDirectory(s).value;
    var bases := MiptexBases(d);
    MiptexBasesMembers(d);
    forall k, m | 0 <= k < |bases| && 1 <= m < MIP_LEVELS
      ensures !InSlot(s, bases[k], m, i)
    {
      assert bases[k] in bases;
      var j :| 0 <= j < |d| && d[j].kind == WAD2_LUMP_MIPTEX && d[j].offset == bases[k];
    }
    RemipAllFrame(s, bases, shrink, i);
  }

  /** In a BSP file whose slots keep clear of the records' 40 bytes, a
      byte in no slot of levels 1 to 3 of any record keeps its value. */
  lemma BspFrame(s: seq<Byte>, shrink: Shrink, i: int)
    requires Shrinks(shrink) && KindOf(s) == Bsp && BspBases(s).Some? && 0 <= i < |s|
    requires var bases := BspBases(s).value;
      && AllTexturesFit(s, bases) && HeadersSeparate(s, bases)
      && forall k, m :: 0 <= k < |bases| && 1 <= m < MIP_LEVELS ==> !InSlot(s, bases[k], m, i)
    ensures RemipFile(s, shrink).Some? && RemipFile(s, shrink).value[i] == s[i]
  {
    RemipAllFrame(s, BspBases(s).value, shrink, i);
  }

  /** In a file whose slots are separate, a byte whose last covering slot
      is level m of record k holds the byte of that level, resampled from
      the original level 0 of record k. */
  lemma RemipFileSlot(s: seq<Byte>, shrink: Shrink, k: int, m: int, i: int)
    requires Shrinks(shrink) && Bases(s).Some?
    requires AllTexturesFit(s, Bases(s).value) && Separate(s, Bases(s).value)
    requires 0 <= k < |Bases(s).value| && 1 <= m < MIP_LEVELS && LastSlot(s, Bases(s).value, k, m, i)
    ensures RemipFile(s, shrink).Some?
    ensures RemipFile(s, shrink).value[i] == SlotByte(s, Bases(s).value[k], m, shrink, i)
  {
    RemipAllSlot(s, Bases(s).value, shrink, k, m, i);
  }

  /** A run over a directory that stays inside the file stays inside it
      over the first l + 1 entries. */
  lemma WadPrefix(s: seq<Byte>, lumps: seq<Lump>, l: int, shrink: Shrink)
    requires Shrinks(shrink) && 0 <= l < |lumps| && RemipAll(s, MiptexBases(lumps), shrink).Some?
    ensures RemipAll(s, MiptexBases(lumps[..l + 1]), shrink).Some?
  {
    MiptexBasesPrefix(lumps, l);
    RemipAllAppend(s, MiptexBases(lumps[..l + 1]), MiptexBases(lumps[l + 1..]), shrink);
  }

  /** Within a run over a directory that stays inside the file, entry l
      is reached with the file the entries before it left: an entry of
      type 0x44 is processed there, any other entry changes nothing. */
  lemma WadStep(s: seq<Byte>, lumps: seq<Lump>, l: int, shrink: Shrink)
    requires Shrinks(shrink) && 0 <= l < |lumps| && RemipAll(s, MiptexBases(lumps), shrink).Some?
    ensures RemipAll(s, MiptexBases(lumps[..l]), shrink).Some?
    ensures var before := RemipAll(s, MiptexBases(lumps[..l]), shrink).value;
      lumps[l].kind == WAD2_LUMP_MIPTEX ==>
        && TextureFits(before, lumps[l].offset)
        && RemipAll(s, MiptexBases(lumps[..l + 1]), shrink) == Some(Remip(before, lumps[l].offset, shrink))
    ensures lumps[l].kind != WAD2_LUMP_MIPTEX ==>
      RemipAll(s, MiptexBases(lumps[..l + 1]), shrink) == RemipAll(s, MiptexBases(lumps[..l]), shrink)
  {
    var pre := MiptexBases(lumps[..l + 1]);
    WadPrefix(s, lumps, l, shrink);
    MiptexBasesStep(lumps, l);
    if lumps[l].kind == WAD2_LUMP_MIPTEX {
      var n := |pre| - 1;
      RemipAllStep(s, pre, n, shrink);
      assert pre[..n] == MiptexBases(lumps[..l]);
      assert pre[..n + 1] == pre;
    } else {
      assert pre == MiptexBases(lumps[..l]);
    }
  }

  /** Byte i is one main and process_wad / process_bsp read before any
      record: the signature, the header fields and the WAD2 directory or
      the BSP texture table. */
  predicate ReadsTable(s: seq<Byte>, i: int)
  {
    match KindOf(s)
    case Wad => i < WAD_HEADER_BYTES || (WadDirectory(s).Some? && I32(s, 8) <= i < I32(s, 8) + 32 * I32(s, 4))
    case Bsp =>
      i < BSP_MIPTEX_AT + 4
      || (BspBases(s).Some? && I32(s, BSP_MIPTEX_AT) <= i < I32(s, BSP_MIPTEX_AT) + 4 + 4 * I32(s, I32(s, BSP_MIPTEX_AT)))
    case Unknown => i < 4
  }

  /** Two files of one length that agree on the signature, the header and
      the table find the same records. */
  lemma TablesAgree(s: seq<Byte>, t: seq<Byte>)
    requires Bases(s).Some? && |t| == |s|
    requires forall i :: 0 <= i < |s| && ReadsTable(s, i) ==> t[i] == s[i]
    ensures Bases(t) == Bases(s)
  {
    if |s| >= 4 {
      assert ReadsTable(s, 0) && ReadsTable(s, 1) && ReadsTable(s, 2) && ReadsTable(s, 3);
      assert U32(t, 0) == U32(s, 0);
    }
    assert KindOf(t) == KindOf(s);
    match KindOf(s)
    case Wad => WadTablesAgree(s, t);
    case Bsp => BspTablesAgree(s, t);
    case Unknown =>
  }

  lemma WadTablesAgree(s: seq<Byte>, t: seq<Byte>)
    requires KindOf(s) == Wad && WadDirectory(s).Some? && |t| == |s|
    requires forall i :: 0 <= i < |s| && ReadsTable(s, i) ==> t[i] == s[i]
    ensures WadDirectory(t) == WadDirectory(s)
  {
    forall i | 4 <= i < WAD_HEADER_BYTES
      ensures t[i] == s[i]
    {
      assert ReadsTable(s, i);
    }
    I32Agree(s, t, 4);
    I32Agree(s, t, 8);
    var num := I32(s, 4);
    var ofs := I32(s, 8);
    var ls := ReadLumps(s, ofs, num);
    var lt := ReadLumps(t, ofs, num);
    forall j | 0 <= j < num
      ensures lt[j] == ls[j]
    {
      var at := ofs + 32 * j;
      forall i | at <= i < at + LUMP_BYTES
        ensures t[i] == s[i]
      {
        assert ReadsTable(s, i);
      }
      assert t[at..at + LUMP_BYTES] == s[at..at + LUMP_BYTES];
      ReadLumpAgree(t, s, at, at);
    }
    assert lt == ls;
  }

  lemma BspTablesAgree(s: seq<Byte>, t: seq<Byte>)
    requires KindOf(s) == Bsp && BspBases(s).Some? && |t| == |s|
    requires forall i :: 0 <= i < |s| && ReadsTable(s, i) ==> t[i] == s[i]
    ensures BspBases(t) == BspBases(s)
  {
    forall i | BSP_MIPTEX_AT <= i < BSP_MIPTEX_AT + 4
      ensures t[i] == s[i]
    {
      assert ReadsTable(s, i);
    }
    I32Agree(s, t, BSP_MIPTEX_AT);
    var ofs := I32(s, BSP_MIPTEX_AT);
    var num := I32(s, ofs);
    forall i | ofs <= i < ofs + 4 + 4 * num
      ensures t[i] == s[i]
    {
      assert ReadsTable(s, i);
    }
    I32Agree(s, t, ofs);
    var rs := ReadTable(s, ofs + 4, num);
    var rt := ReadTable(t, ofs + 4, num);
    forall k | 0 <= k < num
      ensures rt[k] == rs[k]
    {
      I32Agree(s, t, ofs + 4 + 4 * k);
    }
    assert rt == rs;
    BspBasesFrom(t, ofs, rs);
  }

  /** Running the program a second time on the file it produced changes
      nothing, when the slots are separate and no slot covers the
      signature, the header or the table. */
  lemma RemipFileTwice(s: seq<Byte>, shrink: Shrink)
    requires Shrinks(shrink) && Bases(s).Some?
    requires AllTexturesFit(s, Bases(s).value) && Separate(s, Bases(s).value)
    requires forall k, m, i :: 0 <= k < |Bases(s).value| && 1 <= m < MIP_LEVELS && 0 <= i < |s| && ReadsTable(s, i) ==>
      !InSlot(s, Bases(s).value[k], m, i)
    ensures RemipFile(s, shrink).Some?
    ensures RemipFile(RemipFile(s, shrink).value, shrink) == RemipFile(s, shrink)
  {
    var bases := Bases(s).value;
    RemipAllTwice(s, bases, shrink);
    SeparateHeaders(s, bases);
    var t := RemipAll(s, bases, shrink).value;
    forall i | 0 <= i < |s| && ReadsTable(s, i)
      ensures t[i] == s[i]
    {
      RemipAllFrame(s, bases, shrink, i);
    }
    TablesAgree(s, t);
  }

  /** process_wad on an in-memory file: read the header and the
      directory, then process the record of every entry of type 0x44 in
      directory order and skip every other entry. */
  method ProcessWad(file: array<Byte>, palette: seq<Byte>, f: Filter)
    requires ResamplerReady(palette, f) && WadBases(file[..]).Some?
    requires RemipAll(file[..], WadBases(file[..]).value, Shrinker(palette, f)).Some?
    modifies file
    ensures Some(file[..]) == RemipAll(old(file[..]), WadBases(old(file[..])).value, Shrinker(palette, f))
  {
    ghost var s := file[..];
    ghost var shrink := Shrinker(palette, f);
    var numLumps := I32(file[..], 4);
    var ofsLumps := I32(file[..], 8);
    var lumps := ReadLumps(file[..], ofsLumps, numLumps);
    assert WadDirectory(s) == Some(lumps);
    for l := 0 to |lumps|
      invariant RemipAll(s, MiptexBases(lumps[..l]), shrink) == Some(file[..])
    {
      WadStep(s, lumps, l, shrink);
      if lumps[l].kind == WAD2_LUMP_MIPTEX {
        RemipTexture(file, lumps[l].offset, palette, f);
      }
    }
    assert lumps[..|lumps|] == lumps;
  }

  /** process_bsp on an in-memory file: read the texture lump offset, the
      count and the relative offsets, then process every record in table
      order. */
  method ProcessBsp(file: array<Byte>, palette: seq<Byte>, f: Filter)
    requires ResamplerReady(palette, f) && BspBases(file[..]).Some?
    requires RemipAll(file[..], BspBases(file[..]).value, Shrinker(palette, f)).Some?
    modifies file
    ensures Some(file[..]) == RemipAll(old(file[..]), BspBases(old(file[..])).value, Shrinker(palette, f))
  {
    ghost var s := file[..];
    ghost var shrink := Shrinker(palette, f);
    ghost var bases := BspBases(s).value;
    var ofsMiptex := I32(file[..], BSP_MIPTEX_AT);
    var numTextures := I32(file[..], ofsMiptex);
    var ofsTextures := ReadTable(file[..], ofsMiptex + 4, numTextures);
    BspBasesFrom(s, ofsMiptex, ofsTextures);
    for t := 0 to numTextures
      invariant RemipAll(s, bases[..t], shrink) == Some(file[..])
    {
      RemipAllStep(s, bases, t, shrink);
      RemipTexture(file, ofsMiptex + ofsTextures[t], palette, f);
    }
    assert bases[..numTextures] == bases;
  }

  /** main, for one file: read the signature and hand the file to
      process_wad or process_bsp, or leave it alone when the signature is
      neither. */
  method ProcessFile(file: array<Byte>, palette: seq<Byte>, f: Filter) returns (kind: Kind)
    requires ResamplerReady(palette, f) && RemipFile(file[..], Shrinker(palette, f)).Some?
    modifies file
    ensures kind == KindOf(old(file[..]))
    ensures Some(file[..]) == RemipFile(old(file[..]), Shrinker(palette, f))
  {
    if file.Length < 4 {
      return Unknown;
    }
    var magic := U32(file[..], 0);
    if magic == WAD2_MAGIC {
      kind := Wad;
      ProcessWad(file, palette, f);
    } else if magic == BSP_MAGIC {
      kind := Bsp;
      ProcessBsp(file, palette, f);
    } else {
      kind := Unknown;
    }
  }
}
