/**
 * Bytes of a container file and the little-endian integers stored in them.
 *
 * The program reads its int32_t fields straight into memory on a
 * little-endian host; here that reading is written out as an explicit
 * decoding of four bytes, with the encoder beside it as its inverse.
 */
module Layout {

  /** One byte of a file or of an image (uint8_t). */
  type Byte = b: int | 0 <= b < 256

  datatype Option<T> = None | Some(value: T)

  const TWO_31: int := 0x8000_0000
  const TWO_32: int := 0x1_0000_0000

  /** v is in the range of an int32_t. */
  predicate IsI32(v: int) { -TWO_31 <= v < TWO_31 }

  /** The uint32_t stored little-endian at `at`. */
  function U32(s: seq<Byte>, at: int): (v: int)
    requires 0 <= at && at + 4 <= |s|
    ensures 0 <= v < TWO_32
    ensures v % 0x100 == s[at]
  {
    (s[at] as int) + 0x100 * (s[at + 1] as int) + 0x1_0000 * (s[at + 2] as int) + 0x100_0000 * (s[at + 3] as int)
  }

  /** Two four-byte groups store the same uint32_t exactly when they are
      the same bytes: comparing the values is comparing the bytes, as
      memcmp does. */
  lemma U32Bytes(s: seq<Byte>, at: int, b: seq<Byte>)
    requires 0 <= at && at + 4 <= |s| && |b| == 4
    ensures U32(s, at) == U32(b, 0) <==> s[at..at + 4] == b
  {
    if U32(s, at) == U32(b, 0) {
      var u := U32(s, at);
      Digit(u, s[at], (s[at + 1] as int) + 0x100 * (s[at + 2] as int) + 0x1_0000 * (s[at + 3] as int));
      Digit(u, b[0], (b[1] as int) + 0x100 * (b[2] as int) + 0x1_0000 * (b[3] as int));
      var v := (s[at + 1] as int) + 0x100 * (s[at + 2] as int) + 0x1_0000 * (s[at + 3] as int);
      Digit(v, s[at + 1], (s[at + 2] as int) + 0x100 * (s[at + 3] as int));
      Digit(v, b[1], (b[2] as int) + 0x100 * (b[3] as int));
      var w := (s[at + 2] as int) + 0x100 * (s[at + 3] as int);
      Digit(w, s[at + 2], s[at + 3]);
      Digit(w, b[2], b[3]);
      assert s[at..at + 4] == b;
    }
  }

  /** The int32_t stored little-endian (two's complement) at `at`. */
  function I32(s: seq<Byte>, at: int): (v: int)
    requires 0 <= at && at + 4 <= |s|
    ensures IsI32(v)
    ensures v < 0 <==> s[at + 3] >= 0x80
  {
    var u := U32(s, at);
    if u < TWO_31 then u else u - TWO_32
  }

  /** The four bytes that store `v` as a little-endian int32_t. */
  function EncodeI32(v: int): (s: seq<Byte>)
    requires IsI32(v)
    ensures |s| == 4
    ensures s[3] >= 0x80 <==> v < 0
  {
    var u := if v < 0 then v + TWO_32 else v;
    [u % 0x100, (u / 0x100) % 0x100, (u / 0x100 / 0x100) % 0x100, u / 0x100 / 0x100 / 0x100]
  }

  /** Splitting a number into its low byte and the rest. */
  lemma Digit(u: int, lo: int, hi: int)
    requires 0 <= lo < 0x100 && u == lo + 0x100 * hi
    ensures u / 0x100 == hi && u % 0x100 == lo
  {
  }

  /** Decoding what was encoded gives the value back. */
  lemma DecodeEncodeI32(v: int)
    requires IsI32(v)
    ensures I32(EncodeI32(v), 0) == v
  {
    var u := if v < 0 then v + TWO_32 else v;
    var s := EncodeI32(v);
    Digit(u, u % 0x100, u / 0x100);
    Digit(u / 0x100, (u / 0x100) % 0x100, u / 0x100 / 0x100);
    Digit(u / 0x100 / 0x100, (u / 0x100 / 0x100) % 0x100, u / 0x100 / 0x100 / 0x100);
    assert U32(s, 0) == u;
  }

  /** Encoding what was decoded gives the same four bytes back. */
  lemma EncodeDecodeI32(s: seq<Byte>, at: int)
    requires 0 <= at && at + 4 <= |s|
    ensures EncodeI32(I32(s, at)) == s[at..at + 4]
  {
    var u := U32(s, at);
    var u1 := (s[at + 1] as int) + 0x100 * (s[at + 2] as int) + 0x1_0000 * (s[at + 3] as int);
    var u2 := (s[at + 2] as int) + 0x100 * (s[at + 3] as int);
    Digit(u, s[at], u1);
    Digit(u1, s[at + 1], u2);
    Digit(u2, s[at + 2], s[at + 3]);
    Digit(s[at + 3], s[at + 3], 0);
    var e := EncodeI32(I32(s, at));
    assert e[0] == s[at] && e[1] == s[at + 1] && e[2] == s[at + 2] && e[3] == s[at + 3];
  }

  /** Two files that agree on four bytes decode the same int32_t there. */
  lemma I32Agree(s: seq<Byte>, s': seq<Byte>, at: int)
    requires 0 <= at && at + 4 <= |s| && at + 4 <= |s'|
    requires forall i :: at <= i < at + 4 ==> s[i] == s'[i]
    ensures I32(s, at) == I32(s', at)
  {
    assert s[at] == s'[at] && s[at + 1] == s'[at + 1];
    assert s[at + 2] == s'[at + 2] && s[at + 3] == s'[at + 3];
  }

  /** The int32_t reads only the four bytes it is stored in. */
  lemma I32Shift(s: seq<Byte>, at: int)
    requires 0 <= at && at + 4 <= |s|
    ensures I32(s, at) == I32(s[at..], 0)
  {
  }

  /** The n int32_t values stored one after another in `b`, as one
      fread(p, 4, n, file) fills an int32_t array. */
  function I32s(b: seq<Byte>, n: nat): (vs: seq<int>)
    requires |b| == 4 * n
    ensures |vs| == n
    ensures forall k :: 0 <= k < n ==> IsI32(vs[k])
  {
    if n == 0 then []
    else I32s(b[..4 * (n - 1)], n - 1) + [I32(b, 4 * (n - 1))]
  }

  /** The bytes that store an int32_t array. */
  function EncodeI32s(vs: seq<int>): (b: seq<Byte>)
    requires forall k :: 0 <= k < |vs| ==> IsI32(vs[k])
    ensures |b| == 4 * |vs|
  {
    if |vs| == 0 then []
    else EncodeI32s(vs[..|vs| - 1]) + EncodeI32(vs[|vs| - 1])
  }

  /** Decoding an encoded int32_t array gives it back. */
  lemma {:induction false} DecodeEncodeI32s(vs: seq<int>)
    requires forall k :: 0 <= k < |vs| ==> IsI32(vs[k])
    ensures I32s(EncodeI32s(vs), |vs|) == vs
  {
    if |vs| > 0 {
      var n := |vs| - 1;
      var b := EncodeI32s(vs);
      DecodeEncodeI32s(vs[..n]);
      assert b[..4 * n] == EncodeI32s(vs[..n]);
      I32Shift(b, 4 * n);
      assert b[4 * n..] == EncodeI32(vs[n]);
      DecodeEncodeI32(vs[n]);
    }
  }

  /** Encoding a decoded int32_t array gives back the bytes it came from. */
  lemma {:induction false} EncodeDecodeI32s(b: seq<Byte>, n: nat)
    requires |b| == 4 * n
    ensures EncodeI32s(I32s(b, n)) == b
  {
    if n > 0 {
      var vs := I32s(b, n);
      EncodeDecodeI32s(b[..4 * (n - 1)], n - 1);
      assert vs[..n - 1] == I32s(b[..4 * (n - 1)], n - 1);
      EncodeDecodeI32(b, 4 * (n - 1));
      assert b == b[..4 * (n - 1)] + b[4 * (n - 1)..4 * n];
    }
  }

  /** `s` with `data` written over it at `at`, as one fseek + fwrite does:
      the length never changes. */
  function Overwrite(s: seq<Byte>, at: int, data: seq<Byte>): (r: seq<Byte>)
    requires 0 <= at && at + |data| <= |s|
    ensures |r| == |s|
  {
    s[..at] + data + s[at + |data|..]
  }

  /** After the write, a byte inside the written range holds the written
      byte and every other byte keeps its value. */
  lemma OverwriteAt(s: seq<Byte>, at: int, data: seq<Byte>, i: int)
    requires 0 <= at && at + |data| <= |s| && 0 <= i < |s|
    ensures Overwrite(s, at, data)[i] == if at <= i < at + |data| then data[i - at] else s[i]
  {
  }

  /** fseek(file, at, SEEK_SET); fwrite(data, |data|, 1, file) on an in-memory file. */
  method WriteAt(file: array<Byte>, at: int, data: seq<Byte>)
    requires 0 <= at && at + |data| <= file.Length
    modifies file
    ensures file[..] == Overwrite(old(file[..]), at, data)
  {
    forall i | 0 <= i < |data| {
      file[at + i] := data[i];
    }
    forall i | 0 <= i < file.Length
      ensures file[..][i] == Overwrite(old(file[..]), at, data)[i]
    {
      OverwriteAt(old(file[..]), at, data, i);
    }
  }

  /** One fseek + fwrite: `data` written at byte `at`. */
  datatype Write = Write(at: int, data: seq<Byte>)
  {
    /** The write lands inside a file of `size` bytes. */
    predicate FitsIn(size: int)
    {
      0 <= at && at + |data| <= size
    }

    predicate Covers(i: int)
    {
      at <= i < at + |data|
    }
  }

  predicate AllFit(ws: seq<Write>, size: int)
  {
    forall k :: 0 <= k < |ws| ==> ws[k].FitsIn(size)
  }

  lemma AllFitAppend(ws: seq<Write>, vs: seq<Write>, size: int)
    requires AllFit(ws, size) && AllFit(vs, size)
    ensures AllFit(ws + vs, size)
  {
    assert forall k :: 0 <= k < |vs| ==> (ws + vs)[|ws| + k] == vs[k];
  }

  /** The file after the writes, in order: later writes win. */
  function Written(s: seq<Byte>, ws: seq<Write>): (r: seq<Byte>)
    requires AllFit(ws, |s|)
    ensures |r| == |s|
  {
    if |ws| == 0 then s
    else
      var last := ws[|ws| - 1];
      Overwrite(Written(s, ws[..|ws| - 1]), last.at, last.data)
  }

  /** A byte that no write covers keeps its value. */
  lemma {:induction false} WrittenFrame(s: seq<Byte>, ws: seq<Write>, i: int)
    requires AllFit(ws, |s|) && 0 <= i < |s|
    requires forall k :: 0 <= k < |ws| ==> !ws[k].Covers(i)
    ensures Written(s, ws)[i] == s[i]
  {
    if |ws| > 0 {
      var last := ws[|ws| - 1];
      WrittenFrame(s, ws[..|ws| - 1], i);
      OverwriteAt(Written(s, ws[..|ws| - 1]), last.at, last.data, i);
    }
  }

  /** A byte of write k that no later write covers holds what write k put
      there. */
  lemma {:induction false} WrittenLast(s: seq<Byte>, ws: seq<Write>, k: int, i: int)
    requires AllFit(ws, |s|) && 0 <= k < |ws| && ws[k].Covers(i)
    requires forall k' :: k < k' < |ws| ==> !ws[k'].Covers(i)
    ensures Written(s, ws)[i] == ws[k].data[i - ws[k].at]
  {
    var last := ws[|ws| - 1];
    if k < |ws| - 1 {
      WrittenLast(s, ws[..|ws| - 1], k, i);
    }
    OverwriteAt(Written(s, ws[..|ws| - 1]), last.at, last.data, i);
  }

  /** Writing one list and then another is writing their concatenation. */
  lemma {:induction false} WrittenAppend(s: seq<Byte>, ws: seq<Write>, vs: seq<Write>)
    requires AllFit(ws, |s|) && AllFit(vs, |s|)
    ensures AllFit(ws + vs, |s|)
    ensures Written(Written(s, ws), vs) == Written(s, ws + vs)
    decreases |vs|
  {
    if |vs| == 0 {
      assert ws + vs == ws;
    } else {
      var n := |vs| - 1;
      WrittenAppend(s, ws, vs[..n]);
      assert (ws + vs)[..|ws + vs| - 1] == ws + vs[..n];
      assert (ws + vs)[|ws + vs| - 1] == vs[n];
    }
  }

  /** A byte that some write covers ends up the same whatever the file
      held before the writes; any other byte keeps what it held. */
  lemma {:induction false} WrittenAgree(s: seq<Byte>, s': seq<Byte>, ws: seq<Write>, i: int)
    requires |s'| == |s| && AllFit(ws, |s|) && 0 <= i < |s|
    requires s[i] == s'[i] || exists k :: 0 <= k < |ws| && ws[k].Covers(i)
    ensures Written(s, ws)[i] == Written(s', ws)[i]
  {
    if |ws| > 0 {
      var n := |ws| - 1;
      var last := ws[n];
      OverwriteAt(Written(s, ws[..n]), last.at, last.data, i);
      OverwriteAt(Written(s', ws[..n]), last.at, last.data, i);
      if !last.Covers(i) {
        if s[i] != s'[i] {
          var k :| 0 <= k < |ws| && ws[k].Covers(i);
          assert ws[..n][k] == ws[k];
        }
        WrittenAgree(s, s', ws[..n], i);
      }
    }
  }

  /** Making the same writes a second time changes nothing. */
  lemma WrittenTwice(s: seq<Byte>, ws: seq<Write>)
    requires AllFit(ws, |s|)
    ensures Written(Written(s, ws), ws) == Written(s, ws)
  {
    var t := Written(s, ws);
    forall i | 0 <= i < |s|
      ensures Written(t, ws)[i] == t[i]
    {
      if forall k :: 0 <= k < |ws| ==> !ws[k].Covers(i) {
        WrittenFrame(s, ws, i);
      }
      WrittenAgree(t, s, ws, i);
    }
  }

  /** Writing a prefix and then the next write is writing the longer prefix. */
  lemma WrittenStep(s: seq<Byte>, ws: seq<Write>, k: int)
    requires AllFit(ws, |s|) && 0 <= k < |ws|
    ensures Written(s, ws[..k + 1]) == Overwrite(Written(s, ws[..k]), ws[k].at, ws[k].data)
  {
    assert ws[..k + 1][..k] == ws[..k];
  }
}
