/**
 * The 256-colour palette and the nearest-colour search (palette_search).
 *
 * A palette is 768 bytes: entry i has its red, green and blue components
 * at 3*i, 3*i+1 and 3*i+2. Its contents (quake_palette.h) are not part of
 * this model: every member takes the palette as a parameter.
 */
module Palette {
  import opened Layout

  const PALETTE_BYTES: int := 768
  const PALETTE_ENTRIES: int := 256
  /** The index that marks a transparent pixel. */
  const TRANSPARENT: Byte := 255
  const INT32_MAX: int := 0x7FFF_FFFF
  /** The largest squared distance between two RGB byte triples. */
  const MAX_RANK: int := 3 * 255 * 255

  datatype Rgb = Rgb(r: Byte, g: Byte, b: Byte)

  /** isqr, by the recurrence (n + 1)^2 = n^2 + 2n + 1 on |a|, so that
      unfolding it exposes no multiplication; SqrIsProduct shows it is a*a. */
  function Sqr(a: int): nat
  {
    if a < 0 then SqrNat(-a) else SqrNat(a)
  }

  function SqrNat(n: nat): nat
  {
    if n == 0 then 0 else SqrNat(n - 1) + 2 * n - 1
  }

  /** isqr(a) returns a * a, for every int. */
  lemma SqrIsProduct(a: int)
    ensures Sqr(a) == a * a
  {
    var n := if a < 0 then -a else a;
    SqrNatIsProduct(n);
    assert a * a == n * n;
  }

  lemma {:induction false} SqrNatIsProduct(n: nat)
    ensures SqrNat(n) == n * n
  {
    if n > 0 {
      SqrNatIsProduct(n - 1);
      assert (n - 1) * (n - 1) == n * n - 2 * n + 1;
    }
  }

  /** Only zero squares to zero. */
  lemma SqrZero(a: int)
    ensures Sqr(a) == 0 <==> a == 0
  {
    var n := if a < 0 then -a else a;
    if n > 0 {
      assert SqrNat(n) == SqrNat(n - 1) + 2 * n - 1;
    }
  }

  /** The square of a channel difference never exceeds 255 * 255. */
  lemma SqrBelow(a: int)
    requires -255 <= a <= 255
    ensures Sqr(a) <= 255 * 255
  {
    SqrIsProduct(a);
    SquareBelow(if a < 0 then -a else a, 255);
    assert a * a == (if a < 0 then -a else a) * (if a < 0 then -a else a);
  }

  lemma SquareBelow(x: int, bound: int)
    requires 0 <= x <= bound
    ensures x * x <= bound * bound
  {
    assert x * x <= x * bound;
  }

  /** imin */
  function Min(x: int, y: int): (r: int)
    ensures r <= x && r <= y
    ensures r == x || r == y
  {
    if x < y then x else y
  }

  /** imax */
  function Max(x: int, y: int): (r: int)
    ensures r >= x && r >= y
    ensures r == x || r == y
  {
    if x > y then x else y
  }

  /** The colour of palette entry `i`. */
  function Color(palette: seq<Byte>, i: int): Rgb
    requires |palette| == PALETTE_BYTES && 0 <= i < PALETTE_ENTRIES
  {
    Rgb(palette[3 * i], palette[3 * i + 1], palette[3 * i + 2])
  }

  predicate IsByte(v: int) { 0 <= v < 256 }

  /** The squared RGB distance between palette entry `i` and (r, g, b),
      the `rank` of palette_search. It never reaches INT32_MAX, so the
      search's first step always takes entry 255. */
  function Rank(palette: seq<Byte>, i: int, r: int, g: int, b: int): (d: int)
    requires |palette| == PALETTE_BYTES && 0 <= i < PALETTE_ENTRIES
    requires IsByte(r) && IsByte(g) && IsByte(b)
  {
    Sqr(palette[3 * i] - r) + Sqr(palette[3 * i + 1] - g) + Sqr(palette[3 * i + 2] - b)
  }

  /** Every rank lies between 0 and MAX_RANK, below INT32_MAX. */
  lemma RankBelow(palette: seq<Byte>, i: int, r: int, g: int, b: int)
    requires |palette| == PALETTE_BYTES && 0 <= i < PALETTE_ENTRIES
    requires IsByte(r) && IsByte(g) && IsByte(b)
    ensures 0 <= Rank(palette, i, r, g, b) <= MAX_RANK < INT32_MAX
  {
    SqrBelow(palette[3 * i] - r);
    SqrBelow(palette[3 * i + 1] - g);
    SqrBelow(palette[3 * i + 2] - b);
  }

  /** The rank is zero exactly for an entry of the searched colour. */
  lemma RankZero(palette: seq<Byte>, i: int, r: int, g: int, b: int)
    requires |palette| == PALETTE_BYTES && 0 <= i < PALETTE_ENTRIES
    requires IsByte(r) && IsByte(g) && IsByte(b)
    ensures Rank(palette, i, r, g, b) == 0 <==> Color(palette, i) == Rgb(r, g, b)
  {
    SqrZero(palette[3 * i] - r);
    SqrZero(palette[3 * i + 1] - g);
    SqrZero(palette[3 * i + 2] - b);
  }

  /** `k` is the entry a descending scan that has reached `lo` must hold:
      no entry in lo..255 is closer, and every entry above `k` is strictly
      farther (ties go to the highest index). */
  predicate NearestAmong(palette: seq<Byte>, r: int, g: int, b: int, lo: int, k: int)
    requires |palette| == PALETTE_BYTES && IsByte(r) && IsByte(g) && IsByte(b)
  {
    && 0 <= lo <= k < PALETTE_ENTRIES
    && (forall j :: lo <= j < PALETTE_ENTRIES ==> Rank(palette, k, r, g, b) <= Rank(palette, j, r, g, b))
    && (forall j :: k < j < PALETTE_ENTRIES ==> Rank(palette, k, r, g, b) < Rank(palette, j, r, g, b))
  }

  /** `k` is the entry the search must return: nearest among all 256. */
  predicate IsNearest(palette: seq<Byte>, r: int, g: int, b: int, k: int)
    requires |palette| == PALETTE_BYTES && IsByte(r) && IsByte(g) && IsByte(b)
  {
    NearestAmong(palette, r, g, b, 0, k)
  }

  /** The nearest entry among indices lo..255, ties to the highest index:
      the value `pen` holds once a descending scan has reached `lo`. */
  function NearestFrom(palette: seq<Byte>, r: int, g: int, b: int, lo: int): (k: int)
    requires |palette| == PALETTE_BYTES && IsByte(r) && IsByte(g) && IsByte(b)
    requires 0 <= lo < PALETTE_ENTRIES
    ensures lo <= k < PALETTE_ENTRIES
    decreases PALETTE_ENTRIES - lo
  {
    if lo == PALETTE_ENTRIES - 1 then
      lo
    else
      var k := NearestFrom(palette, r, g, b, lo + 1);
      if Rank(palette, lo, r, g, b) < Rank(palette, k, r, g, b) then lo else k
  }

  /** NearestFrom(lo) is an argmin of the rank over lo..255, and every
      entry above it is strictly farther. */
  lemma {:induction false} NearestFromIsArgmin(palette: seq<Byte>, r: int, g: int, b: int, lo: int)
    requires |palette| == PALETTE_BYTES && IsByte(r) && IsByte(g) && IsByte(b)
    requires 0 <= lo < PALETTE_ENTRIES
    ensures NearestAmong(palette, r, g, b, lo, NearestFrom(palette, r, g, b, lo))
    decreases PALETTE_ENTRIES - lo
  {
    if lo < PALETTE_ENTRIES - 1 {
      NearestFromIsArgmin(palette, r, g, b, lo + 1);
    }
  }

  /** The index palette_search returns. */
  function Nearest(palette: seq<Byte>, r: int, g: int, b: int): (k: int)
    requires |palette| == PALETTE_BYTES && IsByte(r) && IsByte(g) && IsByte(b)
    ensures 0 <= k < PALETTE_ENTRIES
  {
    NearestFrom(palette, r, g, b, 0)
  }

  /** Nearest satisfies IsNearest, and nothing else does: the result of
      the search is determined by the palette and the colour alone. */
  lemma NearestIsUniqueNearest(palette: seq<Byte>, r: int, g: int, b: int)
    requires |palette| == PALETTE_BYTES && IsByte(r) && IsByte(g) && IsByte(b)
    ensures IsNearest(palette, r, g, b, Nearest(palette, r, g, b))
    ensures forall k :: IsNearest(palette, r, g, b, k) ==> k == Nearest(palette, r, g, b)
  {
    var n := Nearest(palette, r, g, b);
    NearestFromIsArgmin(palette, r, g, b, 0);
    forall k | IsNearest(palette, r, g, b, k)
      ensures k == n
    {
      var rk := Rank(palette, k, r, g, b);
      var rn := Rank(palette, n, r, g, b);
      assert rn <= rk && rk <= rn;
      assert k < n ==> rk < rn;
      assert n < k ==> rn < rk;
    }
  }

  /** palette_search: scan the entries from 255 down to 0 and keep the one
      with the smallest rank, replacing it only on a strictly smaller rank.
      `pen` starts indeterminate, as in the source; the first step always
      sets it because every rank is below INT32_MAX. */
  method PaletteSearch(palette: seq<Byte>, r: int, g: int, b: int) returns (pen: int)
    requires |palette| == PALETTE_BYTES && IsByte(r) && IsByte(g) && IsByte(b)
    ensures IsNearest(palette, r, g, b, pen)
    ensures pen == Nearest(palette, r, g, b)
  {
    pen := *;
    var dist := INT32_MAX;
    var i := PALETTE_ENTRIES;
    while i > 0
      invariant 0 <= i <= PALETTE_ENTRIES
      invariant i == PALETTE_ENTRIES ==> dist == INT32_MAX
      invariant i < PALETTE_ENTRIES ==> pen == NearestFrom(palette, r, g, b, i) && dist == Rank(palette, pen, r, g, b)
    {
      i := i - 1;
      var rank := Rank(palette, i, r, g, b);
      RankBelow(palette, i, r, g, b);
      if rank < dist {
        pen := i;
        dist := rank;
      }
    }
    assert i == 0;
    assert pen == NearestFrom(palette, r, g, b, 0);
    NearestIsUniqueNearest(palette, r, g, b);
  }

  /** Searching for the exact colour of entry `k` returns an entry of that
      same colour, at index `k` or above: a duplicate colour higher in the
      palette wins, and so does entry 255 when it has that colour, which
      makes such a pixel transparent. */
  lemma NearestOfEntryColor(palette: seq<Byte>, k: int)
    requires |palette| == PALETTE_BYTES && 0 <= k < PALETTE_ENTRIES
    ensures var c := Color(palette, k);
      var n := Nearest(palette, c.r, c.g, c.b);
      k <= n && Color(palette, n) == c
  {
    var c := Color(palette, k);
    var n := Nearest(palette, c.r, c.g, c.b);
    NearestIsUniqueNearest(palette, c.r, c.g, c.b);
    RankZero(palette, k, c.r, c.g, c.b);
    RankZero(palette, n, c.r, c.g, c.b);
  }

  /** When entry `k` has the searched colour and no entry above it shares
      that colour, the search returns `k` itself. */
  lemma NearestOfUniqueColor(palette: seq<Byte>, k: int)
    requires |palette| == PALETTE_BYTES && 0 <= k < PALETTE_ENTRIES
    requires forall j :: k < j < PALETTE_ENTRIES ==> Color(palette, j) != Color(palette, k)
    ensures var c := Color(palette, k); Nearest(palette, c.r, c.g, c.b) == k
  {
    var c := Color(palette, k);
    NearestOfEntryColor(palette, k);
  }
}
