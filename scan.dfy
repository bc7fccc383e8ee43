/** The order in which the render loops visit pixels, and what a sequence
    of pixel writes leaves in the film. These are the specifications the
    loops of `Render`, `ScanlineRender` and `MultiRender` are proved
    against. */
module Scan {

  /** A film coordinate: column `x` (the source's `i`) and row `y` (`j`). */
  datatype Pixel = Pixel(x: int, y: int)

  /** Row `y`, columns `0` to `width - 1` in increasing order. */
  function Row(y: int, width: nat): (r: seq<Pixel>)
    ensures |r| == width
    ensures forall i :: 0 <= i < width ==> r[i] == Pixel(i, y)
  {
    seq(width, i => Pixel(i, y))
  }

  /** Rows `lo` up to `hi - 1`, each row left to right (`ScanlineRender`). */
  function RowsUp(lo: int, hi: int, width: nat): seq<Pixel>
    decreases hi - lo
  {
    if hi <= lo then [] else RowsUp(lo, hi - 1, width) + Row(hi - 1, width)
  }

  /** Rows `hi - 1` down to `lo`, each row left to right (`Render`). */
  function RowsDown(hi: int, lo: int, width: nat): seq<Pixel>
    decreases hi - lo
  {
    if hi <= lo then [] else RowsDown(hi, lo + 1, width) + Row(lo, width)
  }

  /** `p` lies in the rows `[lo, hi)` of an image `width` columns wide. */
  predicate InBand(p: Pixel, lo: int, hi: int, width: int) {
    lo <= p.y < hi && 0 <= p.x < width
  }

  /** `after` is `before` with every pixel of the rectangle rows `[lo, hi)`,
      columns `[0, cols)` set to its oracle colour `shade(p)`, and nothing
      else changed. */
  ghost predicate Painted<C>(after: map<Pixel, C>, before: map<Pixel, C>, lo: int, hi: int, cols: int, shade: Pixel -> C) {
    && (forall p :: p in after <==> p in before || InBand(p, lo, hi, cols))
    && (forall p :: p in after && InBand(p, lo, hi, cols) ==> after[p] == shade(p))
    && (forall p :: p in after && !InBand(p, lo, hi, cols) ==> p in before && after[p] == before[p])
  }

  /** Each row is visited left to right and the ordering below is the one
      `Render` uses: higher rows first, then increasing columns. */
  predicate TopDownOrder(s: seq<Pixel>) {
    forall a, b :: 0 <= a < b < |s| ==>
      s[a].y > s[b].y || (s[a].y == s[b].y && s[a].x < s[b].x)
  }

  /** The ordering `ScanlineRender` uses: lower rows first, then increasing columns. */
  predicate BottomUpOrder(s: seq<Pixel>) {
    forall a, b :: 0 <= a < b < |s| ==>
      s[a].y < s[b].y || (s[a].y == s[b].y && s[a].x < s[b].x)
  }

  /** A row holds each of its pixels exactly once and nothing else. */
  lemma {:induction false} RowCount(y: int, width: nat, p: Pixel)
    ensures multiset(Row(y, width))[p] == if p.y == y && 0 <= p.x < width then 1 else 0
  {
    if width > 0 {
      assert Row(y, width) == Row(y, width - 1) + [Pixel(width - 1, y)];
      RowCount(y, width - 1, p);
    } else {
      assert Row(y, width) == [];
    }
  }

  /** `RowsUp(lo, hi, width)` holds every pixel of the band exactly once and
      nothing outside it. */
  lemma {:induction false} RowsUpCount(lo: int, hi: int, width: nat, p: Pixel)
    ensures multiset(RowsUp(lo, hi, width))[p] == if InBand(p, lo, hi, width) then 1 else 0
    decreases hi - lo
  {
    if lo < hi {
      RowsUpCount(lo, hi - 1, width, p);
      RowCount(hi - 1, width, p);
    }
  }

  /** `RowsDown(hi, lo, width)` holds every pixel of the band exactly once
      and nothing outside it. */
  lemma {:induction false} RowsDownCount(hi: int, lo: int, width: nat, p: Pixel)
    ensures multiset(RowsDown(hi, lo, width))[p] == if InBand(p, lo, hi, width) then 1 else 0
    decreases hi - lo
  {
    if lo < hi {
      RowsDownCount(hi, lo + 1, width, p);
      RowCount(lo, width, p);
    }
  }

  lemma RowsUpMembers(lo: int, hi: int, width: nat)
    ensures forall p :: p in RowsUp(lo, hi, width) <==> InBand(p, lo, hi, width)
  {
    forall p ensures p in RowsUp(lo, hi, width) <==> InBand(p, lo, hi, width) {
      RowsUpCount(lo, hi, width, p);
    }
  }

  lemma RowsDownMembers(hi: int, lo: int, width: nat)
    ensures forall p :: p in RowsDown(hi, lo, width) <==> InBand(p, lo, hi, width)
  {
    forall p ensures p in RowsDown(hi, lo, width) <==> InBand(p, lo, hi, width) {
      RowsDownCount(hi, lo, width, p);
    }
  }

  /** Adjacent bands concatenate: rows `[a, b)` followed by rows `[b, c)`
      are rows `[a, c)`. */
  lemma {:induction false} RowsUpSplit(a: int, b: int, c: int, width: nat)
    requires a <= b <= c
    ensures RowsUp(a, b, width) + RowsUp(b, c, width) == RowsUp(a, c, width)
    decreases c - b
  {
    if b < c {
      RowsUpSplit(a, b, c - 1, width);
    }
  }

  /** `Render` visits rows from the top down and each row left to right. */
  lemma {:induction false} RowsDownOrdered(hi: int, lo: int, width: nat)
    ensures TopDownOrder(RowsDown(hi, lo, width))
    decreases hi - lo
  {
    if lo < hi {
      var front, row := RowsDown(hi, lo + 1, width), Row(lo, width);
      RowsDownOrdered(hi, lo + 1, width);
      RowsDownMembers(hi, lo + 1, width);
      var s := front + row;
      forall a, b | 0 <= a < b < |s|
        ensures s[a].y > s[b].y || (s[a].y == s[b].y && s[a].x < s[b].x)
      {
        if b < |front| {
          assert s[a] == front[a] && s[b] == front[b];
        } else if a < |front| {
          assert s[a] == front[a] && front[a] in front;
        }
      }
    }
  }

  /** `ScanlineRender` visits its rows from the bottom up and each row left
      to right. */
  lemma {:induction false} RowsUpOrdered(lo: int, hi: int, width: nat)
    ensures BottomUpOrder(RowsUp(lo, hi, width))
    decreases hi - lo
  {
    if lo < hi {
      var front, row := RowsUp(lo, hi - 1, width), Row(hi - 1, width);
      RowsUpOrdered(lo, hi - 1, width);
      RowsUpMembers(lo, hi - 1, width);
      var s := front + row;
      forall a, b | 0 <= a < b < |s|
        ensures s[a].y < s[b].y || (s[a].y == s[b].y && s[a].x < s[b].x)
      {
        if b < |front| {
          assert s[a] == front[a] && s[b] == front[b];
        } else if a < |front| {
          assert s[a] == front[a] && front[a] in front;
        }
      }
    }
  }

  /** Painting the pixels of row `y` one column further. */
  lemma PaintedNextColumn<C>(after: map<Pixel, C>, mid: map<Pixel, C>, before: map<Pixel, C>,
                             y: int, x: nat, shade: Pixel -> C)
    requires Painted(mid, before, y, y + 1, x, shade)
    requires after == mid[Pixel(x, y) := shade(Pixel(x, y))]
    ensures Painted(after, before, y, y + 1, x + 1, shade)
  {
  }

  /** Painting rows `[lo, mid)` and then rows `[mid, hi)` paints rows `[lo, hi)`. */
  lemma PaintedCompose<C>(c: map<Pixel, C>, b: map<Pixel, C>, a: map<Pixel, C>,
                          lo: int, mid: int, hi: int, cols: int, shade: Pixel -> C)
    requires lo <= mid <= hi
    requires Painted(b, a, lo, mid, cols, shade) && Painted(c, b, mid, hi, cols, shade)
    ensures Painted(c, a, lo, hi, cols, shade)
  {
  }

  /** Painting rows `[mid, hi)` and then rows `[lo, mid)` paints rows `[lo, hi)`. */
  lemma PaintedComposeBelow<C>(c: map<Pixel, C>, b: map<Pixel, C>, a: map<Pixel, C>,
                               lo: int, mid: int, hi: int, cols: int, shade: Pixel -> C)
    requires lo <= mid <= hi
    requires Painted(b, a, mid, hi, cols, shade) && Painted(c, b, lo, mid, cols, shade)
    ensures Painted(c, a, lo, hi, cols, shade)
  {
  }

  /** The film after a sweep is determined by the film before it: two sweeps
      over the same rows, in whatever order, leave the same image. */
  lemma PaintedUnique<C>(a: map<Pixel, C>, b: map<Pixel, C>, before: map<Pixel, C>,
                         lo: int, hi: int, cols: int, shade: Pixel -> C)
    requires Painted(a, before, lo, hi, cols, shade) && Painted(b, before, lo, hi, cols, shade)
    ensures a == b
  {
    assert a.Keys == b.Keys;
    forall p | p in a ensures a[p] == b[p] {
      if !InBand(p, lo, hi, cols) {
        assert p in before;
      }
    }
  }

  /** The bottom-up and the top-down sweeps of an image visit the same
      pixels, each exactly once. */
  lemma SweepsAgree(width: nat, height: nat)
    ensures multiset(RowsUp(0, height, width)) == multiset(RowsDown(height, 0, width))
  {
    forall p ensures multiset(RowsUp(0, height, width))[p] == multiset(RowsDown(height, 0, width))[p] {
      RowsUpCount(0, height, width, p);
      RowsDownCount(height, 0, width, p);
    }
  }
}
