/**
 * The rectangle extent merger of rectangle-collisions: rectangles are held
 * by pointer, sorted by the x of their origin and swept left to right; each
 * run of rectangles that collide with the growing extent of the run's first
 * rectangle is merged into that rectangle, in place. Passes repeat until one
 * leaves the number of extents unchanged.
 *
 * The geometry is stated on values (Box); the program's objects are the
 * class Rect, whose methods are proved to reach the values the functions
 * give.
 */
module RectangleExtents {
  import opened Wrappers

  // ---------------------------------------------------------------------------
  // Geometry on values.
  // ---------------------------------------------------------------------------

  /** A rectangle's geometry: origin (x, y), extending `width` to the right and `height` down. */
  datatype Box = Box(x: int, y: int, width: int, height: int)
  {
    function Right(): int { x + width }
    function Bottom(): int { y + height }
  }

  function Min(a: int, b: int): int { if a < b then a else b }
  function Max(a: int, b: int): int { if a < b then b else a }

  /**
   * The collision test of getCollisionExtentsIfIntersection: the right
   * rectangle's origin x lies in the current extent's half-open x range, and
   * the two half-open y ranges overlap.
   */
  predicate Collides(cur: Box, right: Box) {
    && right.x >= cur.x && right.x < cur.Right()
    && Max(cur.y, right.y) < Min(cur.Bottom(), right.Bottom())
  }

  /** The extent after a collision: the current x, the smaller y, and the larger right and bottom edges. */
  function Merge(cur: Box, right: Box): Box {
    Box(cur.x, Min(cur.y, right.y),
        Max(cur.Right(), right.Right()) - cur.x,
        Max(cur.Bottom(), right.Bottom()) - Min(cur.y, right.y))
  }

  /** The area of inner lies within the area of outer. */
  predicate Contains(outer: Box, inner: Box) {
    outer.x <= inner.x && inner.Right() <= outer.Right() && outer.y <= inner.y && inner.Bottom() <= outer.Bottom()
  }

  /** The pixel (px, py) lies in the half-open area of b. */
  predicate Inside(b: Box, px: int, py: int) {
    b.x <= px < b.Right() && b.y <= py < b.Bottom()
  }

  /**
   * For rectangles of positive size, the collision test holds exactly when
   * the right rectangle does not start left of the current one and the two
   * share a pixel: rectangles that only share an edge or a corner do not
   * collide.
   */
  lemma CollidesIffSharedPixel(cur: Box, right: Box)
    requires cur.width > 0 && cur.height > 0 && right.width > 0 && right.height > 0
    ensures Collides(cur, right) <==> cur.x <= right.x && exists px, py :: Inside(cur, px, py) && Inside(right, px, py)
  {
    if Collides(cur, right) {
      assert Inside(cur, right.x, Max(cur.y, right.y)) && Inside(right, right.x, Max(cur.y, right.y));
    }
  }

  /**
   * A merged extent holds the current extent and, when the right rectangle
   * does not start left of it, the right one as well; and it is the smallest
   * box with the current x that does.
   */
  lemma MergeIsBoundingBox(cur: Box, right: Box, b: Box)
    ensures Contains(Merge(cur, right), cur)
    ensures cur.x <= right.x ==> Contains(Merge(cur, right), right)
    ensures b.x == cur.x && Contains(b, cur) && Contains(b, right) ==> Contains(b, Merge(cur, right))
  {
  }

  // ---------------------------------------------------------------------------
  // One pass on values: the sort and the sweep.
  // ---------------------------------------------------------------------------

  /** x never decreases along bs. */
  predicate SortedByX(bs: seq<Box>) {
    forall i, j :: 0 <= i < j < |bs| ==> bs[i].x <= bs[j].x
  }

  /** No box of bs starts left of lo. */
  predicate StartsFrom(lo: int, bs: seq<Box>) {
    forall i :: 0 <= i < |bs| ==> lo <= bs[i].x
  }

  /** Insert b before the first box whose x is larger. */
  function InsertByX(b: Box, bs: seq<Box>): (r: seq<Box>)
    ensures |r| == |bs| + 1
  {
    if |bs| == 0 || bs[0].x > b.x then [b] + bs else [bs[0]] + InsertByX(b, bs[1..])
  }

  /** Insertion keeps the boxes, adding b. */
  lemma {:induction false} InsertPermutes(b: Box, bs: seq<Box>)
    ensures multiset(InsertByX(b, bs)) == multiset(bs) + multiset{b}
  {
    if |bs| > 0 && bs[0].x <= b.x {
      InsertPermutes(b, bs[1..]);
      assert bs == [bs[0]] + bs[1..];
    }
  }

  /** Insertion into boxes in order of x keeps them in order. */
  lemma {:induction false} InsertKeepsSorted(b: Box, bs: seq<Box>, lo: int)
    requires SortedByX(bs) && StartsFrom(lo, bs) && lo <= b.x
    ensures SortedByX(InsertByX(b, bs)) && StartsFrom(lo, InsertByX(b, bs))
  {
    if |bs| > 0 && bs[0].x <= b.x {
      var tail := bs[1..];
      assert SortedByX(tail) && StartsFrom(bs[0].x, tail) by {
        forall i | 0 <= i < |tail| ensures bs[0].x <= tail[i].x && tail[i] == bs[i + 1] {
          assert tail[i] == bs[i + 1];
        }
      }
      InsertKeepsSorted(b, tail, bs[0].x);
      var r := InsertByX(b, bs);
      assert r == [bs[0]] + InsertByX(b, tail);
      forall i, j | 0 <= i < j < |r| ensures r[i].x <= r[j].x {
        if i > 0 {
          assert r[i] == InsertByX(b, tail)[i - 1] && r[j] == InsertByX(b, tail)[j - 1];
        } else {
          assert r[j] == InsertByX(b, tail)[j - 1];
        }
      }
    }
  }

  /** Insertion of the boxes in input order: the order the sort gives them. */
  function SortByX(bs: seq<Box>): (r: seq<Box>)
    ensures |r| == |bs|
  {
    if |bs| == 0 then [] else InsertByX(bs[|bs| - 1], SortByX(bs[..|bs| - 1]))
  }

  /** The sort keeps the boxes: its result is a permutation of its input. */
  lemma {:induction false} SortPermutes(bs: seq<Box>)
    ensures multiset(SortByX(bs)) == multiset(bs)
  {
    if |bs| > 0 {
      var init, last := bs[..|bs| - 1], bs[|bs| - 1];
      SortPermutes(init);
      InsertPermutes(last, SortByX(init));
      assert bs == init + [last];
    }
  }

  /** The sort puts the boxes in order of x. */
  lemma {:induction false} SortSorts(bs: seq<Box>)
    ensures SortedByX(SortByX(bs))
  {
    if |bs| > 0 {
      var init, last := bs[..|bs| - 1], bs[|bs| - 1];
      var s := SortByX(init);
      SortSorts(init);
      var lo := if |s| > 0 then Min(last.x, s[0].x) else last.x;
      InsertKeepsSorted(last, s, lo);
    }
  }

  /** Inserting a box at least as far right as all others appends it. */
  lemma {:induction false} InsertRightmost(b: Box, bs: seq<Box>)
    requires forall j :: 0 <= j < |bs| ==> bs[j].x <= b.x
    ensures InsertByX(b, bs) == bs + [b]
  {
    if |bs| > 0 {
      InsertRightmost(b, bs[1..]);
      assert bs == [bs[0]] + bs[1..];
    }
  }

  /** Boxes already in order of x are left as they are by the sort. */
  lemma {:induction false} SortedStaysPut(bs: seq<Box>)
    requires SortedByX(bs)
    ensures SortByX(bs) == bs
  {
    if |bs| > 0 {
      var init, last := bs[..|bs| - 1], bs[|bs| - 1];
      assert SortedByX(init) by {
        forall i, j | 0 <= i < j < |init| ensures init[i].x <= init[j].x {
          assert init[i] == bs[i] && init[j] == bs[j];
        }
      }
      SortedStaysPut(init);
      forall j | 0 <= j < |init| ensures init[j].x <= last.x {
        assert init[j] == bs[j];
      }
      InsertRightmost(last, init);
      assert bs == init + [last];
    }
  }

  /** A run of the sweep: the extent it ends with and how many boxes it merged. */
  datatype Run = Run(extent: Box, merged: nat)

  /**
   * The inner sweep loop: merge the following boxes into the extent while
   * they collide with it; the result is the final extent and how many boxes
   * were merged.
   */
  function Absorb(cur: Box, rest: seq<Box>): (r: Run)
    ensures r.merged <= |rest|
    decreases |rest|
  {
    if |rest| > 0 && Collides(cur, rest[0]) then
      var run := Absorb(Merge(cur, rest[0]), rest[1..]);
      Run(run.extent, run.merged + 1)
    else Run(cur, 0)
  }

  /** The outer sweep loop: each run of colliding boxes becomes one extent. */
  function Sweep(bs: seq<Box>): (r: seq<Box>)
    ensures |r| <= |bs| && (|bs| >= 1 ==> |r| >= 1)
    decreases |bs|
  {
    if |bs| == 0 then []
    else
      var run := Absorb(bs[0], bs[1..]);
      [run.extent] + Sweep(bs[run.merged + 1..])
  }

  /** Some box of bs contains b. */
  predicate CoveredBy(b: Box, bs: seq<Box>) {
    exists j :: 0 <= j < |bs| && Contains(bs[j], b)
  }

  /**
   * The extent a run ends with has the x of the run's first box, contains
   * that box and every box merged into it, and does not collide with the box
   * that ends the run.
   */
  lemma {:induction false} AbsorbContains(cur: Box, rest: seq<Box>)
    ensures Absorb(cur, rest).extent.x == cur.x
    ensures Contains(Absorb(cur, rest).extent, cur)
    ensures forall j :: 0 <= j < Absorb(cur, rest).merged ==> Contains(Absorb(cur, rest).extent, rest[j])
    ensures Absorb(cur, rest).merged < |rest| ==> !Collides(Absorb(cur, rest).extent, rest[Absorb(cur, rest).merged])
    decreases |rest|
  {
    if |rest| > 0 && Collides(cur, rest[0]) {
      var m := Merge(cur, rest[0]);
      AbsorbContains(m, rest[1..]);
      var run := Absorb(m, rest[1..]);
      var b, k := run.extent, run.merged;
      MergeIsBoundingBox(cur, rest[0], m);
      forall j | 0 <= j < k + 1
        ensures Contains(b, rest[j])
      {
        if j > 0 {
          assert rest[j] == rest[1..][j - 1];
        }
      }
    }
  }

  /** Every box is contained in some extent the sweep returns. */
  lemma {:induction false} SweepCovers(bs: seq<Box>)
    ensures forall i :: 0 <= i < |bs| ==> CoveredBy(bs[i], Sweep(bs))
    decreases |bs|
  {
    if |bs| > 0 {
      var run := Absorb(bs[0], bs[1..]);
      var b, k := run.extent, run.merged;
      AbsorbContains(bs[0], bs[1..]);
      SweepCovers(bs[k + 1..]);
      var r := Sweep(bs);
      assert r == [b] + Sweep(bs[k + 1..]);
      forall i | 0 <= i < |bs|
        ensures CoveredBy(bs[i], r)
      {
        if i <= k {
          if i > 0 {
            assert bs[i] == bs[1..][i - 1];
          }
          assert Contains(r[0], bs[i]);
        } else {
          assert bs[i] == bs[k + 1..][i - k - 1];
          var j :| 0 <= j < |Sweep(bs[k + 1..])| && Contains(Sweep(bs[k + 1..])[j], bs[i]);
          assert r[j + 1] == Sweep(bs[k + 1..])[j];
        }
      }
    }
  }

  /** Each extent has the x of a box of the input; sorted input gives sorted extents. */
  lemma {:induction false} SweepKeepsOrder(bs: seq<Box>)
    requires SortedByX(bs)
    ensures SortedByX(Sweep(bs))
    ensures forall j :: 0 <= j < |Sweep(bs)| ==> bs[0].x <= Sweep(bs)[j].x
    decreases |bs|
  {
    if |bs| > 0 {
      var run := Absorb(bs[0], bs[1..]);
      var b, k := run.extent, run.merged;
      AbsorbContains(bs[0], bs[1..]);
      var tail := bs[k + 1..];
      SweepKeepsOrder(tail);
      if |tail| > 0 {
        assert tail[0] == bs[k + 1];
      }
    }
  }

  // ---------------------------------------------------------------------------
  // The whole merger on values.
  // ---------------------------------------------------------------------------

  /** The exception an empty input throws. */
  datatype ExtentsError = EmptyInput

  /**
   * getRectangleExtents on values: an empty input fails, one rectangle is
   * returned as it is; otherwise one pass sorts and sweeps, and the result
   * goes round again while its count differs from the previous count.
   */
  function Extents(previousExtentsCount: int, bs: seq<Box>): (r: Result<seq<Box>, ExtentsError>)
    ensures r.Failure? <==> |bs| == 0
    ensures r.Success? ==> 1 <= |r.value| <= |bs|
    decreases |bs|, if previousExtentsCount == |bs| then 0 else 1
  {
    if |bs| < 1 then Failure(EmptyInput)
    else if |bs| == 1 then Success(bs)
    else
      var extents := Sweep(SortByX(bs));
      if previousExtentsCount != |extents| then Extents(|extents|, extents) else Success(extents)
  }

  /** Containment in a box that some box of rs contains is containment in rs. */
  lemma CoveredThrough(b: Box, es: seq<Box>, rs: seq<Box>)
    requires CoveredBy(b, es)
    requires forall j :: 0 <= j < |es| ==> CoveredBy(es[j], rs)
    ensures CoveredBy(b, rs)
  {
    var j :| 0 <= j < |es| && Contains(es[j], b);
    var l :| 0 <= l < |rs| && Contains(rs[l], es[j]);
    assert Contains(rs[l], b);
  }

  /** Each box of bs is a box of its sorted order. */
  lemma CoveredInSorted(bs: seq<Box>, i: int)
    requires 0 <= i < |bs|
    ensures exists k :: 0 <= k < |SortByX(bs)| && SortByX(bs)[k] == bs[i]
  {
    SortPermutes(bs);
    assert bs[i] in multiset(SortByX(bs));
  }

  /** Every box is contained in some extent of one sort-and-sweep pass. */
  lemma PassCovers(bs: seq<Box>)
    ensures forall i :: 0 <= i < |bs| ==> CoveredBy(bs[i], Sweep(SortByX(bs)))
  {
    var sorted := SortByX(bs);
    SweepCovers(sorted);
    forall i | 0 <= i < |bs|
      ensures CoveredBy(bs[i], Sweep(sorted))
    {
      CoveredInSorted(bs, i);
      var k :| 0 <= k < |sorted| && sorted[k] == bs[i];
      assert CoveredBy(sorted[k], Sweep(sorted));
    }
  }

  /** Every input rectangle lies within some extent of the result. */
  lemma {:induction false} ExtentsCover(previousExtentsCount: int, bs: seq<Box>)
    requires |bs| >= 1
    ensures forall i :: 0 <= i < |bs| ==> CoveredBy(bs[i], Extents(previousExtentsCount, bs).value)
    decreases |bs|, if previousExtentsCount == |bs| then 0 else 1
  {
    var result := Extents(previousExtentsCount, bs).value;
    if |bs| == 1 {
      assert Contains(result[0], bs[0]);
    } else {
      var extents := Sweep(SortByX(bs));
      PassCovers(bs);
      if previousExtentsCount != |extents| {
        ExtentsCover(|extents|, extents);
        forall i | 0 <= i < |bs|
          ensures CoveredBy(bs[i], result)
        {
          CoveredThrough(bs[i], extents, result);
        }
      }
    }
  }

  /** The extents of a result with more than one input are in order of x. */
  lemma {:induction false} ExtentsSorted(previousExtentsCount: int, bs: seq<Box>)
    requires |bs| >= 2
    ensures SortedByX(Extents(previousExtentsCount, bs).value)
    decreases |bs|, if previousExtentsCount == |bs| then 0 else 1
  {
    var extents := Sweep(SortByX(bs));
    SortSorts(bs);
    SweepKeepsOrder(SortByX(bs));
    if previousExtentsCount != |extents| && |extents| >= 2 {
      ExtentsSorted(|extents|, extents);
    }
  }

  /** A sweep that merges nothing returns its input: no two neighbours collide. */
  lemma {:induction false} SweepKeepsCount(bs: seq<Box>)
    requires |Sweep(bs)| == |bs|
    ensures Sweep(bs) == bs
    ensures forall i :: 0 <= i < |bs| - 1 ==> !Collides(bs[i], bs[i + 1])
    decreases |bs|
  {
    if |bs| > 0 {
      var run := Absorb(bs[0], bs[1..]);
      var b, k := run.extent, run.merged;
      var tail := bs[k + 1..];
      assert |Sweep(tail)| <= |tail|;
      assert k == 0;
      SweepKeepsCount(tail);
      assert bs == [bs[0]] + tail;
      forall i | 0 <= i < |bs| - 1
        ensures !Collides(bs[i], bs[i + 1])
      {
        if i > 0 {
          assert bs[i] == tail[i - 1] && bs[i + 1] == tail[i];
        }
      }
    }
  }

  /** Conversely, when no two neighbours collide the sweep returns its input. */
  lemma {:induction false} SweepNoMerge(bs: seq<Box>)
    requires forall i :: 0 <= i < |bs| - 1 ==> !Collides(bs[i], bs[i + 1])
    ensures Sweep(bs) == bs
    decreases |bs|
  {
    if |bs| > 0 {
      var tail := bs[1..];
      assert Absorb(bs[0], tail) == Run(bs[0], 0) by {
        if |tail| > 0 {
          assert tail[0] == bs[1];
        }
      }
      forall i | 0 <= i < |tail| - 1
        ensures !Collides(tail[i], tail[i + 1])
      {
        assert tail[i] == bs[i + 1] && tail[i + 1] == bs[i + 2];
      }
      assert bs[0 + 1..] == tail;
      assert Sweep(bs) == [bs[0]] + Sweep(tail);
      SweepNoMerge(tail);
    }
  }

  /**
   * When the count passed in is the input's own count (as the test driver
   * and every recursive call pass it), the result holds no two neighbouring
   * extents, in order of x, that collide.
   */
  lemma {:induction false} ExtentsSettled(bs: seq<Box>)
    requires |bs| >= 2
    ensures var r := Extents(|bs|, bs).value;
            forall i :: 0 <= i < |r| - 1 ==> !Collides(r[i], r[i + 1])
    decreases |bs|
  {
    var extents := Sweep(SortByX(bs));
    var r := Extents(|bs|, bs).value;
    assert Extents(|bs|, bs) == if |bs| != |extents| then Extents(|extents|, extents) else Success(extents);
    if |extents| == |bs| {
      SweepKeepsCount(SortByX(bs));
      assert r == extents;
    } else if |extents| >= 2 {
      ExtentsSettled(extents);
      assert r == Extents(|extents|, extents).value;
    } else {
      assert r == Extents(|extents|, extents).value == extents;
    }
  }

  /**
   * Only neighbours are compared: a rectangle that lies inside another but
   * is separated from it in x order by one that collides with neither stays
   * an extent of its own, overlapping the other.
   */
  lemma OverlapBehindNeighbourKept(a: Box, b: Box, c: Box)
    requires a == Box(0, 0, 100, 10) && b == Box(10, 50, 10, 10) && c == Box(20, 0, 10, 10)
    ensures Extents(3, [a, b, c]) == Success([a, b, c])
    ensures Contains(a, c)
  {
    ThreeStayApart(a, b, c);
  }

  /** Three boxes in order of x, no two neighbours colliding, stay three extents. */
  lemma ThreeStayApart(a: Box, b: Box, c: Box)
    requires a.x <= b.x <= c.x && !Collides(a, b) && !Collides(b, c)
    ensures Extents(3, [a, b, c]) == Success([a, b, c])
  {
    var bs := [a, b, c];
    ThreeInOrder(a, b, c);
    SweepNoMerge(bs);
  }

  /** Rectangles that only share an edge stay apart. */
  lemma BorderingRectanglesStayApart()
    ensures !Collides(Box(0, 0, 100, 100), Box(0, 100, 100, 100))
    ensures !Collides(Box(0, 0, 100, 100), Box(100, 0, 100, 100))
  {
  }

  /** Rectangles that only share a corner stay apart. */
  lemma CornerRectanglesStayApart()
    ensures !Collides(Box(0, 0, 100, 100), Box(100, 100, 100, 100))
    ensures !Collides(Box(0, 100, 100, 100), Box(100, 0, 100, 100))
  {
  }

  /** A one-pixel overlap at an edge or a corner is a collision. */
  lemma OnePixelOverlapsCollide()
    ensures Collides(Box(0, 0, 100, 100), Box(0, 99, 100, 100))
    ensures Collides(Box(0, 0, 100, 100), Box(99, 99, 100, 100))
    ensures Collides(Box(0, 99, 100, 100), Box(99, 0, 100, 100))
  {
  }

  /** Three boxes already in order of x are left in that order. */
  lemma ThreeInOrder(a: Box, b: Box, c: Box)
    requires a.x <= b.x <= c.x
    ensures SortByX([a, b, c]) == [a, b, c]
  {
    assert SortedByX([a, b, c]);
    SortedStaysPut([a, b, c]);
  }

  /**
   * Three boxes in order of x, the second colliding with the first and the
   * third with their merged extent, become one extent.
   */
  lemma ThreeBecomeOne(a: Box, b: Box, c: Box, m: Box)
    requires a.x <= b.x <= c.x && Collides(a, b) && Collides(Merge(a, b), c)
    requires m == Merge(Merge(a, b), c)
    ensures Extents(3, [a, b, c]) == Success([m])
  {
    var bs := [a, b, c];
    ThreeInOrder(a, b, c);
    assert Sweep(bs) == [m] by {
      assert Absorb(m, []) == Run(m, 0);
      assert bs[2..] == [c] && [c][1..] == [];
      assert Absorb(Merge(a, b), bs[2..]) == Run(m, 1);
      assert Absorb(a, bs[1..]) == Run(m, 2);
    }
    assert Extents(1, [m]) == Success([m]);
  }

  /**
   * The third rectangle collides with neither of the first two on its own
   * but with their merged extent, so one extent (0, 0) to (425, 150)
   * results.
   */
  lemma TripleExtentCollision(a: Box, b: Box, c: Box)
    requires a == Box(0, 0, 100, 100) && b == Box(50, 50, 100, 100) && c == Box(125, 0, 300, 25)
    ensures Extents(3, [a, b, c]) == Success([Box(0, 0, 425, 150)])
  {
    TripleMerges(a, b, c);
    ThreeBecomeOne(a, b, c, Box(0, 0, 425, 150));
  }

  /** The triple-extent case merges step by step into the box (0, 0) to (425, 150). */
  lemma TripleMerges(a: Box, b: Box, c: Box)
    requires a == Box(0, 0, 100, 100) && b == Box(50, 50, 100, 100) && c == Box(125, 0, 300, 25)
    ensures a.x <= b.x <= c.x && Collides(a, b) && Collides(Merge(a, b), c)
    ensures Merge(Merge(a, b), c) == Box(0, 0, 425, 150)
  {
  }

  /** The third rectangle of the triple-extent case collides with neither of the first two alone. */
  lemma ThirdCollidesWithNeither(a: Box, b: Box, c: Box)
    requires a == Box(0, 0, 100, 100) && b == Box(50, 50, 100, 100) && c == Box(125, 0, 300, 25)
    ensures !Collides(a, c) && !Collides(b, c)
  {
  }


  // ---------------------------------------------------------------------------
  // The program's objects.
  // ---------------------------------------------------------------------------

  /** Rect: held by pointer and merged in place. */
  class Rect {
    var x: int
    var y: int
    var width: int
    var height: int

    constructor(x: int, y: int, width: int, height: int)
      ensures Bounds() == Box(x, y, width, height)
    {
      this.x, this.y, this.width, this.height := x, y, width, height;
    }

    function Bounds(): Box
      reads this
    {
      Box(x, y, width, height)
    }
  }

  /** The geometry of each rectangle of s, in order. */
  function Boxes(s: seq<Rect>): (bs: seq<Box>)
    reads set r | r in s
    ensures |bs| == |s| && forall i :: 0 <= i < |s| ==> bs[i] == s[i].Bounds()
  {
    if |s| == 0 then [] else Boxes(s[..|s| - 1]) + [s[|s| - 1].Bounds()]
  }

  /** No rectangle appears twice. */
  predicate Distinct(s: seq<Rect>) {
    forall i, j :: 0 <= i < j < |s| ==> s[i] != s[j]
  }

  /**
   * getCollisionExtentsIfIntersection: when the right rectangle collides
   * with the current extent, the extent becomes their merge; otherwise
   * nothing changes.
   */
  method GetCollisionExtentsIfIntersection(currentExtent: Rect, rightRect: Rect) returns (collided: bool)
    modifies currentExtent
    ensures collided == Collides(old(currentExtent.Bounds()), old(rightRect.Bounds()))
    ensures currentExtent.Bounds() == if collided then Merge(old(currentExtent.Bounds()), old(rightRect.Bounds()))
                                      else old(currentExtent.Bounds())
  {
    if rightRect.x >= currentExtent.x && rightRect.x < currentExtent.x + currentExtent.width {
      if Max(currentExtent.y, rightRect.y) < Min(currentExtent.y + currentExtent.height, rightRect.y + rightRect.height) {
        var newY := Min(currentExtent.y, rightRect.y);
        var newWidth := Max(currentExtent.x + currentExtent.width, rightRect.x + rightRect.width) - currentExtent.x;
        var newHeight := Max(currentExtent.y + currentExtent.height, rightRect.y + rightRect.height) - Min(currentExtent.y, rightRect.y);
        currentExtent.y, currentExtent.width, currentExtent.height := newY, newWidth, newHeight;
        return true;
      }
    }
    return false;
  }

  /** Where insertion puts b: after every box that does not start right of it. */
  lemma {:induction false} InsertAt(b: Box, bs: seq<Box>, p: nat)
    requires p <= |bs|
    requires forall j :: 0 <= j < p ==> bs[j].x <= b.x
    requires p == |bs| || bs[p].x > b.x
    ensures InsertByX(b, bs) == bs[..p] + [b] + bs[p..]
  {
    if p > 0 {
      InsertAt(b, bs[1..], p - 1);
      assert bs[1..][..p - 1] == bs[1..p] && bs[1..][p - 1..] == bs[p..];
      assert bs[..p] == [bs[0]] + bs[1..p];
    }
  }

  /** One insertion step of the sort: rect goes after every rectangle that does not start right of it. */
  method InsertRect(rect: Rect, sorted: seq<Rect>) returns (r: seq<Rect>)
    requires Distinct(sorted) && rect !in sorted
    ensures Boxes(r) == InsertByX(rect.Bounds(), Boxes(sorted))
    ensures multiset(r) == multiset(sorted) + multiset{rect}
    ensures Distinct(r)
  {
    var p := 0;
    while p < |sorted| && sorted[p].x <= rect.x
      invariant p <= |sorted|
      invariant forall j :: 0 <= j < p ==> sorted[j].x <= rect.x
    {
      p := p + 1;
    }
    InsertAt(rect.Bounds(), Boxes(sorted), p);
    r := sorted[..p] + [rect] + sorted[p..];
    SpliceBoxes(sorted, rect, p);
    SpliceDistinct(sorted, rect, p);
    SpliceMultiset(sorted, rect, p);
  }

  lemma SpliceMultiset<T>(s: seq<T>, x: T, p: nat)
    requires p <= |s|
    ensures multiset(s[..p] + [x] + s[p..]) == multiset(s) + multiset{x}
  {
    assert s == s[..p] + s[p..];
  }

  /** Putting rect at position p of sorted splices its geometry in at p. */
  lemma SpliceBoxes(sorted: seq<Rect>, rect: Rect, p: nat)
    requires p <= |sorted|
    ensures Boxes(sorted[..p] + [rect] + sorted[p..]) == Boxes(sorted)[..p] + [rect.Bounds()] + Boxes(sorted)[p..]
  {
    var lhs := Boxes(sorted[..p] + [rect] + sorted[p..]);
    var spliced := Boxes(sorted)[..p] + [rect.Bounds()] + Boxes(sorted)[p..];
    assert |lhs| == |spliced|;
    forall i | 0 <= i < |lhs|
      ensures lhs[i] == spliced[i]
    {
      SpliceBoxAt(sorted, rect, p, i);
    }
    SameEntries(lhs, spliced);
  }

  /** Sequences of equal length that agree at every index are equal. */
  lemma SameEntries<T>(a: seq<T>, b: seq<T>)
    requires |a| == |b| && forall i :: 0 <= i < |a| ==> a[i] == b[i]
    ensures a == b
  {
  }

  lemma SpliceBoxAt(sorted: seq<Rect>, rect: Rect, p: nat, i: nat)
    requires p <= |sorted| && i <= |sorted|
    ensures Boxes(sorted[..p] + [rect] + sorted[p..])[i] == (Boxes(sorted)[..p] + [rect.Bounds()] + Boxes(sorted)[p..])[i]
  {
    SpliceIndex(sorted, rect, p, i);
    SpliceIndex(Boxes(sorted), rect.Bounds(), p, i);
  }

  /** Element i of s with x put in at position p. */
  lemma SpliceIndex<T>(s: seq<T>, x: T, p: nat, i: nat)
    requires p <= |s| && i <= |s|
    ensures (s[..p] + [x] + s[p..])[i] == if i < p then s[i] else if i == p then x else s[i - 1]
  {
    if i > p {
      assert (s[..p] + [x] + s[p..])[i] == s[p..][i - p - 1];
    }
  }

  /** Putting a rectangle not yet in sorted at position p keeps the rectangles apart. */
  lemma SpliceDistinct(sorted: seq<Rect>, rect: Rect, p: nat)
    requires p <= |sorted| && Distinct(sorted) && rect !in sorted
    ensures Distinct(sorted[..p] + [rect] + sorted[p..])
  {
    var r := sorted[..p] + [rect] + sorted[p..];
    forall i, j | 0 <= i < j < |r|
      ensures r[i] != r[j]
    {
      SpliceIndex(sorted, rect, p, i);
      SpliceIndex(sorted, rect, p, j);
    }
  }

  /** A rectangle of a list without repeats is not among those before it. */
  lemma NotYetInserted(s: seq<Rect>, i: nat)
    requires Distinct(s) && i < |s|
    ensures s[i] !in multiset(s[..i])
  {
    forall k | 0 <= k < i
      ensures s[..i][k] != s[i]
    {
      assert s[..i][k] == s[k];
    }
  }

  lemma TakeOneMore(s: seq<Rect>, i: nat)
    requires i < |s|
    ensures s[..i + 1] == s[..i] + [s[i]]
  {
  }

  /** The geometry of one more rectangle of s. */
  lemma BoxesSnoc(s: seq<Rect>, i: nat)
    requires i < |s|
    ensures Boxes(s[..i + 1]) == Boxes(s[..i]) + [s[i].Bounds()]
  {
    assert s[..i + 1][..i] == s[..i];
  }

  /** Inserting into the sort of a prefix gives the sort of the prefix one longer. */
  lemma SortStep(prefix: seq<Box>, b: Box, sortedPrefix: seq<Box>, inserted: seq<Box>, longer: seq<Box>)
    requires sortedPrefix == SortByX(prefix) && inserted == InsertByX(b, sortedPrefix)
    requires longer == prefix + [b]
    ensures inserted == SortByX(longer)
  {
    SortSnoc(prefix, b);
  }

  /** Sorting one more box inserts it into the sorted rest. */
  lemma SortSnoc(bs: seq<Box>, b: Box)
    ensures SortByX(bs + [b]) == InsertByX(b, SortByX(bs))
  {
    assert (bs + [b])[..|bs|] == bs;
  }

  /**
   * The sort of getRectangleExtents on a copy of the input list, ordering
   * the rectangles by the x of their origin. Rectangles with the same x
   * keep their input order.
   */
  method SortByOriginX(inputList: seq<Rect>) returns (sorted: seq<Rect>)
    requires Distinct(inputList)
    ensures Boxes(sorted) == SortByX(Boxes(inputList))
    ensures multiset(sorted) == multiset(inputList) && Distinct(sorted)
  {
    sorted := [];
    for i := 0 to |inputList|
      invariant SortedPrefix(inputList, i, sorted)
    {
      sorted := InsertNext(inputList, i, sorted);
    }
    assert inputList[..|inputList|] == inputList;
  }

  /** sorted holds the first i rectangles of inputList, sorted by x. */
  ghost predicate SortedPrefix(inputList: seq<Rect>, i: nat, sorted: seq<Rect>)
    requires i <= |inputList|
    reads set r | r in inputList, set r | r in sorted
  {
    && Boxes(sorted) == SortByX(Boxes(inputList[..i]))
    && multiset(sorted) == multiset(inputList[..i]) && Distinct(sorted)
  }

  /** One pass of the sort's loop: rectangle i goes into the sorted first i. */
  method InsertNext(inputList: seq<Rect>, i: nat, sorted: seq<Rect>) returns (r: seq<Rect>)
    requires i < |inputList| && Distinct(inputList) && SortedPrefix(inputList, i, sorted)
    ensures SortedPrefix(inputList, i + 1, r)
  {
    var rect := inputList[i];
    assert rect !in sorted by {
      NotYetInserted(inputList, i);
      assert rect !in multiset(sorted);
    }
    r := InsertRect(rect, sorted);
    BoxesSnoc(inputList, i);
    SortStep(Boxes(inputList[..i]), rect.Bounds(), Boxes(sorted), Boxes(r), Boxes(inputList[..i + 1]));
    TakeOneMore(inputList, i);
  }

  /**
   * The inner loop of the sweep: merge the rectangles after position start
   * into the rectangle at start for as long as they collide with it; the
   * result is the position of the first rectangle not merged. B holds the
   * geometry of the rectangles from start on.
   */
  method AbsorbRun(sorted: seq<Rect>, start: nat, ghost B: seq<Box>) returns (next: nat)
    requires start < |sorted| == |B| && Distinct(sorted)
    requires forall j :: start <= j < |sorted| ==> sorted[j].Bounds() == B[j]
    modifies sorted[start]
    ensures sorted[start].Bounds() == Absorb(B[start], B[start + 1..]).extent
    ensures next == start + 1 + Absorb(B[start], B[start + 1..]).merged
    ensures forall j :: start < j < |sorted| ==> sorted[j].Bounds() == B[j]
    ensures sorted[start].x == old(sorted[start].x)
  {
    var left := sorted[start];
    next := start + 1;
    while next < |sorted|
      invariant start < next <= |sorted|
      invariant forall j :: start < j < |sorted| ==> sorted[j].Bounds() == B[j]
      invariant left.x == old(left.x)
      invariant Absorb(B[start], B[start + 1..]).extent == Absorb(left.Bounds(), B[next..]).extent
      invariant Absorb(B[start], B[start + 1..]).merged == next - start - 1 + Absorb(left.Bounds(), B[next..]).merged
    {
      assert sorted[next] != left;
      var collided := GetCollisionExtentsIfIntersection(left, sorted[next]);
      if !collided {
        break;
      }
      assert B[next..][1..] == B[next + 1..];
      next := next + 1;
    }
  }

  /** One run of the sweep, seen from position start. */
  lemma SweepFrom(B: seq<Box>, start: nat, next: nat)
    requires start < |B| && next == start + 1 + Absorb(B[start], B[start + 1..]).merged
    ensures next <= |B| && Sweep(B[start..]) == [Absorb(B[start], B[start + 1..]).extent] + Sweep(B[next..])
  {
    var run := Absorb(B[start], B[start + 1..]);
    assert B[start..][1..] == B[start + 1..] && B[start..][run.merged + 1..] == B[next..];
  }

  /** Adding the extent of the run at start to what the sweep has produced so far. */
  lemma SweptStep(B: seq<Box>, swept: seq<Box>, start: nat, run: Run, next: nat)
    requires start < |B| && swept + Sweep(B[start..]) == Sweep(B)
    requires run == Absorb(B[start], B[start + 1..]) && next == start + 1 + run.merged
    ensures next <= |B| && swept + [run.extent] + Sweep(B[next..]) == Sweep(B)
  {
    SweepFrom(B, start, next);
    Regroup(swept, Sweep(B[start..]), run.extent, Sweep(B[next..]), Sweep(B));
  }

  lemma Regroup(done: seq<Box>, middle: seq<Box>, e: Box, rest: seq<Box>, whole: seq<Box>)
    requires done + middle == whole && middle == [e] + rest
    ensures done + [e] + rest == whole
  {
  }

  /** The geometry of one more rectangle. */
  lemma BoxesAppend(s: seq<Rect>, r: Rect)
    ensures Boxes(s + [r]) == Boxes(s) + [r.Bounds()]
  {
    assert (s + [r])[..|s|] == s;
  }

  /** The extents so far are the rectangles at the increasing positions firsts, all before it. */
  ghost predicate Picked(sorted: seq<Rect>, extents: seq<Rect>, firsts: seq<nat>, it: nat) {
    && |firsts| == |extents|
    && (forall k :: 0 <= k < |firsts| ==> firsts[k] < it && firsts[k] < |sorted| && extents[k] == sorted[firsts[k]])
    && (forall k, l :: 0 <= k < l < |firsts| ==> firsts[k] < firsts[l])
  }

  lemma PickedNext(sorted: seq<Rect>, extents: seq<Rect>, firsts: seq<nat>, start: nat, next: nat)
    requires Picked(sorted, extents, firsts, start) && start < next && start < |sorted|
    ensures Picked(sorted, extents + [sorted[start]], firsts + [start], next)
  {
    var e, f := extents + [sorted[start]], firsts + [start];
    forall k | 0 <= k < |f|
      ensures f[k] < next && f[k] < |sorted| && e[k] == sorted[f[k]]
    {
      if k < |firsts| {
        assert f[k] == firsts[k] && e[k] == extents[k];
      }
    }
    forall k, l | 0 <= k < l < |f|
      ensures f[k] < f[l]
    {
      assert f[k] == firsts[k];
      if l < |firsts| {
        assert f[l] == firsts[l];
      }
    }
  }

  /** Rectangles picked from distinct ones are distinct, and the next one is not among them. */
  lemma PickedApart(sorted: seq<Rect>, extents: seq<Rect>, firsts: seq<nat>, it: nat)
    requires Picked(sorted, extents, firsts, it) && Distinct(sorted)
    ensures Distinct(extents) && forall e :: e in extents ==> e in sorted
    ensures it < |sorted| ==> sorted[it] !in extents
  {
    forall k, l | 0 <= k < l < |extents|
      ensures extents[k] != extents[l]
    {
      assert sorted[firsts[k]] != sorted[firsts[l]];
    }
    forall e | e in extents
      ensures e in sorted
    {
      var k :| 0 <= k < |extents| && extents[k] == e;
      assert e == sorted[firsts[k]];
    }
    if it < |sorted| {
      forall k | 0 <= k < |extents|
        ensures extents[k] != sorted[it]
      {
        assert firsts[k] < it;
      }
    }
  }

  /**
   * Every rectangle of sorted has its original x, and those not yet reached
   * (from position it on) or absorbed into a run (not among the extents)
   * have their original geometry B.
   */
  ghost predicate Kept(sorted: seq<Rect>, extents: seq<Rect>, B: seq<Box>, it: nat)
    reads set r | r in sorted
  {
    && |B| == |sorted|
    && (forall j :: 0 <= j < |sorted| ==> sorted[j].x == B[j].x)
    && (forall j :: 0 <= j < |sorted| && (it <= j || sorted[j] !in extents) ==> sorted[j].Bounds() == B[j])
  }

  /**
   * One round of the sweep's outer loop: the run starting at position start
   * is merged into its first rectangle, which joins the extents; the result
   * is the position after the run.
   */
  method TakeRun(sorted: seq<Rect>, start: nat, extents: seq<Rect>, ghost B: seq<Box>, ghost firsts: seq<nat>, ghost swept: seq<Box>)
    returns (next: nat, more: seq<Rect>)
    requires start < |sorted| == |B| && Distinct(sorted) && Picked(sorted, extents, firsts, start)
    requires Kept(sorted, extents, B, start)
    requires Boxes(extents) == swept && swept + Sweep(B[start..]) == Sweep(B)
    modifies sorted[start]
    ensures start < next <= |sorted|
    ensures more == extents + [sorted[start]] && Picked(sorted, more, firsts + [start], next)
    ensures Kept(sorted, more, B, next)
    ensures Boxes(more) == swept + [Absorb(B[start], B[start + 1..]).extent]
    ensures swept + [Absorb(B[start], B[start + 1..]).extent] + Sweep(B[next..]) == Sweep(B)
  {
    assert sorted[start] !in extents by {
      PickedApart(sorted, extents, firsts, start);
    }
    ghost var run := Absorb(B[start], B[start + 1..]);
    next := AbsorbRun(sorted, start, B);
    assert Boxes(extents) == swept;
    assert swept + [run.extent] + Sweep(B[next..]) == Sweep(B) by {
      SweptStep(B, swept, start, run, next);
    }
    assert Boxes(extents + [sorted[start]]) == swept + [run.extent] by {
      BoxesAppend(extents, sorted[start]);
    }
    PickedNext(sorted, extents, firsts, start, next);
    more := extents + [sorted[start]];
    assert sorted[start].x == B[start].x by {
      AbsorbContains(B[start], B[start + 1..]);
    }
  }

  /**
   * The outer loop of the sweep over rectangles whose geometry is B: each
   * run of colliding rectangles, in order, is merged into the run's first
   * rectangle, and those first rectangles are the extents.
   */
  method SweepRuns(sorted: seq<Rect>, ghost B: seq<Box>) returns (extents: seq<Rect>)
    requires |sorted| >= 1 && Distinct(sorted) && B == Boxes(sorted)
    modifies set r | r in sorted
    ensures Boxes(extents) == Sweep(B)
    ensures Distinct(extents) && forall e :: e in extents ==> e in sorted
    ensures Kept(sorted, extents, B, |sorted|)
  {
    ghost var firsts: seq<nat> := [];
    ghost var swept: seq<Box> := [];
    extents := [];
    var it: nat := 0;
    while it < |sorted|
      invariant it <= |sorted| && Picked(sorted, extents, firsts, it)
      invariant Kept(sorted, extents, B, it)
      invariant Boxes(extents) == swept
      invariant swept + Sweep(B[it..]) == Sweep(B)
    {
      ghost var extent := Absorb(B[it], B[it + 1..]).extent;
      var start := it;
      it, extents := TakeRun(sorted, start, extents, B, firsts, swept);
      firsts, swept := firsts + [start], swept + [extent];
    }
    PickedApart(sorted, extents, firsts, it);
  }

  /**
   * The sweep of one pass of getRectangleExtents: the extents are the
   * sweep of the rectangles' geometry. The x of every rectangle stays as it
   * was, and the rectangles absorbed into a run keep their geometry.
   */
  method SweepPass(sorted: seq<Rect>) returns (extents: seq<Rect>)
    requires |sorted| >= 1 && Distinct(sorted)
    modifies set r | r in sorted
    ensures Boxes(extents) == Sweep(old(Boxes(sorted)))
    ensures Distinct(extents) && forall e :: e in extents ==> e in sorted
    ensures forall r :: r in sorted && r !in extents ==> r.Bounds() == old(r.Bounds())
    ensures forall r :: r in sorted ==> r.x == old(r.x)
  {
    ghost var B := Boxes(sorted);
    extents := SweepRuns(sorted, B);
    forall r | r in sorted
      ensures r.x == old(r.x) && (r !in extents ==> r.Bounds() == old(r.Bounds()))
    {
      var j :| 0 <= j < |sorted| && sorted[j] == r;
      assert old(r.Bounds()) == B[j];
    }
  }

  /**
   * getRectangleExtents: an empty list fails, one rectangle comes back as
   * it is; otherwise the rectangles are sorted and swept, merging in place,
   * and the extents go round again while their count differs from the count
   * passed in.
   */
  method GetRectangleExtents(previousExtentsCount: int, inputList: seq<Rect>)
    returns (result: Result<seq<Rect>, ExtentsError>)
    requires Distinct(inputList)
    modifies set r | r in inputList
    ensures result.Success? == Extents(previousExtentsCount, old(Boxes(inputList))).Success?
    ensures result.Success? ==> Boxes(result.value) == Extents(previousExtentsCount, old(Boxes(inputList))).value
    ensures result.Success? ==> Distinct(result.value) && forall e :: e in result.value ==> e in inputList
    ensures result.Success? ==> forall r :: r in inputList ==> CoveredBy(old(r.Bounds()), Boxes(result.value))
    ensures forall r :: r in inputList ==> r.x == old(r.x)
    decreases |inputList|, if previousExtentsCount == |inputList| then 0 else 1
  {
    ghost var B := Boxes(inputList);
    if |inputList| < 1 {
      return Failure(EmptyInput);
    } else if |inputList| == 1 {
      result := Success(inputList);
    } else {
      var sortedByOriginX := SortByOriginX(inputList);
      assert forall e :: e in sortedByOriginX <==> e in inputList by {
        forall e
          ensures e in sortedByOriginX <==> e in inputList
        {
          assert e in sortedByOriginX <==> e in multiset(sortedByOriginX);
        }
      }
      var extents := SweepPass(sortedByOriginX);
      var amount := |extents|;
      if previousExtentsCount != amount {
        result := GetRectangleExtents(amount, extents);
      } else {
        result := Success(extents);
      }
    }
    if result.Success? {
      ExtentsCover(previousExtentsCount, B);
      forall r | r in inputList
        ensures CoveredBy(old(r.Bounds()), Boxes(result.value))
      {
        var i :| 0 <= i < |inputList| && inputList[i] == r;
        assert old(r.Bounds()) == B[i];
      }
    }
  }

  // ---------------------------------------------------------------------------
  // Random rectangles.
  // ---------------------------------------------------------------------------

  /**
   * randomInt: `min + rand() % (max - min + 1)`, with the value of rand()
   * given as `draw`. rand() never returns a negative value, and for a
   * non-negative dividend C's truncating remainder and Dafny's agree.
   */
  function RandomInt(min: int, max: int, draw: nat): (r: int)
    requires max - min + 1 != 0
    ensures min <= max ==> min <= r <= max
  {
    min + draw % (max - min + 1)
  }

  /** Every value of the range is the result of some draw. */
  lemma RandomIntReachesRange(min: int, max: int, v: int)
    requires min <= v <= max
    ensures RandomInt(min, max, v - min) == v
  {
  }
}
