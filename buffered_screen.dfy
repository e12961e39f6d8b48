/** The dirty-rectangle pipeline of BufferedScreen.cs: a diff pass that
    commits the pending pixels and lists the pixels that changed, and a greedy
    clustering pass that turns that list into update boxes. */
module Buffered {
  import opened Arith

  /** A pixel coordinate (x, y). */
  type Point = (int, int)

  /** An update region: top-left corner (x, y), width w and height h. */
  datatype Box = Box(x: int, y: int, w: int, h: int)

  predicate OnScreen(p: Point, width: int, height: int)
  {
    0 <= p.0 < width && 0 <= p.1 < height
  }

  /** The pixel at (x, y) of a row-major buffer, at offset `y * width + x`. */
  function At(pixels: seq<int>, width: int, height: int, x: int, y: int): int
    requires |pixels| == width * height && OnScreen((x, y), width, height)
  {
    OffsetInBlock(y, x, height, width);
    pixels[y * width + x]
  }

  // ---------------------------------------------------------------------
  // The diff pass
  // ---------------------------------------------------------------------

  /** The changed pixels of row y with x below xEnd, left to right. */
  function RowChanges(committed: seq<int>, pending: seq<int>, width: int, height: int, y: int, xEnd: int): seq<Point>
    requires |committed| == width * height && |pending| == width * height
    requires 0 <= y < height && 0 <= xEnd <= width
    decreases xEnd
  {
    if xEnd == 0 then []
    else
      var x := xEnd - 1;
      RowChanges(committed, pending, width, height, y, x)
      + (if At(pending, width, height, x, y) != At(committed, width, height, x, y) then [(x, y)] else [])
  }

  /** The changed pixels of the rows above yEnd, top to bottom. */
  function Changes(committed: seq<int>, pending: seq<int>, width: int, height: int, yEnd: int): seq<Point>
    requires |committed| == width * height && |pending| == width * height
    requires 0 <= yEnd <= height && width >= 0
    decreases yEnd
  {
    if yEnd == 0 then []
    else Changes(committed, pending, width, height, yEnd - 1) + RowChanges(committed, pending, width, height, yEnd - 1, width)
  }

  /** Every pixel where the pending buffer differs from the committed one, in
      row-major order. */
  function ChangedPixels(committed: seq<int>, pending: seq<int>, width: int, height: int): seq<Point>
    requires |committed| == width * height && |pending| == width * height
    requires width >= 0 && height >= 0
  {
    Changes(committed, pending, width, height, height)
  }

  /** `a` comes strictly before `b` in row-major order (y first, then x). */
  predicate RowMajorBefore(a: Point, b: Point)
  {
    a.1 < b.1 || (a.1 == b.1 && a.0 < b.0)
  }

  predicate RowMajorSorted(s: seq<Point>)
  {
    forall i, j :: 0 <= i < j < |s| ==> RowMajorBefore(s[i], s[j])
  }

  lemma SortedConcat(a: seq<Point>, b: seq<Point>)
    requires RowMajorSorted(a) && RowMajorSorted(b)
    requires forall p, q :: p in a && q in b ==> RowMajorBefore(p, q)
    ensures RowMajorSorted(a + b)
  {
    forall i, j | 0 <= i < j < |a + b|
      ensures RowMajorBefore((a + b)[i], (a + b)[j])
    {
      if j < |a| {
      } else if i >= |a| {
        assert (a + b)[i] == b[i - |a|] && (a + b)[j] == b[j - |a|];
      } else {
        assert (a + b)[i] in a && (a + b)[j] in b;
      }
    }
  }

  lemma {:induction false} RowChangesExact(committed: seq<int>, pending: seq<int>, width: int, height: int, y: int, xEnd: int)
    requires |committed| == width * height && |pending| == width * height
    requires 0 <= y < height && 0 <= xEnd <= width
    ensures forall p :: p in RowChanges(committed, pending, width, height, y, xEnd) <==>
      p.1 == y && 0 <= p.0 < xEnd && At(pending, width, height, p.0, y) != At(committed, width, height, p.0, y)
    ensures RowMajorSorted(RowChanges(committed, pending, width, height, y, xEnd))
    decreases xEnd
  {
    if xEnd > 0 {
      var x := xEnd - 1;
      var front := RowChanges(committed, pending, width, height, y, x);
      var last: seq<Point> := if At(pending, width, height, x, y) != At(committed, width, height, x, y) then [(x, y)] else [];
      RowChangesExact(committed, pending, width, height, y, x);
      assert RowChanges(committed, pending, width, height, y, xEnd) == front + last;
      forall p, q | p in front && q in last
        ensures RowMajorBefore(p, q)
      {
      }
      SortedConcat(front, last);
    }
  }

  lemma {:induction false} ChangesExact(committed: seq<int>, pending: seq<int>, width: int, height: int, yEnd: int)
    requires |committed| == width * height && |pending| == width * height
    requires 0 <= yEnd <= height && width >= 0
    ensures forall p :: p in Changes(committed, pending, width, height, yEnd) <==>
      OnScreen(p, width, yEnd) && At(pending, width, height, p.0, p.1) != At(committed, width, height, p.0, p.1)
    ensures RowMajorSorted(Changes(committed, pending, width, height, yEnd))
    decreases yEnd
  {
    if yEnd > 0 {
      var front := Changes(committed, pending, width, height, yEnd - 1);
      var row := RowChanges(committed, pending, width, height, yEnd - 1, width);
      ChangesExact(committed, pending, width, height, yEnd - 1);
      RowChangesExact(committed, pending, width, height, yEnd - 1, width);
      forall p, q | p in front && q in row
        ensures RowMajorBefore(p, q)
      {
      }
      SortedConcat(front, row);
    }
  }

  /** The diff lists exactly the on-screen pixels whose pending value differs
      from the committed one, in row-major order and so without repeats. */
  lemma ChangedPixelsExact(committed: seq<int>, pending: seq<int>, width: int, height: int)
    requires |committed| == width * height && |pending| == width * height
    requires width >= 0 && height >= 0
    ensures forall p :: p in ChangedPixels(committed, pending, width, height) <==>
      OnScreen(p, width, height) && At(pending, width, height, p.0, p.1) != At(committed, width, height, p.0, p.1)
    ensures RowMajorSorted(ChangedPixels(committed, pending, width, height))
    ensures forall i, j :: 0 <= i < j < |ChangedPixels(committed, pending, width, height)| ==>
      ChangedPixels(committed, pending, width, height)[i] != ChangedPixels(committed, pending, width, height)[j]
  {
    ChangesExact(committed, pending, width, height, height);
  }

  /** Once committed, a second diff against the same pending pixels is empty. */
  lemma NoChangesAfterCommit(pixels: seq<int>, width: int, height: int)
    requires |pixels| == width * height && width >= 0 && height >= 0
    ensures ChangedPixels(pixels, pixels, width, height) == []
  {
    NoChanges(pixels, width, height, height);
  }

  lemma {:induction false} NoChanges(pixels: seq<int>, width: int, height: int, yEnd: int)
    requires |pixels| == width * height && 0 <= yEnd <= height && width >= 0
    ensures Changes(pixels, pixels, width, height, yEnd) == []
    decreases yEnd
  {
    if yEnd > 0 {
      NoChanges(pixels, width, height, yEnd - 1);
      NoRowChanges(pixels, width, height, yEnd - 1, width);
    }
  }

  lemma {:induction false} NoRowChanges(pixels: seq<int>, width: int, height: int, y: int, xEnd: int)
    requires |pixels| == width * height && 0 <= y < height && 0 <= xEnd <= width
    ensures RowChanges(pixels, pixels, width, height, y, xEnd) == []
    decreases xEnd
  {
    if xEnd > 0 {
      NoRowChanges(pixels, width, height, y, xEnd - 1);
    }
  }

  // ---------------------------------------------------------------------
  // The merge pass
  // ---------------------------------------------------------------------

  /** `p` is within radX columns and radY rows of the seed. */
  predicate Near(seed: Point, p: Point, radX: int, radY: int)
  {
    Abs(seed.0 - p.0) <= radX && Abs(seed.1 - p.1) <= radY
  }

  /** The points of `snapshot[1..j]` near the seed, in scan order: what one
      round absorbs by the time its scan reaches index j.  The scan starts at
      index 1, so `snapshot[0]` is never among them. */
  function Absorbed(seed: Point, snapshot: seq<Point>, j: int, radX: int, radY: int): seq<Point>
    requires 0 <= j <= Max(1, |snapshot|)
    decreases j
  {
    if j <= 1 then []
    else
      Absorbed(seed, snapshot, j - 1, radX, radY)
      + (if Near(seed, snapshot[j - 1], radX, radY) then [snapshot[j - 1]] else [])
  }

  /** `List.Remove`: drops the first element equal to `v`, if any. */
  function RemoveFirst(s: seq<Point>, v: Point): (r: seq<Point>)
    ensures |r| <= |s|
  {
    if s == [] then []
    else if s[0] == v then s[1..]
    else [s[0]] + RemoveFirst(s[1..], v)
  }

  /** `List.Remove` takes away exactly one occurrence of a present value and
      leaves the list alone otherwise. */
  lemma {:induction false} RemoveFirstRemovesOne(s: seq<Point>, v: Point)
    ensures v in s ==> multiset(RemoveFirst(s, v)) == multiset(s) - multiset{v} && |RemoveFirst(s, v)| == |s| - 1
    ensures v !in s ==> RemoveFirst(s, v) == s
  {
    if s != [] {
      assert s == [s[0]] + s[1..];
      if s[0] != v {
        RemoveFirstRemovesOne(s[1..], v);
      }
    }
  }

  /** Removes each of `vs`, in order, from `s`. */
  function RemoveEach(s: seq<Point>, vs: seq<Point>): (r: seq<Point>)
    ensures |r| <= |s|
    decreases |vs|
  {
    if vs == [] then s else RemoveFirst(RemoveEach(s, vs[..|vs| - 1]), vs[|vs| - 1])
  }

  /** One round of the clustering loop: its seed and the points it absorbed. */
  datatype Round = Round(seed: Point, absorbed: seq<Point>)

  /** The rounds getUpdatedBoxes runs on `pool`: take the first point as the
      seed, absorb the near points of the rest from index 1 on, repeat on
      what is left. */
  function Rounds(pool: seq<Point>, radX: int, radY: int): (r: seq<Round>)
    ensures r == [] <==> pool == []
    ensures pool != [] ==> r[0].seed == pool[0]
    decreases |pool|
  {
    if pool == [] then []
    else
      var seed := pool[0];
      var snapshot := pool[1..];
      var absorbed := Absorbed(seed, snapshot, |snapshot|, radX, radY);
      [Round(seed, absorbed)] + Rounds(RemoveEach(snapshot, absorbed), radX, radY)
  }

  /** The running (minX, minY, maxX, maxY) of the seed and the absorbed points. */
  function Bounds(seed: Point, pts: seq<Point>): (int, int, int, int)
    decreases |pts|
  {
    if pts == [] then (seed.0, seed.1, seed.0, seed.1)
    else
      var b := Bounds(seed, pts[..|pts| - 1]);
      var p := pts[|pts| - 1];
      (Min(p.0, b.0), Min(p.1, b.1), Max(p.0, b.2), Max(p.1, b.3))
  }

  /** The box a round emits: `(minX, minY, maxX - minX + 1, maxY - minY + 1)`. */
  function BoxOf(r: Round): Box
  {
    var b := Bounds(r.seed, r.absorbed);
    Box(b.0, b.1, b.2 - b.0 + 1, b.3 - b.1 + 1)
  }

  function BoxesOf(rs: seq<Round>): (boxes: seq<Box>)
    ensures |boxes| == |rs|
  {
    if rs == [] then [] else [BoxOf(rs[0])] + BoxesOf(rs[1..])
  }

  predicate Contains(b: Box, p: Point)
  {
    b.x <= p.0 < b.x + b.w && b.y <= p.1 < b.y + b.h
  }

  /** Every point a round holds, seed first. */
  function Members(r: Round): seq<Point>
  {
    [r.seed] + r.absorbed
  }

  /** All the points the rounds hold, round after round. */
  function Consumed(rs: seq<Round>): seq<Point>
  {
    if rs == [] then [] else Members(rs[0]) + Consumed(rs[1..])
  }

  lemma {:induction false} BoundsCover(seed: Point, pts: seq<Point>)
    ensures var b := Bounds(seed, pts);
      b.0 <= seed.0 <= b.2 && b.1 <= seed.1 <= b.3
      && forall p :: p in pts ==> b.0 <= p.0 <= b.2 && b.1 <= p.1 <= b.3
    decreases |pts|
  {
    if pts != [] {
      var front := pts[..|pts| - 1];
      BoundsCover(seed, front);
      assert pts == front + [pts[|pts| - 1]];
    }
  }

  /** Bounds attained by the seed or by some absorbed point stay within any
      rectangle holding them all. */
  lemma {:induction false} BoundsWithin(seed: Point, pts: seq<Point>, lo: Point, hi: Point)
    requires lo.0 <= seed.0 <= hi.0 && lo.1 <= seed.1 <= hi.1
    requires forall p :: p in pts ==> lo.0 <= p.0 <= hi.0 && lo.1 <= p.1 <= hi.1
    ensures var b := Bounds(seed, pts);
      lo.0 <= b.0 && b.2 <= hi.0 && lo.1 <= b.1 && b.3 <= hi.1
    decreases |pts|
  {
    if pts != [] {
      var front := pts[..|pts| - 1];
      assert forall p :: p in front ==> p in pts;
      BoundsWithin(seed, front, lo, hi);
    }
  }

  /** Every point of a round lies inside the box it emits, and that box is
      at least one pixel wide and high. */
  lemma RoundInsideItsBox(r: Round)
    ensures BoxOf(r).w >= 1 && BoxOf(r).h >= 1
    ensures forall p :: p in Members(r) ==> Contains(BoxOf(r), p)
  {
    BoundsCover(r.seed, r.absorbed);
  }

  /** A round whose absorbed points are all near its seed emits a box at most
      2 * radX + 1 wide and 2 * radY + 1 high. */
  lemma ClusterBoxSize(r: Round, radX: int, radY: int)
    requires radX >= 0 && radY >= 0
    requires forall p :: p in r.absorbed ==> Near(r.seed, p, radX, radY)
    ensures BoxOf(r).w <= 2 * radX + 1 && BoxOf(r).h <= 2 * radY + 1
  {
    BoundsWithin(r.seed, r.absorbed, (r.seed.0 - radX, r.seed.1 - radY), (r.seed.0 + radX, r.seed.1 + radY));
  }

  lemma SliceSnoc<T>(s: seq<T>, i: int, j: int)
    requires 0 <= i <= j < |s|
    ensures s[i..j + 1] == s[i..j] + [s[j]]
  {
  }

  lemma HeadTail<T>(s: seq<T>)
    requires |s| >= 1
    ensures s[1..|s|] == s[1..]
    ensures multiset(s) == multiset{s[0]} + multiset(s[1..])
  {
    assert s == [s[0]] + s[1..];
  }

  lemma {:induction false} AbsorbedFromSnapshot(seed: Point, snapshot: seq<Point>, j: int, radX: int, radY: int)
    requires 1 <= j <= |snapshot|
    ensures multiset(Absorbed(seed, snapshot, j, radX, radY)) <= multiset(snapshot[1..j])
    decreases j
  {
    if j > 1 {
      AbsorbedFromSnapshot(seed, snapshot, j - 1, radX, radY);
      var last := snapshot[j - 1];
      var added := if Near(seed, last, radX, radY) then [last] else [];
      assert Absorbed(seed, snapshot, j, radX, radY) == Absorbed(seed, snapshot, j - 1, radX, radY) + added;
      assert multiset(added) <= multiset{last};
      SliceSnoc(snapshot, 1, j - 1);
      assert multiset(snapshot[1..j]) == multiset(snapshot[1..j - 1]) + multiset{last};
    }
  }

  lemma {:induction false} AbsorbedNear(seed: Point, snapshot: seq<Point>, j: int, radX: int, radY: int)
    requires 0 <= j <= Max(1, |snapshot|)
    ensures forall p :: p in Absorbed(seed, snapshot, j, radX, radY) ==> Near(seed, p, radX, radY)
    decreases j
  {
    if j > 1 {
      AbsorbedNear(seed, snapshot, j - 1, radX, radY);
    }
  }

  /** A round absorbs only near points of the pool after its seed, never
      the first of them. */
  lemma AbsorbedFromTail(seed: Point, snapshot: seq<Point>, radX: int, radY: int)
    ensures multiset(Absorbed(seed, snapshot, |snapshot|, radX, radY)) <= multiset(snapshot)
    ensures |snapshot| >= 1 ==>
      multiset(Absorbed(seed, snapshot, |snapshot|, radX, radY)) <= multiset(snapshot) - multiset{snapshot[0]}
    ensures forall p :: p in Absorbed(seed, snapshot, |snapshot|, radX, radY) ==> Near(seed, p, radX, radY)
  {
    AbsorbedNear(seed, snapshot, |snapshot|, radX, radY);
    if |snapshot| >= 1 {
      AbsorbedFromSnapshot(seed, snapshot, |snapshot|, radX, radY);
      HeadTail(snapshot);
    }
  }

  lemma {:induction false} RemoveEachMultiset(s: seq<Point>, vs: seq<Point>)
    requires multiset(vs) <= multiset(s)
    ensures multiset(RemoveEach(s, vs)) == multiset(s) - multiset(vs)
    decreases |vs|
  {
    if vs != [] {
      var front, v := vs[..|vs| - 1], vs[|vs| - 1];
      assert vs == front + [v];
      RemoveEachMultiset(s, front);
      assert v in multiset(RemoveEach(s, front));
      RemoveFirstRemovesOne(RemoveEach(s, front), v);
    }
  }

  /** The rounds consume the pool exactly: every input point is a seed or an
      absorbed point of exactly one round, as many times as it occurs. */
  lemma {:induction false} RoundsConsumeEachOnce(pool: seq<Point>, radX: int, radY: int)
    ensures multiset(Consumed(Rounds(pool, radX, radY))) == multiset(pool)
    decreases |pool|
  {
    if pool != [] {
      var rest := FirstRound(pool, radX, radY);
      RoundsConsumeEachOnce(rest, radX, radY);
    }
  }

  /** The first round of `pool`: what it consumes and what it leaves. */
  lemma FirstRound(pool: seq<Point>, radX: int, radY: int) returns (rest: seq<Point>)
    requires pool != []
    ensures |rest| < |pool|
    ensures Rounds(pool, radX, radY)[1..] == Rounds(rest, radX, radY)
    ensures multiset(Consumed(Rounds(pool, radX, radY))) == multiset(Members(Rounds(pool, radX, radY)[0])) + multiset(Consumed(Rounds(rest, radX, radY)))
    ensures multiset(pool) == multiset(Members(Rounds(pool, radX, radY)[0])) + multiset(rest)
  {
    var seed, snapshot := pool[0], pool[1..];
    var absorbed := Absorbed(seed, snapshot, |snapshot|, radX, radY);
    rest := RemoveEach(snapshot, absorbed);
    var rs := Rounds(pool, radX, radY);
    assert rs == [Round(seed, absorbed)] + Rounds(rest, radX, radY);
    assert Consumed(rs) == Members(rs[0]) + Consumed(rs[1..]);
    AbsorbedFromTail(seed, snapshot, radX, radY);
    RemoveEachMultiset(snapshot, absorbed);
    SplitPool(pool, Members(rs[0]), snapshot, absorbed, rest);
  }

  lemma SplitPool(pool: seq<Point>, members: seq<Point>, snapshot: seq<Point>, absorbed: seq<Point>, rest: seq<Point>)
    requires pool != [] && snapshot == pool[1..] && members == [pool[0]] + absorbed
    requires multiset(absorbed) <= multiset(snapshot)
    requires multiset(rest) == multiset(snapshot) - multiset(absorbed)
    ensures multiset(pool) == multiset(members) + multiset(rest)
  {
    assert pool == [pool[0]] + snapshot;
  }

  /** Each round's absorbed points are near its seed and come from the pool. */
  lemma {:induction false} RoundsAreClusters(pool: seq<Point>, radX: int, radY: int)
    ensures forall r :: r in Rounds(pool, radX, radY) ==>
      forall p :: p in r.absorbed ==> Near(r.seed, p, radX, radY)
    decreases |pool|
  {
    if pool != [] {
      var seed, snapshot := pool[0], pool[1..];
      var absorbed := Absorbed(seed, snapshot, |snapshot|, radX, radY);
      AbsorbedFromTail(seed, snapshot, radX, radY);
      RoundsAreClusters(RemoveEach(snapshot, absorbed), radX, radY);
    }
  }

  lemma {:induction false} ConsumedMembers(rs: seq<Round>, i: int)
    requires 0 <= i < |rs|
    ensures forall p :: p in Members(rs[i]) ==> p in Consumed(rs)
  {
    if i > 0 {
      ConsumedMembers(rs[1..], i - 1);
    }
  }

  /** Completeness: every input point lies inside the box of the round that
      consumed it, and every round holds only input points. */
  lemma MergeCoversInput(pool: seq<Point>, radX: int, radY: int)
    ensures forall p :: p in pool ==>
      exists i :: 0 <= i < |Rounds(pool, radX, radY)| && p in Members(Rounds(pool, radX, radY)[i])
        && Contains(BoxesOf(Rounds(pool, radX, radY))[i], p)
    ensures forall i :: 0 <= i < |Rounds(pool, radX, radY)| ==>
      forall p :: p in Members(Rounds(pool, radX, radY)[i]) ==> p in pool
  {
    var rs := Rounds(pool, radX, radY);
    RoundsConsumeEachOnce(pool, radX, radY);
    forall p | p in pool
      ensures exists i :: 0 <= i < |rs| && p in Members(rs[i]) && Contains(BoxesOf(rs)[i], p)
    {
      assert p in multiset(Consumed(rs));
      var i := ConsumedRound(rs, p);
      RoundInsideItsBox(rs[i]);
      BoxesOfAt(rs, i);
    }
    forall i | 0 <= i < |rs|
      ensures forall p :: p in Members(rs[i]) ==> p in pool
    {
      ConsumedMembers(rs, i);
      forall p | p in Members(rs[i]) ensures p in pool {
        assert p in multiset(Consumed(rs));
      }
    }
  }

  lemma {:induction false} ConsumedRound(rs: seq<Round>, p: Point) returns (i: int)
    requires p in Consumed(rs)
    ensures 0 <= i < |rs| && p in Members(rs[i])
  {
    if p in Members(rs[0]) {
      i := 0;
    } else {
      i := ConsumedRound(rs[1..], p);
      i := i + 1;
    }
  }

  lemma {:induction false} BoxesOfAt(rs: seq<Round>, i: int)
    requires 0 <= i < |rs|
    ensures BoxesOf(rs)[i] == BoxOf(rs[i])
  {
    if i > 0 {
      BoxesOfAt(rs[1..], i - 1);
    }
  }

  /** No points, no boxes; never more boxes than points; and, because the
      scan skips the point right after the seed, two or more points always
      give two or more boxes, however large the radii. */
  lemma {:induction false} RoundCount(pool: seq<Point>, radX: int, radY: int)
    ensures |Rounds(pool, radX, radY)| <= |pool|
    ensures Rounds(pool, radX, radY) == [] <==> pool == []
    ensures |pool| >= 2 ==> |Rounds(pool, radX, radY)| >= 2
    decreases |pool|
  {
    if pool != [] {
      var seed, snapshot := pool[0], pool[1..];
      var absorbed := Absorbed(seed, snapshot, |snapshot|, radX, radY);
      var rest := RemoveEach(snapshot, absorbed);
      RoundCount(rest, radX, radY);
      if |pool| >= 2 {
        AbsorbedFromTail(seed, snapshot, radX, radY);
        RemoveEachMultiset(snapshot, absorbed);
        assert snapshot[0] in multiset(rest);
      }
    }
  }

  /** Without repeated points, the point right after the seed is never
      absorbed in that round: it is the next round's seed. */
  lemma SecondSeedIsSecondPoint(pool: seq<Point>, radX: int, radY: int)
    requires |pool| >= 2
    requires forall i, j :: 0 <= i < j < |pool| ==> pool[i] != pool[j]
    ensures |Rounds(pool, radX, radY)| >= 2 && Rounds(pool, radX, radY)[1].seed == pool[1]
  {
    var seed, snapshot := pool[0], pool[1..];
    var absorbed := Absorbed(seed, snapshot, |snapshot|, radX, radY);
    AbsorbedFromSnapshot(seed, snapshot, |snapshot|, radX, radY);
    assert snapshot[0] !in absorbed by {
      forall k | 1 <= k < |snapshot| ensures snapshot[k] != snapshot[0] {
        assert snapshot[k] == pool[k + 1];
      }
      assert snapshot[1..|snapshot|] == snapshot[1..];
      assert snapshot[0] !in multiset(snapshot[1..]);
      assert snapshot[0] !in multiset(absorbed);
    }
    RemoveEachKeepsHead(snapshot, absorbed);
    RoundCount(pool, radX, radY);
  }

  lemma {:induction false} RemoveEachKeepsHead(s: seq<Point>, vs: seq<Point>)
    requires |s| >= 1 && s[0] !in vs
    ensures |RemoveEach(s, vs)| >= 1 && RemoveEach(s, vs)[0] == s[0]
    decreases |vs|
  {
    if vs != [] {
      var front := vs[..|vs| - 1];
      assert forall v :: v in front ==> v in vs;
      RemoveEachKeepsHead(s, front);
      var t := RemoveEach(s, front);
      assert t == [t[0]] + t[1..];
    }
  }

  /** Points on screen give boxes on screen. */
  lemma MergedBoxesOnScreen(pool: seq<Point>, radX: int, radY: int, width: int, height: int)
    requires forall p :: p in pool ==> OnScreen(p, width, height)
    ensures forall b :: b in BoxesOf(Rounds(pool, radX, radY)) ==>
      0 <= b.x && 0 <= b.y && b.x + b.w <= width && b.y + b.h <= height
  {
    var rs := Rounds(pool, radX, radY);
    MergeCoversInput(pool, radX, radY);
    forall b | b in BoxesOf(rs)
      ensures 0 <= b.x && 0 <= b.y && b.x + b.w <= width && b.y + b.h <= height
    {
      var i :| 0 <= i < |rs| && BoxesOf(rs)[i] == b;
      BoxesOfAt(rs, i);
      assert rs[i].seed in Members(rs[i]);
      assert forall p :: p in rs[i].absorbed ==> p in Members(rs[i]);
      BoundsWithin(rs[i].seed, rs[i].absorbed, (0, 0), (width - 1, height - 1));
    }
  }

  /** Absorbing one more point: what the pool and the running bounds become. */
  lemma SnocStep(s: seq<Point>, seed: Point, absorbed: seq<Point>, p: Point)
    ensures RemoveEach(s, absorbed + [p]) == RemoveFirst(RemoveEach(s, absorbed), p)
    ensures var b := Bounds(seed, absorbed);
      Bounds(seed, absorbed + [p]) == (Min(p.0, b.0), Min(p.1, b.1), Max(p.0, b.2), Max(p.1, b.3))
  {
    assert (absorbed + [p])[..|absorbed|] == absorbed;
  }

  lemma AbsorbedNext(seed: Point, snapshot: seq<Point>, j: int, radX: int, radY: int)
    requires 1 <= j < |snapshot|
    ensures Absorbed(seed, snapshot, j + 1, radX, radY)
      == Absorbed(seed, snapshot, j, radX, radY) + (if Near(seed, snapshot[j], radX, radY) then [snapshot[j]] else [])
  {
  }

  /** The box of a round is read off its running bounds. */
  lemma BoxOfBounds(seed: Point, absorbed: seq<Point>, mx: int, my: int, Mx: int, My: int)
    requires (mx, my, Mx, My) == Bounds(seed, absorbed)
    ensures BoxOf(Round(seed, absorbed)) == Box(mx, my, (Mx - mx) + 1, (My - my) + 1)
  {
  }

  /** One round of the outer loop: the box it emits, then the rest. */
  lemma RoundsStep(pool: seq<Point>, radX: int, radY: int)
    requires pool != []
    ensures var absorbed := Absorbed(pool[0], pool[1..], |pool| - 1, radX, radY);
      BoxesOf(Rounds(pool, radX, radY))
        == [BoxOf(Round(pool[0], absorbed))] + BoxesOf(Rounds(RemoveEach(pool[1..], absorbed), radX, radY))
  {
  }

  // ---------------------------------------------------------------------
  // The screen object
  // ---------------------------------------------------------------------

  /** A screen with a committed buffer (what the device shows) and a pending
      buffer (what was drawn since), both row-major with `Width` pixels a row. */
  class BufferedScreen {
    const Width: int
    const Height: int
    /** The committed pixels, `_screenBuffer`. */
    const screenBuffer: array<int>
    /** The pending pixels, `_tmpBuffer`, which drawing writes to. */
    const tmpBuffer: array<int>

    ghost predicate Valid()
    {
      Width >= 0 && Height >= 0 && screenBuffer != tmpBuffer
      && screenBuffer.Length == Width * Height && tmpBuffer.Length == Width * Height
    }

    /** Both buffers start cleared to the background colour. */
    constructor(width: int, height: int, background: int)
      requires width >= 0 && height >= 0
      ensures Valid() && fresh(screenBuffer) && fresh(tmpBuffer)
      ensures Width == width && Height == height
      ensures forall i :: 0 <= i < width * height ==> screenBuffer[i] == background && tmpBuffer[i] == background
    {
      Width := width;
      Height := height;
      MulNonNegative(width, height);
      screenBuffer := new int[width * height](_ => background);
      tmpBuffer := new int[width * height](_ => background);
    }

    /** updateScreenBufferAndGetDiffs: copies every differing pending pixel
        into the committed buffer and lists the changed coordinates. */
    method UpdateScreenBufferAndGetDiffs() returns (diffs: seq<Point>)
      requires Valid()
      modifies screenBuffer
      ensures screenBuffer[..] == tmpBuffer[..] && unchanged(tmpBuffer)
      ensures diffs == ChangedPixels(old(screenBuffer[..]), tmpBuffer[..], Width, Height)
    {
      ghost var committed := screenBuffer[..];
      ghost var pending := tmpBuffer[..];
      diffs := [];
      var W, H := Width, Height;
      for y := 0 to H
        invariant diffs == Changes(committed, pending, W, H, y)
        invariant 0 <= y * W <= W * H
        invariant forall k :: 0 <= k < y * W ==> screenBuffer[k] == pending[k]
        invariant forall k :: y * W <= k < W * H ==> screenBuffer[k] == committed[k]
      {
        var rowStart := y * W;
        assert rowStart + W == (y + 1) * W;
        if W > 0 {
          OffsetInBlock(y, W - 1, H, W);
          assert H * W == W * H;
        }
        var rowDiffs := UpdateRow(y, rowStart, committed);
        diffs := diffs + rowDiffs;
      }
      assert screenBuffer[..] == pending;
    }

    /** One row of the diff pass: every pixel of row y that differs is
        copied into the committed buffer and listed, left to right. */
    method UpdateRow(y: int, rowStart: int, ghost committed: seq<int>) returns (rowDiffs: seq<Point>)
      requires Valid() && 0 <= y < Height && |committed| == Width * Height
      requires rowStart == y * Width && 0 <= rowStart && rowStart + Width <= Width * Height
      requires forall k :: rowStart <= k < Width * Height ==> screenBuffer[k] == committed[k]
      modifies screenBuffer
      ensures unchanged(tmpBuffer)
      ensures rowDiffs == RowChanges(committed, tmpBuffer[..], Width, Height, y, Width)
      ensures forall k :: 0 <= k < rowStart ==> screenBuffer[k] == old(screenBuffer[k])
      ensures forall k :: rowStart <= k < rowStart + Width ==> screenBuffer[k] == tmpBuffer[k]
      ensures forall k :: rowStart + Width <= k < Width * Height ==> screenBuffer[k] == committed[k]
    {
      ghost var pending := tmpBuffer[..];
      rowDiffs := [];
      for x := 0 to Width
        invariant rowDiffs == RowChanges(committed, pending, Width, Height, y, x)
        invariant forall k :: 0 <= k < rowStart ==> screenBuffer[k] == old(screenBuffer[k])
        invariant forall k :: rowStart <= k < rowStart + x ==> screenBuffer[k] == pending[k]
        invariant forall k :: rowStart + x <= k < Width * Height ==> screenBuffer[k] == committed[k]
      {
        OffsetInBlock(y, x, Height, Width);
        var offset := rowStart + x;
        var newColor := tmpBuffer[offset];
        assert newColor == At(pending, Width, Height, x, y);
        assert screenBuffer[offset] == At(committed, Width, Height, x, y);
        if newColor != screenBuffer[offset] {
          screenBuffer[offset] := newColor;
          rowDiffs := rowDiffs + [(x, y)];
        }
      }
    }

    /** getUpdatedBoxes: the greedy clustering of the changed points. */
    method GetUpdatedBoxes(diffs: seq<Point>, radX: int, radY: int) returns (boxes: seq<Box>)
      ensures boxes == BoxesOf(Rounds(diffs, radX, radY))
    {
      boxes := [];
      var pool := diffs;
      while |pool| > 0
        invariant boxes + BoxesOf(Rounds(pool, radX, radY)) == BoxesOf(Rounds(diffs, radX, radY))
        decreases |pool|
      {
        ghost var before := pool;
        var center := pool[0];
        pool := pool[1..];
        ghost var absorbed := Absorbed(center, pool, |pool|, radX, radY);
        var mx, my, Mx, My;
        pool, mx, my, Mx, My := ScanNeighbours(center, pool, radX, radY);
        var box := Box(mx, my, (Mx - mx) + 1, (My - my) + 1);
        BoxOfBounds(center, absorbed, mx, my, Mx, My);
        RoundsStep(before, radX, radY);
        assert BoxesOf(Rounds(before, radX, radY)) == [box] + BoxesOf(Rounds(pool, radX, radY));
        boxes := boxes + [box];
      }
    }

    /** The inner scan of one round of getUpdatedBoxes: from index 1 on, every
        point of `remaining` near the seed leaves the pool and widens the
        running bounds. */
    method ScanNeighbours(center: Point, remaining: seq<Point>, radX: int, radY: int)
      returns (pool: seq<Point>, mx: int, my: int, Mx: int, My: int)
      ensures pool == RemoveEach(remaining, Absorbed(center, remaining, |remaining|, radX, radY))
      ensures (mx, my, Mx, My) == Bounds(center, Absorbed(center, remaining, |remaining|, radX, radY))
    {
      pool := remaining;
      var cx, cy := center.0, center.1;
      mx, my, Mx, My := cx, cy, cx, cy;
      ghost var absorbed: seq<Point> := [];
      var j := 1;
      while j < |remaining|
        invariant 1 <= j <= Max(1, |remaining|)
        invariant absorbed == Absorbed(center, remaining, j, radX, radY)
        invariant pool == RemoveEach(remaining, absorbed)
        invariant (mx, my, Mx, My) == Bounds(center, absorbed)
      {
        var neighbor := remaining[j];
        var nx, ny := neighbor.0, neighbor.1;
        var dx, dy := Abs(cx - nx), Abs(cy - ny);
        AbsorbedNext(center, remaining, j, radX, radY);
        if dx <= radX && dy <= radY {
          SnocStep(remaining, center, absorbed, neighbor);
          absorbed := absorbed + [neighbor];
          pool := RemoveFirst(pool, neighbor);
          mx := Min(nx, mx);
          my := Min(ny, my);
          Mx := Max(nx, Mx);
          My := Max(ny, My);
        }
        j := j + 1;
      }
      if |remaining| > 0 {
        assert j == |remaining|;
      }
    }

    /** Flush: commit and diff, cluster, then dispatch the boxes in order
        (each dispatch reads its box out of the pending buffer). */
    method Flush(radX: int := 32, radY: int := 32) returns (sent: seq<Box>)
      requires Valid()
      modifies screenBuffer
      ensures screenBuffer[..] == tmpBuffer[..] && unchanged(tmpBuffer)
      ensures sent == BoxesOf(Rounds(ChangedPixels(old(screenBuffer[..]), tmpBuffer[..], Width, Height), radX, radY))
      ensures forall b :: b in sent ==> 0 <= b.x && 0 <= b.y && b.x + b.w <= Width && b.y + b.h <= Height
    {
      var diffs := UpdateScreenBufferAndGetDiffs();
      var updates := GetUpdatedBoxes(diffs, radX, radY);
      ChangedPixelsExact(old(screenBuffer[..]), tmpBuffer[..], Width, Height);
      MergedBoxesOnScreen(diffs, radX, radY, Width, Height);
      sent := [];
      for i := 0 to |updates|
        invariant sent == updates[..i]
      {
        sent := sent + [updates[i]];
      }
    }
  }
}
