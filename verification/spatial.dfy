/** Integer plane geometry used by both assignment engines: coordinates in a
    metric projected frame, squared Euclidean distance, the arg-min that pandas'
    `idxmin` computes, a "first row that matches" search (the order a spatial
    join's matches are read in), and axis-aligned rectangles, the shape of the
    synthetic electoral districts. Real polygons, buffers and centroids are
    parameters of the engines; the rectangles here give them concrete values. */
module Spatial {
  import opened Wrappers

  datatype Coord = Coord(x: int, y: int)

  /** Squared Euclidean distance. It orders candidates exactly as the
      Euclidean distance does, so it has the same arg-min. */
  function SqDist(a: Coord, b: Coord): int
  {
    (a.x - b.x) * (a.x - b.x) + (a.y - b.y) * (a.y - b.y)
  }

  /** `k` is where `idxmin` lands: a minimum of `d`, and the first one. */
  predicate IsFirstMin(d: seq<int>, k: int)
  {
    && 0 <= k < |d|
    && (forall j | 0 <= j < |d| :: d[k] <= d[j])
    && (forall j | 0 <= j < k :: d[k] < d[j])
  }

  /** pandas `Series.idxmin` on a non-empty series: the position of the
      smallest value, ties going to the earliest position. */
  function ArgMin(d: seq<int>): (k: nat)
    requires |d| > 0
    ensures IsFirstMin(d, k)
  {
    if |d| == 1 then 0
    else
      var k := ArgMin(d[..|d| - 1]);
      if d[|d| - 1] < d[k] then |d| - 1 else k
  }

  /** At most one position is the first minimum, so `ArgMin` is the only
      answer `idxmin` can give. */
  lemma FirstMinUnique(d: seq<int>, k1: int, k2: int)
    requires IsFirstMin(d, k1) && IsFirstMin(d, k2)
    ensures k1 == k2
  {
    assert d[k1] <= d[k2] && d[k2] <= d[k1];
  }

  /** The first position below `n`, from `k` on, that satisfies `p`. */
  function FirstFrom(k: nat, n: nat, p: nat -> bool): (r: Option<nat>)
    requires k <= n
    decreases n - k
    ensures r.Some? ==> k <= r.value < n && p(r.value)
    ensures r.Some? ==> forall j | k <= j < r.value :: !p(j)
    ensures r.None? <==> forall j | k <= j < n :: !p(j)
  {
    if k == n then None
    else if p(k) then Some(k)
    else FirstFrom(k + 1, n, p)
  }

  /** The first position below `n` that satisfies `p`, scanning upwards:
      the row a lookup reads when several rows qualify. */
  function First(n: nat, p: nat -> bool): (r: Option<nat>)
    ensures r.Some? ==> r.value < n && p(r.value) && forall j | 0 <= j < r.value :: !p(j)
    ensures r.None? <==> forall j | 0 <= j < n :: !p(j)
  {
    FirstFrom(0, n, p)
  }

  /** An axis-aligned rectangle, closed, given by its lower-left and
      upper-right corners. */
  datatype Rect = Rect(lo: Coord, hi: Coord)

  /** The ring of a rectangle as a polygon lists it: lower-left, then
      counter-clockwise. */
  function Corners(r: Rect): seq<Coord>
  {
    [r.lo, Coord(r.hi.x, r.lo.y), r.hi, Coord(r.lo.x, r.hi.y)]
  }

  predicate InRect(p: Coord, r: Rect)
  {
    r.lo.x <= p.x <= r.hi.x && r.lo.y <= p.y <= r.hi.y
  }

  /** How far `v` lies outside the closed interval [lo, hi]. */
  function Gap(v: int, lo: int, hi: int): nat
  {
    if v < lo then lo - v else if v > hi then v - hi else 0
  }

  /** `p` lies in the rectangle widened by `d` (a round-cornered buffer):
      its distance to the rectangle is at most `d`. */
  predicate InRectBuffer(p: Coord, r: Rect, d: int)
  {
    Gap(p.x, r.lo.x, r.hi.x) * Gap(p.x, r.lo.x, r.hi.x)
      + Gap(p.y, r.lo.y, r.hi.y) * Gap(p.y, r.lo.y, r.hi.y) <= d * d
  }

  /** The buffer obligation for rectangles: a point inside the rectangle is
      inside every buffer of it, and a buffer grows with its distance. */
  lemma InRectIsInBuffer(p: Coord, r: Rect, d: int, e: int)
    requires 0 <= d <= e
    ensures InRect(p, r) ==> InRectBuffer(p, r, d)
    ensures InRectBuffer(p, r, d) ==> InRectBuffer(p, r, e)
  {
    assert d * d <= e * e by {
      assert d * d <= d * e <= e * e;
    }
  }

  /** The centroid of a rectangle: the midpoint of its diagonal, rounded
      down to the integer grid; exact, and at equal distance from opposite
      sides, when the corner sums are even. */
  function Center(r: Rect): (c: Coord)
    ensures (r.lo.x + r.hi.x) % 2 == 0 ==> c.x - r.lo.x == r.hi.x - c.x
    ensures (r.lo.y + r.hi.y) % 2 == 0 ==> c.y - r.lo.y == r.hi.y - c.y
  {
    Coord((r.lo.x + r.hi.x) / 2, (r.lo.y + r.hi.y) / 2)
  }
}
