/**
 * Integer plane geometry used by the surface: points, sizes, rectangles and
 * regions (the toolkit's QPoint, QSize, QRect and QRegion).
 *
 * A region is kept the way the toolkit keeps it, as a list of rectangles; its
 * meaning is the set of points covered by at least one of them (`Contains`).
 * Two regions with the same points are the same region as far as any client
 * of the surface can tell, which is why all properties below are stated with
 * `Contains`.
 */
module Geometry {

  datatype Point = Point(x: int, y: int)

  /** The origin, QPoint(); `IsNull` is QPoint::isNull. */
  const Origin := Point(0, 0)

  predicate IsNull(p: Point) {
    p.x == 0 && p.y == 0
  }

  datatype Size = Size(width: int, height: int)

  /** A default-constructed QSize is invalid: (-1, -1). */
  const InvalidSize := Size(-1, -1)

  /** QRect(x, y, width, height): the points x <= px < x + width, y <= py < y + height. */
  datatype Rect = Rect(x: int, y: int, width: int, height: int)

  predicate InRect(r: Rect, p: Point) {
    r.x <= p.x < r.x + r.width && r.y <= p.y < r.y + r.height
  }

  /** QRect(QPoint(), size): the surface's own rectangle at the given size. */
  function SurfaceRect(s: Size): (r: Rect)
    ensures forall p :: InRect(r, p) <==> 0 <= p.x < s.width && 0 <= p.y < s.height
  {
    Rect(0, 0, s.width, s.height)
  }

  /** The rectangle covering exactly the points of both `a` and `b`. */
  function IntersectRect(a: Rect, b: Rect): (r: Rect)
    ensures forall p :: InRect(r, p) <==> InRect(a, p) && InRect(b, p)
  {
    var left := if a.x < b.x then b.x else a.x;
    var top := if a.y < b.y then b.y else a.y;
    var right := if a.x + a.width < b.x + b.width then a.x + a.width else b.x + b.width;
    var bottom := if a.y + a.height < b.y + b.height then a.y + a.height else b.y + b.height;
    Rect(left, top, right - left, bottom - top)
  }

  type Region = seq<Rect>

  /** QRegion(): no points. */
  const EmptyRegion: Region := []

  predicate Contains(rg: Region, p: Point) {
    exists i :: 0 <= i < |rg| && InRect(rg[i], p)
  }

  /** QRegion::united(QRect). A degenerate rectangle adds no point. */
  function United(rg: Region, r: Rect): (u: Region)
    ensures forall p :: Contains(u, p) <==> Contains(rg, p) || InRect(r, p)
  {
    var u := rg + [r];
    assert forall i :: 0 <= i < |rg| ==> u[i] == rg[i];
    assert u[|rg|] == r;
    u
  }

  /** QRegion::intersected(QRect): each rectangle of the region clipped to `b`. */
  function Intersected(rg: Region, b: Rect): (r: Region)
    ensures |r| == |rg|
    ensures forall p :: Contains(r, p) <==> Contains(rg, p) && InRect(b, p)
  {
    var r := seq(|rg|, i requires 0 <= i < |rg| => IntersectRect(rg[i], b));
    assert forall p :: Contains(r, p) ==> Contains(rg, p) && InRect(b, p) by {
      forall p | Contains(r, p) ensures Contains(rg, p) && InRect(b, p) {
        var i :| 0 <= i < |r| && InRect(r[i], p);
        assert InRect(rg[i], p);
      }
    }
    assert forall p :: Contains(rg, p) && InRect(b, p) ==> Contains(r, p) by {
      forall p | Contains(rg, p) && InRect(b, p) ensures Contains(r, p) {
        var i :| 0 <= i < |rg| && InRect(rg[i], p);
        assert InRect(r[i], p);
      }
    }
    r
  }

  /** The extreme values of a 32-bit `int`. */
  const IntMin: int := -0x8000_0000
  const IntMax: int := 0x7fff_ffff

  /** The region spanned from (IntMin, IntMin) to (IntMax, IntMax) inclusive: every point a 32-bit coordinate can name. */
  function InfiniteRegion(): (rg: Region)
    ensures forall p :: Contains(rg, p) <==> IntMin <= p.x <= IntMax && IntMin <= p.y <= IntMax
  {
    var r := Rect(IntMin, IntMin, IntMax - IntMin + 1, IntMax - IntMin + 1);
    assert [r][0] == r;
    [r]
  }

  /** The pending damage after the rectangles `rs` have been added to `d` one `damage` request at a time. */
  function UnitedAll(d: Region, rs: seq<Rect>): (r: Region)
    ensures forall p :: Contains(d, p) ==> Contains(r, p)
    decreases |rs|
  {
    if rs == [] then d else UnitedAll(United(d, rs[0]), rs[1..])
  }

  /** N damage requests accumulate exactly the union of their N rectangles. */
  lemma {:induction false} UnitedAllContains(d: Region, rs: seq<Rect>, p: Point)
    ensures Contains(UnitedAll(d, rs), p) <==> Contains(d, p) || exists i :: 0 <= i < |rs| && InRect(rs[i], p)
    decreases |rs|
  {
    if rs != [] {
      UnitedAllContains(United(d, rs[0]), rs[1..], p);
      if exists i :: 0 <= i < |rs| && InRect(rs[i], p) {
        var i :| 0 <= i < |rs| && InRect(rs[i], p);
        if i > 0 {
          assert rs[1..][i - 1] == rs[i];
        }
      }
      if exists i :: 0 <= i < |rs[1..]| && InRect(rs[1..][i], p) {
        var i :| 0 <= i < |rs[1..]| && InRect(rs[1..][i], p);
        assert rs[i + 1] == rs[1..][i];
      }
    }
  }
}
