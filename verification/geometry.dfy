/** PyMuPDF's `fitz.Rect` as far as the masking engine uses it: emptiness,
    `intersects`, `width`, the union `|`, the offset `rect + (a, b, c, d)` and
    the bounding box of several rectangles. Coordinates are reals. */
module Geometry {

  datatype Rect = Rect(x0: real, y0: real, x1: real, y1: real)

  /** `Rect.is_empty`: no area. */
  predicate IsEmpty(r: Rect) {
    r.x0 >= r.x1 || r.y0 >= r.y1
  }

  /** `a.intersects(b)`: both rectangles have area and their interiors overlap. */
  predicate Intersects(a: Rect, b: Rect) {
    && !IsEmpty(a) && !IsEmpty(b)
    && a.x0 < b.x1 && b.x0 < a.x1
    && a.y0 < b.y1 && b.y0 < a.y1
  }

  /** `outer` contains `inner`. */
  predicate Encloses(outer: Rect, inner: Rect) {
    outer.x0 <= inner.x0 && outer.y0 <= inner.y0 && inner.x1 <= outer.x1 && inner.y1 <= outer.y1
  }

  function Min(a: real, b: real): real {
    if a <= b then a else b
  }

  function Max(a: real, b: real): real {
    if a >= b then a else b
  }

  function Abs(a: real): real {
    if a >= 0.0 then a else -a
  }

  /** `Rect.width`. */
  function Width(r: Rect): (w: real)
    ensures w >= 0.0
    ensures r.x0 <= r.x1 ==> w == r.x1 - r.x0
  {
    Max(r.x1 - r.x0, 0.0)
  }

  /** `r + (dx0, dy0, dx1, dy1)`: each corner coordinate moved by its offset. */
  function Offset(r: Rect, dx0: real, dy0: real, dx1: real, dy1: real): (o: Rect)
    ensures o.x1 - o.x0 == (r.x1 - r.x0) + (dx1 - dx0)
    ensures o.y1 - o.y0 == (r.y1 - r.y0) + (dy1 - dy0)
  {
    Rect(r.x0 + dx0, r.y0 + dy0, r.x1 + dx1, r.y1 + dy1)
  }

  /** `a | b`: an empty side is ignored, otherwise the bounding box. */
  function Union(a: Rect, b: Rect): (u: Rect)
    ensures !IsEmpty(a) ==> Encloses(u, a)
    ensures !IsEmpty(b) ==> Encloses(u, b)
    ensures IsEmpty(b) ==> u == a
    ensures IsEmpty(a) && !IsEmpty(b) ==> u == b
  {
    if IsEmpty(b) then a
    else if IsEmpty(a) then b
    else Rect(Min(a.x0, b.x0), Min(a.y0, b.y0), Max(a.x1, b.x1), Max(a.y1, b.y1))
  }

  /** `r0 = rs[0]; for rc in rs[1:]: r0 |= rc`. */
  function UnionAll(rs: seq<Rect>): Rect
    requires rs != []
    decreases |rs|
  {
    if |rs| == 1 then rs[0] else Union(UnionAll(rs[..|rs| - 1]), rs[|rs| - 1])
  }

  /** Over rectangles with area, the accumulated union is their bounding box:
      it encloses every one of them, and each of its edges is an edge of one of
      them. */
  lemma {:induction false} UnionAllBoundingBox(rs: seq<Rect>)
    requires rs != []
    requires forall k | 0 <= k < |rs| :: !IsEmpty(rs[k])
    ensures !IsEmpty(UnionAll(rs))
    ensures forall k | 0 <= k < |rs| :: Encloses(UnionAll(rs), rs[k])
    ensures exists k | 0 <= k < |rs| :: UnionAll(rs).x0 == rs[k].x0
    ensures exists k | 0 <= k < |rs| :: UnionAll(rs).x1 == rs[k].x1
    decreases |rs|
  {
    if |rs| > 1 {
      var init := rs[..|rs| - 1];
      assert forall k | 0 <= k < |init| :: init[k] == rs[k];
      UnionAllBoundingBox(init);
      var u := UnionAll(init);
      var last := rs[|rs| - 1];
      assert UnionAll(rs) == Union(u, last);
      var i :| 0 <= i < |init| && u.x0 == init[i].x0;
      var j :| 0 <= j < |init| && u.x1 == init[j].x1;
      if u.x0 <= last.x0 {
        assert UnionAll(rs).x0 == rs[i].x0;
      } else {
        assert UnionAll(rs).x0 == rs[|rs| - 1].x0;
      }
      if u.x1 >= last.x1 {
        assert UnionAll(rs).x1 == rs[j].x1;
      } else {
        assert UnionAll(rs).x1 == rs[|rs| - 1].x1;
      }
    }
  }
}
