/** The usual optional value. */
module Wrappers {
  datatype Option<+T> = None | Some(value: T)
}

/**
 * Page geometry as values: the parts of Qt's QPointF, QPoint, QRectF and
 * QTransform that the page designer stores, moves and serializes.
 * Coordinates are reals; IEEE rounding is not modelled.
 */
module Geometry {
  /// The base point size of the page; box geometry and key steps scale with it.
  const PointSize: int := 10

  /// A US Letter page, in points.
  const PageWidth: int := 612
  const PageHeight: int := 792

  /// A page-space point (QPointF).
  datatype Point = Point(x: real, y: real)

  /// A point in widget coordinates (QPoint), as the mouse cursor reports it.
  datatype ViewPoint = ViewPoint(x: int, y: int)

  /// A rectangle kept the way QRectF keeps it: its top-left corner and its
  /// extent. Nothing forces the width or the height to be positive.
  datatype Rect = Rect(x: real, y: real, w: real, h: real)

  function Right(r: Rect): real { r.x + r.w }

  function Bottom(r: Rect): real { r.y + r.h }

  /// QRectF::setRight: the right edge moves to `right`, the other three edges stay.
  function SetRight(r: Rect, right: real): (s: Rect)
    ensures s.x == r.x && s.y == r.y && Bottom(s) == Bottom(r)
    ensures Right(s) == right
  {
    r.(w := right - r.x)
  }

  /// QRectF::setBottom: the bottom edge moves to `bottom`, the other three edges stay.
  function SetBottom(r: Rect, bottom: real): (s: Rect)
    ensures s.x == r.x && s.y == r.y && Right(s) == Right(r)
    ensures Bottom(s) == bottom
  {
    r.(h := bottom - r.y)
  }

  /// QRectF::adjusted: the four edges moved by the four deltas.
  function Adjusted(r: Rect, dx1: real, dy1: real, dx2: real, dy2: real): (s: Rect)
    ensures s.x == r.x + dx1 && s.y == r.y + dy1
    ensures Right(s) == Right(r) + dx2 && Bottom(s) == Bottom(r) + dy2
  {
    Rect(r.x + dx1, r.y + dy1, r.w + dx2 - dx1, r.h + dy2 - dy1)
  }

  /// A 3x3 affine matrix (QTransform), kept as its nine coefficients.
  datatype Transform = Transform(m11: real, m12: real, m13: real,
                                 m21: real, m22: real, m23: real,
                                 m31: real, m32: real, m33: real)

  /// The default-constructed QTransform.
  const Identity: Transform := Transform(1.0, 0.0, 0.0, 0.0, 1.0, 0.0, 0.0, 0.0, 1.0)

  /// `p + QPointF(d, d)`: the point moved `d` units right and `d` units down.
  function Shifted(p: Point, d: int): (q: Point)
    ensures q.x - p.x == d as real && q.y - p.y == d as real
  {
    Point(p.x + d as real, p.y + d as real)
  }
}
