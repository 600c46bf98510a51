/**
 * The things placed on a page. A page item is one of three kinds (text,
 * box, pixmap), each with a position and a transform and a payload of its
 * own. The scene also holds the two page-border rectangles, which are plain
 * rectangle items of none of the three kinds.
 */
module Items {
  import opened Wrappers
  import opened Geometry

  type int16 = x: int | -0x8000 <= x < 0x8000
  type byte = x: int | 0 <= x < 0x100

  /// Qt::SolidLine; a box's pen style is the int16 ordinal of a Qt::PenStyle.
  const SolidLine: int16 := 1

  /// A font (QFont). Its serialized form is Qt's own; only the two fields
  /// the page designer sets are kept.
  datatype Font = Font(family: string, pointSize: int)

  /// The font a text item gets when none is given: Times at PointSize.
  const DefaultFont: Font := Font("Times", PointSize)

  /// An image (QPixmap), as the opaque bytes Qt serializes it to.
  datatype Pixmap = Pixmap(data: seq<byte>)

  datatype PageItem =
    | TextItem(pos: Point, transform: Transform, text: string, font: Font)
    | BoxItem(pos: Point, transform: Transform, rect: Rect, style: int16)
    | PixmapItem(pos: Point, transform: Transform, pixmap: Pixmap)

  /// What the scene holds: a page item, or one of the plain rectangles
  /// that draw the page border.
  datatype SceneItem = Page(item: PageItem) | Border(rect: Rect)

  /// The rectangle a box gets when none is given: 20 point sizes wide and
  /// 2 tall, centred on the box's position.
  function DefaultBoxRect(): (r: Rect)
    ensures r.w == (20 * PointSize) as real && r.h == (2 * PointSize) as real
    ensures r.x == -Right(r) && r.y == -Bottom(r)
  {
    Rect((-10 * PointSize) as real, (-PointSize) as real, (20 * PointSize) as real, (2 * PointSize) as real)
  }

  /// The item as decoding places it with a paste offset: moved by
  /// `(offset, offset)` when the offset is non-zero, unchanged otherwise.
  function Moved(item: PageItem, offset: int): (r: PageItem)
    ensures r.pos == Shifted(item.pos, offset)
    ensures r == item.(pos := r.pos)
  {
    if offset != 0 then item.(pos := Shifted(item.pos, offset)) else item
  }

  lemma {:induction false} MovedTwice(item: PageItem, a: int, b: int)
    ensures Moved(Moved(item, a), b) == Moved(item, a + b)
  {
    var once := Moved(item, a);
    assert Moved(once, b).pos == Moved(item, a + b).pos;
  }

  /// The keys a box reacts to.
  datatype Key = KeyLeft | KeyRight | KeyUp | KeyDown | OtherKey(code: int)

  /// How far one Shift+arrow press moves an edge: PointSize / 4 (true division).
  const ResizeStep: real := PointSize as real / 4.0

  /// A box's key press: Shift+Left/Right move the right edge, Shift+Up/Down
  /// move the bottom edge, by one ResizeStep, with no clamping. `None` means
  /// the event is not handled and the rectangle stays as it is.
  function KeyResize(r: Rect, key: Key, shift: bool): (res: Option<Rect>)
    ensures res.Some? <==> shift && !key.OtherKey?
    ensures res.Some? ==> res.value.x == r.x && res.value.y == r.y
    ensures res.Some? && key.KeyLeft? ==> Right(res.value) == Right(r) - ResizeStep && Bottom(res.value) == Bottom(r)
    ensures res.Some? && key.KeyRight? ==> Right(res.value) == Right(r) + ResizeStep && Bottom(res.value) == Bottom(r)
    ensures res.Some? && key.KeyUp? ==> Bottom(res.value) == Bottom(r) - ResizeStep && Right(res.value) == Right(r)
    ensures res.Some? && key.KeyDown? ==> Bottom(res.value) == Bottom(r) + ResizeStep && Right(res.value) == Right(r)
  {
    if !shift then None
    else match key
      case KeyLeft => Some(SetRight(r, Right(r) - ResizeStep))
      case KeyRight => Some(SetRight(r, Right(r) + ResizeStep))
      case KeyUp => Some(SetBottom(r, Bottom(r) - ResizeStep))
      case KeyDown => Some(SetBottom(r, Bottom(r) + ResizeStep))
      case OtherKey(_) => None
  }

  /// Shift+Right undoes Shift+Left, and Shift+Down undoes Shift+Up.
  lemma KeyResizeUndo(r: Rect)
    ensures KeyResize(KeyResize(r, KeyLeft, true).value, KeyRight, true) == Some(r)
    ensures KeyResize(KeyResize(r, KeyUp, true).value, KeyDown, true) == Some(r)
  {
  }

  /// The rectangle after `n` presses of Shift+`key`.
  function Presses(r: Rect, key: Key, n: nat): Rect
  {
    if n == 0 then r
    else
      var before := Presses(r, key, n - 1);
      match KeyResize(before, key, true)
      case Some(s) => s
      case None => before
  }

  /// Repeated Shift+Left keeps moving the right edge left by a step each
  /// time and never touches the left and top edges: nothing stops it.
  lemma {:induction false} ShrinkUnbounded(r: Rect, n: nat)
    ensures Presses(r, KeyLeft, n).x == r.x && Presses(r, KeyLeft, n).y == r.y
    ensures Right(Presses(r, KeyLeft, n)) == Right(r) - n as real * ResizeStep
    ensures Bottom(Presses(r, KeyLeft, n)) == Bottom(r)
  {
    if n > 0 {
      ShrinkUnbounded(r, n - 1);
    }
  }

  /// The default box is inside out from the 81st press of Shift+Left on.
  lemma DefaultBoxInverts(n: nat)
    requires n >= 81
    ensures Presses(DefaultBoxRect(), KeyLeft, n).w < 0.0
  {
    ShrinkUnbounded(DefaultBoxRect(), n);
  }
}
