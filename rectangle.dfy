/** The rectangle element of src/termin/elements/rectangle.rs: a rectangle of
    background colour painted into a buffer. */
module RectangleElement {
  import opened Crossterm
  import opened TerminBuffer

  datatype Rectangle = Rectangle(rect: Rect, bg: Color)

  /** Rectangle::new: the given rectangle with the default background. */
  function NewRectangle(x: int, y: int, width: int, height: int): (e: Rectangle)
    requires IsU16(x) && IsU16(y) && IsU16(width) && IsU16(height)
    ensures IsRect(e.rect) && e.rect == Rect(x, y, width, height) && e.bg == Reset
  {
    Rectangle(NewRect(x, y, width, height), Reset)
  }

  /** Rectangle::default. */
  const DefaultRectangle: Rectangle := NewRectangle(0, 0, 0, 0)

  /** The size setter of the element setters. */
  function Size(e: Rectangle, width: int, height: int): (e': Rectangle)
    ensures e'.rect.width == width && e'.rect.height == height
    ensures e'.rect.x == e.rect.x && e'.rect.y == e.rect.y && e'.bg == e.bg
  {
    e.(rect := e.rect.(width := width, height := height))
  }

  /** The background setter of the element setters. */
  function WithBg(e: Rectangle, bg: Color): (e': Rectangle)
    ensures e'.bg == bg && e'.rect == e.rect
  {
    e.(bg := bg)
  }

  /** The size and background setters touch separate fields, and the last
      background set is the one kept. */
  lemma RectangleSetters(e: Rectangle, width: int, height: int, bg: Color, bg': Color)
    ensures Size(WithBg(e, bg), width, height) == WithBg(Size(e, width, height), bg)
    ensures WithBg(WithBg(e, bg), bg') == WithBg(e, bg')
  {
  }

  /** Rectangle::default lies at the origin with no area and the default
      background. */
  lemma DefaultRectangleEmpty()
    ensures DefaultRectangle.rect == DefaultRect && DefaultRectangle.bg == Reset
  {
  }

  /** Cell (x, y) of the buffer lies inside rectangle r. */
  predicate InRect(r: Rect, x: int, y: int) {
    r.x <= x < r.x + r.width && r.y <= y < r.y + r.height
  }

  /** Rectangle r lies inside buffer b. */
  predicate FitsIn(r: Rect, b: Buffer) {
    0 <= r.x && 0 <= r.y && 0 <= r.width && 0 <= r.height
    && r.x + r.width <= b.rect.width && r.y + r.height <= b.rect.height
  }

  /** The buffer after Element::draw: the background of every cell of the
      rectangle is e.bg, and nothing else changes. */
  function Drawn(b: Buffer, e: Rectangle): (b': Buffer)
    requires Valid(b)
    ensures Valid(b') && b'.rect == b.rect
  {
    Repaint(b, (x: int, y: int, c: Cell) => if InRect(e.rect, x, y) then c.(bg := e.bg) else c)
  }

  /** Drawing sets the background of the rectangle's cells and keeps their
      foreground, attribute and symbol; cells outside it do not change. */
  lemma DrawnCells(b: Buffer, e: Rectangle, x: int, y: int)
    requires Valid(b) && InBuffer(b, x, y)
    ensures var c, c' := CellAt(b, x, y), CellAt(Drawn(b, e), x, y);
      if InRect(e.rect, x, y) then c' == Cell(e.bg, c.fg, c.attr, c.symbol) else c' == c
  {
  }

  /** A rectangle without area leaves the buffer as it was. */
  lemma DrawnEmpty(b: Buffer, e: Rectangle)
    requires Valid(b) && (e.rect.width == 0 || e.rect.height == 0)
    ensures Drawn(b, e) == b
  {
    SameCells(Drawn(b, e), b);
  }

  /** Drawing the same rectangle twice is drawing it once. */
  lemma DrawnIdempotent(b: Buffer, e: Rectangle)
    requires Valid(b)
    ensures Drawn(Drawn(b, e), e) == Drawn(b, e)
  {
    SameCells(Drawn(Drawn(b, e), e), Drawn(b, e));
  }

  /** Element::draw for Rectangle: row by row, set the background of each
      cell of the rectangle. */
  method Draw(e: Rectangle, buf: Buffer) returns (buf': Buffer)
    requires Valid(buf) && FitsIn(e.rect, buf)
    ensures buf' == Drawn(buf, e)
  {
    buf' := buf;
    for y := 0 to e.rect.height
      invariant Valid(buf') && buf'.rect == buf.rect
      invariant forall a, b :: InBuffer(buf, a, b) ==>
                  CellAt(buf', a, b) ==
                  if InRect(e.rect, a, b) && b < e.rect.y + y then CellAt(buf, a, b).(bg := e.bg) else CellAt(buf, a, b)
    {
      for x := 0 to e.rect.width
        invariant Valid(buf') && buf'.rect == buf.rect
        invariant forall a, b :: InBuffer(buf, a, b) ==>
                    CellAt(buf', a, b) ==
                    if InRect(e.rect, a, b) && (b < e.rect.y + y || (b == e.rect.y + y && a < e.rect.x + x))
                    then CellAt(buf, a, b).(bg := e.bg) else CellAt(buf, a, b)
      {
        var c := CellAt(buf', e.rect.x + x, e.rect.y + y);
        buf' := Modify(buf', e.rect.x + x, e.rect.y + y, c.(bg := e.bg));
      }
    }
    SameCells(buf', Drawn(buf, e));
  }
}
