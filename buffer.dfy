/** The cell grid of src/termin/buffer.rs: styled cells, rectangles and the
    buffer of cells a window draws into. */
module TerminBuffer {
  import opened Crossterm

  /** One terminal cell: background, foreground, attribute and the symbol
      printed there. */
  datatype Cell = Cell(bg: Color, fg: Color, attr: Attribute, symbol: string)

  /** Cell::default: a blank cell in the terminal's default style. */
  const DefaultCell: Cell := Cell(Reset, Reset, AttrReset, " ")

  /** A rectangle: column, row, width and height, all u16. */
  datatype Rect = Rect(x: int, y: int, width: int, height: int)

  predicate IsRect(r: Rect) {
    IsU16(r.x) && IsU16(r.y) && IsU16(r.width) && IsU16(r.height)
  }

  /** Rect::new. */
  function NewRect(x: int, y: int, width: int, height: int): (r: Rect)
    requires IsU16(x) && IsU16(y) && IsU16(width) && IsU16(height)
    ensures IsRect(r)
    ensures r.x == x && r.y == y && r.width == width && r.height == height
  {
    Rect(x, y, width, height)
  }

  /** Rect::default. */
  const DefaultRect: Rect := NewRect(0, 0, 0, 0)

  /** The u16 product width * height does not overflow. */
  predicate AreaFits(r: Rect) {
    r.width * r.height <= U16Max
  }

  /** Rect::area: the number of cells of the rectangle. */
  function Area(r: Rect): (a: nat)
    requires IsRect(r) && AreaFits(r)
    ensures a <= U16Max
  {
    r.width * r.height
  }

  /** Rect::default is the origin with no area. */
  lemma DefaultRectEmpty()
    ensures DefaultRect == Rect(0, 0, 0, 0) && IsRect(DefaultRect) && Area(DefaultRect) == 0
  {
  }

  /** The area is zero exactly when one of the sides is. */
  lemma AreaZero(r: Rect)
    requires IsRect(r) && AreaFits(r)
    ensures Area(r) == 0 <==> r.width == 0 || r.height == 0
  {
    if r.width != 0 && r.height != 0 {
      MulPositive(r.width, r.height);
    }
  }

  lemma MulPositive(a: int, b: int)
    requires a > 0 && b > 0
    ensures a * b > 0
  {
  }

  /** A buffer: its rectangle and its cells, row by row. */
  datatype Buffer = Buffer(rect: Rect, contents: seq<Cell>)

  /** The buffer invariant: one cell per unit of area. */
  predicate Valid(b: Buffer) {
    IsRect(b.rect) && AreaFits(b.rect) && |b.contents| == Area(b.rect)
  }

  /** Buffer::empty: default cells over the whole rectangle. */
  function EmptyBuffer(r: Rect): (b: Buffer)
    requires IsRect(r) && AreaFits(r)
    ensures Valid(b) && b.rect == r
    ensures forall k :: 0 <= k < |b.contents| ==> b.contents[k] == DefaultCell
  {
    Buffer(r, seq(Area(r), _ => DefaultCell))
  }

  /** Buffer::filled: copies of `fill` over the whole rectangle. */
  function Filled(r: Rect, fill: Cell): (b: Buffer)
    requires IsRect(r) && AreaFits(r)
    ensures Valid(b) && b.rect == r
    ensures forall k :: 0 <= k < |b.contents| ==> b.contents[k] == fill
  {
    Buffer(r, seq(Area(r), _ => fill))
  }

  /** An empty buffer is one filled with default cells. */
  lemma EmptyIsFilledDefault(r: Rect)
    requires IsRect(r) && AreaFits(r)
    ensures EmptyBuffer(r) == Filled(r, DefaultCell)
  {
  }

  // ---------------------------------------------------------------------------
  // Addressing cells

  /** (x, y) is a cell of the buffer, in the buffer's own coordinates. */
  predicate InBuffer(b: Buffer, x: int, y: int) {
    0 <= x < b.rect.width && 0 <= y < b.rect.height
  }

  /** The position of cell (x, y) in the row-major contents. */
  function Index(b: Buffer, x: int, y: int): nat
    requires InBuffer(b, x, y)
  {
    y * b.rect.width + x
  }

  lemma MulMonotone(a: int, b: int, w: int)
    requires 0 <= a <= b && 0 <= w
    ensures a * w <= b * w
  {
  }

  /** Every cell of the buffer has its own place in the contents. */
  lemma IndexInRange(b: Buffer, x: int, y: int)
    requires Valid(b) && InBuffer(b, x, y)
    ensures Index(b, x, y) < |b.contents|
  {
    MulMonotone(y + 1, b.rect.height, b.rect.width);
  }

  /** Different cells have different places. */
  lemma IndexInjective(b: Buffer, x: int, y: int, x': int, y': int)
    requires InBuffer(b, x, y) && InBuffer(b, x', y')
    requires Index(b, x, y) == Index(b, x', y')
    ensures x == x' && y == y'
  {
    var w := b.rect.width;
    if y < y' {
      MulMonotone(y + 1, y', w);
      assert false;
    } else if y' < y {
      MulMonotone(y' + 1, y, w);
      assert false;
    }
  }

  /** Every place of the contents belongs to a cell. */
  lemma IndexOnto(b: Buffer, k: int)
    requires Valid(b) && 0 <= k < |b.contents|
    ensures InBuffer(b, k % b.rect.width, k / b.rect.width)
    ensures Index(b, k % b.rect.width, k / b.rect.width) == k
  {
    var w, h := b.rect.width, b.rect.height;
    var q, m := k / w, k % w;
    DivMod(k, w);
    if q >= h {
      MulMonotone(h, q, w);
      assert false;
    }
  }

  /** Euclidean division by a positive divisor. */
  lemma DivMod(k: int, w: int)
    requires 0 <= k && 0 < w
    ensures k == (k / w) * w + k % w && 0 <= k % w < w && 0 <= k / w
  {
  }

  /** get_mut(x, y), read side: the cell at (x, y). */
  function CellAt(b: Buffer, x: int, y: int): Cell
    requires Valid(b) && InBuffer(b, x, y)
  {
    IndexInRange(b, x, y);
    b.contents[Index(b, x, y)]
  }

  /** Every cell read from a filled buffer is the fill, and from an empty
      buffer the default cell. */
  lemma FilledCells(r: Rect, fill: Cell, x: int, y: int)
    requires IsRect(r) && AreaFits(r) && 0 <= x < r.width && 0 <= y < r.height
    ensures CellAt(Filled(r, fill), x, y) == fill
    ensures CellAt(EmptyBuffer(r), x, y) == DefaultCell
  {
    IndexInRange(Filled(r, fill), x, y);
  }

  /** get_mut(x, y), write side: the buffer with the cell at (x, y) replaced. */
  function Modify(b: Buffer, x: int, y: int, c: Cell): (b': Buffer)
    requires Valid(b) && InBuffer(b, x, y)
    ensures Valid(b') && b'.rect == b.rect
    ensures CellAt(b', x, y) == c
    ensures forall x', y' :: InBuffer(b, x', y') && (x' != x || y' != y) ==> CellAt(b', x', y') == CellAt(b, x', y')
  {
    IndexInRange(b, x, y);
    var b' := Buffer(b.rect, b.contents[Index(b, x, y) := c]);
    forall x', y' | InBuffer(b, x', y') && (x' != x || y' != y)
      ensures CellAt(b', x', y') == CellAt(b, x', y')
    {
      IndexInRange(b, x', y');
      if Index(b, x', y') == Index(b, x, y) {
        IndexInjective(b, x, y, x', y');
      }
    }
    b'
  }

  /** The place of cell (x, y) gives back x and y. */
  lemma IndexCoordinates(b: Buffer, x: int, y: int)
    requires Valid(b) && InBuffer(b, x, y)
    ensures Index(b, x, y) % b.rect.width == x && Index(b, x, y) / b.rect.width == y
  {
    var k := Index(b, x, y);
    IndexInRange(b, x, y);
    IndexOnto(b, k);
    IndexInjective(b, x, y, k % b.rect.width, k / b.rect.width);
  }

  /** The buffer with every cell (x, y) replaced by f(x, y, old cell). */
  function Repaint(b: Buffer, f: (int, int, Cell) -> Cell): (b': Buffer)
    requires Valid(b)
    ensures Valid(b') && b'.rect == b.rect
    ensures forall x, y :: InBuffer(b, x, y) ==> CellAt(b', x, y) == f(x, y, CellAt(b, x, y))
  {
    var w := b.rect.width;
    var b' := Buffer(b.rect, seq(|b.contents|, k requires 0 <= k < |b.contents| =>
      if w == 0 then b.contents[k] else f(k % w, k / w, b.contents[k])));
    forall x, y | InBuffer(b, x, y)
      ensures CellAt(b', x, y) == f(x, y, CellAt(b, x, y))
    {
      IndexInRange(b, x, y);
      IndexCoordinates(b, x, y);
    }
    b'
  }

  /** Two buffers over the same rectangle with the same cells are equal. */
  lemma SameCells(b: Buffer, b': Buffer)
    requires Valid(b) && Valid(b') && b.rect == b'.rect
    requires forall x, y :: InBuffer(b, x, y) ==> CellAt(b, x, y) == CellAt(b', x, y)
    ensures b == b'
  {
    forall k | 0 <= k < |b.contents|
      ensures b.contents[k] == b'.contents[k]
    {
      IndexOnto(b, k);
      var x, y := k % b.rect.width, k / b.rect.width;
      assert CellAt(b, x, y) == CellAt(b', x, y);
    }
  }
}
