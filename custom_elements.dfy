/** The dialog box of src/custom_elements.rs: a rectangle with a text box one
    cell inside its border. */
module CustomElements {
  import opened Crossterm
  import opened TerminBuffer
  import opened RectangleElement
  import opened TextElement

  datatype DialogBox = DialogBox(textBox: Text, rect: Rectangle)

  /** DialogBox::new(width, height): a width x height rectangle and a text box
      of (width - 2) x (height - 2) at (1, 1); the u16 subtractions need both
      sides to be at least 2. */
  function NewDialogBox(width: int, height: int): (d: DialogBox)
    requires IsU16(width) && IsU16(height) && width >= 2 && height >= 2
    ensures d.rect.rect == Rect(0, 0, width, height) && d.rect.bg == Reset
    ensures d.textBox.rect == Rect(1, 1, width - 2, height - 2)
    ensures d.textBox.text == "" && d.textBox.bg == Reset && d.textBox.fg == Reset
    ensures InnerBox(d.rect.rect, d.textBox.rect)
  {
    DialogBox(TextXy(TextSize(DefaultText, width - 2, height - 2), 1, 1), Size(DefaultRectangle, width, height))
  }

  /** The text box lies strictly inside the rectangle, one cell from each edge. */
  predicate InnerBox(outer: Rect, inner: Rect) {
    inner.x == outer.x + 1 && inner.y == outer.y + 1
    && inner.width == outer.width - 2 && inner.height == outer.height - 2
  }

  /** set_text: replace the text box's string. */
  function SetDialogText(d: DialogBox, s: string): (d': DialogBox)
    ensures d'.textBox == SetText(d.textBox, s) && d'.rect == d.rect
  {
    d.(textBox := SetText(d.textBox, s))
  }

  /** The builder text(s): the same edit, by value. */
  function WithDialogText(d: DialogBox, s: string): (d': DialogBox)
    ensures d'.textBox.text == s && d'.textBox.rect == d.textBox.rect
    ensures d'.textBox.bg == d.textBox.bg && d'.textBox.fg == d.textBox.fg && d'.rect == d.rect
  {
    SetDialogText(d, s)
  }

  /** The last text set is the one kept, whichever of the two edits set it. */
  lemma DialogTextLastWins(d: DialogBox, a: string, b: string)
    ensures WithDialogText(WithDialogText(d, a), b) == WithDialogText(d, b)
    ensures SetDialogText(WithDialogText(d, a), b) == SetDialogText(d, b)
  {
  }

  /** error(t): a red rectangle showing t. */
  function Error(d: DialogBox, t: string): (d': DialogBox)
    ensures d'.rect == d.rect.(bg := Red) && d'.textBox == d.textBox.(text := t)
  {
    SetDialogText(d.(rect := WithBg(d.rect, Red)), t)
  }

  /** info(t): a blue rectangle showing t. */
  function Info(d: DialogBox, t: string): (d': DialogBox)
    ensures d'.rect == d.rect.(bg := Blue) && d'.textBox == d.textBox.(text := t)
  {
    SetDialogText(d.(rect := WithBg(d.rect, Blue)), t)
  }

  /** An error and then an info on the same box leave only the info. */
  lemma InfoAfterError(d: DialogBox, e: string, t: string)
    ensures Info(Error(d, e), t) == Info(d, t)
  {
  }

  /** The buffer after Element::draw: the rectangle, then the text box. */
  function DialogDrawn(b: Buffer, d: DialogBox): (b': Buffer)
    requires Valid(b)
    ensures Valid(b') && b'.rect == b.rect
  {
    TextDrawn(Drawn(b, d.rect), d.textBox)
  }

  /** Element::draw for DialogBox: draw the rectangle, then the text box over it. */
  method Draw(d: DialogBox, buf: Buffer) returns (buf': Buffer)
    requires Valid(buf) && FitsIn(d.rect.rect, buf) && FitsIn(d.textBox.rect, buf)
    ensures buf' == DialogDrawn(buf, d)
  {
    buf' := RectangleElement.Draw(d.rect, buf);
    buf' := TextElement.Draw(d.textBox, buf');
  }

  /** Inside the text box the text wins; elsewhere in the rectangle the cell
      takes the rectangle's background and keeps its symbol; outside the
      rectangle nothing changes. */
  lemma DialogCells(b: Buffer, d: DialogBox, x: int, y: int)
    requires Valid(b) && InBuffer(b, x, y) && InnerBox(d.rect.rect, d.textBox.rect)
    ensures var c, c' := CellAt(b, x, y), CellAt(DialogDrawn(b, d), x, y);
      if InRect(d.textBox.rect, x, y) then
        c' == Cell(d.textBox.bg, d.textBox.fg, c.attr, [SymbolAt(d.textBox, x - d.textBox.rect.x, y - d.textBox.rect.y)])
      else if InRect(d.rect.rect, x, y) then c' == c.(bg := d.rect.bg)
      else c' == c
  {
    DrawnCells(b, d.rect, x, y);
    TextDrawnCells(Drawn(b, d.rect), d.textBox, x, y);
  }
}
