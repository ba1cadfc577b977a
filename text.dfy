/** The text element of src/termin/elements/text.rs: a string laid out row by
    row over a rectangle of cells, and the edits made to that string. */
module TextElement {
  import opened Crossterm
  import opened TerminBuffer
  import opened RectangleElement

  datatype Text = Text(rect: Rect, bg: Color, fg: Color, text: string)

  /** Text::new: the given rectangle, default colours, no text. */
  function NewText(x: int, y: int, width: int, height: int): (t: Text)
    requires IsU16(x) && IsU16(y) && IsU16(width) && IsU16(height)
    ensures IsRect(t.rect) && t.rect == Rect(x, y, width, height)
    ensures t.bg == Reset && t.fg == Reset && t.text == ""
  {
    Text(NewRect(x, y, width, height), Reset, Reset, "")
  }

  /** Text::default. */
  const DefaultText: Text := NewText(0, 0, 0, 0)

  /** The size setter of the element setters. */
  function TextSize(t: Text, width: int, height: int): (t': Text)
    ensures t'.rect.width == width && t'.rect.height == height
    ensures t'.rect.x == t.rect.x && t'.rect.y == t.rect.y
    ensures t'.bg == t.bg && t'.fg == t.fg && t'.text == t.text
  {
    t.(rect := t.rect.(width := width, height := height))
  }

  /** The position setter xy of the element setters. */
  function TextXy(t: Text, x: int, y: int): (t': Text)
    ensures t'.rect.x == x && t'.rect.y == y
    ensures t'.rect.width == t.rect.width && t'.rect.height == t.rect.height
    ensures t'.bg == t.bg && t'.fg == t.fg && t'.text == t.text
  {
    t.(rect := t.rect.(x := x, y := y))
  }

  /** fg / set_fg. */
  function WithFg(t: Text, fg: Color): (t': Text)
    ensures t'.fg == fg && t'.rect == t.rect && t'.bg == t.bg && t'.text == t.text
  {
    t.(fg := fg)
  }

  /** The setters touch separate fields: applied in either order they give
      the same element, and the size and position together set the whole
      rectangle. */
  lemma SettersCommute(t: Text, x: int, y: int, width: int, height: int, fg: Color)
    ensures TextXy(TextSize(t, width, height), x, y) == TextSize(TextXy(t, x, y), width, height)
    ensures TextXy(TextSize(t, width, height), x, y).rect == Rect(x, y, width, height)
    ensures WithFg(TextXy(TextSize(t, width, height), x, y), fg) == TextXy(TextSize(WithFg(t, fg), width, height), x, y)
  {
  }

  /** Text::default lies at the origin with no area, in the default colours
      and with no text. */
  lemma DefaultTextEmpty()
    ensures DefaultText.rect == DefaultRect && DefaultText.text == ""
    ensures DefaultText.bg == Reset && DefaultText.fg == Reset
  {
  }

  /** The builder text(s): store s; a zero width becomes the length of s, cast
      to u16, and a zero height becomes 1. */
  function WithText(t: Text, s: string): (t': Text)
    ensures t'.text == s && t'.bg == t.bg && t'.fg == t.fg
    ensures t'.rect.x == t.rect.x && t'.rect.y == t.rect.y
    ensures t.rect.width != 0 ==> t'.rect.width == t.rect.width
    ensures t.rect.width == 0 ==> t'.rect.width == |s| % (U16Max + 1)
    ensures t'.rect.height == if t.rect.height == 0 then 1 else t.rect.height
  {
    var w := if t.rect.width == 0 then |s| % (U16Max + 1) else t.rect.width;
    var h := if t.rect.height == 0 then 1 else t.rect.height;
    t.(text := s, rect := t.rect.(width := w, height := h))
  }

  /** A string shorter than 65536 characters gets a box exactly its length
      wide when the width was unset, and defaults are then no longer zero. */
  lemma WithTextFits(t: Text, s: string)
    requires t.rect.width == 0 && 0 < |s| <= U16Max
    ensures WithText(t, s).rect.width == |s|
    ensures WithText(WithText(t, s), s) == WithText(t, s)
  {
  }

  /** set_text: replace the string. */
  function SetText(t: Text, s: string): (t': Text)
    ensures t'.text == s && t'.rect == t.rect && t'.bg == t.bg && t'.fg == t.fg
  {
    t.(text := s)
  }

  /** The last string set is the one kept. */
  lemma SetTextLastWins(t: Text, a: string, b: string)
    ensures SetText(SetText(t, a), b) == SetText(t, b)
  {
  }

  /** On a box whose size is already set, the builder text(s) is set_text. */
  lemma WithTextIsSetText(t: Text, s: string)
    requires t.rect.width != 0 && t.rect.height != 0
    ensures WithText(t, s) == SetText(t, s)
  {
  }

  /** push_string: append to the string. */
  function PushString(t: Text, s: string): (t': Text)
    ensures |t'.text| == |t.text| + |s|
    ensures t'.text[..|t.text|] == t.text && t'.text[|t.text|..] == s
    ensures t'.rect == t.rect && t'.bg == t.bg && t'.fg == t.fg
  {
    t.(text := t.text + s)
  }

  /** Two pushes are one push of both strings. */
  lemma PushStringTwice(t: Text, a: string, b: string)
    ensures PushString(PushString(t, a), b) == PushString(t, a + b)
  {
    assert (t.text + a) + b == t.text + (a + b);
  }

  /** Pushing onto a cleared text is setting the text. */
  lemma PushOntoCleared(t: Text, s: string)
    ensures PushString(SetText(t, ""), s) == SetText(t, s)
  {
    assert "" + s == s;
  }

  /** add_char_at: insert ch before position idx (idx past the end panics). */
  function AddCharAt(t: Text, idx: int, ch: char): (t': Text)
    requires 0 <= idx <= |t.text|
    ensures |t'.text| == |t.text| + 1 && t'.text[idx] == ch
    ensures t'.text[..idx] == t.text[..idx] && t'.text[idx + 1..] == t.text[idx..]
    ensures t' == t.(text := t'.text)
  {
    t.(text := t.text[..idx] + [ch] + t.text[idx..])
  }

  /** remove_char_at: nothing on an empty string, otherwise remove the
      character at idx (idx past the end panics). */
  function RemoveCharAt(t: Text, idx: int): (t': Text)
    requires |t.text| == 0 || 0 <= idx < |t.text|
    ensures |t.text| == 0 ==> t' == t
    ensures |t.text| > 0 ==>
      |t'.text| == |t.text| - 1 && t'.text[..idx] == t.text[..idx] && t'.text[idx..] == t.text[idx + 1..]
    ensures t' == t.(text := t'.text)
  {
    if |t.text| == 0 then t else t.(text := t.text[..idx] + t.text[idx + 1..])
  }

  /** Removing the character just inserted gives back the text. */
  lemma AddThenRemove(t: Text, idx: int, ch: char)
    requires 0 <= idx <= |t.text|
    ensures RemoveCharAt(AddCharAt(t, idx, ch), idx) == t
  {
    var t' := AddCharAt(t, idx, ch);
    assert t'.text[..idx] + t'.text[idx + 1..] == t.text;
  }

  /** Putting back the character just removed gives back the text. */
  lemma RemoveThenAdd(t: Text, idx: int)
    requires 0 <= idx < |t.text|
    ensures AddCharAt(RemoveCharAt(t, idx), idx, t.text[idx]) == t
  {
    var t' := RemoveCharAt(t, idx);
    assert t'.text[..idx] + [t.text[idx]] + t'.text[idx..] == t.text;
  }

  /** What Element::draw puts at offset (i, j) of the rectangle: the character
      of the row-major position j * width + i when the text reaches it, else a
      blank. */
  function SymbolAt(t: Text, i: int, j: int): char {
    var k := j * t.rect.width + i;
    if 0 <= k < |t.text| then t.text[k] else ' '
  }

  /** The buffer after Element::draw: every cell of the rectangle takes the
      element's colours and its symbol from SymbolAt; its attribute and every
      cell outside do not change. */
  function TextDrawn(b: Buffer, t: Text): (b': Buffer)
    requires Valid(b)
    ensures Valid(b') && b'.rect == b.rect
  {
    Repaint(b, (x: int, y: int, c: Cell) =>
      if InRect(t.rect, x, y) then Cell(t.bg, t.fg, c.attr, [SymbolAt(t, x - t.rect.x, y - t.rect.y)]) else c)
  }

  /** Cell by cell, drawing a text. */
  lemma TextDrawnCells(b: Buffer, t: Text, x: int, y: int)
    requires Valid(b) && InBuffer(b, x, y)
    ensures var c, c' := CellAt(b, x, y), CellAt(TextDrawn(b, t), x, y);
      if InRect(t.rect, x, y)
      then c'.bg == t.bg && c'.fg == t.fg && c'.attr == c.attr && c'.symbol == [SymbolAt(t, x - t.rect.x, y - t.rect.y)]
      else c' == c
  {
  }

  /** Only the first width * height characters are ever drawn. */
  lemma TextDrawnPrefix(b: Buffer, t: Text)
    requires Valid(b) && 0 <= t.rect.width && 0 <= t.rect.height
    requires |t.text| > t.rect.width * t.rect.height
    ensures TextDrawn(b, t) == TextDrawn(b, t.(text := t.text[..t.rect.width * t.rect.height]))
  {
    var t' := t.(text := t.text[..t.rect.width * t.rect.height]);
    forall x, y | InBuffer(b, x, y)
      ensures CellAt(TextDrawn(b, t), x, y) == CellAt(TextDrawn(b, t'), x, y)
    {
      CellInPrefix(b, t, x, y);
    }
    SameCells(TextDrawn(b, t), TextDrawn(b, t'));
  }

  /** A text with zero width or height, like Text::default, draws nothing. */
  lemma TextDrawnEmpty(b: Buffer, t: Text)
    requires Valid(b) && (t.rect.width == 0 || t.rect.height == 0)
    ensures TextDrawn(b, t) == b
  {
    forall x, y | InBuffer(b, x, y)
      ensures CellAt(TextDrawn(b, t), x, y) == CellAt(b, x, y)
    {
      TextDrawnCells(b, t, x, y);
    }
    SameCells(TextDrawn(b, t), b);
  }

  lemma CellInPrefix(b: Buffer, t: Text, x: int, y: int)
    requires Valid(b) && InBuffer(b, x, y) && 0 <= t.rect.width && 0 <= t.rect.height
    requires |t.text| > t.rect.width * t.rect.height
    ensures CellAt(TextDrawn(b, t), x, y) == CellAt(TextDrawn(b, t.(text := t.text[..t.rect.width * t.rect.height])), x, y)
  {
    var t' := t.(text := t.text[..t.rect.width * t.rect.height]);
    if InRect(t.rect, x, y) {
      SymbolInPrefix(t, x - t.rect.x, y - t.rect.y);
    }
    SameSymbolsCell(b, t, t', x, y);
  }

  /** Two texts that differ only in their strings draw the same cell when
      they put the same symbol there. */
  lemma SameSymbolsCell(b: Buffer, t: Text, u: Text, x: int, y: int)
    requires Valid(b) && InBuffer(b, x, y) && u == t.(text := u.text)
    requires InRect(t.rect, x, y) ==> SymbolAt(t, x - t.rect.x, y - t.rect.y) == SymbolAt(u, x - t.rect.x, y - t.rect.y)
    ensures CellAt(TextDrawn(b, t), x, y) == CellAt(TextDrawn(b, u), x, y)
  {
    TextDrawnCells(b, t, x, y);
    TextDrawnCells(b, u, x, y);
  }

  /** An offset of the rectangle reads a position below width * height. */
  lemma SymbolInPrefix(t: Text, i: int, j: int)
    requires 0 <= i < t.rect.width && 0 <= j < t.rect.height
    requires |t.text| > t.rect.width * t.rect.height
    ensures SymbolAt(t, i, j) == SymbolAt(t.(text := t.text[..t.rect.width * t.rect.height]), i, j)
  {
    MulMonotone(j + 1, t.rect.height, t.rect.width);
  }

  /** Element::draw for Text: walk the rectangle row by row, giving each cell
      the element's colours and the next character of the text, or a blank
      once the characters run out. */
  method Draw(t: Text, buf: Buffer) returns (buf': Buffer)
    requires Valid(buf) && FitsIn(t.rect, buf)
    ensures buf' == TextDrawn(buf, t)
  {
    var rest := t.text;
    buf' := buf;
    ghost var k := 0;
    for y := 0 to t.rect.height
      invariant Valid(buf') && buf'.rect == buf.rect
      invariant k == y * t.rect.width
      invariant rest == t.text[Min(k, |t.text|)..]
      invariant DrawnUpTo(t, buf, buf', y, 0)
    {
      buf', rest := DrawRow(t, buf, buf', y, rest, k);
      k := k + t.rect.width;
      assert k == (y + 1) * t.rect.width;
    }
    DrawnAll(t, buf, buf');
  }

  /** The cells of the rows above row y, and of row y left of column x
      (offsets in the rectangle), are drawn; all others are as before. */
  ghost predicate DrawnUpTo(t: Text, buf: Buffer, cur: Buffer, y: int, x: int)
    requires Valid(buf) && Valid(cur) && cur.rect == buf.rect
  {
    forall a, b :: InBuffer(buf, a, b) ==>
      CellAt(cur, a, b) ==
      if b < t.rect.y + y || (b == t.rect.y + y && t.rect.x <= a < t.rect.x + x)
      then CellAt(TextDrawn(buf, t), a, b) else CellAt(buf, a, b)
  }

  /** One pass of draw's inner loop: row y of the rectangle, from the
      iterator's position k = y * width. */
  method DrawRow(t: Text, buf: Buffer, cur: Buffer, y: int, rest0: string, ghost k0: int) returns (buf': Buffer, rest: string)
    requires Valid(buf) && FitsIn(t.rect, buf) && 0 <= y < t.rect.height
    requires Valid(cur) && cur.rect == buf.rect
    requires 0 <= k0 && k0 == y * t.rect.width
    requires rest0 == t.text[Min(k0, |t.text|)..]
    requires DrawnUpTo(t, buf, cur, y, 0)
    ensures Valid(buf') && buf'.rect == buf.rect
    ensures rest == t.text[Min(k0 + t.rect.width, |t.text|)..]
    ensures DrawnUpTo(t, buf, buf', y + 1, 0)
  {
    buf', rest := cur, rest0;
    ghost var k := k0;
    for x := 0 to t.rect.width
      invariant Valid(buf') && buf'.rect == buf.rect
      invariant k == k0 + x
      invariant rest == t.text[Min(k, |t.text|)..]
      invariant DrawnUpTo(t, buf, buf', y, x)
    {
      var px, py := t.rect.x + x, t.rect.y + y;
      assert InBuffer(buf, px, py);
      var c := CellAt(buf', px, py);
      var sym;
      NextChar(t.text, rest, k);
      if |rest| > 0 {
        sym := rest[0];
        rest := rest[1..];
      } else {
        sym := ' ';
      }
      assert sym == SymbolAt(t, x, y);
      TextDrawnCells(buf, t, px, py);
      ghost var prev := buf';
      buf' := Modify(buf', px, py, Cell(t.bg, t.fg, c.attr, [sym]));
      DrawnStep(t, buf, prev, buf', y, x);
      k := k + 1;
    }
    DrawnRowEnd(t, buf, buf', y);
  }

  /** Drawing the next cell of the row extends the drawn part by one. */
  lemma DrawnStep(t: Text, buf: Buffer, cur: Buffer, next: Buffer, y: int, x: int)
    requires Valid(buf) && FitsIn(t.rect, buf) && 0 <= y < t.rect.height && 0 <= x < t.rect.width
    requires Valid(cur) && cur.rect == buf.rect && DrawnUpTo(t, buf, cur, y, x)
    requires next == Modify(cur, t.rect.x + x, t.rect.y + y, CellAt(TextDrawn(buf, t), t.rect.x + x, t.rect.y + y))
    ensures DrawnUpTo(t, buf, next, y, x + 1)
  {
  }

  /** Every row drawn: the buffer is the drawn one. */
  lemma DrawnAll(t: Text, buf: Buffer, cur: Buffer)
    requires Valid(buf) && FitsIn(t.rect, buf) && Valid(cur) && cur.rect == buf.rect
    requires DrawnUpTo(t, buf, cur, t.rect.height, 0)
    ensures cur == TextDrawn(buf, t)
  {
    forall a, b | InBuffer(buf, a, b)
      ensures CellAt(cur, a, b) == CellAt(TextDrawn(buf, t), a, b)
    {
      TextDrawnCells(buf, t, a, b);
    }
    SameCells(cur, TextDrawn(buf, t));
  }

  /** A row drawn to its end is the start of the next one. */
  lemma DrawnRowEnd(t: Text, buf: Buffer, cur: Buffer, y: int)
    requires Valid(buf) && FitsIn(t.rect, buf) && Valid(cur) && cur.rect == buf.rect
    requires DrawnUpTo(t, buf, cur, y, t.rect.width)
    ensures DrawnUpTo(t, buf, cur, y + 1, 0)
  {
  }

  /** The iterator over the text's characters, after k of them were asked
      for: its next character is the k-th, or none once k reaches the end. */
  lemma NextChar(text: string, rest: string, k: int)
    requires 0 <= k && rest == text[Min(k, |text|)..]
    ensures |rest| > 0 <==> k < |text|
    ensures k < |text| ==> rest[0] == text[k] && rest[1..] == text[Min(k + 1, |text|)..]
    ensures k >= |text| ==> rest == text[Min(k + 1, |text|)..]
  {
  }

  function Min(a: int, b: int): int {
    if a < b then a else b
  }
}
