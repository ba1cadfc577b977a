/** The instruction emitter of src/termin/crossterm_handler.rs: it turns the
    positioned cells of a buffer into a stream of cursor moves, style changes
    and prints, skipping every move and style change the terminal does not
    need, and ends the stream with a style reset. */
module CrosstermHandler {
  import opened Crossterm
  import opened TerminBuffer
  import opened Wrappers

  /** The crossterm commands the emitter queues. */
  datatype Instr =
    | MoveTo(x: int, y: int)
    | SetAttribute(attr: Attribute)
    | SetBackgroundColor(bg: Color)
    | SetForegroundColor(fg: Color)
    | Print(symbol: string)

  /** One element of the content iterator: a position and the cell drawn there. */
  datatype Item = Item(x: int, y: int, cell: Cell)

  /** A background, foreground and attribute: the style the emitter tracks,
      and the style a terminal currently writes with. */
  datatype Pen = Pen(bg: Color, fg: Color, attr: Attribute)

  /** The style the emitter assumes at the start: everything Reset. */
  const InitialPen: Pen := Pen(Reset, Reset, AttrReset)

  function Style(c: Cell): Pen {
    Pen(c.bg, c.fg, c.attr)
  }

  /** The cell at (x, y) comes right after the last one printed, on its row,
      so the terminal's cursor is already there. */
  predicate Adjacent(last: Option<(int, int)>, x: int, y: int) {
    last.Some? && x == last.value.0 + 1 && y == last.value.1
  }

  /** The move queued unless the cursor is already in place. */
  function MovePart(last: Option<(int, int)>, it: Item): seq<Instr> {
    if Adjacent(last, it.x, it.y) then [] else [MoveTo(it.x, it.y)]
  }

  /** On an attribute change: the new attribute, then the tracked colours
      again. */
  function AttrPart(pen: Pen, it: Item): seq<Instr> {
    if pen.attr != it.cell.attr
    then [SetAttribute(it.cell.attr), SetBackgroundColor(pen.bg), SetForegroundColor(pen.fg)]
    else []
  }

  /** The background, when it differs from the tracked one. */
  function BgPart(pen: Pen, it: Item): seq<Instr> {
    if pen.bg != it.cell.bg then [SetBackgroundColor(it.cell.bg)] else []
  }

  /** The foreground, when it differs from the tracked one. */
  function FgPart(pen: Pen, it: Item): seq<Instr> {
    if pen.fg != it.cell.fg then [SetForegroundColor(it.cell.fg)] else []
  }

  /** What one iteration of the loop queues for a cell, given the tracked
      style and the last position: move, attribute group, background,
      foreground, print. */
  function CellInstrs(pen: Pen, last: Option<(int, int)>, it: Item): seq<Instr> {
    MovePart(last, it) + AttrPart(pen, it) + BgPart(pen, it) + FgPart(pen, it) + [Print(it.cell.symbol)]
  }

  /** Queuing the parts of a cell one after the other queues CellInstrs. */
  lemma CellAppend(out: seq<Instr>, pen: Pen, last: Option<(int, int)>, it: Item)
    ensures out + MovePart(last, it) + AttrPart(pen, it) + BgPart(pen, it) + FgPart(pen, it) + [Print(it.cell.symbol)]
         == out + CellInstrs(pen, last, it)
  {
  }

  /** The tracked style after some cells: the style of the last one. */
  function PenAfter(content: seq<Item>): Pen {
    if |content| == 0 then InitialPen else Style(content[|content| - 1].cell)
  }

  /** The tracked last position after some cells. */
  function LastPos(content: seq<Item>): Option<(int, int)> {
    if |content| == 0 then None else Some((content[|content| - 1].x, content[|content| - 1].y))
  }

  /** The instructions queued for the cells, before the final reset. */
  function Body(content: seq<Item>): seq<Instr> {
    if |content| == 0 then []
    else
      var init := content[..|content| - 1];
      Body(init) + CellInstrs(PenAfter(init), LastPos(init), content[|content| - 1])
  }

  /** One more cell appends its instructions to the body. */
  lemma BodySnoc(content: seq<Item>, i: int)
    requires 0 <= i < |content|
    ensures Body(content[..i + 1]) == Body(content[..i]) + CellInstrs(PenAfter(content[..i]), LastPos(content[..i]), content[i])
    ensures PenAfter(content[..i + 1]) == Style(content[i].cell)
    ensures LastPos(content[..i + 1]) == Some((content[i].x, content[i].y))
  {
    assert content[..i + 1][..i] == content[..i];
  }

  /** The reset queued after the last cell. */
  const ResetTail: seq<Instr> :=
    [SetForegroundColor(Reset), SetBackgroundColor(Reset), SetAttribute(AttrReset)]

  /** Everything draw queues for the content. */
  function Emitted(content: seq<Item>): seq<Instr> {
    Body(content) + ResetTail
  }

  /** The u16 addition p.0 + 1 is evaluated for every cell after the first,
      with p the position of the cell before it, and overflows at 65535. */
  predicate NoOverflow(content: seq<Item>) {
    forall i :: 0 <= i < |content| - 1 ==> content[i].x < U16Max
  }

  /** CrosstermHandler::draw, with the writer as the returned instruction
      sequence. */
  method Draw(content: seq<Item>) returns (out: seq<Instr>)
    requires NoOverflow(content)
    ensures out == Emitted(content)
  {
    var bg, fg, attr := Reset, Reset, AttrReset;
    var lastPos: Option<(int, int)> := None;
    out := [];
    for i := 0 to |content|
      invariant Pen(bg, fg, attr) == PenAfter(content[..i])
      invariant lastPos == LastPos(content[..i])
      invariant out == Body(content[..i])
    {
      BodySnoc(content, i);
      out, bg, fg, attr, lastPos := QueueCell(out, bg, fg, attr, lastPos, content[i]);
    }
    assert content[..|content|] == content;
    out := out + [SetForegroundColor(Reset), SetBackgroundColor(Reset), SetAttribute(AttrReset)];
  }

  /** The body of draw's loop for one cell: queue the move, the attribute
      group, the colours and the print, updating the tracked state. */
  method QueueCell(out: seq<Instr>, bg: Color, fg: Color, attr: Attribute, lastPos: Option<(int, int)>, it: Item)
    returns (out': seq<Instr>, bg': Color, fg': Color, attr': Attribute, lastPos': Option<(int, int)>)
    ensures out' == out + CellInstrs(Pen(bg, fg, attr), lastPos, it)
    ensures Pen(bg', fg', attr') == Style(it.cell) && lastPos' == Some((it.x, it.y))
  {
    var pen := Pen(bg, fg, attr);
    out', bg', fg', attr' := out, bg, fg, attr;
    if !(lastPos.Some? && it.x == lastPos.value.0 + 1 && it.y == lastPos.value.1) {
      out' := out' + [MoveTo(it.x, it.y)];
    }
    assert out' == out + MovePart(lastPos, it);
    lastPos' := Some((it.x, it.y));
    ghost var out1 := out';
    if attr' != it.cell.attr {
      out' := out' + [SetAttribute(it.cell.attr), SetBackgroundColor(bg'), SetForegroundColor(fg')];
      attr' := it.cell.attr;
    }
    assert out' == out1 + AttrPart(pen, it);
    ghost var out2 := out';
    if bg' != it.cell.bg {
      out' := out' + [SetBackgroundColor(it.cell.bg)];
      bg' := it.cell.bg;
    }
    assert out' == out2 + BgPart(pen, it);
    ghost var out3 := out';
    if fg' != it.cell.fg {
      out' := out' + [SetForegroundColor(it.cell.fg)];
      fg' := it.cell.fg;
    }
    assert out' == out3 + FgPart(pen, it);
    out' := out' + [Print(it.cell.symbol)];
    CellAppend(out, pen, lastPos, it);
  }

  // ---------------------------------------------------------------------------
  // The stream, instruction by instruction

  /** The symbols printed by a stream, in order. */
  function Prints(s: seq<Instr>): seq<string> {
    if |s| == 0 then []
    else (if s[0].Print? then [s[0].symbol] else []) + Prints(s[1..])
  }

  lemma {:induction false} PrintsAppend(a: seq<Instr>, b: seq<Instr>)
    ensures Prints(a + b) == Prints(a) + Prints(b)
    decreases |a|
  {
    if |a| > 0 {
      assert (a + b)[0] == a[0];
      assert (a + b)[1..] == a[1..] + b;
      PrintsAppend(a[1..], b);
    } else {
      assert a + b == b;
    }
  }

  /** A stream of style changes and moves prints nothing. */
  lemma {:induction false} PrintsNone(s: seq<Instr>)
    requires forall k :: 0 <= k < |s| ==> !s[k].Print?
    ensures Prints(s) == []
    decreases |s|
  {
    if |s| > 0 {
      PrintsNone(s[1..]);
    }
  }

  /** The symbols of the cells, in order. */
  function Symbols(content: seq<Item>): seq<string> {
    seq(|content|, i requires 0 <= i < |content| => content[i].cell.symbol)
  }

  /** A cell's instructions print its symbol and nothing else. */
  lemma CellPrints(pen: Pen, last: Option<(int, int)>, it: Item)
    ensures Prints(CellInstrs(pen, last, it)) == [it.cell.symbol]
  {
    var styles := MovePart(last, it) + AttrPart(pen, it) + BgPart(pen, it) + FgPart(pen, it);
    PrintsNone(styles);
    PrintsAppend(styles, [Print(it.cell.symbol)]);
    assert Prints([Print(it.cell.symbol)]) == [it.cell.symbol] + Prints([]);
  }

  lemma SymbolsSnoc(content: seq<Item>)
    requires |content| > 0
    ensures Symbols(content) == Symbols(content[..|content| - 1]) + [content[|content| - 1].cell.symbol]
  {
  }

  lemma {:induction false} BodyPrints(content: seq<Item>)
    ensures Prints(Body(content)) == Symbols(content)
  {
    if |content| > 0 {
      var init := content[..|content| - 1];
      var last := content[|content| - 1];
      var ci := CellInstrs(PenAfter(init), LastPos(init), last);
      assert Body(content) == Body(init) + ci;
      BodyPrints(init);
      PrintsAppend(Body(init), ci);
      CellPrints(PenAfter(init), LastPos(init), last);
      SymbolsSnoc(content);
    }
  }

  /** Exactly one Print per cell, in the order of the content, and none in
      the final reset. */
  lemma EmittedPrints(content: seq<Item>)
    ensures Prints(Emitted(content)) == Symbols(content)
  {
    BodyPrints(content);
    PrintsAppend(Body(content), ResetTail);
    PrintsNone(ResetTail);
  }

  /** The stream always ends by resetting foreground, background and
      attribute, even for no cells at all. */
  lemma EmittedEnds(content: seq<Item>)
    ensures |Emitted(content)| >= 3
    ensures Emitted(content)[|Emitted(content)| - 3..] == ResetTail
    ensures content == [] ==> Emitted(content) == ResetTail
  {
  }

  /** A cell in the tracked style, right after the last one printed, costs
      a single Print. */
  lemma CellPlain(pen: Pen, last: Option<(int, int)>, it: Item)
    requires pen == Style(it.cell) && Adjacent(last, it.x, it.y)
    ensures CellInstrs(pen, last, it) == [Print(it.cell.symbol)]
  {
  }

  /** One Print per cell. */
  function PrintsOf(content: seq<Item>): seq<Instr> {
    seq(|content|, i requires 0 <= i < |content| => Print(content[i].cell.symbol))
  }

  lemma PrintsOfSnoc(content: seq<Item>)
    requires |content| > 0
    ensures PrintsOf(content) == PrintsOf(content[..|content| - 1]) + [Print(content[|content| - 1].cell.symbol)]
  {
  }

  /** A run of cells of one row, each right after the one before, all in the
      default style, is one move followed by the prints: no style instruction
      at all before the final reset. */
  lemma {:induction false} PlainRow(content: seq<Item>)
    requires |content| > 0
    requires forall i :: 0 <= i < |content| ==> Style(content[i].cell) == InitialPen
    requires forall i :: 0 < i < |content| ==> content[i].x == content[i - 1].x + 1 && content[i].y == content[i - 1].y
    ensures Body(content) == [MoveTo(content[0].x, content[0].y)] + PrintsOf(content)
  {
    var n := |content|;
    var init := content[..n - 1];
    if n == 1 {
      assert Body(init) == [];
      assert PrintsOf(content) == [Print(content[0].cell.symbol)];
    } else {
      PlainRow(init);
      assert Style(content[n - 2].cell) == InitialPen;
      assert content[n - 1].x == content[n - 2].x + 1 && content[n - 1].y == content[n - 2].y;
      CellPlain(PenAfter(init), LastPos(init), content[n - 1]);
      PrintsOfSnoc(content);
    }
  }

  // ---------------------------------------------------------------------------
  // A terminal executing the stream

  /** The rendition a terminal writes with: its two colours and the set of
      attributes switched on since the last reset. */
  datatype Rendition = Rendition(bg: Color, fg: Color, attrs: set<Attribute>)

  /** The default rendition: both colours Reset, no attribute on. */
  const PlainRendition: Rendition := Rendition(Reset, Reset, {})

  /** What a terminal holds in one cell. */
  datatype Shown = Shown(bg: Color, fg: Color, attrs: set<Attribute>, symbol: string)

  /** A terminal: its cursor, its rendition and what it shows. */
  datatype Term = Term(cursor: (int, int), pen: Rendition, screen: map<(int, int), Shown>)

  /** One instruction on the terminal, with SGR semantics: the attribute reset
      (SGR 0) switches every attribute off and resets both colours; any other
      attribute is switched on in addition to those already on. Each print
      fills one column. */
  function Exec1(t: Term, i: Instr): Term {
    match i
    case MoveTo(x, y) => t.(cursor := (x, y))
    case SetAttribute(a) =>
      if a == AttrReset then t.(pen := PlainRendition) else t.(pen := t.pen.(attrs := t.pen.attrs + {a}))
    case SetBackgroundColor(c) => t.(pen := t.pen.(bg := c))
    case SetForegroundColor(c) => t.(pen := t.pen.(fg := c))
    case Print(s) =>
      t.(screen := t.screen[t.cursor := Shown(t.pen.bg, t.pen.fg, t.pen.attrs, s)],
         cursor := (t.cursor.0 + 1, t.cursor.1))
  }

  /** A stream of instructions on the terminal, first to last. */
  function Exec(t: Term, s: seq<Instr>): Term
    decreases |s|
  {
    if |s| == 0 then t else Exec(Exec1(t, s[0]), s[1..])
  }

  lemma ExecOne(t: Term, i: Instr)
    ensures Exec(t, [i]) == Exec1(t, i)
  {
    assert [i][1..] == [];
  }

  lemma {:induction false} ExecAppend(t: Term, a: seq<Instr>, b: seq<Instr>)
    ensures Exec(t, a + b) == Exec(Exec(t, a), b)
    decreases |a|
  {
    if |a| > 0 {
      assert (a + b)[0] == a[0];
      assert (a + b)[1..] == a[1..] + b;
      ExecAppend(Exec1(t, a[0]), a[1..], b);
    } else {
      assert a + b == b;
    }
  }

  /** The attributes a cell asks for: none for the reset, else its own. */
  function AttrSet(a: Attribute): set<Attribute> {
    if a == AttrReset then {} else {a}
  }

  /** A cell shown exactly as given. */
  function Look(c: Cell): Shown {
    Shown(c.bg, c.fg, AttrSet(c.attr), c.symbol)
  }

  /** The attributes on after a cell's attribute group, from `on` with the
      tracked attribute `tracked`: nothing is sent when the cell's attribute is
      the tracked one, the reset clears them, any other is added. */
  function NextAttrs(on: set<Attribute>, tracked: Attribute, a: Attribute): set<Attribute> {
    if a == tracked then on else if a == AttrReset then {} else on + {a}
  }

  /** The attributes a terminal has on after the cells' instructions, from
      the default rendition. */
  function AttrsAfter(content: seq<Item>): set<Attribute> {
    if |content| == 0 then {}
    else
      var init := content[..|content| - 1];
      NextAttrs(AttrsAfter(init), PenAfter(init).attr, content[|content| - 1].cell.attr)
  }

  /** The screen after the cells are printed one after the other, each in its
      own colours and with the attributes on when it is printed. */
  function PaintAs(screen: map<(int, int), Shown>, content: seq<Item>): map<(int, int), Shown> {
    if |content| == 0 then screen
    else
      var last := content[|content| - 1];
      PaintAs(screen, content[..|content| - 1])[(last.x, last.y) := Shown(last.cell.bg, last.cell.fg, AttrsAfter(content), last.cell.symbol)]
  }

  /** The screen with the cells painted one after the other, each exactly as
      given. */
  function Paint(screen: map<(int, int), Shown>, content: seq<Item>): map<(int, int), Shown> {
    if |content| == 0 then screen
    else
      var last := content[|content| - 1];
      Paint(screen, content[..|content| - 1])[(last.x, last.y) := Look(last.cell)]
  }

  /** Skipping the move is safe: the cursor is already at the cell. */
  lemma ExecMove(t: Term, last: Option<(int, int)>, it: Item)
    requires last.Some? ==> t.cursor == (last.value.0 + 1, last.value.1)
    ensures Exec(t, MovePart(last, it)) == t.(cursor := (it.x, it.y))
  {
    if !Adjacent(last, it.x, it.y) {
      ExecOne(t, MoveTo(it.x, it.y));
    }
  }

  /** The attribute group keeps the tracked colours, also when the new
      attribute is the reset that clears them, and switches the attributes as
      NextAttrs says. */
  lemma ExecAttr(t: Term, pen: Pen, it: Item)
    requires t.pen.bg == pen.bg && t.pen.fg == pen.fg
    ensures Exec(t, AttrPart(pen, it)) == t.(pen := Rendition(pen.bg, pen.fg, NextAttrs(t.pen.attrs, pen.attr, it.cell.attr)))
  {
    if pen.attr != it.cell.attr {
      var i1, i2, i3 := SetAttribute(it.cell.attr), SetBackgroundColor(pen.bg), SetForegroundColor(pen.fg);
      assert AttrPart(pen, it) == [i1] + [i2] + [i3];
      ExecAppend(t, [i1] + [i2], [i3]);
      ExecAppend(t, [i1], [i2]);
      ExecOne(t, i1);
      ExecOne(Exec1(t, i1), i2);
      ExecOne(Exec1(Exec1(t, i1), i2), i3);
    }
  }

  lemma ExecBg(t: Term, pen: Pen, it: Item)
    requires t.pen.bg == pen.bg
    ensures Exec(t, BgPart(pen, it)) == t.(pen := t.pen.(bg := it.cell.bg))
  {
    if pen.bg != it.cell.bg {
      ExecOne(t, SetBackgroundColor(it.cell.bg));
    }
  }

  lemma ExecFg(t: Term, pen: Pen, it: Item)
    requires t.pen.fg == pen.fg
    ensures Exec(t, FgPart(pen, it)) == t.(pen := t.pen.(fg := it.cell.fg))
  {
    if pen.fg != it.cell.fg {
      ExecOne(t, SetForegroundColor(it.cell.fg));
    }
  }

  /** A terminal writing in the tracked colours, with its cursor right after
      the last position (if any), prints one cell at its position in the
      cell's colours, with the attributes NextAttrs leaves on, and keeps
      writing with those. */
  lemma CellExec(t: Term, pen: Pen, last: Option<(int, int)>, it: Item)
    requires t.pen.bg == pen.bg && t.pen.fg == pen.fg
    requires last.Some? ==> t.cursor == (last.value.0 + 1, last.value.1)
    ensures var on := NextAttrs(t.pen.attrs, pen.attr, it.cell.attr);
      Exec(t, CellInstrs(pen, last, it)) ==
      Term((it.x + 1, it.y), Rendition(it.cell.bg, it.cell.fg, on), t.screen[(it.x, it.y) := Shown(it.cell.bg, it.cell.fg, on, it.cell.symbol)])
  {
    var m, a, b, f := MovePart(last, it), AttrPart(pen, it), BgPart(pen, it), FgPart(pen, it);
    var p := [Print(it.cell.symbol)];
    var on := NextAttrs(t.pen.attrs, pen.attr, it.cell.attr);
    ExecAppend(t, m + a + b + f, p);
    ExecAppend(t, m + a + b, f);
    ExecAppend(t, m + a, b);
    ExecAppend(t, m, a);
    ExecMove(t, last, it);
    var t1 := Exec(t, m);
    ExecAttr(t1, pen, it);
    var t2 := Exec(t1, a);
    ExecBg(t2, pen, it);
    var t3 := Exec(t2, b);
    ExecFg(t3, pen, it);
    var t4 := Exec(t3, f);
    assert t4 == Term((it.x, it.y), Rendition(it.cell.bg, it.cell.fg, on), t.screen);
    ExecOne(t4, Print(it.cell.symbol));
  }

  /** The terminal after the cells' instructions, from the default rendition:
      the screen shows the cells painted in order, each in its own colours and
      with the attributes on at that point; the terminal keeps the last
      cell's colours and the cursor follows the last cell. */
  lemma {:induction false} BodyExec(t: Term, content: seq<Item>)
    requires t.pen == PlainRendition
    ensures var t' := Exec(t, Body(content));
      t'.screen == PaintAs(t.screen, content)
      && t'.pen == Rendition(PenAfter(content).bg, PenAfter(content).fg, AttrsAfter(content))
      && (|content| > 0 ==> t'.cursor == (content[|content| - 1].x + 1, content[|content| - 1].y))
  {
    if |content| > 0 {
      var init, it := content[..|content| - 1], content[|content| - 1];
      var pen, last := PenAfter(init), LastPos(init);
      BodyExec(t, init);
      var t1 := Exec(t, Body(init));
      ExecAppend(t, Body(init), CellInstrs(pen, last, it));
      CellExec(t1, pen, last, it);
    }
  }

  /** The whole stream, from the default rendition, paints the cells as
      PaintAs says and leaves the terminal in the default rendition again, so
      the next draw may assume it. */
  lemma EmittedExec(t: Term, content: seq<Item>)
    requires t.pen == PlainRendition
    ensures Exec(t, Emitted(content)).screen == PaintAs(t.screen, content)
    ensures Exec(t, Emitted(content)).pen == PlainRendition
  {
    BodyExec(t, content);
    var t1 := Exec(t, Body(content));
    ExecAppend(t, Body(content), ResetTail);
    var i1, i2, i3 := SetForegroundColor(Reset), SetBackgroundColor(Reset), SetAttribute(AttrReset);
    assert ResetTail == [i1] + [i2] + [i3];
    ExecAppend(t1, [i1] + [i2], [i3]);
    ExecAppend(t1, [i1], [i2]);
    ExecOne(t1, i1);
    ExecOne(Exec1(t1, i1), i2);
    ExecOne(Exec1(Exec1(t1, i1), i2), i3);
  }

  /** The attributes on always include the tracked one, and none are on
      while the tracked attribute is the reset. */
  lemma {:induction false} AttrsCover(content: seq<Item>)
    ensures AttrSet(PenAfter(content).attr) <= AttrsAfter(content)
    ensures PenAfter(content).attr == AttrReset ==> AttrsAfter(content) == {}
  {
    if |content| > 0 {
      AttrsCover(content[..|content| - 1]);
    }
  }

  /** Every change of attribute between two consecutive cells goes to or
      from the reset. */
  predicate ResetBetween(content: seq<Item>) {
    forall i :: 0 < i < |content| ==>
      content[i - 1].cell.attr == content[i].cell.attr
      || content[i - 1].cell.attr == AttrReset || content[i].cell.attr == AttrReset
  }

  /** When every change goes to or from the reset, the attributes on are
      exactly those of the last cell. */
  lemma {:induction false} AttrsExact(content: seq<Item>)
    requires ResetBetween(content)
    ensures AttrsAfter(content) == AttrSet(PenAfter(content).attr)
  {
    if |content| > 0 {
      var init := content[..|content| - 1];
      assert ResetBetween(init) by {
        forall i | 0 < i < |init|
          ensures init[i - 1].cell.attr == init[i].cell.attr
            || init[i - 1].cell.attr == AttrReset || init[i].cell.attr == AttrReset
        {
          assert init[i - 1] == content[i - 1] && init[i] == content[i];
        }
      }
      AttrsExact(init);
      if |init| > 0 {
        assert PenAfter(init).attr == content[|content| - 2].cell.attr;
      }
    }
  }

  /** When every change goes to or from the reset, each cell is painted
      exactly as given. */
  lemma {:induction false} PaintExact(screen: map<(int, int), Shown>, content: seq<Item>)
    requires ResetBetween(content)
    ensures PaintAs(screen, content) == Paint(screen, content)
  {
    if |content| > 0 {
      var init := content[..|content| - 1];
      assert ResetBetween(init) by {
        forall i | 0 < i < |init|
          ensures init[i - 1].cell.attr == init[i].cell.attr
            || init[i - 1].cell.attr == AttrReset || init[i].cell.attr == AttrReset
        {
          assert init[i - 1] == content[i - 1] && init[i] == content[i];
        }
      }
      PaintExact(screen, init);
      AttrsExact(content);
    }
  }

  /** The whole stream, for content whose attribute changes all go to or from
      the reset, shows every cell exactly as given. */
  lemma EmittedExact(t: Term, content: seq<Item>)
    requires t.pen == PlainRendition && ResetBetween(content)
    ensures Exec(t, Emitted(content)).screen == Paint(t.screen, content)
  {
    EmittedExec(t, content);
    PaintExact(t.screen, content);
  }

  /** As written, a cell whose attribute follows a different non-reset one is
      printed with both on: the stream sends no reset in between, and SGR
      attributes add up. */
  lemma AttrsLinger(content: seq<Item>, i: int)
    requires 0 < i < |content|
    requires content[i - 1].cell.attr != content[i].cell.attr
    requires content[i - 1].cell.attr != AttrReset && content[i].cell.attr != AttrReset
    ensures content[i - 1].cell.attr in AttrsAfter(content[..i + 1])
    ensures content[i].cell.attr in AttrsAfter(content[..i + 1])
  {
    var init := content[..i];
    assert content[..i + 1][..i] == init;
    assert PenAfter(init).attr == content[i - 1].cell.attr;
    AttrsCover(init);
  }

  /** A bold blank followed by an underlined one: the second is shown bold
      and underlined. */
  lemma BoldThenUnderlined()
    ensures AttrsAfter([Item(0, 0, Cell(Reset, Reset, Bold, " ")), Item(1, 0, Cell(Reset, Reset, Underlined, " "))])
      == {Bold, Underlined}
  {
    var c := [Item(0, 0, Cell(Reset, Reset, Bold, " ")), Item(1, 0, Cell(Reset, Reset, Underlined, " "))];
    assert c[..1] == [c[0]];
    assert [c[0]][..0] == [];
  }

  /** With as-written attributes: when no two cells share a position, each
      cell is shown in its own colours and symbol, with at least its own
      attribute on. */
  lemma {:induction false} PaintAsShows(screen: map<(int, int), Shown>, content: seq<Item>, i: int)
    requires 0 <= i < |content|
    requires forall j :: 0 <= j < |content| && j != i ==> (content[j].x, content[j].y) != (content[i].x, content[i].y)
    ensures (content[i].x, content[i].y) in PaintAs(screen, content)
    ensures var s, c := PaintAs(screen, content)[(content[i].x, content[i].y)], content[i].cell;
      s.bg == c.bg && s.fg == c.fg && s.symbol == c.symbol && s.attrs == AttrsAfter(content[..i + 1])
      && AttrSet(c.attr) <= s.attrs
  {
    if i < |content| - 1 {
      PaintAsShows(screen, content[..|content| - 1], i);
      assert content[..|content| - 1][..i + 1] == content[..i + 1];
    } else {
      assert content[..i + 1] == content;
    }
    AttrsCover(content[..i + 1]);
    assert PenAfter(content[..i + 1]).attr == content[i].cell.attr;
  }

  /** When no two cells share a position, each cell ends up on the screen
      exactly as given by Paint. */
  lemma {:induction false} PaintShows(screen: map<(int, int), Shown>, content: seq<Item>, i: int)
    requires 0 <= i < |content|
    requires forall j :: 0 <= j < |content| && j != i ==> (content[j].x, content[j].y) != (content[i].x, content[i].y)
    ensures (content[i].x, content[i].y) in Paint(screen, content)
    ensures Paint(screen, content)[(content[i].x, content[i].y)] == Look(content[i].cell)
  {
    if i < |content| - 1 {
      PaintShows(screen, content[..|content| - 1], i);
    }
  }
}
