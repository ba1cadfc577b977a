/** The menus of src/menu.rs: a list of actions and submenus built with
    chained builders, and a run loop that moves a cursor over the list on Up
    and Down, leaves on Esc, and on Enter runs the selected action or submenu
    and turns its Return into its own. */
module Menus {
  import opened Crossterm
  import TextElement
  import Wrappers

  /** What an action or a run hands back to the menu that started it. */
  datatype Return = ToRoot | Back | None | All

  /** What an action does when chosen: a closure whose result is not known
      here, or the closure of a back item, which always answers Back. */
  datatype Behaviour = External | Always(answer: Return)

  datatype MenuItem =
    | Action(title: string, behaviour: Behaviour)
    | SubMenu(title: string, menu: Menu)

  /** A menu: heading, items, the highlighted item and the depth marker id
      (0 for a menu that was never attached as a submenu). */
  datatype Menu = Menu(heading: TextElement.Text, list: seq<MenuItem>, cursor: int, id: int)

  function Label(item: MenuItem): string {
    match item
    case Action(l, _) => l
    case SubMenu(l, _) => l
  }

  /** Cursor and id are u16 values, the cursor is an index of the list (or 0
      while the list is empty), and every submenu is well formed too. */
  predicate Valid(m: Menu)
    decreases m
  {
    IsU16(m.id) && |m.list| <= U16Max && 0 <= m.cursor
    && (m.cursor < |m.list| || m.cursor == 0)
    && forall i :: 0 <= i < |m.list| && m.list[i].SubMenu? ==> Valid(m.list[i].menu)
  }

  // ---------------------------------------------------------------------------
  // Builders

  /** Menu::new. */
  function NewMenu(heading: string): (m: Menu)
    ensures m.list == [] && m.cursor == 0 && m.id == 0
    ensures m.heading.text == heading
    ensures Valid(m)
  {
    Menu(TextElement.WithText(TextElement.DefaultText, heading), [], 0, 0)
  }

  /** Menu::action: an item whose closure decides the result. */
  function AddAction(m: Menu, title: string): (m': Menu)
    requires Valid(m) && |m.list| < U16Max
    ensures m'.list == m.list + [Action(title, External)]
    ensures m'.cursor == m.cursor && m'.id == m.id && m'.heading == m.heading
    ensures Valid(m')
  {
    m.(list := m.list + [Action(title, External)])
  }

  /** Menu::back: an item whose closure always answers Back. */
  function AddBack(m: Menu, title: string): (m': Menu)
    requires Valid(m) && |m.list| < U16Max
    ensures m'.list == m.list + [Action(title, Always(Back))]
    ensures m'.cursor == m.cursor && m'.id == m.id && m'.heading == m.heading
    ensures Valid(m')
  {
    m.(list := m.list + [Action(title, Always(Back))])
  }

  /** Menu::sub_menu: the child is marked one level deeper than this menu
      (the u16 addition panics past 65535). */
  function AddSubMenu(m: Menu, title: string, child: Menu): (m': Menu)
    requires Valid(m) && |m.list| < U16Max && Valid(child)
    requires m.id < U16Max
    ensures m'.list == m.list + [SubMenu(title, child.(id := m.id + 1))]
    ensures m'.cursor == m.cursor && m'.id == m.id && m'.heading == m.heading
    ensures Valid(m')
  {
    m.(list := m.list + [SubMenu(title, child.(id := m.id + 1))])
  }

  /** Every submenu, at any depth, has a non-zero id. */
  predicate SubIdsNonZero(m: Menu)
    decreases m
  {
    forall i :: 0 <= i < |m.list| && m.list[i].SubMenu? ==>
      m.list[i].menu.id != 0 && SubIdsNonZero(m.list[i].menu)
  }

  /** Menus built with the builders only have non-zero ids below the root:
      a child's own submenus keep the ids given when the child was built,
      and those are at least 1 as well. */
  lemma BuiltIds(m: Menu, title: string, child: Menu)
    requires SubIdsNonZero(m) && SubIdsNonZero(child)
    requires Valid(m) && |m.list| < U16Max && Valid(child) && m.id < U16Max
    ensures SubIdsNonZero(NewMenu(title))
    ensures SubIdsNonZero(AddAction(m, title)) && SubIdsNonZero(AddBack(m, title))
    ensures SubIdsNonZero(AddSubMenu(m, title, child))
  {
    var m' := AddSubMenu(m, title, child);
    assert m'.list[|m.list|].menu.list == child.list;
    assert SubIdsNonZero(m'.list[|m.list|].menu);
  }

  // ---------------------------------------------------------------------------
  // Cursor moves

  /** Down: one item further, wrapping from the last to the first. */
  function CursorDown(c: int, n: int): int {
    if c + 1 == n then 0 else c + 1
  }

  /** Up: one item back, wrapping from the first to the last. */
  function CursorUp(c: int, n: int): int {
    if c == 0 then n - 1 else c - 1
  }

  /** Both moves keep the cursor an index of a non-empty list. */
  lemma CursorInRange(c: int, n: int)
    requires 0 <= c < n
    ensures 0 <= CursorDown(c, n) < n && 0 <= CursorUp(c, n) < n
  {
  }

  /** Up undoes Down and Down undoes Up. */
  lemma CursorUpDown(c: int, n: int)
    requires 0 <= c < n
    ensures CursorUp(CursorDown(c, n), n) == c
    ensures CursorDown(CursorUp(c, n), n) == c
  {
  }

  /** The moves wrap exactly at the ends of the list. */
  lemma CursorWraps(n: int)
    requires n > 0
    ensures CursorDown(n - 1, n) == 0 && CursorUp(0, n) == n - 1
    ensures forall c :: 0 <= c < n - 1 ==> CursorDown(c, n) == c + 1
    ensures forall c :: 0 < c < n ==> CursorUp(c, n) == c - 1
  {
  }

  /** Pressing Down k times moves k items on, modulo the list; after n
      presses the cursor is back where it started. */
  function DownTimes(c: int, n: int, k: nat): int
  {
    if k == 0 then c else CursorDown(DownTimes(c, n, k - 1), n)
  }

  lemma {:induction false} DownTimesShift(c: int, n: int, k: nat)
    requires 0 <= c < n && k <= n
    ensures DownTimes(c, n, k) == (if c + k < n then c + k else c + k - n)
  {
    if k > 0 {
      DownTimesShift(c, n, k - 1);
    }
  }

  lemma DownTimesCycle(c: int, n: int)
    requires 0 <= c < n
    ensures DownTimes(c, n, n) == c
    ensures forall k: nat :: 0 < k < n ==> DownTimes(c, n, k) != c
  {
    DownTimesShift(c, n, n);
    forall k: nat | 0 < k < n
      ensures DownTimes(c, n, k) != c
    {
      DownTimesShift(c, n, k);
    }
  }

  // ---------------------------------------------------------------------------
  // The run loop

  /** One loop turn's input: the event read, and the answer the selected
      action's closure gives if this turn chooses an action with one. */
  datatype Tick = Tick(event: Event, reply: Return)

  /** How a run ends: with a Return, waiting for events that have not come,
      or in the panic of the list-length arithmetic on an empty list. */
  datatype Outcome = Done(r: Return) | Blocked | Panicked

  /** What a menu does with the result of its chosen item. */
  datatype Next = Stop(r: Return) | Continue

  /** Back closes only this menu (its caller sees None), All closes every
      menu, ToRoot closes every menu but the root (id 0), None stays. */
  function Propagate(r: Return, id: int): (n: Next)
    ensures n != Stop(Back)
    ensures n.Stop? ==> n.r == (if r == Back then None else r)
  {
    match r
    case ToRoot => if id != 0 then Stop(ToRoot) else Continue
    case Back => Stop(None)
    case All => Stop(All)
    case None => Continue
  }

  /** How a run (or the chosen item) ended, the menu as it was left, and the
      position of the first event it did not read. */
  datatype Ran = Ran(o: Outcome, m: Menu, next: int)

  /** The key of a key event, if it is one. */
  function KeyOf(e: Event): Wrappers.Option<KeyCode> {
    if e.Key? then Wrappers.Some(e.key.code) else Wrappers.None
  }

  /** Menu::run on the events from position pos on: an empty list panics
      at (len * 2 - 1) before the loop. */
  function RunSpec(m: Menu, ev: seq<Tick>, pos: int): (res: Ran)
    requires Valid(m) && 0 <= pos <= |ev|
    ensures Valid(res.m) && |res.m.list| == |m.list| && res.m.id == m.id
    ensures pos <= res.next <= |ev|
    decreases |ev| - pos, 3
  {
    if |m.list| == 0 then Ran(Panicked, m, pos) else Loop(m, ev, pos)
  }

  /** The body of run's loop, turn by turn. */
  function Loop(m: Menu, ev: seq<Tick>, pos: int): (res: Ran)
    requires Valid(m) && |m.list| > 0 && 0 <= pos <= |ev|
    ensures Valid(res.m) && |res.m.list| == |m.list| && res.m.id == m.id
    ensures pos <= res.next <= |ev|
    decreases |ev| - pos, 2
  {
    if pos == |ev| then Ran(Blocked, m, pos)
    else
      var key := KeyOf(ev[pos].event);
      if key == Wrappers.Some(Esc) then Ran(Done(All), m, pos + 1)
      else if key == Wrappers.Some(Down) then Loop(m.(cursor := CursorDown(m.cursor, |m.list|)), ev, pos + 1)
      else if key == Wrappers.Some(Up) then Loop(m.(cursor := CursorUp(m.cursor, |m.list|)), ev, pos + 1)
      else if key == Wrappers.Some(Enter) then After(m, Choose(m, ev, pos + 1), ev)
      else Loop(m, ev, pos + 1)
  }

  /** What the loop does with the chosen item's result. */
  function After(m: Menu, s: Ran, ev: seq<Tick>): (res: Ran)
    requires Valid(s.m) && |s.m.list| > 0 && 0 < s.next <= |ev|
    ensures Valid(res.m) && |res.m.list| == |s.m.list| && res.m.id == s.m.id
    ensures s.next <= res.next <= |ev|
    decreases |ev| - s.next + 1, 1
  {
    if !s.o.Done? then s
    else match Propagate(s.o.r, s.m.id)
      case Stop(r) => Ran(Done(r), s.m, s.next)
      case Continue => Loop(s.m, ev, s.next)
  }

  /** Enter on the highlighted item: an action answers at once; a submenu
      runs on the following events and stays in the list as it was left,
      cursor included. */
  function Choose(m: Menu, ev: seq<Tick>, pos: int): (res: Ran)
    requires Valid(m) && |m.list| > 0 && 0 < pos <= |ev|
    ensures Valid(res.m) && |res.m.list| == |m.list| && res.m.id == m.id
    ensures res.m.cursor == m.cursor
    ensures pos <= res.next <= |ev|
    decreases |ev| - pos, 4
  {
    match m.list[m.cursor]
    case Action(_, External) => Ran(Done(ev[pos - 1].reply), m, pos)
    case Action(_, Always(r)) => Ran(Done(r), m, pos)
    case SubMenu(title, sub) =>
      var s := RunSpec(sub, ev, pos);
      Ran(s.o, ReplaceSub(m, title, s.m), s.next)
  }

  /** The menu with the highlighted submenu replaced by its new state. */
  function ReplaceSub(m: Menu, title: string, sub: Menu): (m': Menu)
    requires Valid(m) && |m.list| > 0 && Valid(sub)
    ensures Valid(m') && |m'.list| == |m.list| && m'.id == m.id && m'.cursor == m.cursor
    ensures m'.list[m.cursor] == SubMenu(title, sub)
    ensures forall i :: 0 <= i < |m.list| && i != m.cursor ==> m'.list[i] == m.list[i]
  {
    m.(list := m.list[m.cursor := SubMenu(title, sub)])
  }

  /** Esc ends the run with All. */
  lemma EscEndsAll(m: Menu, ev: seq<Tick>, pos: int)
    requires Valid(m) && |m.list| > 0 && 0 <= pos < |ev|
    requires ev[pos].event == Key(KeyEvent(Esc))
    ensures RunSpec(m, ev, pos) == Ran(Done(All), m, pos + 1)
  {
  }

  /** Enter on an action: Back becomes None, All stays All, ToRoot leaves a
      submenu but not the root, None keeps the menu running on the rest. */
  lemma EnterAction(m: Menu, title: string, ev: seq<Tick>, pos: int)
    requires Valid(m) && |m.list| > 0 && 0 <= pos < |ev|
    requires m.list[m.cursor] == Action(title, External) && ev[pos].event == Key(KeyEvent(Enter))
    ensures ev[pos].reply == Back ==> RunSpec(m, ev, pos) == Ran(Done(None), m, pos + 1)
    ensures ev[pos].reply == All ==> RunSpec(m, ev, pos) == Ran(Done(All), m, pos + 1)
    ensures ev[pos].reply == ToRoot ==>
      RunSpec(m, ev, pos) == (if m.id != 0 then Ran(Done(ToRoot), m, pos + 1) else RunSpec(m, ev, pos + 1))
    ensures ev[pos].reply == None ==> RunSpec(m, ev, pos) == RunSpec(m, ev, pos + 1)
  {
    assert KeyOf(ev[pos].event) == Wrappers.Some(Enter);
    assert Loop(m, ev, pos) == After(m, Choose(m, ev, pos + 1), ev);
    assert Choose(m, ev, pos + 1) == Ran(Done(ev[pos].reply), m, pos + 1);
  }

  /** A back item closes its menu: the caller sees None. */
  lemma EnterBack(m: Menu, title: string, ev: seq<Tick>, pos: int)
    requires Valid(m) && |m.list| > 0 && 0 <= pos < |ev|
    requires m.list[m.cursor] == Action(title, Always(Back)) && ev[pos].event == Key(KeyEvent(Enter))
    ensures RunSpec(m, ev, pos) == Ran(Done(None), m, pos + 1)
  {
    assert KeyOf(ev[pos].event) == Wrappers.Some(Enter);
    assert Loop(m, ev, pos) == After(m, Choose(m, ev, pos + 1), ev);
    assert Choose(m, ev, pos + 1) == Ran(Done(Back), m, pos + 1);
  }

  /** Enter on a submenu runs it on the following events; when it hands
      back None the menu goes on reading after the submenu's last event,
      with the submenu's new state kept. */
  lemma EnterSubMenu(m: Menu, title: string, sub: Menu, ev: seq<Tick>, pos: int)
    requires Valid(m) && |m.list| > 0 && 0 <= pos < |ev|
    requires m.list[m.cursor] == SubMenu(title, sub) && ev[pos].event == Key(KeyEvent(Enter))
    ensures var s := RunSpec(sub, ev, pos + 1);
      s.o == Done(None) ==> RunSpec(m, ev, pos) == RunSpec(ReplaceSub(m, title, s.m), ev, s.next)
    ensures var s := RunSpec(sub, ev, pos + 1);
      !s.o.Done? ==> RunSpec(m, ev, pos) == Ran(s.o, ReplaceSub(m, title, s.m), s.next)
  {
    var s := RunSpec(sub, ev, pos + 1);
    assert KeyOf(ev[pos].event) == Wrappers.Some(Enter);
    assert Loop(m, ev, pos) == After(m, Choose(m, ev, pos + 1), ev);
    assert Choose(m, ev, pos + 1) == Ran(s.o, ReplaceSub(m, title, s.m), s.next);
  }

  /** Down and Up move the cursor and keep reading; any other event is
      skipped. */
  lemma MoveKeys(m: Menu, ev: seq<Tick>, pos: int)
    requires Valid(m) && |m.list| > 0 && 0 <= pos < |ev|
    ensures ev[pos].event == Key(KeyEvent(Down)) ==>
      RunSpec(m, ev, pos) == RunSpec(m.(cursor := CursorDown(m.cursor, |m.list|)), ev, pos + 1)
    ensures ev[pos].event == Key(KeyEvent(Up)) ==>
      RunSpec(m, ev, pos) == RunSpec(m.(cursor := CursorUp(m.cursor, |m.list|)), ev, pos + 1)
    ensures KeyOf(ev[pos].event) !in {Wrappers.Some(Esc), Wrappers.Some(Down), Wrappers.Some(Up), Wrappers.Some(Enter)} ==>
      RunSpec(m, ev, pos) == RunSpec(m, ev, pos + 1)
  {
  }

  /** A run never hands Back to its caller, the root never hands it ToRoot,
      and a run only waits once every event is read. */
  lemma {:induction false} RunResults(m: Menu, ev: seq<Tick>, pos: int)
    requires Valid(m) && 0 <= pos <= |ev|
    ensures RunSpec(m, ev, pos).o != Done(Back)
    ensures m.id == 0 ==> RunSpec(m, ev, pos).o != Done(ToRoot)
    ensures RunSpec(m, ev, pos).o == Blocked ==> RunSpec(m, ev, pos).next == |ev|
    decreases |ev| - pos, 3
  {
    if |m.list| > 0 {
      LoopResults(m, ev, pos);
    }
  }

  lemma {:induction false} LoopResults(m: Menu, ev: seq<Tick>, pos: int)
    requires Valid(m) && |m.list| > 0 && 0 <= pos <= |ev|
    ensures Loop(m, ev, pos).o != Done(Back)
    ensures m.id == 0 ==> Loop(m, ev, pos).o != Done(ToRoot)
    ensures Loop(m, ev, pos).o == Blocked ==> Loop(m, ev, pos).next == |ev|
    decreases |ev| - pos, 2
  {
    if pos < |ev| {
      var key := KeyOf(ev[pos].event);
      if key == Wrappers.Some(Esc) {
      } else if key == Wrappers.Some(Down) {
        LoopResults(m.(cursor := CursorDown(m.cursor, |m.list|)), ev, pos + 1);
      } else if key == Wrappers.Some(Up) {
        LoopResults(m.(cursor := CursorUp(m.cursor, |m.list|)), ev, pos + 1);
      } else if key == Wrappers.Some(Enter) {
        var s := Choose(m, ev, pos + 1);
        ChooseResults(m, ev, pos + 1);
        if s.o.Done? && Propagate(s.o.r, m.id) == Continue {
          LoopResults(s.m, ev, s.next);
        }
      } else {
        LoopResults(m, ev, pos + 1);
      }
    }
  }

  lemma {:induction false} ChooseResults(m: Menu, ev: seq<Tick>, pos: int)
    requires Valid(m) && |m.list| > 0 && 0 < pos <= |ev|
    ensures Choose(m, ev, pos).o == Blocked ==> Choose(m, ev, pos).next == |ev|
    decreases |ev| - pos, 4
  {
    if m.list[m.cursor].SubMenu? {
      RunResults(m.list[m.cursor].menu, ev, pos);
    }
  }

  /** Menu::run on the events from position pos on, returning how it ended,
      the menu as the run left it (cursor moves, submenus' states) and the
      position of the first event it did not read. */
  method Run(m: Menu, ev: seq<Tick>, pos: int) returns (res: Ran)
    requires Valid(m) && 0 <= pos <= |ev|
    ensures res == RunSpec(m, ev, pos)
    decreases |ev| - pos, 3
  {
    if |m.list| == 0 {
      return Ran(Panicked, m, pos);
    }
    var cur, i := m, pos;
    while true
      invariant Valid(cur) && |cur.list| == |m.list| && cur.id == m.id
      invariant pos <= i <= |ev|
      invariant Loop(cur, ev, i) == RunSpec(m, ev, pos)
      decreases |ev| - i
    {
      if i == |ev| {
        return Ran(Blocked, cur, i);
      }
      var t := ev[i];
      i := i + 1;
      if t.event.Key? {
        match t.event.key.code {
          case Esc =>
            return Ran(Done(All), cur, i);
          case Down =>
            cur := cur.(cursor := CursorDown(cur.cursor, |cur.list|));
          case Up =>
            cur := cur.(cursor := CursorUp(cur.cursor, |cur.list|));
          case Enter =>
            var s := RunItem(cur, ev, i);
            if !s.o.Done? {
              return s;
            }
            match Propagate(s.o.r, cur.id) {
              case Stop(r) =>
                return Ran(Done(r), s.m, s.next);
              case Continue =>
                cur, i := s.m, s.next;
            }
          case _ =>
        }
      }
    }
  }

  /** The Enter branch of run's loop: call the action, or run the submenu
      in place. */
  method RunItem(m: Menu, ev: seq<Tick>, pos: int) returns (res: Ran)
    requires Valid(m) && |m.list| > 0 && 0 < pos <= |ev|
    ensures res == Choose(m, ev, pos)
    decreases |ev| - pos, 4
  {
    match m.list[m.cursor] {
      case Action(_, External) =>
        res := Ran(Done(ev[pos - 1].reply), m, pos);
      case Action(_, Always(r)) =>
        res := Ran(Done(r), m, pos);
      case SubMenu(title, sub) =>
        var s := Run(sub, ev, pos);
        res := Ran(s.o, m.(list := m.list[m.cursor := SubMenu(title, s.m)]), s.next);
    }
  }

  // ---------------------------------------------------------------------------
  // Layout of the options

  /** The options window's height, (len * 2 - 1) as u16: the usize
      subtraction panics on an empty list, the cast keeps 16 bits. */
  function OptionsHeight(n: nat): (h: Wrappers.Option<int>)
    ensures h.None? <==> n == 0
    ensures 0 < n <= 32768 ==> h == Wrappers.Some(2 * n - 1)
  {
    if n == 0 then Wrappers.None else Wrappers.Some((2 * n - 1) % 0x1_0000)
  }

  /** The row of item idx, (idx * 2) as u16. */
  function ItemRow(idx: nat): int {
    (idx * 2) % 0x1_0000
  }

  /** For lists of up to 32768 items the rows are distinct, a blank row
      apart, and the last one is the last row of the window. */
  lemma OptionsLayout(n: nat, i: nat, j: nat)
    requires 0 < n <= 32768 && i < n && j < n
    ensures 0 <= ItemRow(i) < OptionsHeight(n).value
    ensures ItemRow(n - 1) == OptionsHeight(n).value - 1
    ensures i < j ==> ItemRow(i) + 2 <= ItemRow(j)
  {
  }

  /** The options drawn in one loop turn: each title, on its row, and
      whether it is the highlighted (green, black text) one. */
  datatype OptionLine = OptionLine(title: string, row: int, highlighted: bool)

  function Options(m: Menu): (lines: seq<OptionLine>)
    ensures |lines| == |m.list|
  {
    seq(|m.list|, i requires 0 <= i < |m.list| =>
      OptionLine(Label(m.list[i]), ItemRow(i), i == m.cursor))
  }

  /** On a well-formed non-empty menu exactly the cursor's line is
      highlighted. */
  lemma OneHighlighted(m: Menu)
    requires Valid(m) && |m.list| > 0
    ensures Options(m)[m.cursor].highlighted
    ensures forall i :: 0 <= i < |m.list| && Options(m)[i].highlighted ==> i == m.cursor
  {
  }
}
