// The parts of the crossterm crate's vocabulary that the program passes
// around: colours, text attributes, key codes and terminal events. They are
// plain values here; the crate's own behaviour is not part of this model.

module Crossterm {

  /** The largest value of a Rust u16. */
  const U16Max: int := 0xFFFF

  /** A value that fits in a Rust u16. */
  predicate IsU16(n: int) {
    0 <= n <= U16Max
  }

  /** crossterm::style::Color. */
  datatype Color =
    | Reset
    | Black | DarkGrey | Red | DarkRed | Green | DarkGreen | Yellow | DarkYellow
    | Blue | DarkBlue | Magenta | DarkMagenta | Cyan | DarkCyan | White | Grey
    | Rgb(r: int, g: int, b: int)
    | AnsiValue(n: int)

  /** crossterm::style::Attribute (the attributes are kept abstract). */
  datatype Attribute =
    | AttrReset
    | Bold | Dim | Italic | Underlined | SlowBlink | Reverse | Hidden | CrossedOut
    | OtherAttribute(sgr: int)

  /** crossterm::event::KeyCode, with the keys the program tells apart. */
  datatype KeyCode =
    | Esc | Up | Down | Left | Right | Enter | Backspace | Tab
    | Char(c: char)
    | OtherKey(code: int)

  /** crossterm::event::KeyEvent; modifiers play no role in the program. */
  datatype KeyEvent = KeyEvent(code: KeyCode)

  /** crossterm::event::Event. */
  datatype Event =
    | Key(key: KeyEvent)
    | Mouse
    | Resize(columns: int, rows: int)
    | FocusGained
    | FocusLost
    | Paste(text: string)
}
