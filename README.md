# othello-rs core, modelled in Dafny

This project models the sequential core of othello-rs, a terminal Othello game written in Rust. It covers four parts:

- **The board engine** (`board.dfy`, `game.dfy`). An 8x8 array of side characters (`'b'`, `'w'`, `'0'` for empty) that is updated in place. It has:
  - the eight ray directions of `TRAV_ARR`;
  - the ray walk `traverseFrom`;
  - the run flip `flipFrom`;
  - move application `traverseAndFlip`;
  - the move search `hasPossibleMoves`;
  - score counting `getPointsFor`;
  - the opening position `init_board`.

  `Board` is a class over an `array2<char>`, with a ghost grid `G` kept equal to it. Every method is proved against a function on that grid. The lemmas about those functions state what the moves mean:
  - the capture rule of Othello;
  - which cells change;
  - how the scores move.
- **The cell grid and drawables** (`buffer.dfy`, `rectangle.dfy`, `text.dfy`, `custom_elements.dfy`).
  - Styled cells, rectangles and buffers of cells, addressed row-major.
  - The rectangle, text and dialog-box elements, and what their `draw` paints, cell by cell.
  - The string edits of the text element.
- **The instruction emitter** (`crossterm_handler.dfy`). `CrosstermHandler::draw` turns positioned cells into a coalesced stream of cursor moves, style changes and prints, ending with a style reset.
  - The stream is specified by a function, and its coalescing rules are proved.
  - A small terminal model with SGR semantics (the reset clears every attribute, any other attribute is added to those on) shows that running the stream paints every cell in its own colours and symbol, with at least its own attribute on, and leaves the terminal in the default rendition. Attributes switched on by earlier cells linger: a cell is shown exactly as given when every attribute change in the stream goes to or from the reset, and a cell after a different non-reset attribute is shown with both.
- **The menu and the online lobby** (`menu.dfy`, `online_lobby.dfy`).
  - The menu's builders, the cursor's wrap-around and the `Return` propagation of its run loop, over a sequence of input events.
  - The lobby's server links, the game id taken from an invitation link, the guard and reply handling of the game-info lookup, and the key filter of the event stream.

`crossterm.dfy` holds the crossterm types the code uses (colours, attributes, key codes, events, the u16 range). `wrappers.dfy` holds `Option` and `Result`.

## Model

| member | source | states |
|---|---|---|
| OthelloBoard.TravArrDirections | src/game/board.rs:20-29 | TRAV_ARR has 8 entries, each a non-zero step in {-1,0,1}², all distinct, and every such step occurs in it |
| OthelloBoard.EmptyGrid | src/game/board.rs:31-35 | the default grid is 64 cells, every one `'0'` |
| OthelloBoard.Set | src/game/board.rs:95 | writing one cell changes that cell only |
| OthelloBoard.RaysDisjoint | src/game/board.rs:20-29 | rays leaving a cell in two different directions of TRAV_ARR share no cell |
| OthelloBoard.RunFromCells | src/game/board.rs:72-75 | the run counted by the walk is maximal: its cells all hold the walked side, and the cell after it is off the board or holds something else |
| OthelloBoard.WalkEndStops | src/game/board.rs:72-75 | the walk stops on a cell that is off the board or does not hold the side, and unless it stops at once the cell before it is on the board |
| OthelloBoard.WalkEndRun | src/game/board.rs:72-75 | the walk stops exactly the run's length of steps after its start |
| OthelloBoard.RunFromFrame | src/game/board.rs:72-75 | the run and the walk's end depend only on the cells of its own ray |
| OthelloBoard.TraverseLanding | src/game/board.rs:77-84 | after the step back, the cell read is on the board, and the answer is "it holds mySide and is not the origin's neighbour" |
| OthelloBoard.RunAfter | src/game/board.rs:68-75 | steps 1..k from the origin hold the opponent, step k+1 does not, and the walk stops at step k+1 |
| OthelloBoard.TraverseOffBoard | src/game/board.rs:77-84 | when the origin does not hold mySide, a success never comes from a walk that left the board |
| OthelloBoard.TraverseSound | src/game/board.rs:67-87 | a success from an origin that does not hold mySide, with distinct sides, means the capture rule holds in that direction |
| OthelloBoard.TraverseComplete | src/game/board.rs:67-87 | when the capture rule holds (at least one opponent stone, then mySide on the board), traverseFrom succeeds |
| OthelloBoard.RunLengthUnique | src/game/board.rs:72-75 | the capture rule fixes the length of the opponent run: it is the run the walk goes over |
| OthelloBoard.TraverseMeaning | src/game/board.rs:67-87 | traverseFrom succeeds if and only if the capture rule holds, given an origin that does not hold mySide and distinct sides |
| OthelloBoard.TraverseNeedsOpponent | src/game/board.rs:82 | a neighbour that already holds mySide gives false: at least one opponent stone is needed |
| OthelloBoard.TraverseEdgeQuirk | src/game/board.rs:77-84 | when the origin holds mySide and its neighbour is off the board, the step back lands on the origin and the answer is true without any opponent stone |
| OthelloBoard.LandingPlace | src/game/board.rs:77-80 | the cell read after the step back is the origin or a cell of the ray |
| OthelloBoard.TraverseFrame | src/game/board.rs:67-87 | traverseFrom reads only the origin and the cells on its ray |
| OthelloBoard.FlipRunAt | src/game/board.rs:89-99 | flipFrom rewrites exactly the maximal run of `flipFrom` cells starting next to the origin to `flipTo`; every other cell, the origin and the run's end included, keeps its value |
| OthelloBoard.FlipRunOffRay | src/game/board.rs:89-99 | flipFrom changes no cell off its ray |
| OthelloBoard.SweepNext | src/game/board.rs:104-110 | each pass of the loop sees the same traverseFrom answer as on the board before the move, since earlier directions flip only cells of their own rays |
| OthelloBoard.SweepAt | src/game/board.rs:104-110 | after n directions, a cell holds mySide if one of them flips it, and its old value otherwise |
| OthelloBoard.AnySucceedsExists | src/game/board.rs:104-110 | the accumulated `isFlipped` is true exactly when some direction's traverseFrom succeeded |
| OthelloBoard.NotFlippedElsewhere | src/game/board.rs:104-110 | no direction flips the origin or a cell on another direction's ray |
| OthelloBoard.MoveAt | src/game/board.rs:101-117 | after traverseAndFlip, a cell becomes mySide exactly when it is the origin of a legal move or lies in the opponent run of a successful direction; every other cell keeps its value |
| OthelloBoard.MoveIllegalUnchanged | src/game/board.rs:101-117 | a move with no successful direction leaves the board unchanged |
| OthelloBoard.PointsBound | src/game/board.rs:135-146 | a score is at most the number of cells |
| OthelloBoard.PointsUpdate | src/game/board.rs:135-146 | replacing one cell moves one point from its old side to its new side |
| OthelloBoard.PointsPartition | src/game/board.rs:135-146 | on a board of black, white and empty cells, the three counts add up to 64 |
| OthelloBoard.FlipRunPoints | src/game/board.rs:89-99 | flipping a run keeps the sum of both scores and never raises the opponent's score |
| OthelloBoard.StepPoints | src/game/board.rs:105-108 | one direction's traverse-and-flip keeps the sum of both scores and never raises the opponent's score |
| OthelloBoard.SweepPoints | src/game/board.rs:104-110 | all eight directions together keep the sum of both scores and never raise the opponent's score |
| OthelloBoard.MoveScore | src/game/board.rs:101-117 | a legal move on an empty cell raises the sum of both scores by exactly one and never raises the opponent's score |
| OthelloBoard.HasMoveMeaning | src/game/board.rs:119-133 | for real sides, hasPossibleMoves's search succeeds if and only if some mySide cell has a ray of at least one opponent stone ending on an empty cell |
| OthelloBoard.Board.Default | src/game/board.rs:31-35 | Board::default is a fresh 8x8 array of `'0'` |
| OthelloBoard.Board.WalkOver | src/game/board.rs:72-75 | the while loop of traverseFrom stops where the walk over the side ends |
| OthelloBoard.Board.TraverseFrom | src/game/board.rs:67-87 | returns the walk's outcome and changes nothing, since it has no modifies clause |
| OthelloBoard.Board.FlipFrom | src/game/board.rs:89-99 | the new board is the old one with the run from the origin's neighbour flipped |
| OthelloBoard.Board.TraverseAndFlipAlong | src/game/board.rs:105-109 | one pass of the loop answers the direction's traverseFrom on the old board, and flips its run when it succeeds |
| OthelloBoard.Board.TraverseAndFlip | src/game/board.rs:101-117 | returns whether the move is legal, and leaves the board after all eight directions and the origin's write |
| OthelloBoard.Board.HasPossibleMoves | src/game/board.rs:119-133 | returns whether some mySide cell has a direction whose traverseFrom, looking for `'0'`, succeeds; the board is not changed |
| OthelloBoard.Board.GetPointsFor | src/game/board.rs:135-146 | returns the number of cells holding s, at most 64, so that the i8 result cannot overflow |
| OthelloGame.OpeningCells | src/game.rs:25-30 | init_board sets (3,3) and (4,4) to black and (3,4) and (4,3) to white, and changes no other cell |
| OthelloGame.OpeningIdempotent | src/game.rs:25-30 | a second init_board changes nothing |
| OthelloGame.OpeningScores | src/game.rs:25-30 | on a fresh game after init_board, each side scores 2 and 60 cells are empty |
| OthelloGame.OpeningHasMoves | src/game.rs:25-30 | in the opening position both black and white have a possible move |
| OthelloGame.Game.Default | src/game.rs:18-22 | Game::default holds a fresh board with every cell empty |
| OthelloGame.Game.InitBoard | src/game.rs:25-30 | the board is updated in place to the opening position of its old contents |
| TerminBuffer.NewRect | src/termin/buffer.rs:25-27 | Rect::new stores its four u16 arguments unchanged |
| TerminBuffer.DefaultRectEmpty | src/termin/buffer.rs:34-38 | Rect::default is (0, 0, 0, 0), a u16 rectangle with area 0 |
| TerminBuffer.Area | src/termin/buffer.rs:29-31 | the u16 product width * height of a rectangle whose product fits stays a u16 |
| TerminBuffer.AreaZero | src/termin/buffer.rs:29-31 | the area is zero exactly when the width or the height is |
| TerminBuffer.EmptyBuffer | src/termin/buffer.rs:46-49 | Buffer::empty keeps the rectangle, and has one default cell per unit of area |
| TerminBuffer.Filled | src/termin/buffer.rs:51-54 | Buffer::filled keeps the rectangle, and has one copy of the fill per unit of area |
| TerminBuffer.EmptyIsFilledDefault | src/termin/buffer.rs:11-15 | an empty buffer equals a buffer filled with Cell::default (Reset, Reset, Reset, " ") |
| TerminBuffer.FilledCells | src/termin/buffer.rs:46-54 | every cell read at (x, y) of a filled buffer is the fill, and of an empty buffer Cell::default |
| TerminBuffer.IndexInjective | src/termin/buffer.rs:40-43 | different cells of a buffer have different places in its contents |
| TerminBuffer.IndexOnto | src/termin/buffer.rs:40-43 | every place of the contents belongs to one cell |
| TerminBuffer.Modify | src/termin/elements/text.rs:75 | writing through get_mut(x, y) changes that cell only and keeps the buffer's rectangle and size |
| TerminBuffer.Repaint | src/termin/elements/rectangle.rs:28-33 | a cell-wise repaint gives each cell f of its position and old value |
| TerminBuffer.SameCells | src/termin/buffer.rs:40-43 | two buffers over the same rectangle with the same cells are equal |
| RectangleElement.DrawnCells | src/termin/elements/rectangle.rs:27-34 | drawing sets the background of every cell of the rectangle and keeps its foreground, attribute and symbol; cells outside are unchanged |
| RectangleElement.DrawnEmpty | src/termin/elements/rectangle.rs:20-24 | a rectangle with zero width or height, like the default, leaves the buffer unchanged |
| RectangleElement.DrawnIdempotent | src/termin/elements/rectangle.rs:27-34 | drawing the same rectangle twice is drawing it once |
| RectangleElement.Draw | src/termin/elements/rectangle.rs:27-34 | the nested loops produce exactly the drawn buffer |
| RectangleElement.NewRectangle | src/termin/elements/rectangle.rs:13-15 | Rectangle::new has the given u16 rectangle and the default background |
| RectangleElement.DefaultRectangleEmpty | src/termin/elements/rectangle.rs:20-24 | Rectangle::default lies at the origin with no area and the default background |
| RectangleElement.Size | src/termin/elements/rectangle.rs:18 | size sets the width and height and keeps the position and background |
| RectangleElement.WithBg | src/termin/elements/rectangle.rs:18 | bg sets the background and keeps the rectangle |
| RectangleElement.RectangleSetters | src/termin/elements/rectangle.rs:18 | size and bg commute, and the last background set is the one kept |
| TextElement.WithText | src/termin/elements/text.rs:26-35 | the builder stores the string, keeps the colours and position, turns a zero width into the length cast to u16 and a zero height into 1, and keeps non-zero sizes |
| TextElement.WithTextFits | src/termin/elements/text.rs:26-35 | a string that fits in u16 gets a box exactly its length wide, and applying the builder again changes nothing |
| TextElement.NewText | src/termin/elements/text.rs:13-15 | Text::new has the given u16 rectangle, the default colours and no text |
| TextElement.DefaultTextEmpty | src/termin/elements/text.rs:63-67 | Text::default lies at the origin with no area, in the default colours and with no text |
| TextElement.TextSize | src/termin/elements/text.rs:61 | size sets the width and height and keeps the position, colours and text |
| TextElement.TextXy | src/termin/elements/text.rs:61 | xy sets the position and keeps the size, colours and text |
| TextElement.WithFg | src/termin/elements/text.rs:17-24 | fg and set_fg set the foreground and keep everything else |
| TextElement.SettersCommute | src/termin/elements/text.rs:61 | size, xy and fg touch separate fields and commute, and size with xy set the whole rectangle |
| TextElement.SetText | src/termin/elements/text.rs:37-39 | set_text replaces the string and keeps the rectangle and colours |
| TextElement.SetTextLastWins | src/termin/elements/text.rs:37-39 | of two set_text calls only the last one counts |
| TextElement.WithTextIsSetText | src/termin/elements/text.rs:26-39 | on a box whose width and height are set, the builder text is set_text |
| TextElement.PushString | src/termin/elements/text.rs:41-43 | push_string keeps the old text as a prefix and puts exactly s after it, keeping the rectangle and colours |
| TextElement.PushStringTwice | src/termin/elements/text.rs:41-43 | two pushes equal one push of both strings in order |
| TextElement.PushOntoCleared | src/termin/elements/text.rs:37-43 | pushing onto a text set to the empty string is setting the text |
| TextElement.AddCharAt | src/termin/elements/text.rs:45-47 | the character is inserted at idx, with the text before and after it kept; nothing else changes |
| TextElement.RemoveCharAt | src/termin/elements/text.rs:49-54 | on an empty text nothing changes; otherwise exactly the character at idx is removed |
| TextElement.AddThenRemove | src/termin/elements/text.rs:45-54 | removing the character just inserted gives back the element |
| TextElement.RemoveThenAdd | src/termin/elements/text.rs:45-54 | putting back the character just removed gives back the element |
| TextElement.TextDrawnCells | src/termin/elements/text.rs:69-85 | each cell of the rectangle takes the element's colours and text position y*width+x when the text reaches it, or a blank; its attribute and every cell outside are unchanged |
| TextElement.TextDrawnPrefix | src/termin/elements/text.rs:73-83 | characters beyond the first width*height are never drawn |
| TextElement.TextDrawnEmpty | src/termin/elements/text.rs:69-85 | a text with zero width or height, like Text::default, leaves the buffer unchanged |
| TextElement.Draw | src/termin/elements/text.rs:69-85 | the nested loops advancing the character iterator produce exactly the drawn buffer |
| TextElement.DrawRow | src/termin/elements/text.rs:74-83 | one pass of the inner loop draws row y and advances the iterator by width characters |
| TextElement.NextChar | src/termin/elements/text.rs:79-82 | after k characters were taken, the iterator's next is the k-th character, or none once the text is used up |
| CustomElements.NewDialogBox | src/custom_elements.rs:11-13 | a width x height rectangle with a (width-2) x (height-2) text box at (1,1) strictly inside it; the u16 subtractions need both sizes at least 2 |
| CustomElements.SetDialogText | src/custom_elements.rs:15-17 | set_text changes only the text box's string |
| CustomElements.WithDialogText | src/custom_elements.rs:19-22 | the builder text replaces the text box's string and keeps its rectangle and colours and the dialog's rectangle |
| CustomElements.DialogTextLastWins | src/custom_elements.rs:15-22 | of two text edits, by builder or by set_text, only the last one counts |
| CustomElements.Error | src/custom_elements.rs:57-60 | error sets the rectangle's background to red and the text, and nothing else |
| CustomElements.Info | src/custom_elements.rs:62-65 | info sets the rectangle's background to blue and the text, and nothing else |
| CustomElements.InfoAfterError | src/custom_elements.rs:57-65 | an info after an error leaves no trace of the error |
| CustomElements.Draw | src/custom_elements.rs:68-73 | drawing paints the rectangle, then the text box |
| CustomElements.DialogCells | src/custom_elements.rs:68-73 | inside the text box the text's colours and symbol win; elsewhere in the rectangle a cell takes the rectangle's background and keeps its symbol; outside nothing changes |
| CrosstermHandler.Draw | src/termin/crossterm_handler.rs:37-83 | the loop queues exactly the specified stream: per cell the move, attribute group, colours and print, then the final reset |
| CrosstermHandler.QueueCell | src/termin/crossterm_handler.rs:47-72 | one pass of the loop appends the cell's instructions and leaves the tracked style equal to the cell's style and the last position equal to the cell's position |
| CrosstermHandler.BodySnoc | src/termin/crossterm_handler.rs:46-73 | each further cell appends its own instructions; the tracked style and last position follow it |
| CrosstermHandler.CellPrints | src/termin/crossterm_handler.rs:72 | the instructions of one cell print its symbol and nothing else |
| CrosstermHandler.EmittedPrints | src/termin/crossterm_handler.rs:46-80 | the stream prints exactly one symbol per cell, in input order, and none in the final reset |
| CrosstermHandler.EmittedEnds | src/termin/crossterm_handler.rs:75-80 | the stream always ends with SetForegroundColor(Reset), SetBackgroundColor(Reset), SetAttribute(Reset), and is only that for no cells |
| CrosstermHandler.CellPlain | src/termin/crossterm_handler.rs:47-70 | a cell in the tracked style and right after the last position costs a single Print |
| CrosstermHandler.PlainRow | src/termin/crossterm_handler.rs:41-72 | one row of adjacent default-style cells is one MoveTo followed by the prints, with no style instruction |
| CrosstermHandler.ExecMove | src/termin/crossterm_handler.rs:47-49 | skipping the move is safe: the terminal's cursor is already right after the previous cell |
| CrosstermHandler.ExecAttr | src/termin/crossterm_handler.rs:52-60 | re-sending the tracked colours after an attribute change restores them, also when the new attribute is the reset that clears them; the attributes on are cleared by the reset and otherwise grow by the new one |
| CrosstermHandler.ExecBg | src/termin/crossterm_handler.rs:62-65 | the background group leaves the terminal writing in the cell's background |
| CrosstermHandler.ExecFg | src/termin/crossterm_handler.rs:67-70 | the foreground group leaves the terminal writing in the cell's foreground |
| CrosstermHandler.CellExec | src/termin/crossterm_handler.rs:47-72 | a terminal in the tracked colours prints the cell at its position in the cell's colours, with the attributes on after its attribute group, and moves the cursor one column on |
| CrosstermHandler.BodyExec | src/termin/crossterm_handler.rs:46-73 | from the default rendition, the cells' instructions paint every cell in order in its own colours, with the attributes accumulated up to it; the terminal keeps the last cell's colours |
| CrosstermHandler.EmittedExec | src/termin/crossterm_handler.rs:37-83 | the whole stream paints the cells in order as BodyExec says and leaves the terminal in the default rendition the next draw assumes |
| CrosstermHandler.AttrsCover | src/termin/crossterm_handler.rs:52-60 | the attributes on always include the tracked attribute, and none are on while the tracked attribute is the reset |
| CrosstermHandler.AttrsExact | src/termin/crossterm_handler.rs:52-60 | when every attribute change goes to or from the reset, the attributes on are exactly the last cell's |
| CrosstermHandler.PaintExact | src/termin/crossterm_handler.rs:46-73 | when every attribute change goes to or from the reset, every cell is painted exactly as given |
| CrosstermHandler.EmittedExact | src/termin/crossterm_handler.rs:37-83 | for such content the whole stream shows every cell exactly as given |
| CrosstermHandler.AttrsLinger | src/termin/crossterm_handler.rs:52-60 | a cell whose attribute follows a different non-reset attribute is printed with both on, since no reset is sent between them |
| CrosstermHandler.BoldThenUnderlined | src/termin/crossterm_handler.rs:52-60 | a bold cell followed by an underlined one leaves both Bold and Underlined on for the second |
| CrosstermHandler.PaintAsShows | src/termin/crossterm_handler.rs:46-73 | when no two cells share a position, each cell is shown in its own colours and symbol, with the attributes accumulated up to it, which include its own |
| CrosstermHandler.PaintShows | src/termin/crossterm_handler.rs:46-73 | when no two cells share a position, painting each cell exactly as given shows each cell exactly as given |
| Menus.NewMenu | src/menu.rs:42-44 | a new menu has an empty list, cursor 0, id 0 and the given heading text |
| Menus.AddAction | src/menu.rs:46-49 | action appends exactly one item, whose closure decides the result; nothing else changes |
| Menus.AddBack | src/menu.rs:57-60 | back appends exactly one item, whose closure always answers Back; nothing else changes |
| Menus.AddSubMenu | src/menu.rs:51-55 | sub_menu appends the child with its id set to this menu's id + 1; nothing else changes |
| Menus.BuiltIds | src/menu.rs:42-60 | menus built with the builders have a non-zero id on every submenu |
| Menus.CursorInRange | src/menu.rs:135-147 | Down and Up keep the cursor an index of the list |
| Menus.CursorUpDown | src/menu.rs:135-147 | Up after Down, and Down after Up, restore the cursor |
| Menus.CursorWraps | src/menu.rs:135-147 | Down wraps from the last item to 0 and Up from 0 to the last, and otherwise they move by one |
| Menus.DownTimesShift | src/menu.rs:135-140 | k Down presses, k at most the length, move the cursor k items on modulo the list |
| Menus.DownTimesCycle | src/menu.rs:135-140 | exactly len Down presses bring the cursor back to where it was, and fewer do not |
| Menus.Propagate | src/menu.rs:152-173 | a menu never hands Back to its caller: Back becomes None |
| Menus.RunSpec | src/menu.rs:67-190 | a run keeps the menu well formed, with the same length and id, and reads events only forward |
| Menus.ReplaceSub | src/menu.rs:149-174 | the submenu runs in place: only the highlighted item changes, to its new state |
| Menus.EscEndsAll | src/menu.rs:132-134 | Esc ends the run with All |
| Menus.EnterAction | src/menu.rs:151-162 | Enter on an action: Back gives None, All gives All, ToRoot ends a submenu but not the root, None keeps the loop going |
| Menus.EnterBack | src/menu.rs:57-60 | Enter on a back item ends its menu, and the caller sees None |
| Menus.EnterSubMenu | src/menu.rs:163-174 | Enter on a submenu runs it on the following events; on None the loop goes on after its last event, with its new state kept |
| Menus.MoveKeys | src/menu.rs:129-185 | Down and Up move the cursor and keep reading; any other event is skipped |
| Menus.RunResults | src/menu.rs:67-190 | a run never answers Back, the root (id 0) never answers ToRoot, and a run waits only once every event is read |
| Menus.Run | src/menu.rs:67-190 | the loop computes exactly the specified run |
| Menus.RunItem | src/menu.rs:148-175 | the Enter branch computes exactly the specified choice |
| Menus.OptionsHeight | src/menu.rs:72 | the options window height is 2*len-1, and the subtraction fails on an empty list |
| Menus.OptionsLayout | src/menu.rs:103-122 | item rows are idx*2: within the window, a blank row apart, the last one on the window's last row |
| Menus.Options | src/menu.rs:103-122 | one option line per item |
| Menus.OneHighlighted | src/menu.rs:115-119 | exactly the cursor's line is highlighted |
| OnlineLobby.ApiLinkPre | src/game/online_lobby.rs:64-70 | api_link!(pre, p) ends with p, begins with WLINK exactly when pre is "w", and for any other prefix is api_link!(p) |
| OnlineLobby.ApiLink | src/game/online_lobby.rs:62-63 | api_link!(p) is HLINK followed by exactly p |
| OnlineLobby.ApiLinkInjective | src/game/online_lobby.rs:62-63 | different paths give different links |
| OnlineLobby.LinksOfId | src/game/online_lobby.rs:195-208 | the join, socket and game-info links each start with their server root and end with the game id |
| OnlineLobby.TrimEnd | src/game/online_lobby.rs:451 | trim_end_matches("/") leaves the longest prefix that does not end with '/'; what it removes is all '/' |
| OnlineLobby.SplitPieces | src/game/online_lobby.rs:452 | no piece of split("/") holds a '/' |
| OnlineLobby.SplitJoin | src/game/online_lobby.rs:452 | joining the pieces with '/' gives the string back |
| OnlineLobby.LastOfSplit | src/game/online_lobby.rs:452-454 | the last piece is the longest slash-free end of the string |
| OnlineLobby.GameIdOf | src/game/online_lobby.rs:449-461 | the stored id holds no '/', and it is the text after the last '/' once all trailing '/' are stripped, or that whole text when it has no '/' |
| OnlineLobby.SlashFreeEndUnique | src/game/online_lobby.rs:449-461 | that characterisation has exactly one solution |
| OnlineLobby.NoSlashKeptWhole | src/game/online_lobby.rs:449-461 | a link without '/' is stored whole |
| OnlineLobby.AllSlashesEmpty | src/game/online_lobby.rs:449-461 | an empty or all-slash link stores "" |
| OnlineLobby.JoinLinkRoundTrip | src/game/online_lobby.rs:449-461 | extracting from the shared join link, with any trailing slashes, gives back a non-empty id without '/' |
| OnlineLobby.ExtractIdempotent | src/game/online_lobby.rs:449-461 | extracting again from a stored id changes nothing |
| OnlineLobby.ToKeycode | src/game/online_lobby.rs:295-306 | Some(code) exactly for a key event read without error, with that event's code |
| OnlineLobby.LookupOk | src/game/online_lobby.rs:481-500 | the answer is Ok only for a decoded reply without error and with room in the lobby, and is never Ok(false) |
| OnlineLobby.Online.constructor | src/game/online_lobby.rs:38-48 | Online::new starts with empty strings and side '\0' |
| OnlineLobby.Online.ExtractGameId | src/game/online_lobby.rs:449-461 | the game id becomes the link's id and no other field changes |
| OnlineLobby.Online.IsGameExist | src/game/online_lobby.rs:463-500 | an empty id gives Err("invalid link.") with no request; otherwise the game-info link of the id is requested and the reply decides the answer; the lobby's name is stored only on Ok |

## Left out

- The window tree (`WindowRef`, `new_child`, `render`, positioning and scrolling), `print_board`, `draw_window`, `Lobby::render` and the menu's window drawing around its loop. Only the cell painting of elements into a buffer is modelled.
- `Buffer::get_mut` is not part of this model. It is modelled as access to cell (x, y) at index y*width+x of the row-major contents, within the buffer's own coordinates. The element setters (`size`, `xy`, `bg`, `set_position`) are modelled as field updates.
- `Cell` names its attribute `style` in buffer.rs, while the emitter reads `cell.attr`. The model has one field, `attr`.
- Terminal input and output: `event`/`getch`, the writer and its I/O errors. The writer becomes the returned instruction sequence, and the terminal's event stream becomes a sequence of ticks given to the menu run.
- Networking, clipboard and async code of the lobby: `create_game`, `connect_socket`, `join_lobby`, `handle_lobby_socket`, `connect_game`, `copy_link_to_clipboard`. The reply of the game-info request in `is_game_exist` is a parameter, and the method returns the link it would request.
- OnlineLobby.Online.IsGameExist: requires that the fields the source unwraps (`isLobbyFull`, then `lobbyName`) are present where it unwraps them, because a missing one panics there.
- OnlineLobby: `str::len` counts bytes and `split`/`trim_end_matches` work on UTF-8. Strings are modelled as sequences of characters, which agrees for ASCII links.
- TextElement.AddCharAt: `String::insert` takes a byte offset and panics when idx is past the end or not on a character boundary. The model counts characters, which agrees with bytes for ASCII text, and requires 0 <= idx <= length, so the panic is not modelled.
- TextElement.RemoveCharAt: on a non-empty text, `String::remove` takes a byte offset and panics when idx is not the start of a character of the string, that is idx >= length or off a boundary. The model counts characters, as for ASCII text, and requires idx < length when the text is non-empty, so the panic is not modelled.
- TextElement.WithText: the width `text.len() as u16` is the string's length modulo 65536, with the length counted in characters, which is the byte count for ASCII text.
- Menus: action closures are not modelled. Each input tick carries the answer the chosen action's closure gives, and back items always answer Back.
- Menus: the `routine` hook, the heading's drawing and the sleeps are not modelled.
- Menus: the menu is updated in place in the source, but here a run returns the menu as it was left.
- Menus.Run: the source reads events until a Return. The model runs over a finite sequence and ends in `Blocked` when the events run out.
- Menus.Run: an empty list panics at the options height (src/menu.rs:72). This is modelled as a `Panicked` outcome with debug-build arithmetic.
- Menus: the u16 cursor increment and the list-length cast keep lists under 65536 items (`Valid`), so the u16 arithmetic never wraps.
- Menus.OptionsLayout: the layout is stated for lists of up to 32768 items. Beyond that, the u16 casts of `len * 2 - 1` and `idx * 2` wrap, and `OptionsHeight` and `ItemRow` only compute the wrapped values.
- OthelloBoard.IsInBounds: the bounds test is stated as its definition. Its meaning enters every board contract through `InBounds`.
- OthelloBoard.Board.TraverseFrom: the coordinates are `i8` in the source and unbounded integers here. On an 8x8 board with unit steps they stay within a few cells of the board, so they never overflow.
- The board is an `array2` updated in place, with a ghost grid kept equal to it. The loop bodies of `traverseFrom` (WalkOver) and `traverseAndFlip` (TraverseAndFlipAlong) are separate methods, as is the per-cell body of the emitter's loop (QueueCell), one row of the text's draw (DrawRow) and the Enter branch of the menu's loop (RunItem). Each is specified on its own.
- Buffers and Text and Rectangle elements are values. `draw(&self, buf: &mut Buffer)` becomes a method from the old buffer to the new, which has the same effect because the buffer is borrowed exclusively.
- CrosstermHandler.Draw: requires that the u16 addition `p.0 + 1` does not overflow, that is, no cell after the first follows one at column 65535. The source panics there in debug builds.
- CrosstermHandler: the terminal model is abstract. An SGR reset also resets both colours, and every symbol fills one column. Colours have no further structure.
- CrosstermHandler: every non-reset attribute is a flag that stays on until the reset. Attributes that switch another one off (crossterm's `NoBold`, `NoUnderline` and the like, here `OtherAttribute`) are not given that meaning; the program's cells only use `Reset`, `Bold` and `Underlined`.
- CustomElements: `align_x`, `align_y`, `position`/`set_position`, `bg` and `xy_rel` position the text box through the window code and are not modelled.
- OthelloBoard.TraverseEdgeQuirk: the step back after the walk leaves the board lands on the origin when its neighbour is off the board. An edge stone of mySide then reports success with no opponent stone between. This is stated as the code's behaviour, not claimed as a defect, because no caller in these files starts a ray from a mySide cell: `traverseAndFlip` is meant for empty cells, and `hasPossibleMoves` searches for `'0'` from mySide cells, whose result TraverseMeaning and HasMoveMeaning characterise exactly.
