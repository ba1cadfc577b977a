/** The game object of src/game.rs: a board, and the placing of the four
    opening stones. */
module OthelloGame {
  import opened OthelloBoard

  /** The grid after init_board: black on (3, 3) and (4, 4), white on (3, 4)
      and (4, 3). */
  function Opening(g: Grid): (g': Grid)
    requires IsGrid(g)
    ensures IsGrid(g')
  {
    Set(Set(Set(Set(g, 3, 3, Black), 3, 4, White), 4, 3, White), 4, 4, Black)
  }

  /** init_board writes exactly the four centre cells. */
  lemma OpeningCells(g: Grid)
    requires IsGrid(g)
    ensures At(Opening(g), 3, 3) == Black && At(Opening(g), 4, 4) == Black
    ensures At(Opening(g), 3, 4) == White && At(Opening(g), 4, 3) == White
    ensures forall r, c :: InBounds(r, c) && !(3 <= r <= 4 && 3 <= c <= 4) ==> At(Opening(g), r, c) == At(g, r, c)
  {
  }

  /** Placing the opening stones a second time changes nothing. */
  lemma OpeningIdempotent(g: Grid)
    requires IsGrid(g)
    ensures Opening(Opening(g)) == Opening(g)
  {
    var o := Opening(g);
    forall k | 0 <= k < 64
      ensures Opening(o)[k] == o[k]
    {
      assert At(Opening(o), k / 8, k % 8) == At(o, k / 8, k % 8);
    }
  }

  /** A sequence of n copies of x holds n x's and nothing else. */
  lemma {:induction false} ConstantCount(n: nat, x: char, s: char)
    ensures multiset(seq(n, _ => x))[s] == if s == x then n else 0
  {
    if n > 0 {
      assert seq(n, _ => x) == seq(n - 1, _ => x) + [x];
      ConstantCount(n - 1, x, s);
    }
  }

  /** The opening position of a fresh game: two stones per side and 60 empty
      cells. */
  lemma OpeningScores()
    ensures Points(Opening(EmptyGrid()), Black) == 2
    ensures Points(Opening(EmptyGrid()), White) == 2
    ensures Points(Opening(EmptyGrid()), Empty) == 60
  {
    var g0 := EmptyGrid();
    var g1 := Set(g0, 3, 3, Black);
    var g2 := Set(g1, 3, 4, White);
    var g3 := Set(g2, 4, 3, White);
    ConstantCount(64, Empty, Black);
    ConstantCount(64, Empty, White);
    ConstantCount(64, Empty, Empty);
    PointsUpdate(g0, 3, 3, Black, Black);
    PointsUpdate(g0, 3, 3, Black, White);
    PointsUpdate(g0, 3, 3, Black, Empty);
    PointsUpdate(g1, 3, 4, White, Black);
    PointsUpdate(g1, 3, 4, White, White);
    PointsUpdate(g1, 3, 4, White, Empty);
    PointsUpdate(g2, 4, 3, White, Black);
    PointsUpdate(g2, 4, 3, White, White);
    PointsUpdate(g2, 4, 3, White, Empty);
    PointsUpdate(g3, 4, 4, Black, Black);
    PointsUpdate(g3, 4, 4, Black, White);
    PointsUpdate(g3, 4, 4, Black, Empty);
  }

  /** In the opening position of a fresh game both sides can move: black from
      (3, 3) to the right over (3, 4), white from (3, 4) to the left over (3, 3). */
  lemma OpeningHasMoves()
    ensures HasMove(Opening(EmptyGrid()), Black, White)
    ensures HasMove(Opening(EmptyGrid()), White, Black)
  {
    var g := Opening(EmptyGrid());
    OpeningCells(EmptyGrid());
    assert TravArr[3] == Dir(0, 1) && TravArr[2] == Dir(0, -1);
    assert At(g, 3, 5) == Empty && At(g, 3, 2) == Empty;
    assert WalkEnd(g, 3, 4, Dir(0, 1), White) == (3, 5);
    assert MoveFrom(g, 3, 3, 3, White);
    assert WalkEnd(g, 3, 3, Dir(0, -1), Black) == (3, 2);
    assert MoveFrom(g, 3, 4, 2, Black);
  }

  /** Game: the board it plays on. */
  class Game {
    const board: Board

    ghost predicate Valid()
      reads this, board, board.cells
    {
      board.Valid()
    }

    /** Game::default: a game on an empty board. */
    constructor Default()
      ensures Valid() && fresh(board) && fresh(board.cells)
      ensures board.G == EmptyGrid()
    {
      board := new Board.Default();
    }

    /** init_board: place the four opening stones in place. */
    method InitBoard()
      requires Valid()
      modifies board, board.cells
      ensures Valid()
      ensures board.G == Opening(old(board.G))
    {
      board.cells[3, 3] := Black;
      board.G := Set(board.G, 3, 3, Black);
      board.cells[3, 4] := White;
      board.G := Set(board.G, 3, 4, White);
      board.cells[4, 3] := White;
      board.G := Set(board.G, 4, 3, White);
      board.cells[4, 4] := Black;
      board.G := Set(board.G, 4, 4, Black);
    }
  }
}
