/** The game rules of the tic-tac-toe example (examples/tic-tac-toe.rs):
    a board of nine cells, row by row, the player whose turn it is, and the
    application state the game reports its end to. */
module TicTacToe {
  import opened Common

  /** `Player`. */
  datatype Player = X | O

  /** `AppState`: playing, or finished with the winner, if any. */
  datatype AppState = Playing | Winner(winner: Option<Player>)

  /** `Not for Player`: the other player. */
  function Opponent(p: Player): (r: Player)
    ensures r != p
  {
    match p
    case X => O
    case O => X
  }

  /** Switching players twice gives the same player back. */
  lemma OpponentInvolution(p: Player)
    ensures Opponent(Opponent(p)) == p
  {
  }

  /** A cell of the board, as (row, column). */
  type Cell = (nat, nat)

  /** The cells of row `i`. */
  function RowLine(i: nat): seq<Cell>
  {
    [(i, 0), (i, 1), (i, 2)]
  }

  /** The cells of column `i`. */
  function ColumnLine(i: nat): seq<Cell>
  {
    [(0, i), (1, i), (2, i)]
  }

  /** The eight lines in the order `check_for_winner` tries them: row 0,
      column 0, row 1, column 1, row 2, column 2, the diagonal from the top
      left, the diagonal from the bottom left. */
  function Line(k: nat): (l: seq<Cell>)
    requires k < 8
    ensures |l| == 3 && forall j :: 0 <= j < 3 ==> l[j].0 < 3 && l[j].1 < 3
  {
    [RowLine(0), ColumnLine(0), RowLine(1), ColumnLine(1), RowLine(2), ColumnLine(2),
     [(0, 0), (1, 1), (2, 2)], [(2, 0), (1, 1), (0, 2)]][k]
  }

  /** The index of a cell in the board. */
  function Index(c: Cell): nat
  {
    c.0 * 3 + c.1
  }

  /** `GameState::cell`. */
  function CellAt(cells: seq<Option<Player>>, c: Cell): Option<Player>
    requires |cells| == 9 && c.0 < 3 && c.1 < 3
  {
    cells[Index(c)]
  }

  /** `GameState::winner_in_cells`: the player holding all three cells of a
      line, if one does. */
  function WinnerInLine(cells: seq<Option<Player>>, l: seq<Cell>): (w: Option<Player>)
    requires |cells| == 9 && |l| == 3 && forall j :: 0 <= j < 3 ==> l[j].0 < 3 && l[j].1 < 3
    ensures w.Some? <==> (forall j :: 0 <= j < 3 ==> CellAt(cells, l[j]).Some?)
                         && CellAt(cells, l[0]) == CellAt(cells, l[1]) == CellAt(cells, l[2])
    ensures w.Some? ==> forall j :: 0 <= j < 3 ==> CellAt(cells, l[j]) == w
  {
    match (CellAt(cells, l[0]), CellAt(cells, l[1]), CellAt(cells, l[2]))
    case (Some(a), Some(b), Some(c)) =>
      if a == b && b == c then Some(a) else None
    case _ => None
  }

  /** The winners of the eight lines, in `check_for_winner`'s order. */
  function LineWinners(cells: seq<Option<Player>>): (ws: seq<Option<Player>>)
    requires |cells| == 9
    ensures |ws| == 8
  {
    seq(8, k requires 0 <= k < 8 => WinnerInLine(cells, Line(k)))
  }

  /** The first answer from the `k`th on that names a winner. */
  function FirstFrom(ws: seq<Option<Player>>, k: nat): Option<Player>
    requires k <= |ws|
    decreases |ws| - k
  {
    if k == |ws| then None
    else if ws[k].Some? then ws[k]
    else FirstFrom(ws, k + 1)
  }

  /** There is a first answer exactly when some answer from the `k`th on
      names a winner, and it is such an answer with none before it. */
  lemma {:induction false} FirstFromIsFirstSome(ws: seq<Option<Player>>, k: nat)
    requires k <= |ws|
    ensures FirstFrom(ws, k).Some? <==> exists i :: k <= i < |ws| && ws[i].Some?
    ensures FirstFrom(ws, k).Some? ==>
      exists i :: k <= i < |ws| && ws[i] == FirstFrom(ws, k) && forall j :: k <= j < i ==> ws[j].None?
    decreases |ws| - k
  {
    if k < |ws| && ws[k].None? {
      FirstFromIsFirstSome(ws, k + 1);
    }
  }

  /** `check_for_winner`'s answer: the winner of the first fully held
      line. */
  function FirstWinner(cells: seq<Option<Player>>): Option<Player>
    requires |cells| == 9
  {
    FirstFrom(LineWinners(cells), 0)
  }

  /** Row `i` and column `i` are the `2i`th and `2i+1`th lines tried. */
  lemma LinesInOrder(cells: seq<Option<Player>>, i: nat)
    requires |cells| == 9 && i < 3
    ensures var ws := LineWinners(cells);
      ws[2 * i] == WinnerInLine(cells, RowLine(i)) && ws[2 * i + 1] == WinnerInLine(cells, ColumnLine(i))
  {
    assert Line(2 * i) == RowLine(i) && Line(2 * i + 1) == ColumnLine(i);
  }

  /** The two diagonals are tried last. */
  lemma DiagonalsLast(cells: seq<Option<Player>>)
    requires |cells| == 9
    ensures var ws := LineWinners(cells);
      FirstFrom(ws, 6) == if ws[6].Some? then ws[6] else ws[7]
  {
    var ws := LineWinners(cells);
    assert FirstFrom(ws, 8) == None;
  }

  /** `check_for_winner` finds a winner exactly when some line is fully held
      by one player, and then that player holds the first such line. */
  lemma FirstWinnerIffLineHeld(cells: seq<Option<Player>>)
    requires |cells| == 9
    ensures FirstWinner(cells).Some? <==> exists k :: 0 <= k < 8 && WinnerInLine(cells, Line(k)).Some?
    ensures FirstWinner(cells).Some? ==>
      exists k :: 0 <= k < 8 && WinnerInLine(cells, Line(k)) == FirstWinner(cells)
                  && forall j :: 0 <= j < k ==> WinnerInLine(cells, Line(j)).None?
  {
    var ws := LineWinners(cells);
    FirstFromIsFirstSome(ws, 0);
    assert forall k :: 0 <= k < 8 ==> ws[k] == WinnerInLine(cells, Line(k));
  }

  /** Every cell is taken. */
  predicate AllFilled(cells: seq<Option<Player>>)
  {
    forall i :: 0 <= i < |cells| ==> cells[i].Some?
  }

  /** `GameState`. */
  class GameState {
    var app: AppState
    var currentPlayer: Player
    var cells: seq<Option<Player>>

    ghost predicate Valid()
      reads this
    {
      |cells| == 9
    }

    /** `GameState::new_game`: an empty board; O moves first when the
        clock's milliseconds are even, X otherwise. The clock reading is a
        parameter. */
    constructor NewGame(app: AppState, millis: nat)
      ensures Valid()
      ensures this.app == app
      ensures currentPlayer == (if millis % 2 == 0 then O else X)
      ensures forall i :: 0 <= i < 9 ==> cells[i].None?
    {
      this.app := app;
      currentPlayer := if millis % 2 == 0 then O else X;
      cells := [None, None, None, None, None, None, None, None, None];
    }

    /** `GameState::check_for_winner`: the winner of the first fully held
        line. */
    method CheckForWinner() returns (w: Option<Player>)
      requires Valid()
      ensures w == FirstWinner(cells)
    {
      var board := cells;
      ghost var ws := LineWinners(board);
      for i := 0 to 3
        invariant board == cells
        invariant FirstFrom(ws, 0) == FirstFrom(ws, 2 * i)
      {
        LinesInOrder(board, i);
        var row := WinnerInLine(board, RowLine(i));
        if row.Some? {
          return row;
        }
        var column := WinnerInLine(board, ColumnLine(i));
        if column.Some? {
          return column;
        }
      }
      DiagonalsLast(board);
      w := WinnerInLine(board, Line(6));
      if w.None? {
        w := WinnerInLine(board, Line(7));
      }
    }

    /** `GameState::play`: the current player takes the cell, the turn
        passes, and the game ends with that winner, or with none once the
        board is full. Taking a cell that is already taken is not checked
        (the board's buttons are disabled once used). */
    method Play(row: nat, column: nat)
      requires Valid()
      requires row * 3 + column < 9
      modifies this
      ensures Valid()
      ensures currentPlayer == Opponent(old(currentPlayer))
      ensures cells == old(cells)[row * 3 + column := Some(old(currentPlayer))]
      ensures var w := FirstWinner(cells);
        app == (if w.Some? then Winner(w) else if AllFilled(cells) then Winner(None) else old(app))
    {
      var player := currentPlayer;
      currentPlayer := Opponent(player);
      cells := cells[row * 3 + column := Some(player)];
      var winner := CheckForWinner();
      if winner.Some? {
        app := Winner(Some(winner.value));
      } else if AllFilled(cells) {
        app := Winner(None);
      }
    }
  }

  /** A line that a move turns into a won line is won by the mover. */
  lemma LineGainedByMover(before: seq<Option<Player>>, idx: nat, p: Player, l: seq<Cell>)
    requires |before| == 9 && idx < 9
    requires |l| == 3 && forall j :: 0 <= j < 3 ==> l[j].0 < 3 && l[j].1 < 3
    requires WinnerInLine(before, l).None?
    requires WinnerInLine(before[idx := Some(p)], l).Some?
    ensures WinnerInLine(before[idx := Some(p)], l) == Some(p)
  {
    var after := before[idx := Some(p)];
    var j :| 0 <= j < 3 && Index(l[j]) == idx;
    assert CellAt(after, l[j]) == Some(p);
  }

  /** A move on a board with no winner can only make its own player the
      winner: every line won afterwards holds the cell just taken. */
  lemma NewWinnerIsMover(before: seq<Option<Player>>, idx: nat, p: Player)
    requires |before| == 9 && idx < 9
    requires FirstWinner(before).None?
    ensures FirstWinner(before[idx := Some(p)]) in {None, Some(p)}
  {
    var after := before[idx := Some(p)];
    var wb, wa := LineWinners(before), LineWinners(after);
    FirstFromIsFirstSome(wb, 0);
    FirstFromIsFirstSome(wa, 0);
    if FirstWinner(after).Some? {
      var k :| 0 <= k < 8 && wa[k] == FirstWinner(after);
      assert wb[k].None?;
      LineGainedByMover(before, idx, p, Line(k));
    }
  }
}
