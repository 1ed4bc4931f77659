/** The component's round state and its two operations: a click on a cell
    and the reset button. `Click` and `Initial` say what the operations do to
    a snapshot of the state; the class `TicTacToe` holds the state in fields
    and its methods are proved to follow them. */
module Game {
  import opened Rules

  /** The cell indices the rendered grid hands to the click handler. */
  type CellIndex = i: nat | i < 9

  /** Status text while a round goes on: it names the player to move. */
  function TurnMessage(p: Player): (m: string)
    ensures p == X ==> m == "Player X's turn"
    ensures p == O ==> m == "Player O's turn"
  {
    "Player " + [Symbol(p)] + "'s turn"
  }

  /** Status text after a win: it names the winner. */
  function WinMessage(p: Player): (m: string)
    ensures p == X ==> m == "Player X wins!"
    ensures p == O ==> m == "Player O wins!"
  {
    "Player " + [Symbol(p)] + " wins!"
  }

  /** Status text after a tie: it differs from every turn and win text. */
  function TieMessage(): (m: string)
    ensures forall p :: m != TurnMessage(p) && m != WinMessage(p)
  {
    "It's a tie!"
  }

  /** The status text tells the three outcomes apart and names the player. */
  lemma MessagesDistinct(p: Player, q: Player)
    ensures TurnMessage(p) != WinMessage(q) && TurnMessage(p) != TieMessage() && WinMessage(p) != TieMessage()
    ensures TurnMessage(p) == TurnMessage(q) <==> p == q
    ensures WinMessage(p) == WinMessage(q) <==> p == q
  {
  }

  /** A snapshot of the component's five state fields. */
  datatype GameState = GameState(
    board: Board,
    currentPlayer: Player,
    gameOver: bool,
    message: string,
    winningCells: Line)

  /** The state the component starts in, and the one reset puts back. */
  function Initial(): (s: GameState)
    ensures |s.board| == 9 && forall i :: 0 <= i < |s.board| ==> s.board[i] == Empty
    ensures s.currentPlayer == X && !s.gameOver
    ensures s.message == TurnMessage(X) && s.winningCells == []
  {
    GameState(seq(9, _ => Empty), X, false, "Player X's turn", [])
  }

  /** The click would place a mark: the round is on and the cell is empty. */
  function Accepts(s: GameState, index: CellIndex): (accepted: bool)
    requires |s.board| == 9
    ensures accepted <==> !s.gameOver && s.board[index] == Empty
    ensures accepted ==> !IsFull(s.board)
  {
    !(s.gameOver || s.board[index].Mark?)
  }

  /** What a click on cell `index` does to state `s`. A click after the end
      of the round or on an occupied cell changes nothing. An accepted click
      puts the mover's mark on the clicked cell and leaves every other cell
      as it was. If the new board completes a line of the mover, even a full
      board, the round ends as the mover's win: the winning cells are the
      first completed line of the table and the turn stays with the mover.
      If it completes no line and is full, the round ends as a tie and the
      turn and winning cells stay as they were. Otherwise the turn passes to
      the other player and the round goes on. */
  function Click(s: GameState, index: CellIndex): (r: GameState)
    requires |s.board| == 9
    ensures |r.board| == 9
    ensures !Accepts(s, index) ==> r == s
    ensures Accepts(s, index) ==>
      && r.board[index] == Mark(s.currentPlayer)
      && forall k :: 0 <= k < 9 && k != index ==> r.board[k] == s.board[k]
    ensures Accepts(s, index) && WonBy(r.board, s.currentPlayer) ==>
      && r.gameOver
      && r.message == WinMessage(s.currentPlayer)
      && r.currentPlayer == s.currentPlayer
      && exists k :: FirstWinAt(r.board, s.currentPlayer, k) && r.winningCells == WinningCombos[k]
    ensures Accepts(s, index) && !WonBy(r.board, s.currentPlayer) && IsFull(r.board) ==>
      && r.gameOver
      && r.message == TieMessage()
      && r.currentPlayer == s.currentPlayer
      && r.winningCells == s.winningCells
    ensures Accepts(s, index) && !WonBy(r.board, s.currentPlayer) && !IsFull(r.board) ==>
      && !r.gameOver
      && r.currentPlayer == Other(s.currentPlayer)
      && r.message == TurnMessage(Other(s.currentPlayer))
      && r.winningCells == s.winningCells
  {
    if s.gameOver || s.board[index] != Empty then s
    else
      var newBoard := s.board[index := Mark(s.currentPlayer)];
      match CheckWin(newBoard, s.currentPlayer)
      case Some(combo) =>
        s.(board := newBoard, winningCells := combo,
           message := WinMessage(s.currentPlayer), gameOver := true)
      case None =>
        if IsFull(newBoard) then
          s.(board := newBoard, message := TieMessage(), gameOver := true)
        else
          var nextPlayer := Other(s.currentPlayer);
          s.(board := newBoard, currentPlayer := nextPlayer, message := TurnMessage(nextPlayer))
  }

  /** Whether X placed the most recent mark. The turn is not passed on the
      move that ends a round, so in a finished round the last mover is the
      current player; in a running round it is the other one (and X moves
      first, so with X to move the marks are even). */
  predicate LastMoverIsX(s: GameState)
  {
    if s.gameOver then s.currentPlayer == X else s.currentPlayer == O
  }

  /** The invariant of every state the component can reach: X is one mark
      ahead exactly when X moved last; the player who does not hold the turn
      has no line; a running round has no winner, room left, no winning cells
      and the turn message; a finished round records either the first line of
      the current player with the win message, or a full board without a line
      with the tie message. */
  ghost predicate Consistent(s: GameState)
  {
    && |s.board| == 9
    && CountOf(s.board, X) == CountOf(s.board, O) + (if LastMoverIsX(s) then 1 else 0)
    && !WonBy(s.board, Other(s.currentPlayer))
    && (!s.gameOver ==>
          && !WonBy(s.board, s.currentPlayer)
          && !IsFull(s.board)
          && s.winningCells == []
          && s.message == TurnMessage(s.currentPlayer))
    && (s.gameOver && s.winningCells != [] ==>
          && CheckWin(s.board, s.currentPlayer) == Some(s.winningCells)
          && s.message == WinMessage(s.currentPlayer))
    && (s.gameOver && s.winningCells == [] ==>
          && !WonBy(s.board, s.currentPlayer)
          && IsFull(s.board)
          && s.message == TieMessage())
  }

  /** The initial state satisfies the invariant. */
  lemma InitialConsistent()
    ensures Consistent(Initial())
  {
    var b := Initial().board;
    CountOfEmptyBoard(b, X);
    CountOfEmptyBoard(b, O);
    EmptyBoardHasNoWin(b, X);
    EmptyBoardHasNoWin(b, O);
  }

  /** Every click keeps the invariant. */
  lemma ClickKeepsConsistent(s: GameState, index: CellIndex)
    requires Consistent(s)
    ensures Consistent(Click(s, index))
  {
    if Accepts(s, index) {
      var p := s.currentPlayer;
      var newBoard := s.board[index := Mark(p)];
      CountAfterPlace(s.board, index, p, X);
      CountAfterPlace(s.board, index, p, O);
      PlaceKeepsOtherLines(s.board, index, p);
      var r := Click(s, index);
      if CheckWin(newBoard, p).Some? {
        assert r.winningCells in WinningCombos;
        assert r.winningCells != [];
      } else if !IsFull(newBoard) {
        assert Other(r.currentPlayer) == p;
      }
    }
  }

  /** The inputs the component reacts to: a click on a cell, or the reset button. */
  datatype Event = Tap(index: CellIndex) | Restart

  /** The component's reaction to one input: a tap runs the click handler,
      the reset button restores the initial state. */
  function Step(s: GameState, e: Event): (r: GameState)
    requires |s.board| == 9
    ensures |r.board| == 9
    ensures e.Tap? ==> r == Click(s, e.index)
    ensures e.Restart? ==> r == Initial()
  {
    match e
    case Tap(index) => Click(s, index)
    case Restart => Initial()
  }

  lemma StepKeepsConsistent(s: GameState, e: Event)
    requires Consistent(s)
    ensures Consistent(Step(s, e))
  {
    match e
    case Tap(index) => ClickKeepsConsistent(s, index);
    case Restart => InitialConsistent();
  }

  /** The state after reacting to `events` in order, one at a time. */
  function Play(s: GameState, events: seq<Event>): (r: GameState)
    requires |s.board| == 9
    ensures |r.board| == 9
    decreases |events|
  {
    if events == [] then s else Play(Step(s, events[0]), events[1..])
  }

  /** Any run of clicks and resets keeps the invariant. */
  lemma {:induction false} PlayKeepsConsistent(s: GameState, events: seq<Event>)
    requires Consistent(s)
    ensures Consistent(Play(s, events))
    decreases |events|
  {
    if events != [] {
      var next := Step(s, events[0]);
      StepKeepsConsistent(s, events[0]);
      PlayKeepsConsistent(next, events[1..]);
      assert Play(s, events) == Play(next, events[1..]);
    }
  }

  /** In every state reachable from the start by clicks and resets, the
      number of X marks equals the number of O marks or exceeds it by one,
      and at most one player holds a line. */
  lemma ReachableBalanced(events: seq<Event>)
    ensures var s := Play(Initial(), events);
      && Consistent(s)
      && (CountOf(s.board, X) == CountOf(s.board, O) || CountOf(s.board, X) == CountOf(s.board, O) + 1)
      && !(WonBy(s.board, X) && WonBy(s.board, O))
  {
    InitialConsistent();
    PlayKeepsConsistent(Initial(), events);
    var s := Play(Initial(), events);
    assert Other(s.currentPlayer) == X || Other(s.currentPlayer) == O;
  }

  /** A tie is only ever declared after X's move: the full board holds five
      X marks and four O marks, and X holds the turn. */
  lemma TieEndsOnX(s: GameState)
    requires Consistent(s) && s.gameOver && s.winningCells == []
    ensures s.currentPlayer == X
    ensures CountOf(s.board, X) == 5 && CountOf(s.board, O) == 4
  {
    CountOfFullBoard(s.board);
  }

  /** The position before X's last move in the example below: X holds cells
      1, 2, 3 and 6, O holds cells 4, 5, 7 and 8, cell 0 is empty and it is
      X's turn. It arises, for one, from the taps 1, 4, 2, 5, 3, 7, 6, 8, none
      of which ends the round. */
  function BeforeLastMove(): GameState
  {
    GameState(
      [Empty, Mark(X), Mark(X), Mark(X), Mark(O), Mark(O), Mark(X), Mark(O), Mark(O)],
      X, false, TurnMessage(X), [])
  }

  /** In that position neither player holds a line. */
  lemma BeforeLastMoveHasNoLine()
    ensures !WonBy(BeforeLastMove().board, X) && !WonBy(BeforeLastMove().board, O)
  {
    var b := BeforeLastMove().board;
    // For each line of the table, a cell of it that X does not hold and one that O does not hold.
    var notX := [0, 4, 7, 0, 4, 5, 0, 4];
    var notO := [0, 3, 6, 0, 1, 2, 0, 2];
    forall k | 0 <= k < |WinningCombos|
      ensures !LineHeld(b, WinningCombos[k], X) && !LineHeld(b, WinningCombos[k], O)
    {
      assert notX[k] in WinningCombos[k] && b[notX[k]] != Mark(X);
      assert notO[k] in WinningCombos[k] && b[notO[k]] != Mark(O);
    }
  }

  /** In that position each player has four marks. */
  lemma BeforeLastMoveCounts()
    ensures CountOf(BeforeLastMove().board, X) == 4 && CountOf(BeforeLastMove().board, O) == 4
  {
    var b := BeforeLastMove().board;
    CountOfIsMultiplicity(b, X);
    CountOfIsMultiplicity(b, O);
    var m := multiset(b);
    assert m[Mark(X)] == 4;
    assert m[Mark(O)] == 4;
  }

  /** That position satisfies the invariant. */
  lemma BeforeLastMoveConsistent()
    ensures Consistent(BeforeLastMove())
  {
    BeforeLastMoveHasNoLine();
    BeforeLastMoveCounts();
    assert BeforeLastMove().board[0] == Empty;
  }

  /** X's click on cell 0 in that position: the full board with the top row
      recorded as the winning cells, the win text, and X still to move. */
  lemma LastMoveResult()
    ensures Click(BeforeLastMove(), 0) == GameState(
      [Mark(X), Mark(X), Mark(X), Mark(X), Mark(O), Mark(O), Mark(X), Mark(O), Mark(O)],
      X, true, WinMessage(X), [0, 1, 2])
  {
  }

  /** The board after that click: full, with X holding both the top row
      and the left column. */
  lemma LastBoardLines()
    ensures var full := [Mark(X), Mark(X), Mark(X), Mark(X), Mark(O), Mark(O), Mark(X), Mark(O), Mark(O)];
      && IsFull(full)
      && LineHeld(full, WinningCombos[0], X)
      && LineHeld(full, WinningCombos[3], X)
  {
    var full := [Mark(X), Mark(X), Mark(X), Mark(X), Mark(O), Mark(O), Mark(X), Mark(O), Mark(O)];
    assert full[0] == full[1] == full[2] == full[3] == full[6] == Mark(X);
  }

  /** X's last move of a round fills the board and completes both the top row
      and the left column: the round is a win, not a tie, and the winning
      cells are the row, which comes first in the table. The position before
      the move satisfies the invariant. */
  lemma WinOnFullBoardTakesFirstLine()
    ensures var s := Click(BeforeLastMove(), 0);
      && Consistent(BeforeLastMove())
      && IsFull(s.board)
      && LineHeld(s.board, WinningCombos[0], X)
      && LineHeld(s.board, WinningCombos[3], X)
      && s.gameOver
      && s.winningCells == [0, 1, 2]
      && s.message == "Player X wins!"
      && s.currentPlayer == X
  {
    BeforeLastMoveConsistent();
    LastMoveResult();
    LastBoardLines();
  }

  /** The component: the five state fields and the two event handlers. The
      board is never written after it is committed: each accepted click
      builds a fresh copy, marks it and commits the copy. */
  class TicTacToe {
    var board: array<Cell>
    var currentPlayer: Player
    var gameOver: bool
    var message: string
    var winningCells: Line

    /** The fields as a snapshot. */
    ghost function State(): GameState
      reads this, board
    {
      GameState(board[..], currentPlayer, gameOver, message, winningCells)
    }

    ghost predicate Valid()
      reads this, board
    {
      board.Length == 9 && Consistent(State())
    }

    /** The initial field values. */
    constructor ()
      ensures Valid() && fresh(board)
      ensures State() == Initial()
    {
      board := new Cell[9](_ => Empty);
      currentPlayer := X;
      gameOver := false;
      message := "Player X's turn";
      winningCells := [];
      new;
      assert board[..] == Initial().board;
      InitialConsistent();
    }

    /** The click handler for cell `index`. */
    method HandleClick(index: CellIndex)
      requires Valid()
      modifies this
      ensures Valid()
      ensures State() == Click(old(State()), index)
      ensures if Accepts(old(State()), index) then fresh(board) else board == old(board)
    {
      if gameOver || board[index] != Empty {
        return;
      }
      ghost var before := State();

      var newBoard := new Cell[9];
      forall k | 0 <= k < 9 {
        newBoard[k] := board[k];
      }
      newBoard[index] := Mark(currentPlayer);
      board := newBoard;
      ghost var placed := before.board[index := Mark(before.currentPlayer)];
      assert newBoard[..] == placed;

      var winCombo := CheckWin(newBoard[..], currentPlayer);
      if winCombo.Some? {
        winningCells := winCombo.value;
        message := WinMessage(currentPlayer);
        gameOver := true;
        assert State() == before.(board := placed, winningCells := winCombo.value,
                                  message := WinMessage(before.currentPlayer), gameOver := true);
      } else if IsFull(newBoard[..]) {
        message := TieMessage();
        gameOver := true;
        assert State() == before.(board := placed, message := TieMessage(), gameOver := true);
      } else {
        var nextPlayer := Other(currentPlayer);
        currentPlayer := nextPlayer;
        message := TurnMessage(nextPlayer);
        assert State() == before.(board := placed, currentPlayer := nextPlayer,
                                  message := TurnMessage(nextPlayer));
      }
      ClickKeepsConsistent(before, index);
    }

    /** The reset button: every field back to its initial value. */
    method Reset()
      modifies this
      ensures Valid() && fresh(board)
      ensures State() == Initial()
    {
      board := new Cell[9](_ => Empty);
      currentPlayer := X;
      gameOver := false;
      message := "Player X's turn";
      winningCells := [];
      assert board[..] == Initial().board;
      InitialConsistent();
    }
  }
}
