/** The rules of the game that do not depend on the component's state:
    the marks, the cells of a board, the table of winning lines, the win
    detector and counts of marks on a board. */
module Rules {

  datatype Option<T> = None | Some(value: T)

  /** The two marks a player can place; the component spells them 'X' and 'O'. */
  datatype Player = X | O

  /** A cell of the board: empty (null in the component) or holding a mark. */
  datatype Cell = Empty | Mark(player: Player)

  /** Nine cells in row-major order. */
  type Board = seq<Cell>

  /** A winning line: the board indices it consists of. */
  type Line = seq<nat>

  /** The player who moves after `p`. */
  function Other(p: Player): (q: Player)
    ensures q != p
  {
    if p == X then O else X
  }

  /** The character the component shows for a mark. */
  function Symbol(p: Player): (c: char)
    ensures c == 'X' <==> p == X
    ensures c == 'O' <==> p == O
  {
    match p
    case X => 'X'
    case O => 'O'
  }

  /** The eight winning lines in the order the detector tries them. */
  const WinningCombos: seq<Line> :=
    [ [0, 1, 2], [3, 4, 5], [6, 7, 8],
      [0, 3, 6], [1, 4, 7], [2, 5, 8],
      [0, 4, 8], [2, 4, 6] ]

  /** The three rows of a 3x3 board, top to bottom. */
  function Rows(): (rows: seq<Line>)
    ensures |rows| == 3
  {
    seq(3, r requires 0 <= r < 3 => [3 * r, 3 * r + 1, 3 * r + 2])
  }

  /** The three columns of a 3x3 board, left to right. */
  function Columns(): (columns: seq<Line>)
    ensures |columns| == 3
  {
    seq(3, c requires 0 <= c < 3 => [c, c + 3, c + 6])
  }

  /** The diagonal from the top-left corner and the one from the top-right corner. */
  function Diagonals(): (diagonals: seq<Line>)
    ensures |diagonals| == 2
  {
    [seq(3, d requires 0 <= d < 3 => 4 * d), seq(3, d requires 0 <= d < 3 => 2 + 2 * d)]
  }

  /** A line of three distinct cells of a 9-cell board. */
  predicate IsTriple(line: Line)
  {
    |line| == 3 && line[0] < line[1] < line[2] < 9
  }

  /** The table is exactly the rows, then the columns, then the two diagonals,
      and each entry is three distinct cells. */
  lemma WinningCombosAreRowsColumnsDiagonals()
    ensures WinningCombos == Rows() + Columns() + Diagonals()
    ensures forall k :: 0 <= k < |WinningCombos| ==> IsTriple(WinningCombos[k])
  {
    var rows, columns := Rows(), Columns();
    assert rows[0] == [0, 1, 2] && rows[1] == [3, 4, 5] && rows[2] == [6, 7, 8];
    assert columns[0] == [0, 3, 6] && columns[1] == [1, 4, 7] && columns[2] == [2, 5, 8];
    assert Diagonals()[0] == [0, 4, 8] && Diagonals()[1] == [2, 4, 6];
  }

  /** Every cell of `line` holds the mark of `p`. An index outside the board
      never holds a mark (in the component it reads as undefined). */
  function LineHeld(b: Board, line: Line, p: Player): (held: bool)
    ensures held <==> forall i :: i in line ==> i < |b| && b[i] == Mark(p)
  {
    var held := forall j :: 0 <= j < |line| ==> line[j] < |b| && b[line[j]] == Mark(p);
    assert held <==> forall i :: i in line ==> i < |b| && b[i] == Mark(p) by {
      if !held {
        var j :| 0 <= j < |line| && !(line[j] < |b| && b[line[j]] == Mark(p));
        assert line[j] in line;
      }
    }
    held
  }

  /** Reference definition of a win: some line of the table is held by `p`. */
  ghost predicate WonBy(b: Board, p: Player)
  {
    exists k :: 0 <= k < |WinningCombos| && LineHeld(b, WinningCombos[k], p)
  }

  /** Line `k` is held by `p` and no earlier line of the table is. */
  ghost predicate FirstWinAt(b: Board, p: Player, k: int)
  {
    && 0 <= k < |WinningCombos|
    && LineHeld(b, WinningCombos[k], p)
    && forall j :: 0 <= j < k ==> !LineHeld(b, WinningCombos[j], p)
  }

  /** Index of the first line at or after `k` that `p` holds, or the table's
      length when there is none. */
  function FirstHeld(b: Board, p: Player, k: nat): (r: nat)
    requires k <= |WinningCombos|
    ensures k <= r <= |WinningCombos|
    ensures r < |WinningCombos| ==> LineHeld(b, WinningCombos[r], p)
    ensures forall j :: k <= j < r ==> !LineHeld(b, WinningCombos[j], p)
    decreases |WinningCombos| - k
  {
    if k == |WinningCombos| then k
    else if LineHeld(b, WinningCombos[k], p) then k
    else FirstHeld(b, p, k + 1)
  }

  /** The win detector: the first line of the table, in table order, whose
      three cells all hold the mark of `p`; None when `p` holds no line. */
  function CheckWin(b: Board, p: Player): (r: Option<Line>)
    ensures r.None? <==> !WonBy(b, p)
    ensures r.Some? ==> exists k :: FirstWinAt(b, p, k) && r.value == WinningCombos[k]
  {
    var k := FirstHeld(b, p, 0);
    if k < |WinningCombos| then
      assert FirstWinAt(b, p, k);
      Some(WinningCombos[k])
    else None
  }

  /** Every cell holds a mark (is truthy, in the component's terms). */
  function IsFull(b: Board): (full: bool)
    ensures full <==> Empty !in b
  {
    forall i :: 0 <= i < |b| ==> b[i].Mark?
  }

  /** The number of cells holding the mark of `p`. */
  function CountOf(b: Board, p: Player): nat
  {
    if b == [] then 0
    else (if b[0] == Mark(p) then 1 else 0) + CountOf(b[1..], p)
  }

  /** Placing `p` on an empty cell adds one mark of `p` and leaves the
      number of the other player's marks unchanged. */
  lemma {:induction false} CountAfterPlace(b: Board, i: nat, p: Player, q: Player)
    requires i < |b| && b[i] == Empty
    ensures CountOf(b[i := Mark(p)], q) == CountOf(b, q) + (if q == p then 1 else 0)
  {
    if i == 0 {
      assert b[i := Mark(p)][1..] == b[1..];
    } else {
      assert b[i := Mark(p)][1..] == b[1..][i - 1 := Mark(p)];
      CountAfterPlace(b[1..], i - 1, p, q);
    }
  }

  /** The count of a mark is its multiplicity in the multiset of the cells. */
  lemma {:induction false} CountOfIsMultiplicity(b: Board, p: Player)
    ensures CountOf(b, p) == multiset(b)[Mark(p)]
  {
    if b != [] {
      assert b == [b[0]] + b[1..];
      CountOfIsMultiplicity(b[1..], p);
    }
  }

  /** A board with no marks counts no marks for either player. */
  lemma {:induction false} CountOfEmptyBoard(b: Board, p: Player)
    requires forall i :: 0 <= i < |b| ==> b[i] == Empty
    ensures CountOf(b, p) == 0
  {
    if b != [] {
      CountOfEmptyBoard(b[1..], p);
    }
  }

  /** On a full board every cell is counted for exactly one player. */
  lemma {:induction false} CountOfFullBoard(b: Board)
    requires IsFull(b)
    ensures CountOf(b, X) + CountOf(b, O) == |b|
  {
    if b != [] {
      assert b[0].Mark?;
      assert b[0] == Mark(b[0].player) && (b[0].player == X || b[0].player == O);
      assert IsFull(b[1..]) by {
        forall i | 0 <= i < |b| - 1 ensures b[1..][i].Mark? {
          assert b[1..][i] == b[i + 1];
        }
      }
      CountOfFullBoard(b[1..]);
    }
  }

  /** A board with no marks: no line is held and the board is not full. */
  lemma EmptyBoardHasNoWin(b: Board, p: Player)
    requires |b| == 9
    requires forall i :: 0 <= i < |b| ==> b[i] == Empty
    ensures !WonBy(b, p) && !IsFull(b)
  {
    forall k | 0 <= k < |WinningCombos|
      ensures !LineHeld(b, WinningCombos[k], p)
    {
      assert WinningCombos[k][0] < 9;
    }
    assert !b[0].Mark?;
  }

  /** Placing the mark of `p` never hands the other player a line. */
  lemma PlaceKeepsOtherLines(b: Board, i: nat, p: Player)
    requires i < |b|
    ensures WonBy(b[i := Mark(p)], Other(p)) ==> WonBy(b, Other(p))
  {
  }
}
