/**
 * Tic-tac-toe rules and the minimax AI.  The board is nine integer cells:
 * -1 is empty, 1 is the human player and 0 is the AI.
 */
module TicTacToe {

  const Empty := -1
  const Ai := 0
  const Human := 1

  /** A board index. */
  type Cell = i: int | 0 <= i < 9

  /** Every board the game builds has exactly nine cells. */
  type Board = b: seq<int> | |b| == 9 witness [-1, -1, -1, -1, -1, -1, -1, -1, -1]

  /** The eight winning lines, in the order the game scans them. */
  const Lines: seq<seq<Cell>> := [
    [0, 1, 2], [3, 4, 5], [6, 7, 8],
    [0, 3, 6], [1, 4, 7], [2, 5, 8],
    [0, 4, 8], [2, 4, 6]
  ]

  /** The score the AI's search starts from, above every score minimax returns. */
  const Infinity := 2

  /** clearBoard: a fresh board of nine empty cells. */
  function ClearBoard(): (b: Board)
    ensures forall i :: 0 <= i < 9 ==> b[i] == Empty
  {
    [Empty, Empty, Empty, Empty, Empty, Empty, Empty, Empty, Empty]
  }

  /** Every cell of `line` holds `p`. */
  predicate AllOf(b: Board, line: seq<Cell>, p: int) {
    forall i :: 0 <= i < |line| ==> b[line[i]] == p
  }

  /** Three given cells all hold `p`. */
  predicate Three(b: Board, p: int, i: Cell, j: Cell, k: Cell) {
    b[i] == p && b[j] == p && b[k] == p
  }

  /** The rows, columns and diagonals, written out one by one. */
  predicate HasLine(b: Board, p: int) {
    || Three(b, p, 0, 1, 2) || Three(b, p, 3, 4, 5) || Three(b, p, 6, 7, 8)
    || Three(b, p, 0, 3, 6) || Three(b, p, 1, 4, 7) || Three(b, p, 2, 5, 8)
    || Three(b, p, 0, 4, 8) || Three(b, p, 2, 4, 6)
  }

  /** The scan of the lines from the `k`-th on, stopping at the first owned one. */
  function WinsFrom(b: Board, p: int, k: nat): (w: bool)
    requires k <= |Lines|
    ensures w <==> exists j :: k <= j < |Lines| && AllOf(b, Lines[j], p)
    decreases |Lines| - k
  {
    if k == |Lines| then false
    else if AllOf(b, Lines[k], p) then true
    else WinsFrom(b, p, k + 1)
  }

  /** isWinning: some row, column or diagonal is entirely `p`'s. */
  function IsWinning(b: Board, p: int): (w: bool)
    ensures w <==> HasLine(b, p)
  {
    var w := WinsFrom(b, p, 0);
    LinesAreTheRowsColumnsAndDiagonals(b, p);
    w
  }

  lemma LinesAreTheRowsColumnsAndDiagonals(b: Board, p: int)
    ensures (exists j :: 0 <= j < |Lines| && AllOf(b, Lines[j], p)) <==> HasLine(b, p)
  {
    if HasLine(b, p) {
      if Three(b, p, 0, 1, 2) { assert AllOf(b, Lines[0], p); }
      else if Three(b, p, 3, 4, 5) { assert AllOf(b, Lines[1], p); }
      else if Three(b, p, 6, 7, 8) { assert AllOf(b, Lines[2], p); }
      else if Three(b, p, 0, 3, 6) { assert AllOf(b, Lines[3], p); }
      else if Three(b, p, 1, 4, 7) { assert AllOf(b, Lines[4], p); }
      else if Three(b, p, 2, 5, 8) { assert AllOf(b, Lines[5], p); }
      else if Three(b, p, 0, 4, 8) { assert AllOf(b, Lines[6], p); }
      else { assert AllOf(b, Lines[7], p); }
    }
    if j :| 0 <= j < |Lines| && AllOf(b, Lines[j], p) {
      var line := Lines[j];
      assert b[line[0]] == p && b[line[1]] == p && b[line[2]] == p;
    }
  }

  /** The empty cells among the first `n`, in ascending order. */
  function EmptyBelow(b: Board, n: nat): (r: seq<Cell>)
    requires n <= 9
    ensures forall k :: 0 <= k < |r| ==> r[k] < n && b[r[k]] == Empty
    ensures forall k, l :: 0 <= k < l < |r| ==> r[k] < r[l]
    ensures forall i :: 0 <= i < n && b[i] == Empty ==> i in r
  {
    if n == 0 then []
    else if b[n - 1] == Empty then EmptyBelow(b, n - 1) + [n - 1]
    else EmptyBelow(b, n - 1)
  }

  /**
   * getEmptyIndices: exactly the empty cells, in strictly ascending order.
   */
  function EmptyIndices(b: Board): (r: seq<Cell>)
    ensures forall k, l :: 0 <= k < l < |r| ==> r[k] < r[l]
    ensures forall i :: 0 <= i < 9 ==> (b[i] == Empty <==> i in r)
  {
    EmptyBelow(b, 9)
  }

  /** The board has no empty cell. */
  predicate Full(b: Board) {
    forall i :: 0 <= i < 9 ==> b[i] != Empty
  }

  lemma FullIffNoEmptyIndices(b: Board)
    ensures Full(b) <==> |EmptyIndices(b)| == 0
  {
    var e := EmptyIndices(b);
    if |e| > 0 {
      assert e[0] in e;
    }
  }

  /** The set of cells in which two boards differ. */
  function Changed(b: Board, c: Board): set<Cell> {
    set i: Cell | b[i] != c[i]
  }

  /** The board one move below `b`: the empty cell `i` taken by `p`. */
  function Child(b: Board, i: Cell, p: int): (c: Board)
    requires b[i] == Empty && p != Empty
    ensures Changed(b, c) == {i} && c[i] == p
  {
    b[i := p]
  }

  /**
   * minimax: 0 once the depth is used up or the board is full, checked
   * before any win; then 1 if the human has a line, -1 if the AI has one;
   * otherwise the minimum (AI to move) or maximum (human to move) over the
   * empty cells of the score of the child one level shallower.
   */
  function Minimax(b: Board, depth: int, minimizing: bool): (v: int)
    ensures -1 <= v <= 1
    ensures depth <= 0 || Full(b) ==> v == 0
    decreases if depth < 0 then 0 else depth, 1
  {
    var empties := EmptyIndices(b);
    FullIffNoEmptyIndices(b);
    if depth <= 0 || |empties| == 0 then 0
    else if IsWinning(b, Human) then 1
    else if IsWinning(b, Ai) then -1
    else if minimizing then MinChild(b, empties, depth)
    else MaxChild(b, empties, depth)
  }

  /** The smallest score of the AI's moves into the cells `idx`. */
  function MinChild(b: Board, idx: seq<Cell>, depth: int): (v: int)
    requires depth > 0 && |idx| > 0
    requires forall k :: 0 <= k < |idx| ==> b[idx[k]] == Empty
    ensures -1 <= v <= 1
    ensures forall k :: 0 <= k < |idx| ==> v <= Minimax(Child(b, idx[k], Ai), depth - 1, false)
    ensures exists k :: 0 <= k < |idx| && v == Minimax(Child(b, idx[k], Ai), depth - 1, false)
    decreases depth, 0, |idx|
  {
    var g := Minimax(Child(b, idx[0], Ai), depth - 1, false);
    if |idx| == 1 then g
    else
      var rest := MinChild(b, idx[1..], depth);
      if g <= rest then g else rest
  }

  /** The largest score of the human's moves into the cells `idx`. */
  function MaxChild(b: Board, idx: seq<Cell>, depth: int): (v: int)
    requires depth > 0 && |idx| > 0
    requires forall k :: 0 <= k < |idx| ==> b[idx[k]] == Empty
    ensures -1 <= v <= 1
    ensures forall k :: 0 <= k < |idx| ==> v >= Minimax(Child(b, idx[k], Human), depth - 1, true)
    ensures exists k :: 0 <= k < |idx| && v == Minimax(Child(b, idx[k], Human), depth - 1, true)
    decreases depth, 0, |idx|
  {
    var g := Minimax(Child(b, idx[0], Human), depth - 1, true);
    if |idx| == 1 then g
    else
      var rest := MaxChild(b, idx[1..], depth);
      if g >= rest then g else rest
  }

  /** The position is decided before any search: depth used up, board full, or a line. */
  predicate Terminal(b: Board, depth: int) {
    depth <= 0 || Full(b) || IsWinning(b, Human) || IsWinning(b, Ai)
  }

  /**
   * The scores minimax gives to terminal positions: the depth and fullness
   * test comes first, so a full board scores 0 even when it holds a line.
   */
  lemma MinimaxTerminal(b: Board, depth: int, minimizing: bool)
    requires Terminal(b, depth)
    ensures depth <= 0 || Full(b) ==> Minimax(b, depth, minimizing) == 0
    ensures depth > 0 && !Full(b) && HasLine(b, Human) ==> Minimax(b, depth, minimizing) == 1
    ensures depth > 0 && !Full(b) && !HasLine(b, Human) && HasLine(b, Ai)
      ==> Minimax(b, depth, minimizing) == -1
  {
    FullIffNoEmptyIndices(b);
  }

  /**
   * On an undecided position the score is the minimum (AI to move) or the
   * maximum (human to move) of the children's scores, each child taking one
   * empty cell and searched one level shallower by the other side.
   */
  lemma MinimaxRecurrence(b: Board, depth: int, minimizing: bool)
    requires !Terminal(b, depth)
    ensures var v := Minimax(b, depth, minimizing);
      && (minimizing ==>
            (forall i: Cell :: b[i] == Empty ==> v <= Minimax(Child(b, i, Ai), depth - 1, false))
            && (exists i: Cell :: b[i] == Empty && v == Minimax(Child(b, i, Ai), depth - 1, false)))
      && (!minimizing ==>
            (forall i: Cell :: b[i] == Empty ==> v >= Minimax(Child(b, i, Human), depth - 1, true))
            && (exists i: Cell :: b[i] == Empty && v == Minimax(Child(b, i, Human), depth - 1, true)))
  {
    var e := EmptyIndices(b);
    FullIffNoEmptyIndices(b);
    forall i: Cell | b[i] == Empty
      ensures exists k :: 0 <= k < |e| && e[k] == i
    {
      assert i in e;
    }
  }

  /** A full board on which the human holds the top row still scores 0. */
  lemma FullBoardWithLineScoresZero()
    ensures var b: Board := [1, 1, 1, 0, 0, 1, 1, 0, 0];
      IsWinning(b, Human) && Full(b) && Minimax(b, 4, false) == 0
  {
    var b: Board := [1, 1, 1, 0, 0, 1, 1, 0, 0];
    assert Three(b, Human, 0, 1, 2);
  }

  /** The whole game state the AI reads and writes. */
  datatype Game = Game(board: Board, nextIsPlayer: bool)

  /**
   * The AI's move choice scan: starting from a score above every real one,
   * each cell whose score is at most the best so far replaces it, so the
   * result is the last cell of minimal score.
   */
  method LastMinimum(cells: seq<Cell>, scores: seq<int>) returns (chosen: int)
    requires |cells| == |scores|
    requires forall k, l :: 0 <= k < l < |cells| ==> cells[k] < cells[l]
    requires forall k :: 0 <= k < |scores| ==> scores[k] < Infinity
    ensures |cells| == 0 <==> chosen == -1
    ensures |cells| > 0 ==>
      exists m ::
        && 0 <= m < |cells| && cells[m] == chosen
        && (forall k :: 0 <= k < |cells| ==> scores[m] <= scores[k])
        && (forall k :: 0 <= k < |cells| && cells[k] > chosen ==> scores[m] < scores[k])
  {
    var minValue := Infinity;
    chosen := -1;
    var m := 0;
    var k := 0;
    while k < |cells|
      invariant 0 <= k <= |cells| && 0 <= m <= k
      invariant k == 0 ==> chosen == -1 && minValue == Infinity
      invariant k > 0 ==> m < k && cells[m] == chosen && minValue == scores[m]
      invariant forall j :: 0 <= j < k ==> minValue <= scores[j]
      invariant forall j :: 0 <= j < k && cells[j] > chosen ==> minValue < scores[j]
    {
      if scores[k] <= minValue {
        minValue := scores[k];
        chosen := cells[k];
        m := k;
      }
      k := k + 1;
    }
  }

  /** The score of the AI moving into `i`, as the AI's move choice computes it. */
  function MoveScore(b: Board, i: Cell): int
    requires b[i] == Empty
  {
    Minimax(Child(b, i, Ai), 4, false)
  }

  /**
   * AIPlay.  `draw` stands for the random index into the empty cells that
   * the opening branch draws from [0, count - 1].
   *  - a board where either side has a line is left alone;
   *  - with eight or nine empty cells the AI takes the drawn one, and the
   *    turn flag is left as it was;
   *  - a full board is left alone;
   *  - otherwise the AI takes the LAST empty cell of minimal score (the scan
   *    keeps a later cell on a tie) and hands the turn to the human.
   */
  method AIPlay(g: Game, draw: int) returns (r: Game)
    requires |EmptyIndices(g.board)| >= 8 ==> 0 <= draw < |EmptyIndices(g.board)|
    ensures IsWinning(g.board, Ai) || IsWinning(g.board, Human) || Full(g.board) ==> r == g
    ensures !IsWinning(g.board, Ai) && !IsWinning(g.board, Human) && |EmptyIndices(g.board)| >= 8 ==>
      var c := EmptyIndices(g.board)[draw];
      r == Game(Child(g.board, c, Ai), g.nextIsPlayer)
    ensures !IsWinning(g.board, Ai) && !IsWinning(g.board, Human) && !Full(g.board)
            && |EmptyIndices(g.board)| < 8 ==>
      r.nextIsPlayer
      && exists c: Cell ::
        && g.board[c] == Empty
        && r.board == Child(g.board, c, Ai)
        && (forall i: Cell :: g.board[i] == Empty ==> MoveScore(g.board, c) <= MoveScore(g.board, i))
        && (forall i: Cell :: g.board[i] == Empty && i > c ==> MoveScore(g.board, c) < MoveScore(g.board, i))
  {
    var b := g.board;
    FullIffNoEmptyIndices(b);
    if IsWinning(b, Ai) || IsWinning(b, Human) {
      return g;
    }
    var empties := EmptyIndices(b);
    if |empties| >= 8 {
      return Game(Child(b, empties[draw], Ai), g.nextIsPlayer);
    }
    if |empties| == 0 {
      return g;
    }
    var c := ChooseMove(b);
    r := Game(Child(b, c, Ai), true);
    assert BestMove(b, c);
  }

  /** c is a last empty cell of minimal score. */
  predicate BestMove(b: Board, c: Cell)
    requires b[c] == Empty
  {
    && (forall i: Cell :: b[i] == Empty ==> MoveScore(b, c) <= MoveScore(b, i))
    && (forall i: Cell :: b[i] == Empty && i > c ==> MoveScore(b, c) < MoveScore(b, i))
  }

  /** The minimax branch of AIPlay: score every empty cell and scan for the last minimum. */
  method ChooseMove(b: Board) returns (c: Cell)
    requires |EmptyIndices(b)| > 0
    ensures b[c] == Empty && BestMove(b, c)
  {
    var empties := EmptyIndices(b);
    var scores := seq(|empties|, k requires 0 <= k < |empties| => MoveScore(b, empties[k]));
    var chosen := LastMinimum(empties, scores);
    ChosenIsBest(b, empties, scores, chosen);
    c := chosen;
  }

  /** The cell LastMinimum picks from the scores of the empty cells is a last best move. */
  lemma ChosenIsBest(b: Board, empties: seq<Cell>, scores: seq<int>, chosen: Cell)
    requires empties == EmptyIndices(b) && |scores| == |empties|
    requires forall k :: 0 <= k < |empties| ==> scores[k] == MoveScore(b, empties[k])
    requires exists m ::
        && 0 <= m < |empties| && empties[m] == chosen
        && (forall k :: 0 <= k < |empties| ==> scores[m] <= scores[k])
        && (forall k :: 0 <= k < |empties| && empties[k] > chosen ==> scores[m] < scores[k])
    ensures forall i: Cell :: b[i] == Empty ==> MoveScore(b, chosen) <= MoveScore(b, i)
    ensures forall i: Cell :: b[i] == Empty && i > chosen ==> MoveScore(b, chosen) < MoveScore(b, i)
  {
    var m :| && 0 <= m < |empties| && empties[m] == chosen
             && (forall k :: 0 <= k < |empties| ==> scores[m] <= scores[k])
             && (forall k :: 0 <= k < |empties| && empties[k] > chosen ==> scores[m] < scores[k]);
    forall i: Cell | b[i] == Empty
      ensures MoveScore(b, chosen) <= MoveScore(b, i)
      ensures i > chosen ==> MoveScore(b, chosen) < MoveScore(b, i)
    {
      assert i in empties;
      var j :| 0 <= j < |empties| && empties[j] == i;
      assert scores[j] == MoveScore(b, i);
    }
  }
}
