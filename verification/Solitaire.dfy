/**
 * The peg solitaire solver of doc/play/solitaire.go: a backtracking search that
 * plays and takes back jumps on one board in place.
 */
module Solitaire {

  /** The length of a row, with its newline. */
  const N := 12

  /** A field of the board; newlines count as illegal too. */
  datatype Field = Illegal | Hole | Peg

  type Board = seq<Field>

  // ---------- the game ----------

  datatype Jump = Jump(pos: int, dir: int)

  const DIRECTIONS: seq<int> := [-1, -N, 1, N]

  predicate OnBoard(b: Board, pos: int) { 0 <= pos < |b| }

  /** A peg may jump over a peg into a hole. */
  predicate Legal(b: Board, j: Jump)
  {
    j.dir in DIRECTIONS && OnBoard(b, j.pos) && OnBoard(b, j.pos + j.dir) && OnBoard(b, j.pos + 2 * j.dir) &&
    b[j.pos] == Peg && b[j.pos + j.dir] == Peg && b[j.pos + 2 * j.dir] == Hole
  }

  /** The board after a jump: the peg has moved, the one it jumped over is gone. */
  function After(b: Board, j: Jump): (b': Board)
    requires Legal(b, j)
    ensures |b'| == |b|
  {
    b[j.pos := Hole][j.pos + j.dir := Hole][j.pos + 2 * j.dir := Peg]
  }

  function Pegs(b: Board): set<int> { set pos | 0 <= pos < |b| && b[pos] == Peg }

  /** One peg is left, in the center if that matters. */
  ghost predicate Won(b: Board, center: int)
  {
    exists pos :: Pegs(b) == {pos} && (center < 0 || pos == center)
  }

  /** Boards from the end of a won game back to its beginning. */
  ghost predicate Game(boards: seq<Board>, start: Board, center: int)
  {
    boards != [] && boards[|boards| - 1] == start && Won(boards[0], center) &&
    forall i :: 0 <= i < |boards| - 1 ==> IsJump(boards[i + 1], boards[i])
  }

  ghost predicate IsJump(before: Board, after: Board)
  {
    exists j :: Legal(before, j) && after == After(before, j)
  }

  /** Some sequence of legal jumps wins. */
  ghost predicate Solvable(b: Board, center: int) { exists boards :: Game(boards, b, center) }

  /** The jump is legal and leaves a board that can be won. */
  ghost predicate Leads(b: Board, j: Jump, center: int) { Legal(b, j) && Solvable(After(b, j), center) }

  lemma SolvableByJump(boards: seq<Board>, b: Board, j: Jump, center: int)
    requires Legal(b, j) && Game(boards, After(b, j), center)
    ensures Game(boards + [b], b, center)
  {
    var longer := boards + [b];
    forall i | 0 <= i < |longer| - 1 ensures IsJump(longer[i + 1], longer[i]) {
      if i < |boards| - 1 { assert longer[i] == boards[i] && longer[i + 1] == boards[i + 1]; }
    }
  }

  /** A board is solvable if it is won already or some jump leads to a win. */
  lemma SolvableSteps(b: Board, center: int)
    ensures Solvable(b, center) <==> Won(b, center) || exists j :: Leads(b, j, center)
  {
    if Won(b, center) { assert Game([b], b, center); }
    if j :| Leads(b, j, center) {
      var boards :| Game(boards, After(b, j), center);
      SolvableByJump(boards, b, j, center);
    }
    if boards :| Game(boards, b, center) {
      if |boards| > 1 {
        var k := |boards| - 1;
        assert IsJump(boards[k - 1 + 1], boards[k - 1]);
        var j :| Legal(b, j) && boards[k - 1] == After(b, j);
        assert Game(boards[..k], After(b, j), center);
        assert Leads(b, j, center);
      }
    }
  }

  lemma JumpRemovesOne(b: Board, j: Jump)
    requires Legal(b, j)
    ensures |Pegs(After(b, j))| == |Pegs(b)| - 1
  {
    var over, to := j.pos + j.dir, j.pos + 2 * j.dir;
    assert j.pos != over && over != to && to != j.pos;
    assert Pegs(After(b, j)) == Pegs(b) - {j.pos} - {over} + {to};
    assert to !in Pegs(b) && j.pos in Pegs(b) && over in Pegs(b) - {j.pos};
  }

  /** Two illegal rows above and below keep every jump of a peg on the board. */
  predicate Bordered(b: Board)
  {
    forall pos :: 0 <= pos < |b| && b[pos] != Illegal ==> 2 * N <= pos < |b| - 2 * N
  }

  /** The field at a row and column of the English board, which the program starts from. */
  function EnglishField(row: int, col: int): Field
  {
    if row == 5 && col == 5 then Hole
    else if (2 <= row <= 8 && 4 <= col <= 6) || (4 <= row <= 6 && 2 <= col <= 8) then Peg
    else Illegal
  }

  const ENGLISH: Board := seq(11 * N, pos requires 0 <= pos < 11 * N => EnglishField(pos / N, pos % N))

  lemma EnglishIsBordered()
    ensures Bordered(ENGLISH)
  {
  }

  // ---------- the game by rows and columns ----------

  /** Each row ends in its newline. */
  predicate InRows(b: Board) { forall pos :: 0 <= pos < |b| && pos % N == N - 1 ==> b[pos] == Illegal }

  lemma EnglishIsInRows()
    ensures InRows(ENGLISH)
  {
  }

  /** The field at a row and column, Illegal off the board. */
  function At(b: Board, row: int, col: int): Field
  {
    if 0 <= row && 0 <= col < N - 1 && 0 <= row * N + col < |b| then b[row * N + col] else Illegal
  }

  /** One step up, down, left or right. */
  predicate OneStep(dr: int, dc: int) { (dr == 0 && (dc == 1 || dc == -1)) || (dc == 0 && (dr == 1 || dr == -1)) }

  /** A peg has a peg beside it in that direction, and a hole behind that. */
  predicate CanJump(b: Board, row: int, col: int, dr: int, dc: int)
  {
    OneStep(dr, dc) && At(b, row, col) == Peg && At(b, row + dr, col + dc) == Peg && At(b, row + 2 * dr, col + 2 * dc) == Hole
  }

  /** Rows lie one behind the other, each with an illegal field at its end. */
  lemma AtIs(b: Board, row: int, col: int)
    requires InRows(b) && 0 <= row && 0 <= col < N
    ensures var pos := row * N + col; pos >= 0 && At(b, row, col) == if OnBoard(b, pos) then b[pos] else Illegal
  {
    assert (row * N + col) % N == col;
  }

  /** The legal jumps are those along a row or a column, either way; none goes from one row's end to the next. */
  lemma LegalByRows(b: Board, row: int, col: int, dr: int, dc: int)
    requires InRows(b) && 0 <= row && 0 <= col < N && -1 <= dr <= 1 && -1 <= dc <= 1 && (dr == 0 || dc == 0)
    ensures Legal(b, Jump(row * N + col, dr * N + dc)) <==> CanJump(b, row, col, dr, dc)
  {
    AtIs(b, row, col);
    if dr != 0 {
      if row + dr >= 0 { AtIs(b, row + dr, col); }
      if row + 2 * dr >= 0 { AtIs(b, row + 2 * dr, col); }
    } else if dc != 0 {
      if 0 <= col + dc < N { AtIs(b, row, col + dc); }
      if 0 <= col + 2 * dc < N { AtIs(b, row, col + 2 * dc); }
      if row > 0 { AtIs(b, row - 1, N - 1); }
    }
  }

  /** And there are no others. */
  lemma EveryLegalJump(b: Board, j: Jump) returns (row: int, col: int, dr: int, dc: int)
    requires InRows(b) && Legal(b, j)
    ensures j.pos == row * N + col && j.dir == dr * N + dc && CanJump(b, row, col, dr, dc)
  {
    row, col := j.pos / N, j.pos % N;
    dr, dc := if j.dir == N then 1 else if j.dir == -N then -1 else 0, if j.dir == 1 then 1 else if j.dir == -1 then -1 else 0;
    LegalByRows(b, row, col, dr, dc);
  }

  function Holes(b: Board): set<int> { set pos | 0 <= pos < |b| && b[pos] == Hole }

  /** init: the position of the single hole, or -1. */
  method FindCenter(board: array<Field>) returns (center: int)
    ensures center >= 0 ==> Holes(board[..]) == {center}
    ensures center < 0 ==> center == -1 && |Holes(board[..])| != 1
  {
    ghost var b := board[..];
    var n := 0;
    center := -1;
    for pos := 0 to board.Length
      invariant n == |HolesBelow(b, pos)| && (n == 0 ==> center == -1) && (n > 0 ==> center in HolesBelow(b, pos))
    {
      assert HolesBelow(b, pos + 1) == HolesBelow(b, pos) + if b[pos] == Hole then {pos} else {};
      if board[pos] == Hole {
        center := pos;
        n := n + 1;
      }
    }
    assert HolesBelow(b, |b|) == Holes(b);
    if n != 1 {
      center := -1;
    } else {
      assert |Holes(b) - {center}| == 0;
    }
  }

  function HolesBelow(b: Board, k: int): set<int> { set pos | 0 <= pos < |b| && pos < k && b[pos] == Hole }

  // ---------- the search ----------

  class Solver {
    const board: array<Field>
    const center: int
    var moves: nat
    /** The boards printed. */
    var printed: seq<Board>

    constructor (board: array<Field>, center: int)
      ensures this.board == board && this.center == center && moves == 0 && printed == []
    {
      this.board, this.center, moves, printed := board, center, 0, [];
    }

    /** Try a jump, and play it if it is legal. */
    method Move(pos: int, dir: int) returns (ok: bool)
      requires Bordered(board[..]) && 0 <= pos < board.Length && dir in DIRECTIONS
      modifies this`moves, board
      ensures moves == old(moves) + 1
      ensures ok <==> Legal(old(board[..]), Jump(pos, dir))
      ensures board[..] == if ok then After(old(board[..]), Jump(pos, dir)) else old(board[..])
      ensures Bordered(board[..])
    {
      moves := moves + 1;
      ghost var b := board[..];
      if board[pos] == Peg && board[pos + dir] == Peg && board[pos + 2 * dir] == Hole {
        board[pos] := Hole;
        board[pos + dir] := Hole;
        board[pos + 2 * dir] := Peg;
        assert board[..] == After(b, Jump(pos, dir));
        return true;
      }
      return false;
    }

    /** Take a jump back. */
    method Unmove(pos: int, dir: int, ghost before: Board)
      requires Legal(before, Jump(pos, dir)) && board[..] == After(before, Jump(pos, dir))
      modifies board
      ensures board[..] == before
    {
      board[pos] := Peg;
      board[pos + dir] := Peg;
      board[pos + 2 * dir] := Hole;
      assert board[..] == before;
    }

    /** The four jumps of the peg at pos. */
    method TryPeg(pos: int, ghost pegs: nat) returns (ok: bool)
      requires Bordered(board[..]) && 0 <= pos < board.Length && board[pos] == Peg && pegs == |Pegs(board[..])|
      modifies this`moves, this`printed, board
      ensures board[..] == old(board[..])
      ensures ok <==> exists dir :: dir in DIRECTIONS && Leads(old(board[..]), Jump(pos, dir), center)
      ensures ok ==> Shown(old(printed), printed, old(board[..]), center)
      ensures !ok ==> printed == old(printed)
      decreases pegs, 0
    {
      ghost var b := board[..];
      for k := 0 to |DIRECTIONS|
        invariant board[..] == b && printed == old(printed)
        invariant forall i :: 0 <= i < k ==> !Leads(b, Jump(pos, DIRECTIONS[i]), center)
      {
        var dir := DIRECTIONS[k];
        var moved := Move(pos, dir);
        if moved {
          JumpRemovesOne(b, Jump(pos, dir));
          var solved := Solve(pegs - 1);
          Unmove(pos, dir, b);
          if solved {
            ShownByJump(old(printed), printed, b, Jump(pos, dir), center);
            printed := printed + [board[..]];
            assert dir in DIRECTIONS && Leads(b, Jump(pos, dir), center);
            return true;
          }
        }
      }
      return false;
    }

    /**
     * solve: true exactly if the board can be won; the board is as it was either
     * way, and what is printed is a won game from its end back to this board.
     */
    method Solve(ghost pegs: nat) returns (ok: bool)
      requires Bordered(board[..]) && pegs == |Pegs(board[..])|
      modifies this`moves, this`printed, board
      ensures board[..] == old(board[..])
      ensures ok <==> Solvable(old(board[..]), center)
      ensures ok ==> Shown(old(printed), printed, old(board[..]), center)
      ensures !ok ==> printed == old(printed)
      decreases pegs, 1
    {
      ghost var b := board[..];
      var last, n := 0, 0;
      SolvableSteps(b, center);
      for pos := 0 to board.Length
        invariant board[..] == b && printed == old(printed)
        invariant NoneLeads(b, pos, center)
        invariant n >= 0 && Counted(b, pos, n, last)
      {
        CountedStep(b, pos, n, last);
        if board[pos] == Peg {
          var solved := TryPeg(pos, pegs);
          if solved {
            ghost var dir :| dir in DIRECTIONS && Leads(b, Jump(pos, dir), center);
            return true;
          }
          last := pos;
          n := n + 1;
        }
        NoneLeadsStep(b, pos, center);
      }
      OnePeg(b, n, last, center);
      NoneLeadsAtAll(b, center);
      if n == 1 && (center < 0 || last == center) {
        printed := printed + [board[..]];
        assert Game([b], b, center);
        assert Shown(old(printed), printed, b, center);
        return true;
      }
      return false;
    }
  }

  function PegsBelow(b: Board, k: int): set<int> { set pos | 0 <= pos < |b| && pos < k && b[pos] == Peg }

  /** Of the fields before k, n hold pegs, and last is one of those if there is any. */
  ghost predicate Counted(b: Board, k: int, n: int, last: int)
  {
    n == |PegsBelow(b, k)| && (n > 0 ==> last in PegsBelow(b, k))
  }

  lemma CountedStep(b: Board, k: int, n: int, last: int)
    requires 0 <= k < |b| && Counted(b, k, n, last)
    ensures if b[k] == Peg then Counted(b, k + 1, n + 1, k) else Counted(b, k + 1, n, last)
  {
    assert PegsBelow(b, k + 1) == PegsBelow(b, k) + if b[k] == Peg then {k} else {};
  }

  /** What was printed since is a won game from its end back to b. */
  ghost predicate Shown(was: seq<Board>, now: seq<Board>, b: Board, center: int)
  {
    exists boards :: Game(boards, b, center) && now == was + boards
  }

  lemma ShownByJump(was: seq<Board>, now: seq<Board>, b: Board, j: Jump, center: int)
    requires Legal(b, j) && Shown(was, now, After(b, j), center)
    ensures Shown(was, now + [b], b, center) && Leads(b, j, center)
  {
    var boards :| Game(boards, After(b, j), center) && now == was + boards;
    SolvableByJump(boards, b, j, center);
    assert now + [b] == was + (boards + [b]);
  }

  /** No jump of a peg before pos leads to a win. */
  ghost predicate NoneLeads(b: Board, pos: int, center: int)
  {
    forall j: Jump :: j.pos < pos ==> !Leads(b, j, center)
  }

  lemma NoneLeadsStep(b: Board, pos: int, center: int)
    requires 0 <= pos < |b| && NoneLeads(b, pos, center)
    requires b[pos] == Peg ==> !exists dir :: dir in DIRECTIONS && Leads(b, Jump(pos, dir), center)
    ensures NoneLeads(b, pos + 1, center)
  {
    forall j: Jump | j.pos < pos + 1 ensures !Leads(b, j, center) {
      if j.pos == pos { assert j == Jump(pos, j.dir); }
    }
  }

  lemma NoneLeadsAtAll(b: Board, center: int)
    requires NoneLeads(b, |b|, center)
    ensures !exists j :: Leads(b, j, center)
  {
  }

  /** Counting the pegs and remembering the last one tells whether the board is won. */
  lemma OnePeg(b: Board, n: int, last: int, center: int)
    requires Counted(b, |b|, n, last)
    ensures Won(b, center) <==> n == 1 && (center < 0 || last == center)
  {
    assert PegsBelow(b, |b|) == Pegs(b);
    if n == 1 {
      assert |Pegs(b) - {last}| == 0;
      assert Pegs(b) == {last};
    }
    if Won(b, center) {
      var pos :| Pegs(b) == {pos} && (center < 0 || pos == center);
      assert |{pos}| == 1;
    }
  }
}
