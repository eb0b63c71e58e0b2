/** The computer opponent: the minimax evaluation the hard level searches
    with, the choice of `getBestMove` among the free cells, and the
    one-move look-ahead of the normal level.

    O is the maximizing player: a position O has won is worth 1, one X has
    won is worth -1, and a full board without a winner is worth 0. */
module Ai {
  import opened Board

  /** `Integer.MIN_VALUE` and `Integer.MAX_VALUE`, the starting values of
      the running best score. */
  const IntMin: int := -2147483648
  const IntMax: int := 2147483647

  /** `Math.max` and `Math.min`. */
  function Max(a: int, b: int): int { if a >= b then a else b }
  function Min(a: int, b: int): int { if a <= b then a else b }

  // ---------------------------------------------------------------- minimax

  /** The value `minimax(x, o, maximizing)` returns: O's win first, then X's
      win, then the full board, and otherwise the fold of the loop over the
      cells 0..8. */
  function MinimaxValue(x: Mask, o: Mask, maximizing: bool): int
    decreases FreeSet(x, o), 1, 0
  {
    if IsWin(o) then 1
    else if IsWin(x) then -1
    else if IsFull(x, o) then 0
    else ScoreFrom(x, o, maximizing, 0, if maximizing then IntMin else IntMax)
  }

  /** The loop of `minimax` from cell `pos` on, with running best `best`:
      occupied cells are skipped, and on a free cell the mover takes it and
      the value of the reply position is folded in with max (O) or min (X). */
  function ScoreFrom(x: Mask, o: Mask, maximizing: bool, pos: Pos, best: int): int
    requires pos <= 9
    decreases FreeSet(x, o), 0, 9 - pos
  {
    if pos == 9 then best
    else if Occupied(x, o, pos) then ScoreFrom(x, o, maximizing, pos + 1, best)
    else
      PlacingRemovesFreeCell(x, o, pos);
      if maximizing then
        ScoreFrom(x, o, maximizing, pos + 1, Max(best, MinimaxValue(x, SetBit(o, pos), false)))
      else
        ScoreFrom(x, o, maximizing, pos + 1, Min(best, MinimaxValue(SetBit(x, pos), o, true)))
  }

  /** The value of the position reached when the mover (O if `maximizing`)
      takes cell `p`, with the other player to move. */
  function Reply(x: Mask, o: Mask, maximizing: bool, p: Pos): int
    requires IsCell(p)
  {
    if maximizing then MinimaxValue(x, SetBit(o, p), false)
    else MinimaxValue(SetBit(x, p), o, true)
  }

  /** A position where nobody has won and some cell is free. */
  predicate Open(x: Mask, o: Mask)
  {
    !IsWin(o) && !IsWin(x) && !IsFull(x, o)
  }

  /** The loop from `pos` on ends with the extremum of `best` and of the
      reply values of the free cells from `pos` on, and that extremum is
      one of them. */
  lemma {:induction false} ScoreFromIsExtremum(x: Mask, o: Mask, maximizing: bool, pos: Pos, best: int)
    requires pos <= 9
    ensures var r := ScoreFrom(x, o, maximizing, pos, best);
      && (maximizing ==> r >= best)
      && (!maximizing ==> r <= best)
      && (forall p :: pos <= p < 9 && !Occupied(x, o, p) ==>
            if maximizing then r >= Reply(x, o, maximizing, p) else r <= Reply(x, o, maximizing, p))
      && (r == best || exists p :: pos <= p < 9 && !Occupied(x, o, p) && r == Reply(x, o, maximizing, p))
    decreases 9 - pos
  {
    if pos < 9 {
      var next := if Occupied(x, o, pos) then best
        else if maximizing then Max(best, Reply(x, o, maximizing, pos))
        else Min(best, Reply(x, o, maximizing, pos));
      assert ScoreFrom(x, o, maximizing, pos, best) == ScoreFrom(x, o, maximizing, pos + 1, next);
      ScoreFromIsExtremum(x, o, maximizing, pos + 1, next);
    }
  }

  /** Every value `minimax` returns is -1, 0 or 1; in particular the
      starting values `Integer.MIN_VALUE` and `Integer.MAX_VALUE` never
      come out. */
  lemma {:induction false} MinimaxRange(x: Mask, o: Mask, maximizing: bool)
    ensures -1 <= MinimaxValue(x, o, maximizing) <= 1
    decreases FreeSet(x, o), 1
  {
    if Open(x, o) {
      ReplyRange(x, o, maximizing);
      var init := if maximizing then IntMin else IntMax;
      ScoreFromIsExtremum(x, o, maximizing, 0, init);
      FullIffNoFreeCells(x, o);
      var p := FreeCells(x, o)[0];
      assert -1 <= Reply(x, o, maximizing, p) <= 1;
    }
  }

  /** Every reply value of a free cell is -1, 0 or 1. */
  lemma {:induction false} ReplyRange(x: Mask, o: Mask, maximizing: bool)
    ensures forall p :: IsCell(p) && !Occupied(x, o, p) ==> -1 <= Reply(x, o, maximizing, p) <= 1
    decreases FreeSet(x, o), 0
  {
    forall p | IsCell(p) && !Occupied(x, o, p) ensures -1 <= Reply(x, o, maximizing, p) <= 1 {
      PlacingRemovesFreeCell(x, o, p);
      if maximizing {
        MinimaxRange(x, SetBit(o, p), false);
      } else {
        MinimaxRange(SetBit(x, p), o, true);
      }
    }
  }

  /** In an open position the value is the best reply value for the mover:
      no free cell does better, and some free cell reaches it. */
  lemma MinimaxIsBestReply(x: Mask, o: Mask, maximizing: bool)
    requires Open(x, o)
    ensures var v := MinimaxValue(x, o, maximizing);
      && (forall p :: IsCell(p) && !Occupied(x, o, p) ==>
            if maximizing then v >= Reply(x, o, maximizing, p) else v <= Reply(x, o, maximizing, p))
      && (exists p :: IsCell(p) && !Occupied(x, o, p) && v == Reply(x, o, maximizing, p))
  {
    MinimaxRange(x, o, maximizing);
    ScoreFromIsExtremum(x, o, maximizing, 0, if maximizing then IntMin else IntMax);
  }

  /** When the mover can complete a line with one free cell, the value is
      a win for the mover: 1 for O, -1 for X. */
  lemma MinimaxTakesImmediateWin(x: Mask, o: Mask, maximizing: bool, p: Pos)
    requires Open(x, o) && IsCell(p) && !Occupied(x, o, p)
    requires if maximizing then IsWin(SetBit(o, p)) else IsWin(SetBit(x, p))
    ensures MinimaxValue(x, o, maximizing) == if maximizing then 1 else -1
  {
    MinimaxIsBestReply(x, o, maximizing);
    MinimaxRange(x, o, maximizing);
  }

  /** One pass of the loop of `minimax`. */
  lemma ScoreFromStep(x: Mask, o: Mask, maximizing: bool, pos: Pos, best: int)
    requires pos < 9
    ensures Occupied(x, o, pos) ==>
      ScoreFrom(x, o, maximizing, pos, best) == ScoreFrom(x, o, maximizing, pos + 1, best)
    ensures !Occupied(x, o, pos) ==>
      ScoreFrom(x, o, maximizing, pos, best) == ScoreFrom(x, o, maximizing, pos + 1,
        if maximizing then Max(best, Reply(x, o, maximizing, pos)) else Min(best, Reply(x, o, maximizing, pos)))
  {
  }

  /** `minimax`: the board masks are changed and restored around each
      recursive call, and the result is the value of the position. */
  method Minimax(xBoard: Mask, oBoard: Mask, maximizing: bool) returns (score: int)
    ensures score == MinimaxValue(xBoard, oBoard, maximizing)
    decreases FreeSet(xBoard, oBoard)
  {
    if IsWin(oBoard) { return 1; }
    if IsWin(xBoard) { return -1; }
    if IsFull(xBoard, oBoard) { return 0; }
    var x, o := xBoard, oBoard;
    var bestScore := if maximizing then IntMin else IntMax;
    var pos: Pos := 0;
    while pos < 9
      invariant pos <= 9
      invariant x == xBoard && o == oBoard
      invariant ScoreFrom(x, o, maximizing, pos, bestScore) == MinimaxValue(xBoard, oBoard, maximizing)
    {
      ScoreFromStep(x, o, maximizing, pos, bestScore);
      if !Occupied(x, o, pos) {
        PlacingRemovesFreeCell(x, o, pos);
        if maximizing {
          ClearUndoesSet(o, pos);
          o := SetBit(o, pos);
          var s := Minimax(x, o, false);
          bestScore := Max(bestScore, s);
          o := ClearBit(o, pos);
        } else {
          ClearUndoesSet(x, pos);
          x := SetBit(x, pos);
          var s := Minimax(x, o, true);
          bestScore := Min(bestScore, s);
          x := ClearBit(x, pos);
        }
      }
      pos := pos + 1;
    }
    return bestScore;
  }

  // -------------------------------------------------------------- best move

  /** The score `getBestMove` gives cell `p`: the minimax value once O has
      taken it, with X to move. */
  function Score(x: Mask, o: Mask, p: Pos): int
    requires IsCell(p)
  {
    Reply(x, o, true, p)
  }

  predicate AllCells(cells: seq<Pos>)
  {
    forall k :: 0 <= k < |cells| ==> IsCell(cells[k])
  }

  /** No cell of `cells` scores above `bound`. */
  predicate AllAtMost(x: Mask, o: Mask, cells: seq<Pos>, bound: int)
    requires AllCells(cells)
  {
    forall j :: 0 <= j < |cells| ==> Score(x, o, cells[j]) <= bound
  }

  /** `cells[k]` has the highest score in `cells`, and every cell before it
      scores strictly less. */
  predicate IsFirstMaximum(x: Mask, o: Mask, cells: seq<Pos>, k: int)
    requires AllCells(cells)
  {
    && 0 <= k < |cells|
    && AllAtMost(x, o, cells, Score(x, o, cells[k]))
    && forall j :: 0 <= j < k ==> Score(x, o, cells[j]) < Score(x, o, cells[k])
  }

  /** The loop of `getBestMove` over the cells still to try, with the best
      score and move so far: a cell replaces the best only with a strictly
      higher score. */
  function BestMoveFrom(x: Mask, o: Mask, cells: seq<Pos>, bestScore: int, bestMove: int): int
    requires AllCells(cells)
    decreases |cells|
  {
    if cells == [] then bestMove
    else
      var score := Score(x, o, cells[0]);
      if score > bestScore then BestMoveFrom(x, o, cells[1..], score, cells[0] as int)
      else BestMoveFrom(x, o, cells[1..], bestScore, bestMove)
  }

  /** `getBestMove` on the masks `x` and `o`: the loop over the free cells,
      from `Integer.MIN_VALUE` and move -1. */
  function BestMove(x: Mask, o: Mask): int
  {
    BestMoveFrom(x, o, FreeCells(x, o), IntMin, -1)
  }

  /** A first cell no later cell beats is the first maximum. */
  lemma HeadIsFirstMaximum(x: Mask, o: Mask, cells: seq<Pos>)
    requires AllCells(cells) && cells != []
    requires AllAtMost(x, o, cells[1..], Score(x, o, cells[0]))
    ensures IsFirstMaximum(x, o, cells, 0)
  {
    assert forall j :: 1 <= j < |cells| ==> cells[j] == cells[1..][j - 1];
  }

  /** A first maximum of the tail that beats the head is the first maximum
      of the whole. */
  lemma TailFirstMaximum(x: Mask, o: Mask, cells: seq<Pos>, k: int)
    requires AllCells(cells) && cells != []
    requires IsFirstMaximum(x, o, cells[1..], k)
    requires Score(x, o, cells[0]) < Score(x, o, cells[1..][k])
    ensures IsFirstMaximum(x, o, cells, k + 1)
  {
    assert forall j :: 1 <= j < |cells| ==> cells[j] == cells[1..][j - 1];
  }

  /** A head at most `bound` leaves whether all cells are at most `bound`
      to the tail. */
  lemma AllAtMostTail(x: Mask, o: Mask, cells: seq<Pos>, bound: int)
    requires AllCells(cells) && cells != []
    ensures AllAtMost(x, o, cells, bound) <==>
      Score(x, o, cells[0]) <= bound && AllAtMost(x, o, cells[1..], bound)
  {
    assert forall j :: 1 <= j < |cells| ==> cells[j] == cells[1..][j - 1];
  }

  /** The loop keeps the running move when no cell beats the running score,
      and otherwise ends at the first cell of highest score. */
  lemma {:induction false} BestMoveFromIsFirstMaximum(x: Mask, o: Mask, cells: seq<Pos>, bestScore: int, bestMove: int)
    requires AllCells(cells)
    ensures AllAtMost(x, o, cells, bestScore) ==>
      BestMoveFrom(x, o, cells, bestScore, bestMove) == bestMove
    ensures !AllAtMost(x, o, cells, bestScore) ==>
      exists k ::
        && IsFirstMaximum(x, o, cells, k)
        && BestMoveFrom(x, o, cells, bestScore, bestMove) == cells[k] as int
        && Score(x, o, cells[k]) > bestScore
    decreases |cells|, 1
  {
    if cells != [] {
      var c, rest := cells[0], cells[1..];
      AllAtMostTail(x, o, cells, bestScore);
      if Score(x, o, c) > bestScore {
        BestMoveFromTakesHead(x, o, cells, bestScore, bestMove);
      } else {
        BestMoveFromIsFirstMaximum(x, o, rest, bestScore, bestMove);
        if !AllAtMost(x, o, rest, bestScore) {
          var k :| IsFirstMaximum(x, o, rest, k)
            && BestMoveFrom(x, o, rest, bestScore, bestMove) == rest[k] as int
            && Score(x, o, rest[k]) > bestScore;
          TailFirstMaximum(x, o, cells, k);
        }
      }
    }
  }

  /** A head that beats the running score becomes the running move, and the
      loop ends at the first maximum. */
  lemma {:induction false} BestMoveFromTakesHead(x: Mask, o: Mask, cells: seq<Pos>, bestScore: int, bestMove: int)
    requires AllCells(cells) && cells != [] && Score(x, o, cells[0]) > bestScore
    ensures exists k ::
      && IsFirstMaximum(x, o, cells, k)
      && BestMoveFrom(x, o, cells, bestScore, bestMove) == cells[k] as int
      && Score(x, o, cells[k]) > bestScore
    decreases |cells|, 0
  {
    var c, rest := cells[0], cells[1..];
    var score := Score(x, o, c);
    BestMoveFromIsFirstMaximum(x, o, rest, score, c as int);
    if AllAtMost(x, o, rest, score) {
      HeadIsFirstMaximum(x, o, cells);
    } else {
      var k :| IsFirstMaximum(x, o, rest, k)
        && BestMoveFrom(x, o, rest, score, c as int) == rest[k] as int
        && Score(x, o, rest[k]) > score;
      TailFirstMaximum(x, o, cells, k);
    }
  }

  /** `getBestMove` returns -1 exactly when no cell is free; otherwise it
      returns the first free cell of highest score. */
  lemma BestMoveIsFirstMaximum(x: Mask, o: Mask)
    ensures FreeCells(x, o) == [] ==> BestMove(x, o) == -1
    ensures FreeCells(x, o) != [] ==>
      exists k :: IsFirstMaximum(x, o, FreeCells(x, o), k) && BestMove(x, o) == FreeCells(x, o)[k] as int
  {
    var free := FreeCells(x, o);
    BestMoveFromIsFirstMaximum(x, o, free, IntMin, -1);
    if free != [] {
      MinimaxRange(x, SetBit(o, free[0]), false);
      assert !AllAtMost(x, o, free, IntMin);
    }
  }

  /** When O can complete a line with a free cell, the hard level picks a
      cell of score 1: a win for O against every defence. */
  lemma BestMoveFindsWin(x: Mask, o: Mask, p: Pos)
    requires IsCell(p) && !Occupied(x, o, p) && Completes(o, p)
    ensures exists q :: IsCell(q) && !Occupied(x, o, q) && BestMove(x, o) == q as int && Score(x, o, q) == 1
  {
    var free := FreeCells(x, o);
    BestMoveIsFirstMaximum(x, o);
    var k :| IsFirstMaximum(x, o, free, k) && BestMove(x, o) == free[k] as int;
    var j :| 0 <= j < |free| && free[j] == p;
    assert Score(x, o, p) == 1;
    assert Score(x, o, free[k]) >= Score(x, o, free[j]);
    MinimaxRange(x, SetBit(o, free[k]), false);
    assert IsCell(free[k]) && !Occupied(x, o, free[k]);
  }

  // ------------------------------------------------------------- normal AI

  datatype Option<T> = None | Some(value: T)

  /** Taking cell `p` gives mask `m` a complete line. */
  predicate Completes(m: Mask, p: Pos)
    requires IsCell(p)
  {
    IsWin(SetBit(m, p))
  }

  /** The first cell of `cells` that completes a line for `m`, as the loops
      of `getNormalAIMove` find it, or `None` if there is none. */
  function FirstCompleting(m: Mask, cells: seq<Pos>): Option<Pos>
    requires AllCells(cells)
  {
    if cells == [] then None
    else if Completes(m, cells[0]) then Some(cells[0])
    else FirstCompleting(m, cells[1..])
  }

  /** `FirstCompleting` yields `None` exactly when no cell of `cells`
      completes a line. */
  lemma {:induction false} FirstCompletingNone(m: Mask, cells: seq<Pos>)
    requires AllCells(cells)
    ensures FirstCompleting(m, cells).None? <==> forall k :: 0 <= k < |cells| ==> !Completes(m, cells[k])
  {
    if cells != [] && !Completes(m, cells[0]) {
      var tail := cells[1..];
      FirstCompletingNone(m, tail);
      assert forall k :: 1 <= k < |cells| ==> cells[k] == tail[k - 1];
    }
  }

  /** Otherwise it yields a completing cell of `cells` with none before
      it. */
  lemma {:induction false} FirstCompletingSome(m: Mask, cells: seq<Pos>)
    requires AllCells(cells) && FirstCompleting(m, cells).Some?
    ensures exists k ::
      && 0 <= k < |cells| && cells[k] == FirstCompleting(m, cells).value && Completes(m, cells[k])
      && forall j :: 0 <= j < k ==> !Completes(m, cells[j])
  {
    if !Completes(m, cells[0]) {
      var tail := cells[1..];
      FirstCompletingSome(m, tail);
      var k :| 0 <= k < |tail| && tail[k] == FirstCompleting(m, tail).value && Completes(m, tail[k])
        && forall j :: 0 <= j < k ==> !Completes(m, tail[j]);
      assert cells[k + 1] == tail[k];
      assert forall j :: 1 <= j < k + 1 ==> cells[j] == tail[j - 1];
    } else {
      assert cells[0] == FirstCompleting(m, cells).value;
    }
  }

  /** Over the free cells, `FirstCompleting` finds no cell exactly when no
      free cell completes a line. */
  lemma FirstFreeCompletingNone(m: Mask, x: Mask, o: Mask)
    ensures FirstCompleting(m, FreeCells(x, o)).None? <==>
      forall q :: IsCell(q) && !Occupied(x, o, q) ==> !Completes(m, q)
  {
    var free := FreeCells(x, o);
    FirstCompletingNone(m, free);
    if FirstCompleting(m, free).None? {
      forall q | IsCell(q) && !Occupied(x, o, q)
        ensures !Completes(m, q)
      {
        var j :| 0 <= j < |free| && free[j] == q;
      }
    }
  }

  /** Otherwise, since the free cells are listed in ascending order, it
      finds the smallest free cell that completes a line. */
  lemma FirstFreeCompletingSome(m: Mask, x: Mask, o: Mask)
    requires FirstCompleting(m, FreeCells(x, o)).Some?
    ensures var v := FirstCompleting(m, FreeCells(x, o)).value;
      && IsCell(v) && !Occupied(x, o, v) && Completes(m, v)
      && forall q :: IsCell(q) && !Occupied(x, o, q) && q < v ==> !Completes(m, q)
  {
    var free := FreeCells(x, o);
    FirstCompletingSome(m, free);
    var v := FirstCompleting(m, free).value;
    var k :| 0 <= k < |free| && free[k] == v && Completes(m, free[k])
      && forall j :: 0 <= j < k ==> !Completes(m, free[j]);
    forall q | IsCell(q) && !Occupied(x, o, q) && q < v
      ensures !Completes(m, q)
    {
      var j :| 0 <= j < |free| && free[j] == q;
      assert j < k;
    }
  }

  /** The move of the normal level when it is not random: a cell that wins
      for O, else a cell that stops X from winning. */
  function NormalChoice(x: Mask, o: Mask): Option<Pos>
  {
    var win := FirstCompleting(o, FreeCells(x, o));
    if win.Some? then win else FirstCompleting(x, FreeCells(x, o))
  }

  /** The normal level picks the smallest free cell that wins for O; when
      there is none, the smallest free cell that would win for X; and it
      falls back to a random cell only when neither exists. */
  lemma NormalChoiceWinsOrBlocks(x: Mask, o: Mask)
    ensures NormalChoice(x, o).None? <==>
      forall q :: IsCell(q) && !Occupied(x, o, q) ==> !Completes(o, q) && !Completes(x, q)
    ensures NormalChoice(x, o).Some? ==>
      var v := NormalChoice(x, o).value;
      && IsCell(v) && !Occupied(x, o, v)
      && (|| (Completes(o, v) && forall q :: IsCell(q) && !Occupied(x, o, q) && q < v ==> !Completes(o, q))
          || (&& (forall q :: IsCell(q) && !Occupied(x, o, q) ==> !Completes(o, q))
              && Completes(x, v)
              && forall q :: IsCell(q) && !Occupied(x, o, q) && q < v ==> !Completes(x, q)))
  {
    FirstFreeCompletingNone(o, x, o);
    FirstFreeCompletingNone(x, x, o);
    if FirstCompleting(o, FreeCells(x, o)).Some? {
      FirstFreeCompletingSome(o, x, o);
    } else if FirstCompleting(x, FreeCells(x, o)).Some? {
      FirstFreeCompletingSome(x, x, o);
    }
  }

  /** The cell the normal level picks is one the turn accepts. */
  lemma NormalChoiceIsLegal(s: GameState)
    requires NormalChoice(s.x, s.o).Some?
    ensures Legal(s, NormalChoice(s.x, s.o).value as int)
  {
    NormalChoiceWinsOrBlocks(s.x, s.o);
    var v := NormalChoice(s.x, s.o).value;
    assert (v as int) as Pos == v;
  }

  /** When O is to move and the normal level finds a cell that completes a
      line for O, playing it wins the game for O. */
  lemma NormalWinEndsGame(s: GameState)
    requires !s.xTurn
    requires FirstCompleting(s.o, FreeCells(s.x, s.o)).Some?
    ensures Turn(s, NormalChoice(s.x, s.o).value as int).1 == Won(O)
  {
    FirstFreeCompletingSome(s.o, s.x, s.o);
    var v := NormalChoice(s.x, s.o).value;
    assert (v as int) as Pos == v;
    CompletingMoveWins(s, v);
  }
}
