/** The game object: the static fields `playerX`, `playerO` and `xTurn`
    as the fields of a class, the operations that read and update them,
    the choice of the next move, and one turn of the play loop. */
module Game {
  import opened Board
  import opened Ai

  /** The game mode `setupGame` records. */
  datatype Mode = HumanVsHuman | HumanVsAi

  /** The difficulty of the computer player. */
  datatype Difficulty = Easy | Normal | Hard

  class TicTacToe {
    var playerX: Mask
    var playerO: Mask
    var xTurn: bool
    var gameMode: Mode
    var aiDifficulty: Difficulty

    /** The board and the turn. */
    function State(): GameState
      reads this
    {
      GameState(playerX, playerO, xTurn)
    }

    /** A new game: both masks empty, X to move. */
    constructor (mode: Mode, difficulty: Difficulty)
      ensures State() == Initial
      ensures Valid(State())
      ensures gameMode == mode && aiDifficulty == difficulty
    {
      playerX, playerO, xTurn := 0, 0, true;
      gameMode, aiDifficulty := mode, difficulty;
    }

    /** `placeMove`: the mover's mask gains cell `pos`. */
    method PlaceMove(pos: Pos)
      requires IsCell(pos)
      modifies this`playerX, this`playerO
      ensures State() == Place(old(State()), pos)
    {
      if xTurn {
        playerX := SetBit(playerX, pos);
      } else {
        playerO := SetBit(playerO, pos);
      }
    }

    /** `getFreePositions`: the cells not taken by either player, in
        ascending order. */
    method GetFreePositions() returns (free: seq<Pos>)
      ensures free == FreeCells(playerX, playerO)
    {
      free := [];
      var i: Pos := 0;
      while i < 9
        invariant i <= 9
        invariant free == FreeBelow(playerX, playerO, i)
      {
        if !Occupied(playerX, playerO, i) {
          free := free + [i];
        }
        i := i + 1;
      }
    }

    /** `getRandomMove`: some free cell. The source draws its index with
        `java.util.Random`; here any free cell may come out. */
    method GetRandomMove() returns (move: int)
      requires FreeCells(playerX, playerO) != []
      ensures Legal(State(), move)
    {
      var free := GetFreePositions();
      assert free[0] in free;
      var p :| p in free;
      move := p as int;
      assert move as Pos == p;
    }

    /** `getNormalAIMove`: the first free cell that completes a line for O,
        else the first free cell that completes a line for X, else a random
        free cell. */
    method GetNormalAIMove() returns (move: int)
      requires FreeCells(playerX, playerO) != []
      ensures Legal(State(), move)
      ensures NormalChoice(playerX, playerO).Some? ==> move == NormalChoice(playerX, playerO).value as int
    {
      var free := GetFreePositions();
      var win := FindCompleting(playerO, free);
      if win.Some? {
        move := win.value as int;
        NormalChoiceIsLegal(State());
        return;
      }
      free := GetFreePositions();
      var block := FindCompleting(playerX, free);
      if block.Some? {
        move := block.value as int;
        NormalChoiceIsLegal(State());
        return;
      }
      move := GetRandomMove();
    }

    /** `getBestMove`: tries each free cell for O, scores it with `minimax`
        and clears it again, keeping the first cell of highest score. */
    method GetBestMove() returns (move: int)
      modifies this`playerO
      ensures playerO == old(playerO)
      ensures move == BestMove(playerX, playerO)
    {
      var bestScore := IntMin;
      var bestMove := -1;
      var free := GetFreePositions();
      for i := 0 to |free|
        invariant playerO == old(playerO)
        invariant BestMoveFrom(playerX, playerO, free[i..], bestScore, bestMove) == BestMove(playerX, playerO)
      {
        assert free[i..][1..] == free[i + 1..];
        var pos := free[i];
        ClearUndoesSet(playerO, pos);
        playerO := SetBit(playerO, pos);
        var score := Minimax(playerX, playerO, false);
        playerO := ClearBit(playerO, pos);
        if score > bestScore {
          bestScore := score;
          bestMove := pos as int;
        }
      }
      return bestMove;
    }

    /** Whether the next move is read from the player rather than chosen by
        the computer. */
    predicate HumanToMove()
      reads this
    {
      gameMode == HumanVsHuman || xTurn
    }

    /** The move of one pass of the play loop: the number the player typed,
        or the computer's move at the chosen difficulty. The computer only
        moves while a cell is free, since the loop stops at a full board. */
    method ChooseMove(input: int) returns (move: int)
      requires HumanToMove() || FreeCells(playerX, playerO) != []
      modifies this`playerO
      ensures playerO == old(playerO)
      ensures HumanToMove() ==> move == input
      ensures !HumanToMove() ==> Legal(State(), move)
      ensures !HumanToMove() && aiDifficulty == Normal && NormalChoice(playerX, playerO).Some? ==>
        move == NormalChoice(playerX, playerO).value as int
      ensures !HumanToMove() && aiDifficulty == Hard ==> move == BestMove(playerX, playerO)
    {
      if HumanToMove() {
        move := input;
      } else {
        match aiDifficulty
        case Easy => move := GetRandomMove();
        case Normal => move := GetNormalAIMove();
        case Hard =>
          move := GetBestMove();
          BestMoveIsLegal(State());
      }
    }

    /** One pass of the play loop for a chosen move: reject it, or place it
        and test for a win of the mover, then for a draw, and only then hand
        the turn over. */
    method PlayTurn(move: int) returns (outcome: Outcome)
      modifies this`playerX, this`playerO, this`xTurn
      ensures (State(), outcome) == Turn(old(State()), move)
    {
      if move < 0 || move > 8 || Occupied(playerX, playerO, move as Pos) {
        return Invalid;
      }
      PlaceMove(move as Pos);
      var currentPlayerBoard := if xTurn then playerX else playerO;
      var won := CheckWin(currentPlayerBoard);
      if won {
        return Won(Mover(xTurn));
      }
      if IsFull(playerX, playerO) {
        return Draw;
      }
      xTurn := !xTurn;
      return Continue;
    }
  }

  /** One loop of `getNormalAIMove`: the first cell of `free` that
      completes a line for `m`, each tried with `isWin`. */
  method FindCompleting(m: Mask, free: seq<Pos>) returns (r: Option<Pos>)
    requires AllCells(free)
    ensures r == FirstCompleting(m, free)
  {
    for i := 0 to |free|
      invariant FirstCompleting(m, free[i..]) == FirstCompleting(m, free)
    {
      assert free[i..][1..] == free[i + 1..];
      var pos := free[i];
      var test := SetBit(m, pos);
      var won := CheckWin(test);
      if won {
        return Some(pos);
      }
    }
    return None;
  }

  /** On a board with a free cell `getBestMove` yields a move the turn
      accepts. */
  lemma BestMoveIsLegal(s: GameState)
    requires FreeCells(s.x, s.o) != []
    ensures Legal(s, BestMove(s.x, s.o))
  {
    BestMoveIsFirstMaximum(s.x, s.o);
    var free := FreeCells(s.x, s.o);
    var k :| IsFirstMaximum(s.x, s.o, free, k) && BestMove(s.x, s.o) == free[k] as int;
    assert (free[k] as int) as Pos == free[k];
  }
}
