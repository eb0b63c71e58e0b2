/** Board state of the tic-tac-toe game: two occupancy masks, the eight
    winning patterns, occupancy and fullness tests, and one turn of play.

    A mask holds the low nine bits of a Java `int`; bit `i` stands for
    cell `i`, which sits in row `i / 3` and column `i % 3` of the printed
    board. The bits above them are never set, since every index that is
    ever placed lies in 0..8. A cell index is kept as a `bv8` so that
    `1 << pos` stays a bit-vector operation. */
module Board {

  type Mask = bv9
  type Pos = bv8

  /** All nine cells: 0b111111111. */
  const Full: Mask := 0x1FF

  /** Rows, then columns, then diagonals, as the source lists them. */
  const WinPatterns: seq<Mask> := [
    0x1C0, 0x038, 0x007,   // 0b111000000, 0b000111000, 0b000000111
    0x124, 0x092, 0x049,   // 0b100100100, 0b010010010, 0b001001001
    0x111, 0x054           // 0b100010001, 0b001010100
  ]

  predicate IsCell(pos: Pos) { pos < 9 }

  /** `1 << pos` */
  function Bit(pos: Pos): Mask
    requires IsCell(pos)
  {
    1 << pos
  }

  /** Bit `pos` is set in `m`. */
  predicate Has(m: Mask, pos: Pos)
    requires IsCell(pos)
  {
    m & Bit(pos) != 0
  }

  /** `m | (1 << pos)`: the mask with cell `pos` added. */
  function SetBit(m: Mask, pos: Pos): Mask
    requires IsCell(pos)
  {
    m | Bit(pos)
  }

  /** `m & ~(1 << pos)`: the mask with cell `pos` removed. */
  function ClearBit(m: Mask, pos: Pos): Mask
    requires IsCell(pos)
  {
    m & !Bit(pos)
  }

  lemma BitHas(p: Pos, q: Pos)
    requires IsCell(p) && IsCell(q)
    ensures Has(Bit(p), q) <==> p == q
  {
  }

  lemma OrHas(a: Mask, b: Mask, p: Pos)
    requires IsCell(p)
    ensures Has(a | b, p) <==> Has(a, p) || Has(b, p)
  {
  }

  /** Clearing a cell just set restores the mask, as the undo step after
      each trial move of the computer player does. */
  lemma ClearUndoesSet(m: Mask, pos: Pos)
    requires IsCell(pos) && !Has(m, pos)
    ensures ClearBit(SetBit(m, pos), pos) == m
  {
  }

  // The facts about setting one bit, and below about the free cells after a
  // move, are stated in several small steps (one cell, then all cells; one
  // player, then either; a board, then a state, then a turn) because each
  // step proved on its own keeps the solver's work small, where one lemma
  // stating the whole fact at once does not.

  /** Setting bit `pos` sets cell `pos` and no other cell. */
  lemma AddHas(m: Mask, pos: Pos, p: Pos)
    requires IsCell(pos) && IsCell(p)
    ensures Has(SetBit(m, pos), p) <==> Has(m, p) || p == pos
  {
    OrHas(m, Bit(pos), p);
    BitHas(pos, p);
  }

  /** Setting bit `pos` sets that cell and no other. */
  lemma AddBit(m: Mask, pos: Pos)
    requires IsCell(pos)
    ensures forall p :: IsCell(p) ==> (Has(SetBit(m, pos), p) <==> Has(m, p) || p == pos)
  {
    forall p | IsCell(p) ensures Has(SetBit(m, pos), p) <==> Has(m, p) || p == pos {
      AddHas(m, pos, p);
    }
  }

  /** Giving cell `pos` to the owner of `m` occupies that cell and no other. */
  lemma AddOccupies(m: Mask, n: Mask, pos: Pos, p: Pos)
    requires IsCell(pos) && IsCell(p)
    ensures Occupied(SetBit(m, pos), n, p) <==> Occupied(m, n, p) || p == pos
    ensures Occupied(n, SetBit(m, pos), p) <==> Occupied(n, m, p) || p == pos
  {
    OrHas(m, Bit(pos), p);
    BitHas(pos, p);
  }

  /** The full mask is the one that has every cell. */
  lemma FullIffAllCells(m: Mask)
    ensures m == Full <==> forall p :: IsCell(p) ==> Has(m, p)
  {
    if forall p :: IsCell(p) ==> Has(m, p) {
      assert Has(m, 0) && Has(m, 1) && Has(m, 2) && Has(m, 3) && Has(m, 4);
      assert Has(m, 5) && Has(m, 6) && Has(m, 7) && Has(m, 8);
    }
  }

  // ---------------------------------------------------------------- winning

  predicate Covers(board: Mask, pattern: Mask) { board & pattern == pattern }

  /** The for-each scan of the patterns from index `k` on, returning at the
      first one the board covers. */
  function WinsFrom(board: Mask, k: nat): (r: bool)
    requires k <= |WinPatterns|
    ensures r <==> exists i :: k <= i < |WinPatterns| && Covers(board, WinPatterns[i])
    decreases |WinPatterns| - k
  {
    k < |WinPatterns| && (Covers(board, WinPatterns[k]) || WinsFrom(board, k + 1))
  }

  /** `isWin`: some winning pattern is contained in the mask. */
  function IsWin(board: Mask): (r: bool)
    ensures r <==> exists i :: 0 <= i < |WinPatterns| && Covers(board, WinPatterns[i])
  {
    WinsFrom(board, 0)
  }

  /** Cell at row `r`, column `c`. */
  function Cell(r: Pos, c: Pos): Pos
    requires r < 3 && c < 3
  {
    3 * r + c
  }

  type Line = (Pos, Pos, Pos)

  /** The eight lines of the grid, each as its three cells in ascending
      order, in the order of WinPatterns: the rows from the bottom, the
      columns from the right, the main diagonal, the anti-diagonal. */
  const Lines: seq<Line> := [
    (Cell(2, 0), Cell(2, 1), Cell(2, 2)),
    (Cell(1, 0), Cell(1, 1), Cell(1, 2)),
    (Cell(0, 0), Cell(0, 1), Cell(0, 2)),
    (Cell(0, 2), Cell(1, 2), Cell(2, 2)),
    (Cell(0, 1), Cell(1, 1), Cell(2, 1)),
    (Cell(0, 0), Cell(1, 0), Cell(2, 0)),
    (Cell(0, 0), Cell(1, 1), Cell(2, 2)),
    (Cell(0, 2), Cell(1, 1), Cell(2, 0))
  ]

  /** Three distinct cells, all on the board. */
  predicate IsTriple(t: Line) { t.0 < t.1 < t.2 < 9 }

  function LineMask(t: Line): Mask
    requires IsTriple(t)
  {
    Bit(t.0) | Bit(t.1) | Bit(t.2)
  }

  /** Each winning pattern is exactly the three cells of one line of the
      grid: three distinct bits. */
  lemma WinPatternsAreLines()
    ensures |Lines| == |WinPatterns|
    ensures forall i :: 0 <= i < |WinPatterns| ==>
      IsTriple(Lines[i]) && WinPatterns[i] == LineMask(Lines[i])
  {
  }

  predicate OwnsLine(board: Mask, t: Line)
    requires IsTriple(t)
  {
    Has(board, t.0) && Has(board, t.1) && Has(board, t.2)
  }

  lemma CoversThree(board: Mask, a: Mask, b: Mask, c: Mask)
    ensures board & (a | b | c) == a | b | c <==> board & a == a && board & b == b && board & c == c
  {
  }

  lemma CoversBit(board: Mask, p: Pos)
    requires IsCell(p)
    ensures board & Bit(p) == Bit(p) <==> Has(board, p)
  {
  }

  /** Containing a line's mask is owning its three cells. */
  lemma CoversLine(board: Mask, t: Line)
    requires IsTriple(t)
    ensures Covers(board, LineMask(t)) <==> OwnsLine(board, t)
  {
    CoversThree(board, Bit(t.0), Bit(t.1), Bit(t.2));
    CoversBit(board, t.0);
    CoversBit(board, t.1);
    CoversBit(board, t.2);
  }

  /** A mask wins exactly when it owns all three cells of some line. */
  lemma IsWinIffOwnsLine(board: Mask)
    ensures IsWin(board) <==>
      exists i :: 0 <= i < |Lines| && IsTriple(Lines[i]) && OwnsLine(board, Lines[i])
  {
    WinPatternsAreLines();
    forall i | 0 <= i < |Lines|
      ensures IsTriple(Lines[i]) && (Covers(board, WinPatterns[i]) <==> OwnsLine(board, Lines[i]))
    {
      CoversLine(board, Lines[i]);
    }
  }

  /** Adding cells to a mask never takes a win away. */
  lemma IsWinMonotone(board: Mask, more: Mask)
    requires IsWin(board)
    ensures IsWin(board | more)
  {
    var i :| 0 <= i < |WinPatterns| && Covers(board, WinPatterns[i]);
    assert Covers(board | more, WinPatterns[i]);
  }

  // -------------------------------------------------------------- occupancy

  /** `isOccupied`: is the cell taken by either player? */
  predicate Occupied(x: Mask, o: Mask, pos: Pos)
    requires IsCell(pos)
    ensures Occupied(x, o, pos) <==> Has(x, pos) || Has(o, pos)
  {
    Has(x | o, pos)
  }

  /** `isDraw`: the union of the masks is all nine cells, that is, every
      cell is taken. */
  predicate IsFull(x: Mask, o: Mask)
    ensures IsFull(x, o) <==> forall p :: IsCell(p) ==> Occupied(x, o, p)
  {
    FullIffAllCells(x | o);
    x | o == Full
  }

  /** The free cells as a set. */
  ghost function FreeSet(x: Mask, o: Mask): (r: set<Pos>)
    ensures forall p :: p in r <==> IsCell(p) && !Occupied(x, o, p)
  {
    set p | p in FreeCells(x, o)
  }

  /** Giving cell `pos` to the owner of `m` frees no cell and takes just
      `pos`. */
  lemma AddFree(m: Mask, n: Mask, pos: Pos, p: Pos)
    requires IsCell(pos)
    ensures p in FreeSet(SetBit(m, pos), n) <==> p in FreeSet(m, n) && p != pos
    ensures p in FreeSet(n, SetBit(m, pos)) <==> p in FreeSet(n, m) && p != pos
  {
    if IsCell(p) {
      AddOccupies(m, n, pos, p);
    }
  }

  lemma PlacingXRemovesFreeCell(x: Mask, o: Mask, pos: Pos)
    requires IsCell(pos)
    ensures FreeSet(SetBit(x, pos), o) == FreeSet(x, o) - {pos}
  {
    forall p ensures p in FreeSet(SetBit(x, pos), o) <==> p in FreeSet(x, o) - {pos} {
      AddFree(x, o, pos, p);
    }
  }

  lemma PlacingORemovesFreeCell(x: Mask, o: Mask, pos: Pos)
    requires IsCell(pos)
    ensures FreeSet(x, SetBit(o, pos)) == FreeSet(x, o) - {pos}
  {
    forall p ensures p in FreeSet(x, SetBit(o, pos)) <==> p in FreeSet(x, o) - {pos} {
      AddFree(o, x, pos, p);
    }
  }

  /** Giving a free cell to either player removes just that cell from the
      free cells, so the free cells shrink strictly. */
  lemma PlacingRemovesFreeCell(x: Mask, o: Mask, pos: Pos)
    requires IsCell(pos) && !Occupied(x, o, pos)
    ensures FreeSet(SetBit(x, pos), o) == FreeSet(x, o) - {pos}
    ensures FreeSet(x, SetBit(o, pos)) == FreeSet(x, o) - {pos}
    ensures FreeSet(SetBit(x, pos), o) < FreeSet(x, o)
    ensures FreeSet(x, SetBit(o, pos)) < FreeSet(x, o)
  {
    PlacingXRemovesFreeCell(x, o, pos);
    PlacingORemovesFreeCell(x, o, pos);
    assert pos in FreeSet(x, o);
  }

  /** The list the loop of `getFreePositions` has built once it has looked
      at the cells below `i`. */
  function FreeBelow(x: Mask, o: Mask, i: Pos): seq<Pos>
    requires i <= 9
  {
    if i == 0 then []
    else FreeBelow(x, o, i - 1) + (if Occupied(x, o, i - 1) then [] else [i - 1])
  }

  /** The cells `FreeBelow` lists are free and below `i`, every free cell
      below `i` is listed, and the list is strictly ascending. */
  lemma {:induction false} FreeBelowSpec(x: Mask, o: Mask, i: Pos)
    requires i <= 9
    ensures var r := FreeBelow(x, o, i);
      && (forall k :: 0 <= k < |r| ==> r[k] < i && !Occupied(x, o, r[k]))
      && (forall p :: p < i && !Occupied(x, o, p) ==> p in r)
      && (forall k, l :: 0 <= k < l < |r| ==> r[k] < r[l])
  {
    if i > 0 {
      FreeBelowSpec(x, o, i - 1);
    }
  }

  /** The list `getFreePositions` builds: exactly the free cells, strictly
      ascending (so without duplicates). */
  function FreeCells(x: Mask, o: Mask): (r: seq<Pos>)
    ensures forall k :: 0 <= k < |r| ==> IsCell(r[k]) && !Occupied(x, o, r[k])
    ensures forall p :: IsCell(p) && !Occupied(x, o, p) ==> p in r
    ensures forall k, l :: 0 <= k < l < |r| ==> r[k] < r[l]
  {
    FreeBelowSpec(x, o, 9);
    FreeBelow(x, o, 9)
  }

  /** The board is full exactly when no cell is free. */
  lemma FullIffNoFreeCells(x: Mask, o: Mask)
    ensures IsFull(x, o) <==> FreeCells(x, o) == []
  {
    if FreeCells(x, o) != [] {
      assert !Occupied(x, o, FreeCells(x, o)[0]);
    }
  }

  // ------------------------------------------------------------- game state

  datatype Player = X | O

  /** `playerX`, `playerO` and `xTurn` together. */
  datatype GameState = GameState(x: Mask, o: Mask, xTurn: bool)

  /** What one pass of the play loop ends in. */
  datatype Outcome = Invalid | Won(winner: Player) | Draw | Continue

  /** The state `setupGame` starts every game in. */
  const Initial := GameState(0, 0, true)

  function Mover(xTurn: bool): Player { if xTurn then X else O }

  /** The mask of the player whose turn it is. */
  function MoverMask(s: GameState): Mask { if s.xTurn then s.x else s.o }

  /** No cell is owned by both players. */
  predicate Valid(s: GameState)
  {
    s.x & s.o == 0
  }

  /** `placeMove`: the mover's mask gains bit `pos`. */
  function Place(s: GameState, pos: Pos): (t: GameState)
    requires IsCell(pos)
    ensures t.xTurn == s.xTurn
    ensures if s.xTurn then t.o == s.o else t.x == s.x
  {
    if s.xTurn then GameState(SetBit(s.x, pos), s.o, s.xTurn)
    else GameState(s.x, SetBit(s.o, pos), s.xTurn)
  }

  lemma PlaceMoverMask(s: GameState, pos: Pos)
    requires IsCell(pos)
    ensures MoverMask(Place(s, pos)) == SetBit(MoverMask(s), pos)
  {
  }

  lemma PlaceOccupies(s: GameState, pos: Pos)
    requires IsCell(pos)
    ensures Occupied(Place(s, pos).x, Place(s, pos).o, pos)
  {
    if s.xTurn {
      AddOccupies(s.x, s.o, pos, pos);
    } else {
      AddOccupies(s.o, s.x, pos, pos);
    }
  }

  /** Placing sets only cell `pos`, in the mover's mask alone, leaves the
      turn as it was, and afterwards the cell is occupied. */
  lemma PlaceSetsOnlyPos(s: GameState, pos: Pos)
    requires IsCell(pos)
    ensures Place(s, pos).xTurn == s.xTurn
    ensures if s.xTurn then Place(s, pos).o == s.o else Place(s, pos).x == s.x
    ensures forall p :: IsCell(p) ==>
      (Has(MoverMask(Place(s, pos)), p) <==> Has(MoverMask(s), p) || p == pos)
    ensures Occupied(Place(s, pos).x, Place(s, pos).o, pos)
  {
    AddBit(MoverMask(s), pos);
    PlaceMoverMask(s, pos);
    PlaceOccupies(s, pos);
  }

  /** The validation of a candidate move: in 0..8 and on a free cell. */
  predicate Legal(s: GameState, move: int)
  {
    !(move < 0 || move > 8 || Occupied(s.x, s.o, move as Pos))
  }

  /** One pass of the play loop for a candidate move: reject it, or place it
      and then test for a win of the mover, then for a full board, and only
      otherwise hand the turn to the other player. */
  function Turn(s: GameState, move: int): (GameState, Outcome)
  {
    if !Legal(s, move) then (s, Invalid)
    else
      var t := Place(s, move as Pos);
      if IsWin(MoverMask(t)) then (t, Won(Mover(s.xTurn)))
      else if IsFull(t.x, t.o) then (t, Draw)
      else (t.(xTurn := !t.xTurn), Continue)
  }

  /** A move outside 0..8 or on a taken cell is refused and changes nothing;
      every other move is accepted. */
  lemma TurnRejectsIllegal(s: GameState, move: int)
    ensures Turn(s, move).1 == Invalid <==>
      move < 0 || move > 8 || Occupied(s.x, s.o, move as Pos)
    ensures Turn(s, move).1 == Invalid ==> Turn(s, move).0 == s
  {
  }

  /** The board invariant holds in every state a turn can reach. */
  lemma TurnKeepsValid(s: GameState, move: int)
    requires Valid(s)
    ensures Valid(Turn(s, move).0)
  {
  }

  /** An accepted move gives its cell to the mover alone; the game is won
      exactly when the mover's new mask wins, drawn exactly when it does not
      win and the board is full, and the turn passes to the other player
      only when the game goes on. */
  lemma TurnOutcome(s: GameState, move: int)
    requires Legal(s, move)
    ensures var (t, out) := Turn(s, move);
      var pos := move as Pos;
      && (s.xTurn ==> t.x == SetBit(s.x, pos) && t.o == s.o)
      && (!s.xTurn ==> t.o == SetBit(s.o, pos) && t.x == s.x)
      && (out.Won? <==> IsWin(MoverMask(Place(s, pos))))
      && (out.Won? ==> out.winner == Mover(s.xTurn))
      && (out == Draw <==> !IsWin(MoverMask(Place(s, pos))) && IsFull(t.x, t.o))
      && out != Invalid
      && (t.xTurn == (if out == Continue then !s.xTurn else s.xTurn))
  {
  }

  /** Each accepted move takes exactly one free cell, so a game has at most
      nine accepted moves. */
  lemma TurnTakesOneCell(s: GameState, move: int)
    requires Legal(s, move)
    ensures FreeSet(Turn(s, move).0.x, Turn(s, move).0.o) == FreeSet(s.x, s.o) - {move as Pos}
  {
    TurnPlaces(s, move);
    PlaceTakesOneCell(s, move as Pos);
  }

  lemma PlaceTakesOneCell(s: GameState, pos: Pos)
    requires IsCell(pos) && !Occupied(s.x, s.o, pos)
    ensures FreeSet(Place(s, pos).x, Place(s, pos).o) == FreeSet(s.x, s.o) - {pos}
  {
    PlaceBoard(s, pos);
    RemovesFree(s.x, s.o, Place(s, pos).x, Place(s, pos).o, pos);
  }

  lemma PlaceBoard(s: GameState, pos: Pos)
    requires IsCell(pos)
    ensures (Place(s, pos).x == SetBit(s.x, pos) && Place(s, pos).o == s.o)
      || (Place(s, pos).x == s.x && Place(s, pos).o == SetBit(s.o, pos))
  {
  }

  lemma RemovesFree(x: Mask, o: Mask, x': Mask, o': Mask, pos: Pos)
    requires IsCell(pos) && !Occupied(x, o, pos)
    requires (x' == SetBit(x, pos) && o' == o) || (x' == x && o' == SetBit(o, pos))
    ensures FreeSet(x', o') == FreeSet(x, o) - {pos}
  {
    PlacingRemovesFreeCell(x, o, pos);
  }

  /** An accepted move leaves the board of `Place`. */
  lemma TurnPlaces(s: GameState, move: int)
    requires Legal(s, move)
    ensures Turn(s, move).0.x == Place(s, move as Pos).x
    ensures Turn(s, move).0.o == Place(s, move as Pos).o
  {
  }

  /** A free cell that completes a line for the mover wins the game for the
      mover. */
  lemma CompletingMoveWins(s: GameState, p: Pos)
    requires IsCell(p) && !Occupied(s.x, s.o, p) && IsWin(SetBit(MoverMask(s), p))
    ensures Turn(s, p as int).1 == Won(Mover(s.xTurn))
  {
    assert (p as int) as Pos == p;
    PlaceMoverMask(s, p);
  }

  /** After a turn that lets the game go on, some cell is still free, so the
      next player always has a move. */
  lemma ContinueLeavesFreeCell(s: GameState, move: int)
    requires Turn(s, move).1 == Continue
    ensures FreeCells(Turn(s, move).0.x, Turn(s, move).0.o) != []
  {
    TurnPlaces(s, move);
    FullIffNoFreeCells(Turn(s, move).0.x, Turn(s, move).0.o);
  }

  /** `isWin` as the source writes it: a scan of the patterns that returns
      at the first one the mask covers. */
  method CheckWin(board: Mask) returns (r: bool)
    ensures r == IsWin(board)
  {
    for k := 0 to |WinPatterns|
      invariant forall i :: 0 <= i < k ==> !Covers(board, WinPatterns[i])
    {
      if board & WinPatterns[k] == WinPatterns[k] {
        return true;
      }
    }
    return false;
  }
}
