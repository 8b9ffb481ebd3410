/** A board on which the chain loop of assignment-6/main.cpp goes wrong:
    six squares, a ladder from 2 to 5 and a snake from 5 back to 3, and a
    die showing only 1.  Every play is caught between 3, 4 and the snake on
    5, so square 6 cannot be reached; the loop as written queues the snake's
    head, square 5, where no player ever stands, and the search then rolls
    on from there to 6. */
module SnakeExample {
  import opened SnakeBoard
  import opened SnakeSearch
  import opened Snakes

  /** The jump table of that board: jumps[2] == 5, jumps[5] == 3. */
  const Board: seq<int> := [0, 0, 5, 0, 0, 3, 0]

  /** The ladder (2, 5) and the snake (5, 3) build that table. */
  lemma BoardTable()
    ensures PairsOnBoard(6, [(2, 5)] + [(5, 3)])
    ensures JumpTable(6, [(2, 5)] + [(5, 3)]) == Board
  {
    var pairs: seq<(int, int)> := [(2, 5)] + [(5, 3)];
    var none: seq<(int, int)> := [];
    assert pairs[..1] == [(2, 5)] && pairs[..1][..0] == none;
    assert JumpTable(6, none) == [0, 0, 0, 0, 0, 0, 0];
    assert JumpTable(6, [(2, 5)]) == [0, 0, 5, 0, 0, 0, 0];
  }

  /** The chains of jumps on the board, followed as far as they go. */
  lemma BoardFollow()
    ensures JumpsOk(Board)
    ensures Follow(Board, 2, 7) == [2, 5, 3] && Follow(Board, 5, 7) == [5, 3]
    ensures forall k | 0 <= k < 7 && k != 2 && k != 5 :: Follow(Board, k, 7) == [k]
  {
    assert JumpsOk(Board);
    assert Follow(Board, 3, 5) == [3];
    assert Follow(Board, 3, 6) == [3];
    assert Follow(Board, 5, 6) == [5, 3];
  }

  /** Every chain of jumps on the board ends: 2 leads to 5 and 5 to 3. */
  lemma BoardOk()
    ensures JumpsOk(Board) && Acyclic(Board)
  {
    BoardFollow();
    forall k | 0 <= k < |Board|
      ensures var c := Follow(Board, k, |Board|); Board[c[|c| - 1]] == 0
    {
      if k != 2 && k != 5 {
        assert Follow(Board, k, 7) == [k];
      }
    }
  }

  /** The chains a roll of 1 can land on. */
  lemma BoardChains()
    requires JumpsOk(Board) && Acyclic(Board)
    ensures ChainOf(Board, 2) == [2, 5, 3] && ChainOf(Board, 4) == [4] && ChainOf(Board, 5) == [5, 3]
  {
    assert Follow(Board, 3, 5) == [3];
    assert Follow(Board, 3, 6) == [3];
    assert Follow(Board, 5, 6) == [5, 3];
    assert Follow(Board, 5, 7) == [5, 3];
    assert Follow(Board, 4, 7) == [4];
  }

  /** Squares a play cannot leave: every roll from one of them stops on
      one of them again and passes no square of avoid. */
  ghost predicate Trapped(jumps: seq<int>, nDice: int, trap: set<int>, avoid: int)
    requires JumpsOk(jumps) && Acyclic(jumps)
  {
    forall p, d | p in trap && 1 <= d <= nDice ::
      Move(jumps, p, d) in trap && avoid !in Passed(jumps, p, d)
  }

  /** A play that starts in a trap never passes the square it avoids. */
  lemma {:induction false} NeverLeaves(jumps: seq<int>, nDice: int, trap: set<int>, avoid: int,
                                       p: int, rolls: seq<int>)
    requires JumpsOk(jumps) && Acyclic(jumps) && Trapped(jumps, nDice, trap, avoid)
    requires p in trap && avoid != p && Dice(nDice, rolls)
    ensures avoid !in Trail(jumps, p, rolls)
    decreases |rolls|
  {
    if |rolls| > 0 {
      var e := Move(jumps, p, rolls[0]);
      assert e in trap && avoid !in Passed(jumps, p, rolls[0]);
      var rest := rolls[1..];
      assert Dice(nDice, rest) by {
        forall j | 0 <= j < |rest|
          ensures 1 <= rest[j] <= nDice
        {
          assert rest[j] == rolls[j + 1];
        }
      }
      NeverLeaves(jumps, nDice, trap, avoid, e, rest);
    }
  }

  /** With a die showing only 1, squares 1, 3 and 4 trap a play away from 6. */
  lemma BoardTrap()
    requires JumpsOk(Board) && Acyclic(Board)
    ensures Trapped(Board, 1, {1, 3, 4}, 6)
  {
    BoardChains();
    forall p, d | p in {1, 3, 4} && 1 <= d <= 1
      ensures Move(Board, p, d) in {1, 3, 4} && 6 !in Passed(Board, p, d)
    {
      assert d == 1;
    }
  }

  /** So no play with that die reaches square 6. */
  lemma SixUnreachable()
    ensures JumpsOk(Board) && Acyclic(Board)
    ensures forall rolls | Dice(1, rolls) :: !Visits(Board, 1, rolls, 6)
  {
    BoardOk();
    BoardTrap();
    forall rolls | Dice(1, rolls)
      ensures !Visits(Board, 1, rolls, 6)
    {
      NeverLeaves(Board, 1, {1, 3, 4}, 6, 1, rolls);
    }
  }

  /** No play stands on square 5: a play stands on its first square or on
      a square without a jump. */
  lemma NoPlayStandsOnFive(rolls: seq<int>)
    ensures JumpsOk(Board) && Acyclic(Board)
    ensures Final(Board, 1, rolls) != 5
  {
    BoardOk();
    FinalStands(Board, 1, rolls);
  }

  /** The loop as written, run on the first landing of the search (square 2,
      after one roll from the start), queues square 5, the snake's head. */
  method SnakeHeadQueued() returns (queue': seq<GameState>)
    ensures GameState(1, 5) in queue' && Board[5] != 0
  {
    BoardOk();
    BoardChains();
    var sq := new SquareInfo[7](i =>
      if i == 1 then SquareInfo(Fin(0), 0) else if i == 2 then SquareInfo(Fin(1), 1) else SquareInfo(Inf, 0));
    ghost var s := sq[..];
    assert s == [SquareInfo(Inf, 0), SquareInfo(Fin(0), 0), SquareInfo(Fin(1), 1), SquareInfo(Inf, 0),
                 SquareInfo(Inf, 0), SquareInfo(Inf, 0), SquareInfo(Inf, 0)];
    assert Linked(Board, 1, s, 2);
    assert AllLinked(Board, 1, s);
    assert ClosedChains(Board, s, {2});
    assert Searching(Board, 1, s, [], GameState(0, 1), {2});
    queue' := FollowChainAsWritten(sq, Board, 1, GameState(0, 1), 2, []);
    assert AtMost(sq[ChainOf(Board, 2)[1]].shortest, Fin(1));
    assert sq[5] != s[5];
  }

  /** The corrected search answers that the last square cannot be reached,
      and lists it as unreachable. */
  method CorrectedNoSolution() returns (answer: Answer, unreached: seq<int>)
    ensures answer == NoSolution && 6 in unreached
  {
    BoardTable();
    SixUnreachable();
    var out;
    answer, unreached, out := Solve(1, 6, [(2, 5)], [(5, 3)]);
  }
}
