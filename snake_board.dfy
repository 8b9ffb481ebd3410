/** The board of the snakes-and-ladders program of assignment 6
    (assignment-6/main.cpp): the jump table built from the ladders and
    snakes, the chains of jumps a landing follows, and plays of the real
    game, against which the search is measured.  Squares are 1..nBoard;
    jumps[k] is the square a ladder or snake on k leads to, 0 for none. */
module SnakeBoard {

  // ---------------------------------------------------------------------
  // The jump table

  /** Every ladder or snake (from, to) indexes the table. */
  predicate PairsOnBoard(nBoard: nat, pairs: seq<(int, int)>)
  {
    forall j | 0 <= j < |pairs| :: 0 <= pairs[j].0 <= nBoard && 0 <= pairs[j].1 <= nBoard
  }

  /** The table after jumps[from] = to has been written for each pair in
      order, starting from all zeros. */
  function JumpTable(nBoard: nat, pairs: seq<(int, int)>): (t: seq<int>)
    requires PairsOnBoard(nBoard, pairs)
    ensures |t| == nBoard + 1
    ensures forall k | 0 <= k < |t| :: 0 <= t[k] <= nBoard
  {
    if |pairs| == 0 then seq(nBoard + 1, _ => 0)
    else
      var last := pairs[|pairs| - 1];
      JumpTable(nBoard, pairs[..|pairs| - 1])[last.0 := last.1]
  }

  /** A square no pair starts from has no jump. */
  lemma {:induction false} NoPairNoJump(nBoard: nat, pairs: seq<(int, int)>, k: int)
    requires PairsOnBoard(nBoard, pairs) && 0 <= k <= nBoard
    requires forall j | 0 <= j < |pairs| :: pairs[j].0 != k
    ensures JumpTable(nBoard, pairs)[k] == 0
    decreases |pairs|
  {
    if |pairs| > 0 {
      var front := pairs[..|pairs| - 1];
      assert forall j | 0 <= j < |front| :: front[j] == pairs[j];
      NoPairNoJump(nBoard, front, k);
      assert pairs[|pairs| - 1].0 != k;
    }
  }

  /** Otherwise the last pair starting from the square decides where it
      leads. */
  lemma {:induction false} LastPairWins(nBoard: nat, pairs: seq<(int, int)>, k: int, j: int)
    requires PairsOnBoard(nBoard, pairs) && 0 <= k <= nBoard
    requires 0 <= j < |pairs| && pairs[j].0 == k && forall j' | j < j' < |pairs| :: pairs[j'].0 != k
    ensures JumpTable(nBoard, pairs)[k] == pairs[j].1
    decreases |pairs|
  {
    var front := pairs[..|pairs| - 1];
    if j < |pairs| - 1 {
      assert forall i | 0 <= i < |front| :: front[i] == pairs[i];
      LastPairWins(nBoard, front, k, j);
      assert pairs[|pairs| - 1].0 != k;
    }
  }

  /** Writing pair i onto the table of the pairs before it gives the table
      of the pairs up to i. */
  lemma TableStep(nBoard: nat, pairs: seq<(int, int)>, i: int)
    requires PairsOnBoard(nBoard, pairs) && 0 <= i < |pairs|
    ensures PairsOnBoard(nBoard, pairs[..i]) && PairsOnBoard(nBoard, pairs[..i + 1])
    ensures JumpTable(nBoard, pairs[..i + 1]) == JumpTable(nBoard, pairs[..i])[pairs[i].0 := pairs[i].1]
  {
    assert pairs[..i + 1][..i] == pairs[..i];
  }

  /** The loops reading the ladders and then the snakes: each writes
      jumps[from] = to. */
  method BuildJumps(nBoard: nat, ladders: seq<(int, int)>, snakes: seq<(int, int)>) returns (jumps: array<int>)
    requires PairsOnBoard(nBoard, ladders + snakes)
    ensures jumps[..] == JumpTable(nBoard, ladders + snakes)
  {
    ghost var all := ladders + snakes;
    jumps := new int[nBoard + 1](_ => 0);
    assert all[..0] == [];
    for i := 0 to |ladders|
      invariant jumps.Length == nBoard + 1 && PairsOnBoard(nBoard, all[..i])
      invariant jumps[..] == JumpTable(nBoard, all[..i])
    {
      TableStep(nBoard, all, i);
      assert all[i] == ladders[i];
      jumps[ladders[i].0] := ladders[i].1;
    }
    for i := 0 to |snakes|
      invariant jumps.Length == nBoard + 1 && PairsOnBoard(nBoard, all[..|ladders| + i])
      invariant jumps[..] == JumpTable(nBoard, all[..|ladders| + i])
    {
      TableStep(nBoard, all, |ladders| + i);
      assert all[|ladders| + i] == snakes[i];
      jumps[snakes[i].0] := snakes[i].1;
    }
    assert all[..|all|] == all;
  }

  // ---------------------------------------------------------------------
  // Chains of jumps

  /** Every entry names a square of the board, 0 meaning no jump. */
  ghost predicate JumpsOk(jumps: seq<int>)
  {
    forall k | 0 <= k < |jumps| :: 0 <= jumps[k] < |jumps|
  }

  /** Slot i + 1 of the chain c is where the square in slot i jumps to. */
  ghost predicate JumpsAt(jumps: seq<int>, c: seq<int>, i: int)
    requires forall j | 0 <= j < |c| :: 0 <= c[j] < |jumps|
  {
    0 <= i < |c| - 1 ==> c[i + 1] != 0 && jumps[c[i]] == c[i + 1]
  }

  /** The squares visited from k by following jumps, at most fuel of them. */
  function Follow(jumps: seq<int>, k: int, fuel: nat): (c: seq<int>)
    requires JumpsOk(jumps) && 0 <= k < |jumps|
    ensures 1 <= |c| <= fuel + 1 && c[0] == k
    ensures forall j | 0 <= j < |c| :: 0 <= c[j] < |jumps|
    ensures forall i | 0 <= i < |c| - 1 :: JumpsAt(jumps, c, i)
    decreases fuel
  {
    if fuel == 0 || jumps[k] == 0 then [k]
    else
      var rest := Follow(jumps, jumps[k], fuel - 1);
      var c := [k] + rest;
      assert forall i | 0 <= i < |c| - 1 :: JumpsAt(jumps, c, i) by {
        forall i | 0 <= i < |c| - 1
          ensures JumpsAt(jumps, c, i)
        {
          if i > 0 {
            assert JumpsAt(jumps, rest, i - 1);
          }
        }
      }
      c
  }

  /** No chain of jumps loops: from every square it reaches a square without
      a jump within as many jumps as there are squares. */
  ghost predicate Acyclic(jumps: seq<int>)
    requires JumpsOk(jumps)
  {
    forall k | 0 <= k < |jumps| :: var c := Follow(jumps, k, |jumps|); jumps[c[|c| - 1]] == 0
  }

  /** The whole chain from k: k, jumps[k], jumps[jumps[k]], ... down to the
      first square without a jump. */
  function ChainOf(jumps: seq<int>, k: int): (c: seq<int>)
    requires JumpsOk(jumps) && Acyclic(jumps) && 0 <= k < |jumps|
    ensures 1 <= |c| <= |jumps| + 1 && c[0] == k
    ensures forall j | 0 <= j < |c| :: 0 <= c[j] < |jumps|
    ensures forall i | 0 <= i < |c| - 1 :: JumpsAt(jumps, c, i)
    ensures jumps[c[|c| - 1]] == 0
  {
    Follow(jumps, k, |jumps|)
  }

  lemma {:induction false} FollowSettles(jumps: seq<int>, k: int, fuel: nat)
    requires JumpsOk(jumps) && 0 <= k < |jumps|
    requires var c := Follow(jumps, k, fuel); jumps[c[|c| - 1]] == 0
    ensures Follow(jumps, k, fuel + 1) == Follow(jumps, k, fuel)
    decreases fuel
  {
    if fuel > 0 && jumps[k] != 0 {
      FollowSettles(jumps, jumps[k], fuel - 1);
    }
  }

  /** A square with a jump heads the chain of the square it leads to. */
  lemma ChainStep(jumps: seq<int>, k: int)
    requires JumpsOk(jumps) && Acyclic(jumps) && 0 <= k < |jumps| && jumps[k] != 0
    ensures ChainOf(jumps, k) == [k] + ChainOf(jumps, jumps[k])
  {
    var n := |jumps|;
    var rest := Follow(jumps, jumps[k], n - 1);
    assert Follow(jumps, k, n) == [k] + rest;
    FollowSettles(jumps, jumps[k], n - 1);
  }

  /** The chain from any square of a chain is that chain's remainder. */
  lemma {:induction false} ChainSuffix(jumps: seq<int>, q: int, j: nat)
    requires JumpsOk(jumps) && Acyclic(jumps) && 0 <= q < |jumps|
    requires j < |ChainOf(jumps, q)|
    ensures ChainOf(jumps, ChainOf(jumps, q)[j]) == ChainOf(jumps, q)[j..]
  {
    var c := ChainOf(jumps, q);
    if j > 0 {
      ChainSuffix(jumps, q, j - 1);
      var a := c[j - 1];
      assert JumpsAt(jumps, c, j - 1);
      ChainStep(jumps, a);
      calc {
        ChainOf(jumps, c[j]);
        ([a] + ChainOf(jumps, jumps[a]))[1..];
        ChainOf(jumps, a)[1..];
        c[j - 1..][1..];
        c[j..];
      }
    }
  }

  /** No square jumps to itself. */
  lemma NoSelfJump(jumps: seq<int>, k: int)
    requires JumpsOk(jumps) && Acyclic(jumps) && 0 <= k < |jumps|
    ensures jumps[k] != 0 ==> jumps[k] != k
  {
    if jumps[k] == k && k != 0 {
      ChainStep(jumps, k);
      assert false;
    }
  }

  // ---------------------------------------------------------------------
  // Plays of the game

  /** Every die shows 1..nDice. */
  ghost predicate Dice(nDice: int, rolls: seq<int>)
  {
    forall j | 0 <= j < |rolls| :: 1 <= rolls[j] <= nDice
  }

  /** The squares passed when a roll of d from p lands on the board: the
      square landed on and the whole chain of jumps from it.  A roll past
      the last square moves nothing. */
  ghost function Passed(jumps: seq<int>, p: int, d: int): (c: seq<int>)
    requires JumpsOk(jumps) && Acyclic(jumps)
  {
    if 0 <= p + d < |jumps| then ChainOf(jumps, p + d) else []
  }

  /** Where the player stands after that roll: the end of the chain, or p
      again after a roll past the last square. */
  ghost function Move(jumps: seq<int>, p: int, d: int): (e: int)
    requires JumpsOk(jumps) && Acyclic(jumps)
  {
    if 0 <= p + d < |jumps| then var c := ChainOf(jumps, p + d); c[|c| - 1] else p
  }

  /** Every square a play of the given rolls from p passes through. */
  ghost function Trail(jumps: seq<int>, p: int, rolls: seq<int>): seq<int>
    requires JumpsOk(jumps) && Acyclic(jumps)
    decreases |rolls|
  {
    [p] + if |rolls| == 0 then [] else
      Passed(jumps, p, rolls[0]) + Trail(jumps, Move(jumps, p, rolls[0]), rolls[1..])
  }

  /** Where a play of the given rolls from p ends. */
  ghost function Final(jumps: seq<int>, p: int, rolls: seq<int>): int
    requires JumpsOk(jumps) && Acyclic(jumps)
    decreases |rolls|
  {
    if |rolls| == 0 then p else Final(jumps, Move(jumps, p, rolls[0]), rolls[1..])
  }

  /** One more roll at the end of a play moves on from where it ended. */
  lemma {:induction false} FinalSnoc(jumps: seq<int>, p: int, rolls: seq<int>, d: int)
    requires JumpsOk(jumps) && Acyclic(jumps)
    ensures Final(jumps, p, rolls + [d]) == Move(jumps, Final(jumps, p, rolls), d)
    decreases |rolls|
  {
    if |rolls| == 0 {
      assert rolls + [d] == [d] && [d][1..] == [];
    } else {
      FinalSnoc(jumps, Move(jumps, p, rolls[0]), rolls[1..], d);
      assert (rolls + [d])[0] == rolls[0] && (rolls + [d])[1..] == rolls[1..] + [d];
    }
  }

  /** ... and passes the squares that roll passes from there. */
  lemma {:induction false} TrailSnoc(jumps: seq<int>, p: int, rolls: seq<int>, d: int, c: int)
    requires JumpsOk(jumps) && Acyclic(jumps)
    requires c in Passed(jumps, Final(jumps, p, rolls), d)
    ensures Visits(jumps, p, rolls + [d], c)
    decreases |rolls|
  {
    if |rolls| == 0 {
      assert rolls + [d] == [d];
    } else {
      var e := Move(jumps, p, rolls[0]);
      TrailSnoc(jumps, e, rolls[1..], d, c);
      assert (rolls + [d])[0] == rolls[0] && (rolls + [d])[1..] == rolls[1..] + [d];
    }
  }

  /** A play stands only on its first square or on squares without a
      jump. */
  lemma {:induction false} FinalStands(jumps: seq<int>, p: int, rolls: seq<int>)
    requires JumpsOk(jumps) && Acyclic(jumps) && 0 <= p < |jumps|
    ensures 0 <= Final(jumps, p, rolls) < |jumps|
    ensures Final(jumps, p, rolls) == p || jumps[Final(jumps, p, rolls)] == 0
    decreases |rolls|
  {
    if |rolls| > 0 {
      var e := Move(jumps, p, rolls[0]);
      FinalStands(jumps, e, rolls[1..]);
    }
  }

  /** A play of the given rolls from square p passes through c. */
  ghost predicate Visits(jumps: seq<int>, p: int, rolls: seq<int>, c: int)
    requires JumpsOk(jumps) && Acyclic(jumps)
  {
    c in Trail(jumps, p, rolls)
  }

  // ---------------------------------------------------------------------
  // Routes as the search reports them

  /** One step of a reported route: a die move forward by 1..nDice, or a
      jump. */
  ghost predicate Step(jumps: seq<int>, nDice: int, a: int, b: int)
    requires 0 <= a < |jumps|
  {
    (a < b <= a + nDice) || jumps[a] == b
  }

  /** A route from square 1 to c made of steps. */
  ghost predicate FromStart(jumps: seq<int>, nDice: int, route: seq<int>, c: int)
  {
    |route| >= 1 && route[0] == 1 && route[|route| - 1] == c &&
    (forall j | 0 <= j < |route| :: 0 <= route[j] < |jumps|) &&
    (forall j | 0 < j < |route| :: Step(jumps, nDice, route[j - 1], route[j]))
  }

  /** The die rolls of a route: its steps that are not jumps. */
  ghost function Rolls(jumps: seq<int>, route: seq<int>): nat
    requires forall j | 0 <= j < |route| :: 0 <= route[j] < |jumps|
  {
    if |route| <= 1 then 0
    else Rolls(jumps, route[..|route| - 1]) + if jumps[route[|route| - 2]] == route[|route| - 1] then 0 else 1
  }
}
