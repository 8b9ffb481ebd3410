/** The breadth-first search of assignment-6/main.cpp over the squares of a
    snakes-and-ladders board, the path printed for the last square and the
    list of squares no play reaches.  Each square records the fewest rolls
    found so far (inf at first) and the square it was last reached from.  A
    state taken from the queue tries every die value; a landing that improves
    the square is recorded, and when the square holds a ladder or snake the
    whole chain of jumps is followed, every improved square of the chain
    being recorded and queued as a square to roll from. */
module Snakes {
  import opened SnakeBoard
  import opened SnakeSearch
  import Text

  /** The search's invariant between two die moves, with skip the state
      whose die moves are being tried, together with the plays witnessing
      every reached square. */
  ghost predicate Steady(jumps: seq<int>, nDice: int, s: seq<SquareInfo>, queue: seq<GameState>, skip: GameState,
                         wit: map<int, seq<int>>)
  {
    Searching(jumps, nDice, s, queue, skip, {}) && Sound(jumps, nDice, s, queue, wit)
  }

  /** From (s0, queue0) to (s, queue) every changed square was improved to
      v rolls, and the search's measure did not grow. */
  ghost predicate Progress(s: seq<SquareInfo>, queue: seq<GameState>, s0: seq<SquareInfo>, queue0: seq<GameState>, v: nat)
  {
    Changes(s, s0, v) && NoFurther(s, queue, s0, queue0)
  }

  lemma ProgressTrans(s2: seq<SquareInfo>, q2: seq<GameState>, s1: seq<SquareInfo>, q1: seq<GameState>,
                      s0: seq<SquareInfo>, q0: seq<GameState>, v: nat)
    requires Progress(s2, q2, s1, q1, v) && Progress(s1, q1, s0, q0, v)
    ensures Progress(s2, q2, s0, q0, v)
  {
    ChangesTrans(s2, s1, s0, v);
    NoFurtherTrans(s2, q2, s1, q1, s0, q0);
  }

  /** The state just after landing on q with the rolls of st + 1: only q's
      chain is still open, and the play w passes that whole chain. */
  ghost predicate Landed(jumps: seq<int>, nDice: int, s: seq<SquareInfo>, queue: seq<GameState>, st: GameState,
                         q: int, wit: map<int, seq<int>>, w: seq<int>)
  {
    Searching(jumps, nDice, s, queue, st, {q}) && 0 <= q < |s| && s[q].shortest == Fin(st.rolls + 1) &&
    Sound(jumps, nDice, s, queue, wit) && ChainPlay(jumps, nDice, q, w, st.rolls + 1)
  }

  /** A square landed on that has no jump closes its own chain. */
  lemma LandStill(jumps: seq<int>, nDice: int, s: seq<SquareInfo>, queue: seq<GameState>, st: GameState,
                  q: int, wit: map<int, seq<int>>, w: seq<int>)
    requires Landed(jumps, nDice, s, queue, st, q, wit, w) && jumps[q] == 0
    ensures Steady(jumps, nDice, s, queue, st, wit)
  {
    assert ChainOf(jumps, q) == [q];
    Settle(jumps, nDice, s, queue, st, {q});
  }

  /** The state of the chain loop standing on the chain's k-th square. */
  ghost predicate Chasing(jumps: seq<int>, nDice: int, s: seq<SquareInfo>, queue: seq<GameState>, st: GameState,
                          s0: seq<SquareInfo>, queue0: seq<GameState>, q: int, k: int, at: map<int, nat>,
                          wit: map<int, seq<int>>, next: int)
  {
    Following(jumps, nDice, s, queue, st, s0, queue0, q, k, at) &&
    next == ChainOf(jumps, q)[k] && Sound(jumps, nDice, s, queue, wit)
  }

  /** A jump of the chain loop that improves the square it reaches keeps
      the loop's invariants: that square is recorded, queued when it has
      no jump of its own, and witnessed by the play w. */
  lemma ChaseImprove(jumps: seq<int>, nDice: int, s: seq<SquareInfo>, queue: seq<GameState>, st: GameState,
                     s0: seq<SquareInfo>, queue0: seq<GameState>, q: int, k: int, at: map<int, nat>,
                     wit: map<int, seq<int>>, w: seq<int>, next: int, pushed: seq<GameState>)
    requires Chasing(jumps, nDice, s, queue, st, s0, queue0, q, k, at, wit, next)
    requires ChainPlay(jumps, nDice, q, w, st.rolls + 1) && jumps[next] != 0
    requires Less(Fin(st.rolls + 1), s[jumps[next]].shortest)
    requires pushed == if jumps[jumps[next]] == 0 then [GameState(st.rolls + 1, jumps[next])] else []
    ensures Chasing(jumps, nDice, s[jumps[next] := SquareInfo(Fin(st.rolls + 1), next)], queue + pushed, st,
                    s0, queue0, q, k + 1, at[jumps[next] := k + 1], wit[jumps[next] := w], jumps[next])
  {
    var dest := jumps[next];
    var v := st.rolls + 1;
    FollowImprove(jumps, nDice, s, queue, st, s0, queue0, q, k, at, pushed);
    ChainPlayAt(jumps, nDice, q, w, v, k + 1);
    assert Reaches(jumps, nDice, w, dest, v);
    SoundImprove(jumps, nDice, s, queue, wit, dest, v, next, jumps[dest] == 0, w,
                 s[dest := SquareInfo(Fin(v), next)], queue + pushed);
  }

  /** A jump of the chain loop to a square already reached within the
      same number of rolls changes nothing. */
  lemma ChaseSkip(jumps: seq<int>, nDice: int, s: seq<SquareInfo>, queue: seq<GameState>, st: GameState,
                  s0: seq<SquareInfo>, queue0: seq<GameState>, q: int, k: int, at: map<int, nat>,
                  wit: map<int, seq<int>>, next: int)
    requires Chasing(jumps, nDice, s, queue, st, s0, queue0, q, k, at, wit, next)
    requires jumps[next] != 0 && !Less(Fin(st.rolls + 1), s[jumps[next]].shortest)
    ensures Chasing(jumps, nDice, s, queue, st, s0, queue0, q, k + 1, at, wit, jumps[next])
  {
    FollowSkip(jumps, nDice, s, queue, st, s0, queue0, q, k, at);
  }

  /** The jump chain from the square q just landed on: every later square
      of the chain that the rolls of st + 1 improve is recorded, with the
      square before it in the chain; the square the chain ends on, the only
      one a player can stand on, is queued.  The play w (the rolls of st and
      the die just rolled) passes the whole chain and ends on its last
      square. */
  method FollowChain(sq: array<SquareInfo>, jumps: seq<int>, nDice: int, st: GameState, q: int,
                     queue: seq<GameState>, ghost wit: map<int, seq<int>>, ghost w: seq<int>)
    returns (queue': seq<GameState>, ghost wit': map<int, seq<int>>)
    modifies sq
    requires Landed(jumps, nDice, sq[..], queue, st, q, wit, w) && 2 <= q
    ensures Steady(jumps, nDice, sq[..], queue', st, wit')
    ensures Progress(sq[..], queue', old(sq[..]), queue, st.rolls + 1)
  {
    FollowStart(jumps, nDice, sq[..], queue, st, q);
    ghost var k, at;
    queue', wit', k, at := Chase(sq, jumps, nDice, st, q, queue, wit, w);
    FollowEnd(jumps, nDice, sq[..], queue', st, old(sq[..]), queue, q, k, at);
  }

  /** The loop of FollowChain, from the chain's first square to its last. */
  method Chase(sq: array<SquareInfo>, jumps: seq<int>, nDice: int, st: GameState, q: int,
               queue: seq<GameState>, ghost wit: map<int, seq<int>>, ghost w: seq<int>)
    returns (queue': seq<GameState>, ghost wit': map<int, seq<int>>, ghost k: int, ghost at: map<int, nat>)
    modifies sq
    requires Chasing(jumps, nDice, sq[..], queue, st, sq[..], queue, q, 0, map[q := 0], wit, q)
    requires ChainPlay(jumps, nDice, q, w, st.rolls + 1)
    ensures 0 <= k < |ChainOf(jumps, q)|
    ensures Chasing(jumps, nDice, sq[..], queue', st, old(sq[..]), queue, q, k, at, wit', ChainOf(jumps, q)[k])
    ensures jumps[ChainOf(jumps, q)[k]] == 0
  {
    ghost var s0 := sq[..];
    k, at := 0, map[q := 0];
    var next := q;
    queue' := queue;
    wit' := wit;
    while jumps[next] != 0
      invariant Chasing(jumps, nDice, sq[..], queue', st, s0, queue, q, k, at, wit', next)
      decreases |ChainOf(jumps, q)| - k
    {
      queue', at, wit' := ChaseOne(sq, jumps, nDice, st, q, next, queue', s0, queue, k, at, wit', w);
      next := jumps[next];
      k := k + 1;
    }
  }

  /** One jump of the chain loop, from next, the chain's k-th square: the
      square it reaches is recorded when the jump improves it, and queued
      when it has no jump of its own. */
  method ChaseOne(sq: array<SquareInfo>, jumps: seq<int>, nDice: int, st: GameState, q: int, next: int,
                  queue: seq<GameState>, ghost s0: seq<SquareInfo>, ghost queue0: seq<GameState>, ghost k: int,
                  ghost at: map<int, nat>, ghost wit: map<int, seq<int>>, ghost w: seq<int>)
    returns (queue': seq<GameState>, ghost at': map<int, nat>, ghost wit': map<int, seq<int>>)
    modifies sq
    requires Chasing(jumps, nDice, sq[..], queue, st, s0, queue0, q, k, at, wit, next)
    requires ChainPlay(jumps, nDice, q, w, st.rolls + 1) && jumps[next] != 0
    ensures Chasing(jumps, nDice, sq[..], queue', st, s0, queue0, q, k + 1, at', wit', jumps[next])
  {
    var v := st.rolls + 1;
    var dest := jumps[next];
    if Less(Fin(v), sq[dest].shortest) {
      var pushed := if jumps[dest] == 0 then [GameState(v, dest)] else [];
      ChaseImprove(jumps, nDice, sq[..], queue, st, s0, queue0, q, k, at, wit, w, next, pushed);
      ghost var s := sq[..];
      sq[dest] := SquareInfo(Fin(v), next);
      assert sq[..] == s[dest := SquareInfo(Fin(v), next)];
      queue', at', wit' := queue + pushed, at[dest := k + 1], wit[dest := w];
    } else {
      ChaseSkip(jumps, nDice, sq[..], queue, st, s0, queue0, q, k, at, wit, next);
      queue', at', wit' := queue, at, wit;
    }
  }

  /** The state of the chain loop as written standing on the chain's k-th
      square: every square changed since the loop began, other than q, has
      been queued. */
  ghost predicate ChasingAsWritten(jumps: seq<int>, nDice: int, s: seq<SquareInfo>, queue: seq<GameState>,
                                   st: GameState, s0: seq<SquareInfo>, queue0: seq<GameState>, q: int, k: int,
                                   at: map<int, nat>, next: int)
  {
    Following(jumps, nDice, s, queue, st, s0, queue0, q, k, at) && next == ChainOf(jumps, q)[k] &&
    forall x | 0 <= x < |s0| && x < |s| && s[x] != s0[x] && x != q :: GameState(st.rolls + 1, x) in queue
  }

  /** A jump of the loop as written that improves the square it reaches
      records and queues that square, whether or not it has a jump of its
      own. */
  lemma ChaseImproveAsWritten(jumps: seq<int>, nDice: int, s: seq<SquareInfo>, queue: seq<GameState>, st: GameState,
                              s0: seq<SquareInfo>, queue0: seq<GameState>, q: int, k: int, at: map<int, nat>, next: int)
    requires ChasingAsWritten(jumps, nDice, s, queue, st, s0, queue0, q, k, at, next)
    requires jumps[next] != 0 && Less(Fin(st.rolls + 1), s[jumps[next]].shortest)
    ensures ChasingAsWritten(jumps, nDice, s[jumps[next] := SquareInfo(Fin(st.rolls + 1), next)],
                             queue + [GameState(st.rolls + 1, jumps[next])], st, s0, queue0, q, k + 1,
                             at[jumps[next] := k + 1], jumps[next])
  {
    var dest, v := jumps[next], st.rolls + 1;
    var t := s[dest := SquareInfo(Fin(v), next)];
    FollowImprove(jumps, nDice, s, queue, st, s0, queue0, q, k, at, [GameState(v, dest)]);
    forall x | 0 <= x < |s0| && x < |t| && t[x] != s0[x] && x != q
      ensures GameState(v, x) in queue + [GameState(v, dest)]
    {
      if x != dest {
        assert GameState(v, x) in queue;
      }
    }
  }

  /** A jump of the loop as written to a square already reached within the
      same number of rolls changes nothing. */
  lemma ChaseSkipAsWritten(jumps: seq<int>, nDice: int, s: seq<SquareInfo>, queue: seq<GameState>, st: GameState,
                           s0: seq<SquareInfo>, queue0: seq<GameState>, q: int, k: int, at: map<int, nat>, next: int)
    requires ChasingAsWritten(jumps, nDice, s, queue, st, s0, queue0, q, k, at, next)
    requires jumps[next] != 0 && !Less(Fin(st.rolls + 1), s[jumps[next]].shortest)
    ensures ChasingAsWritten(jumps, nDice, s, queue, st, s0, queue0, q, k + 1, at, jumps[next])
  {
    FollowSkip(jumps, nDice, s, queue, st, s0, queue0, q, k, at);
  }

  /** The chain loop as written: every improved square of the chain is
      queued, also one that has a ladder or snake of its own, where no
      player can stand. */
  method FollowChainAsWritten(sq: array<SquareInfo>, jumps: seq<int>, nDice: int, st: GameState, q: int,
                              queue: seq<GameState>) returns (queue': seq<GameState>)
    modifies sq
    requires Searching(jumps, nDice, sq[..], queue, st, {q})
    requires 2 <= q < sq.Length && sq[q].shortest == Fin(st.rolls + 1)
    ensures Searching(jumps, nDice, sq[..], queue', st, {})
    ensures Changes(sq[..], old(sq[..]), st.rolls + 1)
    ensures forall j | 0 <= j < |ChainOf(jumps, q)| :: AtMost(sq[ChainOf(jumps, q)[j]].shortest, Fin(st.rolls + 1))
    ensures forall x | 0 <= x < sq.Length && sq[x] != old(sq[x]) && x != q :: GameState(st.rolls + 1, x) in queue'
  {
    FollowStart(jumps, nDice, sq[..], queue, st, q);
    ghost var k, at;
    queue', k, at := ChaseAsWritten(sq, jumps, nDice, st, q, queue);
    FollowEnd(jumps, nDice, sq[..], queue', st, old(sq[..]), queue, q, k, at);
  }

  /** The loop of FollowChainAsWritten, from the chain's first square to its
      last. */
  method ChaseAsWritten(sq: array<SquareInfo>, jumps: seq<int>, nDice: int, st: GameState, q: int,
                        queue: seq<GameState>) returns (queue': seq<GameState>, ghost k: int, ghost at: map<int, nat>)
    modifies sq
    requires Following(jumps, nDice, sq[..], queue, st, sq[..], queue, q, 0, map[q := 0])
    ensures 0 <= k < |ChainOf(jumps, q)|
    ensures ChasingAsWritten(jumps, nDice, sq[..], queue', st, old(sq[..]), queue, q, k, at, ChainOf(jumps, q)[k])
    ensures jumps[ChainOf(jumps, q)[k]] == 0
  {
    ghost var s0 := sq[..];
    k, at := 0, map[q := 0];
    var next := q;
    queue' := queue;
    while jumps[next] != 0
      invariant ChasingAsWritten(jumps, nDice, sq[..], queue', st, s0, queue, q, k, at, next)
      decreases |ChainOf(jumps, q)| - k
    {
      queue', at := ChaseOneAsWritten(sq, jumps, nDice, st, q, next, queue', s0, queue, k, at);
      next := jumps[next];
      k := k + 1;
    }
  }

  /** One jump of the chain loop as written, from next, the chain's k-th
      square: the square it reaches is recorded and queued when the jump
      improves it. */
  method ChaseOneAsWritten(sq: array<SquareInfo>, jumps: seq<int>, nDice: int, st: GameState, q: int, next: int,
                           queue: seq<GameState>, ghost s0: seq<SquareInfo>, ghost queue0: seq<GameState>,
                           ghost k: int, ghost at: map<int, nat>)
    returns (queue': seq<GameState>, ghost at': map<int, nat>)
    modifies sq
    requires ChasingAsWritten(jumps, nDice, sq[..], queue, st, s0, queue0, q, k, at, next) && jumps[next] != 0
    ensures ChasingAsWritten(jumps, nDice, sq[..], queue', st, s0, queue0, q, k + 1, at', jumps[next])
  {
    var v := st.rolls + 1;
    var dest := jumps[next];
    if Less(Fin(v), sq[dest].shortest) {
      ChaseImproveAsWritten(jumps, nDice, sq[..], queue, st, s0, queue0, q, k, at, next);
      ghost var s := sq[..];
      sq[dest] := SquareInfo(Fin(v), next);
      assert sq[..] == s[dest := SquareInfo(Fin(v), next)];
      queue', at' := queue + [GameState(v, dest)], at[dest := k + 1];
    } else {
      ChaseSkipAsWritten(jumps, nDice, sq[..], queue, st, s0, queue0, q, k, at, next);
      queue', at' := queue, at;
    }
  }

  /** A play u followed by a roll of d that stays on the board passes the
      whole chain from the square that roll lands on and ends on its last
      square. */
  lemma RollWitness(jumps: seq<int>, nDice: int, u: seq<int>, p: int, d: int, v: nat)
    requires JumpsOk(jumps) && Acyclic(jumps)
    requires Dice(nDice, u) && |u| < v && 1 <= d <= nDice
    requires Final(jumps, 1, u) == p && 0 <= p + d < |jumps|
    ensures ChainPlay(jumps, nDice, p + d, u + [d], v)
  {
    var c := ChainOf(jumps, p + d);
    DiceSnoc(nDice, u, d);
    forall j | 0 <= j < |c|
      ensures Visits(jumps, 1, u + [d], c[j])
    {
      SnocVisits(jumps, u, p, d, j);
    }
    SnocFinal(jumps, u, p, d);
  }

  /** A play u ending on p followed by a roll of d that stays on the board
      passes p + d, and ends there when p + d has no jump. */
  lemma SnocStart(jumps: seq<int>, u: seq<int>, p: int, d: int)
    requires JumpsOk(jumps) && Acyclic(jumps) && Final(jumps, 1, u) == p && 0 <= p + d < |jumps|
    ensures Visits(jumps, 1, u + [d], p + d)
    ensures jumps[p + d] == 0 ==> Final(jumps, 1, u + [d]) == p + d
  {
    SnocVisits(jumps, u, p, d, 0);
    SnocFinal(jumps, u, p, d);
    if jumps[p + d] == 0 {
      ChainEnd(jumps, p + d, 0);
    }
  }

  lemma SnocFinal(jumps: seq<int>, u: seq<int>, p: int, d: int)
    requires JumpsOk(jumps) && Acyclic(jumps) && Final(jumps, 1, u) == p && 0 <= p + d < |jumps|
    ensures Final(jumps, 1, u + [d]) == ChainOf(jumps, p + d)[|ChainOf(jumps, p + d)| - 1]
  {
    FinalSnoc(jumps, 1, u, d);
  }

  lemma DiceSnoc(nDice: int, u: seq<int>, d: int)
    requires Dice(nDice, u) && 1 <= d <= nDice
    ensures Dice(nDice, u + [d])
  {
    var w := u + [d];
    forall j | 0 <= j < |w|
      ensures 1 <= w[j] <= nDice
    {
      if j < |u| {
        assert w[j] == u[j];
      }
    }
  }

  lemma SnocVisits(jumps: seq<int>, u: seq<int>, p: int, d: int, j: int)
    requires JumpsOk(jumps) && Acyclic(jumps) && Final(jumps, 1, u) == p && 0 <= p + d < |jumps|
    requires 0 <= j < |ChainOf(jumps, p + d)|
    ensures Visits(jumps, 1, u + [d], ChainOf(jumps, p + d)[j])
  {
    var c := ChainOf(jumps, p + d);
    assert c[j] in Passed(jumps, p, d);
    TrailSnoc(jumps, 1, u, d, c[j]);
  }

  /** The play witnessing a square a player stands on ends there. */
  lemma WitnessOf(jumps: seq<int>, nDice: int, s: seq<SquareInfo>, queue: seq<GameState>, wit: map<int, seq<int>>,
                  st: GameState)
    requires Sound(jumps, nDice, s, queue, wit)
    requires 0 <= st.pos < |s| && (st.pos == 1 || jumps[st.pos] == 0) && Within(s[st.pos].shortest, st.rolls)
    ensures st.pos in wit && Dice(nDice, wit[st.pos]) && |wit[st.pos]| <= st.rolls
    ensures Final(jumps, 1, wit[st.pos]) == st.pos
  {
    assert Witnessed(jumps, nDice, s, wit, st.pos);
  }

  /** The dice sequence that reaches the square a roll lands on: the one
      of the square rolled from, plus the roll. */
  lemma RollPlay(jumps: seq<int>, nDice: int, s: seq<SquareInfo>, queue: seq<GameState>, wit: map<int, seq<int>>,
                 st: GameState, i: int)
    returns (w: seq<int>)
    requires Sound(jumps, nDice, s, queue, wit)
    requires 1 <= st.pos && 1 <= i <= nDice && st.pos + i < |s| && Within(s[st.pos].shortest, st.rolls)
    requires st.pos == 1 || jumps[st.pos] == 0
    ensures ChainPlay(jumps, nDice, st.pos + i, w, st.rolls + 1)
    ensures 0 <= st.pos + i < |jumps| && Reaches(jumps, nDice, w, st.pos + i, st.rolls + 1)
  {
    WitnessOf(jumps, nDice, s, queue, wit, st);
    w := wit[st.pos] + [i];
    RollWitness(jumps, nDice, wit[st.pos], st.pos, i, st.rolls + 1);
    SnocStart(jumps, wit[st.pos], st.pos, i);
    DiceSnoc(nDice, wit[st.pos], i);
  }

  /** Recording an improving roll, and queueing the square landed on when a
      player can stand there, keeps the search's invariant, except that the
      chain from that square is still to be followed. */
  lemma RollSearch(jumps: seq<int>, nDice: int, s: seq<SquareInfo>, queue: seq<GameState>,
                   st: GameState, i: int, t: seq<SquareInfo>, queue': seq<GameState>)
    requires Searching(jumps, nDice, s, queue, st, {})
    requires 1 <= st.pos && 1 <= i <= nDice && st.pos + i < |s| && Within(s[st.pos].shortest, st.rolls)
    requires Less(Fin(st.rolls + 1), s[st.pos + i].shortest)
    requires t == s[st.pos + i := SquareInfo(Fin(st.rolls + 1), st.pos)]
    requires queue' == queue + if jumps[st.pos + i] == 0 then [GameState(st.rolls + 1, st.pos + i)] else []
    ensures Searching(jumps, nDice, t, queue', st, {st.pos + i})
  {
    var next, v := st.pos + i, st.rolls + 1;
    var pushed := if jumps[next] == 0 then [GameState(v, next)] else [];
    Improve(jumps, nDice, s, queue, st, {}, next, v, st.pos, pushed);
    assert {} + {next} == {next};
  }

  /** Recording the roll with that play, and queueing it when a player can
      stand there, keeps the search sound. */
  lemma RollSound(jumps: seq<int>, nDice: int, s: seq<SquareInfo>, queue: seq<GameState>, wit: map<int, seq<int>>,
                  st: GameState, i: int, t: seq<SquareInfo>, queue': seq<GameState>)
    returns (w: seq<int>)
    requires Sound(jumps, nDice, s, queue, wit)
    requires 1 <= st.pos && 1 <= i <= nDice && st.pos + i < |s| && Within(s[st.pos].shortest, st.rolls)
    requires st.pos == 1 || jumps[st.pos] == 0
    requires t == s[st.pos + i := SquareInfo(Fin(st.rolls + 1), st.pos)]
    requires queue' == queue + if jumps[st.pos + i] == 0 then [GameState(st.rolls + 1, st.pos + i)] else []
    ensures Sound(jumps, nDice, t, queue', wit[st.pos + i := w])
    ensures 0 <= st.pos + i < |jumps| && ChainPlay(jumps, nDice, st.pos + i, w, st.rolls + 1)
  {
    w := RollPlay(jumps, nDice, s, queue, wit, st, i);
    SoundImprove(jumps, nDice, s, queue, wit, st.pos + i, st.rolls + 1, st.pos, jumps[st.pos + i] == 0, w, t, queue');
  }

  /** Together: after recording and queueing the roll, the search stands
      just after landing on st.pos + i, with the play that reaches it. */
  lemma RollLanded(jumps: seq<int>, nDice: int, s: seq<SquareInfo>, queue: seq<GameState>, wit: map<int, seq<int>>,
                   st: GameState, i: int, t: seq<SquareInfo>, queue': seq<GameState>)
    returns (w: seq<int>)
    requires Steady(jumps, nDice, s, queue, st, wit)
    requires 1 <= st.pos && 1 <= i <= nDice && st.pos + i < |s| && Within(s[st.pos].shortest, st.rolls)
    requires st.pos == 1 || jumps[st.pos] == 0
    requires Less(Fin(st.rolls + 1), s[st.pos + i].shortest)
    requires t == s[st.pos + i := SquareInfo(Fin(st.rolls + 1), st.pos)]
    requires queue' == queue + if jumps[st.pos + i] == 0 then [GameState(st.rolls + 1, st.pos + i)] else []
    ensures Landed(jumps, nDice, t, queue', st, st.pos + i, wit[st.pos + i := w], w)
  {
    w := RollSound(jumps, nDice, s, queue, wit, st, i, t, queue');
    RollSearch(jumps, nDice, s, queue, st, i, t, queue');
  }

  /** Recording an improvement of square k to v rolls, and queueing at most
      one state, keeps the search's measure from growing. */
  lemma RollProgress(s: seq<SquareInfo>, queue: seq<GameState>, t: seq<SquareInfo>, queue': seq<GameState>,
                     k: int, v: nat, p: int)
    requires 0 <= k < |s| && Less(Fin(v), s[k].shortest) && t == s[k := SquareInfo(Fin(v), p)]
    requires |queue'| <= |queue| + 1
    ensures Progress(t, queue', s, queue, v)
  {
    ImproveLowers(s, k, SquareInfo(Fin(v), p));
  }

  /** A roll of i from st that improves the square landed on: record it,
      then queue it when a player can stand there, or follow its chain. */
  method Land(sq: array<SquareInfo>, jumps: seq<int>, nDice: int, st: GameState, i: int,
              queue: seq<GameState>, ghost wit: map<int, seq<int>>)
    returns (queue': seq<GameState>, ghost wit': map<int, seq<int>>)
    modifies sq
    requires Steady(jumps, nDice, sq[..], queue, st, wit)
    requires 1 <= st.pos && 1 <= i <= nDice && st.pos + i < sq.Length && Within(sq[st.pos].shortest, st.rolls)
    requires st.pos == 1 || jumps[st.pos] == 0
    requires Less(Fin(st.rolls + 1), sq[st.pos + i].shortest)
    ensures Steady(jumps, nDice, sq[..], queue', st, wit')
    ensures sq[st.pos + i].shortest == Fin(st.rolls + 1)
    ensures Progress(sq[..], queue', old(sq[..]), queue, st.rolls + 1)
  {
    var next := st.pos + i;
    var v := st.rolls + 1;
    ghost var s0 := sq[..];
    var pushed := if jumps[next] == 0 then [GameState(v, next)] else [];
    sq[next] := SquareInfo(Fin(v), st.pos);
    assert sq[..] == s0[next := SquareInfo(Fin(v), st.pos)];
    queue' := queue + pushed;
    ghost var w := RollLanded(jumps, nDice, s0, queue, wit, st, i, sq[..], queue');
    RollProgress(s0, queue, sq[..], queue', next, v, st.pos);
    wit' := wit[next := w];
    if jumps[next] == 0 {
      LandStill(jumps, nDice, sq[..], queue', st, next, wit', w);
    } else {
      ghost var s1, q1 := sq[..], queue';
      queue', wit' := FollowChain(sq, jumps, nDice, st, next, queue', wit', w);
      ProgressTrans(sq[..], queue', s1, q1, s0, queue, v);
    }
  }

  /** One die value i for the popped state st (the body of the dice loop):
      a move past the last square, or to a square already reached with no
      more rolls, changes nothing. */
  method Roll(sq: array<SquareInfo>, jumps: seq<int>, nDice: int, st: GameState, i: int,
              queue: seq<GameState>, ghost wit: map<int, seq<int>>)
    returns (queue': seq<GameState>, ghost wit': map<int, seq<int>>)
    modifies sq
    requires Steady(jumps, nDice, sq[..], queue, st, wit)
    requires 1 <= st.pos < sq.Length && Within(sq[st.pos].shortest, st.rolls)
    requires st.pos == 1 || jumps[st.pos] == 0
    requires 1 <= i <= nDice
    ensures Steady(jumps, nDice, sq[..], queue', st, wit')
    ensures st.pos + i < sq.Length ==> Within(sq[st.pos + i].shortest, st.rolls + 1)
    ensures Progress(sq[..], queue', old(sq[..]), queue, st.rolls + 1)
  {
    queue' := queue;
    wit' := wit;
    var next := st.pos + i;
    if next < sq.Length && Less(Fin(st.rolls + 1), sq[next].shortest) {
      queue', wit' := Land(sq, jumps, nDice, st, i, queue, wit);
    }
  }

  /** Popping st and trying every die value 1..nDice from its square. */
  method Expand(sq: array<SquareInfo>, jumps: seq<int>, nDice: int, st: GameState,
                queue: seq<GameState>, ghost wit: map<int, seq<int>>)
    returns (queue': seq<GameState>, ghost wit': map<int, seq<int>>)
    modifies sq
    requires Steady(jumps, nDice, sq[..], [st] + queue, Nobody, wit)
    ensures Steady(jumps, nDice, sq[..], queue', Nobody, wit')
    ensures Progress(sq[..], queue', old(sq[..]), queue, st.rolls + 1)
  {
    Pop(jumps, nDice, sq[..], st, queue);
    SoundPop(jumps, nDice, sq[..], st, queue, wit);
    ghost var s0 := sq[..];
    queue' := queue;
    wit' := wit;
    var i := 1;
    while i <= nDice
      invariant 1 <= i && (i <= nDice + 1 || i == 1)
      invariant Steady(jumps, nDice, sq[..], queue', st, wit')
      invariant 1 <= st.pos < sq.Length && Within(sq[st.pos].shortest, st.rolls)
      invariant forall q | st.pos < q < st.pos + i && q < sq.Length :: Within(sq[q].shortest, st.rolls + 1)
      invariant Progress(sq[..], queue', s0, queue, st.rolls + 1)
    {
      ghost var s1, q1 := sq[..], queue';
      queue', wit' := Roll(sq, jumps, nDice, st, i, queue', wit');
      ProgressTrans(sq[..], queue', s1, q1, s0, queue, st.rolls + 1);
      i := i + 1;
    }
    Unskip(jumps, nDice, sq[..], st, queue');
  }

  /** The search from square 1 with no rolls: when it ends, every square a
      play of the real game passes through has been reached, with no more
      rolls than the play used, and every reached square is passed by a
      play (wit) of no more rolls than its count. */
  method Search(jumps: seq<int>, nDice: int) returns (sq: array<SquareInfo>, ghost wit: map<int, seq<int>>)
    requires |jumps| >= 2 && JumpsOk(jumps) && Acyclic(jumps)
    ensures Steady(jumps, nDice, sq[..], [], Nobody, wit)
    ensures forall rolls, c | Dice(nDice, rolls) && Visits(jumps, 1, rolls, c) ::
              0 <= c < sq.Length && Within(sq[c].shortest, |rolls|)
  {
    sq := new SquareInfo[|jumps|](_ => SquareInfo(Inf, 0));
    sq[1] := SquareInfo(Fin(0), 0);
    var queue := [GameState(0, 1)];
    wit := map[1 := []];
    assert Witnessed(jumps, nDice, sq[..], wit, 1) by {
      assert Trail(jumps, 1, []) == [1];
    }
    while |queue| > 0
      invariant sq.Length == |jumps|
      invariant Steady(jumps, nDice, sq[..], queue, Nobody, wit)
      decreases InfCount(sq[..]), FinSum(sq[..]) + |queue|
    {
      var st := queue[0];
      assert queue == [st] + queue[1..];
      queue, wit := Expand(sq, jumps, nDice, st, queue[1..], wit);
    }
    assert queue == [];
    Finished(jumps, nDice, sq[..]);
    SearchComplete(jumps, nDice, sq[..]);
  }

  /** The search is over: every square a player can stand on has had all its
      die moves tried, and every chain of jumps from a reached square has
      been followed. */
  ghost predicate Settled(jumps: seq<int>, nDice: int, s: seq<SquareInfo>)
  {
    JumpsOk(jumps) && Acyclic(jumps) && |s| == |jumps| >= 2 && s[1].shortest == Fin(0) &&
    (forall x | 0 <= x < |s| && (x == 1 || jumps[x] == 0) && s[x].shortest.Fin? ::
       Closed(nDice, s, x, s[x].shortest.n)) &&
    forall x | 2 <= x < |s| :: ChainClosed(jumps, s, x)
  }

  lemma Finished(jumps: seq<int>, nDice: int, s: seq<SquareInfo>)
    requires Searching(jumps, nDice, s, [], Nobody, {})
    ensures Settled(jumps, nDice, s)
  {
    forall x | 0 <= x < |s| && (x == 1 || jumps[x] == 0) && s[x].shortest.Fin?
      ensures Closed(nDice, s, x, s[x].shortest.n)
    {
      assert StandingAt(jumps, nDice, s, [], x);
    }
  }

  /** Every square a play passes through is reached within the play's
      rolls. */
  lemma SearchComplete(jumps: seq<int>, nDice: int, s: seq<SquareInfo>)
    requires Settled(jumps, nDice, s)
    ensures forall rolls, c | Dice(nDice, rolls) && Visits(jumps, 1, rolls, c) ::
              0 <= c < |s| && Within(s[c].shortest, |rolls|)
  {
    forall rolls, c | Dice(nDice, rolls) && Visits(jumps, 1, rolls, c)
      ensures 0 <= c < |s| && Within(s[c].shortest, |rolls|)
    {
      PlaysReach(jumps, nDice, s, 1, rolls);
    }
  }

  /** A play passes through its first square, the squares its first roll
      passes, and the squares the rest of the play passes. */
  lemma TrailStep(jumps: seq<int>, p: int, rolls: seq<int>, c: int)
    requires JumpsOk(jumps) && Acyclic(jumps) && |rolls| > 0 && Visits(jumps, p, rolls, c)
    ensures c == p || (0 <= p + rolls[0] < |jumps| && c in ChainOf(jumps, p + rolls[0])) || Visits(jumps, Move(jumps, p, rolls[0]), rolls[1..], c)
  {
  }

  /** A roll of d from a reached square p a player can stand on passes only
      squares reached within one more roll, and stops on a reached square a
      player can stand on, reached within one more roll. */
  lemma Landing(jumps: seq<int>, nDice: int, s: seq<SquareInfo>, p: int, d: int)
    requires Settled(jumps, nDice, s)
    requires 1 <= p < |s| && (p == 1 || jumps[p] == 0) && s[p].shortest.Fin?
    requires 1 <= d <= nDice
    ensures var e := Move(jumps, p, d);
            1 <= e < |s| && (e == 1 || jumps[e] == 0) && Within(s[e].shortest, s[p].shortest.n + 1)
    ensures forall c | c in Passed(jumps, p, d) :: 0 <= c < |s| && Within(s[c].shortest, s[p].shortest.n + 1)
  {
    var n := s[p].shortest.n;
    if p + d < |s| {
      var ch := ChainOf(jumps, p + d);
      assert Within(s[p + d].shortest, n + 1);
      assert ChainClosed(jumps, s, p + d);
      assert AtMost(s[ch[|ch| - 1]].shortest, s[p + d].shortest);
      if |ch| > 1 {
        assert JumpsAt(jumps, ch, |ch| - 2);
      }
      InClosedChain(jumps, s, p + d);
    }
  }

  /** A square of the chain from a reached square x other than the start,
      once that chain is closed, is reached with no more rolls than x. */
  lemma InClosedChain(jumps: seq<int>, s: seq<SquareInfo>, x: int)
    requires JumpsOk(jumps) && Acyclic(jumps) && |s| == |jumps| && 2 <= x < |s|
    requires ChainClosed(jumps, s, x) && s[x].shortest.Fin?
    ensures forall c | c in ChainOf(jumps, x) :: 0 <= c < |s| && AtMost(s[c].shortest, s[x].shortest)
  {
    var ch := ChainOf(jumps, x);
    forall c | c in ch
      ensures 0 <= c < |s| && AtMost(s[c].shortest, s[x].shortest)
    {
      var j :| 0 <= j < |ch| && ch[j] == c;
    }
  }

  /** From a reached square a player can stand on, every square a play
      passes through is reached within the square's count plus the play's
      rolls. */
  lemma {:induction false} PlaysReach(jumps: seq<int>, nDice: int, s: seq<SquareInfo>, p: int, rolls: seq<int>)
    requires Settled(jumps, nDice, s)
    requires 1 <= p < |s| && (p == 1 || jumps[p] == 0) && s[p].shortest.Fin?
    requires Dice(nDice, rolls)
    ensures forall c | Visits(jumps, p, rolls, c) ::
              0 <= c < |s| && Within(s[c].shortest, s[p].shortest.n + |rolls|)
    decreases |rolls|
  {
    var n := s[p].shortest.n;
    if |rolls| > 0 {
      var d := rolls[0];
      var e := Move(jumps, p, d);
      var rest := rolls[1..];
      assert Dice(nDice, rest) by {
        forall j | 0 <= j < |rest|
          ensures 1 <= rest[j] <= nDice
        {
          assert rest[j] == rolls[j + 1];
        }
      }
      Landing(jumps, nDice, s, p, d);
      PlaysReach(jumps, nDice, s, e, rest);
      forall c | Visits(jumps, p, rolls, c)
        ensures 0 <= c < |s| && Within(s[c].shortest, n + |rolls|)
      {
        TrailStep(jumps, p, rolls, c);
      }
    }
  }

  // ---------------------------------------------------------------------
  // The path printed for the last square

  /** What following prev back from a reached square relies on. */
  ghost predicate Traced(jumps: seq<int>, nDice: int, s: seq<SquareInfo>)
  {
    JumpsOk(jumps) && Acyclic(jumps) && Shape(jumps, s) && AllLinked(jumps, nDice, s)
  }

  /** The squares met by following prev from c back to the start, listed
      from the start to c. */
  ghost function Back(jumps: seq<int>, nDice: int, s: seq<SquareInfo>, c: int): seq<int>
    requires Traced(jumps, nDice, s) && 1 <= c < |s| && s[c].shortest.Fin?
    decreases s[c].shortest.n, |jumps| + 1 - |ChainOf(jumps, c)|
  {
    var p := s[c].prev;
    if p == 0 then [c]
    else
      assert Linked(jumps, nDice, s, c);
      assert jumps[p] == c ==> |ChainOf(jumps, p)| == |ChainOf(jumps, c)| + 1 by {
        if jumps[p] == c {
          ChainStep(jumps, p);
        }
      }
      Back(jumps, nDice, s, p) + [c]
  }

  /** Following prev from a reached square gives a route from square 1 made
      of die moves and jumps, with no more die rolls than the square's
      count. */
  lemma {:induction false} BackIsRoute(jumps: seq<int>, nDice: int, s: seq<SquareInfo>, c: int)
    requires Traced(jumps, nDice, s) && 1 <= c < |s| && s[c].shortest.Fin?
    ensures FromStart(jumps, nDice, Back(jumps, nDice, s, c), c)
    ensures Rolls(jumps, Back(jumps, nDice, s, c)) <= s[c].shortest.n
    decreases s[c].shortest.n, |jumps| + 1 - |ChainOf(jumps, c)|
  {
    var p := s[c].prev;
    BackStep(jumps, nDice, s, c);
    assert Linked(jumps, nDice, s, c);
    if p != 0 {
      BackIsRoute(jumps, nDice, s, p);
      var r := Back(jumps, nDice, s, p);
      var route := r + [c];
      assert route[..|route| - 1] == r;
      forall j | 0 < j < |route|
        ensures Step(jumps, nDice, route[j - 1], route[j])
      {
        if j < |r| {
          assert route[j - 1] == r[j - 1] && route[j] == r[j];
        }
      }
    }
  }

  /** Following prev one step back from a reached square: the square
      before it is reached with fewer rolls, or with as many and one more
      jump in its chain. */
  lemma BackStep(jumps: seq<int>, nDice: int, s: seq<SquareInfo>, c: int)
    requires Traced(jumps, nDice, s) && 1 <= c < |s| && s[c].shortest.Fin?
    ensures s[c].prev == 0 ==> Back(jumps, nDice, s, c) == [c]
    ensures s[c].prev != 0 ==>
              var p := s[c].prev;
              1 <= p < |s| && s[p].shortest.Fin? && Back(jumps, nDice, s, c) == Back(jumps, nDice, s, p) + [c] &&
              (s[p].shortest.n < s[c].shortest.n ||
               (s[p].shortest.n == s[c].shortest.n && |ChainOf(jumps, p)| == |ChainOf(jumps, c)| + 1))
  {
    var p := s[c].prev;
    assert Linked(jumps, nDice, s, c);
    if p != 0 && jumps[p] == c {
      ChainStep(jumps, p);
    }
  }

  /** The stack loop: push the target, then the previous square of the top
      while it has one.  The printed path is the stack from top to bottom. */
  method ShortestPath(sq: array<SquareInfo>, jumps: seq<int>, nDice: int, target: int) returns (path: seq<int>)
    requires Traced(jumps, nDice, sq[..]) && 1 <= target < sq.Length && sq[target].shortest.Fin?
    ensures path == Back(jumps, nDice, sq[..], target)
    ensures FromStart(jumps, nDice, path, target) && Rolls(jumps, path) <= sq[target].shortest.n
  {
    var stack := [target];
    while sq[stack[0]].prev > 0
      invariant |stack| >= 1 && 1 <= stack[0] < sq.Length && sq[stack[0]].shortest.Fin?
      invariant Back(jumps, nDice, sq[..], target) == Back(jumps, nDice, sq[..], stack[0]) + stack[1..]
      decreases sq[stack[0]].shortest.n, |jumps| + 1 - |ChainOf(jumps, stack[0])|
    {
      var top := stack[0];
      BackStep(jumps, nDice, sq[..], top);
      stack := [sq[top].prev] + stack;
      assert stack[1..] == [top] + stack[2..];
    }
    BackStep(jumps, nDice, sq[..], stack[0]);
    path := stack;
    BackIsRoute(jumps, nDice, sq[..], target);
  }

  /** The squares of a path as printed, separated by arrows. */
  function PathText(path: seq<int>): string
  {
    Text.Join(seq(|path|, k requires 0 <= k < |path| => Text.IntToString(path[k])), " -> ")
  }

  /** What the loop popping the stack has printed after i squares: those
      squares joined by arrows, and an arrow after them while squares
      remain. */
  ghost function Popped(parts: seq<string>, i: nat): string
    requires i <= |parts|
  {
    Text.Join(parts[..i], " -> ") + if 0 < i < |parts| then " -> " else ""
  }

  lemma PoppedStep(parts: seq<string>, i: nat)
    requires i < |parts|
    ensures Popped(parts, i + 1) == Popped(parts, i) + parts[i] + if i + 1 < |parts| then " -> " else ""
  {
    Text.JoinPrefixStep(parts, i, " -> ");
  }

  /** The loop popping the stack: print the top, then an arrow when more
      squares remain. */
  method PrintPath(path: seq<int>) returns (line: string)
    ensures line == PathText(path)
  {
    ghost var parts := seq(|path|, k requires 0 <= k < |path| => Text.IntToString(path[k]));
    line := "";
    var i := 0;
    while i < |path|
      invariant 0 <= i <= |path|
      invariant line == Popped(parts, i)
    {
      PoppedStep(parts, i);
      assert parts[i] == Text.IntToString(path[i]);
      line := line + Text.IntToString(path[i]);
      if i + 1 < |path| {
        line := line + " -> ";
      }
      i := i + 1;
    }
    assert parts[..i] == parts;
  }

  // ---------------------------------------------------------------------
  // The squares no play reaches

  predicate Increasing(list: seq<int>)
  {
    forall i, j | 0 <= i < j < |list| :: list[i] < list[j]
  }

  /** Each square followed by a space. */
  function Spaced(list: seq<int>): string
  {
    if list == [] then "" else Spaced(list[..|list| - 1]) + Text.IntToString(list[|list| - 1]) + " "
  }

  lemma SpacedSnoc(list: seq<int>, c: int)
    ensures Spaced(list + [c]) == Spaced(list) + Text.IntToString(c) + " "
  {
    assert (list + [c])[..|list|] == list;
  }

  /** The unreachable line: the squares, or "All reachable" when there are
      none. */
  function UnreachedText(list: seq<int>): string
  {
    Spaced(list) + if list == [] then "All reachable\n" else "\n"
  }

  /** The squares among 1..n-1 still at inf, in increasing order. */
  ghost function InfSquares(s: seq<SquareInfo>, n: nat): seq<int>
    requires n <= |s|
  {
    if n <= 1 then [] else InfSquares(s, n - 1) + if s[n - 1].shortest.Inf? then [n - 1] else []
  }

  lemma InfSquaresStep(s: seq<SquareInfo>, n: nat)
    requires 1 <= n < |s|
    ensures InfSquares(s, n + 1) == InfSquares(s, n) + if s[n].shortest.Inf? then [n] else []
  {
  }

  /** InfSquares lists exactly the squares at inf, each once, in
      increasing order. */
  lemma {:induction false} InfSquaresExact(s: seq<SquareInfo>, n: nat)
    requires n <= |s|
    ensures forall c :: c in InfSquares(s, n) <==> 1 <= c < n && s[c].shortest.Inf?
    ensures Increasing(InfSquares(s, n))
    ensures forall k | 0 <= k < |InfSquares(s, n)| :: InfSquares(s, n)[k] < n
  {
    if n > 1 {
      InfSquaresExact(s, n - 1);
    }
  }

  /** The scan of squares 1..n_board for those still at inf, printing each. */
  method Unreached(sq: array<SquareInfo>) returns (list: seq<int>, line: string)
    requires sq.Length >= 1
    ensures list == InfSquares(sq[..], sq.Length)
    ensures forall c :: c in list <==> 1 <= c < sq.Length && sq[c].shortest.Inf?
    ensures Increasing(list)
    ensures line == UnreachedText(list)
  {
    ghost var s := sq[..];
    var allReachable := true;
    list := [];
    line := "";
    var i := 1;
    while i < sq.Length
      invariant 1 <= i <= sq.Length
      invariant list == InfSquares(s, i)
      invariant allReachable <==> list == []
      invariant line == Spaced(list)
    {
      InfSquaresStep(s, i);
      assert s[i] == sq[i];
      if sq[i].shortest.Inf? {
        if allReachable {
          allReachable := false;
        }
        SpacedSnoc(list, i);
        list := list + [i];
        line := line + Text.IntToString(i) + " ";
      }
      i := i + 1;
    }
    if allReachable {
      line := line + "All reachable\n";
    } else {
      line := line + "\n";
    }
    InfSquaresExact(sq[..], sq.Length);
  }

  // ---------------------------------------------------------------------
  // One test case

  datatype Answer = Solution(rolls: nat, path: seq<int>) | NoSolution

  /** What one test case prints. */
  function CaseText(answer: Answer, unreached: seq<int>): string
  {
    (match answer
     case Solution(n, path) => Text.NatToString(n) + "\n" + PathText(path) + "\n"
     case NoSolution => "-1\nNo solution\n") +
    UnreachedText(unreached) + "\n"
  }

  /** After the search a reached square's count is the fewest rolls of any
      play passing it, and an unreached square is passed by no play. */
  lemma Exact(jumps: seq<int>, nDice: int, s: seq<SquareInfo>, wit: map<int, seq<int>>, c: int)
    requires Sound(jumps, nDice, s, [], wit) && 0 <= c < |s|
    requires forall rolls, c | Dice(nDice, rolls) && Visits(jumps, 1, rolls, c) :: 0 <= c < |s| && Within(s[c].shortest, |rolls|)
    ensures s[c].shortest.Fin? ==> exists rolls :: Dice(nDice, rolls) && |rolls| == s[c].shortest.n && Visits(jumps, 1, rolls, c)
    ensures s[c].shortest.Inf? <==> forall rolls | Dice(nDice, rolls) :: !Visits(jumps, 1, rolls, c)
  {
    assert Witnessed(jumps, nDice, s, wit, c);
    if s[c].shortest.Fin? {
      var w := wit[c];
      assert Within(s[c].shortest, |w|);
    }
  }

  /** After the search: a square is listed as unreachable exactly when no
      play passes it, and every other square has a route from the start. */
  lemma Reachability(jumps: seq<int>, nDice: int, s: seq<SquareInfo>, wit: map<int, seq<int>>, unreached: seq<int>)
    requires Steady(jumps, nDice, s, [], Nobody, wit)
    requires forall rolls, c | Dice(nDice, rolls) && Visits(jumps, 1, rolls, c) :: 0 <= c < |s| && Within(s[c].shortest, |rolls|)
    requires forall c :: c in unreached <==> 1 <= c < |s| && s[c].shortest.Inf?
    ensures forall c :: c in unreached <==> 1 <= c < |s| && forall rolls | Dice(nDice, rolls) :: !Visits(jumps, 1, rolls, c)
    ensures forall c | 1 <= c < |s| && c !in unreached :: exists route :: FromStart(jumps, nDice, route, c)
  {
    forall c | 1 <= c < |s|
      ensures c in unreached <==> forall rolls | Dice(nDice, rolls) :: !Visits(jumps, 1, rolls, c)
    {
      Exact(jumps, nDice, s, wit, c);
    }
    forall c | 1 <= c < |s| && c !in unreached
      ensures exists route :: FromStart(jumps, nDice, route, c)
    {
      BackIsRoute(jumps, nDice, s, c);
    }
  }

  /** After the search, the answer read off the last square is the fewest
      rolls of any play passing it, or no solution when no play does. */
  lemma AnswerRolls(jumps: seq<int>, nDice: int, s: seq<SquareInfo>, wit: map<int, seq<int>>, nBoard: nat,
                    answer: Answer)
    requires Sound(jumps, nDice, s, [], wit) && |s| == nBoard + 1
    requires forall rolls, c | Dice(nDice, rolls) && Visits(jumps, 1, rolls, c) :: 0 <= c < |s| && Within(s[c].shortest, |rolls|)
    requires answer.Solution? <==> s[nBoard].shortest.Fin?
    requires answer.Solution? ==> answer.rolls == s[nBoard].shortest.n
    ensures answer.Solution? ==> exists rolls :: Dice(nDice, rolls) && |rolls| == answer.rolls && Visits(jumps, 1, rolls, nBoard)
    ensures forall rolls | Dice(nDice, rolls) && Visits(jumps, 1, rolls, nBoard) :: answer.Solution? && answer.rolls <= |rolls|
  {
    Exact(jumps, nDice, s, wit, nBoard);
  }

  /** After the search, the squares listed as unreachable are those no play
      passes, and every other square of the board has a route from the
      start. */
  lemma AnswerSquares(jumps: seq<int>, nDice: int, s: seq<SquareInfo>, wit: map<int, seq<int>>, nBoard: nat,
                      unreached: seq<int>)
    requires Steady(jumps, nDice, s, [], Nobody, wit) && |s| == nBoard + 1
    requires forall rolls, c | Dice(nDice, rolls) && Visits(jumps, 1, rolls, c) :: 0 <= c < |s| && Within(s[c].shortest, |rolls|)
    requires forall c :: c in unreached <==> 1 <= c < |s| && s[c].shortest.Inf?
    ensures forall c :: c in unreached <==> 1 <= c <= nBoard && forall rolls | Dice(nDice, rolls) :: !Visits(jumps, 1, rolls, c)
    ensures forall c | 1 <= c <= nBoard && c !in unreached :: exists route :: FromStart(jumps, nDice, route, c)
  {
    Reachability(jumps, nDice, s, wit, unreached);
  }

  /** One test case: build the jumps, search, print the answer and the path
      for the last square, then the unreachable squares.  The answer is the
      fewest rolls of any play reaching the last square, or no solution
      exactly when no play reaches it. */
  method Solve(nDice: int, nBoard: nat, ladders: seq<(int, int)>, snakes: seq<(int, int)>)
    returns (answer: Answer, unreached: seq<int>, out: string)
    requires 1 <= nBoard && PairsOnBoard(nBoard, ladders + snakes)
    requires Acyclic(JumpTable(nBoard, ladders + snakes))
    ensures var jumps := JumpTable(nBoard, ladders + snakes);
            answer.Solution? ==>
              FromStart(jumps, nDice, answer.path, nBoard) && Rolls(jumps, answer.path) <= answer.rolls &&
              exists rolls :: Dice(nDice, rolls) && |rolls| == answer.rolls && Visits(jumps, 1, rolls, nBoard)
    ensures var jumps := JumpTable(nBoard, ladders + snakes);
            forall rolls | Dice(nDice, rolls) && Visits(jumps, 1, rolls, nBoard) :: answer.Solution? && answer.rolls <= |rolls|
    ensures answer.NoSolution? <==> nBoard in unreached
    ensures var jumps := JumpTable(nBoard, ladders + snakes);
            forall c :: c in unreached <==> 1 <= c <= nBoard && forall rolls | Dice(nDice, rolls) :: !Visits(jumps, 1, rolls, c)
    ensures var jumps := JumpTable(nBoard, ladders + snakes);
            forall c | 1 <= c <= nBoard && c !in unreached :: exists route :: FromStart(jumps, nDice, route, c)
    ensures Increasing(unreached)
    ensures out == CaseText(answer, unreached)
  {
    var table := BuildJumps(nBoard, ladders, snakes);
    var jumps := table[..];
    var sq, wit := Search(jumps, nDice);
    if sq[nBoard].shortest.Fin? {
      var path := ShortestPath(sq, jumps, nDice, nBoard);
      var line := PrintPath(path);
      answer := Solution(sq[nBoard].shortest.n, path);
      out := Text.NatToString(sq[nBoard].shortest.n) + "\n" + line + "\n";
    } else {
      answer := NoSolution;
      out := "-1\nNo solution\n";
    }
    var line;
    unreached, line := Unreached(sq);
    out := out + line + "\n";
    AnswerRolls(jumps, nDice, sq[..], wit, nBoard, answer);
    AnswerSquares(jumps, nDice, sq[..], wit, nBoard, unreached);
  }
}
