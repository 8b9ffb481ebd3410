/** The state of the breadth-first search of assignment-6/main.cpp: the
    record kept for each square, the queue of states, and the invariants the
    search keeps, with the lemmas saying how one step of the search keeps
    them. */
module SnakeSearch {
  import opened SnakeBoard

  /** A roll count, or the source's inf for a square not reached yet. */
  datatype Cost = Inf | Fin(n: nat)

  predicate Less(a: Cost, b: Cost)
  {
    a.Fin? && (b.Inf? || a.n < b.n)
  }

  predicate AtMost(a: Cost, b: Cost)
  {
    b.Inf? || (a.Fin? && a.n <= b.n)
  }

  /** A count of at most n rolls. */
  predicate Within(a: Cost, n: int)
  {
    a.Fin? && a.n <= n
  }

  /** SquareInfo: the rolls of the best path found and the square before. */
  datatype SquareInfo = SquareInfo(shortest: Cost, prev: int)

  /** GameState: a queued square and the rolls it was reached with. */
  datatype GameState = GameState(rolls: nat, pos: int)

  // ---------------------------------------------------------------------
  // What the search keeps true

  /** Square 0 is never reached, square 1 is the start, and an unreached
      square still has no previous square. */
  ghost predicate Shape(jumps: seq<int>, s: seq<SquareInfo>)
  {
    |s| == |jumps| >= 2 &&
    s[0] == SquareInfo(Inf, 0) && s[1] == SquareInfo(Fin(0), 0) &&
    forall k | 0 <= k < |s| && s[k].shortest.Inf? :: s[k].prev == 0
  }

  /** A reached square other than the start was reached from a reached
      square: by a die move, with fewer rolls, or by a jump, with no more. */
  ghost predicate Linked(jumps: seq<int>, nDice: int, s: seq<SquareInfo>, k: int)
    requires |s| == |jumps| && 0 <= k < |s|
  {
    k != 1 && s[k].shortest.Fin? ==>
      var p := s[k].prev;
      1 <= p < |s| && p != k && s[p].shortest.Fin? &&
      ((p < k <= p + nDice && s[p].shortest.n < s[k].shortest.n) ||
       (jumps[p] == k && s[p].shortest.n <= s[k].shortest.n))
  }

  ghost predicate AllLinked(jumps: seq<int>, nDice: int, s: seq<SquareInfo>)
    requires |s| == |jumps|
  {
    forall k | 0 <= k < |s| :: Linked(jumps, nDice, s, k)
  }

  /** A queued state names a reached square with no fewer rolls than the
      square now has. */
  ghost predicate QueueOk(s: seq<SquareInfo>, queue: seq<GameState>)
  {
    forall e | e in queue :: 1 <= e.pos < |s| && Within(s[e.pos].shortest, e.rolls)
  }

  /** Every square of the chain of jumps from a reached square x (other than
      the start) has been reached with no more rolls than x. */
  ghost predicate ChainClosed(jumps: seq<int>, s: seq<SquareInfo>, x: int)
    requires JumpsOk(jumps) && Acyclic(jumps) && |s| == |jumps| && 0 <= x < |s|
  {
    x != 1 && s[x].shortest.Fin? ==>
      var c := ChainOf(jumps, x);
      forall j | 0 <= j < |c| :: AtMost(s[c[j]].shortest, s[x].shortest)
  }

  /** ChainClosed for every square outside ex. */
  ghost predicate ClosedChains(jumps: seq<int>, s: seq<SquareInfo>, ex: set<int>)
    requires JumpsOk(jumps) && Acyclic(jumps) && |s| == |jumps|
  {
    forall x | 0 <= x < |s| && x !in ex :: ChainClosed(jumps, s, x)
  }

  /** Every die move from p lands on a square reached within r + 1 rolls. */
  ghost predicate Closed(nDice: int, s: seq<SquareInfo>, p: int, r: int)
  {
    forall q | p < q <= p + nDice && 0 <= q < |s| :: Within(s[q].shortest, r + 1)
  }

  /** A square a player can stand on (the start, or one without a jump) is,
      once reached, still queued with its count or already expanded. */
  ghost predicate StandingAt(jumps: seq<int>, nDice: int, s: seq<SquareInfo>, queue: seq<GameState>, x: int)
    requires |s| == |jumps| && 0 <= x < |s|
  {
    (x == 1 || jumps[x] == 0) && s[x].shortest.Fin? ==>
      GameState(s[x].shortest.n, x) in queue || Closed(nDice, s, x, s[x].shortest.n)
  }

  /** StandingAt for every square, except the square of the state being
      expanded while it still has that state's count. */
  ghost predicate AllStanding(jumps: seq<int>, nDice: int, s: seq<SquareInfo>, queue: seq<GameState>, skip: GameState)
    requires |s| == |jumps|
  {
    forall x | 0 <= x < |s| && !(x == skip.pos && s[x].shortest == Fin(skip.rolls)) ::
      StandingAt(jumps, nDice, s, queue, x)
  }

  ghost predicate Searching(jumps: seq<int>, nDice: int, s: seq<SquareInfo>, queue: seq<GameState>,
                            skip: GameState, ex: set<int>)
  {
    JumpsOk(jumps) && Acyclic(jumps) && Shape(jumps, s) && AllLinked(jumps, nDice, s) &&
    QueueOk(s, queue) && ClosedChains(jumps, s, ex) && AllStanding(jumps, nDice, s, queue, skip)
  }

  /** No skipped square. */
  const Nobody := GameState(0, 0)

  // ---------------------------------------------------------------------
  // Progress: every recorded improvement lowers the squares' counts

  function InfCount(s: seq<SquareInfo>): nat
  {
    if |s| == 0 then 0 else InfCount(s[..|s| - 1]) + if s[|s| - 1].shortest.Inf? then 1 else 0
  }

  function FinSum(s: seq<SquareInfo>): nat
  {
    if |s| == 0 then 0 else FinSum(s[..|s| - 1]) + if s[|s| - 1].shortest.Fin? then s[|s| - 1].shortest.n else 0
  }

  /** The squares and queue (s, q) are no further from the end of the search
      than (s0, q0). */
  ghost predicate NoFurther(s: seq<SquareInfo>, q: seq<GameState>, s0: seq<SquareInfo>, q0: seq<GameState>)
  {
    InfCount(s) < InfCount(s0) || (InfCount(s) == InfCount(s0) && FinSum(s) + |q| <= FinSum(s0) + |q0|)
  }

  /** Improving one square reaches a square for the first time or lowers
      the sum of the counts. */
  lemma {:induction false} ImproveLowers(s: seq<SquareInfo>, k: int, info: SquareInfo)
    requires 0 <= k < |s| && Less(info.shortest, s[k].shortest)
    ensures InfCount(s[k := info]) < InfCount(s) ||
            (InfCount(s[k := info]) == InfCount(s) && FinSum(s[k := info]) < FinSum(s))
    decreases |s|
  {
    var t := s[k := info];
    if k == |s| - 1 {
      assert t[..|t| - 1] == s[..|s| - 1];
    } else {
      assert t[..|t| - 1] == s[..|s| - 1][k := info];
      ImproveLowers(s[..|s| - 1], k, info);
    }
  }

  // ---------------------------------------------------------------------
  // One recorded improvement

  /** Recording that square k is reached with v rolls from p, and queueing
      it when it is a square to stand on, keeps everything the search keeps,
      except that k joins the squares whose chain is still being followed. */
  lemma Improve(jumps: seq<int>, nDice: int, s: seq<SquareInfo>, queue: seq<GameState>, skip: GameState,
                ex: set<int>, k: int, v: nat, p: int, pushed: seq<GameState>)
    requires Searching(jumps, nDice, s, queue, skip, ex)
    requires 2 <= k < |s| && Less(Fin(v), s[k].shortest)
    requires Linked(jumps, nDice, s[k := SquareInfo(Fin(v), p)], k)
    requires pushed == [] || pushed == [GameState(v, k)]
    requires jumps[k] == 0 ==> pushed == [GameState(v, k)]
    ensures Searching(jumps, nDice, s[k := SquareInfo(Fin(v), p)], queue + pushed, skip, ex + {k})
  {
    var t := s[k := SquareInfo(Fin(v), p)];
    var queue' := queue + pushed;
    forall x | 0 <= x < |t|
      ensures Linked(jumps, nDice, t, x)
    {
      assert Linked(jumps, nDice, s, x);
    }
    forall e | e in queue'
      ensures 1 <= e.pos < |t| && Within(t[e.pos].shortest, e.rolls)
    {
      if e !in queue {
        assert e in pushed;
      }
    }
    forall x | 0 <= x < |t| && x !in ex + {k}
      ensures ChainClosed(jumps, t, x)
    {
      assert ChainClosed(jumps, s, x);
    }
    forall x | 0 <= x < |t| && !(x == skip.pos && t[x].shortest == Fin(skip.rolls))
      ensures StandingAt(jumps, nDice, t, queue', x)
    {
      if x == k {
        if jumps[k] == 0 {
          assert GameState(v, k) in pushed;
        }
      } else {
        assert StandingAt(jumps, nDice, s, queue, x);
        if s[x].shortest.Fin? && GameState(s[x].shortest.n, x) in queue {
          assert GameState(t[x].shortest.n, x) in queue';
        }
      }
    }
  }

  /** Squares whose chains have been followed through can leave ex. */
  lemma Settle(jumps: seq<int>, nDice: int, s: seq<SquareInfo>, queue: seq<GameState>, skip: GameState, ex: set<int>)
    requires Searching(jumps, nDice, s, queue, skip, ex)
    requires forall x | x in ex && 0 <= x < |s| :: ChainClosed(jumps, s, x)
    ensures Searching(jumps, nDice, s, queue, skip, {})
  {
  }

  /** Taking the front state off the queue: its square is skipped until its
      die moves have been tried. */
  lemma Pop(jumps: seq<int>, nDice: int, s: seq<SquareInfo>, st: GameState, queue: seq<GameState>)
    requires Searching(jumps, nDice, s, [st] + queue, Nobody, {})
    ensures Searching(jumps, nDice, s, queue, st, {})
    ensures 1 <= st.pos < |s| && Within(s[st.pos].shortest, st.rolls)
  {
    assert st in [st] + queue;
    forall x | 0 <= x < |s| && !(x == st.pos && s[x].shortest == Fin(st.rolls))
      ensures StandingAt(jumps, nDice, s, queue, x)
    {
      assert StandingAt(jumps, nDice, s, [st] + queue, x);
    }
    forall e | e in queue
      ensures 1 <= e.pos < |s| && Within(s[e.pos].shortest, e.rolls)
    {
      assert e in [st] + queue;
    }
  }

  /** Once every die move from the popped state's square is closed, that
      square need not be skipped. */
  lemma Unskip(jumps: seq<int>, nDice: int, s: seq<SquareInfo>, st: GameState, queue: seq<GameState>)
    requires Searching(jumps, nDice, s, queue, st, {})
    requires Closed(nDice, s, st.pos, st.rolls)
    ensures Searching(jumps, nDice, s, queue, Nobody, {})
  {
    forall x | 0 <= x < |s| && !(x == Nobody.pos && s[x].shortest == Fin(Nobody.rolls))
      ensures StandingAt(jumps, nDice, s, queue, x)
    {
      if !(x == st.pos && s[x].shortest == Fin(st.rolls)) {
        assert StandingAt(jumps, nDice, s, queue, x);
      }
    }
  }

  // ---------------------------------------------------------------------
  // Every count is achieved by a play

  /** A reached square x is passed by a play (wit[x]) of no more rolls than
      its count, one that ends on x when x is a square to stand on. */
  ghost predicate Witnessed(jumps: seq<int>, nDice: int, s: seq<SquareInfo>, wit: map<int, seq<int>>, x: int)
    requires JumpsOk(jumps) && Acyclic(jumps) && |s| == |jumps| && 0 <= x < |s|
  {
    s[x].shortest.Fin? ==>
      x in wit && Dice(nDice, wit[x]) && |wit[x]| <= s[x].shortest.n && Visits(jumps, 1, wit[x], x) &&
      ((x == 1 || jumps[x] == 0) ==> Final(jumps, 1, wit[x]) == x)
  }

  /** Every reached square is witnessed, and only squares to stand on are
      queued. */
  ghost predicate Sound(jumps: seq<int>, nDice: int, s: seq<SquareInfo>, queue: seq<GameState>, wit: map<int, seq<int>>)
  {
    JumpsOk(jumps) && Acyclic(jumps) && |s| == |jumps| &&
    (forall x | 0 <= x < |s| :: Witnessed(jumps, nDice, s, wit, x)) &&
    (forall e | e in queue :: 0 <= e.pos < |jumps| && (e.pos == 1 || jumps[e.pos] == 0))
  }

  /** The play w of at most v rolls passes every square of the chain from
      q and ends on its last square. */
  ghost predicate ChainPlay(jumps: seq<int>, nDice: int, q: int, w: seq<int>, v: nat)
    requires JumpsOk(jumps) && Acyclic(jumps) && 0 <= q < |jumps|
  {
    var c := ChainOf(jumps, q);
    Dice(nDice, w) && |w| <= v && Final(jumps, 1, w) == c[|c| - 1] &&
    forall j | 0 <= j < |c| :: Visits(jumps, 1, w, c[j])
  }

  /** The play of ChainPlay passes the chain's j-th square, and ends on it
      when that square has no jump. */
  lemma ChainPlayAt(jumps: seq<int>, nDice: int, q: int, w: seq<int>, v: nat, j: int)
    requires JumpsOk(jumps) && Acyclic(jumps) && 0 <= q < |jumps|
    requires ChainPlay(jumps, nDice, q, w, v) && 0 <= j < |ChainOf(jumps, q)|
    ensures Dice(nDice, w) && |w| <= v && Visits(jumps, 1, w, ChainOf(jumps, q)[j])
    ensures jumps[ChainOf(jumps, q)[j]] == 0 ==> Final(jumps, 1, w) == ChainOf(jumps, q)[j]
  {
    var c := ChainOf(jumps, q);
    if jumps[c[j]] == 0 {
      ChainEnd(jumps, q, j);
    }
  }

  /** The play w of at most v rolls passes k, and ends there if k is a
      square to stand on. */
  ghost predicate Reaches(jumps: seq<int>, nDice: int, w: seq<int>, k: int, v: nat)
    requires JumpsOk(jumps) && Acyclic(jumps) && 0 <= k < |jumps|
  {
    Dice(nDice, w) && |w| <= v && Visits(jumps, 1, w, k) &&
    ((k == 1 || jumps[k] == 0) ==> Final(jumps, 1, w) == k)
  }

  /** Recording that k is reached with v rolls keeps the search sound when a
      play w of at most v rolls passes k and ends on k if k is a square to
      stand on, and only a square to stand on is queued. */
  lemma SoundImprove(jumps: seq<int>, nDice: int, s: seq<SquareInfo>, queue: seq<GameState>, wit: map<int, seq<int>>,
                     k: int, v: nat, p: int, push: bool, w: seq<int>, t: seq<SquareInfo>, queue': seq<GameState>)
    requires Sound(jumps, nDice, s, queue, wit) && 0 <= k < |s|
    requires Reaches(jumps, nDice, w, k, v)
    requires push ==> 0 <= k < |jumps| && jumps[k] == 0
    requires t == s[k := SquareInfo(Fin(v), p)]
    requires queue' == queue + if push then [GameState(v, k)] else []
    ensures Sound(jumps, nDice, t, queue', wit[k := w])
  {
    var pushed := if push then [GameState(v, k)] else [];
    var wit' := wit[k := w];
    forall x | 0 <= x < |t|
      ensures Witnessed(jumps, nDice, t, wit', x)
    {
      assert Witnessed(jumps, nDice, s, wit, x);
    }
    forall e | e in queue'
      ensures 0 <= e.pos < |jumps| && (e.pos == 1 || jumps[e.pos] == 0)
    {
      if e !in queue {
        assert e in pushed;
      }
    }
  }

  /** Taking the front state off the queue keeps the search sound, and the
      state is on a square to stand on. */
  lemma SoundPop(jumps: seq<int>, nDice: int, s: seq<SquareInfo>, st: GameState, queue: seq<GameState>,
                 wit: map<int, seq<int>>)
    requires Sound(jumps, nDice, s, [st] + queue, wit)
    ensures Sound(jumps, nDice, s, queue, wit)
    ensures 0 <= st.pos < |jumps| && (st.pos == 1 || jumps[st.pos] == 0)
  {
    assert st in [st] + queue;
    forall e | e in queue
      ensures 0 <= e.pos < |jumps| && (e.pos == 1 || jumps[e.pos] == 0)
    {
      assert e in [st] + queue;
    }
  }

  // ---------------------------------------------------------------------
  // The search

  /** Every square of s is as in s0 or has been improved to v rolls. */
  ghost predicate Changes(s: seq<SquareInfo>, s0: seq<SquareInfo>, v: nat)
  {
    |s| == |s0| &&
    forall x | 0 <= x < |s| :: s[x] == s0[x] || (s[x].shortest == Fin(v) && Less(Fin(v), s0[x].shortest))
  }

  lemma ChangesTrans(s2: seq<SquareInfo>, s1: seq<SquareInfo>, s0: seq<SquareInfo>, v: nat)
    requires Changes(s2, s1, v) && Changes(s1, s0, v)
    ensures Changes(s2, s0, v)
  {
  }

  lemma NoFurtherTrans(s2: seq<SquareInfo>, q2: seq<GameState>, s1: seq<SquareInfo>, q1: seq<GameState>,
                       s0: seq<SquareInfo>, q0: seq<GameState>)
    requires NoFurther(s2, q2, s1, q1) && NoFurther(s1, q1, s0, q0)
    ensures NoFurther(s2, q2, s0, q0)
  {
  }

  /** The state of the walk along the chain from q after k jumps: the
      squares improved so far (at maps each to its place in the chain) are
      the ones whose chains are still open, and every square of the chain up
      to slot k has been reached within v = st.rolls + 1 rolls. */
  ghost predicate Following(jumps: seq<int>, nDice: int, s: seq<SquareInfo>, queue: seq<GameState>, st: GameState,
                            s0: seq<SquareInfo>, queue0: seq<GameState>, q: int, k: int, at: map<int, nat>)
  {
    JumpsOk(jumps) && Acyclic(jumps) && |s| == |jumps| && 2 <= q < |s| &&
    var c := ChainOf(jumps, q);
    var v := st.rolls + 1;
    0 <= k < |c| && 1 <= c[k] < |s| &&
    Searching(jumps, nDice, s, queue, st, at.Keys) &&
    (forall x | x in at :: at[x] <= k && c[at[x]] == x && 0 <= x < |s| && s[x].shortest == Fin(v)) &&
    (forall j | 0 <= j <= k :: AtMost(s[c[j]].shortest, Fin(v))) &&
    Changes(s, s0, v) && NoFurther(s, queue, s0, queue0)
  }

  lemma FollowStart(jumps: seq<int>, nDice: int, s: seq<SquareInfo>, queue: seq<GameState>, st: GameState, q: int)
    requires Searching(jumps, nDice, s, queue, st, {q})
    requires 2 <= q < |s| && s[q].shortest == Fin(st.rolls + 1)
    ensures Following(jumps, nDice, s, queue, st, s, queue, q, 0, map[q := 0])
  {
    assert map[q := 0].Keys == {q};
  }

  /** A jump to a square already reached within v rolls changes nothing. */
  lemma FollowSkip(jumps: seq<int>, nDice: int, s: seq<SquareInfo>, queue: seq<GameState>, st: GameState,
                   s0: seq<SquareInfo>, queue0: seq<GameState>, q: int, k: int, at: map<int, nat>)
    requires Following(jumps, nDice, s, queue, st, s0, queue0, q, k, at)
    requires jumps[ChainOf(jumps, q)[k]] != 0
    requires !Less(Fin(st.rolls + 1), s[jumps[ChainOf(jumps, q)[k]]].shortest)
    ensures k + 1 < |ChainOf(jumps, q)| && ChainOf(jumps, q)[k + 1] == jumps[ChainOf(jumps, q)[k]]
    ensures Following(jumps, nDice, s, queue, st, s0, queue0, q, k + 1, at)
  {
    var c := ChainOf(jumps, q);
    if k + 1 == |c| {
      assert false;
    }
    assert JumpsAt(jumps, c, k);
  }

  /** A jump that improves its destination records it, with the square
      jumped from, and queues it (pushed) at least when a player can stand
      there. */
  lemma FollowImprove(jumps: seq<int>, nDice: int, s: seq<SquareInfo>, queue: seq<GameState>, st: GameState,
                      s0: seq<SquareInfo>, queue0: seq<GameState>, q: int, k: int, at: map<int, nat>,
                      pushed: seq<GameState>)
    requires Following(jumps, nDice, s, queue, st, s0, queue0, q, k, at)
    requires jumps[ChainOf(jumps, q)[k]] != 0
    requires Less(Fin(st.rolls + 1), s[jumps[ChainOf(jumps, q)[k]]].shortest)
    requires pushed == [] || pushed == [GameState(st.rolls + 1, jumps[ChainOf(jumps, q)[k]])]
    requires jumps[jumps[ChainOf(jumps, q)[k]]] == 0 ==> pushed != []
    ensures k + 1 < |ChainOf(jumps, q)| && ChainOf(jumps, q)[k + 1] == jumps[ChainOf(jumps, q)[k]]
    ensures jumps[ChainOf(jumps, q)[k]] >= 2
    ensures var next := ChainOf(jumps, q)[k];
            var dest := jumps[next];
            var v := st.rolls + 1;
            Following(jumps, nDice, s[dest := SquareInfo(Fin(v), next)], queue + pushed, st,
                      s0, queue0, q, k + 1, at[dest := k + 1])
  {
    var c := ChainOf(jumps, q);
    var next := c[k];
    var dest := jumps[next];
    var v := st.rolls + 1;
    if k + 1 == |c| {
      assert false;
    }
    assert JumpsAt(jumps, c, k);
    var t := s[dest := SquareInfo(Fin(v), next)];
    var at' := at[dest := k + 1];
    assert Searching(jumps, nDice, t, queue + pushed, st, at'.Keys) by {
      NoSelfJump(jumps, next);
      Improve(jumps, nDice, s, queue, st, at.Keys, dest, v, next, pushed);
      assert at'.Keys == at.Keys + {dest};
    }
    assert NoFurther(t, queue + pushed, s0, queue0) by {
      ImproveLowers(s, dest, SquareInfo(Fin(v), next));
    }
    forall x | x in at'
      ensures at'[x] <= k + 1 && c[at'[x]] == x && 0 <= x < |t| && t[x].shortest == Fin(v)
    {
    }
    forall j | 0 <= j <= k + 1
      ensures AtMost(t[c[j]].shortest, Fin(v))
    {
    }
    assert Changes(t, s0, v);
  }

  /** At the end of the chain every improved square's chain is closed. */
  lemma FollowEnd(jumps: seq<int>, nDice: int, s: seq<SquareInfo>, queue: seq<GameState>, st: GameState,
                  s0: seq<SquareInfo>, queue0: seq<GameState>, q: int, k: int, at: map<int, nat>)
    requires Following(jumps, nDice, s, queue, st, s0, queue0, q, k, at)
    requires jumps[ChainOf(jumps, q)[k]] == 0
    ensures Searching(jumps, nDice, s, queue, st, {})
    ensures k == |ChainOf(jumps, q)| - 1
  {
    var c := ChainOf(jumps, q);
    assert JumpsAt(jumps, c, k);
    assert k == |c| - 1;
    forall x | x in at.Keys && 0 <= x < |s|
      ensures ChainClosed(jumps, s, x)
    {
      var j := at[x];
      ChainSuffix(jumps, q, j);
      var cx := ChainOf(jumps, x);
      forall i | 0 <= i < |cx|
        ensures AtMost(s[cx[i]].shortest, s[x].shortest)
      {
        assert cx[i] == c[j + i];
      }
    }
    Settle(jumps, nDice, s, queue, st, at.Keys);
  }

  /** A jump to a square without a jump ends the chain. */
  lemma ChainEnd(jumps: seq<int>, q: int, j: int)
    requires JumpsOk(jumps) && Acyclic(jumps) && 0 <= q < |jumps|
    requires 0 <= j < |ChainOf(jumps, q)| && jumps[ChainOf(jumps, q)[j]] == 0
    ensures j == |ChainOf(jumps, q)| - 1
  {
    assert JumpsAt(jumps, ChainOf(jumps, q), j);
  }
}
