/** The two-booth bank of assignment-3/bank.cpp.  Customers arrive with an
    arrival time and a service time; each booth serves one customer at a
    time and each has its own queue.  Time advances in ticks.  In each tick:
    every idle booth takes the front of its own queue, then any booth still
    idle takes the front of the other queue, then a customer at the rear of
    a queue two or more longer than the other moves to the other.  An
    arrival goes straight to an idle booth with an empty queue, else to the
    shorter queue.

    The input is a sequence of arrivals and the output the two booths'
    finishing times.  The pure part (BankState, Tick, Elapsed, Placed,
    Processed, Run) states what the simulation computes; the class Bank runs
    it on two array queues and two Booth objects, as the program does. */
module BankSimulation {
  import opened Outcomes
  import QueueSpec
  import ArrayQueues

  /** std::numeric_limits<int>::max(), the end of the last elapse. */
  const INT_MAX: int := 0x7fff_ffff

  /** A customer: its number, arrival time and service time. */
  datatype Customer = Customer(index: int, entryTime: int, serviceTime: int)

  /** A default-constructed Customer, which a booth holds before its first
      customer. */
  const NoCustomer: Customer := Customer(-1, -1, -1)

  /** One input line. */
  datatype Arrival = Arrival(time: int, serviceTime: int)

  datatype BoothState = BoothState(busyUntil: int, customer: Customer)

  /** is_busy: a booth is busy until the time its customer is done. */
  predicate Busy(b: BoothState, t: int)
  {
    t < b.busyUntil
  }

  /** serveCustomer: an idle booth takes the customer and is busy for the
      customer's service time. */
  function Serving(b: BoothState, t: int, c: Customer): (r: BoothState)
    requires !Busy(b, t)
    ensures r.customer == c && r.busyUntil - t == c.serviceTime
    ensures c.serviceTime > 0 <==> Busy(r, t)
  {
    BoothState(t + c.serviceTime, c)
  }

  /** The simulation: the clock, the two queues front first and the two
      booths. */
  datatype BankState = BankState(time: int, q0: seq<Customer>, q1: seq<Customer>, b0: BoothState, b1: BoothState)

  /** Before the first arrival: time 0, empty queues, idle booths. */
  const Initial: BankState := BankState(0, [], [], BoothState(0, NoCustomer), BoothState(0, NoCustomer))

  /** queues[i]. */
  function QueueOf(s: BankState, i: nat): seq<Customer>
    requires i < 2
  {
    if i == 0 then s.q0 else s.q1
  }

  /** booths[i]. */
  function BoothOf(s: BankState, i: nat): BoothState
    requires i < 2
  {
    if i == 0 then s.b0 else s.b1
  }

  function WithQueue(s: BankState, i: nat, q: seq<Customer>): (r: BankState)
    requires i < 2
    ensures QueueOf(r, i) == q && QueueOf(r, 1 - i) == QueueOf(s, 1 - i)
    ensures r.time == s.time && r.b0 == s.b0 && r.b1 == s.b1
  {
    if i == 0 then s.(q0 := q) else s.(q1 := q)
  }

  function WithBooth(s: BankState, i: nat, b: BoothState): (r: BankState)
    requires i < 2
    ensures BoothOf(r, i) == b && BoothOf(r, 1 - i) == BoothOf(s, 1 - i)
    ensures r.time == s.time && r.q0 == s.q0 && r.q1 == s.q1
  {
    if i == 0 then s.(b0 := b) else s.(b1 := b)
  }

  /** Every customer in a queue, queue 0 first. */
  function Waiting(s: BankState): seq<Customer>
  {
    s.q0 + s.q1
  }

  /** A state reached from another, with the customers handed to a booth
      on the way, in order. */
  datatype Moved = Moved(state: BankState, handed: seq<Customer>)

  /** Stretch m followed by stretch n. */
  function Then(m: Moved, n: Moved): Moved
  {
    Moved(n.state, m.handed + n.handed)
  }

  /** No customer is lost or made up on the way from s to r: those waiting
      in s and those that `arrived` are exactly those waiting in r and those
      handed to a booth. */
  predicate Conserves(s: BankState, arrived: multiset<Customer>, r: Moved)
  {
    multiset(Waiting(s)) + arrived == multiset(Waiting(r.state)) + multiset(r.handed)
  }

  /** Two stretches of the simulation one after the other. */
  lemma ConservesChain(s: BankState, a: multiset<Customer>, m: Moved, b: multiset<Customer>, n: Moved)
    requires Conserves(s, a, m) && Conserves(m.state, b, n)
    ensures Conserves(s, a + b, Then(m, n))
  {
    calc {
      multiset(Waiting(s)) + (a + b);
    ==
      (multiset(Waiting(s)) + a) + b;
    ==
      multiset(Waiting(m.state)) + b + multiset(m.handed);
    ==
      multiset(Waiting(n.state)) + (multiset(m.handed) + multiset(n.handed));
    ==
      multiset(Waiting(n.state)) + multiset(m.handed + n.handed);
    }
  }

  /** Booth i, if idle, takes the front of queue j. */
  function ServedFrom(s: BankState, i: nat, j: nat): (r: Moved)
    requires i < 2 && j < 2
    ensures r.state.time == s.time
    ensures r.handed == [] <==> Busy(BoothOf(s, i), s.time) || QueueOf(s, j) == []
    ensures r.handed == [] ==> r.state == s
    ensures r.handed != [] ==> r.handed == [QueueOf(s, j)[0]] && BoothOf(r.state, i).customer == QueueOf(s, j)[0]
  {
    if !Busy(BoothOf(s, i), s.time) && QueueOf(s, j) != [] then
      var (c, rest) := QueueSpec.Dequeue(QueueOf(s, j)).value;
      Moved(WithBooth(WithQueue(s, j, rest), i, Serving(BoothOf(s, i), s.time, c)), [c])
    else
      Moved(s, [])
  }

  /** A booth taking a customer moves it from its queue to the booth, and
      leaves the other queue as it was. */
  lemma ServedFromConserves(s: BankState, i: nat, j: nat)
    requires i < 2 && j < 2
    ensures Conserves(s, multiset{}, ServedFrom(s, i, j))
    ensures QueueOf(ServedFrom(s, i, j).state, 1 - j) == QueueOf(s, 1 - j)
  {
    var r := ServedFrom(s, i, j);
    if r.handed != [] {
      var q := QueueOf(s, j);
      assert q == r.handed + QueueOf(r.state, j);
      assert multiset(q) == multiset(r.handed) + multiset(QueueOf(r.state, j));
    }
  }

  /** queues[i ^ 1] when `other` is set, queues[i] otherwise. */
  function Partner(i: nat, other: bool): (j: nat)
    requires i < 2
    ensures j < 2 && (j == i <==> !other)
  {
    if other then 1 - i else i
  }

  /** The first k rounds of one of elapse's two for loops: booth i serves
      from its own queue, or from the other one when `other` is set. */
  function Round(s: BankState, k: nat, other: bool): (r: Moved)
    requires k <= 2
    ensures r.state.time == s.time
    decreases k
  {
    if k == 0 then Moved(s, [])
    else
      var m := Round(s, k - 1, other);
      Then(m, ServedFrom(m.state, k - 1, Partner(k - 1, other)))
  }

  lemma {:induction false} RoundConserves(s: BankState, k: nat, other: bool)
    requires k <= 2
    ensures Conserves(s, multiset{}, Round(s, k, other))
    decreases k
  {
    if k > 0 {
      var m := Round(s, k - 1, other);
      RoundConserves(s, k - 1, other);
      ServedFromConserves(m.state, k - 1, Partner(k - 1, other));
      ConservesChain(s, multiset{}, m, multiset{}, ServedFrom(m.state, k - 1, Partner(k - 1, other)));
    }
  }

  /** switchQueues: when one queue is at least two longer than the other,
      its rear customer moves to the rear of the other; otherwise nothing
      changes. */
  function Switch(s: BankState): (r: BankState)
    ensures r.time == s.time && r.b0 == s.b0 && r.b1 == s.b1
  {
    if |s.q0| + 1 < |s.q1| then
      var (c, rest) := QueueSpec.LeaveQueue(s.q1).value;
      s.(q0 := s.q0 + [c], q1 := rest)
    else if |s.q1| + 1 < |s.q0| then
      var (c, rest) := QueueSpec.LeaveQueue(s.q0).value;
      s.(q0 := rest, q1 := s.q1 + [c])
    else
      s
  }

  /** A switch keeps every waiting customer, changes nothing unless the
      lengths differ by two or more, and then moves the rear of the longer
      queue behind the shorter one, narrowing the gap by two without
      reversing it. */
  lemma SwitchBalances(s: BankState)
    ensures var r := Switch(s);
      multiset(Waiting(r)) == multiset(Waiting(s)) &&
      (-1 <= |s.q0| - |s.q1| <= 1 <==> r == s) &&
      (|s.q0| + 1 < |s.q1| ==>
         0 <= |r.q1| - |r.q0| == |s.q1| - |s.q0| - 2 &&
         r.q1 + [r.q0[|r.q0| - 1]] == s.q1 && r.q0[..|s.q0|] == s.q0) &&
      (|s.q1| + 1 < |s.q0| ==>
         0 <= |r.q0| - |r.q1| == |s.q0| - |s.q1| - 2 &&
         r.q0 + [r.q1[|r.q1| - 1]] == s.q0 && r.q1[..|s.q1|] == s.q1)
  {
    var r := Switch(s);
    if |s.q0| + 1 < |s.q1| {
      assert r.q0[..|s.q0|] == s.q0;
      assert s.q1 == r.q1 + [r.q0[|s.q0|]];
      assert multiset(s.q1) == multiset(r.q1) + multiset{r.q0[|s.q0|]};
    } else if |s.q1| + 1 < |s.q0| {
      assert r.q1[..|s.q1|] == s.q1;
      assert s.q0 == r.q0 + [r.q1[|s.q1|]];
      assert multiset(s.q0) == multiset(r.q0) + multiset{r.q1[|s.q1|]};
    }
  }

  /** One iteration of elapse's loop: the two serving loops, a switch, and
      the clock moves on by one. */
  function Ticked(s: BankState): (r: Moved)
    ensures r.state.time == s.time + 1
  {
    var own := Round(s, 2, false);
    var other := Round(own.state, 2, true);
    var switched := Switch(other.state);
    Moved(switched.(time := switched.time + 1), own.handed + other.handed)
  }

  lemma TickConserves(s: BankState)
    ensures Conserves(s, multiset{}, Ticked(s))
  {
    var own := Round(s, 2, false);
    var other := Round(own.state, 2, true);
    RoundConserves(s, 2, false);
    RoundConserves(own.state, 2, true);
    ConservesChain(s, multiset{}, own, multiset{}, other);
    SwitchBalances(other.state);
    assert Waiting(Ticked(s).state) == Waiting(Switch(other.state));
  }

  /** Nobody waits and both booths are idle. */
  predicate Quiet(s: BankState)
  {
    s.q0 == [] && s.q1 == [] && !Busy(s.b0, s.time) && !Busy(s.b1, s.time)
  }

  /** elapse(te): ticks until the clock reaches te, or earlier once the
      bank is quiet after a tick. */
  function Elapsed(s: BankState, te: int): (r: Moved)
    ensures s.time >= te ==> r == Moved(s, [])
    ensures s.time < te ==> s.time < r.state.time <= te && (r.state.time == te || Quiet(r.state))
    decreases te - s.time
  {
    if s.time >= te then Moved(s, [])
    else
      var m := Ticked(s);
      if Quiet(m.state) then m
      else
        Then(m, Elapsed(m.state, te))
  }

  /** Elapsing loses no customer, and stopping before te means every
      customer who was waiting has been handed to a booth. */
  lemma {:induction false} ElapsedConserves(s: BankState, te: int)
    ensures Conserves(s, multiset{}, Elapsed(s, te))
    ensures var r := Elapsed(s, te);
      s.time <= r.state.time < te ==> Waiting(r.state) == [] && multiset(r.handed) == multiset(Waiting(s))
    decreases te - s.time
  {
    if s.time < te {
      var m := Ticked(s);
      TickConserves(s);
      if !Quiet(m.state) {
        ElapsedConserves(m.state, te);
        ConservesChain(s, multiset{}, m, multiset{}, Elapsed(m.state, te));
      }
    }
    var r := Elapsed(s, te);
    if s.time <= r.state.time < te {
      assert Waiting(r.state) == [];
      calc {
        multiset(r.handed);
      ==
        multiset(Waiting(r.state)) + multiset(r.handed);
      ==
        multiset(Waiting(s)) + multiset{};
      ==
        multiset(Waiting(s));
      }
    }
  }

  /** Booth i can take an arrival at t directly: its queue is empty and it
      is idle at t. */
  predicate Free(s: BankState, i: nat, t: int)
    requires i < 2
  {
    QueueOf(s, i) == [] && !Busy(BoothOf(s, i), t)
  }

  /** The placement of an arrival at t: the first free booth serves it
      directly, otherwise it joins queue 0 if that one is strictly shorter,
      else queue 1. */
  function Placed(s: BankState, t: int, c: Customer): (r: Moved)
    ensures r.state.time == s.time
    ensures r.handed == [c] <==> Free(s, 0, t) || Free(s, 1, t)
    ensures r.handed == [] <==> !(Free(s, 0, t) || Free(s, 1, t))
  {
    if Free(s, 0, t) then Moved(s.(b0 := Serving(s.b0, t, c)), [c])
    else if Free(s, 1, t) then Moved(s.(b1 := Serving(s.b1, t, c)), [c])
    else if |s.q0| < |s.q1| then Moved(s.(q0 := s.q0 + [c]), [])
    else Moved(s.(q1 := s.q1 + [c]), [])
  }

  /** Where an arrival goes: to the first free booth, which starts serving
      it at t; otherwise to the rear of a queue no longer than the other,
      strictly shorter if it is queue 0, leaving the other queue and both
      booths as they were.  Either way it is not lost. */
  lemma PlacedWhere(s: BankState, t: int, c: Customer)
    ensures Conserves(s, multiset{c}, Placed(s, t, c))
    ensures var r := Placed(s, t, c).state;
      (Free(s, 0, t) ==> r == WithBooth(s, 0, Serving(s.b0, t, c))) &&
      (!Free(s, 0, t) && Free(s, 1, t) ==> r == WithBooth(s, 1, Serving(s.b1, t, c))) &&
      (!Free(s, 0, t) && !Free(s, 1, t) ==>
        r.b0 == s.b0 && r.b1 == s.b1 &&
        exists i :: 0 <= i < 2 && QueueOf(r, i) == QueueOf(s, i) + [c] && QueueOf(r, 1 - i) == QueueOf(s, 1 - i) &&
          |QueueOf(s, i)| <= |QueueOf(s, 1 - i)| && (i == 0 ==> |s.q0| < |s.q1|))
  {
    var r := Placed(s, t, c).state;
    if !Free(s, 0, t) && !Free(s, 1, t) {
      var i := if |s.q0| < |s.q1| then 0 else 1;
      assert QueueOf(r, i) == QueueOf(s, i) + [c];
      if i == 0 {
        assert Waiting(r) == s.q0 + ([c] + s.q1);
      } else {
        assert Waiting(r) == Waiting(s) + [c];
      }
    }
  }

  /** The customer an arrival becomes, numbered one past `count`. */
  function Admit(a: Arrival, count: int): (c: Customer)
    ensures c.index == count + 1 && c.entryTime == a.time && c.serviceTime == a.serviceTime
  {
    Customer(count + 1, a.time, a.serviceTime)
  }

  /** The customers a sequence of arrivals becomes: numbered in arrival
      order from count + 1 on. */
  function Customers(arrivals: seq<Arrival>, count: int): (cs: seq<Customer>)
    decreases |arrivals|
  {
    if arrivals == [] then []
    else
      var n := |arrivals| - 1;
      Customers(arrivals[..n], count) + [Admit(arrivals[n], count + n)]
  }

  /** Customers are numbered 1, 2, 3, ... in arrival order: the k-th
      arrival becomes customer count + k + 1 with its own times. */
  lemma {:induction false} CustomersNumbered(arrivals: seq<Arrival>, count: int)
    ensures |Customers(arrivals, count)| == |arrivals|
    ensures forall k :: 0 <= k < |arrivals| ==> Customers(arrivals, count)[k] == Customer(count + k + 1, arrivals[k].time, arrivals[k].serviceTime)
    decreases |arrivals|
  {
    if arrivals != [] {
      var n := |arrivals| - 1;
      CustomersNumbered(arrivals[..n], count);
    }
  }

  /** One arrival: elapse up to its time, then place the new customer. */
  function Arrived(s: BankState, a: Arrival, count: int): (r: Moved)
  {
    var e := Elapsed(s, a.time);
    Then(e, Placed(e.state, a.time, Admit(a, count)))
  }

  lemma ArrivedConserves(s: BankState, a: Arrival, count: int)
    ensures Conserves(s, multiset{Admit(a, count)}, Arrived(s, a, count))
  {
    var e := Elapsed(s, a.time);
    ElapsedConserves(s, a.time);
    PlacedWhere(e.state, a.time, Admit(a, count));
    ConservesChain(s, multiset{}, e, multiset{Admit(a, count)}, Placed(e.state, a.time, Admit(a, count)));
  }

  /** process's loop over the arrivals: `step` (the elapse and placement
      of one arrival) applied to each in turn, the k-th numbered
      count + k + 1. */
  function ProcessedBy(step: (BankState, Arrival, int) -> Moved, s: BankState, arrivals: seq<Arrival>, count: int): Moved
    decreases |arrivals|
  {
    if arrivals == [] then Moved(s, [])
    else
      var n := |arrivals| - 1;
      var m := ProcessedBy(step, s, arrivals[..n], count);
      Then(m, step(m.state, arrivals[n], count + n))
  }

  /** The loop of process over the arrivals. */
  function Processed(s: BankState, arrivals: seq<Arrival>, count: int): Moved
  {
    ProcessedBy(Arrived, s, arrivals, count)
  }

  /** One more arrival: the state after the first k + 1 arrivals is the
      state after the first k, with arrival k numbered count + k. */
  lemma ProcessedStep(s: BankState, arrivals: seq<Arrival>, count: int, k: int,
                      before: BankState, c: int, after: BankState)
    requires 0 <= k < |arrivals| && c == count + k
    requires before == Processed(s, arrivals[..k], count).state
    requires after == Arrived(before, arrivals[k], c).state
    ensures after == Processed(s, arrivals[..k + 1], count).state
  {
    assert arrivals[..k + 1][..k] == arrivals[..k];
    var m := ProcessedBy(Arrived, s, arrivals[..k], count);
    assert ProcessedBy(Arrived, s, arrivals[..k + 1], count) == Then(m, Arrived(m.state, arrivals[k], count + k));
  }

  /** A loop whose every step keeps the newly numbered customer and those
      already there keeps every customer that arrives. */
  lemma {:induction false} ProcessedByConserves(step: (BankState, Arrival, int) -> Moved, s: BankState, arrivals: seq<Arrival>, count: int)
    requires forall t, a, c :: Conserves(t, multiset{Admit(a, c)}, step(t, a, c))
    ensures Conserves(s, multiset(Customers(arrivals, count)), ProcessedBy(step, s, arrivals, count))
    decreases |arrivals|
  {
    if arrivals != [] {
      var n := |arrivals| - 1;
      var m := ProcessedBy(step, s, arrivals[..n], count);
      var r := step(m.state, arrivals[n], count + n);
      var before := multiset(Customers(arrivals[..n], count));
      var c := Admit(arrivals[n], count + n);
      ProcessedByConserves(step, s, arrivals[..n], count);
      ConservesChain(s, before, m, multiset{c}, r);
      CustomersSnoc(arrivals, count);
      ProcessedBySnoc(step, s, arrivals, count);
      ConservesSame(s, before + multiset{c}, multiset(Customers(arrivals, count)), Then(m, r), ProcessedBy(step, s, arrivals, count));
    }
  }

  lemma CustomersSnoc(arrivals: seq<Arrival>, count: int)
    requires arrivals != []
    ensures var n := |arrivals| - 1;
      multiset(Customers(arrivals, count)) == multiset(Customers(arrivals[..n], count)) + multiset{Admit(arrivals[n], count + n)}
  {
    var n := |arrivals| - 1;
    var cs := Customers(arrivals[..n], count);
    var c := Admit(arrivals[n], count + n);
    assert Customers(arrivals, count) == cs + [c];
    assert multiset(cs + [c]) == multiset(cs) + multiset([c]);
  }

  lemma ProcessedBySnoc(step: (BankState, Arrival, int) -> Moved, s: BankState, arrivals: seq<Arrival>, count: int)
    requires arrivals != []
    ensures var n := |arrivals| - 1;
      var m := ProcessedBy(step, s, arrivals[..n], count);
      ProcessedBy(step, s, arrivals, count) == Then(m, step(m.state, arrivals[n], count + n))
  {
  }

  lemma ConservesSame(s: BankState, arrived: multiset<Customer>, arrived': multiset<Customer>, r: Moved, r': Moved)
    requires Conserves(s, arrived, r) && arrived == arrived' && r == r'
    ensures Conserves(s, arrived', r')
  {
  }

  /** Every customer that arrives is still waiting or has been handed to a
      booth. */
  lemma ProcessedConserves(s: BankState, arrivals: seq<Arrival>, count: int)
    ensures Conserves(s, multiset(Customers(arrivals, count)), Processed(s, arrivals, count))
  {
    forall t, a, c ensures Conserves(t, multiset{Admit(a, c)}, Arrived(t, a, c)) {
      ArrivedConserves(t, a, c);
    }
    ProcessedByConserves(Arrived, s, arrivals, count);
  }

  /** The whole program on a fresh bank: the arrivals, then an elapse to
      INT_MAX. */
  function Run(arrivals: seq<Arrival>): (r: Moved)
  {
    var p := Processed(Initial, arrivals, 0);
    Then(p, Elapsed(p.state, INT_MAX))
  }

  /** No customer is lost: each one is still waiting or was handed to a
      booth, and when the clock stops short of INT_MAX every customer was
      handed to a booth. */
  lemma RunLosesNoCustomer(arrivals: seq<Arrival>)
    ensures var r := Run(arrivals);
      multiset(Customers(arrivals, 0)) == multiset(Waiting(r.state)) + multiset(r.handed) &&
      (r.state.time < INT_MAX ==> Waiting(r.state) == [] && multiset(r.handed) == multiset(Customers(arrivals, 0)))
  {
    var p := Processed(Initial, arrivals, 0);
    ProcessedConserves(Initial, arrivals, 0);
    ElapsedConserves(p.state, INT_MAX);
    ConservesChain(Initial, multiset(Customers(arrivals, 0)), p, multiset{}, Elapsed(p.state, INT_MAX));
  }

  /** The two numbers the program prints: when each booth finishes. */
  function Finishing(arrivals: seq<Arrival>): (int, int)
  {
    var r := Run(arrivals).state;
    (r.b0.busyUntil, r.b1.busyUntil)
  }

  class Booth {
    var busyUntil: int
    var customer: Customer

    constructor ()
      ensures State() == BoothState(0, NoCustomer)
    {
      busyUntil, customer := 0, NoCustomer;
    }

    function State(): BoothState
      reads this
    {
      BoothState(busyUntil, customer)
    }

    function IsBusy(t: int): (r: bool)
      reads this
      ensures r <==> Busy(State(), t)
    {
      t < busyUntil
    }

    /** serveCustomer; the source asserts the booth is idle. */
    method ServeCustomer(t: int, c: Customer)
      requires !IsBusy(t)
      modifies this
      ensures State() == Serving(old(State()), t, c)
    {
      customer := c;
      busyUntil := t + c.serviceTime;
    }
  }

  class Bank {
    var time: int
    /** Customer::count, the number of customers created so far. */
    var count: int
    const q0: ArrayQueues.ArrayQueue<Customer>
    const q1: ArrayQueues.ArrayQueue<Customer>
    const b0: Booth
    const b1: Booth

    ghost predicate Valid()
      reads this, q0, q1
    {
      q0.Valid() && q1.Valid() && q0 != q1 && q0.data != q1.data && q0.owns && q1.owns && b0 != b1
    }

    ghost function State(): BankState
      requires Valid()
      reads this, q0, q0.data, q1, q1.data, b0, b1
    {
      BankState(time, q0.Elements(), q1.Elements(), b0.State(), b1.State())
    }

    function QueueAt(i: nat): ArrayQueues.ArrayQueue<Customer>
      requires i < 2
    {
      if i == 0 then q0 else q1
    }

    function BoothAt(i: nat): Booth
      requires i < 2
    {
      if i == 0 then b0 else b1
    }

    /** A bank at time 0 with empty queues of the default capacity and idle
        booths. */
    constructor ()
      ensures Valid() && State() == Initial && count == 0
      ensures fresh(q0) && fresh(q0.data) && fresh(q1) && fresh(q1.data) && fresh(b0) && fresh(b1)
    {
      q0 := new ArrayQueues.ArrayQueue(ArrayQueues.DEFAULT_CAPACITY, NoCustomer);
      q1 := new ArrayQueues.ArrayQueue(ArrayQueues.DEFAULT_CAPACITY, NoCustomer);
      b0 := new Booth();
      b1 := new Booth();
      time, count := 0, 0;
    }

    /** Booth i, if idle, takes the front of queue j. */
    method ServeFrom(i: nat, j: nat)
      requires Valid() && i < 2 && j < 2
      modifies QueueAt(j), BoothAt(i)
      ensures Valid() && q0.data == old(q0.data) && q1.data == old(q1.data)
      ensures State() == ServedFrom(old(State()), i, j).state
    {
      var b := BoothAt(i);
      var q := QueueAt(j);
      if !b.IsBusy(time) && q.Length() > 0 {
        var c := q.Dequeue();
        b.ServeCustomer(time, c.value);
      }
    }

    /** One of elapse's two for loops. */
    method ServeRound(other: bool)
      requires Valid()
      modifies q0, q1, b0, b1
      ensures Valid() && q0.data == old(q0.data) && q1.data == old(q1.data)
      ensures State() == Round(old(State()), 2, other).state
    {
      for i := 0 to 2
        invariant Valid() && q0.data == old(q0.data) && q1.data == old(q1.data)
        invariant State() == Round(old(State()), i, other).state
      {
        ServeFrom(i, Partner(i, other));
      }
    }

    /** switchQueues: the rear of the longer queue moves to the other when
        they differ by two or more. */
    method SwitchQueues()
      requires Valid()
      modifies q0, q0.data, q1, q1.data
      ensures Valid() && State() == Switch(old(State()))
      ensures (q0.data == old(q0.data) || fresh(q0.data)) && (q1.data == old(q1.data) || fresh(q1.data))
    {
      if q0.Length() + 1 < q1.Length() {
        Move(q1, q0);
      } else if q1.Length() + 1 < q0.Length() {
        Move(q0, q1);
      }
    }

    /** One iteration of elapse's loop. */
    method Tick()
      requires Valid()
      modifies this, q0, q0.data, q1, q1.data, b0, b1
      ensures Valid() && State() == Ticked(old(State())).state && count == old(count)
      ensures (q0.data == old(q0.data) || fresh(q0.data)) && (q1.data == old(q1.data) || fresh(q1.data))
    {
      ServeRound(false);
      ServeRound(true);
      SwitchQueues();
      time := time + 1;
    }

    /** elapse: ticks until te, or until the bank is quiet after a tick. */
    method Elapse(te: int)
      requires Valid()
      modifies this, q0, q0.data, q1, q1.data, b0, b1
      ensures Valid() && State() == Elapsed(old(State()), te).state && count == old(count)
      ensures (q0.data == old(q0.data) || fresh(q0.data)) && (q1.data == old(q1.data) || fresh(q1.data))
    {
      while time < te
        invariant Valid() && Elapsed(State(), te).state == Elapsed(old(State()), te).state && count == old(count)
        invariant (q0.data == old(q0.data) || fresh(q0.data)) && (q1.data == old(q1.data) || fresh(q1.data))
        decreases te - time
      {
        Tick();
        if q0.Length() == 0 && q1.Length() == 0 && !b0.IsBusy(time) && !b1.IsBusy(time) {
          break;
        }
      }
    }

    /** The placement part of process: the for loop looks for a free booth
        in order and stops at the first; without one, the customer joins
        the shorter queue. */
    method Place(t: int, c: Customer)
      requires Valid()
      modifies q0, q0.data, q1, q1.data, b0, b1
      ensures Valid() && State() == Placed(old(State()), t, c).state
      ensures (q0.data == old(q0.data) || fresh(q0.data)) && (q1.data == old(q1.data) || fresh(q1.data))
    {
      ghost var s0 := State();
      var served := false;
      for i := 0 to 2
        invariant Valid() && !served && State() == s0
        invariant i >= 1 ==> !Free(s0, 0, t)
        invariant i == 2 ==> !Free(s0, 1, t)
      {
        if QueueAt(i).Length() == 0 && !BoothAt(i).IsBusy(t) {
          BoothAt(i).ServeCustomer(t, c);
          served := true;
          break;
        }
      }
      if !served {
        if q0.Length() < q1.Length() {
          var _ := q0.Enqueue(c);
        } else {
          var _ := q1.Enqueue(c);
        }
      }
    }

    /** One round of process's loop: elapse to the arrival, create the
        customer with the next number, place it. */
    method Arrive(a: Arrival)
      requires Valid()
      modifies this, q0, q0.data, q1, q1.data, b0, b1
      ensures Valid() && State() == Arrived(old(State()), a, old(count)).state && count == old(count) + 1
      ensures (q0.data == old(q0.data) || fresh(q0.data)) && (q1.data == old(q1.data) || fresh(q1.data))
    {
      Elapse(a.time);
      count := count + 1;
      var c := Customer(count, a.time, a.serviceTime);
      Place(a.time, c);
    }

    /** process: every arrival in turn, then an elapse to INT_MAX; the
        results are the booths' finishing times. */
    method Process(arrivals: seq<Arrival>) returns (finish0: int, finish1: int)
      requires Valid()
      modifies this, q0, q0.data, q1, q1.data, b0, b1
      ensures Valid() && count == old(count) + |arrivals|
      ensures var p := Processed(old(State()), arrivals, old(count)).state;
        State() == Elapsed(p, INT_MAX).state && (finish0, finish1) == (State().b0.busyUntil, State().b1.busyUntil)
    {
      ghost var s0, c0 := State(), count;
      for k := 0 to |arrivals|
        invariant Valid() && count == c0 + k
        invariant State() == Processed(s0, arrivals[..k], c0).state
        invariant (q0.data == old(q0.data) || fresh(q0.data)) && (q1.data == old(q1.data) || fresh(q1.data))
      {
        ghost var before := State();
        ghost var c := count;
        Arrive(arrivals[k]);
        ProcessedStep(s0, arrivals, c0, k, before, c, State());
      }
      assert arrivals[..|arrivals|] == arrivals;
      Elapse(INT_MAX);
      finish0, finish1 := b0.busyUntil, b1.busyUntil;
    }
  }

  /** A fresh bank run on the arrivals prints Finishing(arrivals). */
  method RunBank(arrivals: seq<Arrival>) returns (finish0: int, finish1: int)
    ensures (finish0, finish1) == Finishing(arrivals)
  {
    var bank := new Bank();
    finish0, finish1 := bank.Process(arrivals);
  }

  /** queues[to].enqueue(queues[from].leaveQueue()). */
  method Move(from: ArrayQueues.ArrayQueue<Customer>, to: ArrayQueues.ArrayQueue<Customer>)
    requires from.Valid() && to.Valid() && from != to && from.data != to.data && to.owns && from.length > 0
    modifies from, to, to.data
    ensures from.Valid() && to.Valid() && from.data == old(from.data) && from.owns == old(from.owns) && to.owns
    ensures to.data == old(to.data) || fresh(to.data)
    ensures QueueSpec.LeaveQueue(old(from.Elements())).Ok?
    ensures var (c, rest) := QueueSpec.LeaveQueue(old(from.Elements())).value;
      from.Elements() == rest && to.Elements() == old(to.Elements()) + [c]
  {
    var c := from.LeaveQueue();
    var _ := to.Enqueue(c.value);
  }
}
