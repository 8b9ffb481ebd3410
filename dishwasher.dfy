/** The dishwasher simulation of assignment-2/dishwasher.cpp.  Diners put
    their dirty dishes on a dirty stack; a single washer takes the top dirty
    dish, washes it for as many time units as the dish's size, and puts it on
    a clean stack with its time overwritten by the time washing ended.
    Washing a dish starts when the previous one is finished or when the dish
    was put down, whichever is later.

    The input lines are a sequence of meals; the printed lines are a string.
    The pure part (Washer, CleanDish, CleanBefore, CleanAll, Served, Output)
    states what the simulation computes; DishwasherSimulator runs it on two
    array stacks, as the program does. */
module Dishwasher {
  import opened Outcomes
  import StackSpec
  import Text
  import opened ArrayStacks

  /** std::numeric_limits<int>::min(). */
  const INT_MIN: int := -0x8000_0000

  datatype Dish = Dish(timePushed: int, size: int)

  /** One input line: diner `diner` finished course `course` at `time`. */
  datatype Meal = Meal(diner: int, time: int, course: int)

  /** The two stacks, bottom first. */
  datatype Washer = Washer(dirty: seq<Dish>, clean: seq<Dish>)

  /** std::max: the second argument when the first is smaller. */
  function Max(a: int, b: int): (r: int)
    ensures r >= a && r >= b && (r == a || r == b)
  {
    if a < b then b else a
  }

  /** When washing `d` starts, given the clean stack: one unit after the
      last clean dish was finished, or when `d` was put down, whichever is
      later. */
  function StartTime(clean: seq<Dish>, d: Dish): (r: int)
    ensures r >= d.timePushed
    ensures clean != [] ==> r > clean[|clean| - 1].timePushed
    ensures r == d.timePushed || (clean != [] && r == clean[|clean| - 1].timePushed + 1) || (clean == [] && r == INT_MIN)
  {
    Max(if clean != [] then clean[|clean| - 1].timePushed + 1 else INT_MIN, d.timePushed)
  }

  /** The dish once washed: its time is the time washing it ended. */
  function Washed(clean: seq<Dish>, d: Dish): Dish
  {
    Dish(StartTime(clean, d) + d.size - 1, d.size)
  }

  /** cleanDish: the top dirty dish is washed and moved to the clean stack. */
  function CleanedTop(w: Washer): Washer
    requires w.dirty != []
  {
    var top := w.dirty[|w.dirty| - 1];
    Washer(w.dirty[..|w.dirty| - 1], w.clean + [Washed(w.clean, top)])
  }

  /** Overwriting the top through topValue and then popping gives the new
      value and the stack below. */
  lemma SetThenPop<T>(s: seq<T>, x: T)
    requires s != []
    ensures StackSpec.Pop(s[|s| - 1 := x]) == Ok((x, s[..|s| - 1]))
  {
    assert s[|s| - 1 := x][..|s| - 1] == s[..|s| - 1];
  }

  /** Clean-stack times strictly increase from the bottom to the top. */
  predicate Increasing(clean: seq<Dish>)
  {
    forall i, j :: 0 <= i < j < |clean| ==> clean[i].timePushed < clean[j].timePushed
  }

  /** Every dish takes at least one unit to wash. */
  predicate Sized(dishes: seq<Dish>)
  {
    forall i :: 0 <= i < |dishes| ==> dishes[i].size >= 1
  }

  /** cleanDish moves the top dirty dish onto the clean stack; the washed
      dish ends no earlier than it was put down plus its size, and when
      something was clean, at least its size after the previous clean
      dish.  With sizes of at least 1 the clean times keep increasing. */
  lemma CleanedTopMoves(w: Washer)
    requires w.dirty != []
    ensures var r := CleanedTop(w); var top := w.dirty[|w.dirty| - 1];
      w.dirty == r.dirty + [top] && r.clean[..|w.clean|] == w.clean &&
      |r.clean| == |w.clean| + 1 && r.clean[|w.clean|].size == top.size &&
      r.clean[|w.clean|].timePushed >= top.timePushed + top.size - 1 &&
      (w.clean != [] ==> r.clean[|w.clean|].timePushed >= w.clean[|w.clean| - 1].timePushed + top.size)
    ensures Increasing(w.clean) && Sized(w.dirty) ==> Increasing(CleanedTop(w).clean) && Sized(CleanedTop(w).dirty)
  {
    var r := CleanedTop(w);
    assert r.clean[..|w.clean|] == w.clean;
  }

  /** The washer may take another dish before a dish arriving at t is put
      down: there is a dirty dish, and nothing is clean or the last clean
      dish was finished before t. */
  predicate MayClean(w: Washer, t: int)
  {
    w.dirty != [] && (w.clean == [] || w.clean[|w.clean| - 1].timePushed < t)
  }

  /** The cleaning loop before a dish arriving at t is put down: dishes are
      washed only while MayClean holds, and it no longer holds at the end.
      Only the top of the dirty stack is taken away and only the top of the
      clean stack grows. */
  function CleanedBefore(w: Washer, t: int): (r: Washer)
    ensures !MayClean(r, t)
    ensures !MayClean(w, t) ==> r == w
    ensures |r.dirty| <= |w.dirty| && r.dirty == w.dirty[..|r.dirty|]
    ensures |w.clean| <= |r.clean| && r.clean[..|w.clean|] == w.clean
    ensures |r.dirty| + |r.clean| == |w.dirty| + |w.clean|
    decreases |w.dirty|
  {
    if MayClean(w, t) then CleanedBefore(CleanedTop(w), t) else w
  }

  /** The cleaning loop keeps the clean times increasing. */
  lemma {:induction false} CleanedBeforeKeepsOrder(w: Washer, t: int)
    requires Increasing(w.clean) && Sized(w.dirty)
    ensures Increasing(CleanedBefore(w, t).clean) && Sized(CleanedBefore(w, t).dirty)
    decreases |w.dirty|
  {
    if MayClean(w, t) {
      CleanedTopMoves(w);
      CleanedBeforeKeepsOrder(CleanedTop(w), t);
    }
  }

  /** The loop after the input ends: every dirty dish is washed. */
  function CleanedAll(w: Washer): (r: Washer)
    ensures r.dirty == []
    ensures |r.clean| == |w.dirty| + |w.clean| && r.clean[..|w.clean|] == w.clean
    decreases |w.dirty|
  {
    if w.dirty == [] then w else CleanedAll(CleanedTop(w))
  }

  lemma {:induction false} CleanedAllKeepsOrder(w: Washer)
    requires Increasing(w.clean) && Sized(w.dirty)
    ensures Increasing(CleanedAll(w).clean)
    decreases |w.dirty|
  {
    if w.dirty != [] {
      CleanedTopMoves(w);
      CleanedAllKeepsOrder(CleanedTop(w));
    }
  }

  /** Every meal's course is one of the x courses and every diner id is
      non-zero (a zero id ends the input). */
  predicate ValidMeals(meals: seq<Meal>, a: seq<int>)
  {
    forall i :: 0 <= i < |meals| ==> 1 <= meals[i].course <= |a| && meals[i].diner != 0
  }

  /** One input line: the cleaning loop runs, then the dish of the course
      eaten is put on the dirty stack with the time it was put down. */
  function Arrived(w: Washer, m: Meal, a: seq<int>): Washer
    requires 1 <= m.course <= |a|
  {
    var c := CleanedBefore(w, m.time);
    Washer(c.dirty + [Dish(m.time, a[m.course - 1])], c.clean)
  }

  /** The stacks after the given input lines. */
  function Served(meals: seq<Meal>, a: seq<int>): Washer
    requires ValidMeals(meals, a)
  {
    if meals == [] then Washer([], [])
    else Arrived(Served(meals[..|meals| - 1], a), meals[|meals| - 1], a)
  }

  /** Every dish put down is on one of the two stacks; with positive dish
      sizes the clean times increase and the dirty dishes are all sized. */
  lemma {:induction false} ServedCount(meals: seq<Meal>, a: seq<int>)
    requires ValidMeals(meals, a)
    ensures |Served(meals, a).dirty| + |Served(meals, a).clean| == |meals|
    ensures (forall i :: 0 <= i < |a| ==> a[i] >= 1) ==>
      Increasing(Served(meals, a).clean) && Sized(Served(meals, a).dirty)
  {
    if meals != [] {
      var init := meals[..|meals| - 1];
      ServedCount(init, a);
      var w := Served(init, a);
      if forall i :: 0 <= i < |a| ==> a[i] >= 1 {
        CleanedBeforeKeepsOrder(w, meals[|meals| - 1].time);
      }
    }
  }

  /** The ids of the diners who ate the last course, in input order. */
  function FullCourse(meals: seq<Meal>, x: int): (r: seq<int>)
    ensures |r| <= |meals|
  {
    if meals == [] then []
    else FullCourse(meals[..|meals| - 1], x) + (if meals[|meals| - 1].course == x then [meals[|meals| - 1].diner] else [])
  }

  /** An id is listed exactly when some input line has that diner eating
      course x. */
  lemma {:induction false} FullCourseMembers(meals: seq<Meal>, x: int, d: int)
    ensures d in FullCourse(meals, x) <==> exists j :: 0 <= j < |meals| && meals[j].course == x && meals[j].diner == d
  {
    if meals != [] {
      var init, m := meals[..|meals| - 1], meals[|meals| - 1];
      FullCourseMembers(init, x, d);
      if exists j :: 0 <= j < |meals| && meals[j].course == x && meals[j].diner == d {
        var j :| 0 <= j < |meals| && meals[j].course == x && meals[j].diner == d;
        if j < |init| {
          assert init[j] == meals[j];
        }
      }
      if exists j :: 0 <= j < |init| && init[j].course == x && init[j].diner == d {
        var j :| 0 <= j < |init| && init[j].course == x && init[j].diner == d;
        assert meals[j] == init[j];
      }
    }
  }

  /** How a clean dish prints: its time. */
  function TimeShown(d: Dish): string
  {
    Text.IntToString(d.timePushed)
  }

  /** Everything simulate prints once every dish is washed: the time the
      last dish was finished, the clean times bottom first, 'Y' exactly when
      as many diners ate the last course as there are diners, and their ids
      in the order their stack pops them. */
  function Report(w: Washer, eaters: seq<int>, n: int): string
    requires w.clean != []
  {
    Text.IntToString(w.clean[|w.clean| - 1].timePushed) + "\n" +
    Text.Join(StackSpec.Shown(w.clean, TimeShown), ",") + "\n" +
    [if |eaters| == n then 'Y' else 'N'] + "\n" +
    Text.Join(StackSpec.Shown(StackSpec.Reversed(eaters), Text.IntToString), ",") + "\n"
  }

  /** What simulate prints for the given input; with no dish at all,
      reading the top of the empty clean stack fails. */
  function Output(meals: seq<Meal>, a: seq<int>, n: int, x: int): Result<string>
    requires ValidMeals(meals, a)
  {
    var w := CleanedAll(Served(meals, a));
    if w.clean == [] then Err(EmptyContainer) else Ok(Report(w, FullCourse(meals, x), n))
  }

  /** The simulation fails exactly when there is no input line. */
  lemma OutputFails(meals: seq<Meal>, a: seq<int>, n: int, x: int)
    requires ValidMeals(meals, a)
    ensures Output(meals, a, n, x).Err? <==> meals == []
  {
    ServedCount(meals, a);
    var s := Served(meals, a);
    assert |CleanedAll(s).clean| == |meals|;
  }

  /** Otherwise every dish is washed, and with positive sizes the first
      number printed, the time the last dish was finished, is the latest
      finishing time. */
  lemma OutputLast(meals: seq<Meal>, a: seq<int>)
    requires ValidMeals(meals, a) && meals != []
    requires forall i :: 0 <= i < |a| ==> a[i] >= 1
    ensures var w := CleanedAll(Served(meals, a));
      |w.clean| == |meals| && w.dirty == [] &&
      forall i :: 0 <= i < |w.clean| ==> w.clean[i].timePushed <= w.clean[|w.clean| - 1].timePushed
  {
    ServedCount(meals, a);
    var s := Served(meals, a);
    CleanedAllKeepsOrder(s);
    var w := CleanedAll(s);
    forall i | 0 <= i < |w.clean| - 1
      ensures w.clean[i].timePushed < w.clean[|w.clean| - 1].timePushed
    {
      IncreasingAt(w.clean, i, |w.clean| - 1);
    }
  }

  lemma IncreasingAt(clean: seq<Dish>, i: int, j: int)
    requires Increasing(clean) && 0 <= i < j < |clean|
    ensures clean[i].timePushed < clean[j].timePushed
  {
  }

  /** The ARRAY2STACK layout: two stacks on one buffer of `capacity` slots,
      one growing up from slot 0 with a elements and one growing down from
      the last slot with b elements, use disjoint slots exactly when
      a + b <= capacity. */
  lemma SharedBufferDisjoint(a: nat, b: nat, capacity: nat)
    requires a <= capacity && b <= capacity
    ensures (forall i, j :: 0 <= i < a && 0 <= j < b ==> Slot(i, 1, capacity) != Slot(j, -1, capacity)) <==> a + b <= capacity
  {
    if a + b > capacity {
      assert Slot(a - 1, 1, capacity) == Slot(capacity - a, -1, capacity);
    }
  }

  /** With at most n*x input lines the dirty and clean stacks of the
      ARRAY2STACK mode, sharing a buffer of n*x dishes, never use the same
      slot. */
  lemma SharedBufferSuffices(meals: seq<Meal>, a: seq<int>, n: nat, x: nat)
    requires ValidMeals(meals, a) && |meals| <= n * x
    ensures var w := Served(meals, a);
      forall i, j :: 0 <= i < |w.clean| && 0 <= j < |w.dirty| ==> Slot(i, 1, n * x) != Slot(j, -1, n * x)
  {
    ServedCount(meals, a);
    var w := Served(meals, a);
    SharedBufferDisjoint(|w.clean|, |w.dirty|, n * x);
  }

  /** The simulator: the dirty and the clean stack, each owning its
      buffer, the number n of diners and the number x of courses. */
  class DishwasherSimulator {
    const dirtyStack: ArrayStack<Dish>
    const cleanStack: ArrayStack<Dish>
    const n: int
    const x: int

    ghost predicate Valid()
      reads this, dirtyStack, cleanStack, dirtyStack.data, cleanStack.data
    {
      dirtyStack.Valid() && cleanStack.Valid() && dirtyStack != cleanStack &&
      dirtyStack.data != cleanStack.data && dirtyStack.owns && cleanStack.owns
    }

    ghost function State(): Washer
      requires Valid()
      reads this, dirtyStack, cleanStack, dirtyStack.data, cleanStack.data
    {
      Washer(dirtyStack.Elements(), cleanStack.Elements())
    }

    /** The constructor takes over the two stacks. */
    constructor (dirty: ArrayStack<Dish>, clean: ArrayStack<Dish>, n: int, x: int)
      requires dirty.Valid() && clean.Valid() && dirty != clean && dirty.data != clean.data
      requires dirty.owns && clean.owns
      ensures Valid() && State() == Washer(dirty.Elements(), clean.Elements())
      ensures dirtyStack == dirty && cleanStack == clean && this.n == n && this.x == x
    {
      dirtyStack, cleanStack := dirty, clean;
      this.n, this.x := n, x;
    }

    /** cleanDish: the top dirty dish gets its finishing time through
        topValue's reference, is popped and pushed onto the clean stack. */
    method CleanDish()
      requires Valid() && dirtyStack.length > 0
      modifies dirtyStack, dirtyStack.data, cleanStack, cleanStack.data
      ensures Valid() && State() == CleanedTop(old(State()))
      ensures dirtyStack.data == old(dirtyStack.data) && (cleanStack.data == old(cleanStack.data) || fresh(cleanStack.data))
    {
      ghost var w := State();
      var top := dirtyStack.TopValue().value;
      var start := Max(if cleanStack.Length() > 0 then cleanStack.TopValue().value.timePushed + 1 else INT_MIN, top.timePushed);
      var size := top.size;
      assert Dish(start + size - 1, size) == Washed(w.clean, w.dirty[|w.dirty| - 1]);
      var _ := dirtyStack.SetTop(Dish(start + size - 1, size));
      SetThenPop(w.dirty, Dish(start + size - 1, size));
      var d := dirtyStack.Pop();
      var _ := cleanStack.Push(d.value);
    }

    /** The cleaning loop of simulate before a dish arriving at t is put
        down. */
    method CleanBefore(t: int)
      requires Valid()
      modifies dirtyStack, dirtyStack.data, cleanStack, cleanStack.data
      ensures Valid() && State() == CleanedBefore(old(State()), t)
      ensures dirtyStack.data == old(dirtyStack.data) && (cleanStack.data == old(cleanStack.data) || fresh(cleanStack.data))
    {
      while dirtyStack.Length() > 0 && (cleanStack.Length() == 0 || cleanStack.TopValue().value.timePushed < t)
        invariant Valid() && CleanedBefore(State(), t) == CleanedBefore(old(State()), t)
        invariant dirtyStack.data == old(dirtyStack.data) && (cleanStack.data == old(cleanStack.data) || fresh(cleanStack.data))
        decreases dirtyStack.length
      {
        CleanDish();
      }
    }

    /** A dish is put down on the dirty stack. */
    method PutDown(d: Dish)
      requires Valid()
      modifies dirtyStack, dirtyStack.data
      ensures Valid() && State() == Washer(old(State()).dirty + [d], old(State()).clean)
      ensures dirtyStack.data == old(dirtyStack.data) || fresh(dirtyStack.data)
    {
      var _ := dirtyStack.Push(d);
    }

    /** One input line: the cleaning loop, then the dish is put down. */
    method Arrive(m: Meal, a: seq<int>)
      requires Valid() && 1 <= m.course <= |a|
      modifies dirtyStack, dirtyStack.data, cleanStack, cleanStack.data
      ensures Valid() && State() == Arrived(old(State()), m, a)
      ensures (dirtyStack.data == old(dirtyStack.data) || fresh(dirtyStack.data))
      ensures (cleanStack.data == old(cleanStack.data) || fresh(cleanStack.data))
    {
      ghost var w := State();
      CleanBefore(m.time);
      ghost var c := State();
      assert c == CleanedBefore(w, m.time);
      PutDown(Dish(m.time, a[m.course - 1]));
      assert State() == Washer(c.dirty + [Dish(m.time, a[m.course - 1])], c.clean);
    }

    /** The loop after the input ends: every dirty dish is washed. */
    method CleanAll()
      requires Valid()
      modifies dirtyStack, dirtyStack.data, cleanStack, cleanStack.data
      ensures Valid() && State() == CleanedAll(old(State()))
      ensures dirtyStack.data == old(dirtyStack.data) && (cleanStack.data == old(cleanStack.data) || fresh(cleanStack.data))
    {
      while dirtyStack.Length() > 0
        invariant Valid() && CleanedAll(State()) == CleanedAll(old(State()))
        invariant dirtyStack.data == old(dirtyStack.data) && (cleanStack.data == old(cleanStack.data) || fresh(cleanStack.data))
        decreases dirtyStack.length
      {
        CleanDish();
      }
    }

    /** printCleanDishes: the clean stack is drained into a temporary
        stack, then popped back, each time printed and followed by a comma
        unless it was the last.  The clean stack ends as it began. */
    method PrintCleanDishes() returns (out: string)
      requires Valid()
      modifies cleanStack, cleanStack.data
      ensures Valid() && State() == old(State()) && cleanStack.data == old(cleanStack.data)
      ensures out == Text.Join(StackSpec.Shown(old(cleanStack.Elements()), TimeShown), ",")
    {
      ghost var orig := cleanStack.Elements();
      var temp := new ArrayStack(DEFAULT_CAPACITY, Dish(0, 0));
      DrainAll(cleanStack, temp, orig);
      out := RefillAll("", cleanStack, temp, orig, TimeShown, ",");
      StackSpec.PrintingDone("", orig, TimeShown, ",");
    }

    /** simulate, once n, x, the course sizes `a` and the input lines are
        read: every line is served, then every dish washed, then the
        output printed. */
    method Simulate(a: seq<int>, meals: seq<Meal>) returns (r: Result<string>)
      requires Valid() && State() == Washer([], []) && |a| == x && ValidMeals(meals, a)
      modifies dirtyStack, dirtyStack.data, cleanStack, cleanStack.data
      ensures r == Output(meals, a, n, x)
    {
      var eaters := ServeAll(a, meals);
      r := Finish(eaters);
    }

    /** After the input loop: the remaining dishes are washed, then the
        output printed, which needs a clean dish on top. */
    method Finish(eaters: ArrayStack<int>) returns (r: Result<string>)
      requires Valid() && eaters.Valid()
      modifies dirtyStack, dirtyStack.data, cleanStack, cleanStack.data, eaters
      ensures var w := CleanedAll(old(State()));
        r == if w.clean == [] then Err(EmptyContainer) else Ok(Report(w, old(eaters.Elements()), n))
    {
      CleanAll();
      if cleanStack.Length() == 0 {
        return Err(EmptyContainer);
      }
      var out := Print(eaters);
      r := Ok(out);
    }

    /** The printing part of simulate, once every dish is washed. */
    method Print(eaters: ArrayStack<int>) returns (out: string)
      requires Valid() && cleanStack.length > 0 && eaters.Valid()
      modifies cleanStack, cleanStack.data, eaters
      ensures out == Report(old(State()), old(eaters.Elements()), n)
    {
      var last := Text.IntToString(cleanStack.TopValue().value.timePushed) + "\n";
      var listing := PrintCleanDishes();
      var verdict := if eaters.Length() == n then 'Y' else 'N';
      var ids := PopAll(eaters);
      out := last + listing + "\n" + [verdict] + "\n" + ids + "\n";
    }

    /** The input loop of simulate: the diners who ate course x are pushed
        on a stack of their own, and every line is served. */
    method ServeAll(a: seq<int>, meals: seq<Meal>) returns (eaters: ArrayStack<int>)
      requires Valid() && State() == Washer([], []) && |a| == x && ValidMeals(meals, a)
      modifies dirtyStack, dirtyStack.data, cleanStack, cleanStack.data
      ensures Valid() && State() == Served(meals, a)
      ensures (dirtyStack.data == old(dirtyStack.data) || fresh(dirtyStack.data))
      ensures (cleanStack.data == old(cleanStack.data) || fresh(cleanStack.data))
      ensures fresh(eaters) && fresh(eaters.data) && eaters.Valid() && eaters.Elements() == FullCourse(meals, x)
    {
      eaters := new ArrayStack(DEFAULT_CAPACITY, 0);
      for i := 0 to |meals|
        invariant Valid() && State() == Served(meals[..i], a)
        invariant (dirtyStack.data == old(dirtyStack.data) || fresh(dirtyStack.data))
        invariant (cleanStack.data == old(cleanStack.data) || fresh(cleanStack.data))
        invariant fresh(eaters) && fresh(eaters.data) && eaters.Valid() && eaters.owns
        invariant eaters.Elements() == FullCourse(meals[..i], x)
      {
        assert meals[..i + 1][..i] == meals[..i];
        ServeLine(meals[i], a, eaters);
      }
      assert meals[..|meals|] == meals;
    }

    /** One round of the input loop: a diner who ate course x is recorded,
        then the line is served. */
    method ServeLine(m: Meal, a: seq<int>, eaters: ArrayStack<int>)
      requires Valid() && 1 <= m.course <= |a| && |a| == x
      requires eaters.Valid() && eaters.owns
      modifies dirtyStack, dirtyStack.data, cleanStack, cleanStack.data, eaters, eaters.data
      ensures Valid() && State() == Arrived(old(State()), m, a)
      ensures (dirtyStack.data == old(dirtyStack.data) || fresh(dirtyStack.data))
      ensures (cleanStack.data == old(cleanStack.data) || fresh(cleanStack.data))
      ensures eaters.Valid() && eaters.owns && (eaters.data == old(eaters.data) || fresh(eaters.data))
      ensures eaters.Elements() == old(eaters.Elements()) + (if m.course == x then [m.diner] else [])
    {
      if m.course == x {
        var _ := eaters.Push(m.diner);
      }
      Arrive(m, a);
    }
  }

  /** The last loop of simulate: the stack is popped empty and every id
      printed, separated by commas, so the ids come out top first. */
  method PopAll(s: ArrayStack<int>) returns (out: string)
    requires s.Valid()
    modifies s
    ensures s.Valid() && s.Elements() == []
    ensures out == Text.Join(StackSpec.Shown(StackSpec.Reversed(old(s.Elements())), Text.IntToString), ",")
  {
    ghost var orig := s.Elements();
    ghost var popped := StackSpec.Reversed(orig);
    out := "";
    while s.Length() > 0
      invariant s.Valid() && |s.Elements()| <= |orig| && s.Elements() == orig[..|s.Elements()|]
      invariant out == StackSpec.Printing("", popped, |orig| - |s.Elements()|, Text.IntToString, ",")
      decreases s.length
    {
      ghost var k := |orig| - |s.Elements()|;
      StackSpec.ReversedAt(orig, k);
      StackSpec.PrintingStep("", popped, k, Text.IntToString, ",");
      ghost var e := s.Elements();
      var v := s.Pop();
      assert v.value == e[|e| - 1] == popped[k] && s.Elements() == e[..|e| - 1];
      out := out + Text.IntToString(v.value) + (if s.Length() > 0 then "," else "");
    }
    StackSpec.PrintingDone("", popped, Text.IntToString, ",");
  }
}
