/** The transport-network exercise of assignment-1/tnl.cpp: a stop records
    in three bits of a byte whether rickshaws, buses and trains serve it;
    `process` builds K rickshaw stops and marks the bus and train stops read
    from the input, and `task1` prints, per means of transport, the indices
    of the stops it serves as a comma-separated line.

    The input numbers are parameters.  The list of stops is the sequence of
    stop objects; the cursor moves of the list are replaced by the index
    they select, which the list's own position rules give (see StopAt). */
module TransitNetwork {
  import opened Outcomes
  import opened ListSpec
  import Text

  newtype int32 = x: int | -0x8000_0000 <= x < 0x8000_0000

  /** std::size_t, which a negative int becomes by wrapping around. */
  const SIZE_MODULUS: int := 0x1_0000_0000_0000_0000

  const RICKSHAW: bv8 := 1
  const BUS: bv8 := 2
  const TRAIN: bv8 := 4

  predicate IsStopBit(bit: bv8)
  {
    bit == RICKSHAW || bit == BUS || bit == TRAIN
  }

  /** The byte after set(bit, val). */
  function WithBit(flags: bv8, bit: bv8, val: bool): bv8
  {
    if val then flags | bit else flags & !bit
  }

  /** get(bit). */
  predicate HasBit(flags: bv8, bit: bv8)
  {
    flags & bit != 0
  }

  /** The byte of a stop with the three given services and nothing else. */
  function Flags(rs: bool, bs: bool, ts: bool): bv8
  {
    (if rs then RICKSHAW else 0) | (if bs then BUS else 0) | (if ts then TRAIN else 0)
  }

  /** Setting a bit makes get return the value set, and leaves the other
      two bits as they were. */
  lemma SetThenGet(flags: bv8, bit: bv8, other: bv8, val: bool)
    requires IsStopBit(bit) && IsStopBit(other)
    ensures HasBit(WithBit(flags, bit, val), bit) == val
    ensures other != bit ==> HasBit(WithBit(flags, bit, val), other) == HasBit(flags, other)
  {
  }

  /** A byte built from three services reads them back; setting bits never
      reaches bits 3 to 7. */
  lemma FlagsRoundTrip(rs: bool, bs: bool, ts: bool, bit: bv8, val: bool)
    requires IsStopBit(bit)
    ensures HasBit(Flags(rs, bs, ts), RICKSHAW) == rs
    ensures HasBit(Flags(rs, bs, ts), BUS) == bs
    ensures HasBit(Flags(rs, bs, ts), TRAIN) == ts
    ensures Flags(rs, bs, ts) & 0xF8 == 0
    ensures WithBit(Flags(rs, bs, ts), bit, val) & 0xF8 == 0
  {
  }

  class TNLStop {
    var flags: bv8

    /** The constructor sets the three services one after the other. */
    constructor (rs: bool, bs: bool, ts: bool)
      ensures flags == Flags(rs, bs, ts)
    {
      flags := 0;
      new;
      SetRS(rs);
      SetBS(bs);
      SetTS(ts);
    }

    method Set(bit: bv8, val: bool)
      modifies this
      ensures flags == WithBit(old(flags), bit, val)
    {
      if val {
        flags := flags | bit;
      } else {
        flags := flags & !bit;
      }
    }

    method SetRS(val: bool)
      modifies this
      ensures flags == WithBit(old(flags), RICKSHAW, val)
    {
      Set(RICKSHAW, val);
    }

    method SetBS(val: bool)
      modifies this
      ensures flags == WithBit(old(flags), BUS, val)
    {
      Set(BUS, val);
    }

    method SetTS(val: bool)
      modifies this
      ensures flags == WithBit(old(flags), TRAIN, val)
    {
      Set(TRAIN, val);
    }

    predicate Get(bit: bv8)
      reads this
    {
      HasBit(flags, bit)
    }

    predicate IsRS() reads this { Get(RICKSHAW) }
    predicate IsBS() reads this { Get(BUS) }
    predicate IsTS() reads this { Get(TRAIN) }
  }

  /** The bytes of a sequence of stops. */
  ghost function FlagsOf(stops: seq<TNLStop>): (r: seq<bv8>)
    reads stops
    ensures |r| == |stops|
    ensures forall i :: 0 <= i < |stops| ==> r[i] == stops[i].flags
  {
    if stops == [] then [] else FlagsOf(stops[..|stops| - 1]) + [stops[|stops| - 1].flags]
  }

  /** The stop that moveToPos(b) followed by getValue selects in a list of
      n stops, or the failure that ends the program: the linked list
      rejects a position past its end, the array list clamps it to the end,
      where getValue fails. */
  function StopAt(linked: bool, n: nat, b: int32): Result<nat>
  {
    var q := (b as int) % SIZE_MODULUS;
    if linked then
      if q >= n then Err(OutOfRange) else Ok(q)
    else if n == 0 then Err(EmptyContainer)
    else if q >= n then Err(PastEnd)
    else Ok(q)
  }

  /** StopAt is what the two lists' specifications give, and it selects
      exactly the in-range positions. */
  lemma StopAtIsListSelection<T>(linked: bool, items: seq<T>, pos: nat, b: int32)
    requires pos <= |items| && |items| < 0x8000_0000
    ensures StopAt(linked, |items|, b).Ok? <==> 0 <= b as int < |items|
    ensures StopAt(linked, |items|, b).Ok? ==> StopAt(linked, |items|, b).value == b as int
    ensures linked ==>
      var r := LinkedMoveToPos(Cursor(items, pos), (b as int) % SIZE_MODULUS);
      if r.Err? then StopAt(linked, |items|, b) == Err(r.failure)
      else StopAt(linked, |items|, b).Ok? && LinkedGetValue(r.value) == Ok(items[StopAt(linked, |items|, b).value])
    ensures !linked ==>
      var c := ArrayMoveToPos(Cursor(items, pos), (b as int) % SIZE_MODULUS);
      match ArrayGetValue(c)
      case Err(f) => StopAt(linked, |items|, b) == Err(f)
      case Ok(v) => StopAt(linked, |items|, b).Ok? && v == items[StopAt(linked, |items|, b).value]
  {
  }

  /** Flags of stop j once the bus positions `buses` and the train
      positions `trains` are marked. */
  function Expected(j: int, buses: seq<int32>, trains: seq<int32>): bv8
    requires 0 <= j < 0x8000_0000
  {
    Flags(true, j as int32 in buses, j as int32 in trains)
  }

  /** All positions name a stop. */
  predicate AllInRange(ps: seq<int32>, n: int)
  {
    forall i :: 0 <= i < |ps| ==> 0 <= ps[i] as int < n
  }

  /** The first position in ps that does not name a stop, if any. */
  function FirstMiss(linked: bool, n: nat, ps: seq<int32>): (r: Option<Failure>)
    requires n < 0x8000_0000
    ensures r.None? <==> AllInRange(ps, n)
  {
    if ps == [] then None
    else match StopAt(linked, n, ps[0])
      case Err(f) => Some(f)
      case Ok(_) => FirstMiss(linked, n, ps[1..])
  }

  /** process without its input: k stops, all served by rickshaws, then the
      bus stops and the train stops marked through the list. */
  method Process(linked: bool, k: int32, buses: seq<int32>, trains: seq<int32>) returns (r: Result<seq<TNLStop>>)
    ensures r.Err? <==> !AllInRange(buses, k as int) || !AllInRange(trains, k as int)
    ensures r.Err? ==> var n := if k < 0 then 0 else k as int;
      r.failure == if FirstMiss(linked, n, buses).Some? then FirstMiss(linked, n, buses).value
                   else FirstMiss(linked, n, trains).value
    ensures r.Ok? ==> |r.value| == if k < 0 then 0 else k as int
    ensures r.Ok? ==> forall j :: 0 <= j < |r.value| ==> fresh(r.value[j]) && r.value[j].flags == Expected(j, buses, trains)
  {
    var stops: seq<TNLStop> := [];
    var i: int32 := 0;
    while i < k
      invariant 0 <= i as int <= if k < 0 then 0 else k as int
      invariant |stops| == i as int
      invariant forall j :: 0 <= j < |stops| ==> fresh(stops[j]) && stops[j].flags == Flags(true, false, false)
      invariant forall a, b :: 0 <= a < b < |stops| ==> stops[a] != stops[b]
    {
      var stop := new TNLStop(true, false, false);
      stops := stops + [stop];
      i := i + 1;
    }
    var n := |stops|;
    assert n == if k < 0 then 0 else k as int;
    var failed;
    failed := Mark(linked, stops, buses, BUS, []);
    if failed.Some? {
      return Err(failed.value);
    }
    failed := Mark(linked, stops, trains, TRAIN, buses);
    if failed.Some? {
      return Err(failed.value);
    }
    forall j | 0 <= j < n ensures stops[j].flags == Expected(j, buses, trains) {
      assert 0 <= j < 0x8000_0000;
    }
    r := Ok(stops);
  }

  /** One of the two marking loops of process: moveToPos(p) and
      getValue()->set(bit) for each position p of ps, until a position
      fails. */
  method Mark(linked: bool, stops: seq<TNLStop>, ps: seq<int32>, bit: bv8, ghost buses: seq<int32>)
      returns (failed: Option<Failure>)
    requires |stops| < 0x8000_0000 && (bit == BUS || bit == TRAIN)
    requires forall a, b :: 0 <= a < b < |stops| ==> stops[a] != stops[b]
    requires bit == BUS ==> buses == []
    requires forall j :: 0 <= j < |stops| ==> stops[j].flags == Flags(true, j as int32 in buses, false)
    modifies stops
    ensures failed == FirstMiss(linked, |stops|, ps)
    ensures failed.None? ==> forall j :: 0 <= j < |stops| ==>
      stops[j].flags == (if bit == BUS then Flags(true, j as int32 in ps, false) else Flags(true, j as int32 in buses, j as int32 in ps))
  {
    for i := 0 to |ps|
      invariant FirstMiss(linked, |stops|, ps) == FirstMiss(linked, |stops|, ps[i..])
      invariant forall j :: 0 <= j < |stops| ==>
        stops[j].flags == (if bit == BUS then Flags(true, j as int32 in ps[..i], false) else Flags(true, j as int32 in buses, j as int32 in ps[..i]))
    {
      assert ps[i..][1..] == ps[i + 1..];
      match StopAt(linked, |stops|, ps[i]) {
        case Err(f) =>
          return Some(f);
        case Ok(q) =>
          assert ps[..i + 1] == ps[..i] + [ps[i]];
          stops[q].Set(bit, true);
      }
    }
    assert ps[..|ps|] == ps;
    assert ps[|ps|..] == [];
    failed := None;
  }

  /** The printed form of slot i: its index when the stop has the service. */
  function Slot(flags: seq<bv8>, bit: bv8, i: nat): string
    requires i < |flags|
  {
    if HasBit(flags[i], bit) then Text.IntToString(i) else ""
  }

  /** The line task1 prints for one service: one slot per stop, the slots
      separated by commas. */
  function Line(flags: seq<bv8>, bit: bv8): string
  {
    Text.Join(seq(|flags|, i requires 0 <= i < |flags| => Slot(flags, bit, i)), ",")
  }

  /** One loop of task1: walk the stops from the first, printing each
      stop's index if it has the service, and a comma after every stop but
      the last. */
  method PrintLine(stops: seq<TNLStop>, bit: bv8) returns (line: string)
    ensures line == Line(FlagsOf(stops), bit)
  {
    ghost var flags := FlagsOf(stops);
    ghost var fields := seq(|stops|, i requires 0 <= i < |stops| => Slot(flags, bit, i));
    line := "";
    var n := |stops|;
    for i := 0 to n
      invariant line == Text.Join(fields[..i], ",") + (if 0 < i < n then "," else "")
    {
      if stops[i].Get(bit) {
        line := line + Text.IntToString(i);
      } else {
        assert line + fields[i] == line;
      }
      Text.JoinPrefixStep(fields, i, ",");
      if i < n - 1 {
        line := line + ",";
      }
    }
    assert fields[..n] == fields;
  }

  /** task1: the rickshaw, bus and train lines, each ended by a newline. */
  method Task1(stops: seq<TNLStop>) returns (out: string)
    ensures out == Line(FlagsOf(stops), RICKSHAW) + "\n" + Line(FlagsOf(stops), BUS) + "\n" + Line(FlagsOf(stops), TRAIN) + "\n"
  {
    var rs := PrintLine(stops, RICKSHAW);
    var bs := PrintLine(stops, BUS);
    var ts := PrintLine(stops, TRAIN);
    out := rs + "\n" + bs + "\n" + ts + "\n";
  }

  /** In the lines task1 prints after process, slot j of the bus line holds
      j exactly when j was read as a bus stop, and likewise for trains;
      every rickshaw slot holds its index. */
  lemma ReportedStops(flags: seq<bv8>, buses: seq<int32>, trains: seq<int32>, j: nat)
    requires |flags| < 0x8000_0000 && j < |flags|
    requires forall i :: 0 <= i < |flags| ==> flags[i] == Expected(i, buses, trains)
    ensures Slot(flags, RICKSHAW, j) == Text.IntToString(j)
    ensures Slot(flags, BUS, j) == (if j as int32 in buses then Text.IntToString(j) else "")
    ensures Slot(flags, TRAIN, j) == (if j as int32 in trains then Text.IntToString(j) else "")
  {
    FlagsRoundTrip(true, j as int32 in buses, j as int32 in trains, BUS, true);
  }
}
