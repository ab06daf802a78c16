/** One chamber measurement cycle (`MeasurementCycle`): its four nominal instants, the
    lazily fetched gas table, the validity verdict and the lag-time search.

    The behaviour is given twice: the pure functions After* say what each operation
    does to a `CycleState`, and the class `MeasurementCycle` updates its fields step by
    step as the source does and is proved to agree with them. */
module Measurement {
  import opened Util
  import opened Frame

  /** `lag_end = open + 120 s`. */
  const LagWindowSeconds: int := 120
  /** `find_max` looks at rows strictly between `open` and `open + 90 s`. */
  const FindMaxSeconds: int := 90
  /** `find_negative_lagtime` moves the window start 10 s earlier per step ... */
  const ShiftSeconds: int := 10
  /** ... at most 5 times. */
  const MaxShifts: nat := 5
  /** `get_max` marks a cycle invalid when `r < 0.6`. */
  const MinCorrelation: real := 0.6

  /** The nominal instants of a cycle, in seconds. */
  datatype Times = Times(start: int, close: int, open: int, end: int)
  {
    function LagEnd(): int { open + LagWindowSeconds }
  }

  /** The fields of a cycle that its methods change. */
  datatype CycleState = CycleState(
    data: Option<seq<Row>>,
    calcData: Option<seq<Row>>,
    isValid: bool,
    lagtimeIndex: Option<int>,
    lagtimeS: Option<int>,
    adjustedClose: Option<int>,
    r: Option<real>)

  /** A present table is time-sorted (the source returns its rows in time order). */
  predicate WellFormed(s: CycleState)
  {
    s.data.Some? ==> Sorted(s.data.value)
  }

  predicate SortedFetch(fetched: Option<seq<Row>>)
  {
    fetched.Some? ==> Sorted(fetched.value)
  }

  /** The state `__init__` sets up. */
  function Initial(data: Option<seq<Row>>): CycleState
  {
    CycleState(data, None, true, None, None, None, None)
  }

  /** Whether a fetch in state `s` queries the source: only a valid cycle without data does. */
  predicate Queries(s: CycleState)
  {
    s.isValid && s.data.None?
  }

  /** `just_get_data`, with `fetched` the result the source gives for `[start, end]`. */
  function AfterJustGetData(s: CycleState, t: Times, fetched: Option<seq<Row>>): (s': CycleState)
    ensures !Queries(s) ==> s' == s
    ensures Queries(s) ==> s'.data == fetched
    ensures Queries(s) && (fetched.None? || |fetched.value| == 0) ==> !s'.isValid && s'.calcData == s.calcData
    ensures Queries(s) && fetched.Some? && |fetched.value| > 0 ==>
      s'.calcData == Some(Slice(fetched.value, t.close, t.open)) &&
      (s'.isValid <==> DiagSum(s'.calcData.value) == 0)
    ensures s'.isValid ==> s.isValid
    ensures !Queries(s')
    ensures s'.lagtimeIndex == s.lagtimeIndex && s'.lagtimeS == s.lagtimeS
    ensures s'.adjustedClose == s.adjustedClose && s'.r == s.r
  {
    if !Queries(s) then s
    else if fetched.None? then s.(data := None, isValid := false)
    else if |fetched.value| == 0 then s.(data := fetched, isValid := false)
    else
      var diagWindow := Slice(fetched.value, t.close, t.open);
      s.(data := fetched, calcData := Some(diagWindow), isValid := DiagSum(diagWindow) == 0)
  }

  /** `get_data`: like `just_get_data`, except that an empty table does not make the cycle
      invalid (its DIAG window is empty and sums to 0). */
  function AfterGetData(s: CycleState, t: Times, fetched: Option<seq<Row>>): (s': CycleState)
    ensures !Queries(s) ==> s' == s
    ensures Queries(s) ==> s'.data == fetched
    ensures Queries(s) && fetched.None? ==> !s'.isValid && s'.calcData == s.calcData
    ensures Queries(s) && fetched.Some? ==>
      s'.calcData == Some(Slice(fetched.value, t.close, t.open)) &&
      (s'.isValid <==> DiagSum(s'.calcData.value) == 0)
    ensures Queries(s) && fetched == Some([]) ==> s'.isValid
    ensures s'.isValid ==> s.isValid
    ensures !Queries(s')
    ensures s'.lagtimeIndex == s.lagtimeIndex && s'.lagtimeS == s.lagtimeS
    ensures s'.adjustedClose == s.adjustedClose && s'.r == s.r
  {
    if !Queries(s) then s
    else if fetched.None? then s.(data := None, isValid := false)
    else
      var diagWindow := Slice(fetched.value, t.close, t.open);
      s.(data := fetched, calcData := Some(diagWindow), isValid := DiagSum(diagWindow) == 0)
  }

  /** `find_max(gas)`: the first row of largest `gas` value strictly inside
      `(open, open + 90 s)` becomes the lag; nothing changes when no row is there. */
  function AfterFindMax(s: CycleState, t: Times, gas: Gas): (s': CycleState)
    requires s.data.Some?
    ensures var w := StrictWindow(s.data.value, t.open, t.open + FindMaxSeconds);
      && (|w| == 0 ==> s' == s)
      && (|w| > 0 ==>
            && s'.lagtimeIndex.Some? && s'.lagtimeS.Some?
            && s'.lagtimeS.value == s'.lagtimeIndex.value - t.open
            && 0 < s'.lagtimeS.value < FindMaxSeconds
            && exists k :: 0 <= k < |w| && w[k].time == s'.lagtimeIndex.value
                 && (forall j :: 0 <= j < |w| ==> Value(w[j], gas) <= Value(w[k], gas))
                 && (forall j :: 0 <= j < k ==> Value(w[j], gas) < Value(w[k], gas)))
    ensures s'.(lagtimeIndex := s.lagtimeIndex, lagtimeS := s.lagtimeS) == s
  {
    var w := StrictWindow(s.data.value, t.open, t.open + FindMaxSeconds);
    if |w| == 0 then s
    else
      var k := FirstMax(w, gas);
      s.(lagtimeIndex := Some(w[k].time), lagtimeS := Some(w[k].time - t.open))
  }

  /** Stated over the table itself: when some row lies strictly inside `(open, open + 90 s)`,
      `find_max` records the time of a table row in that interval whose `gas` value is the
      largest there, and every earlier row of the interval holds a smaller value. */
  lemma FindMaxPicksTableRow(s: CycleState, t: Times, gas: Gas)
    requires s.data.Some? && Sorted(s.data.value)
    requires exists j :: 0 <= j < |s.data.value| && t.open < s.data.value[j].time < t.open + FindMaxSeconds
    ensures var s' := AfterFindMax(s, t, gas);
      && s'.lagtimeIndex.Some?
      && IsFirstMaxTime(s.data.value, t.open, t.open + FindMaxSeconds, gas, s'.lagtimeIndex.value)
  {
    var rows, lo, hi := s.data.value, t.open, t.open + FindMaxSeconds;
    var w := StrictWindow(rows, lo, hi);
    var j0 :| 0 <= j0 < |rows| && lo < rows[j0].time < hi;
    assert rows[j0] in w;
    assert AfterFindMax(s, t, gas).lagtimeIndex == Some(MaxTime(w, gas));
    StrictWindowFirstMax(rows, lo, hi, gas);
  }

  /** `del_lagtime`: only the lag index is cleared. */
  function AfterDelLagtime(s: CycleState): (s': CycleState)
    ensures s'.lagtimeIndex.None?
    ensures s'.lagtimeS == s.lagtimeS && s'.adjustedClose == s.adjustedClose
    ensures s'.isValid == s.isValid && s'.data == s.data && s'.calcData == s.calcData && s'.r == s.r
  {
    s.(lagtimeIndex := None)
  }

  /** Start of the lag window after `m` backward shifts. */
  function StartAt(open: int, m: int): int
  {
    open - ShiftSeconds * m
  }

  /** The lag window `get_lag_df(open - 10 m, lag_end)` after `m` backward shifts. */
  function WindowAt(rows: seq<Row>, open: int, lagEnd: int, m: int): seq<Row>
  {
    Slice(rows, StartAt(open, m), lagEnd)
  }

  /** `find_negative_lagtime` from the loop state `(lagtime_idx, open, i)` = `(idx, o, i)`:
      while the maximum sits at the window start and fewer than 5 shifts were made, move
      the start 10 s earlier and take the first CH4 maximum of the wider window. */
  function NegativeLagSearch(rows: seq<Row>, lagEnd: int, idx: int, o: int, i: nat): int
    requires Sorted(rows) && i <= MaxShifts
    requires idx == o ==> |Slice(rows, o, lagEnd)| > 0
    decreases MaxShifts - i
  {
    if idx == o && i < MaxShifts then
      WidenNonEmpty(rows, o - ShiftSeconds, o, lagEnd);
      NegativeLagSearch(rows, lagEnd, MaxTime(Slice(rows, o - ShiftSeconds, lagEnd), CH4), o - ShiftSeconds, i + 1)
    else idx
  }

  // The maximum of the lag window after `m` shifts lies at that window's start.
  ghost predicate AtWindowStart(rows: seq<Row>, open: int, lagEnd: int, m: int)
  {
    |WindowAt(rows, open, lagEnd, m)| > 0 &&
    MaxTime(WindowAt(rows, open, lagEnd, m), CH4) == StartAt(open, m)
  }

  /** Which of the windows after 0 to 4 shifts have their maximum at their start. */
  ghost function StartFlags(rows: seq<Row>, open: int, lagEnd: int): (flags: seq<bool>)
    ensures |flags| == MaxShifts
  {
    seq(MaxShifts, m => AtWindowStart(rows, open, lagEnd, m))
  }

  /** The first position from `i` on that is not set, or `|flags|` when there is none. */
  function FirstUnset(flags: seq<bool>, i: nat): (j: nat)
    requires i <= |flags|
    ensures i <= j <= |flags|
    ensures forall m :: i <= m < j ==> flags[m]
    ensures j < |flags| ==> !flags[j]
    decreases |flags| - i
  {
    if i < |flags| && flags[i] then FirstUnset(flags, i + 1) else i
  }

  /** Those two properties single out the first unset position. */
  lemma FirstUnsetUnique(flags: seq<bool>, i: nat, j: nat)
    requires i <= j <= |flags|
    requires forall m :: i <= m < j ==> flags[m]
    requires j < |flags| ==> !flags[j]
    ensures j == FirstUnset(flags, i)
  {
  }

  /** The number of shifts the backward search has made when it stops, counted from window
      `i`: the first window from `i` on whose maximum is not at its start, or 5. */
  ghost function ShiftsTaken(rows: seq<Row>, open: int, lagEnd: int, i: nat): nat
    requires i <= MaxShifts
  {
    FirstUnset(StartFlags(rows, open, lagEnd), i)
  }

  /** Every window before the stopping one has its maximum at its start and, unless all 5
      shifts were made, the stopping window does not. */
  lemma ShiftsTakenMeaning(rows: seq<Row>, open: int, lagEnd: int)
    ensures ShiftsTaken(rows, open, lagEnd, 0) <= MaxShifts
    ensures forall m :: 0 <= m < ShiftsTaken(rows, open, lagEnd, 0) ==> AtWindowStart(rows, open, lagEnd, m)
    ensures ShiftsTaken(rows, open, lagEnd, 0) < MaxShifts ==>
      !AtWindowStart(rows, open, lagEnd, ShiftsTaken(rows, open, lagEnd, 0))
  {
    var flags := StartFlags(rows, open, lagEnd);
    forall m | 0 <= m < ShiftsTaken(rows, open, lagEnd, 0)
      ensures AtWindowStart(rows, open, lagEnd, m)
    {
      assert flags[m];
    }
  }

  /** One step of the search: when window `i` has its maximum at its start, the search
      goes on from window `i + 1`, which is non-empty. */
  lemma ShiftStep(rows: seq<Row>, open: int, lagEnd: int, i: nat)
    requires Sorted(rows) && i < MaxShifts
    requires AtWindowStart(rows, open, lagEnd, i)
    ensures |WindowAt(rows, open, lagEnd, i + 1)| > 0
    ensures ShiftsTaken(rows, open, lagEnd, i) == ShiftsTaken(rows, open, lagEnd, i + 1)
    ensures NegativeLagSearch(rows, lagEnd, MaxTime(WindowAt(rows, open, lagEnd, i), CH4), StartAt(open, i), i)
         == NegativeLagSearch(rows, lagEnd, MaxTime(WindowAt(rows, open, lagEnd, i + 1), CH4), StartAt(open, i + 1), i + 1)
  {
    assert StartAt(open, i + 1) == StartAt(open, i) - ShiftSeconds;
    SliceWiden(rows, StartAt(open, i + 1), StartAt(open, i), lagEnd);
  }

  /** When window `i` does not have its maximum at its start, or no shift is left, the
      search stops there. */
  lemma StopStep(rows: seq<Row>, open: int, lagEnd: int, i: nat)
    requires Sorted(rows) && i <= MaxShifts
    requires |WindowAt(rows, open, lagEnd, i)| > 0
    requires !(i < MaxShifts && AtWindowStart(rows, open, lagEnd, i))
    ensures ShiftsTaken(rows, open, lagEnd, i) == i
    ensures NegativeLagSearch(rows, lagEnd, MaxTime(WindowAt(rows, open, lagEnd, i), CH4), StartAt(open, i), i)
         == MaxTime(WindowAt(rows, open, lagEnd, i), CH4)
  {
  }

  /** The loop-shaped search from window `i` ends with the first CH4 maximum of the window
      the reference count of shifts names. */
  lemma {:induction false} NegativeLagSearchShifts(rows: seq<Row>, open: int, lagEnd: int, i: nat)
    requires Sorted(rows) && i <= MaxShifts
    requires |WindowAt(rows, open, lagEnd, i)| > 0
    ensures |WindowAt(rows, open, lagEnd, ShiftsTaken(rows, open, lagEnd, i))| > 0
    ensures NegativeLagSearch(rows, lagEnd, MaxTime(WindowAt(rows, open, lagEnd, i), CH4), StartAt(open, i), i)
         == MaxTime(WindowAt(rows, open, lagEnd, ShiftsTaken(rows, open, lagEnd, i)), CH4)
    decreases MaxShifts - i, 1
  {
    if i < MaxShifts && AtWindowStart(rows, open, lagEnd, i) {
      NegativeLagSearchShifted(rows, open, lagEnd, i);
    } else {
      StopStep(rows, open, lagEnd, i);
    }
  }

  /** The case of `NegativeLagSearchShifts` in which window `i` is shifted. */
  lemma {:induction false} NegativeLagSearchShifted(rows: seq<Row>, open: int, lagEnd: int, i: nat)
    requires Sorted(rows) && i < MaxShifts
    requires AtWindowStart(rows, open, lagEnd, i)
    ensures |WindowAt(rows, open, lagEnd, ShiftsTaken(rows, open, lagEnd, i))| > 0
    ensures NegativeLagSearch(rows, lagEnd, MaxTime(WindowAt(rows, open, lagEnd, i), CH4), StartAt(open, i), i)
         == MaxTime(WindowAt(rows, open, lagEnd, ShiftsTaken(rows, open, lagEnd, i)), CH4)
    decreases MaxShifts - i, 0
  {
    ShiftStep(rows, open, lagEnd, i);
    NegativeLagSearchShifts(rows, open, lagEnd, i + 1);
  }

  /** The search `get_lagtime` starts from the lag window `[open, lag_end)` ends with the first
      CH4 maximum of the window after the reference number of shifts, a time in
      `[open - 50 s, lag_end)`. */
  lemma LagSearchResult(rows: seq<Row>, open: int, lagEnd: int)
    requires Sorted(rows) && |Slice(rows, open, lagEnd)| > 0
    ensures var j := ShiftsTaken(rows, open, lagEnd, 0);
      && |WindowAt(rows, open, lagEnd, j)| > 0
      && NegativeLagSearch(rows, lagEnd, MaxTime(Slice(rows, open, lagEnd), CH4), open, 0)
         == MaxTime(WindowAt(rows, open, lagEnd, j), CH4)
      && open - ShiftSeconds * MaxShifts <= MaxTime(WindowAt(rows, open, lagEnd, j), CH4) < lagEnd
  {
    assert StartAt(open, 0) == open;
    NegativeLagSearchShifts(rows, open, lagEnd, 0);
    var j := ShiftsTaken(rows, open, lagEnd, 0);
    MaxTimeInSlice(rows, StartAt(open, j), lagEnd, CH4);
  }

  /** `get_lagtime(data)` on the lag window `data`: search backwards from its CH4 maximum,
      measure the lag from the unshifted `open`, and set `adjusted_close` only if unset. */
  function AfterGetLagtime(s: CycleState, t: Times, window: seq<Row>): (s': CycleState)
    requires s.data.Some? && Sorted(s.data.value)
    requires window == Slice(s.data.value, t.open, t.LagEnd()) && |window| > 0
    ensures s'.lagtimeIndex.Some? && s'.lagtimeS == Some(s'.lagtimeIndex.value - t.open)
    ensures -ShiftSeconds * MaxShifts <= s'.lagtimeS.value < LagWindowSeconds
    ensures s.adjustedClose.None? ==> s'.adjustedClose == Some(t.close + s'.lagtimeS.value)
    ensures s.adjustedClose.Some? ==> s'.adjustedClose == s.adjustedClose
    ensures s'.(lagtimeIndex := s.lagtimeIndex, lagtimeS := s.lagtimeS, adjustedClose := s.adjustedClose) == s
  {
    var rows := s.data.value;
    var first := MaxTime(window, CH4);
    LagSearchResult(rows, t.open, t.LagEnd());
    var idx := NegativeLagSearch(rows, t.LagEnd(), first, t.open, 0);
    var lag := idx - t.open;
    s.(lagtimeIndex := Some(idx), lagtimeS := Some(lag),
       adjustedClose := if s.adjustedClose.None? then Some(t.close + lag) else s.adjustedClose)
  }

  /** The lag `get_lagtime` records is the first CH4 maximum of the lag window after the
      number of backward shifts `ShiftsTaken` describes. */
  lemma GetLagtimeFindsShiftedMax(s: CycleState, t: Times, window: seq<Row>)
    requires s.data.Some? && Sorted(s.data.value)
    requires window == Slice(s.data.value, t.open, t.LagEnd()) && |window| > 0
    ensures var j := ShiftsTaken(s.data.value, t.open, t.LagEnd(), 0);
      && |WindowAt(s.data.value, t.open, t.LagEnd(), j)| > 0
      && AfterGetLagtime(s, t, window).lagtimeIndex == Some(MaxTime(WindowAt(s.data.value, t.open, t.LagEnd(), j), CH4))
  {
    LagSearchResult(s.data.value, t.open, t.LagEnd());
  }

  /** `get_max`: fetch if needed; without a table reset the lag and `r`; with an empty lag
      window or an invalid cycle stop; otherwise record `r`, mark the cycle invalid when
      `r < 0.6`, and compute the lag all the same. */
  function AfterGetMax(s: CycleState, t: Times, fetched: Option<seq<Row>>, rValue: real): (s': CycleState)
    requires WellFormed(s) && SortedFetch(fetched)
    ensures WellFormed(s')
    ensures var f := AfterJustGetData(s, t, fetched);
      && s'.data == f.data && s'.calcData == f.calcData
      && (f.data.None? ==>
            s'.lagtimeIndex.None? && s'.lagtimeS.None? && s'.r.None? && !s'.isValid
            && s'.adjustedClose == s.adjustedClose)
      && (f.data.Some? && (|Slice(f.data.value, t.open, t.LagEnd())| == 0 || !f.isValid) ==> s' == f)
      && (f.data.Some? && |Slice(f.data.value, t.open, t.LagEnd())| > 0 && f.isValid ==>
            && s'.r == Some(rValue)
            && (s'.isValid <==> !(rValue < MinCorrelation))
            && s'.lagtimeIndex.Some?
            && s'.lagtimeS == Some(s'.lagtimeIndex.value - t.open)
            && -ShiftSeconds * MaxShifts <= s'.lagtimeS.value < LagWindowSeconds)
    ensures s'.isValid ==> s.isValid
    ensures s.adjustedClose.Some? ==> s'.adjustedClose == s.adjustedClose
  {
    var f := AfterJustGetData(s, t, fetched);
    if f.data.None? then f.(lagtimeIndex := None, lagtimeS := None, r := None)
    else
      var w := Slice(f.data.value, t.open, t.LagEnd());
      if |w| == 0 || !f.isValid then f
      else AfterGetLagtime(f.(r := Some(rValue), isValid := !(rValue < MinCorrelation)), t, w)
  }

  /** The source's `del_lagtime` is not an undo of a lag search: after `get_max` found a lag,
      deleting it leaves `lagtime_s` and `adjusted_close` set. */
  lemma DeleteKeepsLagSeconds(s: CycleState, t: Times, fetched: Option<seq<Row>>, rValue: real)
    requires WellFormed(s) && SortedFetch(fetched)
    requires s.lagtimeIndex.None? && s.lagtimeS.None? && s.adjustedClose.None?
    requires AfterGetMax(s, t, fetched, rValue).lagtimeIndex.Some?
    ensures var d := AfterDelLagtime(AfterGetMax(s, t, fetched, rValue));
      d.lagtimeIndex.None? && d.lagtimeS.Some? && d.adjustedClose.Some? && d != s
  {
  }

  /** The operator actions on one cycle. */
  datatype Action =
    | JustGetData(fetched: Option<seq<Row>>)
    | GetData(fetched: Option<seq<Row>>)
    | FindMax(gas: Gas)
    | DelLagtime
    | GetMax(fetched: Option<seq<Row>>, rValue: real)

  /** Every fetched table is time-sorted. */
  predicate SortedActions(actions: seq<Action>)
  {
    forall k :: 0 <= k < |actions| ==>
      (actions[k].JustGetData? || actions[k].GetData? || actions[k].GetMax?) ==> SortedFetch(actions[k].fetched)
  }

  /** Runs `actions` in order; `None` when `find_max` meets a cycle with no table (an
      attribute error in the source). */
  function Run(s: CycleState, t: Times, actions: seq<Action>): Option<CycleState>
    requires WellFormed(s) && SortedActions(actions)
    decreases |actions|
  {
    if actions == [] then Some(s)
    else
      var s1 := match actions[0]
        case JustGetData(f) => Some(AfterJustGetData(s, t, f))
        case GetData(f) => Some(AfterGetData(s, t, f))
        case FindMax(gas) => if s.data.None? then None else Some(AfterFindMax(s, t, gas))
        case DelLagtime => Some(AfterDelLagtime(s))
        case GetMax(f, rv) => Some(AfterGetMax(s, t, f, rv));
      if s1.None? then None else Run(s1.value, t, actions[1..])
  }

  /** No sequence of actions turns an invalid cycle valid, and once `adjusted_close` is set
      no action changes it. */
  lemma {:induction false} RunMonotone(s: CycleState, t: Times, actions: seq<Action>)
    requires WellFormed(s) && SortedActions(actions)
    requires Run(s, t, actions).Some?
    ensures Run(s, t, actions).value.isValid ==> s.isValid
    ensures s.adjustedClose.Some? ==> Run(s, t, actions).value.adjustedClose == s.adjustedClose
    decreases |actions|
  {
    if actions != [] {
      var s1 := match actions[0]
        case JustGetData(f) => AfterJustGetData(s, t, f)
        case GetData(f) => AfterGetData(s, t, f)
        case FindMax(gas) => AfterFindMax(s, t, gas)
        case DelLagtime => AfterDelLagtime(s)
        case GetMax(f, rv) => AfterGetMax(s, t, f, rv);
      assert Run(s, t, actions) == Run(s1, t, actions[1..]);
      assert SortedActions(actions[1..]) by {
        forall k | 0 <= k < |actions| - 1 ensures actions[1..][k] == actions[k + 1] { }
      }
      RunMonotone(s1, t, actions[1..]);
    }
  }

  /** A fetch queries the source at most once: after any number of actions that followed a
      fetch, a further fetch changes nothing. */
  lemma {:induction false} FetchOnce(s: CycleState, t: Times, actions: seq<Action>, fetched: Option<seq<Row>>)
    requires WellFormed(s) && SortedActions(actions)
    requires !Queries(s)
    requires Run(s, t, actions).Some?
    ensures !Queries(Run(s, t, actions).value)
    ensures AfterJustGetData(Run(s, t, actions).value, t, fetched) == Run(s, t, actions).value
    ensures AfterGetData(Run(s, t, actions).value, t, fetched) == Run(s, t, actions).value
    decreases |actions|
  {
    if actions != [] {
      var s1 := match actions[0]
        case JustGetData(f) => AfterJustGetData(s, t, f)
        case GetData(f) => AfterGetData(s, t, f)
        case FindMax(gas) => AfterFindMax(s, t, gas)
        case DelLagtime => AfterDelLagtime(s)
        case GetMax(f, rv) => AfterGetMax(s, t, f, rv);
      assert Run(s, t, actions) == Run(s1, t, actions[1..]);
      assert SortedActions(actions[1..]) by {
        forall k | 0 <= k < |actions| - 1 ensures actions[1..][k] == actions[k + 1] { }
      }
      FetchOnce(s1, t, actions[1..], fetched);
    }
  }

  class MeasurementCycle {
    const id: string
    const start: int
    const close: int
    const open: int
    const end: int
    /** Set by `localize_times`. */
    const lagEnd: int

    var data: Option<seq<Row>>
    var calcData: Option<seq<Row>>
    var isValid: bool
    var lagtimeIndex: Option<int>
    var lagtimeS: Option<int>
    var adjustedClose: Option<int>
    var r: Option<real>

    function Instants(): Times
    {
      Times(start, close, open, end)
    }

    function State(): CycleState
      reads this
    {
      CycleState(data, calcData, isValid, lagtimeIndex, lagtimeS, adjustedClose, r)
    }

    predicate Valid()
      reads this
    {
      lagEnd == Instants().LagEnd() && WellFormed(State())
    }

    /** `__init__`, including `localize_times` (only `lag_end` is modelled). */
    constructor (id: string, start: int, close: int, open: int, end: int, data: Option<seq<Row>>)
      requires SortedFetch(data)
      ensures Valid()
      ensures this.id == id && this.start == start && this.close == close
      ensures this.open == open && this.end == end && lagEnd == open + LagWindowSeconds
      ensures State() == Initial(data)
    {
      this.id := id;
      this.start := start;
      this.close := close;
      adjustedClose := None;
      this.open := open;
      this.end := end;
      this.data := data;
      lagtimeIndex := None;
      lagtimeS := None;
      isValid := true;
      calcData := None;
      r := None;
      lagEnd := open + LagWindowSeconds;
    }

    method FindMax(gas: Gas)
      requires Valid() && data.Some?
      modifies this`lagtimeIndex, this`lagtimeS
      ensures Valid()
      ensures State() == AfterFindMax(old(State()), Instants(), gas)
    {
      var window := StrictWindow(data.value, open, open + FindMaxSeconds);
      if |window| > 0 {
        var k := FirstMax(window, gas);
        lagtimeIndex := Some(window[k].time);
        lagtimeS := Some(window[k].time - open);
      }
    }

    method DelLagtime()
      modifies this`lagtimeIndex
      ensures State() == AfterDelLagtime(old(State()))
    {
      lagtimeIndex := None;
    }

    /** `just_get_data`; `queried` says whether the source was asked. */
    method JustGetData(fetched: Option<seq<Row>>) returns (queried: bool)
      requires Valid() && SortedFetch(fetched)
      modifies this`data, this`calcData, this`isValid
      ensures Valid()
      ensures queried == Queries(old(State()))
      ensures State() == AfterJustGetData(old(State()), Instants(), fetched)
    {
      queried := false;
      if !isValid {
        return;
      }
      if data.None? {
        queried := true;
        data := fetched;
        if data.None? {
          isValid := false;
          return;
        }
        if |data.value| == 0 {
          isValid := false;
          return;
        }
        var window := Slice(data.value, close, open);
        calcData := Some(window);
        if DiagSum(window) != 0 {
          isValid := false;
        }
      }
    }

    /** `get_data`; `queried` says whether the source was asked. */
    method GetData(fetched: Option<seq<Row>>) returns (queried: bool)
      requires Valid() && SortedFetch(fetched)
      modifies this`data, this`calcData, this`isValid
      ensures Valid()
      ensures queried == Queries(old(State()))
      ensures State() == AfterGetData(old(State()), Instants(), fetched)
    {
      queried := false;
      if !isValid {
        return;
      }
      if data.None? {
        queried := true;
        data := fetched;
        if data.None? {
          isValid := false;
        }
        if data.Some? {
          var window := Slice(data.value, close, open);
          calcData := Some(window);
          if DiagSum(window) != 0 {
            isValid := false;
          }
        }
      }
    }

    /** `get_lag_df(lo, hi)`: the rows of the table in `[lo, hi)`, in table order. */
    function GetLagDf(lo: int, hi: int): (w: seq<Row>)
      reads this
      requires Valid() && data.Some?
      ensures forall k :: 0 <= k < |w| ==> lo <= w[k].time < hi
      ensures forall k :: 0 <= k < |w| ==> w[k] in data.value
      ensures forall k :: 0 <= k < |data.value| && lo <= data.value[k].time < hi ==> data.value[k] in w
      ensures forall j, k :: 0 <= j < k < |w| ==> w[j].time < w[k].time
    {
      SliceMembers(data.value, lo, hi);
      Slice(data.value, lo, hi)
    }

    /** `find_negative_lagtime`: the loop over `i`, the shifted `open` and `lagtime_idx`.
        The source's `data` argument is overwritten before use, so it is not a parameter. */
    method FindNegativeLagtime(lagIdx: int) returns (idx: int)
      requires Valid() && data.Some?
      requires lagIdx == open ==> |GetLagDf(open, lagEnd)| > 0
      ensures idx == NegativeLagSearch(data.value, lagEnd, lagIdx, open, 0)
    {
      var i: nat := 0;
      var o := open;
      idx := lagIdx;
      while idx == o && i < MaxShifts
        invariant i <= MaxShifts && o == open - ShiftSeconds * i
        invariant idx == o ==> |Slice(data.value, o, lagEnd)| > 0
        invariant NegativeLagSearch(data.value, lagEnd, idx, o, i) == NegativeLagSearch(data.value, lagEnd, lagIdx, open, 0)
        decreases MaxShifts - i
      {
        i := i + 1;
        WidenNonEmpty(data.value, o - ShiftSeconds, o, lagEnd);
        var window := GetLagDf(o - ShiftSeconds, lagEnd);
        idx := MaxTime(window, CH4);
        o := o - ShiftSeconds;
      }
    }

    /** `get_lagtime(data)` with `data` the lag window `[open, lag_end)`. */
    method GetLagtime(window: seq<Row>)
      requires Valid() && data.Some?
      requires window == GetLagDf(open, lagEnd) && |window| > 0
      modifies this`lagtimeIndex, this`lagtimeS, this`adjustedClose
      ensures Valid()
      ensures State() == AfterGetLagtime(old(State()), Instants(), window)
    {
      var idx := MaxTime(window, CH4);
      idx := FindNegativeLagtime(idx);
      lagtimeIndex := Some(idx);
      lagtimeS := Some(idx - open);
      if adjustedClose.None? {
        adjustedClose := Some(close + lagtimeS.value);
      }
    }

    /** `get_max`, with `rValue` the value `get_r` computes from `calc_data`. */
    method GetMax(fetched: Option<seq<Row>>, rValue: real) returns (queried: bool)
      requires Valid() && SortedFetch(fetched)
      modifies this`data, this`calcData, this`isValid, this`lagtimeIndex, this`lagtimeS,
        this`adjustedClose, this`r
      ensures Valid()
      ensures queried == Queries(old(State()))
      ensures State() == AfterGetMax(old(State()), Instants(), fetched, rValue)
    {
      queried := JustGetData(fetched);
      if data.None? {
        lagtimeIndex := None;
        lagtimeS := None;
        r := None;
        return;
      }
      var window := GetLagDf(open, lagEnd);
      if |window| == 0 {
        return;
      }
      if !isValid {
        return;
      }
      r := Some(rValue);
      if rValue < MinCorrelation {
        isValid := false;
      }
      GetLagtime(window);
    }
  }
}
