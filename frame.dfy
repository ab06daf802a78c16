/** The time-indexed gas table of one measurement cycle and the table operations the
    lag search uses: the positional window of `get_datetime_index`, the boolean
    masks of `find_max`, pandas `idxmax` and the DIAG sum. Times are whole seconds. */
module Frame {

  datatype Gas = CH4 | CO2

  /** One row of the table: its time index and the CH4, CO2 and DIAG columns. */
  datatype Row = Row(time: int, ch4: real, co2: real, diag: int)

  function Value(row: Row, gas: Gas): real
  {
    match gas
    case CH4 => row.ch4
    case CO2 => row.co2
  }

  /** The table's time index is strictly increasing. */
  predicate Sorted(rows: seq<Row>)
  {
    forall i, j :: 0 <= i < j < |rows| ==> rows[i].time < rows[j].time
  }

  /** Number of rows before time `t`. On a sorted table this is the position of the first
      row at or after `t`: every row before it is earlier than `t`, every row from it on is not. */
  function CountBefore(rows: seq<Row>, t: int): (n: nat)
    ensures n <= |rows|
    ensures Sorted(rows) ==> forall i :: 0 <= i < n ==> rows[i].time < t
    ensures Sorted(rows) ==> forall i :: n <= i < |rows| ==> rows[i].time >= t
    decreases |rows|
  {
    if rows == [] then 0
    else if rows[|rows| - 1].time < t then |rows|
    else CountBefore(rows[..|rows| - 1], t)
  }

  /** The rows a positional window `[s, e)` from `get_datetime_index(lo, hi)` selects:
      `s` is the first row at or after `lo`, `e` the first row at or after `hi`
      (never before `s`), so the window is the half-open time interval `[lo, hi)`. */
  function Slice(rows: seq<Row>, lo: int, hi: int): (w: seq<Row>)
    ensures |w| <= |rows|
  {
    var s := CountBefore(rows, lo);
    var e := CountBefore(rows, hi);
    rows[s..if e < s then s else e]
  }

  /** A table without its first row keeps its time order. */
  lemma SortedTail(rows: seq<Row>)
    requires Sorted(rows) && rows != []
    ensures Sorted(rows[1..])
  {
  }

  /** The boolean masks `index > lo` and `index < hi` of `find_max`. */
  function StrictWindow(rows: seq<Row>, lo: int, hi: int): (w: seq<Row>)
    ensures forall k :: 0 <= k < |w| ==> lo < w[k].time < hi
    ensures forall k :: 0 <= k < |rows| && lo < rows[k].time < hi ==> rows[k] in w
    decreases |rows|
  {
    if rows == [] then []
    else (if lo < rows[0].time < hi then [rows[0]] else []) + StrictWindow(rows[1..], lo, hi)
  }

  /** The masks keep only rows of the table. */
  lemma {:induction false} StrictWindowRows(rows: seq<Row>, lo: int, hi: int)
    ensures forall x :: x in StrictWindow(rows, lo, hi) ==> x in rows
    decreases |rows|
  {
    if rows != [] {
      StrictWindowRows(rows[1..], lo, hi);
      assert rows == [rows[0]] + rows[1..];
    }
  }

  /** On a sorted table the masks keep the table's time order. */
  lemma {:induction false} StrictWindowSorted(rows: seq<Row>, lo: int, hi: int)
    requires Sorted(rows)
    ensures Sorted(StrictWindow(rows, lo, hi))
    decreases |rows|
  {
    if rows != [] {
      SortedTail(rows);
      StrictWindowSorted(rows[1..], lo, hi);
      StrictWindowRows(rows[1..], lo, hi);
      var head := if lo < rows[0].time < hi then [rows[0]] else [];
      var rest := StrictWindow(rows[1..], lo, hi);
      forall m | 0 <= m < |rest|
        ensures rows[0].time < rest[m].time
      {
        assert rest[m] in rows[1..];
      }
      forall i, j | 0 <= i < j < |head + rest|
        ensures (head + rest)[i].time < (head + rest)[j].time
      {
        if i >= |head| {
          assert (head + rest)[i] == rest[i - |head|];
        }
        assert (head + rest)[j] == rest[j - |head|];
      }
    }
  }

  /** `idxmax`: the position of the first row holding the largest value of `gas`. */
  function FirstMax(rows: seq<Row>, gas: Gas): (k: nat)
    requires |rows| > 0
    ensures k < |rows|
    ensures forall j :: 0 <= j < |rows| ==> Value(rows[j], gas) <= Value(rows[k], gas)
    ensures forall j :: 0 <= j < k ==> Value(rows[j], gas) < Value(rows[k], gas)
    decreases |rows|
  {
    if |rows| == 1 then 0
    else
      var k := FirstMax(rows[..|rows| - 1], gas);
      if Value(rows[|rows| - 1], gas) > Value(rows[k], gas) then |rows| - 1 else k
  }

  /** The time index label `idxmax` returns. */
  function MaxTime(rows: seq<Row>, gas: Gas): int
    requires |rows| > 0
  {
    rows[FirstMax(rows, gas)].time
  }

  /** `calc_data["DIAG"].sum()`. */
  function DiagSum(rows: seq<Row>): int
    decreases |rows|
  {
    if rows == [] then 0 else rows[0].diag + DiagSum(rows[1..])
  }

  /** On a sorted table the window is a contiguous run of the table's rows, holding exactly
      the rows whose time lies in `[lo, hi)`. */
  lemma SliceMembers(rows: seq<Row>, lo: int, hi: int)
    requires Sorted(rows)
    ensures exists s, e :: 0 <= s <= e <= |rows| && Slice(rows, lo, hi) == rows[s..e]
    ensures forall k :: 0 <= k < |Slice(rows, lo, hi)| ==> Slice(rows, lo, hi)[k] in rows
    ensures forall k :: 0 <= k < |Slice(rows, lo, hi)| ==> lo <= Slice(rows, lo, hi)[k].time < hi
    ensures forall k :: 0 <= k < |rows| && lo <= rows[k].time < hi ==> rows[k] in Slice(rows, lo, hi)
  {
    var s, e := CountBefore(rows, lo), CountBefore(rows, hi);
    var e' := if e < s then s else e;
    assert Slice(rows, lo, hi) == rows[s..e'];
    forall k | 0 <= k < |Slice(rows, lo, hi)|
      ensures Slice(rows, lo, hi)[k] in rows
    {
      assert Slice(rows, lo, hi)[k] == rows[s + k];
    }
    forall k | 0 <= k < |rows| && lo <= rows[k].time < hi
      ensures rows[k] in Slice(rows, lo, hi)
    {
      assert s <= k < e;
      assert rows[k] == rows[s..e][k - s];
    }
  }

  /** An earlier time has no more rows before it. */
  lemma {:induction false} CountBeforeMonotone(rows: seq<Row>, t': int, t: int)
    requires t' <= t
    ensures CountBefore(rows, t') <= CountBefore(rows, t)
    decreases |rows|
  {
    if rows != [] {
      CountBeforeMonotone(rows[..|rows| - 1], t', t);
    }
  }

  /** Moving the window start earlier keeps every row the window had: the narrower window
      is a suffix of the wider one, so a non-empty window stays non-empty. */
  lemma SliceWiden(rows: seq<Row>, lo': int, lo: int, hi: int)
    requires Sorted(rows) && lo' <= lo
    ensures |Slice(rows, lo', hi)| >= |Slice(rows, lo, hi)|
    ensures Slice(rows, lo, hi) == Slice(rows, lo', hi)[|Slice(rows, lo', hi)| - |Slice(rows, lo, hi)|..]
  {
    CountBeforeMonotone(rows, lo', lo);
  }

  /** A non-empty window stays non-empty when its start moves earlier. */
  lemma WidenNonEmpty(rows: seq<Row>, lo': int, lo: int, hi: int)
    requires Sorted(rows) && lo' <= lo
    requires |Slice(rows, lo, hi)| > 0
    ensures |Slice(rows, lo', hi)| > 0
  {
    SliceWiden(rows, lo', lo, hi);
  }

  /** Row `i` of the table lies inside `(lo, hi)` and holds the largest value of `gas`
      there, while every earlier row of that interval holds a smaller one. */
  predicate IsFirstMaxRow(rows: seq<Row>, lo: int, hi: int, gas: Gas, i: int)
  {
    && 0 <= i < |rows| && lo < rows[i].time < hi
    && (forall j :: 0 <= j < |rows| && lo < rows[j].time < hi ==> Value(rows[j], gas) <= Value(rows[i], gas))
    && (forall j :: 0 <= j < i && lo < rows[j].time ==> Value(rows[j], gas) < Value(rows[i], gas))
  }

  /** `time` is the time of the table's first row of largest `gas` value in `(lo, hi)`. */
  ghost predicate IsFirstMaxTime(rows: seq<Row>, lo: int, hi: int, gas: Gas, time: int)
  {
    exists i {:trigger IsFirstMaxRow(rows, lo, hi, gas, i)} ::
      IsFirstMaxRow(rows, lo, hi, gas, i) && rows[i].time == time
  }

  /** `idxmax` over the masked rows of a sorted table picks a row of the table that holds the
      largest value in `(lo, hi)`, and every earlier row in that interval holds a smaller one. */
  lemma StrictWindowFirstMax(rows: seq<Row>, lo: int, hi: int, gas: Gas)
    requires Sorted(rows) && |StrictWindow(rows, lo, hi)| > 0
    ensures IsFirstMaxTime(rows, lo, hi, gas, MaxTime(StrictWindow(rows, lo, hi), gas))
  {
    var w := StrictWindow(rows, lo, hi);
    var k := FirstMax(w, gas);
    StrictWindowRows(rows, lo, hi);
    assert w[k] in w;
    var i :| 0 <= i < |rows| && rows[i] == w[k];
    WindowMaxDominates(rows, lo, hi, gas, i);
    WindowMaxFirst(rows, lo, hi, gas, i);
    assert IsFirstMaxRow(rows, lo, hi, gas, i) && rows[i].time == MaxTime(w, gas);
  }

  /** The row `idxmax` picks holds a value no row of `(lo, hi)` exceeds. */
  lemma WindowMaxDominates(rows: seq<Row>, lo: int, hi: int, gas: Gas, i: int)
    requires |StrictWindow(rows, lo, hi)| > 0 && 0 <= i < |rows|
    requires rows[i] == StrictWindow(rows, lo, hi)[FirstMax(StrictWindow(rows, lo, hi), gas)]
    ensures forall j :: 0 <= j < |rows| && lo < rows[j].time < hi ==> Value(rows[j], gas) <= Value(rows[i], gas)
  {
    var w := StrictWindow(rows, lo, hi);
    forall j | 0 <= j < |rows| && lo < rows[j].time < hi
      ensures Value(rows[j], gas) <= Value(rows[i], gas)
    {
      assert rows[j] in w;
    }
  }

  /** On a sorted table, every row of `(lo, hi)` before the one `idxmax` picks holds a
      smaller value. */
  lemma WindowMaxFirst(rows: seq<Row>, lo: int, hi: int, gas: Gas, i: int)
    requires Sorted(rows) && |StrictWindow(rows, lo, hi)| > 0 && 0 <= i < |rows|
    requires rows[i] == StrictWindow(rows, lo, hi)[FirstMax(StrictWindow(rows, lo, hi), gas)]
    ensures lo < rows[i].time < hi
    ensures forall j :: 0 <= j < i && lo < rows[j].time ==> Value(rows[j], gas) < Value(rows[i], gas)
  {
    var w := StrictWindow(rows, lo, hi);
    var k := FirstMax(w, gas);
    StrictWindowSorted(rows, lo, hi);
    forall j | 0 <= j < i && lo < rows[j].time
      ensures Value(rows[j], gas) < Value(rows[i], gas)
    {
      assert rows[j].time < rows[i].time;
      assert rows[j] in w;
      var m :| 0 <= m < |w| && w[m] == rows[j];
      assert w[m].time < w[k].time;
      assert m < k;
    }
  }

  /** The time `idxmax` returns on a window of a sorted table lies in the window's interval. */
  lemma MaxTimeInSlice(rows: seq<Row>, lo: int, hi: int, gas: Gas)
    requires Sorted(rows) && |Slice(rows, lo, hi)| > 0
    ensures lo <= MaxTime(Slice(rows, lo, hi), gas) < hi
  {
    SliceMembers(rows, lo, hi);
  }
}
