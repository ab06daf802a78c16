/** The figure builders of the cycle browser, reduced to what they decide: which traces a
    cycle plot has and where its vertical lines are, the colour of each chamber in the lag
    graph, and the rows the lag graph shows after refreshing every cycle's lag. */
module CreateGraph {
  import opened Util
  import opened Frame
  import opened Measurement
  import opened AcPlot

  /** Plotly's qualitative palette `px.colors.qualitative.Plotly`. */
  const Palette: seq<string> := ["#636EFA", "#EF553B", "#00CC96", "#AB63FA", "#FFA15A",
                                 "#19D3F3", "#FF6692", "#B6E880", "#FF97FF", "#FECB52"]

  lemma PaletteDistinct()
    ensures |Palette| == 10
    ensures forall i, j :: 0 <= i < j < |Palette| ==> Palette[i] != Palette[j]
  {
  }

  /** Below the palette size, different positions get different palette entries. */
  lemma SmallIndexColor(i: int, j: int)
    requires 0 <= i < |Palette| && 0 <= j < |Palette| && i != j
    ensures Palette[i % |Palette|] != Palette[j % |Palette|]
  {
    PaletteDistinct();
    assert i % |Palette| == i && j % |Palette| == j;
  }

  /** The dict comprehension over `enumerate(values)`: the i-th value gets `palette[i % 10]`. */
  function ColorMap(values: seq<string>): (colors: map<string, string>)
    decreases |values|
  {
    if values == [] then map[]
    else
      var i := |values| - 1;
      ColorMap(values[..i])[values[i] := Palette[i % |Palette|]]
  }

  /** `create_color_mapping(df, column)` on the column's values. */
  function CreateColorMapping(column: seq<string>): map<string, string>
  {
    ColorMap(Unique(column))
  }

  lemma {:induction false} ColorMapDomain(values: seq<string>, v: string)
    ensures v in ColorMap(values) <==> v in values
    decreases |values|
  {
    if values != [] {
      var init := values[..|values| - 1];
      assert values == init + [values[|values| - 1]];
      ColorMapDomain(init, v);
    }
  }

  lemma {:induction false} ColorMapAt(values: seq<string>, i: int)
    requires forall j, k :: 0 <= j < k < |values| ==> values[j] != values[k]
    requires 0 <= i < |values|
    ensures values[i] in ColorMap(values) && ColorMap(values)[values[i]] == Palette[i % |Palette|]
    decreases |values|
  {
    if i < |values| - 1 {
      var init := values[..|values| - 1];
      assert init[i] == values[i];
      ColorMapAt(init, i);
    }
  }

  /** The keys of the mapping are exactly the distinct values of the column. */
  lemma ColorMappingKeys(column: seq<string>, v: string)
    ensures v in CreateColorMapping(column) <==> v in column
  {
    ColorMapDomain(Unique(column), v);
    UniqueMembers(column, v);
  }

  /** The i-th distinct value in order of first appearance gets `palette[i % 10]`. */
  lemma ColorMappingIndex(column: seq<string>, i: int)
    requires 0 <= i < |Unique(column)|
    ensures Unique(column)[i] in CreateColorMapping(column)
    ensures CreateColorMapping(column)[Unique(column)[i]] == Palette[i % |Palette|]
  {
    UniqueDistinct(column);
    ColorMapAt(Unique(column), i);
  }

  /** With at most ten distinct values, different values get different colours. */
  lemma ColorMappingInjective(column: seq<string>, a: string, b: string)
    requires |Unique(column)| <= |Palette|
    requires a in column && b in column && a != b
    ensures a in CreateColorMapping(column) && b in CreateColorMapping(column)
    ensures CreateColorMapping(column)[a] != CreateColorMapping(column)[b]
  {
    var u := Unique(column);
    UniqueMembers(column, a);
    UniqueMembers(column, b);
    var i :| 0 <= i < |u| && u[i] == a;
    var j :| 0 <= j < |u| && u[j] == b;
    ColorMappingIndex(column, i);
    ColorMappingIndex(column, j);
    PaletteDistinct();
    SmallIndexColor(i, j);
  }

  /** `[color_map[val] for val in df["id"]]`: every row's colour, looked up by its value. */
  function RowColors(column: seq<string>): (colors: seq<string>)
    ensures |colors| == |column|
    ensures forall k :: 0 <= k < |column| ==> column[k] in CreateColorMapping(column)
    ensures forall k :: 0 <= k < |column| ==> colors[k] == CreateColorMapping(column)[column[k]]
  {
    var mapping := CreateColorMapping(column);
    forall k | 0 <= k < |column| ensures column[k] in mapping {
      ColorMappingKeys(column, column[k]);
    }
    seq(|column|, k requires 0 <= k < |column| => mapping[column[k]])
  }

  /** One trace of a cycle plot. */
  datatype Trace = DataTrace(gas: Gas) | OpenLine(x: int) | CloseLine(x: int) | LagLine(x: int)

  /** The close line is drawn at the adjusted close once there is one, else at the nominal close. */
  function CloseAt(s: CycleState, t: Times): int
  {
    if s.adjustedClose.Some? then s.adjustedClose.value else t.close
  }

  /** `create_plot`: the data, open and close traces, and the lag line if a lag is set. The
      traces' y extents and styling are left out. */
  function PlotTraces(s: CycleState, t: Times, gas: Gas): (traces: seq<Trace>)
    requires s.data.Some?
  {
    [DataTrace(gas), OpenLine(t.open), CloseLine(CloseAt(s, t))] +
    (if s.lagtimeIndex.Some? then [LagLine(s.lagtimeIndex.value)] else [])
  }

  /** Four traces exactly when a lag is set, three otherwise, in the order data, open, close, lag. */
  lemma PlotTracesShape(s: CycleState, t: Times, gas: Gas)
    requires s.data.Some?
    ensures var traces := PlotTraces(s, t, gas);
      (|traces| == 4 <==> s.lagtimeIndex.Some?) && (|traces| == 3 <==> s.lagtimeIndex.None?) &&
      traces[0] == DataTrace(gas) && traces[1] == OpenLine(t.open) &&
      traces[2] == CloseLine(if s.adjustedClose.Some? then s.adjustedClose.value else t.close) &&
      (s.lagtimeIndex.Some? ==> traces[3] == LagLine(s.lagtimeIndex.value))
  {
  }

  /** After the first lag search the close line moves by the lag, and it stays there after any
      later lag search. */
  lemma CloseLineFollowsFirstLag(s: CycleState, t: Times, window: seq<Row>)
    requires s.data.Some? && Sorted(s.data.value) && s.adjustedClose.None?
    requires window == Slice(s.data.value, t.open, t.LagEnd()) && |window| > 0
    ensures var s1 := AfterGetLagtime(s, t, window);
      CloseAt(s1, t) == t.close + s1.lagtimeS.value &&
      CloseAt(AfterGetLagtime(s1, t, window), t) == CloseAt(s1, t)
  {
  }

  /** One row of the lag graph's tables: open time, lag in seconds and chamber id. The `idx`
      column that `df` alone gets is `range(len(df))`, the row's position in the sequence. */
  datatype LagPoint = LagPoint(open: int, lagtime: Option<int>, id: string)

  /** `[(m.open, m.lagtime_s, m.id) for m in ms]`. */
  function LagRows(ms: seq<MeasurementCycle>): (rows: seq<LagPoint>)
    reads set m | m in ms
    ensures |rows| == |ms|
    ensures forall k :: 0 <= k < |ms| ==> rows[k] == LagPoint(ms[k].open, ms[k].lagtimeS, ms[k].id)
    decreases |ms|
  {
    if ms == [] then [] else [LagPoint(ms[0].open, ms[0].lagtimeS, ms[0].id)] + LagRows(ms[1..])
  }

  /** `mk_lag_graph(measurements, current)`: `get_max` on every cycle (with what the source
      returns for it and its correlation), then the lag rows of all cycles (`df`, whose `idx`
      is the row's position), the highlighted rows of `current` (`df2`) and the colour of
      every row by chamber. The cycles must be distinct objects, as the chamber groups are. */
  method MkLagGraph(measurements: seq<MeasurementCycle>, current: seq<MeasurementCycle>,
                    fetched: seq<Option<seq<Row>>>, rValues: seq<real>)
    returns (points: seq<LagPoint>, highlight: seq<LagPoint>, colors: seq<string>)
    requires |fetched| == |measurements| && |rValues| == |measurements|
    requires Distinct(measurements)
    requires forall k :: 0 <= k < |measurements| ==> measurements[k].Valid() && SortedFetch(fetched[k])
    modifies set m | m in measurements
    ensures forall k :: 0 <= k < |measurements| ==> measurements[k].Valid()
    ensures forall k :: 0 <= k < |measurements| ==>
      old(measurements[k].Valid()) &&
      measurements[k].State() == AfterGetMax(old(measurements[k].State()), measurements[k].Instants(), fetched[k], rValues[k])
    ensures forall m: MeasurementCycle :: m in current && m !in measurements ==> m.State() == old(m.State())
    ensures |points| == |measurements|
    ensures forall k :: 0 <= k < |measurements| ==>
      points[k] == LagPoint(measurements[k].open, measurements[k].lagtimeS, measurements[k].id)
    ensures highlight == LagRows(current)
    ensures colors == RowColors(Ids(measurements))
  {
    var i := 0;
    while i < |measurements|
      invariant 0 <= i <= |measurements|
      invariant forall k :: 0 <= k < |measurements| ==> measurements[k].Valid()
      invariant forall k :: 0 <= k < i ==>
        old(measurements[k].Valid()) &&
        measurements[k].State() == AfterGetMax(old(measurements[k].State()), measurements[k].Instants(), fetched[k], rValues[k])
      invariant forall k :: i <= k < |measurements| ==> measurements[k].State() == old(measurements[k].State())
      invariant forall m: MeasurementCycle :: m in current && m !in measurements ==> m.State() == old(m.State())
    {
      var m := measurements[i];
      var _ := m.GetMax(fetched[i], rValues[i]);
      i := i + 1;
    }
    points := LagRows(measurements);
    highlight := LagRows(current);
    colors := RowColors(Ids(measurements));
  }

  /** Every lag the graph shows for a cycle whose lag search ran lies in the search's range. */
  lemma LagGraphRange(s: CycleState, t: Times, fetched: Option<seq<Row>>, rValue: real)
    requires WellFormed(s) && SortedFetch(fetched)
    requires var f := AfterJustGetData(s, t, fetched);
      f.data.Some? && f.isValid && |Slice(f.data.value, t.open, t.LagEnd())| > 0
    ensures var s' := AfterGetMax(s, t, fetched, rValue);
      s'.lagtimeS.Some? && -ShiftSeconds * MaxShifts <= s'.lagtimeS.value < LagWindowSeconds
  {
  }
}
