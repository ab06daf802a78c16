/** The overview pages: which page the two buttons select, which table rows a page shows
    (with pandas' negative `iloc` positions), the padding to a fixed number of figures, the
    plot windows, the row filter and page total of the second overview, and the title colour. */
module Overview {
  import opened Util

  const GraphsPerPage: int := 50

  /** Whole minutes and seconds in the window offsets. */
  const TwoMinutes: int := 120
  const FiveSeconds: int := 5

  /** `(next_clicks - prev_clicks) if (prev_clicks + next_clicks) > 0 else 0`. */
  function Page(prevClicks: nat, nextClicks: nat): int
  {
    if prevClicks + nextClicks > 0 then nextClicks - prevClicks else 0
  }

  /** The guard is redundant: with no clicks the difference is 0 too, so the page is always
      the difference of the click counts, and it is negative after more previous than next clicks. */
  lemma PageIsDifference(prevClicks: nat, nextClicks: nat)
    ensures Page(prevClicks, nextClicks) == nextClicks - prevClicks
    ensures Page(prevClicks, nextClicks) < 0 <==> prevClicks > nextClicks
  {
  }

  /** `range(a, b)`. */
  function Range(a: int, b: int): (r: seq<int>)
    ensures |r| == (if a <= b then b - a else 0)
    ensures forall k :: 0 <= k < |r| ==> r[k] == a + k
  {
    if a <= b then seq(b - a, k requires 0 <= k < b - a => a + k) else []
  }

  /** The positions the loop of a page visits: `range(start, min(start + 50, n))`. */
  function PageRows(page: int, n: nat): (rows: seq<int>)
    ensures |rows| <= GraphsPerPage
  {
    var start := page * GraphsPerPage;
    var end := start + GraphsPerPage;
    Range(start, if end < n then end else n)
  }

  /** `iloc[i]` on a table of `n` rows: the row at `i`, or at `n + i` for a negative `i`;
      `None` is an `IndexError`. */
  function ILoc(i: int, n: nat): (p: Option<nat>)
    ensures p.Some? <==> 0 <= n + i && i < n
    ensures p.Some? ==> p.value < n && (i >= 0 ==> p.value == i) && (i < 0 ==> p.value == n + i)
  {
    if 0 <= i < n then Some(i) else if 0 <= n + i && i < 0 then Some(n + i) else None
  }

  /** The rows a run of `iloc` lookups reads, or `None` if one of them fails. */
  function Rendered(ixs: seq<int>, n: nat): (rows: Option<seq<nat>>)
    ensures rows.Some? ==> |rows.value| == |ixs|
    ensures rows.Some? ==> forall k :: 0 <= k < |ixs| ==> ILoc(ixs[k], n) == Some(rows.value[k])
    decreases |ixs|
  {
    if ixs == [] then Some([])
    else
      var init := Rendered(ixs[..|ixs| - 1], n);
      var last := ILoc(ixs[|ixs| - 1], n);
      if init.None? || last.None? then None else Some(init.value + [last.value])
  }

  /** A run of lookups fails exactly when one lookup fails. */
  lemma {:induction false} RenderedFails(ixs: seq<int>, n: nat)
    ensures Rendered(ixs, n).None? <==> exists k :: 0 <= k < |ixs| && ILoc(ixs[k], n).None?
    decreases |ixs|
  {
    if ixs != [] {
      var init := ixs[..|ixs| - 1];
      RenderedFails(init, n);
      assert forall k :: 0 <= k < |init| ==> init[k] == ixs[k];
    }
  }

  lemma RenderedSnoc(ixs: seq<int>, i: int, n: nat)
    ensures Rendered(ixs + [i], n) ==
      if Rendered(ixs, n).None? || ILoc(i, n).None? then None else Some(Rendered(ixs, n).value + [ILoc(i, n).value])
  {
    assert (ixs + [i])[..|ixs|] == ixs;
  }

  /** A lookup that fails inside a range makes the whole run fail. */
  lemma FailingLookup(a: int, b: int, i: int, n: nat)
    requires a <= i < b && ILoc(i, n).None?
    ensures Rendered(Range(a, b), n).None?
  {
    RenderedFails(Range(a, b), n);
    assert Range(a, b)[i - a] == i;
  }

  /** One figure: an empty one, or the plot of the table row at a position. */
  datatype Fig = EmptyFig | RowFig(position: nat)

  /** The figures of the rendered rows followed by empty figures up to 50. */
  function Padded(rows: seq<nat>): (figs: seq<Fig>)
    requires |rows| <= GraphsPerPage
    ensures |figs| == GraphsPerPage
    ensures forall k :: 0 <= k < |rows| ==> figs[k] == RowFig(rows[k])
    ensures forall k :: |rows| <= k < GraphsPerPage ==> figs[k] == EmptyFig
  {
    seq(GraphsPerPage, k requires 0 <= k < GraphsPerPage => if k < |rows| then RowFig(rows[k]) else EmptyFig)
  }

  /** The loop of `update_overview_graphs` over `range(start, stop)`: the figure of each row
      `iloc` finds, in order; `ok` is false when a lookup raises. */
  method RenderRows(start: int, stop: int, numGraphs: nat) returns (figs: seq<Fig>, ok: bool)
    ensures ok <==> Rendered(Range(start, stop), numGraphs).Some?
    ensures ok ==> var rows := Rendered(Range(start, stop), numGraphs).value;
      |figs| == |rows| && forall k :: 0 <= k < |rows| ==> figs[k] == RowFig(rows[k])
  {
    ghost var rows: seq<nat> := [];
    figs := [];
    var i := start;
    while i < stop
      invariant start <= i <= (if start <= stop then stop else start)
      invariant Rendered(Range(start, i), numGraphs) == Some(rows)
      invariant |figs| == |rows| && forall k :: 0 <= k < |rows| ==> figs[k] == RowFig(rows[k])
    {
      assert Range(start, i + 1) == Range(start, i) + [i];
      RenderedSnoc(Range(start, i), i, numGraphs);
      var position := ILoc(i, numGraphs);
      if position.None? {
        ok := false;
        FailingLookup(start, stop, i, numGraphs);
        return;
      }
      rows := rows + [position.value];
      figs := figs + [RowFig(position.value)];
      i := i + 1;
    }
    if start <= stop {
      assert i == stop;
    } else {
      assert i == start;
    }
    ok := true;
  }

  /** The padding loop: one empty figure for each of the `50 - len(figs)` missing ones. */
  method PadFigs(figs: seq<Fig>) returns (padded: seq<Fig>)
    requires |figs| <= GraphsPerPage
    ensures |padded| == GraphsPerPage
    ensures forall k :: 0 <= k < |figs| ==> padded[k] == figs[k]
    ensures forall k :: |figs| <= k < GraphsPerPage ==> padded[k] == EmptyFig
  {
    padded := figs;
    while |padded| < GraphsPerPage
      invariant |figs| <= |padded| <= GraphsPerPage
      invariant forall k :: 0 <= k < |figs| ==> padded[k] == figs[k]
      invariant forall k :: |figs| <= k < |padded| ==> padded[k] == EmptyFig
      decreases GraphsPerPage - |padded|
    {
      padded := padded + [EmptyFig];
    }
  }

  /** `update_overview_graphs` (both overviews share this part): one figure per visited row,
      then empty figures up to 50. `ok` is false when an `iloc` lookup raises. */
  method UpdateOverviewGraphs(prevClicks: nat, nextClicks: nat, numGraphs: nat) returns (figs: seq<Fig>, ok: bool)
    ensures var rows := Rendered(PageRows(Page(prevClicks, nextClicks), numGraphs), numGraphs);
      (ok <==> rows.Some?) && (ok ==> figs == Padded(rows.value))
  {
    var page := if prevClicks + nextClicks > 0 then nextClicks - prevClicks else 0;
    var startIndex := page * GraphsPerPage;
    var endIndex := startIndex + GraphsPerPage;
    var stop := if endIndex < numGraphs then endIndex else numGraphs;
    assert Range(startIndex, stop) == PageRows(Page(prevClicks, nextClicks), numGraphs);
    figs, ok := RenderRows(startIndex, stop, numGraphs);
    if ok {
      ghost var rows := Rendered(Range(startIndex, stop), numGraphs).value;
      figs := PadFigs(figs);
      assert figs == Padded(rows);
    }
  }

  /** A page that is not negative shows rows `[50 page, min(50 page + 50, n))` in order. */
  lemma NonNegativePage(page: int, n: nat)
    requires page >= 0
    ensures Rendered(PageRows(page, n), n) == Some(PageRows(page, n))
    ensures forall k :: 0 <= k < |PageRows(page, n)| ==>
      PageRows(page, n)[k] == GraphsPerPage * page + k && PageRows(page, n)[k] < n
  {
    var rows := PageRows(page, n);
    RenderedFails(rows, n);
    var r := Rendered(rows, n).value;
    assert r == rows by {
      forall k | 0 <= k < |rows| ensures r[k] == rows[k] {
        assert ILoc(rows[k], n) == Some(r[k]);
      }
    }
  }

  /** A negative page counts back from the end of the table: it fails unless the table has
      `-50 page` rows, and then shows the 50 rows starting `-50 page` from the end. */
  lemma NegativePage(page: int, n: nat)
    requires page < 0
    ensures Rendered(PageRows(page, n), n).Some? <==> n >= -GraphsPerPage * page
    ensures n >= -GraphsPerPage * page ==>
      |PageRows(page, n)| == GraphsPerPage &&
      forall k :: 0 <= k < GraphsPerPage ==>
        Rendered(PageRows(page, n), n).value[k] == n + GraphsPerPage * page + k
  {
    var rows := PageRows(page, n);
    assert |rows| == GraphsPerPage;
    assert forall k :: 0 <= k < GraphsPerPage ==> rows[k] == GraphsPerPage * page + k < 0;
    RenderedFails(rows, n);
    if n < -GraphsPerPage * page {
      assert ILoc(rows[0], n).None?;
    }
  }

  /** The plot window of a cycle: two minutes before its start to two minutes after its end. */
  function PlotWindow(startTime: int, endTime: int): (w: (int, int))
  {
    (startTime - TwoMinutes, endTime + TwoMinutes)
  }

  /** The first overview filters its data 5 s inside the plot window on either side. */
  function TrimmedWindow(startTime: int, endTime: int): (w: (int, int))
  {
    var (lo, hi) := PlotWindow(startTime, endTime);
    (lo + FiveSeconds, hi - FiveSeconds)
  }

  /** The data rows the figure plots: `index >= lo` and `index <= hi`, both ends included. */
  function InWindow(times: seq<int>, lo: int, hi: int): (w: seq<int>)
    decreases |times|
  {
    if times == [] then [] else (if lo <= times[0] <= hi then [times[0]] else []) + InWindow(times[1..], lo, hi)
  }

  lemma {:induction false} InWindowMembers(times: seq<int>, lo: int, hi: int, t: int)
    ensures t in InWindow(times, lo, hi) <==> t in times && lo <= t <= hi
    decreases |times|
  {
    if times != [] {
      InWindowMembers(times[1..], lo, hi, t);
      assert times == [times[0]] + times[1..];
    }
  }

  /** The first overview plots only data rows at least 5 s inside the drawn window: a row is
      plotted exactly when it lies within [start − 115 s, end + 115 s], and every plotted row
      is also one the untrimmed window would keep. */
  lemma TrimmedDataInsideWindow(times: seq<int>, startTime: int, endTime: int, t: int)
    ensures var (lo, hi) := TrimmedWindow(startTime, endTime);
      t in InWindow(times, lo, hi) <==> t in times && startTime - 115 <= t <= endTime + 115
    ensures var (lo, hi) := TrimmedWindow(startTime, endTime);
      var (plo, phi) := PlotWindow(startTime, endTime);
      t in InWindow(times, lo, hi) ==> t in InWindow(times, plo, phi) && plo + 5 <= t <= phi - 5
  {
    var (lo, hi) := TrimmedWindow(startTime, endTime);
    var (plo, phi) := PlotWindow(startTime, endTime);
    InWindowMembers(times, lo, hi, t);
    InWindowMembers(times, plo, phi, t);
  }

  /** One row of the timestamps table the second overview filters. */
  datatype CycleRow = CycleRow(time: int, isValid: int, r: real, chamber: string)

  /** 2021-10-19 and 2022-10-31 at midnight, in epoch seconds. */
  const FilterFrom: int := 1634601600
  const FilterTo: int := 1667174400

  predicate KeptByEeva(row: CycleRow)
  {
    row.isValid == 1 && row.r < 0.975 && FilterFrom < row.time < FilterTo
  }

  /** The three masks of `create_overview_app_eeva`, applied in turn. */
  function EevaRows(rows: seq<CycleRow>): (kept: seq<CycleRow>)
    decreases |rows|
  {
    if rows == [] then []
    else
      var init := EevaRows(rows[..|rows| - 1]);
      var last := rows[|rows| - 1];
      init + (if last.isValid == 1 && last.r < 0.975 && FilterFrom < last.time && last.time < FilterTo then [last] else [])
  }

  /** A row is kept exactly when it is valid, its r is below 0.975 and it lies strictly between
      the two dates; the kept rows keep their order. */
  lemma {:induction false} EevaRowsMembers(rows: seq<CycleRow>, row: CycleRow)
    ensures row in EevaRows(rows) <==> row in rows && KeptByEeva(row)
    decreases |rows|
  {
    if rows != [] {
      var init := rows[..|rows| - 1];
      assert rows == init + [rows[|rows| - 1]];
      EevaRowsMembers(init, row);
    }
  }

  lemma {:induction false} EevaRowsAppend(rows1: seq<CycleRow>, rows2: seq<CycleRow>)
    ensures EevaRows(rows1 + rows2) == EevaRows(rows1) + EevaRows(rows2)
    decreases |rows2|
  {
    if rows2 == [] {
      assert rows1 + rows2 == rows1;
    } else {
      var init := rows2[..|rows2| - 1];
      assert (rows1 + rows2)[..|rows1 + rows2| - 1] == rows1 + init;
      EevaRowsAppend(rows1, init);
    }
  }

  /** `int(round(count / 50, 0))`: Python rounds halves to the even neighbour. */
  function PageTotal(count: nat): (total: nat)
  {
    var q := count / GraphsPerPage;
    var r := count % GraphsPerPage;
    if r > GraphsPerPage / 2 || (r == GraphsPerPage / 2 && q % 2 == 1) then q + 1 else q
  }

  /** The page total is the nearest whole number of pages, ties going to the even one. */
  lemma PageTotalNearest(count: nat)
    ensures -25 <= count - GraphsPerPage * PageTotal(count) <= 25
    ensures count - GraphsPerPage * PageTotal(count) == 25 ==> PageTotal(count) % 2 == 0
    ensures count - GraphsPerPage * PageTotal(count) == -25 ==> PageTotal(count) % 2 == 0
  {
  }

  /** The first overview's title colour. */
  function TitleColor(isValid: int): string
  {
    if isValid == 1 then "green" else "red"
  }

  /** The second overview's close-to-open rectangle colour. */
  function FillColor(isValid: int): string
  {
    if isValid == 0 then "red" else "green"
  }

  /** The title is green exactly for valid rows; in the second overview every row shown passed
      the validity mask, so its rectangle is always green. */
  lemma ColorsFollowValidity(isValid: int, rows: seq<CycleRow>, k: int)
    requires 0 <= k < |EevaRows(rows)|
    ensures TitleColor(isValid) == "green" <==> isValid == 1
    ensures FillColor(EevaRows(rows)[k].isValid) == "green"
  {
    EevaRowsMembers(rows, EevaRows(rows)[k]);
  }
}
