/** The manual validation page: the index transitions of the plot callback (buttons, jump,
    clamping and the skip-validated mapping) and the marking of one table row by the
    validation callback. A row is reduced to its `validated` and `validity` cells. */
module ChamberValidation {
  import opened Util

  /** The `validated` cell (absent until a row is first marked) and the `validity` cell. */
  datatype Record = Record(validated: Option<bool>, validity: Option<int>)

  /** `fillna(False).astype(bool)` of the `validated` cell. */
  predicate Validated(r: Record)
  {
    r.validated == Some(true)
  }

  /** The input that set off the plot callback; `OtherInput` is the skip checklist or no trigger. */
  datatype Action = MarkValid | MarkInvalid | Next | Previous | Jump | OtherInput

  /** The click counts of the five buttons. */
  datatype Clicks = Clicks(markValid: nat, markInvalid: nat, next: nat, previous: nat, jump: nat)

  /** The if/elif chain of the plot callback: marks and next add one, previous subtracts one,
      a jump replaces the index by a given target; each needs its button clicked at least once. */
  function Moved(action: Action, clicks: Clicks, jumpIndex: Option<int>, current: int): (i: int)
    ensures i == current || i == current + 1 || i == current - 1 || (jumpIndex.Some? && i == jumpIndex.value)
    ensures || (action == MarkValid && clicks.markValid > 0)
            || (action == MarkInvalid && clicks.markInvalid > 0)
            || (action == Next && clicks.next > 0)
            ==> i == current + 1
    ensures action == Previous && clicks.previous > 0 ==> i == current - 1
    ensures action == Jump && clicks.jump > 0 && jumpIndex.Some? ==> i == jumpIndex.value
  {
    match action
    case MarkValid => if clicks.markValid > 0 then current + 1 else current
    case MarkInvalid => if clicks.markInvalid > 0 then current + 1 else current
    case Next => if clicks.next > 0 then current + 1 else current
    case Previous => if clicks.previous > 0 then current - 1 else current
    case Jump => if clicks.jump > 0 && jumpIndex.Some? then jumpIndex.value else current
    case OtherInput => current
  }

  /** A button that was never clicked, a jump without a target and any other input leave the index. */
  lemma MoveNeedsClicks(action: Action, clicks: Clicks, jumpIndex: Option<int>, current: int)
    requires action == OtherInput
          || (action == MarkValid && clicks.markValid == 0)
          || (action == MarkInvalid && clicks.markInvalid == 0)
          || (action == Next && clicks.next == 0)
          || (action == Previous && clicks.previous == 0)
          || (action == Jump && (clicks.jump == 0 || jumpIndex.None?))
    ensures Moved(action, clicks, jumpIndex, current) == current
  {
  }

  /** `min(max(0, i), hi)`. */
  function Clamp(i: int, hi: int): (c: int)
    ensures hi >= 0 ==> 0 <= c <= hi
    ensures 0 <= i <= hi ==> c == i
    ensures hi >= 0 && i < 0 ==> c == 0
    ensures hi >= 0 && i > hi ==> c == hi
  {
    if i < 0 then (if 0 < hi then 0 else hi) else if i < hi then i else hi
  }

  /** `valid_rows.index.tolist()` in skip mode: the positions of the rows not yet validated, ascending. */
  function Unvalidated(records: seq<Record>): (us: seq<int>)
    ensures forall k :: 0 <= k < |us| ==> 0 <= us[k] < |records| && !Validated(records[us[k]])
    ensures forall j, k :: 0 <= j < k < |us| ==> us[j] < us[k]
    decreases |records|
  {
    if records == [] then []
    else
      var init := records[..|records| - 1];
      Unvalidated(init) + (if Validated(records[|records| - 1]) then [] else [|records| - 1])
  }

  /** Every row not yet validated is listed. */
  lemma {:induction false} UnvalidatedComplete(records: seq<Record>, p: int)
    requires 0 <= p < |records| && !Validated(records[p])
    ensures p in Unvalidated(records)
    decreases |records|
  {
    if p < |records| - 1 {
      var init := records[..|records| - 1];
      assert init[p] == records[p];
      UnvalidatedComplete(init, p);
    }
  }

  /** The rows the callback can show: all of them, or in skip mode those not yet validated. */
  predicate HasRows(skip: bool, records: seq<Record>)
  {
    records != [] && (skip ==> Unvalidated(records) != [])
  }

  /** The index the plot callback stores: the moved index clamped to the table, or in skip
      mode clamped to the list of unvalidated rows and replaced by that row's position. */
  function TargetIndex(action: Action, clicks: Clicks, jumpIndex: Option<int>, skip: bool,
                       current: int, records: seq<Record>): (index: int)
    requires HasRows(skip, records)
    ensures 0 <= index < |records|
    ensures skip ==> !Validated(records[index])
  {
    var moved := Moved(action, clicks, jumpIndex, current);
    if skip then
      var us := Unvalidated(records);
      us[Clamp(moved, |us| - 1)]
    else Clamp(moved, |records| - 1)
  }

  /** The index computation of `update_plot`. The figure is left out, and so are the marks this
      callback writes into its own copy of the table: only the figure shows them, and the
      copy is dropped when the callback returns. */
  method UpdatePlot(action: Action, clicks: Clicks, jumpIndex: Option<int>, skip: bool,
                    current: int, records: seq<Record>) returns (index: int)
    requires HasRows(skip, records)
    ensures index == TargetIndex(action, clicks, jumpIndex, skip, current, records)
    ensures 0 <= index < |records|
    ensures skip ==> index in Unvalidated(records)
  {
    index := current;
    if action == MarkValid && clicks.markValid > 0 {
      index := index + 1;
    } else if action == MarkInvalid && clicks.markInvalid > 0 {
      index := index + 1;
    } else if action == Next && clicks.next > 0 {
      index := index + 1;
    } else if action == Previous && clicks.previous > 0 {
      index := index - 1;
    } else if action == Jump && clicks.jump > 0 && jumpIndex.Some? {
      index := jumpIndex.value;
    }
    if skip {
      var validIndices := Unvalidated(records);
      index := Clamp(index, |validIndices| - 1);
      index := validIndices[index];
    } else {
      index := Clamp(index, |records| - 1);
    }
  }

  /** Outside skip mode next then previous comes back to any row but the last, and previous
      then next to any row but the first; at the ends the index stops instead of wrapping. */
  lemma NextThenPrevious(clicks: Clicks, jumpIndex: Option<int>, i: int, records: seq<Record>)
    requires clicks.next > 0 && clicks.previous > 0
    requires 0 <= i < |records|
    ensures i < |records| - 1 ==>
      TargetIndex(Previous, clicks, jumpIndex, false, TargetIndex(Next, clicks, jumpIndex, false, i, records), records) == i
    ensures i > 0 ==>
      TargetIndex(Next, clicks, jumpIndex, false, TargetIndex(Previous, clicks, jumpIndex, false, i, records), records) == i
    ensures TargetIndex(Next, clicks, jumpIndex, false, |records| - 1, records) == |records| - 1
    ensures TargetIndex(Previous, clicks, jumpIndex, false, 0, records) == 0
  {
  }

  /** A jump outside skip mode lands on a target inside the table and on the nearest end otherwise. */
  lemma JumpLands(clicks: Clicks, target: int, current: int, records: seq<Record>)
    requires clicks.jump > 0 && records != []
    ensures 0 <= target < |records| ==> TargetIndex(Jump, clicks, Some(target), false, current, records) == target
    ensures target < 0 ==> TargetIndex(Jump, clicks, Some(target), false, current, records) == 0
    ensures target >= |records| ==> TargetIndex(Jump, clicks, Some(target), false, current, records) == |records| - 1
  {
  }

  /** The stored index stays a row of the table, so it is always a valid input to the next call. */
  lemma IndexStaysInTable(action: Action, clicks: Clicks, jumpIndex: Option<int>, skip: bool,
                          current: int, records: seq<Record>, action': Action, clicks': Clicks)
    requires HasRows(skip, records)
    ensures var i := TargetIndex(action, clicks, jumpIndex, skip, current, records);
      0 <= TargetIndex(action', clicks', jumpIndex, skip, i, records) < |records|
  {
  }

  /** In skip mode the stored index is a table position but is moved and clamped as a position
      in the list of unvalidated rows: with rows 0 and 2 unvalidated, previous from row 2
      clamps 1 to the last list position and stays on row 2. */
  lemma SkipPreviousCanStay()
    ensures var u := Record(None, None);
      var v := Record(Some(true), Some(1));
      Unvalidated([u, v, u]) == [0, 2] &&
      TargetIndex(Previous, Clicks(0, 0, 0, 1, 0), None, true, 2, [u, v, u]) == 2
  {
    var u := Record(None, None);
    var v := Record(Some(true), Some(1));
    var records := [u, v, u];
    assert records[..1] == [u];
    assert records[..2] == [u, v];
    assert Unvalidated([u]) == [0] by {
      assert [u][..0] == [];
    }
    assert Unvalidated([u, v]) == [0];
  }

  /** The rule of `validate_data`: 1 (valid) when the valid button has at least as many clicks
      as the invalid one and at least one, else 0 (invalid) when the invalid button has been
      clicked, else no mark. */
  function Marking(validClicks: nat, invalidClicks: nat): (m: Option<int>)
  {
    if validClicks > 0 && validClicks >= invalidClicks then Some(1)
    else if invalidClicks > 0 && invalidClicks >= validClicks then Some(0)
    else None
  }

  /** The three outcomes of the rule, each in both directions: ties between positive counts
      resolve to valid, and only two zero counts leave the row unmarked. */
  lemma MarkingCases(validClicks: nat, invalidClicks: nat)
    ensures Marking(validClicks, invalidClicks) == Some(1) <==> validClicks > 0 && validClicks >= invalidClicks
    ensures Marking(validClicks, invalidClicks) == Some(0) <==> invalidClicks > validClicks
    ensures Marking(validClicks, invalidClicks).None? <==> validClicks == 0 && invalidClicks == 0
  {
  }

  /** `validate_data`: copy the table, write the mark into the row at `current` and
      return the copy. The row must exist when a mark is written. */
  method ValidateData(validClicks: nat, invalidClicks: nat, current: int, records: seq<Record>)
    returns (updated: seq<Record>)
    requires Marking(validClicks, invalidClicks).Some? ==> 0 <= current < |records|
    ensures Marking(validClicks, invalidClicks).None? ==> updated == records
    ensures Marking(validClicks, invalidClicks).Some? ==>
      updated == records[current := Record(Some(true), Marking(validClicks, invalidClicks))]
    ensures |updated| == |records|
    ensures forall k :: 0 <= k < |records| && k != current ==> updated[k] == records[k]
  {
    var table := new Record[|records|](k requires 0 <= k < |records| => records[k]);
    if validClicks > 0 && validClicks >= invalidClicks {
      table[current] := Record(Some(true), Some(1));
    } else if invalidClicks > 0 && invalidClicks >= validClicks {
      table[current] := Record(Some(true), Some(0));
    }
    updated := table[..];
  }

  /** A marked row is validated, whichever way it was marked. */
  lemma MarkValidates(validClicks: nat, invalidClicks: nat, current: int, records: seq<Record>)
    requires Marking(validClicks, invalidClicks).Some? && 0 <= current < |records|
    ensures Validated(records[current := Record(Some(true), Marking(validClicks, invalidClicks))][current])
    ensures current !in Unvalidated(records[current := Record(Some(true), Marking(validClicks, invalidClicks))])
  {
  }
}
