/** The Flux query strings sent to InfluxDB: the bucket, range, measurement and field
    clauses, the data query, the oldest/newest timestamp queries, and the way a
    read turns its optional bounds and comma-separated field list into a query. */
module InfluxQueries {
  import opened Util

  /** `f'\t|> filter(fn: (r) => '`, the opening of the field clause. */
  const FieldOpen: string := "\t|> filter(fn: (r) => "

  /** The text before a field name in one field test. */
  const FieldTestHead: string := "r[\"_field\"] == \""

  const Or: string := " or "

  const Pivot: string := "\t|> pivot(rowKey:[\"_time\"], columnKey: [\"_field\"], valueColumn: \"_value\")"

  const FirstTail: string := "\t|> first(column: \"_time\")\n\t|> yield(name: \"first\")"

  const LastTail: string := "|> last(column: \"_time\")\n|> yield(name: \"last\")"

  /** `r["_field"] == "f"`. */
  function FieldTest(f: string): string
  {
    FieldTestHead + f + "\""
  }

  /** The field tests of `fields`, in input order. */
  function FieldTests(fields: seq<string>): (tests: seq<string>)
    ensures |tests| == |fields|
    ensures forall k :: 0 <= k < |fields| ==> tests[k] == FieldTest(fields[k])
    decreases |fields|
  {
    if fields == [] then [] else [FieldTest(fields[0])] + FieldTests(fields[1..])
  }

  /** The field clause: one test per field, joined by ` or `, inside a `filter`. */
  function FieldClause(fields: seq<string>): string
    requires fields != []
  {
    FieldOpen + Join(FieldTests(fields), Or) + ")\n"
  }

  lemma ConcatAssoc(a: string, b: string, c: string)
    ensures a + b + c == a + (b + c)
  {
  }

  /** `mk_field_q`: the first test, then ` or ` and a test per further field, then `)\n`.
      The source indexes `field_list[0]`, so the list must not be empty. */
  method MkFieldQ(fields: seq<string>) returns (q: string)
    requires fields != []
    ensures q == FieldClause(fields)
  {
    q := FieldOpen + FieldTest(fields[0]);
    var i := 1;
    while i < |fields|
      invariant 1 <= i <= |fields|
      invariant q == FieldOpen + Join(FieldTests(fields[..i]), Or)
    {
      ghost var j := Join(FieldTests(fields[..i]), Or);
      assert FieldTests(fields[..i + 1]) == FieldTests(fields[..i]) + [FieldTest(fields[i])];
      JoinSnoc(FieldTests(fields[..i]), Or, FieldTest(fields[i]));
      ConcatAssoc(FieldOpen, j, Or);
      ConcatAssoc(FieldOpen, j + Or, FieldTest(fields[i]));
      q := q + Or + FieldTest(fields[i]);
      i := i + 1;
    }
    assert fields[..i] == fields;
    q := q + ")\n";
  }

  /** `mk_bucket_q`. */
  function MkBucketQ(bucket: string): string
  {
    "from(bucket: \"" + bucket + "\")\n"
  }

  /** `mk_range_q`; `start` and `stop` are the texts the f-string prints. */
  function MkRangeQ(start: string, stop: string): string
  {
    "\t|> range(start: " + start + ", stop: " + stop + ")\n"
  }

  /** `mk_meas_q`. */
  function MkMeasQ(measurement: string): string
  {
    "\t|> filter(fn: (r) => r[\"_measurement\"] == \"" + measurement + "\")\n"
  }

  /** The four clauses every query begins with. */
  function QueryHead(bucket: string, start: string, stop: string, measurement: string, fields: seq<string>): string
    requires fields != []
  {
    MkBucketQ(bucket) + MkRangeQ(start, stop) + MkMeasQ(measurement) + FieldClause(fields)
  }

  /** `mk_query`: bucket, range, measurement and field clauses, then the pivot. */
  function MkQuery(bucket: string, start: string, stop: string, measurement: string, fields: seq<string>): string
    requires fields != []
  {
    QueryHead(bucket, start, stop, measurement, fields) + Pivot
  }

  /** `mk_oldest_ts_q`: the whole time range, then `first`. */
  function MkOldestTsQ(bucket: string, measurement: string, fields: seq<string>): string
    requires fields != []
  {
    QueryHead(bucket, "0", "now()", measurement, fields) + FirstTail
  }

  /** `mk_newest_ts_q`: the whole time range, then `last`. */
  function MkNewestTsQ(bucket: string, measurement: string, fields: seq<string>): string
    requires fields != []
  {
    QueryHead(bucket, "0", "now()", measurement, fields) + LastTail
  }

  /** The range bounds of `read_ifdb` and `just_read`: a missing start reads from `0`, a
      missing stop up to `now()`; a given bound is its formatted timestamp. */
  function RangeBounds(startTs: Option<string>, stopTs: Option<string>): (string, string)
  {
    (if startTs.Some? then startTs.value else "0", if stopTs.Some? then stopTs.value else "now()")
  }

  /** `str.split(sep)` for a one-character separator. */
  function Split(s: string, sep: char): (parts: seq<string>)
    ensures |parts| >= 1
    ensures forall k :: 0 <= k < |parts| ==> sep !in parts[k]
    decreases |s|
  {
    if s == [] then [""]
    else if s[0] == sep then [""] + Split(s[1..], sep)
    else
      var rest := Split(s[1..], sep);
      [[s[0]] + rest[0]] + rest[1..]
  }

  /** Joining the parts of a split with the separator gives back the string. */
  lemma {:induction false} SplitJoin(s: string, sep: char)
    ensures Join(Split(s, sep), [sep]) == s
    decreases |s|
  {
    if s != [] {
      SplitJoin(s[1..], sep);
      var rest := Split(s[1..], sep);
      if s[0] == sep {
        assert Split(s, sep) == [""] + rest;
        assert ([""] + rest)[1..] == rest;
      } else {
        var parts := Split(s, sep);
        assert parts == [[s[0]] + rest[0]] + rest[1..];
        if |rest| == 1 {
          assert s == [s[0]] + s[1..];
        } else {
          assert parts[1..] == rest[1..];
          assert Join(rest, [sep]) == rest[0] + [sep] + Join(rest[1..], [sep]);
          assert s == [s[0]] + s[1..];
        }
      }
    }
  }

  /** The query `read_ifdb`/`just_read` send: the optional bounds defaulted, the field list
      split at commas (never empty, so the field clause is always defined). */
  function ReadQuery(bucket: string, measurement: string, fieldList: string,
                     startTs: Option<string>, stopTs: Option<string>): string
  {
    var bounds := RangeBounds(startTs, stopTs);
    MkQuery(bucket, bounds.0, bounds.1, measurement, Split(fieldList, ','))
  }

  /** Each bound of a read is the given timestamp, or the open end of the time range
      (`0` for the start, `now()` for the stop) when it is missing; the fields are the
      comma-separated parts of the field list. */
  lemma ReadQueryDefaults(bucket: string, measurement: string, fieldList: string, startTs: string, stopTs: string)
    ensures var fields := Split(fieldList, ',');
      && ReadQuery(bucket, measurement, fieldList, Some(startTs), Some(stopTs)) == MkQuery(bucket, startTs, stopTs, measurement, fields)
      && ReadQuery(bucket, measurement, fieldList, None, Some(stopTs)) == MkQuery(bucket, "0", stopTs, measurement, fields)
      && ReadQuery(bucket, measurement, fieldList, Some(startTs), None) == MkQuery(bucket, startTs, "now()", measurement, fields)
      && ReadQuery(bucket, measurement, fieldList, None, None) == MkQuery(bucket, "0", "now()", measurement, fields)
  {
  }

  /** The oldest/newest queries read the same rows as an unbounded read: they share its
      clauses and differ from it only in the tail that replaces the pivot. */
  lemma TimestampQueriesShareUnboundedHead(bucket: string, measurement: string, fieldList: string)
    ensures var fields := Split(fieldList, ',');
      var head := QueryHead(bucket, "0", "now()", measurement, fields);
      ReadQuery(bucket, measurement, fieldList, None, None) == head + Pivot &&
      MkOldestTsQ(bucket, measurement, fields) == head + FirstTail &&
      MkNewestTsQ(bucket, measurement, fields) == head + LastTail
  {
  }

  /** In a test chain the first quote after the test head closes the field name. */
  lemma QuoteClosesName(a: string, u: string)
    requires '"' !in a
    ensures (FieldTest(a) + u)[|FieldTestHead| + |a|] == '"'
    ensures forall k :: |FieldTestHead| <= k < |FieldTestHead| + |a| ==> (FieldTest(a) + u)[k] != '"'
  {
    var x := FieldTest(a) + u;
    forall k | |FieldTestHead| <= k < |FieldTestHead| + |a|
      ensures x[k] != '"'
    {
      assert x[k] == a[k - |FieldTestHead|];
    }
  }

  /** A field name and what follows its test can be read back from a test chain: the name is
      the text up to the next quote, so two chains that agree agree on both parts. */
  lemma FieldTestCancel(a: string, b: string, u: string, v: string)
    requires '"' !in a && '"' !in b
    requires FieldTest(a) + u == FieldTest(b) + v
    ensures a == b && u == v
  {
    var n := |FieldTestHead|;
    var x := FieldTest(a) + u;
    QuoteClosesName(a, u);
    QuoteClosesName(b, v);
    assert |a| == |b|;
    assert a == x[n..n + |a|];
    assert b == x[n..n + |b|];
    assert u == x[n + |a| + 1..];
    assert v == x[n + |b| + 1..];
  }

  /** What follows the first test in a chain: nothing, or ` or ` and the rest of the chain. */
  function ChainTail(fields: seq<string>): (tail: string)
    requires fields != []
    ensures |fields| == 1 <==> tail == ""
  {
    if |fields| == 1 then "" else Or + Join(FieldTests(fields[1..]), Or)
  }

  /** The chained tests of a non-empty list: the first test, then the tail. */
  lemma ChainHead(fields: seq<string>)
    requires fields != []
    ensures Join(FieldTests(fields), Or) == FieldTest(fields[0]) + ChainTail(fields)
  {
    var tests := FieldTests(fields);
    if |fields| > 1 {
      var rest := Join(FieldTests(fields[1..]), Or);
      assert tests[1..] == FieldTests(fields[1..]);
      assert Join(tests, Or) == tests[0] + Or + rest;
      ConcatAssoc(tests[0], Or, rest);
    } else {
      assert FieldTest(fields[0]) + "" == FieldTest(fields[0]);
    }
  }

  /** Field names without quotes are recoverable from the field clause: different lists
      give different clauses. */
  lemma {:induction false} FieldClauseInjective(f1: seq<string>, f2: seq<string>)
    requires f1 != [] && f2 != []
    requires forall k :: 0 <= k < |f1| ==> '"' !in f1[k]
    requires forall k :: 0 <= k < |f2| ==> '"' !in f2[k]
    requires Join(FieldTests(f1), Or) == Join(FieldTests(f2), Or)
    ensures f1 == f2
    decreases |f1|
  {
    ChainHead(f1);
    ChainHead(f2);
    FieldTestCancel(f1[0], f2[0], ChainTail(f1), ChainTail(f2));
    if |f1| > 1 && |f2| > 1 {
      assert ChainTail(f1)[|Or|..] == Join(FieldTests(f1[1..]), Or);
      assert ChainTail(f2)[|Or|..] == Join(FieldTests(f2[1..]), Or);
      FieldClauseInjective(f1[1..], f2[1..]);
      assert f1 == [f1[0]] + f1[1..];
      assert f2 == [f2[0]] + f2[1..];
    }
  }

  /** The same for the whole clause. */
  lemma FieldClauseRecoversFields(f1: seq<string>, f2: seq<string>)
    requires f1 != [] && f2 != []
    requires forall k :: 0 <= k < |f1| ==> '"' !in f1[k]
    requires forall k :: 0 <= k < |f2| ==> '"' !in f2[k]
    requires FieldClause(f1) == FieldClause(f2)
    ensures f1 == f2
  {
    var j1 := Join(FieldTests(f1), Or);
    var j2 := Join(FieldTests(f2), Or);
    assert |j1| == |j2|;
    assert j1 == FieldClause(f1)[|FieldOpen|..|FieldOpen| + |j1|];
    assert j2 == FieldClause(f2)[|FieldOpen|..|FieldOpen| + |j2|];
    FieldClauseInjective(f1, f2);
  }
}
