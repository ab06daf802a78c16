/** The Flask handlers of the field forms: the password check, and the CSV lines the water
    table, snow depth and chamber time forms become. A form is a map from field name to the
    submitted text; a name missing from it is `request.form.get` returning `None`. */
module WebApp {
  import opened Util
  import opened InfluxQueries

  /** `verify_password`: the user name exactly for a known user whose password matches, and
      nothing otherwise. */
  function VerifyPassword(users: map<string, string>, username: string, password: string): (r: Option<string>)
    ensures r.Some? <==> username in users && users[username] == password
    ensures r.Some? ==> r.value == username
  {
    if username in users && users[username] == password then Some(username) else None
  }

  type Form = map<string, string>

  /** `request.form.get(key)`. */
  function Get(form: Form, key: string): (v: Option<string>)
    ensures v.Some? <==> key in form
    ensures v.Some? ==> v.value == form[key]
  {
    if key in form then Some(form[key]) else None
  }

  /** `f"{prefix}{i}{suffix}"`. */
  function Key(prefix: string, i: nat, suffix: string): string
  {
    prefix + NatToString(i) + suffix
  }

  /** The three forms that become CSV files. */
  datatype Sheet = Water | Snow | Times

  /** The plots are numbered 1 to 72 on every form. */
  const LastPlot: nat := 72

  /** The header lines before the plot rows. */
  function Header(sheet: Sheet, form: Form): seq<string>
  {
    var name := "name," + ShowOpt(Get(form, "measurerName"));
    var date := "date," + ShowOpt(Get(form, "measurementDate"));
    match sheet
    case Water => [name, date, "plot,water_in,water_out"]
    case Snow => [name, date, "plot,snow1,snow2,snow3,palvi,manip_done"]
    case Times => [name, date, "licor_id," + ShowOpt(Get(form, "LicorId")), "Plot Number,Start Time,Notes,Chamber height"]
  }

  /** The palvi value of a snow row: an empty one becomes 100, a missing one prints `None`. */
  function Palvi(form: Form, i: nat): string
  {
    var p := Get(form, Key("palvi", i, ""));
    if p == Some("") then "100" else ShowOpt(p)
  }

  /** The note of a time row with its commas replaced by spaces; `""` stands for a missing note. */
  function Note(form: Form, i: nat): (note: string)
    ensures ',' !in note
  {
    var n := Get(form, Key("note", i, ""));
    var r := if n.Some? then ReplaceChar(n.value, ',', ' ') else "";
    assert forall k :: 0 <= k < |r| ==> r[k] != ',';
    r
  }

  /** Whether plot `i` gets a row: water with either value given, snow with any of its three
      depths given, times with a start time and a chamber height that is given or empty. */
  predicate Present(sheet: Sheet, form: Form, i: nat)
  {
    match sheet
    case Water => Acceptable(Get(form, Key("waterIn", i, ""))) || Acceptable(Get(form, Key("waterOut", i, "")))
    case Snow =>
      Acceptable(Get(form, Key("snow", i, "-1"))) || Acceptable(Get(form, Key("snow", i, "-2")))
      || Acceptable(Get(form, Key("snow", i, "-3")))
    case Times =>
      Acceptable(Get(form, Key("time", i, "")))
      && (Acceptable(Get(form, Key("snow", i, ""))) || Get(form, Key("snow", i, "")) == Some(""))
  }

  /** The comma-separated fields of the row of plot `i`. A time row without a chamber height
      records 0 and no note. */
  function Fields(sheet: Sheet, form: Form, i: nat): (fields: seq<string>)
    ensures |fields| >= 3 && fields[0] == NatToString(i)
  {
    match sheet
    case Water => [NatToString(i), ShowOpt(Get(form, Key("waterIn", i, ""))), ShowOpt(Get(form, Key("waterOut", i, "")))]
    case Snow =>
      [NatToString(i), ShowOpt(Get(form, Key("snow", i, "-1"))), ShowOpt(Get(form, Key("snow", i, "-2"))),
       ShowOpt(Get(form, Key("snow", i, "-3"))), Palvi(form, i), ShowOpt(Get(form, "lumimanip"))]
    case Times =>
      var time := ShowOpt(Get(form, Key("time", i, "")));
      if Acceptable(Get(form, Key("snow", i, ""))) then [NatToString(i), time, Note(form, i), form[Key("snow", i, "")]]
      else [NatToString(i), time, "0"]
  }

  /** The row line of plot `i`, as the handler's f-string prints it. */
  function Line(sheet: Sheet, form: Form, i: nat): string
  {
    var plot := NatToString(i);
    match sheet
    case Water => plot + "," + ShowOpt(Get(form, Key("waterIn", i, ""))) + "," + ShowOpt(Get(form, Key("waterOut", i, "")))
    case Snow =>
      plot + "," + ShowOpt(Get(form, Key("snow", i, "-1"))) + "," + ShowOpt(Get(form, Key("snow", i, "-2"))) + ","
      + ShowOpt(Get(form, Key("snow", i, "-3"))) + "," + Palvi(form, i) + "," + ShowOpt(Get(form, "lumimanip"))
    case Times =>
      var time := ShowOpt(Get(form, Key("time", i, "")));
      if Acceptable(Get(form, Key("snow", i, ""))) then plot + "," + time + "," + Note(form, i) + "," + form[Key("snow", i, "")]
      else plot + "," + time + "," + "0"
  }

  /** The plots from 1 to `n` that get a row, ascending. */
  function Plots(sheet: Sheet, form: Form, n: nat): (ps: seq<nat>)
    ensures forall k :: 0 <= k < |ps| ==> 1 <= ps[k] <= n && Present(sheet, form, ps[k])
    ensures forall j, k :: 0 <= j < k < |ps| ==> ps[j] < ps[k]
    decreases n
  {
    if n == 0 then [] else Plots(sheet, form, n - 1) + (if Present(sheet, form, n) then [n] else [])
  }

  /** Every plot with a row is listed. */
  lemma {:induction false} PlotsComplete(sheet: Sheet, form: Form, n: nat, i: nat)
    requires 1 <= i <= n && Present(sheet, form, i)
    ensures i in Plots(sheet, form, n)
    decreases n
  {
    if i < n {
      PlotsComplete(sheet, form, n - 1, i);
    }
  }

  /** The rows of the plots from 1 to `n`. */
  function Rows(sheet: Sheet, form: Form, n: nat): (rows: seq<string>)
    ensures |rows| == |Plots(sheet, form, n)|
  {
    var ps := Plots(sheet, form, n);
    seq(|ps|, k requires 0 <= k < |ps| => Line(sheet, form, ps[k]))
  }

  lemma RowsStep(sheet: Sheet, form: Form, n: nat)
    ensures Rows(sheet, form, n + 1) ==
      Rows(sheet, form, n) + (if Present(sheet, form, n + 1) then [Line(sheet, form, n + 1)] else [])
  {
  }

  /** All lines of a sheet: the header, then the row of every plot from 1 to 72 that has one. */
  function Lines(sheet: Sheet, form: Form): seq<string>
  {
    Header(sheet, form) + Rows(sheet, form, LastPlot)
  }

  /** A plot from 1 to `n` gets a row exactly when its values say so (`Lines` takes `n` = 72). */
  lemma PlotsIff(sheet: Sheet, form: Form, n: nat, i: nat)
    requires 1 <= i <= n
    ensures i in Plots(sheet, form, n) <==> Present(sheet, form, i)
  {
    if Present(sheet, form, i) {
      PlotsComplete(sheet, form, n, i);
    }
  }

  /** After the header, the k-th line is the row of the k-th plot with a row. */
  lemma LinesAfterHeader(sheet: Sheet, form: Form, n: nat, k: int)
    requires 0 <= k < |Plots(sheet, form, n)|
    ensures (Header(sheet, form) + Rows(sheet, form, n))[|Header(sheet, form)| + k] == Line(sheet, form, Plots(sheet, form, n)[k])
  {
  }

  /** `"<br>".join(inputs)` for the response and `"\n".join(inputs)` for the file. */
  function Response(lines: seq<string>): string
  {
    Join(lines, "<br>")
  }

  function FileBody(lines: seq<string>): string
  {
    Join(lines, "\n")
  }

  lemma Join3(a: string, b: string, c: string, sep: string)
    ensures Join([a, b, c], sep) == a + sep + b + sep + c
  {
    assert [a, b, c][1..] == [b, c];
    assert [b, c][1..] == [c];
  }

  lemma JoinCons(a: string, rest: seq<string>, sep: string)
    requires rest != []
    ensures Join([a] + rest, sep) == a + sep + Join(rest, sep)
  {
    assert ([a] + rest)[1..] == rest;
  }

  /** `submit_water`. The file is returned rather than written. */
  method SubmitWater(form: Form) returns (response: string, file: string)
    ensures response == Response(Lines(Water, form))
    ensures file == FileBody(Lines(Water, form))
  {
    var inputs: seq<string> := [];
    inputs := inputs + ["name," + ShowOpt(Get(form, "measurerName"))];
    inputs := inputs + ["date," + ShowOpt(Get(form, "measurementDate"))];
    inputs := inputs + ["plot,water_in,water_out"];
    for i := 1 to LastPlot + 1
      invariant inputs == Header(Water, form) + Rows(Water, form, i - 1)
    {
      RowsStep(Water, form, i - 1);
      var input1 := Get(form, Key("waterIn", i, ""));
      var input2 := Get(form, Key("waterOut", i, ""));
      if (input1.Some? && input1.value != "") || (input2.Some? && input2.value != "") {
        inputs := inputs + [NatToString(i) + "," + ShowOpt(input1) + "," + ShowOpt(input2)];
      }
    }
    file := Join(inputs, "\n");
    response := Join(inputs, "<br>");
  }

  /** `submit_snow`. */
  method SubmitSnow(form: Form) returns (response: string, file: string)
    ensures response == Response(Lines(Snow, form))
    ensures file == FileBody(Lines(Snow, form))
  {
    var inputs: seq<string> := [];
    inputs := inputs + ["name," + ShowOpt(Get(form, "measurerName"))];
    inputs := inputs + ["date," + ShowOpt(Get(form, "measurementDate"))];
    var manipDone := Get(form, "lumimanip");
    inputs := inputs + ["plot,snow1,snow2,snow3,palvi,manip_done"];
    for i := 1 to LastPlot + 1
      invariant inputs == Header(Snow, form) + Rows(Snow, form, i - 1)
    {
      RowsStep(Snow, form, i - 1);
      var input1 := Get(form, Key("snow", i, "-1"));
      var input2 := Get(form, Key("snow", i, "-2"));
      var input3 := Get(form, Key("snow", i, "-3"));
      var input4 := ShowOpt(Get(form, Key("palvi", i, "")));
      if Get(form, Key("palvi", i, "")) == Some("") {
        input4 := "100";
      }
      if (input1.Some? && input1.value != "") || (input2.Some? && input2.value != "")
         || (input3.Some? && input3.value != "") {
        inputs := inputs + [NatToString(i) + "," + ShowOpt(input1) + "," + ShowOpt(input2) + "," + ShowOpt(input3)
                            + "," + input4 + "," + ShowOpt(manipDone)];
      }
    }
    file := Join(inputs, "\n");
    response := Join(inputs, "<br>");
  }

  /** A snow row's palvi field is 100 exactly when the palvi value was submitted empty. */
  lemma PalviDefault(form: Form, i: nat)
    ensures Get(form, Key("palvi", i, "")) == Some("") ==> Fields(Snow, form, i)[4] == "100"
    ensures Acceptable(Get(form, Key("palvi", i, ""))) ==> Fields(Snow, form, i)[4] == form[Key("palvi", i, "")]
    ensures Key("palvi", i, "") !in form ==> Fields(Snow, form, i)[4] == "None"
  {
  }

  /** The notes the time form needs: the source keeps the previous plot's note when one is
      missing, so every plot that gets a four-field row must have its note field. */
  predicate NotesGiven(form: Form)
  {
    forall i: nat :: 1 <= i <= LastPlot && Acceptable(Get(form, Key("time", i, ""))) && Acceptable(Get(form, Key("snow", i, "")))
      ==> Key("note", i, "") in form
  }

  /** `submit_times`: a time with a chamber height gives a four-field row, a time with an empty
      height gives `i,time,0`, and anything else no row. */
  method SubmitTimes(form: Form) returns (response: string, file: string)
    requires NotesGiven(form)
    ensures response == Response(Lines(Times, form))
    ensures file == FileBody(Lines(Times, form))
  {
    var inputs: seq<string> := [];
    inputs := inputs + ["name," + ShowOpt(Get(form, "measurerName"))];
    inputs := inputs + ["date," + ShowOpt(Get(form, "measurementDate"))];
    inputs := inputs + ["licor_id," + ShowOpt(Get(form, "LicorId"))];
    inputs := inputs + ["Plot Number,Start Time,Notes,Chamber height"];
    var input3 := "";
    for i := 1 to LastPlot + 1
      invariant inputs == Header(Times, form) + Rows(Times, form, i - 1)
    {
      RowsStep(Times, form, i - 1);
      var input1 := Get(form, Key("time", i, ""));
      var input2 := Get(form, Key("snow", i, ""));
      var note := Get(form, Key("note", i, ""));
      if note.Some? {
        input3 := ReplaceChar(note.value, ',', ' ');
      }
      if (input1.Some? && input1.value != "") && (input2.Some? && input2.value != "") {
        inputs := inputs + [NatToString(i) + "," + input1.value + "," + input3 + "," + input2.value];
      }
      if (input1.Some? && input1.value != "") && input2 == Some("") {
        inputs := inputs + [NatToString(i) + "," + input1.value + "," + "0"];
      }
    }
    file := Join(inputs, "\n");
    response := Join(inputs, "<br>");
  }

  /** Joining a list of two or more parts one part at a time, from the left. */
  lemma JoinLast(parts: seq<string>, sep: string)
    requires |parts| >= 2
    ensures Join(parts, sep) == Join(parts[..|parts| - 1], sep) + sep + parts[|parts| - 1]
  {
    JoinSnoc(parts[..|parts| - 1], sep, parts[|parts| - 1]);
    assert parts[..|parts| - 1] + [parts[|parts| - 1]] == parts;
  }

  lemma JoinFour(f: seq<string>, sep: string)
    requires |f| == 4
    ensures Join(f, sep) == f[0] + sep + f[1] + sep + f[2] + sep + f[3]
  {
    JoinLast(f, sep);
    assert f[..3] == [f[0], f[1], f[2]];
    Join3(f[0], f[1], f[2], sep);
  }

  lemma JoinSix(f: seq<string>, sep: string)
    requires |f| == 6
    ensures Join(f, sep) == f[0] + sep + f[1] + sep + f[2] + sep + f[3] + sep + f[4] + sep + f[5]
  {
    JoinLast(f, sep);
    JoinLast(f[..5], sep);
    assert f[..5][..4] == f[..4];
    JoinFour(f[..4], sep);
  }

  /** The row line is its fields joined with commas. */
  lemma LineJoinsFields(sheet: Sheet, form: Form, i: nat)
    ensures Line(sheet, form, i) == Join(Fields(sheet, form, i), ",")
  {
    var f := Fields(sheet, form, i);
    if |f| == 6 {
      JoinSix(f, ",");
    } else if |f| == 4 {
      JoinFour(f, ",");
    } else {
      Join3(f[0], f[1], f[2], ",");
      assert f == [f[0], f[1], f[2]];
    }
  }

  /** Splitting at a separator the first part does not contain yields that part, then the
      parts of the rest. */
  lemma {:induction false} SplitAtFirst(a: string, rest: string, sep: char)
    requires sep !in a
    ensures Split(a + [sep] + rest, sep) == [a] + Split(rest, sep)
    decreases |a|
  {
    if a == [] {
      assert a + [sep] + rest == [sep] + rest;
      assert ([sep] + rest)[1..] == rest;
    } else {
      var s := a + [sep] + rest;
      assert s[0] == a[0] && s[1..] == a[1..] + [sep] + rest;
      SplitAtFirst(a[1..], rest, sep);
      assert [a[0]] + a[1..] == a;
    }
  }

  lemma {:induction false} SplitNoSep(a: string, sep: char)
    requires sep !in a
    ensures Split(a, sep) == [a]
    decreases |a|
  {
    if a != [] {
      SplitNoSep(a[1..], sep);
      assert [a[0]] + a[1..] == a;
    }
  }

  /** A line whose fields contain no comma splits back into its fields. */
  lemma {:induction false} SplitJoinedFields(parts: seq<string>, sep: char)
    requires parts != []
    requires forall k :: 0 <= k < |parts| ==> sep !in parts[k]
    ensures Split(Join(parts, [sep]), sep) == parts
    decreases |parts|
  {
    if |parts| == 1 {
      SplitNoSep(parts[0], sep);
    } else {
      SplitJoinedFields(parts[1..], sep);
      SplitAtFirst(parts[0], Join(parts[1..], [sep]), sep);
      assert [parts[0]] + parts[1..] == parts;
    }
  }

  lemma DigitsHaveNoComma(i: nat)
    ensures ',' !in NatToString(i)
  {
    var s := NatToString(i);
    assert forall k :: 0 <= k < |s| ==> s[k] != ',';
  }

  /** Every row begins with its plot number: the text before its first comma reads back as `i`. */
  lemma RowNamesPlot(sheet: Sheet, form: Form, i: nat)
    ensures Split(Line(sheet, form, i), ',')[0] == NatToString(i)
    ensures DigitsValue(Split(Line(sheet, form, i), ',')[0]) == i
  {
    var fields := Fields(sheet, form, i);
    LineJoinsFields(sheet, form, i);
    DigitsHaveNoComma(i);
    JoinCons(fields[0], fields[1..], ",");
    assert [fields[0]] + fields[1..] == fields;
    SplitAtFirst(fields[0], Join(fields[1..], ","), ',');
    NatToStringRoundTrip(i);
  }

  /** A four-field time row reads back as plot, time, note and height whenever the time and
      the height contain no comma: the note's commas were replaced, so it adds no field. */
  lemma TimesRowFields(form: Form, i: nat)
    requires Acceptable(Get(form, Key("time", i, ""))) && Acceptable(Get(form, Key("snow", i, "")))
    requires ',' !in form[Key("time", i, "")] && ',' !in form[Key("snow", i, "")]
    ensures Split(Line(Times, form, i), ',') ==
      [NatToString(i), form[Key("time", i, "")], Note(form, i), form[Key("snow", i, "")]]
  {
    DigitsHaveNoComma(i);
    LineJoinsFields(Times, form, i);
    SplitJoinedFields(Fields(Times, form, i), ',');
  }

  /** The short time row of a plot whose height was left empty reads back as plot, time and 0. */
  lemma TimesRowWithoutHeight(form: Form, i: nat)
    requires Acceptable(Get(form, Key("time", i, ""))) && Get(form, Key("snow", i, "")) == Some("")
    requires ',' !in form[Key("time", i, "")]
    ensures Present(Times, form, i)
    ensures Split(Line(Times, form, i), ',') == [NatToString(i), form[Key("time", i, "")], "0"]
  {
    DigitsHaveNoComma(i);
    LineJoinsFields(Times, form, i);
    SplitJoinedFields(Fields(Times, form, i), ',');
  }
}
