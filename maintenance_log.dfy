/** The maintenance-log form: the checks a submission goes through, in order, and the two
    InfluxDB points a valid submission becomes. Instants are epoch seconds. Parsing the
    date and time texts is a parameter `parse` giving the wall-clock time read as UTC (`None`
    is a `strptime` error), and `local_tz.localize` is a parameter `localize` taking that
    reading to the instant it denotes in Europe/Helsinki. */
module MaintenanceLog {
  import opened Util

  const SelectProject: string := "Select project."
  const EnterMessage: string := "Please enter log message."
  const ProvideDate: string := "Please provide date."
  const ProvideTime: string := "Please provide time."
  const StartAfterEnd: string := "Start time can't be later than end time."

  /** A field value: a text, or the Grafana end time in milliseconds. */
  datatype FieldValue = Text(text: string) | Millis(ms: int) | Null

  /** One point dictionary: measurement name, fields, tags, time and time zone name. */
  datatype Point = Point(measurement: string, fields: map<string, FieldValue>, tags: map<string, string>,
                         time: Option<int>, timezone: string)

  /** `mk_grafana_ts`: the instant in milliseconds (the container clock runs in UTC, so
      `mktime` of the UTC time tuple is the epoch second). */
  function GrafanaMillis(t: int): int
  {
    t * 1000
  }

  /** The fields both points share, with `endTime` present exactly when there is an end. */
  function PointFields(text: string, project: string, instruments: string, end: Option<int>, uuid: string): map<string, FieldValue>
  {
    var base := map["text" := Text(text), "title" := Text(project), "project" := Text(project),
                    "instruments" := Text(instruments), "uuid" := Text(uuid)];
    if end.Some? then base["endTime" := Millis(GrafanaMillis(end.value))] else base
  }

  /** `"{user} {project} {instruments joined ','}: {text}"`. */
  function MaintenanceMessage(text: string, username: string, project: string, instruments: seq<string>): string
  {
    username + " " + project + " " + Join(instruments, ",") + ": " + text
  }

  /** What `mk_log_point` returns: a `log_message` point timed at the end and a
      `maintenance_log_message` point timed at the start. */
  function LogPoints(text: string, username: string, project: string, instruments: seq<string>,
                     start: Option<int>, end: Option<int>, uuid: string): seq<Point>
  {
    [Point("log_message", PointFields(text, project, Join(instruments, ","), end, uuid),
           map["uuid" := uuid, "user" := username, "project" := project], end, "Europe/Helsinki"),
     Point("maintenance_log_message",
           PointFields(MaintenanceMessage(text, username, project, instruments), project, Join(instruments, ", "), end, uuid),
           map["uuid" := uuid], start, "Europe/Helsinki")]
  }

  /** The dictionary literal of `mk_log_point` with `endTime` set to `endTime`. */
  lemma FieldsLiteral(text: string, project: string, instruments: string, end: Option<int>, uuid: string, endTime: FieldValue)
    requires endTime == if end.Some? then Millis(GrafanaMillis(end.value)) else Null
    ensures var lit := map["text" := Text(text), "title" := Text(project), "project" := Text(project),
                           "instruments" := Text(instruments), "endTime" := endTime, "uuid" := Text(uuid)];
      lit == PointFields(text, project, instruments, end, uuid)["endTime" := endTime] &&
      (end.None? ==> lit - {"endTime"} == PointFields(text, project, instruments, end, uuid)) &&
      (end.Some? ==> lit == PointFields(text, project, instruments, end, uuid))
  {
    var lit := map["text" := Text(text), "title" := Text(project), "project" := Text(project),
                   "instruments" := Text(instruments), "endTime" := endTime, "uuid" := Text(uuid)];
    var f := PointFields(text, project, instruments, end, uuid);
    assert lit.Keys == f.Keys + {"endTime"};
    if end.None? {
      assert (lit - {"endTime"}).Keys == f.Keys;
    }
  }

  /** `mk_log_point`: build both points with an `endTime` field (None without an end), then
      without an end delete that field from each point. The uuid is a parameter. */
  method MkLogPoint(text: string, username: string, project: string, instruments: seq<string>,
                    start: Option<int>, end: Option<int>, uuid: string) returns (points: seq<Point>)
    ensures points == LogPoints(text, username, project, instruments, start, end, uuid)
  {
    var message := MaintenanceMessage(text, username, project, instruments);
    var endTime := if end.Some? then Millis(GrafanaMillis(end.value)) else Null;
    points := [
      Point("log_message",
            map["text" := Text(text), "title" := Text(project), "project" := Text(project),
                "instruments" := Text(Join(instruments, ",")), "endTime" := endTime, "uuid" := Text(uuid)],
            map["uuid" := uuid, "user" := username, "project" := project], end, "Europe/Helsinki"),
      Point("maintenance_log_message",
            map["text" := Text(message), "title" := Text(project), "project" := Text(project),
                "instruments" := Text(Join(instruments, ", ")), "endTime" := endTime, "uuid" := Text(uuid)],
            map["uuid" := uuid], start, "Europe/Helsinki")];
    ghost var spec := LogPoints(text, username, project, instruments, start, end, uuid);
    FieldsLiteral(text, project, Join(instruments, ","), end, uuid, endTime);
    FieldsLiteral(message, project, Join(instruments, ", "), end, uuid, endTime);
    if end.None? {
      var k := 0;
      while k < |points|
        invariant 0 <= k <= |points| == 2
        invariant forall j :: 0 <= j < k ==> points[j] == spec[j]
        invariant forall j :: k <= j < |points| ==> points[j] == spec[j].(fields := spec[j].fields["endTime" := Null])
      {
        FieldsLiteral(if k == 0 then text else message, project, if k == 0 then Join(instruments, ",") else Join(instruments, ", "),
          end, uuid, endTime);
        points := points[k := points[k].(fields := points[k].fields - {"endTime"})];
        k := k + 1;
      }
    }
  }

  /** Two points, named and timed as above, carrying one uuid in their fields and tags. */
  lemma LogPointsShape(text: string, username: string, project: string, instruments: seq<string>,
                       start: Option<int>, end: Option<int>, uuid: string)
    ensures var pts := LogPoints(text, username, project, instruments, start, end, uuid);
      |pts| == 2 &&
      pts[0].measurement == "log_message" && pts[0].time == end &&
      pts[1].measurement == "maintenance_log_message" && pts[1].time == start &&
      forall k :: 0 <= k < 2 ==> pts[k].fields["uuid"] == Text(uuid) && pts[k].tags["uuid"] == uuid
  {
  }

  /** The `endTime` field is absent from both points exactly when there is no end, and
      otherwise holds the end in milliseconds. */
  lemma EndTimePresence(text: string, username: string, project: string, instruments: seq<string>,
                        start: Option<int>, end: Option<int>, uuid: string)
    ensures var pts := LogPoints(text, username, project, instruments, start, end, uuid);
      forall k :: 0 <= k < |pts| ==>
        ("endTime" in pts[k].fields <==> end.Some?) &&
        (end.Some? ==> pts[k].fields["endTime"] == Millis(end.value * 1000))
  {
  }

  /** The instruments are joined with `","` in the first point and `", "` in the second,
      whose text is the full maintenance message. */
  lemma InstrumentTexts(text: string, username: string, project: string, instruments: seq<string>,
                        start: Option<int>, end: Option<int>, uuid: string)
    ensures var pts := LogPoints(text, username, project, instruments, start, end, uuid);
      pts[0].fields["instruments"] == Text(Join(instruments, ",")) &&
      pts[1].fields["instruments"] == Text(Join(instruments, ", ")) &&
      pts[0].fields["text"] == Text(text) &&
      pts[1].fields["text"] == Text(username + " " + project + " " + Join(instruments, ",") + ": " + text)
  {
  }

  /** The result of the submit callback: nothing (no click yet), a message, a parse error,
      or the points that were pushed. */
  datatype Outcome = NoSubmit | Rejected(message: string) | ParseError | Pushed(points: seq<Point>)

  /** `submit_maintenance`. The end is used only when both its date and time are given;
      without it the first point has no time and no `endTime`, and the start is parsed again
      without being localized, so it stays the naive wall-clock reading. */
  function SubmitMaintenance(clicks: nat, project: Option<string>, instruments: seq<string>, username: string,
                             text: string, date: Option<string>, time: Option<string>,
                             dateEnd: Option<string>, timeEnd: Option<string>,
                             parse: string -> Option<int>, localize: int -> int, uuid: string): Outcome
  {
    if clicks == 0 then NoSubmit
    else if !Acceptable(project) then Rejected(SelectProject)
    else if IsBlank(text) then Rejected(EnterMessage)
    else if !Acceptable(date) then Rejected(ProvideDate)
    else if !Acceptable(time) then Rejected(ProvideTime)
    else
      var start := parse(date.value + time.value);
      if start.None? then ParseError
      else if Acceptable(dateEnd) && Acceptable(timeEnd) then
        var end := parse(dateEnd.value + timeEnd.value);
        if end.None? then ParseError
        else if localize(start.value) > localize(end.value) then Rejected(StartAfterEnd)
        else Pushed(LogPoints(text, username, project.value, instruments,
                              Some(localize(start.value)), Some(localize(end.value)), uuid))
      else Pushed(LogPoints(text, username, project.value, instruments, start, None, uuid))
  }

  /** The checks run in order and the first failing one decides the message: each message is
      given exactly when its check fails and every earlier one passes. */
  lemma CheckOrder(clicks: nat, project: Option<string>, instruments: seq<string>, username: string,
                   text: string, date: Option<string>, time: Option<string>,
                   dateEnd: Option<string>, timeEnd: Option<string>,
                   parse: string -> Option<int>, localize: int -> int, uuid: string)
    ensures var o := SubmitMaintenance(clicks, project, instruments, username, text, date, time, dateEnd, timeEnd, parse, localize, uuid);
      (o == NoSubmit <==> clicks == 0) &&
      (o == Rejected(SelectProject) <==> clicks > 0 && !Acceptable(project)) &&
      (o == Rejected(EnterMessage) <==> clicks > 0 && Acceptable(project) && IsBlank(text)) &&
      (o == Rejected(ProvideDate) <==> clicks > 0 && Acceptable(project) && !IsBlank(text) && !Acceptable(date)) &&
      (o == Rejected(ProvideTime) <==>
        clicks > 0 && Acceptable(project) && !IsBlank(text) && Acceptable(date) && !Acceptable(time))
  {
  }

  /** A message of Unicode spaces only (a no-break space, an ideographic space, a line
      separator) strips to nothing and is refused like an empty one. */
  lemma UnicodeBlankRefused(project: string, instruments: seq<string>, username: string,
                            date: Option<string>, time: Option<string>,
                            dateEnd: Option<string>, timeEnd: Option<string>,
                            parse: string -> Option<int>, localize: int -> int, uuid: string)
    requires project != ""
    ensures SubmitMaintenance(1, Some(project), instruments, username, "\U{00A0}\U{3000}\U{2028}",
                              date, time, dateEnd, timeEnd, parse, localize, uuid) == Rejected(EnterMessage)
  {
  }

  /** A pushed submission passed every check, starts no later than it ends, and its points are
      those of `mk_log_point`: for the localized instants when an end was given, and for the
      naive start reading and no end otherwise. */
  lemma PushedPassedChecks(clicks: nat, project: Option<string>, instruments: seq<string>, username: string,
                           text: string, date: Option<string>, time: Option<string>,
                           dateEnd: Option<string>, timeEnd: Option<string>,
                           parse: string -> Option<int>, localize: int -> int, uuid: string)
    requires SubmitMaintenance(clicks, project, instruments, username, text, date, time, dateEnd, timeEnd, parse, localize, uuid).Pushed?
    ensures clicks > 0 && Acceptable(project) && !IsBlank(text) && Acceptable(date) && Acceptable(time)
    ensures var start := parse(date.value + time.value);
      var hasEnd := Acceptable(dateEnd) && Acceptable(timeEnd);
      var end := if hasEnd then parse(dateEnd.value + timeEnd.value) else None;
      var pts := SubmitMaintenance(clicks, project, instruments, username, text, date, time, dateEnd, timeEnd, parse, localize, uuid).points;
      start.Some? && (hasEnd ==> end.Some? && localize(start.value) <= localize(end.value)) &&
      (hasEnd ==> pts == LogPoints(text, username, project.value, instruments,
                                   Some(localize(start.value)), Some(localize(end.value)), uuid)) &&
      (!hasEnd ==> pts == LogPoints(text, username, project.value, instruments, start, None, uuid))
  {
  }

  /** A start later than its end is refused and never produces a point. */
  lemma StartAfterEndRefused(clicks: nat, project: Option<string>, instruments: seq<string>, username: string,
                             text: string, date: Option<string>, time: Option<string>,
                             dateEnd: Option<string>, timeEnd: Option<string>,
                             parse: string -> Option<int>, localize: int -> int, uuid: string)
    requires clicks > 0 && Acceptable(project) && !IsBlank(text) && Acceptable(date) && Acceptable(time)
    requires Acceptable(dateEnd) && Acceptable(timeEnd)
    requires parse(date.value + time.value).Some? && parse(dateEnd.value + timeEnd.value).Some?
    requires localize(parse(date.value + time.value).value) > localize(parse(dateEnd.value + timeEnd.value).value)
    ensures SubmitMaintenance(clicks, project, instruments, username, text, date, time, dateEnd, timeEnd, parse, localize, uuid)
      == Rejected(StartAfterEnd)
  {
  }
}
