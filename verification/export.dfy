/**
 * What the chart does with its highlights besides drawing them: the export
 * table (whose start-clock column the standalone converter reads back), the
 * offset-adjusted jump timestamp and VOD link opened on a click, and the
 * filename sanitiser of the download thread.
 */
module Export {
  import opened Wrappers
  import opened Text
  import opened Timecode
  import opened Highlights

  // ---------------------------------------------------------------- int(x)

  /** Python's `int(x)` on a float: truncation toward zero. */
  function Trunc(x: real): (r: int)
    ensures 0.0 <= x ==> r as real <= x < r as real + 1.0
    ensures x < 0.0 ==> r as real - 1.0 < x <= r as real
  {
    if 0.0 <= x then x.Floor else -((-x).Floor)
  }

  /** Truncation keeps the sign and never moves a value away from zero. */
  lemma TruncTowardZero(x: real)
    ensures 0.0 <= x ==> 0 <= Trunc(x)
    ensures x <= 0.0 ==> Trunc(x) <= 0
    ensures x == (x.Floor as real) ==> Trunc(x) == x.Floor
  {
  }

  // ---------------------------------------------------------------- export records

  /** One exported row, in column order. */
  datatype ExportRecord = ExportRecord(
    startSeconds: real, endSeconds: real, rateType: string, rateValue: real,
    startClock: string, endClock: string)

  /** The record of one highlight period and its value; the clock columns render `int(start)` and `int(end)`. */
  function Record(p: Period, value: real): ExportRecord
  {
    ExportRecord(p.start, p.end, RateName(p.rate), value, TimedeltaText(Trunc(p.start)), TimedeltaText(Trunc(p.end)))
  }

  function Min(a: nat, b: nat): nat
  {
    if a <= b then a else b
  }

  /** The records of the periods zipped with their values: as many as the shorter of the two lists. */
  function ExportRecords(periods: seq<Period>, values: seq<real>): (records: seq<ExportRecord>)
    ensures |records| == Min(|periods|, |values|)
  {
    seq(Min(|periods|, |values|), k requires 0 <= k < Min(|periods|, |values|) => Record(periods[k], values[k]))
  }

  /**
   * Each record copies its period's start, end, rate name and value, and its
   * clock columns read back through the converter as `int(start)` and
   * `int(end)` whenever those fall within the first day.
   */
  lemma RecordFields(periods: seq<Period>, values: seq<real>, k: nat)
    requires k < |periods| && k < |values|
    ensures k < |ExportRecords(periods, values)|
    ensures ExportRecords(periods, values)[k].startSeconds == periods[k].start
    ensures ExportRecords(periods, values)[k].endSeconds == periods[k].end
    ensures ExportRecords(periods, values)[k].rateType == RateName(periods[k].rate)
    ensures ExportRecords(periods, values)[k].rateValue == values[k]
    ensures 0 <= Trunc(periods[k].start) < SecondsPerDay ==>
              TimestampToSeconds(ExportRecords(periods, values)[k].startClock) == Success(Trunc(periods[k].start))
    ensures 0 <= Trunc(periods[k].end) < SecondsPerDay ==>
              TimestampToSeconds(ExportRecords(periods, values)[k].endClock) == Success(Trunc(periods[k].end))
  {
    if 0 <= Trunc(periods[k].start) < SecondsPerDay {
      ClockRoundTrip(Trunc(periods[k].start));
    }
    if 0 <= Trunc(periods[k].end) < SecondsPerDay {
      ClockRoundTrip(Trunc(periods[k].end));
    }
  }

  /**
   * `export_highlights`: nothing to export without highlights; otherwise one
   * record per period, in order, built in a loop over the zipped lists.
   */
  method ExportHighlights(periods: seq<Period>, values: seq<real>) returns (r: Option<seq<ExportRecord>>)
    ensures r.None? <==> periods == []
    ensures r.Some? ==> r.value == ExportRecords(periods, values)
  {
    if periods == [] {
      return None;
    }
    var records: seq<ExportRecord> := [];
    var i := 0;
    while i < |periods| && i < |values|
      invariant 0 <= i <= Min(|periods|, |values|)
      invariant records == ExportRecords(periods, values)[..i]
    {
      TakeOneMore(ExportRecords(periods, values), i);
      records := records + [Record(periods[i], values[i])];
      i := i + 1;
    }
    return Some(records);
  }

  lemma TakeOneMore<T>(s: seq<T>, i: nat)
    requires i < |s|
    ensures s[..i + 1] == s[..i] + [s[i]]
  {
  }

  // ---------------------------------------------------------------- the exported table

  /** The header row `to_csv` writes: the record's keys in insertion order. */
  const Header: seq<string> := ["Start Time (s)", "End Time (s)", "Rate Type", "Rate Value",
                                "Start Time (hh:mm:ss)", "End Time (hh:mm:ss)"]

  /** One table row as a CSV reader gives it back; `formatReal` is how the numbers are rendered. */
  function CsvRow(r: ExportRecord, formatReal: real -> string): (row: seq<string>)
    ensures |row| == |Header| && row[4] == r.startClock
  {
    [formatReal(r.startSeconds), formatReal(r.endSeconds), r.rateType, formatReal(r.rateValue), r.startClock, r.endClock]
  }

  /** The exported table: the header, then one row per record. */
  function CsvTable(records: seq<ExportRecord>, formatReal: real -> string): (table: seq<seq<string>>)
    ensures |table| == |records| + 1 && table[0] == Header
    ensures forall k :: 0 <= k < |records| ==> table[k + 1] == CsvRow(records[k], formatReal)
  {
    [Header] + seq(|records|, k requires 0 <= k < |records| => CsvRow(records[k], formatReal))
  }

  /**
   * The converter reads back an exported table as the whole-second start of
   * every period, in order, when every start lies in the first day: the
   * header is skipped and column 4 is the start clock.
   */
  lemma ExportConvertRoundTrip(periods: seq<Period>, values: seq<real>, formatReal: real -> string)
    requires |periods| == |values|
    requires forall k :: 0 <= k < |periods| ==> 0 <= Trunc(periods[k].start) < SecondsPerDay
    ensures |ConvertTable(CsvTable(ExportRecords(periods, values), formatReal))| == |periods|
    ensures forall k :: 0 <= k < |periods| ==>
              ConvertTable(CsvTable(ExportRecords(periods, values), formatReal))[k] == Trunc(periods[k].start)
  {
    var records := ExportRecords(periods, values);
    var table := CsvTable(records, formatReal);
    var starts := seq(|periods|, k requires 0 <= k < |periods| => Trunc(periods[k].start));
    var rows := table[1..];
    forall k | 0 <= k < |rows|
      ensures RowSeconds(rows[k]) == Success(starts[k])
    {
      assert rows[k] == CsvRow(records[k], formatReal);
      RecordFields(periods, values, k);
    }
    ConvertRowsAllGood(rows, starts);
  }

  /** A period starting on the second day or later is dropped by the converter, as its clock reads "1 day, …". */
  lemma ExportLateStartSkipped(p: Period, value: real, formatReal: real -> string)
    requires Trunc(p.start) >= SecondsPerDay
    ensures RowSeconds(CsvRow(Record(p, value), formatReal)).Failure?
  {
    LongTimestampRejected(Trunc(p.start));
  }

  // ---------------------------------------------------------------- jumping to the VOD

  /** The offset box: its stripped text read by `int()`, or 0 when that fails. */
  function OffsetValue(text: string): (offset: int)
    ensures ParseInt(Strip(text)).None? ==> offset == 0
    ensures ParseInt(Strip(text)).Some? ==> offset == ParseInt(Strip(text)).value
  {
    match ParseInt(Strip(text))
    case Some(v) => v
    case None => 0
  }

  /** The VOD second a click at chart position x opens: `max(0, int(x) + offset)`. */
  function JumpTimestamp(x: real, offsetText: string): (t: nat)
    ensures t >= Trunc(x) + OffsetValue(offsetText)
    ensures Trunc(x) + OffsetValue(offsetText) >= 0 ==> t == Trunc(x) + OffsetValue(offsetText)
    ensures Trunc(x) + OffsetValue(offsetText) < 0 ==> t == 0
  {
    var adjusted := Trunc(x) + OffsetValue(offsetText);
    if adjusted < 0 then 0 else adjusted
  }

  /**
   * An offset typed as a (possibly negative, possibly padded) integer shifts
   * the jump by exactly that much; one longer than `int()`'s digit limit
   * counts as 0.
   */
  lemma JumpWithOffset(x: real, n: int)
    requires 0.0 <= x && 0 <= x.Floor + n
    ensures JumpTimestamp(x, " " + IntToString(n) + " ")
            == if DigitCount(IntToString(n)) <= MaxStrDigits then x.Floor + n else x.Floor
  {
    var s := IntToString(n);
    IntTextUnpadded(n);
    StripPadded(s);
    ParseIntToString(n);
    assert OffsetValue(" " + s + " ") == if DigitCount(s) <= MaxStrDigits then n else 0;
    assert Trunc(x) == x.Floor;
  }

  /** The decimal text of an integer neither starts nor ends with whitespace. */
  lemma IntTextUnpadded(n: int)
    ensures IntToString(n) != [] && !IsSpace(IntToString(n)[0]) && !IsSpace(IntToString(n)[|IntToString(n)| - 1])
  {
    var s := IntToString(n);
    if n < 0 {
      assert s[|s| - 1] == NatToString(-n)[|NatToString(-n)| - 1];
    }
  }

  /** A single space on each side is stripped away. */
  lemma StripPadded(s: string)
    requires s != [] && !IsSpace(s[0]) && !IsSpace(s[|s| - 1])
    ensures Strip(" " + s + " ") == s
  {
    var t := " " + s + " ";
    assert t[1..] == s + " ";
    assert TrimLeft(t, IsSpace) == TrimLeft(t[1..], IsSpace);
    assert TrimLeft(s + " ", IsSpace) == s + " ";
    assert (s + " ")[..|s|] == s;
    assert TrimRight(s + " ", IsSpace) == TrimRight(s, IsSpace);
    StripUnpadded(s);
  }

  /** An offset box that does not hold an integer leaves the jump at `max(0, int(x))`. */
  lemma JumpWithBadOffset(x: real, text: string)
    requires ParseInt(Strip(text)).None?
    ensures JumpTimestamp(x, text) == if Trunc(x) < 0 then 0 else Trunc(x)
  {
  }

  /** `/videos/`, the marker the VOD id follows. */
  const VideosMarker: string := "/videos/"

  /** Whether the text holds "/videos/" followed by at least one digit at position i. */
  predicate MatchAt(text: string, i: nat)
  {
    i + |VideosMarker| < |text| && text[i..i + |VideosMarker|] == VideosMarker && IsDigit(text[i + |VideosMarker|])
  }

  /** The longest run of digits starting at position i. */
  function DigitRun(text: string, i: nat): (run: string)
    requires i <= |text|
    ensures |run| <= |text| - i && run == text[i..i + |run|]
    ensures forall k :: 0 <= k < |run| ==> IsDigit(run[k])
    ensures i + |run| == |text| || !IsDigit(text[i + |run|])
    decreases |text| - i
  {
    if i < |text| && IsDigit(text[i]) then
      var rest := DigitRun(text, i + 1);
      assert text[i..i + 1 + |rest|] == [text[i]] + text[i + 1..i + 1 + |rest|];
      [text[i]] + rest
    else []
  }

  /** `re.search(r'/videos/(\d+)', text)` from position i on: the digits after the leftmost match. */
  function VodIdFrom(text: string, i: nat): (id: Option<string>)
    requires i <= |text|
    ensures id.Some? ==> |id.value| > 0 && forall k :: 0 <= k < |id.value| ==> IsDigit(id.value[k])
    decreases |text| - i
  {
    if i == |text| then None
    else if MatchAt(text, i) then Some(DigitRun(text, i + |VideosMarker|))
    else VodIdFrom(text, i + 1)
  }

  /** The VOD id in a URL, if it has one. */
  function VodId(text: string): Option<string>
  {
    VodIdFrom(text, 0)
  }

  /** No VOD id is found exactly when no "/videos/" followed by a digit occurs from position i on. */
  lemma {:induction false} VodIdAbsent(text: string, i: nat)
    requires i <= |text|
    ensures VodIdFrom(text, i).None? <==> forall j :: i <= j < |text| ==> !MatchAt(text, j)
    decreases |text| - i
  {
    if i < |text| && !MatchAt(text, i) {
      VodIdAbsent(text, i + 1);
    }
  }

  /** The VOD id found is the whole digit run after the leftmost "/videos/" followed by a digit. */
  lemma VodIdLeftmost(text: string, i: nat, j: nat)
    requires i <= j < |text| && MatchAt(text, j)
    requires forall k :: i <= k < j ==> !MatchAt(text, k)
    ensures VodIdFrom(text, i) == Some(DigitRun(text, j + |VideosMarker|))
  {
    NoMatchBefore(text, i, j);
  }

  /** The link the chart opens for a VOD id. */
  function VodUrl(id: string): string
  {
    "https://www.twitch.tv/videos/" + id
  }

  /** The id is found again in the link built from it. */
  lemma VodUrlRoundTrip(id: string)
    requires |id| > 0 && forall k :: 0 <= k < |id| ==> IsDigit(id[k])
    ensures VodId(VodUrl(id)) == Some(id)
  {
    var url := VodUrl(id);
    var prefix := "https://www.twitch.tv";
    assert url == prefix + VideosMarker + id;
    forall j | 0 <= j < |prefix|
      ensures !MatchAt(url, j)
    {
      assert url[j] != '/' || url[j + 1] != 'v';
    }
    assert url[|prefix|..|prefix| + |VideosMarker|] == VideosMarker;
    VodIdLeftmost(url, 0, |prefix|);
    assert url[|prefix| + |VideosMarker|..] == id;
    RunToEnd(url, |prefix| + |VideosMarker|);
  }

  /** A digit run that reaches the end of the text is the whole rest of it. */
  lemma {:induction false} RunToEnd(text: string, i: nat)
    requires i <= |text| && forall k :: i <= k < |text| ==> IsDigit(text[k])
    ensures DigitRun(text, i) == text[i..]
    decreases |text| - i
  {
    if i < |text| {
      RunToEnd(text, i + 1);
    }
  }

  lemma {:induction false} NoMatchBefore(text: string, i: nat, j: nat)
    requires i <= j < |text|
    requires forall k :: i <= k < j ==> !MatchAt(text, k)
    ensures VodIdFrom(text, i) == VodIdFrom(text, j)
    decreases j - i
  {
    if i < j {
      NoMatchBefore(text, i + 1, j);
    }
  }

  /**
   * The link a click opens, `<vod url>?t=<seconds>s`, or None (an error box)
   * when the VOD box holds no id.
   */
  function JumpLink(x: real, offsetText: string, vodText: string): (link: Option<string>)
    ensures link.None? <==> VodId(Strip(vodText)).None?
  {
    match VodId(Strip(vodText))
    case None => None
    case Some(id) => Some(VodUrl(id) + "?t=" + NatToString(JumpTimestamp(x, offsetText)) + "s")
  }

  // ---------------------------------------------------------------- file names

  /** The characters `[\w\-_. ]` keeps, with `\w` taken as ASCII letters, digits and underscore. */
  predicate Kept(c: char)
  {
    ('a' <= c <= 'z') || ('A' <= c <= 'Z') || IsDigit(c) || c == '_' || c == '-' || c == '.' || c == ' '
  }

  /** `re.sub(r'[^\w\-_. ]', '_', name)`: every other character becomes an underscore. */
  function SanitizeFilename(name: string): (safe: string)
    ensures |safe| == |name|
    ensures forall i :: 0 <= i < |name| && Kept(name[i]) ==> safe[i] == name[i]
    ensures forall i :: 0 <= i < |name| && !Kept(name[i]) ==> safe[i] == '_'
  {
    seq(|name|, i requires 0 <= i < |name| => if Kept(name[i]) then name[i] else '_')
  }

  /** The result holds only kept characters, a name of kept characters is left alone, and sanitising twice changes nothing more. */
  lemma SanitizeIdempotent(name: string)
    ensures forall i :: 0 <= i < |SanitizeFilename(name)| ==> Kept(SanitizeFilename(name)[i])
    ensures (forall i :: 0 <= i < |name| ==> Kept(name[i])) ==> SanitizeFilename(name) == name
    ensures SanitizeFilename(SanitizeFilename(name)) == SanitizeFilename(name)
  {
  }
}
