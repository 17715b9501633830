/**
 * Clock texts: the `H:MM:SS` rendering of `datetime.timedelta` used by the
 * highlight export, and the standalone converter that reads such a text back
 * into seconds and rewrites an exported table as one column of seconds.
 */
module Timecode {
  import opened Wrappers
  import opened Text

  const SecondsPerDay: nat := 86400

  /** `"%d:%02d:%02d" % (hh, mm, ss)` with mm, ss from divmod by 60 twice, as timedelta renders a day's seconds. */
  function ClockText(secs: nat): string
    requires secs < SecondsPerDay
  {
    var mm, ss := secs / 60, secs % 60;
    var hh, mm := mm / 60, mm % 60;
    Join([NatToString(hh), Pad2(mm), Pad2(ss)], ':')
  }

  /**
   * `str(timedelta(seconds=n))`: the clock text of the seconds within the day,
   * preceded by "D day, " or "D days, " when the (floored) day count is not zero.
   */
  function TimedeltaText(n: int): string
  {
    var days, secs := n / SecondsPerDay, n % SecondsPerDay;
    if days == 0 then ClockText(secs)
    else IntToString(days) + (if days == 1 || days == -1 then " day, " else " days, ") + ClockText(secs)
  }

  /** The errors the converter catches: a malformed timestamp, or a row too short to have the column. */
  datatype ConvertError = ValueError | IndexError

  /** Hours, minutes and seconds as a count of seconds. */
  function FieldSeconds(h: int, m: int, s: int): int
  {
    h * 3600 + m * 60 + s
  }

  /**
   * `timestamp_to_seconds`: split on ':' into exactly three parts, each read
   * by `int()`, and combine them as hours, minutes and seconds. Minutes and
   * seconds are not range-checked and signs are accepted.
   */
  function TimestampToSeconds(timestamp: string): (r: Result<int, ConvertError>)
    ensures |Split(timestamp, ':')| != 3 ==> r == Failure(ValueError)
  {
    var parts := Split(timestamp, ':');
    if |parts| != 3 then Failure(ValueError)
    else
      var h, m, s := ParseInt(parts[0]), ParseInt(parts[1]), ParseInt(parts[2]);
      if h.Some? && m.Some? && s.Some? then Success(FieldSeconds(h.value, m.value, s.value))
      else Failure(ValueError)
  }

  /** Three integer fields joined by ':' are worth hours*3600 + minutes*60 + seconds. */
  lemma FieldsValue(a: string, b: string, c: string, h: int, m: int, s: int)
    requires ':' !in a && ':' !in b && ':' !in c
    requires ParseInt(a) == Some(h) && ParseInt(b) == Some(m) && ParseInt(c) == Some(s)
    ensures TimestampToSeconds(Join([a, b, c], ':')) == Success(FieldSeconds(h, m, s))
  {
    SplitJoin([a, b, c], ':');
    var parts := Split(Join([a, b, c], ':'), ':');
    assert parts[0] == a && parts[1] == b && parts[2] == c;
  }

  /** A timestamp converts exactly when it has three fields and `int()` accepts each; every failure is a ValueError. */
  lemma TimestampAccepted(timestamp: string)
    ensures TimestampToSeconds(timestamp).Success? <==>
              && |Split(timestamp, ':')| == 3
              && ParseInt(Split(timestamp, ':')[0]).Some?
              && ParseInt(Split(timestamp, ':')[1]).Some?
              && ParseInt(Split(timestamp, ':')[2]).Some?
    ensures TimestampToSeconds(timestamp).Failure? ==> TimestampToSeconds(timestamp).error == ValueError
  {
  }

  /** A field that `int()` rejects makes the whole timestamp a ValueError: "1:xx:00" does not convert. */
  lemma BadFieldRejected(a: string, b: string, c: string)
    requires ':' !in a && ':' !in b && ':' !in c
    requires ParseInt(a).None? || ParseInt(b).None? || ParseInt(c).None?
    ensures TimestampToSeconds(Join([a, b, c], ':')) == Failure(ValueError)
  {
    SplitJoin([a, b, c], ':');
    var parts := Split(Join([a, b, c], ':'), ':');
    assert parts[0] == a && parts[1] == b && parts[2] == c;
  }

  /**
   * For decimal fields h, m, s the value is h*3600 + m*60 + s, whatever the
   * size of m and s, as long as each field is within `int()`'s digit limit;
   * a longer field is a ValueError.
   */
  lemma DecimalFieldsValue(h: nat, m: nat, s: nat)
    ensures TimestampToSeconds(Join([NatToString(h), NatToString(m), NatToString(s)], ':'))
            == if |NatToString(h)| <= MaxStrDigits && |NatToString(m)| <= MaxStrDigits && |NatToString(s)| <= MaxStrDigits
               then Success(FieldSeconds(h, m, s))
               else Failure(ValueError)
  {
    var a, b, c := NatToString(h), NatToString(m), NatToString(s);
    ParseNatToString(h);
    ParseNatToString(m);
    ParseNatToString(s);
    NoColonInDigits(a);
    NoColonInDigits(b);
    NoColonInDigits(c);
    if |a| <= MaxStrDigits && |b| <= MaxStrDigits && |c| <= MaxStrDigits {
      FieldsValue(a, b, c, h, m, s);
    } else {
      BadFieldRejected(a, b, c);
    }
  }

  lemma NoColonInDigits(s: string)
    requires forall i :: 0 <= i < |s| ==> IsDigit(s[i])
    ensures ':' !in s
  {
  }

  /**
   * Two-digit minute and second fields are accepted up to 99: nothing checks
   * that they are below 60, so "0:90:00" is 5400 seconds.
   */
  lemma NoRangeCheck(h: nat, m: nat, s: nat)
    requires m < 100 && s < 100
    ensures |NatToString(h)| <= MaxStrDigits ==>
              TimestampToSeconds(Join([NatToString(h), Pad2(m), Pad2(s)], ':')) == Success(FieldSeconds(h, m, s))
    ensures |NatToString(h)| > MaxStrDigits ==>
              TimestampToSeconds(Join([NatToString(h), Pad2(m), Pad2(s)], ':')) == Failure(ValueError)
  {
    var a := NatToString(h);
    ParseNatToString(h);
    NoColonInDigits(a);
    Pad2Reads(m);
    Pad2Reads(s);
    if |a| <= MaxStrDigits {
      FieldsValue(a, Pad2(m), Pad2(s), h, m, s);
    } else {
      BadFieldRejected(a, Pad2(m), Pad2(s));
    }
  }

  /** A two-digit field reads back as its value and holds no colon. */
  lemma Pad2Reads(n: nat)
    requires n < 100
    ensures ParseInt(Pad2(n)) == Some(n) && ':' !in Pad2(n)
  {
    ParseDigits(Pad2(n));
    NoColonInDigits(Pad2(n));
  }

  /** Reading back the clock text of any second of a day gives that second. */
  lemma ClockRoundTrip(n: nat)
    requires n < SecondsPerDay
    ensures TimestampToSeconds(TimedeltaText(n)) == Success(n)
  {
    ClockFields(n);
    ClockTextValue(n);
  }

  /** Within the first day timedelta's text is just the clock. */
  lemma ClockFields(n: nat)
    requires n < SecondsPerDay
    ensures TimedeltaText(n) == ClockText(n)
  {
    assert n / SecondsPerDay == 0 && n % SecondsPerDay == n;
  }

  /** The clock text of a second of the day reads back as that second. */
  lemma ClockTextValue(n: nat)
    requires n < SecondsPerDay
    ensures TimestampToSeconds(ClockText(n)) == Success(n)
  {
    ClockArithmetic(n);
    ClockFieldsValue(n / 60 / 60, n / 60 % 60, n % 60);
  }

  /** Two-digit hours, minutes and seconds written as a clock read back as their seconds. */
  lemma ClockFieldsValue(h: nat, m: nat, s: nat)
    requires h < 100 && m < 100 && s < 100
    ensures TimestampToSeconds(Join([NatToString(h), Pad2(m), Pad2(s)], ':')) == Success(FieldSeconds(h, m, s))
  {
    assert Pow10(2) == 100;
    NatToStringLength(h, 2);
    NoRangeCheck(h, m, s);
  }

  /** The hours, minutes and seconds of a second of the day recombine to it. */
  lemma ClockArithmetic(n: nat)
    ensures n / 60 % 60 < 100 && n % 60 < 100
    ensures n < SecondsPerDay ==> n / 60 / 60 < 100
    ensures FieldSeconds(n / 60 / 60, n / 60 % 60, n % 60) == n
  {
    var q := n / 60;
    assert n == q * 60 + n % 60;
    assert q == (q / 60) * 60 + q % 60;
  }

  /**
   * From one day on, timedelta's text starts with "D day(s), ", so its first
   * field is not an integer and the converter rejects it.
   */
  lemma {:induction false} LongTimestampRejected(n: int)
    requires n >= SecondsPerDay
    ensures TimestampToSeconds(TimedeltaText(n)) == Failure(ValueError)
  {
    var days := n / SecondsPerDay;
    assert days >= 1;
    var digits := NatToString(days);
    var word: string := if days == 1 then " day, " else " days, ";
    var prefix := digits + word;
    var rest := ClockText(n % SecondsPerDay);
    assert TimedeltaText(n) == prefix + rest;
    assert ':' !in prefix by {
      assert forall i :: 0 <= i < |digits| ==> IsDigit(digits[i]);
      assert ':' !in word;
    }
    assert prefix[|digits| + 1] == 'd';
    LetterInFirstField(prefix, rest);
  }

  /** A text whose first field holds a letter is not an integer there. */
  lemma LetterInFirstField(prefix: string, rest: string)
    requires ':' !in prefix && 'd' in prefix
    ensures ParseInt(Split(prefix + rest, ':')[0]) == None
  {
    SplitPrefix(prefix, rest, ':');
    var first := prefix + Split(rest, ':')[0];
    assert 'd' in first;
    ParseIntChars(first);
  }

  /** Column 4 of one table row, read as a timestamp; a short row is an IndexError. */
  function RowSeconds(row: seq<string>): Result<int, ConvertError>
  {
    if |row| <= 4 then Failure(IndexError) else TimestampToSeconds(row[4])
  }

  /** The outcome of converting each row, in row order. */
  function RowOutcomes(rows: seq<seq<string>>): (outcomes: seq<Result<int, ConvertError>>)
    ensures |outcomes| == |rows|
  {
    seq(|rows|, i requires 0 <= i < |rows| => RowSeconds(rows[i]))
  }

  /** The values written for a run of outcomes: each success is written, each failure skipped. */
  function Successes(outcomes: seq<Result<int, ConvertError>>): seq<int>
  {
    if outcomes == [] then []
    else
      var written := Successes(outcomes[..|outcomes| - 1]);
      match outcomes[|outcomes| - 1]
      case Success(v) => written + [v]
      case Failure(_) => written
  }

  /** The seconds written for the data rows of a table: one per row whose column 4 converts, in row order. */
  function ConvertRows(rows: seq<seq<string>>): seq<int>
  {
    Successes(RowOutcomes(rows))
  }

  /** `convert_csv` on the rows of its input file: the first row is a header, whatever it holds. */
  function ConvertTable(rows: seq<seq<string>>): seq<int>
  {
    if rows == [] then [] else ConvertRows(rows[1..])
  }

  lemma {:induction false} SuccessesAppend(a: seq<Result<int, ConvertError>>, b: seq<Result<int, ConvertError>>)
    ensures Successes(a + b) == Successes(a) + Successes(b)
    decreases |b|
  {
    if b == [] {
      assert a + b == a;
    } else {
      var b' := b[..|b| - 1];
      SuccessesAppend(a, b');
      assert (a + b)[..|a + b| - 1] == a + b';
      assert (a + b)[|a + b| - 1] == b[|b| - 1];
    }
  }

  lemma RowOutcomesAppend(a: seq<seq<string>>, b: seq<seq<string>>)
    ensures RowOutcomes(a + b) == RowOutcomes(a) + RowOutcomes(b)
  {
    var l, r := RowOutcomes(a + b), RowOutcomes(a) + RowOutcomes(b);
    forall i | 0 <= i < |l|
      ensures l[i] == r[i]
    {
      if i < |a| {
        assert (a + b)[i] == a[i];
      } else {
        assert (a + b)[i] == b[i - |a|];
      }
    }
  }

  /** Converting rows one after another is converting their concatenation: output order is input order. */
  lemma ConvertRowsAppend(a: seq<seq<string>>, b: seq<seq<string>>)
    ensures ConvertRows(a + b) == ConvertRows(a) + ConvertRows(b)
  {
    RowOutcomesAppend(a, b);
    SuccessesAppend(RowOutcomes(a), RowOutcomes(b));
  }

  /** One row alone: its seconds when it converts, nothing when it does not. */
  lemma ConvertOneRow(row: seq<string>)
    ensures RowSeconds(row).Success? ==> ConvertRows([row]) == [RowSeconds(row).value]
    ensures RowSeconds(row).Failure? ==> ConvertRows([row]) == []
  {
    var outcome := RowSeconds(row);
    assert RowOutcomes([row]) == [outcome];
    assert [outcome][..0] == [];
    assert Successes([outcome][..0]) == [];
  }

  lemma {:induction false} SuccessesBound(outcomes: seq<Result<int, ConvertError>>)
    ensures |Successes(outcomes)| <= |outcomes|
  {
    if outcomes != [] {
      SuccessesBound(outcomes[..|outcomes| - 1]);
    }
  }

  /** At most one value per row. */
  lemma ConvertRowsBound(rows: seq<seq<string>>)
    ensures |ConvertRows(rows)| <= |rows|
  {
    SuccessesBound(RowOutcomes(rows));
  }

  lemma {:induction false} SuccessesAllGood(outcomes: seq<Result<int, ConvertError>>, values: seq<int>)
    requires |outcomes| == |values|
    requires forall i :: 0 <= i < |outcomes| ==> outcomes[i] == Success(values[i])
    ensures Successes(outcomes) == values
  {
    if outcomes != [] {
      var n := |outcomes|;
      SuccessesAllGood(outcomes[..n - 1], values[..n - 1]);
      assert values == values[..n - 1] + [values[n - 1]];
    }
  }

  /** When every row converts, the output is exactly the converted values, row by row. */
  lemma ConvertRowsAllGood(rows: seq<seq<string>>, values: seq<int>)
    requires |rows| == |values|
    requires forall i {:trigger RowSeconds(rows[i])} :: 0 <= i < |rows| ==> RowSeconds(rows[i]) == Success(values[i])
    ensures ConvertRows(rows) == values
  {
    SuccessesAllGood(RowOutcomes(rows), values);
  }

  /** A row that does not convert is skipped, and the rows after it still are converted. */
  lemma SkipBadRow(before: seq<seq<string>>, bad: seq<string>, after: seq<seq<string>>)
    requires RowSeconds(bad).Failure?
    ensures ConvertRows(before + [bad] + after) == ConvertRows(before) + ConvertRows(after)
  {
    ConvertRowsAppend(before + [bad], after);
    ConvertRowsAppend(before, [bad]);
    ConvertOneRow(bad);
  }

  /**
   * `convert_csv`: consumes the header row if there is one, then converts each
   * remaining row, writing its seconds or skipping it on ValueError or IndexError.
   */
  method ConvertCsv(rows: seq<seq<string>>) returns (written: seq<int>)
    ensures written == ConvertTable(rows)
    ensures |written| <= if rows == [] then 0 else |rows| - 1
  {
    written := [];
    if rows == [] {
      return;
    }
    var i := 1;
    while i < |rows|
      invariant 1 <= i <= |rows|
      invariant written == ConvertRows(rows[1..i])
    {
      assert rows[1..i + 1] == rows[1..i] + [rows[i]];
      ConvertRowsAppend(rows[1..i], [rows[i]]);
      ConvertOneRow(rows[i]);
      var converted := RowSeconds(rows[i]);
      if converted.Success? {
        written := written + [converted.value];
      }
      i := i + 1;
    }
    assert rows[1..i] == rows[1..];
    ConvertRowsBound(rows[1..]);
  }
}
