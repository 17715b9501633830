/**
 * The chat-rate table built by the processing worker: messages grouped into
 * right-open time bins, the same grouping for the messages that mention a
 * hype emote, and the two joined into chat, pogs and average rates.
 */
module ChatRate {
  import opened Wrappers
  import opened Text

  /** A time offset into the video, in seconds; chat offsets are never negative. */
  type Seconds = r: real | 0.0 <= r

  datatype Message = Message(offset: Seconds, body: string)

  /** The decoded chat-log JSON: a list of comments, an object that may hold a "comments" list, or anything else. */
  datatype ChatDocument =
    | CommentArray(entries: seq<Message>)
    | JsonObject(commentsField: Option<seq<Message>>)
    | OtherJson

  /** Why processing fails: the document has neither accepted shape, or it holds no comment at all. */
  datatype ProcessError = InvalidChatLogFormat | EmptyChatLog

  /** The comments of the document, or the format error for any other shape. */
  function ChatMessages(doc: ChatDocument): (r: Result<seq<Message>, ProcessError>)
    ensures r.Failure? <==> doc.OtherJson? || doc == JsonObject(None)
    ensures r.Failure? ==> r.error == InvalidChatLogFormat
    ensures doc.CommentArray? ==> r == Success(doc.entries)
    ensures doc.JsonObject? && doc.commentsField.Some? ==> r == Success(doc.commentsField.value)
  {
    match doc
    case CommentArray(msgs) => Success(msgs)
    case JsonObject(Some(msgs)) => Success(msgs)
    case JsonObject(None) => Failure(InvalidChatLogFormat)
    case OtherJson => Failure(InvalidChatLogFormat)
  }

  /** The largest offset of a non-empty comment list. */
  function MaxOffset(msgs: seq<Message>): (m: Seconds)
    requires |msgs| > 0
    ensures forall i :: 0 <= i < |msgs| ==> msgs[i].offset <= m
    ensures exists i :: 0 <= i < |msgs| && msgs[i].offset == m
  {
    if |msgs| == 1 then msgs[0].offset
    else
      var rest := MaxOffset(msgs[1..]);
      assert forall i :: 1 <= i < |msgs| ==> msgs[i] == msgs[1..][i - 1];
      if msgs[0].offset >= rest then msgs[0].offset else rest
  }

  // ---------------------------------------------------------------- real arithmetic

  lemma MulLeq(a: real, b: real, d: real)
    requires a <= b && d > 0.0
    ensures a * d <= b * d
  {
    assert b * d - a * d == (b - a) * d;
  }

  lemma MulLess(a: real, b: real, d: real)
    requires a < b && d > 0.0
    ensures a * d < b * d
  {
    assert b * d - a * d == (b - a) * d;
  }

  lemma LessOfMulLess(a: real, b: real, d: real)
    requires d > 0.0 && a * d < b * d
    ensures a < b
  {
    if a >= b {
      MulLeq(b, a, d);
    }
  }

  lemma FloorBounds(q: real)
    ensures q.Floor as real <= q < q.Floor as real + 1.0
  {
  }

  // ---------------------------------------------------------------- bins

  /** ceil(q), through the floor: n*step reaches q*step and (n-1)*step stays below it. */
  lemma CeilingBounds(q: real, step: real, n: int)
    requires step > 0.0 && q > 0.0
    requires n == (if q.Floor as real == q then q.Floor else q.Floor + 1)
    ensures n >= 1
    ensures n as real * step >= q * step
    ensures (n - 1) as real * step < q * step
  {
    var f := q.Floor;
    FloorBounds(q);
    if f as real == q {
      MulLess(f as real - 1.0, q, step);
    } else {
      MulLess(f as real, q, step);
      MulLess(q, f as real + 1.0, step);
      assert n as real == f as real + 1.0;
      assert (n - 1) as real == f as real;
    }
  }

  /** floor(q) for q >= 0: k*step <= q*step < (k+1)*step. */
  lemma FloorStep(q: real, step: real)
    requires step > 0.0 && q >= 0.0
    ensures q.Floor >= 0
    ensures q.Floor as real * step <= q * step < (q.Floor + 1) as real * step
  {
    var k := q.Floor;
    FloorBounds(q);
    MulLeq(k as real, q, step);
    MulLess(q, k as real + 1.0, step);
    assert (k + 1) as real == k as real + 1.0;
  }

  /** The length of `np.arange(0, stop, step)`: the number of points k*step below stop. */
  function ArangeLength(stop: real, step: real): (n: nat)
    requires stop > 0.0 && step > 0.0
    ensures n as real * step >= stop
    ensures (n - 1) as real * step < stop
  {
    CeilingOfQuotient(stop, step);
    Ceiling(stop / step)
  }

  /** The smallest integer not below q. */
  function Ceiling(q: real): int
  {
    if q.Floor as real == q then q.Floor else q.Floor + 1
  }

  lemma CeilingOfQuotient(stop: real, step: real)
    requires stop > 0.0 && step > 0.0
    ensures Ceiling(stop / step) >= 1
    ensures Ceiling(stop / step) as real * step >= stop
    ensures (Ceiling(stop / step) - 1) as real * step < stop
  {
    var q := stop / step;
    assert q * step == stop;
    assert q > 0.0 by {
      if q <= 0.0 {
        MulLeq(q, 0.0, step);
      }
    }
    var n := Ceiling(q);
    CeilingBounds(q, step, n);
    var below := (n - 1) as real * step;
    assert below < q * step;
    assert below < stop;
  }

  /**
   * The number of right-open bins: the edges are `arange(0, max + delta, delta)`
   * and the labels drop the last edge.
   */
  function NumBins(maxOffset: Seconds, delta: real): (bins: nat)
    requires delta > 0.0
    ensures bins as real * delta >= maxOffset
    ensures (bins - 1) as real * delta < maxOffset
  {
    var edges := ArangeLength(maxOffset + delta, delta);
    assert edges >= 1;
    assert (edges - 1) as real * delta == edges as real * delta - delta;
    assert (edges - 2) as real * delta == (edges - 1) as real * delta - delta;
    edges - 1
  }

  /**
   * The bin `pd.cut(..., right=False)` puts an offset in: k with
   * k*delta <= offset < (k+1)*delta, or none when the offset is at or past the
   * last edge.
   */
  function BinIndex(offset: Seconds, delta: real, bins: nat): (r: Option<nat>)
    requires delta > 0.0
    ensures r.Some? ==> r.value < bins && r.value as real * delta <= offset < (r.value + 1) as real * delta
    ensures r.None? ==> bins as real * delta <= offset
  {
    var k := (offset / delta).Floor;
    FloorOfQuotient(offset, delta);
    if k < bins then Some(k as nat)
    else
      MulLeq(bins as real, k as real, delta);
      None
  }

  /** floor(x / delta) is the k with k*delta <= x < (k+1)*delta. */
  lemma FloorOfQuotient(x: Seconds, delta: real)
    requires delta > 0.0
    ensures (x / delta).Floor >= 0
    ensures (x / delta).Floor as real * delta <= x < ((x / delta).Floor + 1) as real * delta
  {
    var q := x / delta;
    assert q * delta == x;
    assert q >= 0.0 by {
      if q < 0.0 {
        MulLess(q, 0.0, delta);
      }
    }
    FloorStep(q, delta);
    var k := q.Floor;
    var qd := q * delta;
    assert qd == x;
    var hi := (k + 1) as real * delta;
    assert qd < hi;
    assert x < hi;
  }

  /** Bins are right-open: an offset belongs to bin k exactly when k*delta <= offset < (k+1)*delta. */
  lemma BinRightOpen(offset: Seconds, delta: real, bins: nat, k: nat)
    requires delta > 0.0 && k < bins
    ensures BinIndex(offset, delta, bins) == Some(k) <==> k as real * delta <= offset < (k + 1) as real * delta
  {
    var r := BinIndex(offset, delta, bins);
    if r.None? {
      InBinBelowEnd(offset, delta, bins, k);
    } else if k as real * delta <= offset < (k + 1) as real * delta {
      SameBin(offset, delta, r.value, k);
    }
  }

  /** An offset inside bin k, for k below the bin count, lies before the last edge. */
  lemma InBinBelowEnd(offset: real, delta: real, bins: nat, k: nat)
    requires delta > 0.0 && k < bins
    ensures offset < (k + 1) as real * delta ==> offset < bins as real * delta
  {
    MulLeq((k + 1) as real, bins as real, delta);
  }

  /** Two right-open bins holding the same offset are the same bin. */
  lemma SameBin(x: real, delta: real, j: nat, k: nat)
    requires delta > 0.0
    requires j as real * delta <= x < (j + 1) as real * delta
    requires k as real * delta <= x < (k + 1) as real * delta
    ensures j == k
  {
    NotPastNextBin(x, delta, j, k);
    NotPastNextBin(x, delta, k, j);
  }

  /** An offset at or after bin j's start and before bin k's end puts j no later than k. */
  lemma NotPastNextBin(x: real, delta: real, j: nat, k: nat)
    requires delta > 0.0
    requires j as real * delta <= x < (k + 1) as real * delta
    ensures j <= k
  {
    LessOfMulLess(j as real, (k + 1) as real, delta);
  }

  /** a*delta below x and x at most b*delta make a < b. */
  lemma BelowThenLess(a: real, b: real, x: real, delta: real)
    requires delta > 0.0
    requires a * delta < x <= b * delta
    ensures a < b
  {
    LessOfMulLess(a, b, delta);
  }

  /**
   * An offset no later than the maximum misses every bin exactly when it is
   * the maximum and the maximum is a whole multiple of delta: the last edge
   * then falls on it.
   */
  lemma DroppedOnlyAtMax(offset: Seconds, maxOffset: Seconds, delta: real)
    requires delta > 0.0 && offset <= maxOffset
    ensures BinIndex(offset, delta, NumBins(maxOffset, delta)).None? <==>
              offset == maxOffset && maxOffset == NumBins(maxOffset, delta) as real * delta
  {
    var n := NumBins(maxOffset, delta);
    var r := BinIndex(offset, delta, n);
    if r.Some? {
      InBinBelowEnd(offset, delta, n, r.value);
    }
  }

  /** Two counts of steps that both first reach x are the same count. */
  lemma SameCeiling(x: real, delta: real, n: int, j: int)
    requires delta > 0.0
    requires (n - 1) as real * delta < x <= n as real * delta
    requires (j - 1) as real * delta < x <= j as real * delta
    ensures n == j
  {
    BelowThenLess((j - 1) as real, n as real, x, delta);
    BelowThenLess((n - 1) as real, j as real, x, delta);
  }

  /** When the maximum is j*delta there are exactly j bins, so the maximum itself lands in none. */
  lemma MaxOnEdge(maxOffset: Seconds, delta: real, j: nat)
    requires delta > 0.0 && maxOffset == j as real * delta
    ensures NumBins(maxOffset, delta) == j
    ensures BinIndex(maxOffset, delta, NumBins(maxOffset, delta)).None?
  {
    var n := NumBins(maxOffset, delta);
    assert (j - 1) as real * delta == maxOffset - delta;
    SameCeiling(maxOffset, delta, n, j);
    DroppedOnlyAtMax(maxOffset, maxOffset, delta);
  }

  // ---------------------------------------------------------------- grouping

  /** The `time_bin` column: the bin of each message, none for a message past the last edge. */
  function TimeBins(msgs: seq<Message>, delta: real, bins: nat): (labels: seq<Option<nat>>)
    requires delta > 0.0
    ensures |labels| == |msgs|
    ensures forall i :: 0 <= i < |msgs| ==> labels[i] == BinIndex(msgs[i].offset, delta, bins)
  {
    if msgs == [] then []
    else [BinIndex(msgs[0].offset, delta, bins)] + TimeBins(msgs[1..], delta, bins)
  }

  /** How many rows of a `time_bin` column hold bin k. */
  function CountOf(labels: seq<Option<nat>>, k: nat): (n: nat)
    ensures n <= |labels|
  {
    if labels == [] then 0
    else (if labels[0] == Some(k) then 1 else 0) + CountOf(labels[1..], k)
  }

  /** A bin is counted exactly when some row holds it. */
  lemma {:induction false} CountOfPositive(labels: seq<Option<nat>>, k: nat)
    ensures CountOf(labels, k) > 0 <==> Some(k) in labels
  {
    if labels != [] {
      CountOfPositive(labels[1..], k);
      assert labels == [labels[0]] + labels[1..];
    }
  }

  /** One group of `groupby('time_bin').size()`: a bin and how many rows fell in it. */
  datatype BinSize = BinSize(bin: nat, size: nat)

  /**
   * The groups of bins from..bins-1: only the bins that hold a row, in
   * ascending order (the bin labels are plain floats, so unobserved bins give
   * no group).
   */
  function GroupSizes(labels: seq<Option<nat>>, bins: nat, from: nat): (groups: seq<BinSize>)
    ensures forall i :: 0 <= i < |groups| ==>
              from <= groups[i].bin < bins && groups[i].size == CountOf(labels, groups[i].bin) > 0
    ensures forall i, j :: 0 <= i < j < |groups| ==> groups[i].bin < groups[j].bin
    decreases bins - from
  {
    if from >= bins then []
    else
      var size := CountOf(labels, from);
      var rest := GroupSizes(labels, bins, from + 1);
      if size > 0 then
        assert forall i :: 1 <= i < |rest| + 1 == |[BinSize(from, size)] + rest| ==> ([BinSize(from, size)] + rest)[i] == rest[i - 1];
        [BinSize(from, size)] + rest
      else rest
  }

  /** Every bin from..bins-1 that holds a row has its group. */
  lemma {:induction false} GroupSizesComplete(labels: seq<Option<nat>>, bins: nat, from: nat, k: nat)
    requires from <= k < bins && CountOf(labels, k) > 0
    ensures exists i :: 0 <= i < |GroupSizes(labels, bins, from)| && GroupSizes(labels, bins, from)[i].bin == k
    decreases bins - from
  {
    GroupSizesUnfold(labels, bins, from);
    if k != from {
      GroupSizesComplete(labels, bins, from + 1, k);
    }
    if CountOf(labels, from) > 0 {
      BinAfterPrepend(BinSize(from, CountOf(labels, from)), GroupSizes(labels, bins, from + 1), k);
    }
  }

  /** A bin found in a group list, or in a group put before it, is found in the longer list. */
  lemma BinAfterPrepend(g: BinSize, rest: seq<BinSize>, k: nat)
    requires g.bin == k || exists i :: 0 <= i < |rest| && rest[i].bin == k
    ensures exists i :: 0 <= i < |[g] + rest| && ([g] + rest)[i].bin == k
  {
    if g.bin == k {
      assert ([g] + rest)[0] == g;
    } else {
      var i :| 0 <= i < |rest| && rest[i].bin == k;
      assert ([g] + rest)[i + 1] == rest[i];
    }
  }

  /** One step of the grouping: bin `from` leads when it holds a row, and is absent otherwise. */
  lemma GroupSizesUnfold(labels: seq<Option<nat>>, bins: nat, from: nat)
    requires from < bins
    ensures CountOf(labels, from) > 0 ==>
              GroupSizes(labels, bins, from) == [BinSize(from, CountOf(labels, from))] + GroupSizes(labels, bins, from + 1)
    ensures CountOf(labels, from) == 0 ==> GroupSizes(labels, bins, from) == GroupSizes(labels, bins, from + 1)
  {
  }

  /** The size of bin k after the left merge: the group's size, or 0 (fillna) when there is no group. */
  function SizeOf(groups: seq<BinSize>, k: nat): nat
  {
    if groups == [] then 0
    else if groups[0].bin == k then groups[0].size
    else SizeOf(groups[1..], k)
  }

  /** The looked-up size is 0 with no group for k, or the size of a group for k. */
  lemma {:induction false} SizeOfFound(groups: seq<BinSize>, k: nat)
    ensures (SizeOf(groups, k) == 0 && forall i :: 0 <= i < |groups| ==> groups[i].bin != k)
            || (exists i :: 0 <= i < |groups| && groups[i].bin == k && groups[i].size == SizeOf(groups, k))
  {
    if groups != [] && groups[0].bin != k {
      SizeOfFound(groups[1..], k);
      assert forall i :: 1 <= i < |groups| ==> groups[i] == groups[1..][i - 1];
    }
  }

  /** A bin's size looked up in the grouping is its row count, 0 for a bin without rows. */
  lemma SizeOfGroups(labels: seq<Option<nat>>, bins: nat, k: nat)
    requires k < bins
    ensures SizeOf(GroupSizes(labels, bins, 0), k) == CountOf(labels, k)
  {
    SizeOfFound(GroupSizes(labels, bins, 0), k);
    if CountOf(labels, k) > 0 {
      GroupSizesComplete(labels, bins, 0, k);
    }
  }

  // ---------------------------------------------------------------- keywords

  /** The hype emotes tracked when the user gives none. */
  const DefaultEmotes: seq<string> := [
    "PogChamp", "Pog", "PogU", "Poggers", "KEKW", "EZ", "HYPERS", "POGGERS", "LETSGO",
    "CATJAM", "OMEGALUL", "WeirdChamp", "AYAYA", "PepeJAM", "HYPE", "LULW",
    "WIDEPEEPOHAPPY", "Clap", "KomodoHype", "5Head", "POGSLIDE", "PepeLaugh",
    "PepoG", "peepoClap", "POGCRAZY", "FeelsWowMan", "PartyParrot",
    "peepoWow", "monkaS", "TriHard", "popCat", "POGGIN", "widepeepoHappy",
    "POGGIES", "monkaW", "NOPERS", "COGGERS", "blobDance", "POGGY", "Wowee"
  ]

  /** The emotes the worker tracks: the user's list, or the built-in one when that list is empty. */
  function HypeEmotes(emotesToTrack: seq<string>): (emotes: seq<string>)
    ensures |emotes| > 0
    ensures emotesToTrack != [] ==> emotes == emotesToTrack
  {
    if |emotesToTrack| > 0 then emotesToTrack else DefaultEmotes
  }

  /** A non-empty name without whitespace at either end. */
  predicate CleanName(name: string)
  {
    name != [] && !IsSpace(name[0]) && !IsSpace(name[|name| - 1])
  }

  /** The stripped, non-empty parts, in order. */
  function NonEmptyStripped(parts: seq<string>): (kept: seq<string>)
    ensures |kept| <= |parts|
    ensures forall i :: 0 <= i < |kept| ==> CleanName(kept[i])
  {
    if parts == [] then []
    else
      var rest := NonEmptyStripped(parts[1..]);
      var s := Strip(parts[0]);
      StripEnds(parts[0]);
      if s != [] then
        assert forall i :: 1 <= i < |rest| + 1 ==> ([s] + rest)[i] == rest[i - 1];
        [s] + rest
      else rest
  }

  /** A character no part contains is in no kept name. */
  lemma {:induction false} NonEmptyStrippedOmits(parts: seq<string>, c: char)
    requires forall j :: 0 <= j < |parts| ==> c !in parts[j]
    ensures forall i :: 0 <= i < |NonEmptyStripped(parts)| ==> c !in NonEmptyStripped(parts)[i]
  {
    if parts != [] {
      NonEmptyStrippedOmits(parts[1..], c);
      StripChars(parts[0]);
      var rest := NonEmptyStripped(parts[1..]);
      var s := Strip(parts[0]);
      if s != [] {
        assert NonEmptyStripped(parts) == [s] + rest;
        assert forall i :: 1 <= i < |rest| + 1 ==> ([s] + rest)[i] == rest[i - 1];
      }
    }
  }

  /** Parts are filtered independently: the kept names of a concatenation are those of each half, in order. */
  lemma {:induction false} NonEmptyStrippedAppend(a: seq<string>, b: seq<string>)
    ensures NonEmptyStripped(a + b) == NonEmptyStripped(a) + NonEmptyStripped(b)
  {
    if a != [] {
      NonEmptyStrippedAppend(a[1..], b);
      assert (a + b)[0] == a[0];
      assert (a + b)[1..] == a[1..] + b;
    } else {
      assert a + b == b;
    }
  }

  /** One part contributes its stripped text, or nothing when it is blank. */
  lemma NonEmptyStrippedOne(part: string)
    ensures NonEmptyStripped([part]) == if Strip(part) == [] then [] else [Strip(part)]
  {
    assert [part][1..] == [];
  }

  /**
   * The emote filter text as the user types it: split on commas, each entry
   * stripped, empty entries dropped, order kept.
   */
  function ParseEmoteFilter(text: string): (emotes: seq<string>)
    ensures forall i :: 0 <= i < |emotes| ==> CleanName(emotes[i]) && ',' !in emotes[i]
  {
    var parts := Split(text, ',');
    NonEmptyStrippedOmits(parts, ',');
    NonEmptyStripped(parts)
  }

  /** A comma-free entry is parsed to its stripped text, or to nothing when it is blank: " KEKW " gives "KEKW". */
  lemma ParseEmoteEntry(entry: string)
    requires ',' !in entry
    ensures ParseEmoteFilter(entry) == if Strip(entry) == [] then [] else [Strip(entry)]
  {
    SplitNoSeparator(entry, ',');
    NonEmptyStrippedOne(entry);
  }

  /** The entry before the first comma is parsed on its own, ahead of the entries after it. */
  lemma ParseEmoteFirst(entry: string, rest: string)
    requires ',' !in entry
    ensures ParseEmoteFilter(entry + [','] + rest) == ParseEmoteFilter(entry) + ParseEmoteFilter(rest)
  {
    var tail := [','] + rest;
    assert tail[1..] == rest;
    assert Split(tail, ',') == [[]] + Split(rest, ',');
    SplitPrefix(entry, tail, ',');
    assert entry + [] == entry;
    assert entry + [','] + rest == entry + tail;
    assert Split(entry + tail, ',') == [entry] + Split(rest, ',');
    SplitNoSeparator(entry, ',');
    NonEmptyStrippedAppend([entry], Split(rest, ','));
  }

  /** Writing clean emote names with commas between them and parsing the text gives the names back. */
  lemma EmoteFilterRoundTrip(emotes: seq<string>)
    requires forall i :: 0 <= i < |emotes| ==> CleanName(emotes[i]) && ',' !in emotes[i]
    ensures ParseEmoteFilter(Join(emotes, ',')) == emotes
  {
    if emotes == [] {
      assert Split([], ',') == [[]];
      assert Strip([]) == [];
    } else {
      SplitJoin(emotes, ',');
      KeepsClean(emotes);
    }
  }

  /** `', '.join(emotes)`: the filter text the program writes back into the input box. */
  function FilterText(emotes: seq<string>): string
  {
    if |emotes| == 0 then []
    else if |emotes| == 1 then emotes[0]
    else emotes[0] + ", " + FilterText(emotes[1..])
  }

  /** A space in front of the text only pads the first entry, which is stripped anyway. */
  lemma ParseEmoteLeadingSpace(text: string)
    ensures ParseEmoteFilter(" " + text) == ParseEmoteFilter(text)
  {
    var parts := Split(text, ',');
    SplitPrefix(" ", text, ',');
    assert Split(" " + text, ',') == [" " + parts[0]] + parts[1..];
    assert (" " + parts[0])[1..] == parts[0];
    assert Strip(" " + parts[0]) == Strip(parts[0]);
    NonEmptyStrippedAppend([" " + parts[0]], parts[1..]);
    NonEmptyStrippedAppend([parts[0]], parts[1..]);
    NonEmptyStrippedOne(" " + parts[0]);
    NonEmptyStrippedOne(parts[0]);
    assert parts == [parts[0]] + parts[1..];
  }

  /** Parsing the text the program writes for a list of clean names gives the same names in the same order. */
  lemma {:induction false} FilterTextRoundTrip(emotes: seq<string>)
    requires forall i :: 0 <= i < |emotes| ==> CleanName(emotes[i]) && ',' !in emotes[i]
    ensures ParseEmoteFilter(FilterText(emotes)) == emotes
  {
    if |emotes| == 0 {
      assert Split([], ',') == [[]];
      assert Strip([]) == [];
    } else if |emotes| == 1 {
      ParseEmoteEntry(emotes[0]);
      StripUnpadded(emotes[0]);
    } else {
      FilterTextCons(emotes[0], FilterText(emotes[1..]));
      FilterTextRoundTrip(emotes[1..]);
      assert emotes == [emotes[0]] + emotes[1..];
    }
  }

  /** A clean name written ahead of ", " and more text is parsed as that name, ahead of the rest. */
  lemma FilterTextCons(first: string, rest: string)
    requires CleanName(first) && ',' !in first
    ensures ParseEmoteFilter(first + ", " + rest) == [first] + ParseEmoteFilter(rest)
  {
    assert first + ", " + rest == first + [','] + (" " + rest);
    ParseEmoteFirst(first, " " + rest);
    ParseEmoteEntry(first);
    StripUnpadded(first);
    ParseEmoteLeadingSpace(rest);
  }

  /** Clean names pass through stripping and filtering unchanged. */
  lemma {:induction false} KeepsClean(parts: seq<string>)
    requires forall i :: 0 <= i < |parts| ==> CleanName(parts[i])
    ensures NonEmptyStripped(parts) == parts
  {
    if parts != [] {
      StripUnpadded(parts[0]);
      KeepsClean(parts[1..]);
      assert parts == [parts[0]] + parts[1..];
    }
  }

  /** The messages whose body the matcher finds a tracked emote in, in their original order. */
  function Matching(msgs: seq<Message>, emotes: seq<string>, matches: (string, seq<string>) -> bool): (kept: seq<Message>)
    ensures |kept| <= |msgs|
  {
    if msgs == [] then []
    else (if matches(msgs[0].body, emotes) then [msgs[0]] else []) + Matching(msgs[1..], emotes, matches)
  }

  /** A message is kept exactly when it is one of the messages and its body matches. */
  lemma {:induction false} MatchingKeeps(msgs: seq<Message>, emotes: seq<string>, matches: (string, seq<string>) -> bool, m: Message)
    ensures m in Matching(msgs, emotes, matches) <==> m in msgs && matches(m.body, emotes)
  {
    if msgs != [] {
      MatchingKeeps(msgs[1..], emotes, matches, m);
      assert msgs == [msgs[0]] + msgs[1..];
    }
  }

  /** Messages are matched independently: the kept messages of a concatenation are those of each half, in order. */
  lemma {:induction false} MatchingAppend(a: seq<Message>, b: seq<Message>, emotes: seq<string>, matches: (string, seq<string>) -> bool)
    ensures Matching(a + b, emotes, matches) == Matching(a, emotes, matches) + Matching(b, emotes, matches)
  {
    if a != [] {
      MatchingAppend(a[1..], b, emotes, matches);
      assert (a + b)[0] == a[0];
      assert (a + b)[1..] == a[1..] + b;
    } else {
      assert a + b == b;
    }
  }

  /** One message is kept when its body matches and dropped otherwise. */
  lemma MatchingOne(m: Message, emotes: seq<string>, matches: (string, seq<string>) -> bool)
    ensures Matching([m], emotes, matches) == if matches(m.body, emotes) then [m] else []
  {
    assert [m][1..] == [];
  }

  /** Counting only the matching messages never gives more than counting them all. */
  lemma {:induction false} MatchingCountAtMost(msgs: seq<Message>, emotes: seq<string>, matches: (string, seq<string>) -> bool,
                                               delta: real, bins: nat, k: nat)
    requires delta > 0.0
    ensures CountOf(TimeBins(Matching(msgs, emotes, matches), delta, bins), k) <= CountOf(TimeBins(msgs, delta, bins), k)
  {
    if msgs != [] {
      MatchingCountAtMost(msgs[1..], emotes, matches, delta, bins, k);
      var rest := Matching(msgs[1..], emotes, matches);
      var labels := TimeBins(msgs, delta, bins);
      assert labels[1..] == TimeBins(msgs[1..], delta, bins);
      if matches(msgs[0].body, emotes) {
        var kept := [msgs[0]] + rest;
        assert kept[1..] == rest;
        assert TimeBins(kept, delta, bins)[1..] == TimeBins(rest, delta, bins);
      } else {
        assert [] + rest == rest;
      }
    }
  }

  // ---------------------------------------------------------------- rates

  /** The weight of one hype message in the average rate. */
  const PogsScalingFactor: nat := 10

  /**
   * One row of the combined table: its bin k (the `time_bin` value is the
   * bin's left edge k*delta, see BinStart), and the bin's chat, pogs and
   * average rates.
   */
  datatype RateRow = RateRow(bin: nat, chatRate: nat, pogsRate: nat, averageRate: nat)

  /** The `time_bin` value of a row: the left edge of its bin. */
  function BinStart(row: RateRow, delta: real): (t: real)
    requires delta > 0.0
    ensures t >= 0.0
  {
    MulLeq(0.0, row.bin as real, delta);
    row.bin as real * delta
  }

  /**
   * The left merge of the pogs groups onto the chat groups, missing pogs
   * counts filled with 0, and the average rate chat + 10 * pogs.
   */
  function CombineRates(chat: seq<BinSize>, pogs: seq<BinSize>): (rows: seq<RateRow>)
    ensures |rows| == |chat|
    ensures forall i :: 0 <= i < |rows| ==>
              && rows[i].bin == chat[i].bin
              && rows[i].chatRate == chat[i].size
              && rows[i].pogsRate == SizeOf(pogs, chat[i].bin)
              && rows[i].averageRate == rows[i].chatRate + PogsScalingFactor * rows[i].pogsRate
  {
    if chat == [] then []
    else
      var p := SizeOf(pogs, chat[0].bin);
      var rest := CombineRates(chat[1..], pogs);
      assert forall i :: 1 <= i < |chat| ==> chat[i] == chat[1..][i - 1];
      [RateRow(chat[0].bin, chat[0].size, p, chat[0].size + PogsScalingFactor * p)] + rest
  }

  /** The number of bins for a non-empty comment list. */
  function BinCount(msgs: seq<Message>, delta: real): nat
    requires delta > 0.0 && |msgs| > 0
  {
    NumBins(MaxOffset(msgs), delta)
  }

  /**
   * The combined table of a non-empty comment list: the messages and the hype
   * messages grouped on the same bins, then merged.
   */
  function RateTable(msgs: seq<Message>, delta: real, hype: seq<Message>): seq<RateRow>
    requires delta > 0.0 && |msgs| > 0
  {
    var bins := BinCount(msgs, delta);
    CombineRates(GroupSizes(TimeBins(msgs, delta, bins), bins, 0), GroupSizes(TimeBins(hype, delta, bins), bins, 0))
  }

  /**
   * The processing worker: read the comments, bin them with width delta up to
   * the largest offset, bin the hype messages on the same edges, and combine.
   */
  function ProcessChatLog(doc: ChatDocument, delta: real, emotesToTrack: seq<string>,
                          matches: (string, seq<string>) -> bool): (r: Result<seq<RateRow>, ProcessError>)
    requires delta > 0.0
    ensures ChatMessages(doc).Failure? ==> r == Failure(InvalidChatLogFormat)
    ensures ChatMessages(doc) == Success([]) ==> r == Failure(EmptyChatLog)
    ensures r.Success? <==> ChatMessages(doc).Success? && ChatMessages(doc).value != []
  {
    match ChatMessages(doc)
    case Failure(e) => Failure(e)
    case Success(msgs) =>
      if msgs == [] then Failure(EmptyChatLog)
      else Success(RateTable(msgs, delta, Matching(msgs, HypeEmotes(emotesToTrack), matches)))
  }

  /** The rows of the table are in strictly ascending bin order, hence strictly ascending time. */
  lemma RateTableAscending(msgs: seq<Message>, delta: real, hype: seq<Message>, i: nat, j: nat)
    requires delta > 0.0 && |msgs| > 0
    requires i < j < |RateTable(msgs, delta, hype)|
    ensures RateTable(msgs, delta, hype)[i].bin < RateTable(msgs, delta, hype)[j].bin
    ensures BinStart(RateTable(msgs, delta, hype)[i], delta) < BinStart(RateTable(msgs, delta, hype)[j], delta)
  {
    var bins := BinCount(msgs, delta);
    var chat := GroupSizes(TimeBins(msgs, delta, bins), bins, 0);
    var rows := CombineRates(chat, GroupSizes(TimeBins(hype, delta, bins), bins, 0));
    assert rows == RateTable(msgs, delta, hype);
    assert rows[i].bin < rows[j].bin;
    LaterBinLaterStart(rows[i], rows[j], delta);
  }

  /** A later bin starts later. */
  lemma LaterBinLaterStart(a: RateRow, b: RateRow, delta: real)
    requires delta > 0.0 && a.bin < b.bin
    ensures BinStart(a, delta) < BinStart(b, delta)
  {
    MulLess(a.bin as real, b.bin as real, delta);
  }

  /**
   * Each row of a merged grouping is a bin holding chat rows, with that bin's
   * chat count, its hype count (0 where none fell) and their weighted sum.
   */
  lemma CombinedRow(chatBins: seq<Option<nat>>, hypeBins: seq<Option<nat>>, bins: nat, i: nat)
    requires i < |CombineRates(GroupSizes(chatBins, bins, 0), GroupSizes(hypeBins, bins, 0))|
    ensures var row := CombineRates(GroupSizes(chatBins, bins, 0), GroupSizes(hypeBins, bins, 0))[i];
            && row.bin < bins
            && row.chatRate == CountOf(chatBins, row.bin) > 0
            && row.pogsRate == CountOf(hypeBins, row.bin)
            && row.averageRate == row.chatRate + PogsScalingFactor * row.pogsRate
  {
    var chat := GroupSizes(chatBins, bins, 0);
    SizeOfGroups(hypeBins, bins, chat[i].bin);
  }

  /** Every bin holding a chat row has its row in the merged grouping. */
  lemma CombinedComplete(chatBins: seq<Option<nat>>, hypeBins: seq<Option<nat>>, bins: nat, k: nat)
    requires k < bins && CountOf(chatBins, k) > 0
    ensures exists i :: 0 <= i < |CombineRates(GroupSizes(chatBins, bins, 0), GroupSizes(hypeBins, bins, 0))| &&
                        CombineRates(GroupSizes(chatBins, bins, 0), GroupSizes(hypeBins, bins, 0))[i].bin == k
  {
    var chat := GroupSizes(chatBins, bins, 0);
    var rows := CombineRates(chat, GroupSizes(hypeBins, bins, 0));
    GroupSizesComplete(chatBins, bins, 0, k);
    var i :| 0 <= i < |chat| && chat[i].bin == k;
    assert rows[i].bin == k;
  }

  /**
   * Each row of the table is a bin holding messages, with that bin's message
   * count, its hype-message count and their weighted sum.
   */
  lemma RateTableRow(msgs: seq<Message>, delta: real, hype: seq<Message>, i: nat)
    requires delta > 0.0 && |msgs| > 0
    requires i < |RateTable(msgs, delta, hype)|
    ensures var bins := BinCount(msgs, delta);
            var row := RateTable(msgs, delta, hype)[i];
            && row.bin < bins
            && row.chatRate == CountOf(TimeBins(msgs, delta, bins), row.bin) > 0
            && row.pogsRate == CountOf(TimeBins(hype, delta, bins), row.bin)
            && row.averageRate == row.chatRate + PogsScalingFactor * row.pogsRate
  {
    var bins := BinCount(msgs, delta);
    CombinedRow(TimeBins(msgs, delta, bins), TimeBins(hype, delta, bins), bins, i);
  }

  /** The bin of every message that has one appears as a row. */
  lemma RateTableComplete(msgs: seq<Message>, delta: real, hype: seq<Message>, j: nat, k: nat)
    requires delta > 0.0 && j < |msgs|
    requires BinIndex(msgs[j].offset, delta, BinCount(msgs, delta)) == Some(k)
    ensures exists i :: 0 <= i < |RateTable(msgs, delta, hype)| && RateTable(msgs, delta, hype)[i].bin == k
  {
    var bins := BinCount(msgs, delta);
    var labels := TimeBins(msgs, delta, bins);
    assert labels[j] == Some(k);
    CountOfPositive(labels, k);
    assert RateTable(msgs, delta, hype) == CombineRates(GroupSizes(labels, bins, 0), GroupSizes(TimeBins(hype, delta, bins), bins, 0));
    CombinedComplete(labels, TimeBins(hype, delta, bins), bins, k);
  }

  /** The hype rate of a processed row never exceeds its chat rate. */
  lemma PogsAtMostChat(doc: ChatDocument, delta: real, emotesToTrack: seq<string>,
                       matches: (string, seq<string>) -> bool, i: nat)
    requires delta > 0.0
    requires ProcessChatLog(doc, delta, emotesToTrack, matches).Success?
    requires i < |ProcessChatLog(doc, delta, emotesToTrack, matches).value|
    ensures var row := ProcessChatLog(doc, delta, emotesToTrack, matches).value[i];
            row.pogsRate <= row.chatRate
  {
    var msgs := ChatMessages(doc).value;
    var emotes := HypeEmotes(emotesToTrack);
    var hype := Matching(msgs, emotes, matches);
    var bins := BinCount(msgs, delta);
    RateTableRow(msgs, delta, hype, i);
    MatchingCountAtMost(msgs, emotes, matches, delta, bins, RateTable(msgs, delta, hype)[i].bin);
  }

  /** An empty emote list processes exactly as the built-in emote list does. */
  lemma EmptyFilterUsesDefaults(doc: ChatDocument, delta: real, matches: (string, seq<string>) -> bool)
    requires delta > 0.0
    ensures ProcessChatLog(doc, delta, [], matches) == ProcessChatLog(doc, delta, DefaultEmotes, matches)
  {
  }
}
