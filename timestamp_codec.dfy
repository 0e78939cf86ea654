/**
 * The timestamp token embedded at the end of every backup file name:
 * `(Y-MM-DD-hh-mm-ss)`, each field written with at least two digits.
 */
module TimestampCodec {
  import opened Wrappers
  import opened Strings
  import opened Numerals
  import opened DateTimes

  const TimestampBrackets: set<char> := {'(', ')'}

  /** The six fields of a timestamp token, in order, as `{x:00}` writes them. */
  function Fields(time: DateTime): (parts: seq<string>)
    ensures |parts| == 6
    ensures forall k :: 0 <= k < 6 ==> |parts[k]| >= 2 && AllDigits(parts[k])
  {
    [Format00(time.year), Format00(time.month), Format00(time.day),
     Format00(time.hour), Format00(time.minute), Format00(time.second)]
  }

  /** A joined sequence of digit strings holds only digits and separators,
      starts and ends with a digit and has one separator per join. */
  lemma {:induction false} JoinDigits(parts: seq<string>, sep: char)
    requires |parts| >= 1 && !IsDigit(sep)
    requires forall k :: 0 <= k < |parts| ==> |parts[k]| >= 1 && AllDigits(parts[k])
    ensures var j := Join(parts, sep);
      && |j| >= 1 && IsDigit(j[0]) && IsDigit(j[|j| - 1])
      && (forall k :: 0 <= k < |j| ==> IsDigit(j[k]) || j[k] == sep)
      && Count(j, sep) == |parts| - 1
    decreases |parts|
  {
    var head := parts[0];
    assert IsDigit(head[0]);
    assert sep !in head;
    CountAbsent(head, sep);
    if |parts| > 1 {
      var rest := Join(parts[1..], sep);
      JoinDigits(parts[1..], sep);
      CountAppend(head + [sep], rest, sep);
      CountAppend(head, [sep], sep);
      var j := head + [sep] + rest;
      assert j[0] == head[0];
      assert j[|j| - 1] == rest[|rest| - 1];
      forall k | 0 <= k < |j|
        ensures IsDigit(j[k]) || j[k] == sep
      {
        if k > |head| {
          assert j[k] == rest[k - |head| - 1];
        }
      }
    }
  }

  /** `FormatTimestamp`: the token `(Y-MM-DD-hh-mm-ss)`; the sub-second part
      of `time` is not written. */
  function FormatTimestamp(time: DateTime): (r: string)
    ensures |r| >= 3 && r[0] == '(' && r[|r| - 1] == ')'
    ensures '(' !in r[1..] && ')' !in r[..|r| - 1] && '/' !in r
    ensures Count(r, '-') == 5
  {
    var inner := Join(Fields(time), '-');
    JoinDigits(Fields(time), '-');
    Bracketed(inner);
    "(" + inner + ")"
  }

  /** Bracketing a string of digits and dashes adds one bracket at each end
      and no dash. */
  lemma Bracketed(inner: string)
    requires forall k :: 0 <= k < |inner| ==> IsDigit(inner[k]) || inner[k] == '-'
    ensures var r := "(" + inner + ")";
      && '(' !in r[1..] && ')' !in r[..|r| - 1] && '/' !in r
      && Count(r, '-') == Count(inner, '-')
  {
    var r := "(" + inner + ")";
    assert r[1..] == inner + ")";
    assert r[..|r| - 1] == "(" + inner;
    CountAppend("(" + inner, ")", '-');
    CountAppend("(", inner, '-');
  }

  /** Field `i` of a split token, read with `int.Parse`; indexing past the
      last part raises `IndexOutOfRangeException`. */
  function ParseField(parts: seq<string>, i: nat): (r: Result<Int32, Exception>)
    ensures i >= |parts| ==> r == Failure(IndexOutOfRangeException)
    ensures i < |parts| ==> r == ParseInt32(parts[i])
  {
    if i < |parts| then ParseInt32(parts[i]) else Failure(IndexOutOfRangeException)
  }

  /** `ParseTimestamp`: trim brackets from both ends, split on '-' and read
      six integers into a `DateTime`; the first exception raised is the
      result. */
  function ParseTimestamp(timestamp: string): (r: Result<DateTime, Exception>)
    ensures r.Success? ==> r.value.Valid() && r.value.ticks == 0
  {
    ParseFields(Split(Trim(timestamp, TimestampBrackets), '-'))
  }

  /** Reads `parts[0..6]` as year, month, day, hour, minute and second. */
  function ParseFields(parts: seq<string>): (r: Result<DateTime, Exception>)
    ensures r.Success? ==> r.value.Valid() && r.value.ticks == 0
  {
    var Y :- ParseField(parts, 0);
    var M :- ParseField(parts, 1);
    var D :- ParseField(parts, 2);
    var h :- ParseField(parts, 3);
    var m :- ParseField(parts, 4);
    var s :- ParseField(parts, 5);
    NewDateTime(Y, M, D, h, m, s)
  }

  /** `ParseBackupPathTimestamp`: parse the text from the last '(' of a
      backup path; with no '(' at all, `Substring(-1)` raises
      `ArgumentOutOfRangeException`. */
  function ParseBackupPathTimestamp(backupPath: string): (r: Result<DateTime, Exception>)
    ensures '(' !in backupPath ==> r == Failure(ArgumentOutOfRangeException)
    ensures r.Success? ==> r.value.Valid() && r.value.ticks == 0
  {
    var lparenIndex := LastIndexOf(backupPath, '(');
    if lparenIndex < 0 then Failure(ArgumentOutOfRangeException)
    else ParseTimestamp(backupPath[lparenIndex..])
  }

  /** Trimming and splitting a formatted timestamp recovers its six fields. */
  lemma SplitFormatted(time: DateTime)
    ensures Split(Trim(FormatTimestamp(time), TimestampBrackets), '-') == Fields(time)
  {
    var fields := Fields(time);
    var inner := Join(fields, '-');
    JoinDigits(fields, '-');
    TrimBracketed('(', inner, ')', TimestampBrackets);
    assert FormatTimestamp(time) == ['('] + inner + [')'];
    assert forall k :: 0 <= k < 6 ==> '-' !in fields[k];
    SplitJoin(fields, '-');
  }

  /** Parsing a formatted timestamp gives back the time it was formatted
      from, truncated to whole seconds. */
  lemma TimestampRoundTrip(time: DateTime)
    requires time.Valid()
    ensures ParseTimestamp(FormatTimestamp(time)) == Success(time.Truncated())
  {
    SplitFormatted(time);
    ParseFieldsOfFields(time);
  }

  /** Reading the six formatted fields gives the whole-second time. */
  lemma ParseFieldsOfFields(time: DateTime)
    requires time.Valid()
    ensures ParseFields(Fields(time)) == Success(time.Truncated())
  {
    FieldsParse(time);
    NewDateTimeOfValid(time);
    ParseFieldsOfParsed(Fields(time), time.year, time.month, time.day, time.hour, time.minute, time.second);
  }

  /** Each formatted field reads back as the number it was written from. */
  lemma FieldsParse(time: DateTime)
    requires time.year <= MaxInt32 && time.month <= MaxInt32 && time.day <= MaxInt32
    requires time.hour <= MaxInt32 && time.minute <= MaxInt32 && time.second <= MaxInt32
    ensures var parts := Fields(time);
      && ParseInt32(parts[0]) == Success(time.year) && ParseInt32(parts[1]) == Success(time.month)
      && ParseInt32(parts[2]) == Success(time.day) && ParseInt32(parts[3]) == Success(time.hour)
      && ParseInt32(parts[4]) == Success(time.minute) && ParseInt32(parts[5]) == Success(time.second)
  {
    var parts := Fields(time);
    assert ParseInt32(parts[0]) == Success(time.year) by { ParseFormat00(time.year); }
    assert ParseInt32(parts[1]) == Success(time.month) by { ParseFormat00(time.month); }
    assert ParseInt32(parts[2]) == Success(time.day) by { ParseFormat00(time.day); }
    assert ParseInt32(parts[3]) == Success(time.hour) by { ParseFormat00(time.hour); }
    assert ParseInt32(parts[4]) == Success(time.minute) by { ParseFormat00(time.minute); }
    assert ParseInt32(parts[5]) == Success(time.second) by { ParseFormat00(time.second); }
  }

  /** The `DateTime` constructor rebuilds a valid time from its fields,
      without the sub-second part. */
  lemma NewDateTimeOfValid(time: DateTime)
    requires time.Valid()
    ensures NewDateTime(time.year, time.month, time.day, time.hour, time.minute, time.second)
         == Success(time.Truncated())
  {
  }

  /** Once each of the six parts reads as a number, the parse is the
      `DateTime` constructor applied to those numbers. */
  lemma ParseFieldsOfParsed(parts: seq<string>, Y: Int32, M: Int32, D: Int32, h: Int32, m: Int32, s: Int32)
    requires |parts| >= 6
    requires ParseInt32(parts[0]) == Success(Y) && ParseInt32(parts[1]) == Success(M)
    requires ParseInt32(parts[2]) == Success(D) && ParseInt32(parts[3]) == Success(h)
    requires ParseInt32(parts[4]) == Success(m) && ParseInt32(parts[5]) == Success(s)
    ensures ParseFields(parts) == NewDateTime(Y, M, D, h, m, s)
  {
  }

  /** The timestamp of a backup path is found wherever its prefix puts '(':
      only the token's own '(' is the last one. */
  lemma BackupPathTimestampRoundTrip(prefix: string, time: DateTime)
    requires time.Valid()
    ensures ParseBackupPathTimestamp(prefix + FormatTimestamp(time)) == Success(time.Truncated())
  {
    var path := prefix + FormatTimestamp(time);
    StampedLastParen(prefix, time);
    assert path[|prefix|..] == FormatTimestamp(time);
    TimestampRoundTrip(time);
  }

  /** The token's own '(' is the last one in any prefix followed by a token,
      whatever the time. */
  lemma StampedLastParen(prefix: string, time: DateTime)
    ensures LastIndexOf(prefix + FormatTimestamp(time), '(') == |prefix|
  {
    LastIndexOfLead(prefix, FormatTimestamp(time), '(');
  }
}
