/** Reading the broadcast log: one header line with a record count, then
    one record per line, `<station> <minutes> <seconds> <author>:<title>`.
    Each station plays its records back to back from 0:0:0, so a record's
    start time is the sum of the durations of the station's earlier
    records. */
module Schedule {
  import opened Wrappers
  import opened Clock
  import opened Text

  /** The number of stations, `RADIO_COUNT`. */
  const RadioCount := 3

  /** A station number; the program indexes a table of `RadioCount` slots
      with `id - 1`, so only 1, 2 and 3 get through. */
  type StationId = x: int | 1 <= x <= 3 witness 1

  /** One parsed line of the log, before its start time is known. */
  datatype Entry = Entry(radio: StationId, dur: Time, author: string, title: string)

  /** `Broadcast`: a record with its start time on its station. */
  datatype Broadcast = Broadcast(radioId: StationId, startTime: Time, durTime: Time,
                                 author: string, title: string)

  /** Why a record line makes the program panic, in the order it checks. */
  datatype LineError =
    | MissingFields      // fewer than three space-separated tokens
    | MissingText        // exactly three tokens: nothing after the third space
    | MissingColon       // no ':' after the third space
    | BadStation         // the first token is not a `u8`
    | StationZero        // station 0: `radio_id - 1` underflows (debug build)
    | BadMinutes         // the second token is not a `u8`
    | BadSeconds         // the third token is not a `u8`
    | StationOutOfRange  // station above 3: the table index is out of bounds

  datatype ParseError =
    | BadHeader                           // the first line is not a `usize`
    | BadLine(index: nat, error: LineError) // the record line at `index`, from 0

  // ----- One line

  /** The parts of a record line: three tokens and the text after them. */
  datatype Fields = Fields(id: string, min: string, sec: string, music: string)

  /** The line is cut into tokens at single spaces; the first three are the
      numbers and the text after the third space holds the author and the
      title. */
  function CutLine(line: string): Result<Fields, LineError> {
    CutTokens(line, Split(line, ' '))
  }

  /** The cut of `line` once it is split into the tokens `attrs`. */
  function CutTokens(line: string, attrs: seq<string>): Result<Fields, LineError> {
    if |attrs| < 3 then Failure(MissingFields)
    else
      var offset := |attrs[0]| + |attrs[1]| + |attrs[2]| + 3;
      if offset > |line| then Failure(MissingText)
      else Success(Fields(attrs[0], attrs[1], attrs[2], line[offset..]))
  }

  /** The record a line holds. */
  function ParseLine(line: string): (r: Result<Entry, LineError>)
    ensures r.Success? ==> ':' !in r.value.author && IsTrimmed(r.value.title)
                           && r.value.dur.hour == 0
  {
    match CutLine(line)
    case Failure(err) => Failure(err)
    case Success(f) => ParseMusic(f.id, f.min, f.sec, f.music)
  }

  /** The text after the third space: the author is everything before its
      first ':', untrimmed; the title is the rest after that ':', trimmed. */
  function ParseMusic(id: string, min: string, sec: string, raw: string): (r: Result<Entry, LineError>)
    ensures r.Success? ==> ':' !in r.value.author && IsTrimmed(r.value.title)
                           && r.value.dur.hour == 0
  {
    match CutAtFirst(raw, ':')
    case None => Failure(MissingColon)
    case Some((author, rest)) => MakeEntry(id, min, sec, author, Trim(rest))
  }

  /** The numbers of a record line: the station, then the duration
      `0:<minutes>:<seconds>`, each a `u8`; the station is checked against
      0 before the duration is read and against 3 after. */
  function MakeEntry(id: string, min: string, sec: string, author: string, title: string)
    : (r: Result<Entry, LineError>)
    ensures r.Success? ==> r.value.author == author && r.value.title == title
                           && r.value.dur.hour == 0
  {
    match ParseUnsigned(id, 0x100)
    case None => Failure(BadStation)
    case Some(radio) =>
      if radio == 0 then Failure(StationZero)
      else
        match ParseUnsigned(min, 0x100)
        case None => Failure(BadMinutes)
        case Some(m) =>
          match ParseUnsigned(sec, 0x100)
          case None => Failure(BadSeconds)
          case Some(s) =>
            if radio > RadioCount then Failure(StationOutOfRange)
            else Success(Entry(radio, Time(0, m, s), author, title))
  }

  /** The line the log would hold for `e`, with plain decimal numbers. */
  function FormatLine(e: Entry): string {
    Decimal(e.radio) + " " + (Decimal(e.dur.min) + " " + (Decimal(e.dur.sec) + " "
    + (e.author + ":" + e.title)))
  }

  /** A decimal number holds no space. */
  lemma DecimalHasNoSpace(n: nat)
    ensures ' ' !in Decimal(n)
  {
  }

  /** The first three tokens of a line that starts with three numbers. */
  lemma SplitNumbers(a: string, b: string, c: string, rest: string)
    requires ' ' !in a && ' ' !in b && ' ' !in c
    ensures Split(a + " " + (b + " " + (c + " " + rest)), ' ') == [a] + ([b] + ([c] + Split(rest, ' ')))
  {
    SplitFirst(c, rest, ' ');
    SplitFirst(b, c + " " + rest, ' ');
    SplitFirst(a, b + " " + (c + " " + rest), ' ');
  }

  /** The first three of three pieces put in front. */
  lemma ThreeHeads(a: string, b: string, c: string, tail: seq<string>)
    ensures |[a] + ([b] + ([c] + tail))| == 3 + |tail|
    ensures ([a] + ([b] + ([c] + tail)))[0] == a
    ensures ([a] + ([b] + ([c] + tail)))[1] == b
    ensures ([a] + ([b] + ([c] + tail)))[2] == c
  {
  }

  /** The numbers of a record read back from their decimal notation. */
  lemma MakeEntryDecimal(e: Entry)
    requires e.dur.hour == 0
    ensures MakeEntry(Decimal(e.radio), Decimal(e.dur.min), Decimal(e.dur.sec), e.author, e.title)
            == Success(e)
  {
    ParseDecimal(e.radio, 0x100);
    ParseDecimal(e.dur.min, 0x100);
    ParseDecimal(e.dur.sec, 0x100);
  }

  /** Parsing reads back every record the log can hold: an author without
      ':', a title without white space at its ends and a duration under an
      hour. */
  lemma ParseFormatLine(e: Entry)
    requires ':' !in e.author && IsTrimmed(e.title) && e.dur.hour == 0
    ensures ParseLine(FormatLine(e)) == Success(e)
  {
    var a, b, c := Decimal(e.radio), Decimal(e.dur.min), Decimal(e.dur.sec);
    var raw := e.author + ":" + e.title;
    DecimalHasNoSpace(e.radio);
    DecimalHasNoSpace(e.dur.min);
    DecimalHasNoSpace(e.dur.sec);
    CutLineFields(a, b, c, raw);
    ParseMusicFormat(e);
  }

  /** A line that starts with three tokens free of spaces is cut into those
      tokens and the text after the third space. */
  lemma CutLineFields(a: string, b: string, c: string, raw: string)
    requires ' ' !in a && ' ' !in b && ' ' !in c
    ensures CutLine(a + " " + (b + " " + (c + " " + raw))) == Success(Fields(a, b, c, raw))
  {
    var line := a + " " + (b + " " + (c + " " + raw));
    SplitNumbers(a, b, c, raw);
    ThreeHeads(a, b, c, Split(raw, ' '));
    var attrs := Split(line, ' ');
    assert |attrs| >= 3 && attrs[0] == a && attrs[1] == b && attrs[2] == c;
    CutAfterNumbers(a, b, c, raw);
    CutTokensAt(line, attrs, raw);
    assert CutLine(line) == CutTokens(line, attrs);
  }

  /** Tokens followed by `raw` are cut into those tokens and `raw`. */
  lemma CutTokensAt(line: string, attrs: seq<string>, raw: string)
    requires |attrs| >= 3 && |attrs[0]| + |attrs[1]| + |attrs[2]| + 3 <= |line|
    requires line[|attrs[0]| + |attrs[1]| + |attrs[2]| + 3..] == raw
    ensures CutTokens(line, attrs) == Success(Fields(attrs[0], attrs[1], attrs[2], raw))
  {
  }

  /** The music part of a formatted line reads back as the record. */
  lemma ParseMusicFormat(e: Entry)
    requires ':' !in e.author && IsTrimmed(e.title) && e.dur.hour == 0
    ensures ParseMusic(Decimal(e.radio), Decimal(e.dur.min), Decimal(e.dur.sec), e.author + ":" + e.title)
            == Success(e)
  {
    CutAtFirstUnique(e.author, ':', e.title);
    TrimTrimmed(e.title);
    MakeEntryDecimal(e);
  }

  /** What follows the third space of a line. */
  lemma CutAfterNumbers(a: string, b: string, c: string, rest: string)
    ensures (a + " " + (b + " " + (c + " " + rest)))[|a| + |b| + |c| + 3..] == rest
  {
  }

  /** A line that reads is three space-free tokens, the author, a ':' and
      a text that trims to the title. */
  lemma ParseLineParts(line: string)
    requires ParseLine(line).Success?
    ensures var e := ParseLine(line).value;
            exists a, b, c, raw :: ' ' !in a && ' ' !in b && ' ' !in c && Trim(raw) == e.title
                                  && line == a + " " + (b + " " + (c + " " + (e.author + ":" + raw)))
  {
    var e := ParseLine(line).value;
    var f := CutLine(line).value;
    CutLineParts(line);
    assert ParseLine(line) == ParseMusic(f.id, f.min, f.sec, f.music);
    var raw := MusicParts(f.id, f.min, f.sec, f.music);
    assert line == f.id + " " + (f.min + " " + (f.sec + " " + (e.author + ":" + raw)));
  }

  /** The text after the third space is the author, a ':' and what trims
      to the title. */
  lemma MusicParts(id: string, min: string, sec: string, music: string) returns (raw: string)
    requires ParseMusic(id, min, sec, music).Success?
    ensures music == ParseMusic(id, min, sec, music).value.author + ":" + raw
    ensures Trim(raw) == ParseMusic(id, min, sec, music).value.title
  {
    var (author, rest) := CutAtFirst(music, ':').value;
    assert ParseMusic(id, min, sec, music) == MakeEntry(id, min, sec, author, Trim(rest));
    raw := rest;
  }

  /** A line that cuts is its three tokens and its text, joined by single
      spaces. */
  lemma CutLineParts(line: string)
    requires CutLine(line).Success?
    ensures var f := CutLine(line).value;
            ' ' !in f.id && ' ' !in f.min && ' ' !in f.sec
            && line == f.id + " " + (f.min + " " + (f.sec + " " + f.music))
  {
    var attrs := Split(line, ' ');
    JoinSplit(line, ' ');
    JoinCount(attrs);
    var a, b, c, rest := attrs[0], attrs[1], attrs[2], Join(attrs[3..], ' ');
    JoinThree(attrs);
    CutAfterNumbers(a, b, c, rest);
  }

  /** Three pieces join to their lengths and two separators. */
  lemma JoinCount(attrs: seq<string>)
    requires |attrs| >= 3
    ensures |attrs| == 3 ==> |Join(attrs, ' ')| == |attrs[0]| + |attrs[1]| + |attrs[2]| + 2
  {
    if |attrs| == 3 {
      assert attrs[1..][1..] == attrs[2..];
      assert Join(attrs[2..], ' ') == attrs[2];
      assert Join(attrs[1..], ' ') == attrs[1] + [' '] + attrs[2];
    }
  }

  /** The first three pieces of a join of at least four. */
  lemma JoinThree(attrs: seq<string>)
    requires |attrs| >= 4
    ensures Join(attrs, ' ') == attrs[0] + " " + (attrs[1] + " " + (attrs[2] + " " + Join(attrs[3..], ' ')))
  {
    var tail := Join(attrs[3..], ' ');
    assert attrs[2..][1..] == attrs[3..];
    assert Join(attrs[2..], ' ') == attrs[2] + [' '] + tail;
    assert attrs[1..][1..] == attrs[2..];
    assert Join(attrs[1..], ' ') == attrs[1] + [' '] + (attrs[2] + [' '] + tail);
  }

  /** Once the tokens are cut, the colon found and the numbers read, the
      station decides: 1 to 3 reads, 0 underflows `radio_id - 1`, and a
      larger one is out of bounds of `start_times`. */
  lemma ParseLineStation(line: string, v: nat)
    requires CutLine(line).Success?
    requires var f := CutLine(line).value;
             ':' in f.music && ParseUnsigned(f.id, 0x100) == Some(v)
             && ParseUnsigned(f.min, 0x100).Some? && ParseUnsigned(f.sec, 0x100).Some?
    ensures ParseLine(line).Success? <==> 1 <= v <= RadioCount
    ensures v == 0 ==> ParseLine(line) == Failure(StationZero)
    ensures v > RadioCount ==> ParseLine(line) == Failure(StationOutOfRange)
    ensures ParseLine(line).Success? ==> ParseLine(line).value.radio == v
    ensures var f := CutLine(line).value;
            ParseLine(line).Success? ==>
              ParseLine(line).value.dur
                == Time(0, ParseUnsigned(f.min, 0x100).value, ParseUnsigned(f.sec, 0x100).value)
  {
  }

  // ----- All lines

  /** What each record line holds, in order. */
  function LineResults(lines: seq<string>): (rs: seq<Result<Entry, LineError>>)
    ensures |rs| == |lines|
  {
    if |lines| == 0 then []
    else LineResults(lines[..|lines| - 1]) + [ParseLine(lines[|lines| - 1])]
  }

  /** Result `k` is what line `k` holds. */
  lemma {:induction false} LineResultAt(lines: seq<string>, k: nat)
    requires k < |lines|
    ensures LineResults(lines)[k] == ParseLine(lines[k])
    decreases |lines|
  {
    if k < |lines| - 1 {
      var front := lines[..|lines| - 1];
      LineResultAt(front, k);
      assert front[k] == lines[k];
    }
  }

  /** The records of a sequence of line results, or the error of the first
      line that failed, with its index. */
  function Collect(rs: seq<Result<Entry, LineError>>): (r: Result<seq<Entry>, ParseError>)
    ensures r.Success? ==> |r.value| == |rs|
    ensures r.Failure? ==> r.error.BadLine? && r.error.index < |rs|
  {
    if |rs| == 0 then Success([])
    else
      match Collect(rs[..|rs| - 1])
      case Failure(err) => Failure(err)
      case Success(es) =>
        match rs[|rs| - 1]
        case Failure(le) => Failure(BadLine(|rs| - 1, le))
        case Success(e) => Success(es + [e])
  }

  /** On success, record `k` is what result `k` holds. */
  lemma {:induction false} CollectSuccess(rs: seq<Result<Entry, LineError>>, k: nat)
    requires Collect(rs).Success? && k < |rs|
    ensures rs[k] == Success(Collect(rs).value[k])
    decreases |rs|
  {
    if k < |rs| - 1 {
      CollectSuccess(rs[..|rs| - 1], k);
    }
  }

  /** On failure, the error is that of the first result that is one. */
  lemma {:induction false} CollectFailure(rs: seq<Result<Entry, LineError>>)
    requires Collect(rs).Failure?
    ensures rs[Collect(rs).error.index] == Failure(Collect(rs).error.error)
    ensures forall k :: 0 <= k < Collect(rs).error.index ==> rs[k].Success?
    decreases |rs|
  {
    var front := rs[..|rs| - 1];
    if Collect(front).Failure? {
      CollectFailure(front);
    } else {
      forall k | 0 <= k < |front|
        ensures rs[k].Success?
      {
        CollectSuccess(front, k);
      }
    }
  }

  /** Once a prefix fails, the whole sequence fails with the same error. */
  lemma {:induction false} CollectPrefixFailure(rs: seq<Result<Entry, LineError>>, i: nat)
    requires i <= |rs|
    requires Collect(rs[..i]).Failure?
    ensures Collect(rs) == Collect(rs[..i])
    decreases |rs|
  {
    if i < |rs| {
      var front := rs[..|rs| - 1];
      assert front[..i] == rs[..i];
      CollectPrefixFailure(front, i);
    } else {
      assert rs[..i] == rs;
    }
  }

  /** One more result: its record is appended, or its error is the
      outcome. */
  lemma CollectStep(rs: seq<Result<Entry, LineError>>, i: nat, es: seq<Entry>)
    requires i < |rs|
    requires Collect(rs[..i]) == Success(es)
    ensures rs[i].Success? ==> Collect(rs[..i + 1]) == Success(es + [rs[i].value])
    ensures rs[i].Failure? ==> Collect(rs[..i + 1]) == Failure(BadLine(i, rs[i].error))
  {
    assert rs[..i + 1][..i] == rs[..i];
  }

  /** The records of the record lines, in order; the first line that fails
      decides the error. */
  function ParseEntries(lines: seq<string>): Result<seq<Entry>, ParseError> {
    Collect(LineResults(lines))
  }

  /** On success there is one record per line, and record `k` is what line
      `k` holds. */
  lemma ParseEntriesSuccess(lines: seq<string>, k: nat)
    requires ParseEntries(lines).Success? && k < |lines|
    ensures |ParseEntries(lines).value| == |lines|
    ensures ParseLine(lines[k]) == Success(ParseEntries(lines).value[k])
  {
    CollectSuccess(LineResults(lines), k);
    LineResultAt(lines, k);
  }

  /** On failure, the error names the first line that fails and says why. */
  lemma ParseEntriesFailure(lines: seq<string>)
    requires ParseEntries(lines).Failure?
    ensures ParseEntries(lines).error.BadLine? && ParseEntries(lines).error.index < |lines|
    ensures ParseLine(lines[ParseEntries(lines).error.index]) == Failure(ParseEntries(lines).error.error)
    ensures forall k :: 0 <= k < ParseEntries(lines).error.index ==> ParseLine(lines[k]).Success?
  {
    var rs := LineResults(lines);
    CollectFailure(rs);
    LineResultAt(lines, Collect(rs).error.index);
    forall k | 0 <= k < Collect(rs).error.index
      ensures ParseLine(lines[k]).Success?
    {
      LineResultAt(lines, k);
    }
  }

  // ----- Start times

  /** The time station `s` has played after `es`: the durations of its
      records added one after the other from 0:0:0. */
  function Elapsed(es: seq<Entry>, s: StationId): Time {
    if |es| == 0 then Zero
    else
      var t := Elapsed(es[..|es| - 1], s);
      if es[|es| - 1].radio == s then Add(t, es[|es| - 1].dur) else t
  }

  /** The sum of the durations, in seconds, of the records of `es` on
      station `s`. */
  function Played(es: seq<Entry>, s: StationId): nat {
    if |es| == 0 then 0
    else Played(es[..|es| - 1], s) + (if es[|es| - 1].radio == s then ToSec(es[|es| - 1].dur) else 0)
  }

  /** The records with their start times: record `i` starts when its
      station has played the records before it. */
  function Stamped(es: seq<Entry>): (bs: seq<Broadcast>)
    ensures |bs| == |es|
  {
    seq(|es|, i requires 0 <= i < |es| =>
      Broadcast(es[i].radio, Elapsed(es[..i], es[i].radio), es[i].dur, es[i].author, es[i].title))
  }

  /** The elapsed time is the played total wrapped like the clock, and is
      canonical. */
  lemma {:induction false} ElapsedIsPlayed(es: seq<Entry>, s: StationId)
    ensures Canonical(Elapsed(es, s))
    ensures ToSec(Elapsed(es, s)) == Wrapped(Played(es, s))
    decreases |es|
  {
    if |es| == 0 {
      ToSecZero();
    } else {
      var front, last := es[..|es| - 1], es[|es| - 1];
      ElapsedIsPlayed(front, s);
      if last.radio == s {
        assert Elapsed(es, s) == Add(Elapsed(front, s), last.dur);
        assert Played(es, s) == Played(front, s) + ToSec(last.dur);
        AddToPlayed(Elapsed(front, s), Played(front, s), last.dur);
      } else {
        assert Elapsed(es, s) == Elapsed(front, s);
        assert Played(es, s) == Played(front, s);
      }
    }
  }

  /** Adding a duration to a time that shows `played` seconds shows
      `played` plus the duration. */
  lemma AddToPlayed(t: Time, played: nat, d: Time)
    requires ToSec(t) == Wrapped(played)
    ensures ToSec(Add(t, d)) == Wrapped(played + ToSec(d))
  {
    WrappedAdd(played, ToSec(d));
  }

  /** A station that has played nothing in `es` is still at 0:0:0. */
  lemma {:induction false} ElapsedUntouched(es: seq<Entry>, s: StationId)
    requires forall k :: 0 <= k < |es| ==> es[k].radio != s
    ensures Elapsed(es, s) == Zero
    decreases |es|
  {
    if |es| > 0 {
      ElapsedUntouched(es[..|es| - 1], s);
    }
  }

  /** Each record keeps its line's station, duration, author and title, in
      input order. */
  lemma StampedKeepsEntries(es: seq<Entry>, i: nat)
    requires i < |es|
    ensures Stamped(es)[i].radioId == es[i].radio && Stamped(es)[i].durTime == es[i].dur
    ensures Stamped(es)[i].author == es[i].author && Stamped(es)[i].title == es[i].title
  {
  }

  /** The first record of a station starts at 0:0:0. */
  lemma FirstOnStationStartsAtZero(es: seq<Entry>, i: nat)
    requires i < |es|
    requires forall k :: 0 <= k < i ==> es[k].radio != es[i].radio
    ensures Stamped(es)[i].startTime == Zero
  {
    ElapsedUntouched(es[..i], es[i].radio);
  }

  /** A record's start time is the sum of the durations of the earlier
      records on its station, exactly while that sum stays under 256
      hours. */
  lemma StartIsPlayed(es: seq<Entry>, i: nat)
    requires i < |es|
    ensures Canonical(Stamped(es)[i].startTime)
    ensures ToSec(Stamped(es)[i].startTime) == Wrapped(Played(es[..i], es[i].radio))
    ensures Played(es[..i], es[i].radio) < 921600 ==>
              ToSec(Stamped(es)[i].startTime) == Played(es[..i], es[i].radio)
  {
    ElapsedIsPlayed(es[..i], es[i].radio);
  }

  /** Appending one record leaves the earlier records' start times alone. */
  lemma StampedAppend(es: seq<Entry>, e: Entry)
    ensures Stamped(es + [e]) == Stamped(es) + [Broadcast(e.radio, Elapsed(es, e.radio), e.dur, e.author, e.title)]
  {
    var xs := es + [e];
    assert xs[..|es|] == es;
    forall i | 0 <= i < |es|
      ensures xs[..i] == es[..i]
    {
    }
  }

  /** One more record advances its own station only. */
  lemma ElapsedStep(es: seq<Entry>, e: Entry)
    ensures forall s: StationId :: Elapsed(es + [e], s) == if e.radio == s then Add(Elapsed(es, s), e.dur) else Elapsed(es, s)
  {
    assert (es + [e])[..|es|] == es;
  }

  /** The time each station has played after `es`, slot `k` for station
      `k + 1`: the table the loop keeps. */
  function Totals(es: seq<Entry>): (ts: seq<Time>)
    ensures |ts| == RadioCount
    ensures forall k :: 0 <= k < RadioCount ==> ts[k] == Elapsed(es, k + 1)
  {
    [Elapsed(es, 1), Elapsed(es, 2), Elapsed(es, 3)]
  }

  /** One more record advances its station's slot by its duration. */
  lemma TotalsStep(es: seq<Entry>, e: Entry)
    ensures Totals(es + [e]) == Totals(es)[e.radio - 1 := Add(Totals(es)[e.radio - 1], e.dur)]
  {
    var after, updated := Totals(es + [e]), Totals(es)[e.radio - 1 := Add(Totals(es)[e.radio - 1], e.dur)];
    forall k | 0 <= k < RadioCount
      ensures after[k] == updated[k]
    {
      ElapsedStep(es, e);
    }
  }

  /** The loop over the record lines: `startTimes`, one slot per station,
      holds the time each station has played so far and is advanced in
      place after each record. Returns the records, or the first line's
      error, and the final slots. */
  method Reconstruct(lines: seq<string>) returns (r: Result<seq<Broadcast>, ParseError>, totals: seq<Time>)
    ensures ParseEntries(lines).Failure? ==> r == Failure(ParseEntries(lines).error)
    ensures ParseEntries(lines).Success? ==>
              r == Success(Stamped(ParseEntries(lines).value)) && totals == Totals(ParseEntries(lines).value)
  {
    var startTimes := new Time[RadioCount](_ => Zero);
    var broadcasts: seq<Broadcast> := [];
    ghost var results := LineResults(lines);
    ghost var es: seq<Entry> := [];
    assert Totals([]) == startTimes[..];
    for i := 0 to |lines|
      invariant Collect(results[..i]) == Success(es)
      invariant broadcasts == Stamped(es)
      invariant startTimes[..] == Totals(es)
    {
      var parsed := ParseLine(lines[i]);
      LineResultAt(lines, i);
      CollectStep(results, i, es);
      if parsed.Failure? {
        CollectPrefixFailure(results, i + 1);
        return Failure(BadLine(i, parsed.error)), [];
      }
      var e := parsed.value;
      var index := e.radio - 1;
      StampedAppend(es, e);
      TotalsStep(es, e);
      broadcasts := broadcasts + [Broadcast(e.radio, startTimes[index], e.dur, e.author, e.title)];
      startTimes[index] := Add(startTimes[index], e.dur);
      es := es + [e];
    }
    assert results[..|lines|] == results;
    return Success(broadcasts), startTimes[..];
  }

  // ----- The whole log

  /** The records of a whole log: the input is trimmed and cut into lines
      at '\n'; the first line, trimmed, must be a `usize` (its value is
      only a capacity hint); every further line is a record. */
  function Log(input: string): Result<seq<Broadcast>, ParseError> {
    var lines := Split(Trim(input), '\n');
    if ParseUnsigned(Trim(lines[0]), 0x1_0000_0000_0000_0000).None? then Failure(BadHeader)
    else
      match ParseEntries(lines[1..])
      case Failure(err) => Failure(err)
      case Success(es) => Success(Stamped(es))
  }

  /** Reads the log: the header, then the loop over the record lines. */
  method ParseLog(input: string) returns (r: Result<seq<Broadcast>, ParseError>)
    ensures r == Log(input)
  {
    var lines := Split(Trim(input), '\n');
    var count := ParseUnsigned(Trim(lines[0]), 0x1_0000_0000_0000_0000);
    if count.None? {
      return Failure(BadHeader);
    }
    var totals;
    r, totals := Reconstruct(lines[1..]);
  }

  /** One record per line after the header, whatever the header says. */
  lemma LogHasOneRecordPerLine(input: string)
    requires Log(input).Success?
    ensures |Log(input).value| == |Split(Trim(input), '\n')| - 1
  {
  }
}
