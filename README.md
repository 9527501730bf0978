# Radio broadcast log analysis, modelled in Dafny

The program reads a log of radio broadcasts, `musor.txt`. Its first line is a record count. Every further line is one record of the form
`<station> <minutes> <seconds> <author>:<title>`. There are three stations, 1 to 3.

Each station plays its records back to back from 0:0:0. The program gives every record a start time: the sum of the durations of the earlier records on the same station.

It then runs five passes over the records:

1. The number of records per station.
2. The time from the start of the first "Eric Clapton" record on station 1 to the end of the last one.
3. The station of the first "Omega: Legenda" record, and for each of the other two stations its latest record before it in the log. No start times are compared, so these are the records playing at that moment only when the log lists records in start order.
4. A case-insensitive search. It reads a term from standard input and writes to `keres.txt` the term, then every record whose author followed by its title contains the term's characters in order.
5. The adjusted timetable of station 1. Each record is padded by one minute. A record that would run into a new hour is moved to three minutes past that hour.

The model is made of these modules:

- `Wrappers`: the `Option` and `Result` types.
- `Clock`: the `Time` value of the program (`u8` hour, minute and second) and its conversions to and from a `u32` count of seconds.
  - `from_sec` casts the hour to `u8`, so the clock comes back to 0:0:0 after 256 hours. `Wrapped` names this reduction.
  - `sub` underflows when the subtrahend is the larger. The model returns `None` there.
- `Text`: the parts of Rust's `str` that the program uses.
  - `find` of a character, `split` on a character and `split_at` at the first colon.
  - `trim`, over the White_Space characters.
  - `parse` into an unsigned type: one optional `+`, at least one decimal digit, and a value that fits.
- `Matcher`: `does_match`, as a loop proved equal to a greedy subsequence test. The greedy test is proved equivalent to the existence of an increasing embedding.
- `Schedule`:
  - how one record line is cut and read, together with every condition under which the program panics on it;
  - the read loop, which keeps the three running start times in an array;
  - the whole log, from the header line on.
- `Queries`:
  - the five passes, each as a method with a loop proved equal to a specification function, and lemmas about those functions;
  - `Analyse`, which is `main` as a composition of the passes.

Each panic of the program is a value of the model:

- a log line that cannot be read is `BadLog`. The model reports which line failed and why, in the order the program checks: fields, text, colon, station, station 0, minutes, seconds, station above 3;
- a span whose `sub` underflows is `SpanPanics`;
- an empty slot read by `unwrap` in the neighbour query is `UnfilledPanics`.

Details of the code that are easy to misread:

- The hour of a `Time` wraps modulo 256 (`from_sec` casts it to `u8`). It is not unbounded.
- The header count is parsed, and a bad header stops the program. It does not limit how many record lines are read: every line after the header is a record.
- Tokens are separated by single spaces (`split(" ")`), not by runs of white space.
- The title is trimmed at both ends, and the author not at all.
- Stations outside 1 to 3 fail in two ways. In a debug build, station 0 underflows `radio_id - 1`, before the duration is read. A station above 3 is an out-of-bounds index, after the duration is read. In a release build, station 0 also ends at the out-of-bounds index (see "## Left out").

## Model

| member | source | states |
|---|---|---|
| Clock.ToSec | src/main.rs:29-31 | The total of any time is at most 933555 seconds, so the `u32` arithmetic never overflows. |
| Clock.FromSec | src/main.rs:21-27 | The result is canonical (minute and second below 60), and its total is the input reduced by whole 256-hour turns. |
| Clock.ToSecFromSec | src/main.rs:21-31 | `to_sec(from_sec(s)) == s` for every `s` under 256 hours. |
| Clock.FromSecToSec | src/main.rs:21-31 | `from_sec(to_sec(t)) == t` for every canonical `t`. |
| Clock.CanonicalUnique | src/main.rs:21-31 | Two canonical times with the same total are equal. |
| Clock.Add | src/main.rs:33-35 | The sum is canonical, and its total is the wrapped sum of the totals. |
| Clock.AddExact | src/main.rs:33-35 | Below one turn, the total of a sum is the sum of the totals. |
| Clock.AddCommutes | src/main.rs:33-35 | `a.add(b) == b.add(a)`. |
| Clock.AddAssociative | src/main.rs:33-35 | `(a + b) + c == a + (b + c)`, also across the 256-hour wrap. |
| Clock.AddZero | src/main.rs:33-35 | 0:0:0 is a unit of addition on canonical times, on both sides. |
| Clock.Sub | src/main.rs:37-39 | `None` (the `u32` underflow) exactly when the subtrahend's total is larger; otherwise a canonical time whose total is the wrapped difference. |
| Clock.SubAfterAdd | src/main.rs:33-39 | Without a wrap, `a.add(b).sub(b) == from_sec(to_sec(a))`. |
| Clock.SubUndoesAdd | src/main.rs:33-39 | Without a wrap, `a.add(b).sub(b) == a` for canonical `a`. |
| Clock.WrappedAdd | src/main.rs:23 | Reducing a summand by whole turns first does not change the reduced sum. |
| Text.Split | src/main.rs:90 | A split has at least one piece, and no piece holds the separator. |
| Text.JoinSplit | src/main.rs:90 | Joining the pieces of a split with the separator gives back the text. |
| Text.SplitJoin | src/main.rs:90 | Splitting a join of separator-free pieces gives back the pieces. |
| Text.IndexOfIsFirst | src/main.rs:95 | No occurrence of the character comes before the index `find` returns. |
| Text.CutAtFirst | src/main.rs:95-96 | `None` exactly when the character is absent (the `unwrap` panic); otherwise the first part is free of the character, and the text is the first part, the character and the rest. |
| Text.CutAtFirstUnique | src/main.rs:95-96 | Cutting `before + c + after` at the first `c` gives back `before` and `after` when `before` has no `c`. |
| Text.Trim | src/main.rs:82 | The trimmed text has no white space at either end. |
| Text.TrimSlice | src/main.rs:96 | The trimmed text is a slice of the input, and everything outside the slice is white space. |
| Text.TrimTrimmed | src/main.rs:96 | A text without white space at its ends is left unchanged by trimming, so trimming is idempotent. |
| Text.ParseUnsigned | src/main.rs:98-104 | A parsed value fits the type: it is below the bound. |
| Text.DigitsDefined | src/main.rs:98 | A digit string has a value exactly when every character is a decimal digit. |
| Text.ParseDecimal | src/main.rs:98-104 | Parsing the decimal notation of a number that fits gives back the number. |
| Matcher.DoesMatch | src/main.rs:57-78 | The cursor loop returns `true` exactly when the folded term is a subsequence of the folded text; the empty term matches. |
| Matcher.SubsequenceIff | src/main.rs:65-75 | The greedy cursor test succeeds exactly when some increasing choice of positions in the text spells the term. |
| Matcher.EmptyTermMatches | src/main.rs:58-60 | The empty term matches every text. |
| Matcher.MatchIgnoresCase | src/main.rs:62-63 | Folding the text or the term first does not change the answer. |
| Matcher.LowerLower | src/main.rs:62-63 | Case folding is idempotent. |
| Matcher.MatchesPrefix | src/main.rs:57-78 | Every text matches every text it begins, itself included. |
| Matcher.SubsequenceAppend | src/main.rs:65-75 | One more element at the end of both term and text preserves the order. |
| Matcher.MatchExamples | src/main.rs:57-78 | "ac" occurs in "abc", "cab" does not, and case is ignored both ways: the text "ABC" matches the term "abc", and the text "abc" matches the term "ABC". |
| Schedule.ParseLine | src/main.rs:90-105 | A line that reads has an author without ':', a trimmed title and a duration hour of 0. |
| Schedule.MakeEntry | src/main.rs:98-105 | A record read from the numbers keeps the given author and title, and its duration has hour 0. |
| Schedule.CutLineFields | src/main.rs:90-93 | A line that starts with three space-free tokens is cut into those tokens and the text after the third space. |
| Schedule.CutLineParts | src/main.rs:90-93 | A line that cuts is its three space-free tokens and its text, joined by single spaces. |
| Schedule.ParseLineParts | src/main.rs:90-96 | A line that reads is three space-free tokens, the author, a ':', and a text that trims to the title. |
| Schedule.ParseLineStation | src/main.rs:98-109 | Once the other fields read, the line reads exactly when the station is 1 to 3. Station 0 is the underflow of `radio_id - 1` (a debug build); a station above 3 is the out-of-bounds index into `start_times`. A line that reads has the second and third tokens, parsed as `u8`, as its minutes and seconds, with hour 0. |
| Schedule.ParseFormatLine | src/main.rs:89-105 | Round trip: formatting a record as a log line and parsing it back gives the record. The record's author has no ':', its title is trimmed and its duration has hour 0. |
| Schedule.Collect | src/main.rs:89-116 | A successful read has one record per line; a failure names a line that exists. |
| Schedule.ParseEntriesSuccess | src/main.rs:89-116 | When every line reads, one record per line comes out, in input order, each the parse of its line. |
| Schedule.ParseEntriesFailure | src/main.rs:89-116 | On a failure, the reported line is the first line that does not read, and the error is that line's own. |
| Schedule.ElapsedIsPlayed | src/main.rs:87-115 | A station's running time is canonical, and it is the sum of its durations wrapped by whole turns. |
| Schedule.ElapsedUntouched | src/main.rs:87 | A station with no records is still at 0:0:0. |
| Schedule.FirstOnStationStartsAtZero | src/main.rs:87-109 | The first record of every station starts at 0:0:0. |
| Schedule.StartIsPlayed | src/main.rs:107-115 | A record starts at the sum of the durations of the earlier records on its station; exactly so while that sum is under 256 hours, and otherwise wrapped. |
| Schedule.StampedKeepsEntries | src/main.rs:107-113 | Every record keeps its station, duration, author and title, at its input position. |
| Schedule.StampedAppend | src/main.rs:107-115 | A new record leaves the earlier records unchanged. It starts at its station's running time. |
| Schedule.TotalsStep | src/main.rs:115 | A record advances its own station's running time by its duration, and leaves the other two unchanged. |
| Schedule.Reconstruct | src/main.rs:87-116 | The read loop gives the first line's error when some line fails. Otherwise it gives the records with their start times, and the final `start_times` holds each station's total. |
| Schedule.ParseLog | src/main.rs:82-116 | Reading the log equals `Log`: the header must parse as a `usize`, and every later line is a record. |
| Schedule.LogHasOneRecordPerLine | src/main.rs:82-89 | One record comes out per line after the header, whatever count the header gives. |
| Queries.CountPerRadio | src/main.rs:118-122 | The counting loop's table is, for each station, the number of that station's records. |
| Queries.CountsAddUp | src/main.rs:118-122 | The three counts add up to the number of records. |
| Queries.CountIsPositions | src/main.rs:118-122 | A station's count is the number of positions holding one of its records. |
| Queries.CountIsOnStation | src/main.rs:118-122 | A station's count is the length of the list of its records. |
| Queries.CountsCoverLog | src/main.rs:82-122 | For a log that reads, the counts add up to the number of lines after the header. |
| Queries.FirstWhereIsFirst | src/main.rs:129-134 | The record found first is the first that qualifies; `None` means none qualifies. |
| Queries.LastWhereIsLast | src/main.rs:129-134 | The record found last is the last that qualifies; `None` means none qualifies. |
| Queries.FirstAndLast | src/main.rs:132-140 | A first record exists exactly when a last one does (so `last_eric.unwrap()` cannot fail), and the first comes no later. |
| Queries.SpanBetween | src/main.rs:140-145 | The span exists exactly when the last record ends no earlier than the first starts, and it is then the canonical time whose total is the exact difference in seconds, so its hour, minute and second are fixed. |
| Queries.EricSpanPass | src/main.rs:126-148 | The loop with `continue` finds the first and last Eric Clapton records of station 1, and the span between them. |
| Queries.SpanWithinTurn | src/main.rs:138-145 | While station 1 plays less than 256 hours in all, the span's `sub` never underflows. |
| Queries.NeighbourPass | src/main.rs:150-167 | The loop keeps each station's latest record in a 3-slot array and stops at the first "Omega: Legenda". It then reads out the other slots, or stops at `unwrap` on an empty one. |
| Queries.ReadOut | src/main.rs:159-163 | The inner loop unwraps the slots in order and skips the record's own station; `None` where `unwrap` panics. |
| Queries.TableStep | src/main.rs:153 | A record takes the slot of its station and leaves the other slots unchanged. |
| Queries.LatestIsLatest | src/main.rs:150-153 | A slot holds the station's most recent record: it comes from the records, and no later record is on that station. An empty slot means the station has no record. |
| Queries.UnwrappedTable | src/main.rs:159-163 | The read-out succeeds exactly when every station has a record. It then gives the two other stations' latest records, in station order. |
| Queries.NeighboursAreLatest | src/main.rs:150-167 | A neighbour report names the station of the first "Omega: Legenda". It lists, in station order, the latest record of each other station up to and including that record. |
| Queries.UnfilledWhenSilent | src/main.rs:159-160 | The query panics exactly when, at the first "Omega: Legenda", some station has no record yet. |
| Queries.SearchFile | src/main.rs:169-182 | The file gets the trimmed term, then `author:title` for each record that `does_match`, in input order. |
| Queries.HitsAreMatches | src/main.rs:179-182 | A record is a hit exactly when it is in the log and its author-then-title matches. The hits keep the input order (a subsequence of the records). |
| Queries.HitsAtMatchPositions | src/main.rs:179-182 | Hit `j` is the record at the `j`-th matching position. The positions increase, and they are exactly those whose record matches, so every matching occurrence gives its own hit, equal records included. |
| Queries.EmptyTermHitsAll | src/main.rs:58-60 | The empty term lists every record. |
| Queries.AdjustedSchedule | src/main.rs:185-203 | The loop over station 1's records equals the fold of the adjustment rule. |
| Queries.AdjustedOnlyStationOne | src/main.rs:188 | Records of other stations leave the adjusted time unchanged: it equals the adjusted time of station 1's records alone. |
| Queries.AdjustWithinHour | src/main.rs:190-202 | Within the hour, the running time advances by the record's duration plus one minute. |
| Queries.AdjustAcrossHour | src/main.rs:190-199 | Across an hour, the new running time less the padded duration is `hour:3:0` of the new hour. |
| Queries.AdjustAcrossExample | src/main.rs:190-199 | Running time 0:59:30 and a 30-second record give 1:4:30. |
| Queries.AdjustWithinExample | src/main.rs:190-202 | Running time 0:10:0 and a three-minute record give 0:14:0. |
| Queries.AdjustRolloverExample | src/main.rs:190-199 | From 0:0:0, a record of 59 minutes 30 seconds pads to 1:0:30, crosses into hour 1 and gives 2:3:30. |
| Queries.Analyse | src/main.rs:80-206 | `main` equals `Analysis`: read the log, then the passes in order, stopping at the first panic. |

## Left out

- Reading `musor.txt` and standard input, and creating and writing `keres.txt`, are left out. The log text and the raw search line are parameters, and the file's lines are a returned sequence.
- `println!` and the `Debug` format of `Time` are left out; the model returns the reported values (`Report`).
- Output printed before a panic is not modelled. The counts and "3. " are printed before a span that underflows, and "4. " with the station before an empty slot. `Stopped` records only where the run stopped.
- `Vec::with_capacity(broadcast_count)` is left out. Its value is only a capacity hint; a header so large that the allocation fails is not modelled.
- Matcher.LowerChar: folds the ASCII letters only. Rust's full Unicode `to_lowercase` is not modelled, including the mappings that change the length of a string.
- The whole model follows a debug build, where integer overflow panics. In a release build it wraps, and two places then behave differently:
- Clock.Sub: an underflow of the `u32` subtraction is `None` (a panic). In a release build it would wrap to a large total and `from_sec` of it would be returned.
- Schedule.ParseLine: station 0 is `StationZero`, because `(radio_id as usize) - 1` panics before the minutes and seconds are read. In a release build it wraps to `usize::MAX`, the minutes and seconds are read first, and station 0 fails as `StationOutOfRange` at the index `start_times[radio_index]`, or as `BadMinutes` or `BadSeconds` when one of those does not read.
- `usize` is taken to be 64 bits wide for the header count.
- Strings are sequences of characters, whereas Rust slices by bytes. Every cut the program makes is next to an ASCII character: after each of the first three spaces, just before the first colon and just after it. So cutting by characters gives the same strings as cutting by bytes.
- An input file that is not valid UTF-8 makes `read_to_string` fail. That is part of the I/O and is left out.
