/** The passes of the program over the records once the log is read: the
    number of records per station, the span of Eric Clapton's records on
    station 1, the records playing on the other stations when "Omega:
    Legenda" starts, the search hits, and the padded timetable of
    station 1. */
module Queries {
  import opened Wrappers
  import opened Clock
  import opened Text
  import opened Matcher
  import opened Schedule

  // ----- Records per station

  /** The number of records of station `s` in `bs`. */
  function CountOn(bs: seq<Broadcast>, s: StationId): (n: nat)
    ensures n <= |bs|
  {
    if |bs| == 0 then 0
    else CountOn(bs[..|bs| - 1], s) + (if bs[|bs| - 1].radioId == s then 1 else 0)
  }

  /** The table of counts, slot `k` for station `k + 1`. */
  function Counts(bs: seq<Broadcast>): (cs: seq<nat>)
    ensures |cs| == RadioCount
    ensures forall k :: 0 <= k < RadioCount ==> cs[k] == CountOn(bs, k + 1)
  {
    [CountOn(bs, 1), CountOn(bs, 2), CountOn(bs, 3)]
  }

  /** One more record adds one to the slot of its station. */
  lemma CountsStep(bs: seq<Broadcast>, b: Broadcast)
    ensures Counts(bs + [b]) == Counts(bs)[b.radioId - 1 := Counts(bs)[b.radioId - 1] + 1]
  {
    assert (bs + [b])[..|bs|] == bs;
  }

  /** `broadcast_count_per_radio`: a table of `RadioCount` counters, the
      one of each record's station incremented in place. */
  method CountPerRadio(bs: seq<Broadcast>) returns (counts: seq<nat>)
    ensures counts == Counts(bs)
  {
    var perRadio := new nat[RadioCount](_ => 0);
    assert perRadio[..] == Counts([]);
    for i := 0 to |bs|
      invariant perRadio[..] == Counts(bs[..i])
    {
      var b := bs[i];
      CountsStep(bs[..i], b);
      assert bs[..i + 1] == bs[..i] + [b];
      perRadio[b.radioId - 1] := perRadio[b.radioId - 1] + 1;
    }
    assert bs[..|bs|] == bs;
    return perRadio[..];
  }

  /** Every record is counted once: the counts add up to the number of
      records. */
  lemma {:induction false} CountsAddUp(bs: seq<Broadcast>)
    ensures CountOn(bs, 1) + CountOn(bs, 2) + CountOn(bs, 3) == |bs|
  {
    if |bs| > 0 {
      CountsAddUp(bs[..|bs| - 1]);
    }
  }

  /** The positions of the records of station `s`. */
  function PositionsOn(bs: seq<Broadcast>, s: StationId): set<nat> {
    set k: nat | k < |bs| && bs[k].radioId == s
  }

  /** The count of a station is the number of positions holding one of its
      records. */
  lemma {:induction false} CountIsPositions(bs: seq<Broadcast>, s: StationId)
    ensures CountOn(bs, s) == |PositionsOn(bs, s)|
  {
    if |bs| > 0 {
      var front, last := bs[..|bs| - 1], |bs| - 1;
      CountIsPositions(front, s);
      PositionsStep(bs, s);
    }
  }

  /** The positions of a station in `bs` are those in all but its last
      record, and the last one when it is on the station. */
  lemma PositionsStep(bs: seq<Broadcast>, s: StationId)
    requires |bs| > 0
    ensures |bs| - 1 !in PositionsOn(bs[..|bs| - 1], s)
    ensures bs[|bs| - 1].radioId == s ==>
              PositionsOn(bs, s) == PositionsOn(bs[..|bs| - 1], s) + {|bs| - 1}
    ensures bs[|bs| - 1].radioId != s ==>
              PositionsOn(bs, s) == PositionsOn(bs[..|bs| - 1], s)
  {
    var front, last := bs[..|bs| - 1], |bs| - 1;
    var before := PositionsOn(front, s);
    forall k: nat | k < last
      ensures k in PositionsOn(bs, s) <==> k in before
    {
      assert front[k] == bs[k];
    }
  }

  // ----- First and last of a kind

  /** The index of the first record of `bs` that satisfies `p`. */
  function FirstWhere(bs: seq<Broadcast>, p: Broadcast -> bool): (r: Option<nat>)
    ensures r.Some? ==> r.value < |bs| && p(bs[r.value])
  {
    if |bs| == 0 then None
    else
      match FirstWhere(bs[..|bs| - 1], p)
      case Some(k) => Some(k)
      case None => if p(bs[|bs| - 1]) then Some(|bs| - 1) else None
  }

  /** The index of the last record of `bs` that satisfies `p`. */
  function LastWhere(bs: seq<Broadcast>, p: Broadcast -> bool): (r: Option<nat>)
    ensures r.Some? ==> r.value < |bs| && p(bs[r.value])
  {
    if |bs| == 0 then None
    else if p(bs[|bs| - 1]) then Some(|bs| - 1)
    else LastWhere(bs[..|bs| - 1], p)
  }

  /** `FirstWhere` finds the first such record, and `None` means there is
      none. */
  lemma {:induction false} FirstWhereIsFirst(bs: seq<Broadcast>, p: Broadcast -> bool)
    ensures FirstWhere(bs, p).None? ==> forall k :: 0 <= k < |bs| ==> !p(bs[k])
    ensures FirstWhere(bs, p).Some? ==> forall k :: 0 <= k < FirstWhere(bs, p).value ==> !p(bs[k])
  {
    if |bs| > 0 {
      var front := bs[..|bs| - 1];
      FirstWhereIsFirst(front, p);
      assert forall k :: 0 <= k < |front| ==> front[k] == bs[k];
    }
  }

  /** `LastWhere` finds the last such record, and `None` means there is
      none. */
  lemma {:induction false} LastWhereIsLast(bs: seq<Broadcast>, p: Broadcast -> bool)
    ensures LastWhere(bs, p).None? ==> forall k :: 0 <= k < |bs| ==> !p(bs[k])
    ensures LastWhere(bs, p).Some? ==> forall k :: LastWhere(bs, p).value < k < |bs| ==> !p(bs[k])
  {
    if |bs| > 0 && !p(bs[|bs| - 1]) {
      var front := bs[..|bs| - 1];
      LastWhereIsLast(front, p);
      assert forall k :: 0 <= k < |front| ==> front[k] == bs[k];
    }
  }

  /** There is a first record of a kind exactly when there is a last one,
      and the first comes no later than the last. */
  lemma FirstAndLast(bs: seq<Broadcast>, p: Broadcast -> bool)
    ensures FirstWhere(bs, p).Some? <==> LastWhere(bs, p).Some?
    ensures FirstWhere(bs, p).Some? ==> FirstWhere(bs, p).value <= LastWhere(bs, p).value
  {
    FirstWhereIsFirst(bs, p);
    LastWhereIsLast(bs, p);
  }

  // ----- The span of Eric Clapton on station 1

  const EricClapton := "Eric Clapton"

  predicate IsEric(b: Broadcast) {
    b.radioId == 1 && b.author == EricClapton
  }

  /** What the program prints for the span: the time from the start of the
      first record to the end of the last, or nothing found. */
  datatype SpanReport =
    | NoEric               // no record of the author on station 1
    | Span(length: Time)   // end of the last minus start of the first
    | SpanUnderflow        // `sub` underflows: the last ends before the first starts

  /** The end of the last record minus the start of the first. */
  function SpanBetween(first: Broadcast, last: Broadcast): (r: SpanReport)
    ensures r.Span? <==> ToSec(first.startTime) <= ToSec(Add(last.startTime, last.durTime))
    ensures r.Span? ==> ToSec(r.length) == ToSec(Add(last.startTime, last.durTime)) - ToSec(first.startTime)
    ensures r.Span? ==> Canonical(r.length)
  {
    match Sub(Add(last.startTime, last.durTime), first.startTime)
    case None => SpanUnderflow
    case Some(t) => Span(t)
  }

  /** The report of the span over the records `bs`. */
  function EricSpan(bs: seq<Broadcast>): SpanReport {
    match FirstWhere(bs, IsEric)
    case None => NoEric
    case Some(f) =>
      FirstAndLast(bs, IsEric);
      SpanBetween(bs[f], bs[LastWhere(bs, IsEric).value])
  }

  /** The pass that finds the first and the last record of Eric Clapton on
      station 1, then the span between them. */
  method EricSpanPass(bs: seq<Broadcast>) returns (report: SpanReport)
    ensures report == EricSpan(bs)
  {
    var first: Option<nat> := None;
    var last: Option<nat> := None;
    for i := 0 to |bs|
      invariant first == FirstWhere(bs[..i], IsEric)
      invariant last == LastWhere(bs[..i], IsEric)
    {
      assert bs[..i + 1][..i] == bs[..i];
      if bs[i].radioId != 1 || bs[i].author != EricClapton {
        continue;
      }
      if first == None {
        first := Some(i);
      }
      last := Some(i);
    }
    assert bs[..|bs|] == bs;
    match first
    case None =>
      return NoEric;
    case Some(f) =>
      FirstAndLast(bs, IsEric);
      var l := last.value;
      return SpanBetween(bs[f], bs[l]);
  }

  /** While station 1 plays less than 256 hours in all, the span never
      underflows: the last record ends no earlier than the first starts,
      and the span is the exact difference in seconds. */
  lemma SpanWithinTurn(es: seq<Entry>)
    requires Played(es, 1) < 921600
    ensures EricSpan(Stamped(es)) != SpanUnderflow
  {
    var bs := Stamped(es);
    if FirstWhere(bs, IsEric).Some? {
      FirstAndLast(bs, IsEric);
      var f, l := FirstWhere(bs, IsEric).value, LastWhere(bs, IsEric).value;
      StampedKeepsEntries(es, f);
      StampedKeepsEntries(es, l);
      PlayedGrows(es, f, l);
      PlayedGrows(es, l + 1, |es|);
      PlayedOneMore(es, l);
      assert es[..|es|] == es;
      StartIsPlayed(es, f);
      StartIsPlayed(es, l);
      AddExact(bs[l].startTime, bs[l].durTime);
    }
  }

  /** What a station has played can only grow along the log. */
  lemma {:induction false} PlayedGrows(es: seq<Entry>, i: nat, j: nat)
    requires i <= j <= |es|
    ensures Played(es[..i], 1) <= Played(es[..j], 1)
    decreases j - i
  {
    if i < j {
      PlayedGrows(es, i, j - 1);
      assert es[..j][..j - 1] == es[..j - 1];
    }
  }

  /** The record at `k` adds its duration to its station's total. */
  lemma PlayedOneMore(es: seq<Entry>, k: nat)
    requires k < |es|
    ensures Played(es[..k + 1], es[k].radio) == Played(es[..k], es[k].radio) + ToSec(es[k].dur)
  {
    assert es[..k + 1][..k] == es[..k];
  }

  // ----- The records around "Omega: Legenda"

  predicate IsLegenda(b: Broadcast) {
    b.author == "Omega" && b.title == "Legenda"
  }

  /** What the program prints for the query. */
  datatype NeighbourReport =
    | NoLegenda                                        // the record is not in the log
    | Unfilled                                         // a station had no record yet: `unwrap` panics
    | Neighbours(station: StationId, others: seq<Broadcast>) // its station and what the others play

  /** The most recent record of station `s` in `bs`. */
  function Latest(bs: seq<Broadcast>, s: StationId): (r: Option<Broadcast>)
    ensures r.Some? ==> r.value.radioId == s
  {
    if |bs| == 0 then None
    else if bs[|bs| - 1].radioId == s then Some(bs[|bs| - 1])
    else Latest(bs[..|bs| - 1], s)
  }

  /** `current_broadcasts` after the records `bs`: slot `k` holds the most
      recent record of station `k + 1`. */
  function Table(bs: seq<Broadcast>): (t: seq<Option<Broadcast>>)
    ensures |t| == RadioCount
    ensures forall k :: 0 <= k < RadioCount ==> t[k] == Latest(bs, k + 1)
  {
    [Latest(bs, 1), Latest(bs, 2), Latest(bs, 3)]
  }

  /** One more record takes the slot of its station. */
  lemma TableStep(bs: seq<Broadcast>, b: Broadcast)
    ensures Table(bs + [b]) == Table(bs)[b.radioId - 1 := Some(b)]
  {
    assert (bs + [b])[..|bs|] == bs;
  }

  /** One more slot unwrapped after `acc`: its record is kept unless it is
      of `station`; an empty slot, or an earlier one, gives `None`. */
  function Keep(acc: Option<seq<Broadcast>>, slot: Option<Broadcast>, station: StationId): Option<seq<Broadcast>> {
    match acc
    case None => None
    case Some(rs) =>
      match slot
      case None => None
      case Some(b) => if b.radioId == station then Some(rs) else Some(rs + [b])
  }

  /** The slots unwrapped in order, leaving out the records of `station`;
      `None` as soon as a slot is empty. */
  function Unwrapped(slots: seq<Option<Broadcast>>, station: StationId): Option<seq<Broadcast>> {
    if |slots| == 0 then Some([])
    else Keep(Unwrapped(slots[..|slots| - 1], station), slots[|slots| - 1], station)
  }

  /** The report over the records `bs`: at the first "Omega: Legenda", the
      table including that record, unwrapped without its own station. */
  function NeighbourQuery(bs: seq<Broadcast>): NeighbourReport {
    match FirstWhere(bs, IsLegenda)
    case None => NoLegenda
    case Some(t) =>
      match Unwrapped(Table(bs[..t + 1]), bs[t].radioId)
      case None => Unfilled
      case Some(others) => Neighbours(bs[t].radioId, others)
  }

  /** Once a slot is empty, the whole table fails to unwrap. */
  lemma {:induction false} UnwrappedPrefixNone(slots: seq<Option<Broadcast>>, station: StationId, j: nat)
    requires j <= |slots|
    requires Unwrapped(slots[..j], station).None?
    ensures Unwrapped(slots, station).None?
    decreases |slots|
  {
    if j < |slots| {
      var front := slots[..|slots| - 1];
      assert front[..j] == slots[..j];
      UnwrappedPrefixNone(front, station, j);
    } else {
      assert slots[..j] == slots;
    }
  }

  /** The pass that keeps the most recent record of each station in place
      and, at the first "Omega: Legenda", reads out the other slots. */
  method NeighbourPass(bs: seq<Broadcast>) returns (report: NeighbourReport)
    ensures report == NeighbourQuery(bs)
  {
    var current := new Option<Broadcast>[RadioCount](_ => None);
    assert current[..] == Table([]);
    for i := 0 to |bs|
      invariant current[..] == Table(bs[..i])
      invariant FirstWhere(bs[..i], IsLegenda) == None
    {
      var b := bs[i];
      TableStep(bs[..i], b);
      LegendaStep(bs, i);
      assert bs[..i + 1] == bs[..i] + [b];
      current[b.radioId - 1] := Some(b);
      if b.author != "Omega" || b.title != "Legenda" {
        continue;
      }
      var others := ReadOut(current, b.radioId);
      if others.None? {
        return Unfilled;
      }
      return Neighbours(b.radioId, others.value);
    }
    assert bs[..|bs|] == bs;
    return NoLegenda;
  }

  /** The inner loop of the query: every slot is unwrapped in order, and
      the records not of `station` are kept; `None` where `unwrap` panics. */
  method ReadOut(current: array<Option<Broadcast>>, station: StationId) returns (others: Option<seq<Broadcast>>)
    ensures others == Unwrapped(current[..], station)
  {
    var kept: seq<Broadcast> := [];
    for j := 0 to current.Length
      invariant Unwrapped(current[..j], station) == Some(kept)
    {
      assert current[..j + 1][..j] == current[..j];
      var slot := current[j];
      if slot.None? {
        UnwrappedPrefixNone(current[..], station, j + 1);
        return None;
      }
      if slot.value.radioId == station {
        continue;
      }
      kept := kept + [slot.value];
    }
    assert current[..current.Length] == current[..];
    return Some(kept);
  }

  /** `Latest` is the most recent record of the station, and `None` means
      the station has no record. */
  lemma {:induction false} LatestIsLatest(bs: seq<Broadcast>, s: StationId)
    ensures Latest(bs, s).None? <==> forall k :: 0 <= k < |bs| ==> bs[k].radioId != s
    ensures Latest(bs, s).Some? ==>
              exists k :: 0 <= k < |bs| && bs[k] == Latest(bs, s).value
                          && forall j :: k < j < |bs| ==> bs[j].radioId != s
  {
    LatestNone(bs, s);
    if Latest(bs, s).Some? {
      var k := LatestPosition(bs, s);
    }
  }

  /** A station without a latest record has no record at all. */
  lemma {:induction false} LatestNone(bs: seq<Broadcast>, s: StationId)
    ensures Latest(bs, s).None? <==> forall k :: 0 <= k < |bs| ==> bs[k].radioId != s
  {
    if |bs| > 0 && bs[|bs| - 1].radioId != s {
      var front := bs[..|bs| - 1];
      LatestNone(front, s);
      assert forall k :: 0 <= k < |front| ==> front[k] == bs[k];
    }
  }

  /** The position of the latest record of a station. */
  lemma {:induction false} LatestPosition(bs: seq<Broadcast>, s: StationId) returns (k: nat)
    requires Latest(bs, s).Some?
    ensures k < |bs| && bs[k] == Latest(bs, s).value
    ensures forall j :: k < j < |bs| ==> bs[j].radioId != s
  {
    if bs[|bs| - 1].radioId == s {
      k := |bs| - 1;
    } else {
      var front := bs[..|bs| - 1];
      k := LatestPosition(front, s);
      assert forall j :: k < j < |front| ==> front[j] == bs[j];
    }
  }

  /** Every station has a record in `bs`. */
  predicate AllPlayed(bs: seq<Broadcast>) {
    forall s: StationId :: Latest(bs, s).Some?
  }

  /** The table unwraps exactly when every station has a record, and then
      gives the most recent records of the two other stations, in station
      order. */
  lemma UnwrappedTable(bs: seq<Broadcast>, station: StationId)
    ensures Unwrapped(Table(bs), station).Some? <==> AllPlayed(bs)
    ensures Unwrapped(Table(bs), station).Some? ==>
              var others := Unwrapped(Table(bs), station).value;
              |others| == RadioCount - 1 && others[0].radioId < others[1].radioId
              && forall k :: 0 <= k < |others| ==>
                   others[k].radioId != station && Latest(bs, others[k].radioId) == Some(others[k])
  {
    var t := Table(bs);
    assert Unwrapped(t, station) == Keep(Keep(Keep(Some([]), t[0], station), t[1], station), t[2], station) by {
      assert t[..1][..0] == [] && t[..2][..1] == t[..1] && t[..3][..2] == t[..2] && t[..3] == t;
      assert Unwrapped(t[..1], station) == Keep(Some([]), t[0], station);
      assert Unwrapped(t[..2], station) == Keep(Unwrapped(t[..1], station), t[1], station);
    }
  }

  /** When the query answers, its station is that of the first "Omega:
      Legenda", and the others are the most recent records of the other two
      stations at that point, in station order. */
  lemma NeighboursAreLatest(bs: seq<Broadcast>)
    requires NeighbourQuery(bs).Neighbours?
    ensures FirstWhere(bs, IsLegenda).Some?
    ensures var t, r := FirstWhere(bs, IsLegenda).value, NeighbourQuery(bs);
            IsLegenda(bs[t]) && r.station == bs[t].radioId
            && |r.others| == RadioCount - 1 && r.others[0].radioId < r.others[1].radioId
            && forall k :: 0 <= k < |r.others| ==>
                 r.others[k].radioId != r.station && Latest(bs[..t + 1], r.others[k].radioId) == Some(r.others[k])
  {
    var t := FirstWhere(bs, IsLegenda).value;
    UnwrappedTable(bs[..t + 1], bs[t].radioId);
  }

  /** The query panics exactly when, at the first "Omega: Legenda", some
      station has played nothing yet. */
  lemma UnfilledWhenSilent(bs: seq<Broadcast>)
    ensures NeighbourQuery(bs) == Unfilled <==>
              FirstWhere(bs, IsLegenda).Some? && !AllPlayed(bs[..FirstWhere(bs, IsLegenda).value + 1])
  {
    if FirstWhere(bs, IsLegenda).Some? {
      var t := FirstWhere(bs, IsLegenda).value;
      UnwrappedTable(bs[..t + 1], bs[t].radioId);
    }
  }

  /** The loop over the records has not met "Omega: Legenda" before `i`:
      record `i` is either still not one, or the first. */
  lemma LegendaStep(bs: seq<Broadcast>, i: nat)
    requires i < |bs| && FirstWhere(bs[..i], IsLegenda) == None
    ensures !IsLegenda(bs[i]) ==> FirstWhere(bs[..i + 1], IsLegenda) == None
    ensures IsLegenda(bs[i]) ==> FirstWhere(bs, IsLegenda) == Some(i)
  {
    assert bs[..i + 1][..i] == bs[..i];
    if IsLegenda(bs[i]) {
      FirstWherePrefix(bs, IsLegenda, i + 1);
    }
  }

  /** The first record of a kind in a prefix that has one is the first in
      the whole sequence. */
  lemma {:induction false} FirstWherePrefix(bs: seq<Broadcast>, p: Broadcast -> bool, n: nat)
    requires n <= |bs|
    requires FirstWhere(bs[..n], p).Some?
    ensures FirstWhere(bs, p) == FirstWhere(bs[..n], p)
    decreases |bs|
  {
    if n < |bs| {
      var front := bs[..|bs| - 1];
      assert front[..n] == bs[..n];
      FirstWherePrefix(front, p, n);
    } else {
      assert bs[..n] == bs;
    }
  }

  // ----- The search

  /** The text the search looks at: the author followed by the title. */
  function SearchText(b: Broadcast): string {
    b.author + b.title
  }

  /** The records whose author and title match `term`, in input order. */
  function Hits(bs: seq<Broadcast>, term: string): (hs: seq<Broadcast>)
    ensures |hs| <= |bs|
  {
    if |bs| == 0 then []
    else
      var rest := Hits(bs[..|bs| - 1], term);
      if Matches(SearchText(bs[|bs| - 1]), term) then rest + [bs[|bs| - 1]] else rest
  }

  /** A line of the hits file: `author:title`. */
  function HitLine(b: Broadcast): string {
    b.author + ":" + b.title
  }

  function HitLines(bs: seq<Broadcast>): (ls: seq<string>)
    ensures |ls| == |bs|
    ensures forall k :: 0 <= k < |bs| ==> ls[k] == HitLine(bs[k])
  {
    seq(|bs|, k requires 0 <= k < |bs| => HitLine(bs[k]))
  }

  /** What `keres.txt` receives for the raw line read as the search term:
      the trimmed term, then one line per hit. */
  function SearchOutput(bs: seq<Broadcast>, rawTerm: string): seq<string> {
    var term := Trim(rawTerm);
    [term] + HitLines(Hits(bs, term))
  }

  /** The search pass: every record is tested with `does_match`, and the
      ones that match are written out in order. */
  method SearchFile(bs: seq<Broadcast>, rawTerm: string) returns (out: seq<string>)
    ensures out == SearchOutput(bs, rawTerm)
  {
    var term := Trim(rawTerm);
    out := [term];
    ghost var hits: seq<Broadcast> := [];
    for i := 0 to |bs|
      invariant hits == Hits(bs[..i], term)
      invariant out == [term] + HitLines(hits)
    {
      var b := bs[i];
      assert bs[..i + 1][..i] == bs[..i];
      var found := DoesMatch(SearchText(b), term);
      if !found {
        continue;
      }
      out := out + [HitLine(b)];
      hits := hits + [b];
    }
    assert bs[..|bs|] == bs;
  }

  /** The hits are exactly the records that match, in input order. */
  lemma {:induction false} HitsAreMatches(bs: seq<Broadcast>, term: string)
    ensures forall b :: b in Hits(bs, term) <==> b in bs && Matches(SearchText(b), term)
    ensures IsSubsequence(Hits(bs, term), bs)
  {
    if |bs| == 0 {
    } else {
      var front, last := bs[..|bs| - 1], bs[|bs| - 1];
      HitsAreMatches(front, term);
      assert bs == front + [last];
      if Matches(SearchText(last), term) {
        SubsequenceAppend(Hits(front, term), front, last);
      } else {
        SubsequenceExtend(Hits(front, term), front, [last]);
      }
    }
  }

  /** The positions of the records whose author and title match `term`,
      in increasing order. */
  function MatchPositions(bs: seq<Broadcast>, term: string): (ps: seq<nat>)
    ensures forall k :: 0 <= k < |ps| ==> ps[k] < |bs|
  {
    if |bs| == 0 then []
    else
      var rest := MatchPositions(bs[..|bs| - 1], term);
      if Matches(SearchText(bs[|bs| - 1]), term) then rest + [|bs| - 1] else rest
  }

  /** Every matching occurrence is kept: the hits are the records at the
      matching positions, one hit per position, in increasing order, and
      the positions are exactly those whose record matches. Two equal
      records that both match give two hits. */
  lemma HitsAtMatchPositions(bs: seq<Broadcast>, term: string)
    ensures Embeds(Hits(bs, term), bs, MatchPositions(bs, term))
    ensures forall k :: 0 <= k < |bs| ==>
      (k in MatchPositions(bs, term) <==> Matches(SearchText(bs[k]), term))
  {
    HitsEmbedded(bs, term);
    MatchPositionsExact(bs, term);
  }

  /** The hits sit at the matching positions, in increasing order. */
  lemma {:induction false} HitsEmbedded(bs: seq<Broadcast>, term: string)
    ensures Embeds(Hits(bs, term), bs, MatchPositions(bs, term))
  {
    if |bs| > 0 {
      var front, last := bs[..|bs| - 1], bs[|bs| - 1];
      HitsEmbedded(front, term);
      assert bs == front + [last];
      HitsPositionsStep(front, last, Hits(front, term), MatchPositions(front, term),
                        Matches(SearchText(last), term));
    }
  }

  /** One more record: a match adds one hit at the new last position, a
      miss adds nothing. */
  lemma HitsPositionsStep(front: seq<Broadcast>, last: Broadcast, hs: seq<Broadcast>,
                          ps: seq<nat>, hit: bool)
    requires Embeds(hs, front, ps)
    ensures Embeds(if hit then hs + [last] else hs, front + [last],
                   if hit then ps + [|front|] else ps)
  {
    var bs := front + [last];
    assert forall k :: 0 <= k < |front| ==> bs[k] == front[k];
  }

  /** The matching positions are exactly those whose record matches. */
  lemma {:induction false} MatchPositionsExact(bs: seq<Broadcast>, term: string)
    ensures forall k :: 0 <= k < |bs| ==>
      (k in MatchPositions(bs, term) <==> Matches(SearchText(bs[k]), term))
  {
    if |bs| > 0 {
      var front := bs[..|bs| - 1];
      MatchPositionsExact(front, term);
      var ps := MatchPositions(front, term);
      assert |front| !in ps;
      forall k | 0 <= k < |front|
        ensures k in MatchPositions(bs, term) <==> Matches(SearchText(bs[k]), term)
      {
        assert bs[k] == front[k];
      }
    }
  }

  /** The empty search term keeps every record. */
  lemma {:induction false} EmptyTermHitsAll(bs: seq<Broadcast>)
    ensures Hits(bs, "") == bs
  {
    if |bs| > 0 {
      EmptyTermHitsAll(bs[..|bs| - 1]);
      EmptyTermMatches(SearchText(bs[|bs| - 1]));
      assert bs == bs[..|bs| - 1] + [bs[|bs| - 1]];
    }
  }

  // ----- The padded timetable of station 1

  const OneMinute := Time(0, 1, 0)

  /** One record of station 1 in the adjusted timetable: its duration plus a
      minute of gap is added to the running time; when that crosses into a
      new hour, the record is moved to three minutes past that hour and
      the running time becomes its end. */
  function AdjustStep(run: Time, dur: Time): (r: Time)
    ensures Canonical(r)
  {
    var delta := Add(dur, OneMinute);
    var candidate := Add(run, delta);
    if candidate.hour > run.hour then Add(delta, Time(candidate.hour, 3, 0)) else candidate
  }

  /** The adjusted running time after the records `bs`; records of the
      other stations are skipped. */
  function Adjusted(bs: seq<Broadcast>): (t: Time)
    ensures |bs| > 0 ==> Canonical(t)
  {
    if |bs| == 0 then Zero
    else
      var run := Adjusted(bs[..|bs| - 1]);
      if bs[|bs| - 1].radioId != 1 then run else AdjustStep(run, bs[|bs| - 1].durTime)
  }

  /** The pass over the records that folds `AdjustStep` into
      `new_start_time`. */
  method AdjustedSchedule(bs: seq<Broadcast>) returns (run: Time)
    ensures run == Adjusted(bs)
  {
    run := Zero;
    for i := 0 to |bs|
      invariant run == Adjusted(bs[..i])
    {
      assert bs[..i + 1][..i] == bs[..i];
      if bs[i].radioId != 1 {
        continue;
      }
      var delta := Add(bs[i].durTime, OneMinute);
      var candidate := Add(run, delta);
      run := if candidate.hour > run.hour then Add(delta, Time(candidate.hour, 3, 0)) else candidate;
    }
    assert bs[..|bs|] == bs;
  }

  /** The records of station `s`, in input order. */
  function OnStation(bs: seq<Broadcast>, s: StationId): (os: seq<Broadcast>)
    ensures forall k :: 0 <= k < |os| ==> os[k].radioId == s
  {
    if |bs| == 0 then []
    else
      var rest := OnStation(bs[..|bs| - 1], s);
      if bs[|bs| - 1].radioId == s then rest + [bs[|bs| - 1]] else rest
  }

  /** A station's count is the number of its records. */
  lemma {:induction false} CountIsOnStation(bs: seq<Broadcast>, s: StationId)
    ensures CountOn(bs, s) == |OnStation(bs, s)|
  {
    if |bs| > 0 {
      CountIsOnStation(bs[..|bs| - 1], s);
    }
  }

  /** Only station 1 moves the adjusted timetable: it is the same as for
      the records of station 1 alone. */
  lemma {:induction false} AdjustedOnlyStationOne(bs: seq<Broadcast>)
    ensures Adjusted(bs) == Adjusted(OnStation(bs, 1))
  {
    if |bs| > 0 {
      var front, last := bs[..|bs| - 1], bs[|bs| - 1];
      var before := OnStation(front, 1);
      AdjustedOnlyStationOne(front);
      if last.radioId == 1 {
        assert (before + [last])[..|before|] == before;
      }
    }
  }

  /** Within the hour the record follows the running time after a minute
      of gap. */
  lemma AdjustWithinHour(run: Time, dur: Time)
    requires Add(run, Add(dur, OneMinute)).hour <= run.hour
    ensures ToSec(AdjustStep(run, dur)) == Wrapped(ToSec(run) + Wrapped(ToSec(dur) + 60))
  {
  }

  /** Across an hour the moved record starts three minutes past the new
      hour: the new running time less the record and its gap is
      `hour:3:0`. */
  lemma AdjustAcrossHour(run: Time, dur: Time)
    requires Add(run, Add(dur, OneMinute)).hour > run.hour
    requires ToSec(Add(dur, OneMinute)) + Add(run, Add(dur, OneMinute)).hour * 3600 + 180 < 921600
    ensures Sub(AdjustStep(run, dur), Add(dur, OneMinute)) == Some(Time(Add(run, Add(dur, OneMinute)).hour, 3, 0))
  {
    var delta := Add(dur, OneMinute);
    var start := Time(Add(run, delta).hour, 3, 0);
    AddCommutes(delta, start);
    SubUndoesAdd(start, delta);
  }

  /** Adding two times whose totals sum to that of a canonical `t` gives
      `t`. */
  lemma AddGives(a: Time, b: Time, t: Time)
    requires Canonical(t) && ToSec(a) + ToSec(b) == ToSec(t)
    ensures Add(a, b) == t
  {
    AddExact(a, b);
    CanonicalUnique(Add(a, b), t);
  }

  /** A step worked out: a record of 30 seconds when the running time is
      0:59:30 runs into the next hour, is moved to 1:3:0 and ends at
      1:4:30. */
  lemma AdjustAcrossExample(run: Time, dur: Time)
    requires Canonical(run) && ToSec(run) == 59 * 60 + 30 && ToSec(dur) == 30
    ensures AdjustStep(run, dur) == Time(1, 4, 30)
  {
    var delta := Add(dur, OneMinute);
    AddExact(dur, OneMinute);
    AddExact(run, delta);
    assert Add(run, delta).hour == 1 by {
      CanonicalUnique(Add(run, delta), Time(1, 1, 0));
    }
    AddGives(delta, Time(Add(run, delta).hour, 3, 0), Time(1, 4, 30));
  }

  /** A step worked out: a record of 59 minutes 30 seconds at 0:0:0 pads
      to 1:0:30, which crosses into hour 1, so the running time becomes
      1:0:30 plus 1:3:0, that is 2:3:30. */
  lemma AdjustRolloverExample(run: Time, dur: Time)
    requires Canonical(run) && ToSec(run) == 0 && ToSec(dur) == 59 * 60 + 30
    ensures AdjustStep(run, dur) == Time(2, 3, 30)
  {
    var delta := Add(dur, OneMinute);
    AddExact(dur, OneMinute);
    AddExact(run, delta);
    assert run.hour == 0;
    assert Add(run, delta).hour == 1 by {
      CanonicalUnique(Add(run, delta), Time(1, 0, 30));
    }
    AddGives(delta, Time(Add(run, delta).hour, 3, 0), Time(2, 3, 30));
  }

  /** A step worked out: a record of three minutes when the running time
      is 0:10:0 follows its minute of gap and ends at 0:14:0. */
  lemma AdjustWithinExample(run: Time, dur: Time)
    requires Canonical(run) && ToSec(run) == 10 * 60 && ToSec(dur) == 3 * 60
    ensures AdjustStep(run, dur) == Time(0, 14, 0)
  {
    var delta := Add(dur, OneMinute);
    AddExact(dur, OneMinute);
    AddGives(run, delta, Time(0, 14, 0));
    assert run.hour == 0 by {
      CanonicalUnique(run, Time(0, 10, 0));
    }
  }

  // ----- The whole program

  /** What the program prints when it runs to the end. */
  datatype Report = Report(counts: seq<nat>, span: SpanReport, neighbours: NeighbourReport,
                           hitsFile: seq<string>, adjusted: Time)

  /** Where the program stops early: a log it cannot read, a span whose
      `sub` underflows, or an empty slot in the neighbour query. */
  datatype Stop =
    | BadLog(error: ParseError)
    | SpanPanics
    | UnfilledPanics

  datatype Outcome = Stopped(at: Stop) | Finished(report: Report)

  /** The run of the program on the log `input` and the line `rawTerm` read
      as the search term. */
  function Analysis(input: string, rawTerm: string): Outcome {
    match Log(input)
    case Failure(err) => Stopped(BadLog(err))
    case Success(bs) =>
      var span := EricSpan(bs);
      if span == SpanUnderflow then Stopped(SpanPanics)
      else
        var neighbours := NeighbourQuery(bs);
        if neighbours == Unfilled then Stopped(UnfilledPanics)
        else Finished(Report(Counts(bs), span, neighbours, SearchOutput(bs, rawTerm), Adjusted(bs)))
  }

  /** `main`: the passes one after the other over the records of the log. */
  method Analyse(input: string, rawTerm: string) returns (outcome: Outcome)
    ensures outcome == Analysis(input, rawTerm)
  {
    var log := ParseLog(input);
    if log.Failure? {
      return Stopped(BadLog(log.error));
    }
    var bs := log.value;
    var counts := CountPerRadio(bs);
    var span := EricSpanPass(bs);
    if span == SpanUnderflow {
      return Stopped(SpanPanics);
    }
    var neighbours := NeighbourPass(bs);
    if neighbours == Unfilled {
      return Stopped(UnfilledPanics);
    }
    var hitsFile := SearchFile(bs, rawTerm);
    var adjusted := AdjustedSchedule(bs);
    return Finished(Report(counts, span, neighbours, hitsFile, adjusted));
  }

  /** The counts of a log that reads cover every record line once. */
  lemma CountsCoverLog(input: string)
    requires Log(input).Success?
    ensures var cs := Counts(Log(input).value);
            cs[0] + cs[1] + cs[2] == |Split(Trim(input), '\n')| - 1
  {
    LogHasOneRecordPerLine(input);
    CountsAddUp(Log(input).value);
  }
}
