/** The string operations the program takes from Rust's standard library:
    `str::find` of one character, `str::split` on one character, `str::trim`
    and `str::parse` into an unsigned integer. */
module Text {
  import opened Wrappers

  // ----- Finding and splitting

  /** The index of the first `c` in `s` (`str::find`), or `|s|` when there
      is none. */
  function IndexOf(s: string, c: char): (i: nat)
    ensures i <= |s|
    ensures i < |s| ==> s[i] == c
  {
    if |s| == 0 then 0
    else if s[0] == c then 0
    else 1 + IndexOf(s[1..], c)
  }

  /** No `c` comes before the one `IndexOf` finds. */
  lemma {:induction false} IndexOfIsFirst(s: string, c: char)
    ensures forall k :: 0 <= k < IndexOf(s, c) ==> s[k] != c
  {
    if |s| > 0 && s[0] != c {
      IndexOfIsFirst(s[1..], c);
      assert forall k :: 1 <= k <= IndexOf(s[1..], c) ==> s[k] == s[1..][k - 1];
    }
  }

  /** The pieces of a split put back together with the separator between
      them. */
  function Join(pieces: seq<string>, sep: char): string {
    if |pieces| == 0 then []
    else if |pieces| == 1 then pieces[0]
    else pieces[0] + [sep] + Join(pieces[1..], sep)
  }

  /** `str::split` on one character: the pieces between the separators, in
      order, empty ones included; always at least one piece. */
  function Split(s: string, sep: char): (pieces: seq<string>)
    ensures |pieces| >= 1
    ensures forall k :: 0 <= k < |pieces| ==> sep !in pieces[k]
    decreases |s|
  {
    var i := IndexOf(s, sep);
    IndexOfIsFirst(s, sep);
    assert forall k :: 0 <= k < i ==> s[..i][k] != sep;
    if i == |s| then [s]
    else [s[..i]] + Split(s[i + 1..], sep)
  }

  /** Joining the pieces of a split gives back the text: nothing is lost
      but the separators. */
  lemma {:induction false} JoinSplit(s: string, sep: char)
    ensures Join(Split(s, sep), sep) == s
    decreases |s|
  {
    var i := IndexOf(s, sep);
    if i < |s| {
      var rest := Split(s[i + 1..], sep);
      JoinSplit(s[i + 1..], sep);
      assert ([s[..i]] + rest)[1..] == rest;
      assert s == s[..i] + [sep] + s[i + 1..];
    }
  }

  /** The first `c` is the one right after a text free of `c`. */
  lemma IndexOfFirst(first: string, c: char, rest: string)
    requires c !in first
    ensures IndexOf(first + [c] + rest, c) == |first|
  {
    var s := first + [c] + rest;
    IndexOfIsFirst(s, c);
    assert s[|first|] == c;
    assert forall k :: 0 <= k < |first| ==> s[k] == first[k];
  }

  /** A text is what comes before position `i`, the character at `i` and
      what comes after. */
  lemma CutAround(s: string, i: nat)
    requires i < |s|
    ensures s == s[..i] + [s[i]] + s[i + 1..]
  {
  }

  /** `s.split_at(s.find(c).unwrap())` with the `c` dropped from the second
      part: the text before the first `c` and the text after it; `None`
      where there is no `c` and `unwrap` panics. */
  function CutAtFirst(s: string, c: char): (r: Option<(string, string)>)
    ensures r.None? <==> c !in s
    ensures r.Some? ==> c !in r.value.0 && s == r.value.0 + [c] + r.value.1
  {
    var i := IndexOf(s, c);
    IndexOfIsFirst(s, c);
    if i == |s| then None
    else
      assert forall k :: 0 <= k < i ==> s[..i][k] == s[k];
      CutAround(s, i);
      Some((s[..i], s[i + 1..]))
  }

  /** The cut at the first `c` takes apart a text joined at a `c` that
      the first part does not hold. */
  lemma CutAtFirstUnique(before: string, c: char, after: string)
    requires c !in before
    ensures CutAtFirst(before + [c] + after, c) == Some((before, after))
  {
    var s := before + [c] + after;
    IndexOfFirst(before, c, after);
    assert s[..|before|] == before;
    assert s[|before| + 1..] == after;
  }

  /** Where the first separator sits, the split takes the text before it as
      its first piece. */
  lemma SplitFirst(first: string, rest: string, sep: char)
    requires sep !in first
    ensures Split(first + [sep] + rest, sep) == [first] + Split(rest, sep)
  {
    var s := first + [sep] + rest;
    IndexOfFirst(first, sep, rest);
    assert s[..|first|] == first;
    assert s[|first| + 1..] == rest;
  }

  /** Splitting inverts joining pieces that hold no separator. */
  lemma {:induction false} SplitJoin(pieces: seq<string>, sep: char)
    requires |pieces| >= 1
    requires forall k :: 0 <= k < |pieces| ==> sep !in pieces[k]
    ensures Split(Join(pieces, sep), sep) == pieces
    decreases |pieces|
  {
    if |pieces| == 1 {
      assert IndexOf(pieces[0], sep) == |pieces[0]|;
    } else {
      var tail := pieces[1..];
      assert forall k :: 0 <= k < |tail| ==> sep !in tail[k] by {
        forall k | 0 <= k < |tail| ensures sep !in tail[k] {
          assert tail[k] == pieces[k + 1];
        }
      }
      SplitJoin(tail, sep);
      SplitFirst(pieces[0], Join(tail, sep), sep);
      assert [pieces[0]] + tail == pieces;
    }
  }

  // ----- Trimming

  /** The characters with Unicode's White_Space property, which Rust's
      `char::is_whitespace` accepts. */
  const WhiteSpace: set<char> := {
    '\U{9}', '\U{A}', '\U{B}', '\U{C}', '\U{D}', '\U{20}', '\U{85}', '\U{A0}',
    '\U{1680}', '\U{2000}', '\U{2001}', '\U{2002}', '\U{2003}', '\U{2004}',
    '\U{2005}', '\U{2006}', '\U{2007}', '\U{2008}', '\U{2009}', '\U{200A}',
    '\U{2028}', '\U{2029}', '\U{202F}', '\U{205F}', '\U{3000}'
  }

  predicate IsSpace(c: char) {
    c in WhiteSpace
  }

  /** No white space at either end. */
  predicate IsTrimmed(s: string) {
    |s| == 0 || (!IsSpace(s[0]) && !IsSpace(s[|s| - 1]))
  }

  /** The number of white-space characters that open `s`. */
  function LeadingSpace(s: string): (n: nat)
    ensures n <= |s|
    ensures n < |s| ==> !IsSpace(s[n])
  {
    if |s| > 0 && IsSpace(s[0]) then 1 + LeadingSpace(s[1..]) else 0
  }

  /** The number of white-space characters that close `s`. */
  function TrailingSpace(s: string): (n: nat)
    ensures n <= |s|
    ensures n < |s| ==> !IsSpace(s[|s| - 1 - n])
  {
    if |s| > 0 && IsSpace(s[|s| - 1]) then 1 + TrailingSpace(s[..|s| - 1]) else 0
  }

  /** What `LeadingSpace` counts is white space. */
  lemma {:induction false} LeadingAreSpaces(s: string)
    ensures forall k :: 0 <= k < LeadingSpace(s) ==> IsSpace(s[k])
  {
    if |s| > 0 && IsSpace(s[0]) {
      LeadingAreSpaces(s[1..]);
      assert forall k :: 1 <= k < LeadingSpace(s) ==> s[k] == s[1..][k - 1];
    }
  }

  /** What `TrailingSpace` counts is white space. */
  lemma {:induction false} TrailingAreSpaces(s: string)
    ensures forall k :: |s| - TrailingSpace(s) <= k < |s| ==> IsSpace(s[k])
  {
    if |s| > 0 && IsSpace(s[|s| - 1]) {
      TrailingAreSpaces(s[..|s| - 1]);
    }
  }

  /** `r` is the slice of `s` from `i` on, and what lies outside the slice
      is white space. */
  predicate SliceAt(s: string, r: string, i: nat) {
    i + |r| <= |s| && s[i..i + |r|] == r
    && (forall k :: 0 <= k < i ==> IsSpace(s[k]))
    && (forall k :: i + |r| <= k < |s| ==> IsSpace(s[k]))
  }

  /** `str::trim`: `s` without the white space at either end; what is
      removed is white space only and what is kept is a slice of `s`. */
  function Trim(s: string): (r: string)
    ensures IsTrimmed(r)
  {
    var rest := s[LeadingSpace(s)..];
    rest[..|rest| - TrailingSpace(rest)]
  }

  /** What `Trim` keeps is a slice of its input, and what it removes is
      white space. */
  lemma TrimSlice(s: string)
    ensures SliceAt(s, Trim(s), LeadingSpace(s))
  {
    var i := LeadingSpace(s);
    var rest := s[i..];
    var n := |rest| - TrailingSpace(rest);
    assert Trim(s) == rest[..n];
    assert s[i..i + n] == rest[..n];
    LeadingAreSpaces(s);
    TrimDropsTrailing(s, i, n);
  }

  /** The characters after the trimmed part are white space. */
  lemma TrimDropsTrailing(s: string, i: nat, n: nat)
    requires i <= |s| && n == |s[i..]| - TrailingSpace(s[i..])
    ensures forall k :: i + n <= k < |s| ==> IsSpace(s[k])
  {
    var rest := s[i..];
    TrailingAreSpaces(rest);
    forall k | i + n <= k < |s|
      ensures IsSpace(s[k])
    {
      assert s[k] == rest[k - i];
    }
  }

  /** Trimming leaves a string without white space at its ends alone; in
      particular trimming twice is trimming once. */
  lemma TrimTrimmed(s: string)
    requires IsTrimmed(s)
    ensures Trim(s) == s
  {
    assert LeadingSpace(s) == 0;
    assert TrailingSpace(s) == 0;
    assert s[0..][..|s|] == s;
  }

  // ----- Decimal numbers

  predicate IsDigit(c: char) {
    '0' <= c <= '9'
  }

  predicate AllDigits(s: string) {
    forall k :: 0 <= k < |s| ==> IsDigit(s[k])
  }

  /** The value of a string of decimal digits, most significant first, or
      `None` when some character is not a digit. */
  function Digits(ds: string): Option<nat> {
    if |ds| == 0 then Some(0)
    else
      var last := ds[|ds| - 1];
      match Digits(ds[..|ds| - 1])
      case None => None
      case Some(v) => if IsDigit(last) then Some(10 * v + (last as int - '0' as int)) else None
  }

  /** `Digits` has a value exactly when every character is a digit. */
  lemma {:induction false} DigitsDefined(ds: string)
    ensures Digits(ds).Some? <==> AllDigits(ds)
  {
    if |ds| > 0 {
      var front := ds[..|ds| - 1];
      DigitsDefined(front);
      assert forall k :: 0 <= k < |front| ==> front[k] == ds[k];
    }
  }

  /** `str::parse` into an unsigned integer type whose values lie below
      `bound`: one optional leading `+`, then at least one decimal digit,
      and a value that fits; anything else is an error (`None`). */
  function ParseUnsigned(s: string, bound: nat): (r: Option<nat>)
    ensures r.Some? ==> r.value < bound
  {
    var ds := if |s| > 0 && s[0] == '+' then s[1..] else s;
    if |ds| == 0 then None
    else
      match Digits(ds)
      case None => None
      case Some(v) => if v < bound then Some(v) else None
  }

  /** The decimal notation of `n`, without leading zeros. */
  function Decimal(n: nat): (ds: string)
    ensures |ds| > 0 && AllDigits(ds)
    ensures n > 0 ==> ds[0] != '0'
  {
    var last := ('0' as int + n % 10) as char;
    if n < 10 then [last] else Decimal(n / 10) + [last]
  }

  /** The digits of `Decimal(n)` are worth `n`. */
  lemma {:induction false} DecimalValue(n: nat)
    ensures Digits(Decimal(n)) == Some(n)
  {
    if n >= 10 {
      var ds := Decimal(n);
      DecimalValue(n / 10);
      assert ds[..|ds| - 1] == Decimal(n / 10);
    }
  }

  /** Parsing reads back what `Decimal` wrote, whenever it fits the type. */
  lemma ParseDecimal(n: nat, bound: nat)
    requires n < bound
    ensures ParseUnsigned(Decimal(n), bound) == Some(n)
  {
    DecimalValue(n);
  }
}
