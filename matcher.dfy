/** `does_match`: the case-insensitive search of the program. A search term
    matches a text when the term's characters occur in the text in the same
    order, not necessarily next to each other. */
module Matcher {

  // ----- Case folding

  /** `char::to_lowercase` on the ASCII letters; every other character is
      left as it is. */
  function LowerChar(c: char): (d: char)
    ensures 'A' <= c <= 'Z' ==> d as int == c as int + 32 && 'a' <= d <= 'z'
    ensures !('A' <= c <= 'Z') ==> d == c
  {
    if 'A' <= c <= 'Z' then (c as int + 32) as char else c
  }

  /** `str::to_lowercase`, character by character. */
  function Lower(s: string): (r: string)
    ensures |r| == |s|
    ensures forall k :: 0 <= k < |s| ==> r[k] == LowerChar(s[k])
  {
    seq(|s|, k requires 0 <= k < |s| => LowerChar(s[k]))
  }

  /** Folding is idempotent. */
  lemma LowerLower(s: string)
    ensures Lower(Lower(s)) == Lower(s)
  {
  }

  // ----- Subsequences

  /** `p` occurs in `s` in order: the greedy test, which matches each
      element of `p` with its first possible place in `s`. */
  function IsSubsequence<T(==)>(p: seq<T>, s: seq<T>): bool
    decreases |s|
  {
    if |p| == 0 then true
    else if |s| == 0 then false
    else if p[0] == s[0] then IsSubsequence(p[1..], s[1..])
    else IsSubsequence(p, s[1..])
  }

  /** `idx` places `p` in `s`: positions of `s`, each after the one before,
      whose elements spell `p`. */
  predicate Embeds<T(==)>(p: seq<T>, s: seq<T>, idx: seq<nat>) {
    |idx| == |p|
    && (forall k :: 0 <= k < |idx| ==> idx[k] < |s| && s[idx[k]] == p[k])
    && (forall k :: 0 < k < |idx| ==> idx[k - 1] < idx[k])
  }

  /** Every position moved `d` places to the right. */
  function Shifted(idx: seq<nat>, d: nat): (r: seq<nat>)
    ensures |r| == |idx|
    ensures forall k :: 0 <= k < |idx| ==> r[k] == idx[k] + d
  {
    seq(|idx|, k requires 0 <= k < |idx| => idx[k] + d)
  }

  /** The places the greedy test finds, when it succeeds. */
  function Embedding<T(==)>(p: seq<T>, s: seq<T>): (idx: seq<nat>)
    requires IsSubsequence(p, s)
    ensures Embeds(p, s, idx)
    decreases |s|
  {
    if |p| == 0 then []
    else if p[0] == s[0] then
      var rest := Embedding(p[1..], s[1..]);
      EmbedsTaken(p, s, rest);
      [0] + Shifted(rest, 1)
    else
      var rest := Embedding(p, s[1..]);
      EmbedsSkipped(p, s, rest);
      Shifted(rest, 1)
  }

  /** Placing the first element of `p` on the first of `s`, and the rest
      after it. */
  lemma EmbedsTaken<T>(p: seq<T>, s: seq<T>, rest: seq<nat>)
    requires |p| > 0 && |s| > 0 && p[0] == s[0]
    requires Embeds(p[1..], s[1..], rest)
    ensures Embeds(p, s, [0] + Shifted(rest, 1))
  {
    var idx := [0] + Shifted(rest, 1);
    assert idx[0] == 0;
    assert forall k :: 1 <= k < |idx| ==> idx[k] == rest[k - 1] + 1;
    forall k | 1 <= k < |idx|
      ensures idx[k] < |s| && s[idx[k]] == p[k]
    {
      assert s[idx[k]] == s[1..][rest[k - 1]];
    }
  }

  /** Placing all of `p` after the first element of `s`. */
  lemma EmbedsSkipped<T>(p: seq<T>, s: seq<T>, rest: seq<nat>)
    requires |s| > 0
    requires Embeds(p, s[1..], rest)
    ensures Embeds(p, s, Shifted(rest, 1))
  {
    var idx := Shifted(rest, 1);
    forall k | 0 <= k < |idx|
      ensures idx[k] < |s| && s[idx[k]] == p[k]
    {
      assert s[idx[k]] == s[1..][rest[k]];
    }
  }

  /** Whenever `p` can be placed in `s` at all, the greedy test says so. */
  lemma {:induction false} EmbeddedIsSubsequence<T>(p: seq<T>, s: seq<T>, idx: seq<nat>)
    requires Embeds(p, s, idx)
    ensures IsSubsequence(p, s)
    decreases |s|
  {
    if |p| > 0 {
      assert idx[0] < |s|;
      forall k | 0 < k < |idx| ensures idx[k] > 0 {
        assert idx[k - 1] < idx[k];
      }
      if p[0] == s[0] {
        var rest := Lowered(idx[1..]);
        forall k | 0 <= k < |rest|
          ensures rest[k] < |s[1..]| && s[1..][rest[k]] == p[1..][k]
        {
        }
        forall k | 0 < k < |rest|
          ensures rest[k - 1] < rest[k]
        {
          assert idx[k] < idx[k + 1];
        }
        EmbeddedIsSubsequence(p[1..], s[1..], rest);
      } else {
        var rest := Lowered(idx);
        forall k | 0 <= k < |rest|
          ensures rest[k] < |s[1..]| && s[1..][rest[k]] == p[k]
        {
        }
        EmbeddedIsSubsequence(p, s[1..], rest);
      }
    }
  }

  /** Every position moved one place to the left. */
  function Lowered(idx: seq<nat>): (r: seq<nat>)
    requires forall k :: 0 <= k < |idx| ==> idx[k] > 0
    ensures |r| == |idx|
    ensures forall k :: 0 <= k < |idx| ==> r[k] == idx[k] - 1
  {
    seq(|idx|, k requires 0 <= k < |idx| => idx[k] - 1)
  }

  /** The greedy test is exact: `p` is a subsequence of `s` if and only if
      some increasing choice of positions of `s` spells `p`. */
  lemma SubsequenceIff<T>(p: seq<T>, s: seq<T>)
    ensures IsSubsequence(p, s) <==> exists idx :: Embeds(p, s, idx)
  {
    if IsSubsequence(p, s) {
      var idx := Embedding(p, s);
      assert Embeds(p, s, idx);
    }
    if exists idx :: Embeds(p, s, idx) {
      var idx :| Embeds(p, s, idx);
      EmbeddedIsSubsequence(p, s, idx);
    }
  }

  /** Every sequence occurs in itself. */
  lemma {:induction false} SubsequenceReflexive<T>(s: seq<T>)
    ensures IsSubsequence(s, s)
    decreases |s|
  {
    if |s| > 0 {
      SubsequenceReflexive(s[1..]);
    }
  }

  /** What occurs in a text still occurs once more text follows it. */
  lemma {:induction false} SubsequenceExtend<T>(p: seq<T>, s: seq<T>, more: seq<T>)
    requires IsSubsequence(p, s)
    ensures IsSubsequence(p, s + more)
    decreases |s|
  {
    if |p| > 0 {
      assert (s + more)[1..] == s[1..] + more;
      if p[0] == s[0] {
        SubsequenceExtend(p[1..], s[1..], more);
      } else {
        SubsequenceExtend(p, s[1..], more);
      }
    }
  }

  /** One more element at the end of both sequences keeps the order. */
  lemma {:induction false} SubsequenceAppend<T>(p: seq<T>, s: seq<T>, x: T)
    requires IsSubsequence(p, s)
    ensures IsSubsequence(p + [x], s + [x])
    decreases |s|
  {
    if |p| == 0 {
      assert p + [x] == [x];
      LastIsSubsequence(s, x);
    } else {
      assert (p + [x])[1..] == p[1..] + [x];
      assert (s + [x])[1..] == s[1..] + [x];
      if p[0] == s[0] {
        SubsequenceAppend(p[1..], s[1..], x);
      } else {
        SubsequenceAppend(p, s[1..], x);
      }
    }
  }

  /** The last element of a sequence occurs in it. */
  lemma {:induction false} LastIsSubsequence<T>(s: seq<T>, x: T)
    ensures IsSubsequence([x], s + [x])
    decreases |s|
  {
    if |s| > 0 && s[0] != x {
      assert (s + [x])[1..] == s[1..] + [x];
      LastIsSubsequence(s[1..], x);
    }
  }

  // ----- The search

  /** What `does_match(text, term)` answers: the folded term is a
      subsequence of the folded text (the empty term always is). */
  predicate Matches(text: string, term: string) {
    IsSubsequence(Lower(term), Lower(text))
  }

  /** `does_match`: an early `true` for the empty term, otherwise a cursor
      `j` on the folded term that moves on each time the folded text shows
      the character under it, and `true` as soon as it would move past the
      last one. */
  method DoesMatch(text: string, term: string) returns (found: bool)
    ensures found == Matches(text, term)
  {
    if |term| == 0 {
      return true;
    }
    var t := Lower(text);
    var p := Lower(term);
    var j := 0;
    for i := 0 to |t|
      invariant 0 <= j < |p|
      invariant IsSubsequence(p, t) == IsSubsequence(p[j..], t[i..])
    {
      assert t[i..][1..] == t[i + 1..];
      if t[i] == p[j] {
        assert p[j..][1..] == p[j + 1..];
        if j + 1 < |p| {
          j := j + 1;
        } else {
          return true;
        }
      }
    }
    return false;
  }

  /** The empty term matches every text. */
  lemma EmptyTermMatches(text: string)
    ensures Matches(text, "")
  {
  }

  /** The search ignores case: folding the text or the term first changes
      nothing. */
  lemma MatchIgnoresCase(text: string, term: string)
    ensures Matches(Lower(text), term) == Matches(text, term)
    ensures Matches(text, Lower(term)) == Matches(text, term)
  {
    LowerLower(text);
    LowerLower(term);
  }

  /** A text matches itself as a term, and so does every text it begins. */
  lemma MatchesPrefix(text: string, more: string)
    ensures Matches(text + more, text)
  {
    SubsequenceReflexive(Lower(text));
    SubsequenceExtend(Lower(text), Lower(text), Lower(more));
    LowerAppend(text, more);
  }

  /** Folding a concatenation folds each part. */
  lemma LowerAppend(s: string, t: string)
    ensures Lower(s + t) == Lower(s) + Lower(t)
  {
    forall k | 0 <= k < |s + t|
      ensures Lower(s + t)[k] == (Lower(s) + Lower(t))[k]
    {
      if k < |s| {
        assert (s + t)[k] == s[k];
      } else {
        assert (s + t)[k] == t[k - |s|];
      }
    }
  }

  /** Order matters and gaps do not: "ac" occurs in "abc", "cab" does not,
      and case is folded on both sides. */
  lemma MatchExamples()
    ensures Matches("abc", "ac")
    ensures !Matches("abc", "cab")
    ensures Matches("abc", "ABC")
    ensures Matches("ABC", "abc")
  {
    assert Lower("ac") == "ac";
    assert Lower("abc") == "abc";
    assert Lower("cab") == "cab";
    assert Lower("ABC") == "abc";
  }
}
