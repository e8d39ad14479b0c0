/**
 * The transcript panel: search over the entries (every occurrence, overlapping ones
 * included), splitting an entry's text into plain and highlighted parts, cycling through
 * the matches, arrow-key focus without a search, the row-height estimate and the time stamp.
 *
 * `highlightText` is modelled twice: as written, where the current match is recognised by
 * comparing the caller's character position with the ordinal of the match part, and
 * corrected (`HighlightText`), where it is recognised by position; the examples at the end
 * compare the two on one entry.
 */
module Transcript {
  import opened Wrappers
  import opened SessionTypes
  import Text

  datatype SearchResult = SearchResult(index: nat, entry: TranscriptEntry, matchIndex: nat)

  /** Every position at or after `from` where `pat` occurs, ascending: the reference reading
      of the search loop. */
  function Occurrences(text: string, pat: string, from: nat): (r: seq<nat>)
    requires pat != []
    ensures forall p :: p in r <==> from <= p < |text| && Text.OccursAt(text, pat, p)
    ensures forall k :: 0 <= k < |r| ==> from <= r[k]
    ensures forall a, b :: 0 <= a < b < |r| ==> r[a] < r[b]
    decreases |text| - from
  {
    if from >= |text| then []
    else
      var rest := Occurrences(text, pat, from + 1);
      var head := if Text.OccursAt(text, pat, from) then [from] else [];
      assert forall a, b :: 0 <= a < b < |head + rest| ==> (head + rest)[a] < (head + rest)[b] by {
        forall a, b | 0 <= a < b < |head + rest|
          ensures (head + rest)[a] < (head + rest)[b]
        {
          if a < |head| {
            assert (head + rest)[b] == rest[b - |head|];
          } else {
            assert (head + rest)[a] == rest[a - |head|];
            assert (head + rest)[b] == rest[b - |head|];
          }
        }
      }
      head + rest
  }

  /** The `while` loop over one entry: `indexOf`, then `indexOf` from one past each match. */
  function MatchPositions(text: string, pat: string, from: nat): seq<nat>
    requires pat != [] && from <= |text|
    decreases |text| - from
  {
    var m := Text.IndexOf(text, pat, from);
    if m == -1 then [] else [m as nat] + MatchPositions(text, pat, m + 1)
  }

  lemma {:induction false} NoOccurrences(text: string, pat: string, from: nat)
    requires pat != []
    requires forall p :: from <= p ==> !Text.OccursAt(text, pat, p)
    ensures Occurrences(text, pat, from) == []
    decreases |text| - from
  {
    if from < |text| {
      NoOccurrences(text, pat, from + 1);
    }
  }

  lemma {:induction false} SkipGap(text: string, pat: string, from: nat, m: nat)
    requires pat != [] && from <= m
    requires forall p :: from <= p < m ==> !Text.OccursAt(text, pat, p)
    ensures Occurrences(text, pat, from) == Occurrences(text, pat, m)
    decreases m - from
  {
    if from < m {
      SkipGap(text, pat, from + 1, m);
    }
  }

  /** Stepping one past each match finds every occurrence, overlapping ones included. */
  lemma {:induction false} MatchPositionsAreOccurrences(text: string, pat: string, from: nat)
    requires pat != [] && from <= |text|
    ensures MatchPositions(text, pat, from) == Occurrences(text, pat, from)
    decreases |text| - from
  {
    var m := Text.IndexOf(text, pat, from);
    if m == -1 {
      NoOccurrences(text, pat, from);
    } else {
      SkipGap(text, pat, from, m);
      MatchPositionsAreOccurrences(text, pat, m + 1);
    }
  }

  function EntryResults(index: nat, entry: TranscriptEntry, positions: seq<nat>): (r: seq<SearchResult>)
    ensures |r| == |positions|
    ensures forall k :: 0 <= k < |r| ==> r[k] == SearchResult(index, entry, positions[k])
  {
    seq(|positions|, k requires 0 <= k < |positions| => SearchResult(index, entry, positions[k]))
  }

  /** The `forEach` from entry `i` on. */
  function ResultsFrom(transcript: seq<TranscriptEntry>, pat: string, i: nat): seq<SearchResult>
    requires pat != [] && i <= |transcript|
    decreases |transcript| - i
  {
    if i == |transcript| then []
    else
      EntryResults(i, transcript[i], MatchPositions(Text.Lower(transcript[i].text), pat, 0))
      + ResultsFrom(transcript, pat, i + 1)
  }

  /** `searchResults`: nothing for a blank search; otherwise the lower-cased (untrimmed)
      term's occurrences in each lower-cased entry. */
  function SearchResults(transcript: seq<TranscriptEntry>, searchTerm: string): (r: seq<SearchResult>)
    ensures Text.IsBlank(searchTerm) ==> r == []
  {
    if Text.IsBlank(searchTerm) then [] else ResultsFrom(transcript, Text.Lower(searchTerm), 0)
  }

  /** Ordered by entry, then by position. */
  predicate Before(a: SearchResult, b: SearchResult) {
    a.index < b.index || (a.index == b.index && a.matchIndex < b.matchIndex)
  }

  /** A result names an entry and a position where the term occurs in it. */
  predicate IsMatch(transcript: seq<TranscriptEntry>, pat: string, r: SearchResult) {
    r.index < |transcript| && r.entry == transcript[r.index] && Text.OccursAt(Text.Lower(r.entry.text), pat, r.matchIndex)
  }

  /** The results for one entry are the term's occurrences in it. */
  lemma {:induction false} EntryResultsMembers(transcript: seq<TranscriptEntry>, pat: string, i: nat)
    requires pat != [] && i < |transcript|
    ensures forall r :: r in EntryResults(i, transcript[i], MatchPositions(Text.Lower(transcript[i].text), pat, 0)) <==>
              r.index == i && IsMatch(transcript, pat, r)
  {
    var text := Text.Lower(transcript[i].text);
    MatchPositionsAreOccurrences(text, pat, 0);
    var ps := MatchPositions(text, pat, 0);
    var here := EntryResults(i, transcript[i], ps);
    forall r
      ensures r in here <==> r.index == i && IsMatch(transcript, pat, r)
    {
      if r.index == i && IsMatch(transcript, pat, r) {
        assert r.matchIndex in ps;
        var k :| 0 <= k < |ps| && ps[k] == r.matchIndex;
        assert here[k] == r;
      }
    }
  }

  lemma {:induction false} ResultsFromMembers(transcript: seq<TranscriptEntry>, pat: string, i: nat)
    requires pat != [] && i <= |transcript|
    ensures forall r :: r in ResultsFrom(transcript, pat, i) <==> i <= r.index && IsMatch(transcript, pat, r)
    decreases |transcript| - i
  {
    if i < |transcript| {
      ResultsFromMembers(transcript, pat, i + 1);
      EntryResultsMembers(transcript, pat, i);
    }
  }

  lemma {:induction false} ResultsFromOrdered(transcript: seq<TranscriptEntry>, pat: string, i: nat)
    requires pat != [] && i <= |transcript|
    ensures forall a, b :: 0 <= a < b < |ResultsFrom(transcript, pat, i)| ==>
              Before(ResultsFrom(transcript, pat, i)[a], ResultsFrom(transcript, pat, i)[b])
    decreases |transcript| - i
  {
    if i < |transcript| {
      ResultsFromOrdered(transcript, pat, i + 1);
      ResultsFromMembers(transcript, pat, i + 1);
      var text := Text.Lower(transcript[i].text);
      MatchPositionsAreOccurrences(text, pat, 0);
      var ps := MatchPositions(text, pat, 0);
      var here := EntryResults(i, transcript[i], ps);
      var rest := ResultsFrom(transcript, pat, i + 1);
      assert ResultsFrom(transcript, pat, i) == here + rest;
      forall a, b | 0 <= a < b < |here + rest|
        ensures Before((here + rest)[a], (here + rest)[b])
      {
        if b < |here| {
          assert ps[a] < ps[b];
        } else if a < |here| {
          assert (here + rest)[b] == rest[b - |here|];
          assert rest[b - |here|] in rest;
        } else {
          assert (here + rest)[a] == rest[a - |here|];
          assert (here + rest)[b] == rest[b - |here|];
        }
      }
    }
  }

  /** The search yields exactly the (entry, position) pairs where the lower-cased term occurs
      in the lower-cased entry, overlapping occurrences included, ordered by entry and then
      by position; a blank search yields nothing. */
  lemma SearchResultsExactly(transcript: seq<TranscriptEntry>, searchTerm: string)
    ensures Text.IsBlank(searchTerm) ==> SearchResults(transcript, searchTerm) == []
    ensures !Text.IsBlank(searchTerm) ==>
              forall r :: r in SearchResults(transcript, searchTerm) <==> IsMatch(transcript, Text.Lower(searchTerm), r)
    ensures forall a, b :: 0 <= a < b < |SearchResults(transcript, searchTerm)| ==>
              Before(SearchResults(transcript, searchTerm)[a], SearchResults(transcript, searchTerm)[b])
  {
    if !Text.IsBlank(searchTerm) {
      ResultsFromMembers(transcript, Text.Lower(searchTerm), 0);
      ResultsFromOrdered(transcript, Text.Lower(searchTerm), 0);
    }
  }

  /** A piece of highlighted text. */
  datatype Part = Part(text: string, isMatch: bool, isCurrent: bool)

  /** The text returned as is, or the parts. */
  datatype Highlighted = Plain(text: string) | Parts(parts: seq<Part>)

  function Concat(parts: seq<Part>): string {
    if parts == [] then [] else parts[0].text + Concat(parts[1..])
  }

  lemma {:induction false} ConcatAppend(a: seq<Part>, b: seq<Part>)
    ensures Concat(a + b) == Concat(a) + Concat(b)
  {
    if a == [] {
      assert a + b == b;
    } else {
      assert (a + b)[0] == a[0];
      assert (a + b)[1..] == a[1..] + b;
      ConcatAppend(a[1..], b);
      Associative(a[0].text, Concat(a[1..]), Concat(b));
    }
  }

  lemma Associative(x: string, y: string, z: string)
    ensures x + (y + z) == (x + y) + z
  {
  }

  /** Where part `k` starts in the text the parts spell. */
  function Offset(parts: seq<Part>, k: nat): nat
    requires k <= |parts|
  {
    |Concat(parts[..k])|
  }

  lemma {:induction false} OffsetShift(a: seq<Part>, b: seq<Part>, k: nat)
    requires |a| <= k <= |a| + |b|
    ensures Offset(a + b, k) == |Concat(a)| + Offset(b, k - |a|)
  {
    assert (a + b)[..k] == a + b[..k - |a|];
    ConcatAppend(a, b[..k - |a|]);
  }

  /** No part is empty, only match parts are current, and every match part lower-cases to
      the term. */
  predicate WellFormed(parts: seq<Part>, pat: string) {
    forall k :: 0 <= k < |parts| ==>
      && parts[k].text != []
      && (parts[k].isCurrent ==> parts[k].isMatch)
      && (parts[k].isMatch ==> Text.Lower(parts[k].text) == pat)
  }

  lemma {:induction false} WellFormedAppend(a: seq<Part>, b: seq<Part>, pat: string)
    requires WellFormed(a, pat) && WellFormed(b, pat)
    ensures WellFormed(a + b, pat)
  {
    forall k | 0 <= k < |a + b|
      ensures (a + b)[k] == if k < |a| then a[k] else b[k - |a|]
    {
    }
  }

  /** No two plain parts are neighbours: plain text is never split between two parts, so
      the partition into plain and matched parts is unique. */
  predicate Alternates(parts: seq<Part>) {
    forall k :: 0 <= k < |parts| - 1 ==> parts[k].isMatch || parts[k + 1].isMatch
  }

  lemma {:induction false} AlternatesAppend(a: seq<Part>, b: seq<Part>)
    requires Alternates(a) && Alternates(b)
    requires a != [] ==> a[|a| - 1].isMatch
    ensures Alternates(a + b)
  {
    forall k | 0 <= k < |a + b| - 1
      ensures (a + b)[k].isMatch || (a + b)[k + 1].isMatch
    {
      if k + 1 < |a| {
        assert (a + b)[k] == a[k] && (a + b)[k + 1] == a[k + 1];
      } else if k + 1 == |a| {
        assert (a + b)[k] == a[|a| - 1];
      } else {
        assert (a + b)[k] == b[k - |a|] && (a + b)[k + 1] == b[k + 1 - |a|];
      }
    }
  }

  /** The part is current exactly when it is a match starting at the current position. */
  predicate IsCurrentAt(p: Part, current: Option<int>, pos: int) {
    p.isCurrent <==> p.isMatch && current.Some? && current.value == pos
  }

  /** Each part, starting at `base` plus its offset, is current exactly when it is a match
      starting at the current position. */
  predicate CurrentByPosition(current: Option<int>, base: nat, parts: seq<Part>) {
    forall k :: 0 <= k < |parts| ==> IsCurrentAt(parts[k], current, base + Offset(parts, k))
  }

  lemma {:induction false} PrefixOffset(a: seq<Part>, b: seq<Part>, k: nat)
    requires k <= |a|
    ensures Offset(a + b, k) == Offset(a, k)
  {
    assert (a + b)[..k] == a[..k];
  }

  lemma {:induction false} CurrentAppend(current: Option<int>, base: nat, a: seq<Part>, b: seq<Part>)
    requires CurrentByPosition(current, base, a) && CurrentByPosition(current, base + |Concat(a)|, b)
    ensures CurrentByPosition(current, base, a + b)
  {
    var shifted := base + |Concat(a)|;
    forall k | 0 <= k < |a + b|
      ensures IsCurrentAt((a + b)[k], current, base + Offset(a + b, k))
    {
      if k < |a| {
        PrefixOffset(a, b, k);
        assert (a + b)[k] == a[k];
        assert IsCurrentAt(a[k], current, base + Offset(a, k));
      } else {
        var j := k - |a|;
        OffsetShift(a, b, k);
        assert (a + b)[k] == b[j];
        assert IsCurrentAt(b[j], current, shifted + Offset(b, j));
      }
    }
  }

  /** No occurrence of the term starts in `[lo, hi)`. */
  predicate NoneBetween(lower: string, pat: string, lo: int, hi: int) {
    forall p :: lo <= p < hi ==> !Text.OccursAt(lower, pat, p)
  }

  /** No occurrence of the term starts inside a plain part, each part starting at `base` plus
      its offset: the search split the text at the leftmost occurrence each time. */
  predicate NoStart(lower: string, pat: string, base: nat, parts: seq<Part>) {
    forall k :: 0 <= k < |parts| && !parts[k].isMatch ==>
      NoneBetween(lower, pat, base + Offset(parts, k), base + Offset(parts, k) + |parts[k].text|)
  }

  lemma {:induction false} NoStartAppend(lower: string, pat: string, base: nat, a: seq<Part>, b: seq<Part>)
    requires NoStart(lower, pat, base, a) && NoStart(lower, pat, base + |Concat(a)|, b)
    ensures NoStart(lower, pat, base, a + b)
  {
    forall k | 0 <= k < |a + b| && !(a + b)[k].isMatch
      ensures NoneBetween(lower, pat, base + Offset(a + b, k), base + Offset(a + b, k) + |(a + b)[k].text|)
    {
      if k < |a| {
        PrefixOffset(a, b, k);
        assert (a + b)[k] == a[k];
      } else {
        OffsetShift(a, b, k);
        assert (a + b)[k] == b[k - |a|];
      }
    }
  }

  /** The number of match parts. */
  function MatchCount(parts: seq<Part>): nat {
    if parts == [] then 0 else (if parts[0].isMatch then 1 else 0) + MatchCount(parts[1..])
  }

  lemma {:induction false} MatchCountAppend(a: seq<Part>, b: seq<Part>)
    ensures MatchCount(a + b) == MatchCount(a) + MatchCount(b)
  {
    if a == [] {
      assert a + b == b;
    } else {
      assert (a + b)[0] == a[0];
      assert (a + b)[1..] == a[1..] + b;
      MatchCountAppend(a[1..], b);
    }
  }

  /** The part is current exactly when it is the match with ordinal `n`. */
  predicate IsCurrentOrdinal(p: Part, current: Option<int>, n: int) {
    p.isCurrent <==> p.isMatch && current.Some? && current.value == n
  }

  /** Each part is current exactly when it is a match whose ordinal, counting from `first`, is
      the current value. */
  predicate CurrentByOrdinal(current: Option<int>, first: nat, parts: seq<Part>) {
    forall k :: 0 <= k < |parts| ==> IsCurrentOrdinal(parts[k], current, first + MatchCount(parts[..k]))
  }

  lemma {:induction false} OrdinalAppend(current: Option<int>, first: nat, a: seq<Part>, b: seq<Part>)
    requires CurrentByOrdinal(current, first, a) && CurrentByOrdinal(current, first + MatchCount(a), b)
    ensures CurrentByOrdinal(current, first, a + b)
  {
    forall k | 0 <= k < |a + b|
      ensures IsCurrentOrdinal((a + b)[k], current, first + MatchCount((a + b)[..k]))
    {
      if k < |a| {
        assert (a + b)[..k] == a[..k];
        assert (a + b)[k] == a[k];
      } else {
        assert (a + b)[..k] == a + b[..k - |a|];
        MatchCountAppend(a, b[..k - |a|]);
        assert (a + b)[k] == b[k - |a|];
      }
    }
  }

  /** `lower.indexOf(pat, lastIndex)`, None for -1. */
  function NextFrom(lower: string, pat: string, lastIndex: nat): (r: Option<nat>)
    requires pat != [] && lastIndex <= |lower|
    ensures r.Some? ==> lastIndex <= r.value && r.value + |pat| <= |lower| && Text.OccursAt(lower, pat, r.value)
    ensures r.Some? ==> NoneBetween(lower, pat, lastIndex, r.value)
    ensures r.None? ==> forall p :: lastIndex <= p ==> !Text.OccursAt(lower, pat, p)
  {
    var m := Text.IndexOf(lower, pat, lastIndex);
    if m == -1 then None else Some(m)
  }

  /** One round of the loop: the plain part before the match (if any) and the match part. */
  function Round(text: string, lastIndex: nat, m: nat, next: nat, isCurrent: bool): seq<Part>
    requires lastIndex <= m <= next <= |text|
  {
    (if m > lastIndex then [Part(text[lastIndex..m], false, false)] else []) + [Part(text[m..next], true, isCurrent)]
  }

  /** Lower-casing commutes with slicing. */
  lemma LowerSlice(text: string, i: nat, j: nat)
    requires i <= j <= |text|
    ensures Text.Lower(text[i..j]) == Text.Lower(text)[i..j]
  {
  }

  /** One round spells the text from `lastIndex` to past the match, and is well formed. */
  lemma {:induction false} RoundSpells(text: string, pat: string, lastIndex: nat, m: nat, isCurrent: bool)
    requires lastIndex <= m && m + |pat| <= |text| && pat != [] && Text.OccursAt(Text.Lower(text), pat, m)
    ensures var pre := Round(text, lastIndex, m, m + |pat|, isCurrent);
            Concat(pre) == text[lastIndex..m + |pat|] && WellFormed(pre, pat)
  {
    var next := m + |pat|;
    var mp := Part(text[m..next], true, isCurrent);
    var before := if m > lastIndex then [Part(text[lastIndex..m], false, false)] else [];
    assert Concat(before) == text[lastIndex..m] by {
      if m > lastIndex {
        assert Concat(before) == text[lastIndex..m] + Concat([]);
      }
    }
    ConcatAppend(before, [mp]);
    assert Concat([mp]) == mp.text + Concat([]);
    assert text[lastIndex..next] == text[lastIndex..m] + text[m..next];
    LowerSlice(text, m, next);
    WellFormedAppend(before, [mp], pat);
  }

  /** One round's match part, at offset `m - lastIndex`, is current by position when its flag
      says the current position is `m`; the plain part before it is not current. */
  lemma {:induction false} RoundCurrent(text: string, lastIndex: nat, m: nat, next: nat, current: Option<int>)
    requires lastIndex <= m <= next <= |text|
    ensures CurrentByPosition(current, lastIndex, Round(text, lastIndex, m, next, current.Some? && current.value == m))
  {
    var isCurrent := current.Some? && current.value == m;
    var mp := Part(text[m..next], true, isCurrent);
    var before := if m > lastIndex then [Part(text[lastIndex..m], false, false)] else [];
    var pre := before + [mp];
    assert |Concat(before)| == m - lastIndex by {
      if m > lastIndex {
        assert Concat(before) == text[lastIndex..m] + Concat([]);
      }
    }
    assert pre[..|before|] == before;
    forall k | 0 <= k < |pre|
      ensures IsCurrentAt(pre[k], current, lastIndex + Offset(pre, k))
    {
      if k < |before| {
        assert pre[k] == before[k];
      } else {
        assert pre[k] == mp;
      }
    }
  }

  /** One round's plain part ends where the leftmost occurrence from `lastIndex` starts. */
  lemma {:induction false} RoundNoStart(text: string, pat: string, lastIndex: nat, m: nat, next: nat, isCurrent: bool)
    requires lastIndex <= m <= next <= |text|
    requires NoneBetween(Text.Lower(text), pat, lastIndex, m)
    ensures NoStart(Text.Lower(text), pat, lastIndex, Round(text, lastIndex, m, next, isCurrent))
  {
    var pre := Round(text, lastIndex, m, next, isCurrent);
    forall k | 0 <= k < |pre| && !pre[k].isMatch
      ensures NoneBetween(Text.Lower(text), pat, lastIndex + Offset(pre, k), lastIndex + Offset(pre, k) + |pre[k].text|)
    {
      assert k == 0 && m > lastIndex;
      assert pre[..0] == [];
    }
  }

  /** One round holds one match; as written it is current when its ordinal is the current
      value. */
  lemma {:induction false} RoundOrdinal(text: string, lastIndex: nat, m: nat, next: nat, current: Option<int>, matchCount: nat)
    requires lastIndex <= m <= next <= |text|
    ensures var pre := Round(text, lastIndex, m, next, current.Some? && current.value == matchCount);
            MatchCount(pre) == 1 && CurrentByOrdinal(current, matchCount, pre)
  {
    var pre := Round(text, lastIndex, m, next, current.Some? && current.value == matchCount);
    var mp := Part(text[m..next], true, current.Some? && current.value == matchCount);
    assert MatchCount([mp]) == 1 by { assert [mp][1..] == []; }
    if m > lastIndex {
      var plain := Part(text[lastIndex..m], false, false);
      assert pre == [plain] + [mp];
      assert MatchCount([plain]) == 0 by { assert [plain][1..] == []; }
      MatchCountAppend([plain], [mp]);
      forall k | 0 <= k < |pre|
        ensures IsCurrentOrdinal(pre[k], current, matchCount + MatchCount(pre[..k]))
      {
        if k == 0 {
          assert pre[..k] == [];
        } else {
          assert pre[..k] == [plain];
        }
      }
    } else {
      assert pre == [mp];
      forall k | 0 <= k < |pre|
        ensures IsCurrentOrdinal(pre[k], current, matchCount + MatchCount(pre[..k]))
      {
        assert pre[..k] == [];
      }
    }
  }

  lemma {:induction false} SliceSplit(s: string, i: nat, j: nat)
    requires i <= j <= |s|
    ensures s[i..] == s[i..j] + s[j..]
  {
  }

  /** The `while` loop of `highlightText` from `lastIndex` on: plain text up to the next
      match, the match, and on after it. `byPosition` picks how the current match is
      recognised: by the ordinal `matchCount` as written, or by the position. The parts spell
      the rest of the text, none is empty, every match part lower-cases to the term, and,
      recognising by position, exactly the match at the current position is current. */
  function HighlightLoop(text: string, pat: string, lastIndex: nat, matchCount: nat,
                         current: Option<int>, byPosition: bool): (r: seq<Part>)
    requires pat != [] && lastIndex <= |text|
    ensures Concat(r) == text[lastIndex..]
    ensures WellFormed(r, pat)
    ensures byPosition ==> CurrentByPosition(current, lastIndex, r)
    ensures !byPosition ==> CurrentByOrdinal(current, matchCount, r)
    ensures NoStart(Text.Lower(text), pat, lastIndex, r)
    ensures Alternates(r)
    decreases |text| - lastIndex
  {
    match NextFrom(Text.Lower(text), pat, lastIndex)
    case None =>
      if lastIndex < |text| then
        var tail := [Part(text[lastIndex..], false, false)];
        assert Concat(tail) == text[lastIndex..] + Concat([]);
        assert tail[..0] == [];
        tail
      else []
    case Some(m) =>
      var rest := HighlightLoop(text, pat, m + |pat|, matchCount + 1, current, byPosition);
      LoopRound(text, pat, current, byPosition, lastIndex, matchCount, m, rest);
      Round(text, lastIndex, m, m + |pat|, current.Some? && current.value == (if byPosition then m else matchCount)) + rest
  }

  /** One round of the loop, found at the leftmost hit `m`, followed by the rest of the loop
      keeps every property of the loop. */
  lemma {:induction false} LoopRound(text: string, pat: string, current: Option<int>, byPosition: bool,
                                     lastIndex: nat, matchCount: nat, m: nat, rest: seq<Part>)
    requires pat != [] && lastIndex <= m && m + |pat| <= |text|
    requires Text.OccursAt(Text.Lower(text), pat, m) && NoneBetween(Text.Lower(text), pat, lastIndex, m)
    requires Concat(rest) == text[m + |pat|..] && WellFormed(rest, pat)
    requires byPosition ==> CurrentByPosition(current, m + |pat|, rest)
    requires !byPosition ==> CurrentByOrdinal(current, matchCount + 1, rest)
    requires NoStart(Text.Lower(text), pat, m + |pat|, rest)
    requires Alternates(rest)
    ensures var pre := Round(text, lastIndex, m, m + |pat|, current.Some? && current.value == (if byPosition then m else matchCount));
            && Concat(pre + rest) == text[lastIndex..] && WellFormed(pre + rest, pat)
            && (byPosition ==> CurrentByPosition(current, lastIndex, pre + rest))
            && (!byPosition ==> CurrentByOrdinal(current, matchCount, pre + rest))
            && NoStart(Text.Lower(text), pat, lastIndex, pre + rest)
            && Alternates(pre + rest)
  {
    var next := m + |pat|;
    var isCurrent := current.Some? && current.value == (if byPosition then m else matchCount);
    var pre := Round(text, lastIndex, m, next, isCurrent);
    RoundSpells(text, pat, lastIndex, m, isCurrent);
    if byPosition {
      RoundCurrent(text, lastIndex, m, next, current);
    } else {
      RoundOrdinal(text, lastIndex, m, next, current, matchCount);
      OrdinalAppend(current, matchCount, pre, rest);
    }
    Combine(text, pat, current, byPosition, lastIndex, next, pre, rest);
    RoundNoStart(text, pat, lastIndex, m, next, isCurrent);
    NoStartAppend(Text.Lower(text), pat, lastIndex, pre, rest);
    AlternatesAppend(pre, rest);
  }

  /** The loop's properties carry over from one round and the rest of the loop to both. */
  lemma {:induction false} Combine(text: string, pat: string, current: Option<int>, byPosition: bool,
                                    lastIndex: nat, next: nat, pre: seq<Part>, rest: seq<Part>)
    requires lastIndex <= next <= |text|
    requires Concat(pre) == text[lastIndex..next] && WellFormed(pre, pat)
    requires byPosition ==> CurrentByPosition(current, lastIndex, pre)
    requires Concat(rest) == text[next..] && WellFormed(rest, pat)
    requires byPosition ==> CurrentByPosition(current, next, rest)
    ensures Concat(pre + rest) == text[lastIndex..] && WellFormed(pre + rest, pat)
    ensures byPosition ==> CurrentByPosition(current, lastIndex, pre + rest)
  {
    ConcatAppend(pre, rest);
    SliceSplit(text, lastIndex, next);
    WellFormedAppend(pre, rest, pat);
    if byPosition {
      CurrentAppend(current, lastIndex, pre, rest);
    }
  }

  /** `highlightText`, parameterised by how the current match is recognised. */
  function Highlight(text: string, search: string, current: Option<int>, byPosition: bool): Highlighted {
    if Text.IsBlank(search) then Plain(text)
    else
      var parts := HighlightLoop(text, Text.Lower(search), 0, 0, current, byPosition);
      if parts == [] then Plain(text) else Parts(parts)
  }

  /** `highlightText` as written: the caller passes the current match's character position,
      which is compared with the ordinal of each match part. */
  function HighlightAsWritten(text: string, search: string, current: Option<int>): (r: Highlighted)
    ensures Text.IsBlank(search) ==> r == Plain(text)
    ensures r.Plain? ==> r.text == text && (Text.IsBlank(search) || text == [])
    ensures r.Parts? ==> Concat(r.parts) == text
    ensures r.Parts? ==> WellFormed(r.parts, Text.Lower(search))
    ensures r.Parts? ==> NoStart(Text.Lower(text), Text.Lower(search), 0, r.parts)
    ensures r.Parts? ==> Alternates(r.parts)
    ensures r.Parts? ==> CurrentByOrdinal(current, 0, r.parts)
  {
    Highlight(text, search, current, false)
  }

  /** `highlightText` with the current match recognised by its position. */
  function HighlightText(text: string, search: string, current: Option<int>): (r: Highlighted)
    ensures Text.IsBlank(search) ==> r == Plain(text)
    ensures r.Plain? ==> r.text == text && (Text.IsBlank(search) || text == [])
    ensures r.Parts? ==> Concat(r.parts) == text
    ensures r.Parts? ==> WellFormed(r.parts, Text.Lower(search))
    ensures r.Parts? ==> NoStart(Text.Lower(text), Text.Lower(search), 0, r.parts)
    ensures r.Parts? ==> Alternates(r.parts)
    ensures r.Parts? ==> CurrentByPosition(current, 0, r.parts)
  {
    Highlight(text, search, current, true)
  }

  /** Leaving a text that contains the term unmarked is not a highlighting: a single plain
      part breaks `NoStart` at the first occurrence. */
  lemma UnmarkedTextIsRejected(text: string, pat: string, p: nat)
    requires pat != [] && Text.OccursAt(Text.Lower(text), pat, p)
    ensures !NoStart(Text.Lower(text), pat, 0, [Part(text, false, false)])
  {
    var parts := [Part(text, false, false)];
    assert parts[..0] == [];
    assert Offset(parts, 0) == 0;
    assert |Text.Lower(text)| == |text|;
    assert p < |text| && Text.OccursAt(Text.Lower(text), pat, p);
  }

  /** The position the view passes for entry `i`: that of the current result when it lies
      in this entry. */
  function CurrentInEntry(results: seq<SearchResult>, currentMatchIndex: nat, i: nat): Option<int> {
    if currentMatchIndex < |results| && results[currentMatchIndex].index == i
    then Some(results[currentMatchIndex].matchIndex as int) else None
  }

  const ExampleEntry: TranscriptEntry := TranscriptEntry("ba a", 0, Agent)

  /** The facts about "ba a" and "a" the example below computes with. */
  lemma ExampleText()
    ensures !Text.IsBlank("a")
    ensures Text.Lower("a") == "a" && Text.Lower("ba a") == "ba a"
    ensures Text.IndexOf("ba a", "a", 0) == 1
    ensures Text.IndexOf("ba a", "a", 2) == 3
    ensures Text.IndexOf("ba a", "a", 4) == -1
  {
    assert !Text.AllSpace("a") by {
      assert !Text.IsSpace("a"[0]);
    }
    assert Text.Lower("a") == "a";
    assert Text.Lower("ba a") == "ba a";
    var lower := "ba a";
    assert !Text.OccursAt(lower, "a", 0) by { assert lower[0..1] != "a"; }
    assert Text.OccursAt(lower, "a", 1) by { assert lower[1..2] == "a"; }
    assert !Text.OccursAt(lower, "a", 2) by { assert lower[2..3] != "a"; }
    assert Text.OccursAt(lower, "a", 3) by { assert lower[3..4] == "a"; }
  }

  /** In "ba a" searched for "a" the results are at positions 1 and 3, and the view passes
      the position 1 of the current (first) result. */
  lemma ExampleSearch()
    ensures SearchResults([ExampleEntry], "a") == [SearchResult(0, ExampleEntry, 1), SearchResult(0, ExampleEntry, 3)]
    ensures CurrentInEntry(SearchResults([ExampleEntry], "a"), 0, 0) == Some(1)
  {
    ExampleText();
    assert MatchPositions("ba a", "a", 4) == [];
    assert MatchPositions("ba a", "a", 2) == [3];
    assert MatchPositions("ba a", "a", 0) == [1, 3];
    assert ResultsFrom([ExampleEntry], "a", 1) == [];
  }

  /** As written, the part marked current is the second match, at position 3: the position 1
      is compared with the ordinals 0 and 1 of the match parts. */
  lemma HighlightMarksWrongMatch()
    ensures HighlightAsWritten("ba a", "a", Some(1)) ==
            Parts([Part("b", false, false), Part("a", true, false), Part(" ", false, false), Part("a", true, true)])
  {
    ExampleText();
    var text := "ba a";
    assert NextFrom(text, "a", 0) == Some(1);
    assert NextFrom(text, "a", 2) == Some(3);
    assert NextFrom(text, "a", 4) == None;
    assert HighlightLoop(text, "a", 4, 2, Some(1), false) == [];
    assert text[0..1] == "b" && text[1..2] == "a" && text[2..3] == " " && text[3..4] == "a";
    assert Round(text, 0, 1, 2, false) == [Part("b", false, false), Part("a", true, false)];
    assert Round(text, 2, 3, 4, true) == [Part(" ", false, false), Part("a", true, true)];
    assert HighlightLoop(text, "a", 2, 1, Some(1), false) == [Part(" ", false, false), Part("a", true, true)];
    assert HighlightLoop(text, "a", 0, 0, Some(1), false) ==
           [Part("b", false, false), Part("a", true, false), Part(" ", false, false), Part("a", true, true)];
  }

  /** Recognising by position marks the first match, the one the current result names. */
  lemma HighlightMarksCurrentMatch()
    ensures HighlightText("ba a", "a", Some(1)) ==
            Parts([Part("b", false, false), Part("a", true, true), Part(" ", false, false), Part("a", true, false)])
  {
    ExampleText();
    var text := "ba a";
    assert NextFrom(text, "a", 0) == Some(1);
    assert NextFrom(text, "a", 2) == Some(3);
    assert NextFrom(text, "a", 4) == None;
    assert HighlightLoop(text, "a", 4, 2, Some(1), true) == [];
    assert text[0..1] == "b" && text[1..2] == "a" && text[2..3] == " " && text[3..4] == "a";
    assert Round(text, 0, 1, 2, true) == [Part("b", false, false), Part("a", true, true)];
    assert Round(text, 2, 3, 4, false) == [Part(" ", false, false), Part("a", true, false)];
    assert HighlightLoop(text, "a", 2, 1, Some(1), true) == [Part(" ", false, false), Part("a", true, false)];
    assert HighlightLoop(text, "a", 0, 0, Some(1), true) ==
           [Part("b", false, false), Part("a", true, true), Part(" ", false, false), Part("a", true, false)];
  }

  /** `handleNextMatch`: on to the next result, wrapping; nothing without results. */
  function NextMatch(current: nat, count: nat): (r: nat)
    ensures count == 0 ==> r == current
    ensures count > 0 ==> r < count
  {
    if count == 0 then current else (current + 1) % count
  }

  /** `handlePrevMatch`: back to the previous result, wrapping; nothing without results. */
  function PrevMatch(current: nat, count: nat): (r: nat)
    ensures count == 0 ==> r == current
    ensures count > 0 ==> r < count
  {
    if count == 0 then current else (current - 1 + count) % count
  }

  /** Within the results, previous undoes next and next undoes previous; from the last result
      next wraps to the first, and from the first previous wraps to the last. */
  lemma MatchCyclingInverts(current: nat, count: nat)
    requires current < count
    ensures PrevMatch(NextMatch(current, count), count) == current
    ensures NextMatch(PrevMatch(current, count), count) == current
    ensures current == count - 1 ==> NextMatch(current, count) == 0
    ensures current == 0 ==> PrevMatch(current, count) == count - 1
  {
    ModSmall(count - 1, count);
    ModSelf(count);
    if current + 1 < count {
      ModSmall(current + 1, count);
      ModAddOnce(current, count);
    }
    if current > 0 {
      ModAddOnce(current - 1, count);
      ModSmall(current, count);
    }
  }

  lemma ModSmall(x: int, n: int)
    requires 0 <= x < n
    ensures x % n == x
  {
  }

  lemma ModAddOnce(x: int, n: int)
    requires 0 <= x < n
    ensures (x + n) % n == x
  {
  }

  lemma ModSelf(n: int)
    requires n > 0
    ensures n % n == 0
  {
  }

  /** The current result and the focused entry. */
  datatype Nav = Nav(currentMatch: nat, focused: Option<nat>)

  /** The window key handler. */
  function KeyDown(st: Nav, key: string, transcriptLength: nat, searchTerm: string, resultCount: nat): (r: Nav)
    ensures transcriptLength == 0 || key !in {"ArrowUp", "ArrowDown"} ==> r == st
    ensures transcriptLength > 0 && key in {"ArrowUp", "ArrowDown"} && !Text.IsBlank(searchTerm) && resultCount > 0 ==>
              r.focused == st.focused
              && r.currentMatch == (if key == "ArrowDown" then NextMatch(st.currentMatch, resultCount) else PrevMatch(st.currentMatch, resultCount))
    ensures transcriptLength > 0 && key in {"ArrowUp", "ArrowDown"} && !(!Text.IsBlank(searchTerm) && resultCount > 0) ==>
              r.currentMatch == st.currentMatch
  {
    if transcriptLength == 0 || key !in {"ArrowUp", "ArrowDown"} then st
    else if !Text.IsBlank(searchTerm) && resultCount > 0 then
      if key == "ArrowDown" then st.(currentMatch := NextMatch(st.currentMatch, resultCount))
      else st.(currentMatch := PrevMatch(st.currentMatch, resultCount))
    else
      var next := match st.focused
        case None => if key == "ArrowDown" then 0 else transcriptLength - 1
        case Some(prev) =>
          if key == "ArrowDown" then (if prev < transcriptLength - 1 then prev + 1 else prev)
          else (if prev > 0 then prev - 1 else prev);
      st.(focused := Some(next))
  }

  predicate FocusInRange(st: Nav, transcriptLength: nat) {
    st.focused.None? || st.focused.value < transcriptLength
  }

  /** Without a search, Down from no focus goes to the first entry and Up to the last; after
      that each key moves one entry, stopping at either end, so focus stays on an entry. */
  lemma FocusNavigation(st: Nav, transcriptLength: nat, searchTerm: string, resultCount: nat)
    requires transcriptLength > 0 && FocusInRange(st, transcriptLength)
    requires Text.IsBlank(searchTerm) || resultCount == 0
    ensures var down := KeyDown(st, "ArrowDown", transcriptLength, searchTerm, resultCount);
            var up := KeyDown(st, "ArrowUp", transcriptLength, searchTerm, resultCount);
            && FocusInRange(down, transcriptLength) && FocusInRange(up, transcriptLength)
            && (st.focused.None? ==> down.focused == Some(0) && up.focused == Some(transcriptLength - 1))
            && (st.focused.Some? ==>
                  && down.focused == Some(if st.focused.value + 1 < transcriptLength then st.focused.value + 1 else st.focused.value)
                  && up.focused == Some(if st.focused.value > 0 then st.focused.value - 1 else 0))
  {
  }

  /** The effect on a search change: a non-blank search clears the focus. The current match
      index is not reset. */
  function SearchChanged(st: Nav, searchTerm: string): (r: Nav)
    ensures r.currentMatch == st.currentMatch
    ensures !Text.IsBlank(searchTerm) ==> r.focused == None
    ensures Text.IsBlank(searchTerm) ==> r == st
  {
    if !Text.IsBlank(searchTerm) then st.(focused := None) else st
  }

  /** `estimateSize` for row `index`: 60 for a missing entry, otherwise 50 plus 20 per started
      hundred characters, at least 60. */
  function EstimateSize(transcript: seq<TranscriptEntry>, index: int): (r: nat)
    ensures r >= 60
    ensures !(0 <= index < |transcript|) ==> r == 60
  {
    if !(0 <= index < |transcript|) then 60
    else
      var textLength := |transcript[index].text|;
      var estimate := 50 + (textLength + 99) / 100 * 20;
      if estimate > 60 then estimate else 60
  }

  /** An entry of `c` started hundreds (more than `100 (c - 1)` and at most `100 c`
      characters) is estimated at `50 + 20 c`; an empty one at 60. */
  lemma EstimateSizeBands(transcript: seq<TranscriptEntry>, index: nat, c: nat)
    requires index < |transcript|
    requires 100 * (c - 1) < |transcript[index].text| <= 100 * c
    ensures EstimateSize(transcript, index) == if c == 0 then 60 else 50 + 20 * c
  {
    var len := |transcript[index].text|;
    if c > 0 {
      assert (len + 99) / 100 == c by {
        assert 100 * c <= len + 99 < 100 * (c + 1);
      }
    }
  }

  /** "{m}:{ss}". */
  function ClockText(m: nat, s: nat): string {
    Text.NatToString(m) + ":" + Text.PadStart2(Text.NatToString(s))
  }

  /** `formatTime` for a whole number of seconds. */
  function FormatTime(seconds: nat): string {
    ClockText(seconds / 60, seconds % 60)
  }

  /** `m` minutes and `s` seconds read "{m}:{ss}", and the two-digit seconds field reads back
      as `s`. */
  lemma FormatTimeReads(m: nat, s: nat)
    requires s < 60
    ensures FormatTime(60 * m + s) == ClockText(m, s)
    ensures |Text.PadStart2(Text.NatToString(s))| == 2
    ensures Text.DigitsValue(Text.PadStart2(Text.NatToString(s))) == s
  {
    assert (60 * m + s) / 60 == m && (60 * m + s) % 60 == s;
    var padded := Text.PadStart2(Text.NatToString(s));
    Text.NatToStringRoundTrip(s);
    if s < 10 {
      assert padded == ['0', Text.Digit(s)];
      assert padded[..1] == ['0'];
      assert Text.DigitsValue(['0']) == 0 by {
        assert ['0'][..0] == [];
      }
    }
  }
}
