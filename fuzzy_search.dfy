/** The fuzzy matcher of js/fuzzy-search.js: a case-insensitive subsequence
    test (`match`), a positional score where lower is better (`score`), and
    a search that keeps the matching items and orders them by score with a
    stable sort (`search`). */
module FuzzySearch {
  import opened Wrappers
  import opened Seqs
  import opened Text

  /** A score. `Infinite` is the source's `Infinity`, returned for "no match". */
  datatype Rank = Finite(value: nat) | Infinite

  /** The order the search's comparator `scoreA - scoreB` sorts by. */
  predicate AtMost(a: Rank, b: Rank)
  {
    match b
    case Infinite => true
    case Finite(y) => a.Finite? && a.value <= y
  }

  /** Adds a finite penalty to a score; `Infinity` absorbs it. */
  function Plus(n: nat, r: Rank): Rank
  {
    if r.Finite? then Finite(n + r.value) else Infinite
  }

  // ------------------------------------------------------------------
  // match

  /** The greedy matching of `p` in `s` from position `from`: each
      character of `p` is taken at its first occurrence after the previous
      one. `None` when some character cannot be found. */
  function Positions(p: string, s: string, from: nat): Option<seq<nat>>
    decreases |p|
  {
    if p == [] then Some([])
    else match IndexOf(s, p[0], from)
      case None => None
      case Some(i) =>
        match Positions(p[1..], s, i + 1)
        case None => None
        case Some(rest) => Some([i] + rest)
  }

  /** What the greedy matching finds is a matching: increasing positions,
      from `from` on, holding the characters of `p` in order. */
  lemma {:induction false} PositionsEmbed(p: string, s: string, from: nat)
    requires Positions(p, s, from).Some?
    ensures Embeds(p, s, Positions(p, s, from).value, from)
    decreases |p|
  {
    if p != [] {
      var i := IndexOf(s, p[0], from).value;
      PositionsEmbed(p[1..], s, i + 1);
      var rest := Positions(p[1..], s, i + 1).value;
      var r := Positions(p, s, from).value;
      assert r == [i] + rest;
      forall k | 0 < k < |r|
        ensures i + 1 <= r[k] < |s| && s[r[k]] == p[k]
      {
        assert r[k] == rest[k - 1] && p[k] == p[1..][k - 1];
      }
    }
  }

  /** The greedy matching succeeds whenever any matching exists, and each
      position it picks is the leftmost possible. */
  lemma {:induction false} PositionsAreLeftmost(p: string, s: string, from: nat, idx: seq<nat>)
    requires Embeds(p, s, idx, from)
    ensures Positions(p, s, from).Some? && |Positions(p, s, from).value| == |p|
    ensures forall k :: 0 <= k < |p| ==> Positions(p, s, from).value[k] <= idx[k]
    decreases |p|
  {
    if p != [] {
      var first := IndexOf(s, p[0], from);
      assert s[idx[0]] == p[0];
      var i := first.value;
      assert i <= idx[0];
      assert Embeds(p[1..], s, idx[1..], i + 1);
      PositionsAreLeftmost(p[1..], s, i + 1, idx[1..]);
    }
    PositionsEmbed(p, s, from);
  }

  /** What `fuzzySearch.match(needle, haystack)` returns. */
  predicate Matches(needle: string, haystack: string)
  {
    needle != [] && haystack != [] && Positions(Lower(needle), Lower(haystack), 0).Some?
  }

  /** `match` is exactly the case-insensitive subsequence test, false for
      an empty needle or haystack. */
  lemma MatchesIffSubsequence(needle: string, haystack: string)
    ensures Matches(needle, haystack) <==>
      needle != [] && haystack != [] && IsSubsequence(Lower(needle), Lower(haystack))
  {
    var nl, hl := Lower(needle), Lower(haystack);
    if IsSubsequence(nl, hl) {
      var idx :| Embeds(nl, hl, idx, 0);
      PositionsAreLeftmost(nl, hl, 0, idx);
    }
    if Positions(nl, hl, 0).Some? {
      PositionsEmbed(nl, hl, 0);
    }
  }

  /** One step of the two-cursor scan: a character of the haystack equal
      to the next needle character is consumed by it; any other character
      is skipped without changing the outcome. */
  lemma PositionsStep(p: string, s: string, n: nat, h: nat)
    requires n < |p| && h < |s|
    ensures p[n] == s[h] ==> Positions(p[n..], s, h).Some? == Positions(p[n + 1..], s, h + 1).Some?
    ensures p[n] != s[h] ==> Positions(p[n..], s, h) == Positions(p[n..], s, h + 1)
  {
    var q := p[n..];
    assert q != [] && q[0] == p[n];
    if p[n] != s[h] {
      assert IndexOf(s, q[0], h) == IndexOf(s, q[0], h + 1);
    } else {
      assert IndexOf(s, q[0], h) == Some(h);
      assert q[1..] == p[n + 1..];
    }
  }

  /** The two cursors over already-lowercased strings. */
  method Scan(p: string, s: string) returns (found: bool)
    ensures found == Positions(p, s, 0).Some?
  {
    var n, h := 0, 0;
    assert p[0..] == p;
    while n < |p| && h < |s|
      invariant 0 <= n <= |p| && 0 <= h <= |s|
      invariant Positions(p[n..], s, h).Some? == Positions(p, s, 0).Some?
    {
      PositionsStep(p, s, n, h);
      if p[n] == s[h] {
        n := n + 1;
      }
      h := h + 1;
    }
    if n < |p| {
      assert IndexOf(s, p[n..][0], h) == None;
    }
    found := n == |p|;
  }

  /** `fuzzySearch.match`: false for an empty needle or haystack, otherwise
      the two-cursor scan of the lowercased strings, the needle's cursor
      advancing only on a matching character. */
  method Match(needle: string, haystack: string) returns (found: bool)
    ensures found == Matches(needle, haystack)
    ensures needle == [] || haystack == [] ==> !found
  {
    if needle == [] || haystack == [] {
      return false;
    }
    found := Scan(Lower(needle), Lower(haystack));
  }

  // ------------------------------------------------------------------
  // score

  /** The gap sum the score loop accumulates for the rest `p` of the needle,
      `last` being the previous match position (`-1` before the first). */
  function GapCost(p: string, s: string, last: int): Rank
    requires -1 <= last
    decreases |p|
  {
    if p == [] then Finite(0)
    else match IndexOf(s, p[0], last + 1)
      case None => Infinite
      case Some(i) =>
        var lead := if last == -1 && i > 0 then 2 * i else 0;
        Plus(i - last - 1 + lead, GapCost(p[1..], s, i))
  }

  /** What `fuzzySearch.score(needle, haystack)` returns. */
  function ScoreOf(needle: string, haystack: string): Rank
  {
    if needle == [] || haystack == [] then Infinite
    else
      var nl, hl := Lower(needle), Lower(haystack);
      if StartsWith(hl, nl) then Finite(0)
      else if Contains(hl, nl) then Finite(1)
      else GapCost(nl, hl, -1)
  }

  /** `fuzzySearch.score`. */
  method Score(needle: string, haystack: string) returns (r: Rank)
    ensures r == ScoreOf(needle, haystack)
  {
    if needle == [] || haystack == [] {
      return Infinite;
    }
    var nl, hl := Lower(needle), Lower(haystack);
    if StartsWith(hl, nl) {
      return Finite(0);
    }
    if Contains(hl, nl) {
      return Finite(1);
    }
    var score: nat, lastIndex: int := 0, -1;
    assert nl[0..] == nl;
    for i := 0 to |nl|
      invariant -1 <= lastIndex
      invariant GapCost(nl, hl, -1) == Plus(score, GapCost(nl[i..], hl, lastIndex))
    {
      assert nl[i..][1..] == nl[i + 1..];
      var index := IndexOf(hl, nl[i], lastIndex + 1);
      if index.None? {
        return Infinite;
      }
      score := score + (index.value - lastIndex - 1);
      if lastIndex == -1 && index.value > 0 {
        score := score + index.value * 2;
      }
      lastIndex := index.value;
    }
    return Finite(score);
  }

  /** The gaps between consecutive positions: the characters skipped after
      the first match. */
  function InnerGaps(P: seq<nat>): int
  {
    if |P| <= 1 then 0 else P[1] - P[0] - 1 + InnerGaps(P[1..])
  }

  /** The gap sum is finite exactly when the greedy matching exists, and is
      then the leading gap (counted three times at the start of the needle)
      plus the characters skipped between matches. */
  lemma {:induction false} GapCostClosedForm(p: string, s: string, last: int)
    requires -1 <= last
    ensures GapCost(p, s, last).Finite? <==> Positions(p, s, last + 1).Some?
    ensures p != [] && Positions(p, s, last + 1).Some? ==>
      var P := Positions(p, s, last + 1).value;
      GapCost(p, s, last).value ==
        P[0] - last - 1 + (if last == -1 then 2 * P[0] else 0) + InnerGaps(P)
    decreases |p|
  {
    if p != [] {
      match IndexOf(s, p[0], last + 1)
      case None =>
      case Some(i) =>
        GapCostClosedForm(p[1..], s, i);
        match Positions(p[1..], s, i + 1)
        case None =>
        case Some(rest) =>
          assert ([i] + rest)[1..] == rest;
    }
  }

  /** A gap sum of zero means the rest of the needle sits right after `last`. */
  lemma {:induction false} GapCostZeroIsAdjacent(p: string, s: string, last: int)
    requires -1 <= last < |s|
    requires GapCost(p, s, last) == Finite(0)
    ensures last + 1 + |p| <= |s| && s[last + 1..last + 1 + |p|] == p
    decreases |p|
  {
    if p != [] {
      var i := IndexOf(s, p[0], last + 1).value;
      var lead := if last == -1 && i > 0 then 2 * i else 0;
      assert GapCost(p, s, last) == Plus(i - last - 1 + lead, GapCost(p[1..], s, i));
      assert i == last + 1;
      GapCostZeroIsAdjacent(p[1..], s, i);
      assert s[last + 1..last + 1 + |p|] == [s[i]] + s[i + 1..i + 1 + |p[1..]|];
      assert p == [p[0]] + p[1..];
    }
  }

  /** The score's cases: `Infinity` for an empty needle or haystack, 0 for
      a prefix, 1 for a substring elsewhere, and otherwise three times the
      leading gap plus the characters skipped between the greedy matches
      (`Infinity` when some character is missing). */
  lemma ScoreCases(needle: string, haystack: string)
    ensures needle == [] || haystack == [] ==> ScoreOf(needle, haystack) == Infinite
    ensures needle != [] && haystack != [] && StartsWith(Lower(haystack), Lower(needle)) ==>
      ScoreOf(needle, haystack) == Finite(0)
    ensures (needle != [] && haystack != [] && !StartsWith(Lower(haystack), Lower(needle))
      && Contains(Lower(haystack), Lower(needle))) ==>
      ScoreOf(needle, haystack) == Finite(1)
    ensures needle != [] && haystack != [] && !Contains(Lower(haystack), Lower(needle)) ==>
      match Positions(Lower(needle), Lower(haystack), 0)
      case None => ScoreOf(needle, haystack) == Infinite
      case Some(P) =>
        ScoreOf(needle, haystack).Finite? && ScoreOf(needle, haystack).value == 3 * P[0] + InnerGaps(P)
  {
    if needle != [] && haystack != [] {
      GapCostClosedForm(Lower(needle), Lower(haystack), -1);
    }
  }

  /** The score is finite exactly when `match` holds. */
  lemma ScoreFiniteIffMatches(needle: string, haystack: string)
    ensures ScoreOf(needle, haystack).Finite? <==> Matches(needle, haystack)
  {
    if needle != [] && haystack != [] {
      var nl, hl := Lower(needle), Lower(haystack);
      if Contains(hl, nl) {
        var i := ContainsAt(hl, nl);
        var idx := seq(|nl|, k requires 0 <= k < |nl| => i + k);
        forall k | 0 <= k < |nl|
          ensures hl[idx[k]] == nl[k]
        {
          assert hl[i + k] == hl[i..i + |nl|][k];
        }
        assert Embeds(nl, hl, idx, 0);
        PositionsAreLeftmost(nl, hl, 0, idx);
      } else {
        GapCostClosedForm(nl, hl, -1);
      }
    }
  }

  /** A score of 0 means a prefix match, and only that. */
  lemma ScoreZeroIffPrefix(needle: string, haystack: string)
    ensures ScoreOf(needle, haystack) == Finite(0) <==>
      needle != [] && haystack != [] && StartsWith(Lower(haystack), Lower(needle))
  {
    if needle != [] && haystack != [] {
      var nl, hl := Lower(needle), Lower(haystack);
      if !Contains(hl, nl) && GapCost(nl, hl, -1) == Finite(0) {
        GapCostZeroIsAdjacent(nl, hl, -1);
      }
    }
  }

  // ------------------------------------------------------------------
  // search

  /** The filter predicate of `search`: `match(query, getSearchableText(item))`. */
  function MatchesQuery<T>(query: string, text: T -> string): T -> bool
  {
    x => Matches(query, text(x))
  }

  /** The sort key of `search`: `score(query, getSearchableText(item))`. */
  function ScoreKey<T>(query: string, text: T -> string): T -> Rank
  {
    x => ScoreOf(query, text(x))
  }

  /** The items `search` keeps, in input order. */
  function Matching<T(!new)>(query: string, items: seq<T>, text: T -> string): seq<T>
  {
    Filter(items, MatchesQuery(query, text))
  }

  predicate SortedBy<T>(xs: seq<T>, key: T -> Rank)
  {
    forall i, j :: 0 <= i < j < |xs| ==> AtMost(key(xs[i]), key(xs[j]))
  }

  /** The elements of `xs` whose key is `v`, in their order. */
  function WithRank<T>(xs: seq<T>, key: T -> Rank, v: Rank): seq<T>
  {
    if xs == [] then []
    else (if key(xs[0]) == v then [xs[0]] else []) + WithRank(xs[1..], key, v)
  }

  /** Inserts `x` before the first element that does not rank strictly
      better, so that earlier elements stay ahead among equals. */
  function InsertByRank<T>(x: T, s: seq<T>, key: T -> Rank): (r: seq<T>)
    ensures |r| == |s| + 1
  {
    if s == [] then [x]
    else if AtMost(key(x), key(s[0])) then [x] + s
    else [s[0]] + InsertByRank(x, s[1..], key)
  }

  lemma {:induction false} InsertByRankPermutes<T>(x: T, s: seq<T>, key: T -> Rank)
    ensures multiset(InsertByRank(x, s, key)) == multiset(s) + multiset{x}
  {
    if s != [] && !AtMost(key(x), key(s[0])) {
      InsertByRankPermutes(x, s[1..], key);
      assert s == [s[0]] + s[1..];
    }
  }

  /** The stable sort `Array.prototype.sort` performs with the comparator
      `scoreA - scoreB` (stability is required by ECMAScript 2019,
      section 22.1.3.27), written as an insertion sort. */
  function SortByRank<T>(xs: seq<T>, key: T -> Rank): (r: seq<T>)
    ensures |r| == |xs|
  {
    if xs == [] then []
    else InsertByRank(xs[0], SortByRank(xs[1..], key), key)
  }

  /** A lower bound of `x` and of every element of `s` bounds the result. */
  lemma {:induction false} InsertByRankBounded<T>(x: T, s: seq<T>, key: T -> Rank, lo: Rank)
    requires AtMost(lo, key(x))
    requires forall k :: 0 <= k < |s| ==> AtMost(lo, key(s[k]))
    ensures forall k :: 0 <= k < |s| + 1 ==> AtMost(lo, key(InsertByRank(x, s, key)[k]))
  {
    if s != [] && !AtMost(key(x), key(s[0])) {
      InsertByRankBounded(x, s[1..], key, lo);
      var r := InsertByRank(x, s, key);
      forall k | 0 < k < |s| + 1
        ensures AtMost(lo, key(r[k]))
      {
        assert r[k] == InsertByRank(x, s[1..], key)[k - 1];
      }
    }
  }

  lemma {:induction false} InsertByRankSorted<T>(x: T, s: seq<T>, key: T -> Rank)
    requires SortedBy(s, key)
    ensures SortedBy(InsertByRank(x, s, key), key)
  {
    if s != [] && !AtMost(key(x), key(s[0])) {
      var tail := InsertByRank(x, s[1..], key);
      InsertByRankSorted(x, s[1..], key);
      assert forall k :: 0 <= k < |s[1..]| ==> s[1..][k] == s[k + 1];
      InsertByRankBounded(x, s[1..], key, key(s[0]));
      var r := [s[0]] + tail;
      forall i, j | 0 <= i < j < |r|
        ensures AtMost(key(r[i]), key(r[j]))
      {
        if i == 0 {
          assert r[j] == tail[j - 1];
        } else {
          assert r[i] == tail[i - 1] && r[j] == tail[j - 1];
        }
      }
    }
  }

  lemma WithRankCons<T>(y: T, t: seq<T>, key: T -> Rank, v: Rank)
    ensures WithRank([y] + t, key, v) == (if key(y) == v then [y] else []) + WithRank(t, key, v)
  {
    assert ([y] + t)[1..] == t;
  }

  lemma {:induction false} InsertByRankStable<T>(x: T, s: seq<T>, key: T -> Rank, v: Rank)
    ensures WithRank(InsertByRank(x, s, key), key, v) ==
      (if key(x) == v then [x] else []) + WithRank(s, key, v)
  {
    if s == [] {
      WithRankCons(x, [], key, v);
      assert [x] + [] == [x];
    } else if AtMost(key(x), key(s[0])) {
      WithRankCons(x, s, key, v);
    } else {
      var tail := InsertByRank(x, s[1..], key);
      var A := if key(s[0]) == v then [s[0]] else [];
      var X := if key(x) == v then [x] else [];
      assert A == [] || X == [] by {
        assert key(s[0]) != key(x);
      }
      calc {
        WithRank(InsertByRank(x, s, key), key, v);
        WithRank([s[0]] + tail, key, v);
        { WithRankCons(s[0], tail, key, v); }
        A + WithRank(tail, key, v);
        { InsertByRankStable(x, s[1..], key, v); }
        A + (X + WithRank(s[1..], key, v));
        X + (A + WithRank(s[1..], key, v));
        { WithRankCons(s[0], s[1..], key, v); assert s == [s[0]] + s[1..]; }
        X + WithRank(s, key, v);
      }
    }
  }

  /** The sort returns a permutation of its input, in non-decreasing rank
      order, keeping the input order among elements of equal rank. */
  lemma {:induction false} SortByRankSortedAndStable<T>(xs: seq<T>, key: T -> Rank, v: Rank)
    ensures multiset(SortByRank(xs, key)) == multiset(xs)
    ensures SortedBy(SortByRank(xs, key), key)
    ensures WithRank(SortByRank(xs, key), key, v) == WithRank(xs, key, v)
  {
    if xs != [] {
      SortByRankSortedAndStable(xs[1..], key, v);
      InsertByRankPermutes(xs[0], SortByRank(xs[1..], key), key);
      InsertByRankSorted(xs[0], SortByRank(xs[1..], key), key);
      InsertByRankStable(xs[0], SortByRank(xs[1..], key), key, v);
      assert xs == [xs[0]] + xs[1..];
    }
  }

  /** `fuzzySearch.search(query, items, getSearchableText)`. */
  function Search<T(!new)>(query: string, items: seq<T>, text: T -> string): (r: seq<T>)
    ensures query == [] || items == [] ==> r == []
  {
    if query == [] || items == [] then []
    else SortByRank(Matching(query, items, text), ScoreKey(query, text))
  }

  /** The results are a permutation of exactly the items that match. */
  lemma SearchPermutesMatches<T(!new)>(query: string, items: seq<T>, text: T -> string)
    ensures multiset(Search(query, items, text)) == multiset(Matching(query, items, text))
    ensures forall x :: x in Search(query, items, text) <==> x in items && Matches(query, text(x))
  {
    FilterContents(items, MatchesQuery(query, text));
    if query == [] || items == [] {
      assert Matching(query, items, text) == [];
    } else {
      SortByRankSortedAndStable(Matching(query, items, text), ScoreKey(query, text), Infinite);
    }
    var r := Search(query, items, text);
    forall x
      ensures x in r <==> x in items && Matches(query, text(x))
    {
      assert x in r <==> x in multiset(r);
    }
  }

  /** The results are in non-decreasing score order, and every score is finite. */
  lemma SearchSortedByScore<T(!new)>(query: string, items: seq<T>, text: T -> string)
    ensures forall i, j :: 0 <= i < j < |Search(query, items, text)| ==>
      AtMost(ScoreOf(query, text(Search(query, items, text)[i])), ScoreOf(query, text(Search(query, items, text)[j])))
    ensures forall x :: x in Search(query, items, text) ==> ScoreOf(query, text(x)).Finite?
  {
    var r := Search(query, items, text);
    if query != [] && items != [] {
      SortByRankSortedAndStable(Matching(query, items, text), ScoreKey(query, text), Infinite);
    }
    SearchPermutesMatches(query, items, text);
    forall x | x in r
      ensures ScoreOf(query, text(x)).Finite?
    {
      ScoreFiniteIffMatches(query, text(x));
    }
  }

  /** Among results of equal score, the input order is kept. */
  lemma SearchStable<T(!new)>(query: string, items: seq<T>, text: T -> string, v: Rank)
    ensures WithRank(Search(query, items, text), ScoreKey(query, text), v) ==
            WithRank(Matching(query, items, text), ScoreKey(query, text), v)
  {
    if query != [] && items != [] {
      SortByRankSortedAndStable(Matching(query, items, text), ScoreKey(query, text), v);
    } else {
      FilterContents(items, MatchesQuery(query, text));
      assert Matching(query, items, text) == [];
    }
  }

  // ------------------------------------------------------------------
  // worked examples

  /** A prefix scores 0, whatever the case of the haystack. */
  lemma ExamplePrefix()
    ensures ScoreOf("ab", "Abc") == Finite(0)
  {
    assert Lower("ab") == "ab" && Lower("Abc") == "abc";
  }

  /** An inner substring scores 1. */
  lemma ExampleSubstring()
    ensures ScoreOf("bc", "abc") == Finite(1)
  {
    assert Lower("bc") == "bc" && Lower("abc") == "abc";
    assert !StartsWith("abc", "bc") by {
      assert "abc"[..2][0] != "bc"[0];
    }
    assert "abc"[1..] == "bc";
  }

  /** A scattered match scores its gaps, the leading gap three times: one
      skipped character before "a", counted three times, and one between
      "a" and "c". */
  lemma ExampleScattered()
    ensures ScoreOf("ac", "xabc") == Finite(4)
  {
    var hl := "xabc";
    assert Lower("ac") == "ac" && Lower("xabc") == hl;
    assert !Contains(hl, "ac") by {
      assert hl[1..] == "abc" && hl[2..] == "bc" && hl[3..] == "c" && hl[4..] == [];
      assert hl[..2][0] != 'a' && hl[1..][..2][1] != 'c' && hl[2..][..2][0] != 'a';
      assert hl[1..][1..] == hl[2..] && hl[2..][1..] == hl[3..] && hl[3..][1..] == hl[4..];
    }
    assert IndexOf(hl, 'a', 0) == Some(1);
    assert IndexOf(hl, 'c', 2) == Some(3);
    assert "ac"[1..] == "c" && "c"[1..] == [];
  }

  /** `match` is a subsequence test, not a substring test, and respects order. */
  lemma ExampleSubsequence()
    ensures Matches("abc", "xaxbxc")
    ensures !Matches("abc", "acb")
  {
    assert Lower("abc") == "abc";
    assert Lower("xaxbxc") == "xaxbxc";
    assert Lower("acb") == "acb";
    assert "abc"[1..] == "bc" && "bc"[1..] == "c" && "c"[1..] == [];
    assert IndexOf("xaxbxc", 'a', 0) == Some(1);
    assert IndexOf("xaxbxc", 'b', 2) == Some(3);
    assert IndexOf("xaxbxc", 'c', 4) == Some(5);
    assert IndexOf("acb", 'a', 0) == Some(0);
    assert IndexOf("acb", 'b', 1) == Some(2);
    assert IndexOf("acb", 'c', 3) == None;
  }
}
