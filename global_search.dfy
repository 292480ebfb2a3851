/** The global-search overlay of js/global-search.js: double-Shift opens it,
    typing searches every saved item across all collections with the fuzzy
    matcher, and the arrow keys move a clamped selection. The DOM work
    (popup, backdrop, result rendering, focus, animations) is left out; the
    clock is passed in as `now`. */
module GlobalSearch {
  import opened Wrappers
  import opened Text
  import opened FuzzySearch
  import opened Collections

  /** The keys the handlers tell apart. */
  datatype Key = Shift | Escape | ArrowDown | ArrowUp | Enter | OtherKey

  /** An item tagged with the collection that holds it:
      `{ ...item, collectionId, collectionName }`. */
  datatype SearchItem = SearchItem(item: Item, collectionId: string, collectionName: string)

  /** Two Shift presses closer together than this many milliseconds open the search. */
  const DoublePressWindow := 500

  /** The text each item is searched by: its title and URL joined by a space. */
  function SearchText(x: SearchItem): string
  {
    x.item.title + " " + x.item.url
  }

  function Tagged(c: Collection): (r: seq<SearchItem>)
    ensures |r| == |c.items|
    ensures forall k :: 0 <= k < |r| ==> r[k] == SearchItem(c.items[k], c.id, c.name)
  {
    seq(|c.items|, k requires 0 <= k < |c.items| => SearchItem(c.items[k], c.id, c.name))
  }

  /** Every item of every collection, collection by collection, each tagged
      with its owner. */
  function Flattened(cs: seq<Collection>): seq<SearchItem>
  {
    if cs == [] then [] else Flattened(cs[..|cs| - 1]) + Tagged(cs[|cs| - 1])
  }

  /** The number of items over all collections. */
  function TotalItems(cs: seq<Collection>): nat
  {
    if cs == [] then 0 else TotalItems(cs[..|cs| - 1]) + |cs[|cs| - 1].items|
  }

  /** The `forEach`/`push` loop of `handleSearch` that builds `allItems`. */
  method FlattenItems(cs: seq<Collection>) returns (all: seq<SearchItem>)
    ensures all == Flattened(cs)
  {
    all := [];
    var j := 0;
    while j < |cs|
      invariant 0 <= j <= |cs|
      invariant all == Flattened(cs[..j])
    {
      var c := cs[j];
      var k := 0;
      while k < |c.items|
        invariant 0 <= k <= |c.items|
        invariant all == Flattened(cs[..j]) + Tagged(c)[..k]
      {
        assert Tagged(c)[..k + 1] == Tagged(c)[..k] + [SearchItem(c.items[k], c.id, c.name)];
        all := all + [SearchItem(c.items[k], c.id, c.name)];
        k := k + 1;
      }
      assert cs[..j + 1][..j] == cs[..j];
      assert Tagged(c)[..k] == Tagged(c);
      j := j + 1;
    }
    assert cs[..j] == cs;
  }

  /** The flattened list has one entry per item. */
  lemma {:induction false} FlattenedLength(cs: seq<Collection>)
    ensures |Flattened(cs)| == TotalItems(cs)
  {
    if cs != [] {
      FlattenedLength(cs[..|cs| - 1]);
    }
  }

  /** Item `k` of collection `j` sits, tagged with that collection, after
      every item of the collections before it: collection order first, then
      item order. */
  lemma {:induction false} FlattenedAt(cs: seq<Collection>, j: nat, k: nat)
    requires j < |cs| && k < |cs[j].items|
    ensures TotalItems(cs[..j]) + k < |Flattened(cs)|
    ensures Flattened(cs)[TotalItems(cs[..j]) + k] == SearchItem(cs[j].items[k], cs[j].id, cs[j].name)
  {
    var init := cs[..|cs| - 1];
    FlattenedLength(init);
    if j == |cs| - 1 {
      assert cs[..j] == init;
    } else {
      assert init[..j] == cs[..j];
      FlattenedAt(init, j, k);
    }
  }

  /** `x` is an item of one of the collections, tagged with that collection's
      id and name. */
  ghost predicate OwnedBy(x: SearchItem, cs: seq<Collection>)
  {
    exists j :: 0 <= j < |cs| && x.item in cs[j].items && x.collectionId == cs[j].id && x.collectionName == cs[j].name
  }

  /** Every entry of the flattened list is an item of some collection,
      tagged with that collection. */
  lemma {:induction false} FlattenedFromOwners(cs: seq<Collection>)
    ensures forall i :: 0 <= i < |Flattened(cs)| ==> OwnedBy(Flattened(cs)[i], cs)
  {
    if cs != [] {
      var init, last := cs[..|cs| - 1], cs[|cs| - 1];
      FlattenedFromOwners(init);
      var f, g := Flattened(init), Tagged(last);
      assert Flattened(cs) == f + g;
      forall i | 0 <= i < |f| + |g|
        ensures OwnedBy((f + g)[i], cs)
      {
        if i < |f| {
          var x := f[i];
          assert (f + g)[i] == x && OwnedBy(x, init);
          var j :| 0 <= j < |init| && x.item in init[j].items && x.collectionId == init[j].id && x.collectionName == init[j].name;
          assert init[j] == cs[j];
        } else {
          var k := i - |f|;
          assert (f + g)[i] == g[k] == SearchItem(last.items[k], last.id, last.name);
          assert last.items[k] in last.items;
        }
      }
    }
  }

  /** The results of a global search are exactly the saved items whose
      "title url" text matches the query, each tagged with its collection,
      ordered by non-decreasing score. */
  lemma GlobalResults(query: string, cs: seq<Collection>)
    ensures forall x :: x in Search(query, Flattened(cs), SearchText) <==>
      x in Flattened(cs) && Matches(query, SearchText(x))
    ensures forall i, j :: 0 <= i < j < |Search(query, Flattened(cs), SearchText)| ==>
      AtMost(ScoreOf(query, SearchText(Search(query, Flattened(cs), SearchText)[i])),
             ScoreOf(query, SearchText(Search(query, Flattened(cs), SearchText)[j])))
    ensures forall x :: x in Search(query, Flattened(cs), SearchText) ==> OwnedBy(x, cs)
  {
    SearchPermutesMatches(query, Flattened(cs), SearchText);
    SearchSortedByScore(query, Flattened(cs), SearchText);
    FlattenedFromOwners(cs);
    forall x | x in Flattened(cs)
      ensures OwnedBy(x, cs)
    {
      var i :| 0 <= i < |Flattened(cs)| && Flattened(cs)[i] == x;
    }
  }

  /** The object `globalSearch`, less its DOM references. */
  class SearchOverlay {
    var isOpen: bool
    var lastShiftPressTime: int
    var shiftPressCount: nat
    var selectedIndex: int
    var searchResults: seq<SearchItem>

    /** Between events the Shift counter is 0 or 1, and the selection is a
      result when there are results, and 0 or -1 when there are none. */
    predicate Valid()
      reads this
    {
      && shiftPressCount <= 1
      && (searchResults == [] ==> selectedIndex == 0 || selectedIndex == -1)
      && (searchResults != [] ==> 0 <= selectedIndex < |searchResults|)
    }

    constructor ()
      ensures !isOpen && lastShiftPressTime == 0 && shiftPressCount == 0
      ensures selectedIndex == 0 && searchResults == []
      ensures Valid()
    {
      isOpen := false;
      lastShiftPressTime := 0;
      shiftPressCount := 0;
      selectedIndex := 0;
      searchResults := [];
    }

    /** `openSearch`: a no-op when already open; otherwise opens with an
      empty result list and the selection reset. */
    method OpenSearch()
      modifies this
      ensures isOpen
      ensures old(isOpen) ==> unchanged(this)
      ensures !old(isOpen) ==> selectedIndex == 0 && searchResults == []
      ensures shiftPressCount == old(shiftPressCount) && lastShiftPressTime == old(lastShiftPressTime)
      ensures old(Valid()) ==> Valid()
    {
      if isOpen {
        return;
      }
      isOpen := true;
      selectedIndex := 0;
      searchResults := [];
    }

    /** `closeSearch`: a no-op when already closed; otherwise closes and
      clears the results and the selection. */
    method CloseSearch()
      modifies this
      ensures !isOpen
      ensures !old(isOpen) ==> unchanged(this)
      ensures old(isOpen) ==> selectedIndex == 0 && searchResults == []
      ensures shiftPressCount == old(shiftPressCount) && lastShiftPressTime == old(lastShiftPressTime)
      ensures old(Valid()) ==> Valid()
    {
      if !isOpen {
        return;
      }
      isOpen := false;
      selectedIndex := 0;
      searchResults := [];
    }

    /** `handleOutsideClick`: closes the search when it is open. */
    method HandleOutsideClick()
      modifies this
      ensures !isOpen
      ensures !old(isOpen) ==> unchanged(this)
      ensures old(isOpen) ==> selectedIndex == 0 && searchResults == []
      ensures shiftPressCount == old(shiftPressCount) && lastShiftPressTime == old(lastShiftPressTime)
      ensures old(Valid()) ==> Valid()
    {
      if isOpen {
        CloseSearch();
      }
    }

    /** `handleKeyDown` at time `now`: double-Shift detection and Escape. */
    method HandleKeyDown(key: Key, now: int)
      modifies this
      ensures key == Shift ==> lastShiftPressTime == now
      ensures key == Shift && now - old(lastShiftPressTime) < DoublePressWindow && old(shiftPressCount) + 1 == 2 ==>
        && shiftPressCount == 0 && isOpen
        && (!old(isOpen) ==> selectedIndex == 0 && searchResults == [])
        && (old(isOpen) ==> selectedIndex == old(selectedIndex) && searchResults == old(searchResults))
      ensures key == Shift && now - old(lastShiftPressTime) < DoublePressWindow && old(shiftPressCount) + 1 != 2 ==>
        && shiftPressCount == old(shiftPressCount) + 1
        && isOpen == old(isOpen) && selectedIndex == old(selectedIndex) && searchResults == old(searchResults)
      ensures key == Shift && now - old(lastShiftPressTime) >= DoublePressWindow ==>
        && shiftPressCount == 1
        && isOpen == old(isOpen) && selectedIndex == old(selectedIndex) && searchResults == old(searchResults)
      ensures key == Escape ==>
        && !isOpen
        && (old(isOpen) ==> selectedIndex == 0 && searchResults == [])
        && (!old(isOpen) ==> selectedIndex == old(selectedIndex) && searchResults == old(searchResults))
      ensures key != Shift ==> shiftPressCount == old(shiftPressCount) && lastShiftPressTime == old(lastShiftPressTime)
      ensures key != Shift && key != Escape ==> unchanged(this)
      ensures old(Valid()) ==> Valid()
    {
      if key == Shift {
        if now - lastShiftPressTime < DoublePressWindow {
          shiftPressCount := shiftPressCount + 1;
          if shiftPressCount == 2 {
            OpenSearch();
            shiftPressCount := 0;
          }
        } else {
          shiftPressCount := 1;
        }
        lastShiftPressTime := now;
      }
      if key == Escape && isOpen {
        CloseSearch();
      }
    }

    /** The timer that `handleKeyUp` starts on a Shift release, firing at
      time `now`: the counter is cleared only when more than 500 ms have
      passed since the last Shift press. */
    method ShiftTimerFires(now: int)
      modifies this
      ensures now - old(lastShiftPressTime) > DoublePressWindow ==> shiftPressCount == 0
      ensures now - old(lastShiftPressTime) <= DoublePressWindow ==> shiftPressCount == old(shiftPressCount)
      ensures isOpen == old(isOpen) && lastShiftPressTime == old(lastShiftPressTime)
      ensures selectedIndex == old(selectedIndex) && searchResults == old(searchResults)
      ensures old(Valid()) ==> Valid()
    {
      if now - lastShiftPressTime > DoublePressWindow {
        shiftPressCount := 0;
      }
    }

    /** `handleSearch` with the input box holding `input` and the store
      holding `cs`: an empty trimmed query clears the results; otherwise the
      results are the fuzzy search over every saved item, and the first one
      is selected (or -1 when there are none). */
    method HandleSearch(input: string, cs: seq<Collection>)
      modifies this
      ensures Trim(input) == [] ==> searchResults == [] && selectedIndex == 0
      ensures Trim(input) != [] ==>
        && searchResults == Search(Trim(input), Flattened(cs), SearchText)
        && selectedIndex == (if searchResults == [] then -1 else 0)
      ensures isOpen == old(isOpen)
      ensures shiftPressCount == old(shiftPressCount) && lastShiftPressTime == old(lastShiftPressTime)
      ensures old(Valid()) ==> Valid()
    {
      var query := Trim(input);
      if query == [] {
        searchResults := [];
        selectedIndex := 0;
        return;
      }
      var allItems := FlattenItems(cs);
      searchResults := Search(query, allItems, SearchText);
      selectedIndex := if |searchResults| > 0 then 0 else -1;
    }

    /** What `openResult(item)` does to the overlay: for an item with a URL
      it closes the search, at once or when its 150 ms timer fires (this
      step); an item without a URL changes nothing. Opening the URL in a new
      tab is left out. */
    method OpenResult(item: SearchItem)
      modifies this
      ensures item.item.url != [] ==> !isOpen
      ensures item.item.url != [] && old(isOpen) ==> selectedIndex == 0 && searchResults == []
      ensures item.item.url == [] || !old(isOpen) ==> unchanged(this)
      ensures shiftPressCount == old(shiftPressCount) && lastShiftPressTime == old(lastShiftPressTime)
      ensures old(Valid()) ==> Valid()
    {
      if item.item.url != [] {
        CloseSearch();
      }
    }

    /** `handleResultsNavigation`: with no results nothing happens; the
      arrows move the selection one step, clamped to the results; Enter
      returns the selected result to open when the selection is a result. */
    method HandleResultsNavigation(key: Key) returns (chosen: Option<SearchItem>)
      modifies this
      ensures searchResults == old(searchResults) && isOpen == old(isOpen)
      ensures shiftPressCount == old(shiftPressCount) && lastShiftPressTime == old(lastShiftPressTime)
      ensures searchResults == [] ==> selectedIndex == old(selectedIndex) && chosen == None
      ensures searchResults != [] && key == ArrowDown ==>
        selectedIndex == (if old(selectedIndex) + 1 < |searchResults| - 1 then old(selectedIndex) + 1 else |searchResults| - 1)
      ensures searchResults != [] && key == ArrowUp ==>
        selectedIndex == (if old(selectedIndex) - 1 > 0 then old(selectedIndex) - 1 else 0)
      ensures key != ArrowDown && key != ArrowUp ==> selectedIndex == old(selectedIndex)
      ensures chosen.Some? <==> key == Enter && 0 <= selectedIndex < |searchResults|
      ensures chosen.Some? ==> chosen.value == searchResults[selectedIndex]
      ensures old(Valid()) ==> Valid()
      ensures old(Valid()) && searchResults != [] ==> 0 <= selectedIndex < |searchResults|
    {
      chosen := None;
      if |searchResults| == 0 {
        return;
      }
      match key {
        case ArrowDown =>
          selectedIndex := if selectedIndex + 1 < |searchResults| - 1 then selectedIndex + 1 else |searchResults| - 1;
        case ArrowUp =>
          selectedIndex := if selectedIndex - 1 > 0 then selectedIndex - 1 else 0;
        case Enter =>
          if 0 <= selectedIndex < |searchResults| {
            chosen := Some(searchResults[selectedIndex]);
          }
        case _ =>
      }
    }
  }
}
