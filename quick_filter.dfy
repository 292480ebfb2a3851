/** The quick filter of js/search.js: for every rendered collection, show it
    when its lowercased title contains the lowercased query, or when the
    lowercased title of one of its items does. The rendered texts are taken
    to be the collection's `name` and each item's `title`. */
module QuickFilter {
  import opened Text
  import opened Collections

  /** `collection.style.display`. */
  datatype Display = Block | Hidden

  predicate TitleHas(query: string, item: Item)
  {
    Contains(Lower(item.title), Lower(query))
  }

  /** Whether the filter shows collection `c` for the typed `query`. */
  predicate Visible(query: string, c: Collection)
  {
    Contains(Lower(c.name), Lower(query)) || exists k :: 0 <= k < |c.items| && TitleHas(query, c.items[k])
  }

  /** `handleSearch`: the display value of each collection, in order. The
      item loop runs only when the title does not match, and does not stop
      at the first matching item. */
  method ApplyFilter(query: string, collections: seq<Collection>) returns (display: seq<Display>)
    ensures |display| == |collections|
    ensures forall k :: 0 <= k < |collections| ==> (display[k] == Block <==> Visible(query, collections[k]))
  {
    var q := Lower(query);
    display := [];
    var i := 0;
    while i < |collections|
      invariant 0 <= i <= |collections|
      invariant |display| == i
      invariant forall k :: 0 <= k < i ==> (display[k] == Block <==> Visible(query, collections[k]))
    {
      var collection := collections[i];
      var isVisible := false;
      if Contains(Lower(collection.name), q) {
        isVisible := true;
      } else {
        var j := 0;
        while j < |collection.items|
          invariant 0 <= j <= |collection.items|
          invariant isVisible <==> exists k :: 0 <= k < j && TitleHas(query, collection.items[k])
        {
          if Contains(Lower(collection.items[j].title), q) {
            isVisible := true;
          }
          j := j + 1;
        }
      }
      display := display + [if isVisible then Block else Hidden];
      i := i + 1;
    }
  }

  /** Every string contains the empty string, so an empty query shows every
      collection. */
  lemma EmptyQueryShowsAll(c: Collection)
    ensures Visible("", c)
  {
  }

  /** Visibility reads titles only: two collections with the same name and
      the same item titles are shown alike, whatever their urls, ids and
      favicons. */
  lemma UrlsIgnored(query: string, c: Collection, d: Collection)
    requires c.name == d.name && |c.items| == |d.items|
    requires forall k :: 0 <= k < |c.items| ==> c.items[k].title == d.items[k].title
    ensures Visible(query, c) <==> Visible(query, d)
  {
  }
}
