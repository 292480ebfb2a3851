/** The collection store of js/collections.js: the in-memory list
    `collections.data` of collections `{id, name, items}` and the operations
    that change it. Saving to browser storage and re-rendering follow every
    change in the source; neither affects the data and both are left out. */
module Collections {
  import opened Wrappers
  import opened Seqs
  import opened Text

  /** A saved link. */
  datatype Item = Item(id: string, title: string, url: string, favicon: Option<string>)

  /** The object handed to `addItem`; it has an `id` only when the caller gives one. */
  datatype ItemDraft = ItemDraft(id: Option<string>, title: string, url: string, favicon: Option<string>)

  datatype Collection = Collection(id: string, name: string, items: seq<Item>)

  /** The fields of an `update` object; absent fields are left alone. */
  datatype Patch = Patch(id: Option<string>, name: Option<string>, items: Option<seq<Item>>)

  /** A parsed drag payload. Only its `type` is checked; a tab dragged from
      the open-tab list carries no `collectionId`. */
  datatype DragPayload = DragPayload(kind: string, collectionId: Option<string>, title: string, url: string, favicon: Option<string>)

  const NewCollectionName := "New Collection"
  const TabKind := "tab"

  /** `{ id: freshId, ...draft }`: the draft's own fields win, so a draft
      that carries an id keeps it. */
  function NewItem(freshId: string, draft: ItemDraft): Item
  {
    Item(draft.id.GetOr(freshId), draft.title, draft.url, draft.favicon)
  }

  /** `{ ...c, ...patch }`: the patch's fields win. */
  function Merge(c: Collection, patch: Patch): Collection
  {
    Collection(patch.id.GetOr(c.id), patch.name.GetOr(c.name), patch.items.GetOr(c.items))
  }

  /** The item a dropped tab becomes: `{ title, url, favicon }`. */
  function DraftOf(payload: DragPayload): ItemDraft
  {
    ItemDraft(None, payload.title, payload.url, payload.favicon)
  }

  /** The position `collections.data.find(c => c.id === id)` lands on: the
      first collection with that id. */
  function FindIndex(cs: seq<Collection>, id: string): (r: Option<nat>)
    ensures r.Some? ==> r.value < |cs| && cs[r.value].id == id
    ensures r.Some? ==> forall j :: 0 <= j < r.value ==> cs[j].id != id
    ensures r.None? ==> forall j :: 0 <= j < |cs| ==> cs[j].id != id
  {
    if cs == [] then None
    else if cs[0].id == id then Some(0)
    else match FindIndex(cs[1..], id)
      case None => None
      case Some(i) => Some(i + 1)
  }

  function IdIsNot(id: string): Collection -> bool
  {
    (c: Collection) => c.id != id
  }

  function ItemIdIsNot(itemId: string): Item -> bool
  {
    (it: Item) => it.id != itemId
  }

  function UrlIs(url: string): Item -> bool
  {
    (it: Item) => it.url == url
  }

  /** How many items of `items` have this URL. */
  function CountUrl(items: seq<Item>, url: string): nat
  {
    |Filter(items, UrlIs(url))|
  }

  /** `delete(id)`: `data.filter(c => c.id !== id)`. */
  function Without(cs: seq<Collection>, id: string): seq<Collection>
  {
    Filter(cs, IdIsNot(id))
  }

  /** `update(id, patch)`: `data.map(c => c.id === id ? { ...c, ...patch } : c)`. */
  function Updated(cs: seq<Collection>, id: string, patch: Patch): seq<Collection>
  {
    seq(|cs|, i requires 0 <= i < |cs| => if cs[i].id == id then Merge(cs[i], patch) else cs[i])
  }

  /** `addItem`: `item` pushed onto the first collection with id `cid`. */
  function WithItem(cs: seq<Collection>, cid: string, item: Item): seq<Collection>
  {
    match FindIndex(cs, cid)
    case None => cs
    case Some(i) => cs[i := cs[i].(items := cs[i].items + [item])]
  }

  /** `removeItem`: the first collection with id `cid` loses every item with id `itemId`. */
  function WithoutItem(cs: seq<Collection>, cid: string, itemId: string): seq<Collection>
  {
    match FindIndex(cs, cid)
    case None => cs
    case Some(i) => cs[i := cs[i].(items := Filter(cs[i].items, ItemIdIsNot(itemId)))]
  }

  /** The rename rule of the title editor: the trimmed input, when it is not
      empty and differs from the current name. */
  function RenameTarget(current: string, input: string): Option<string>
  {
    var newName := Trim(input);
    if newName != [] && newName != current then Some(newName) else None
  }

  ghost predicate UniqueIds(cs: seq<Collection>)
  {
    forall a, b :: 0 <= a < b < |cs| ==> cs[a].id != cs[b].id
  }

  /** The store object `collections`; `data` is its list of collections. */
  class Store {
    var data: seq<Collection>

    /** `init`: the stored collections, or an empty list when storage holds none. */
    constructor (stored: Option<seq<Collection>>)
      ensures data == stored.GetOr([])
    {
      data := stored.GetOr([]);
    }

    /** `create`: appends an empty collection named "New Collection". */
    method Create(freshId: string)
      modifies this
      ensures data == old(data) + [Collection(freshId, NewCollectionName, [])]
    {
      data := data + [Collection(freshId, NewCollectionName, [])];
    }

    method Delete(id: string)
      modifies this
      ensures data == Without(old(data), id)
    {
      data := Without(data, id);
    }

    method Update(id: string, patch: Patch)
      modifies this
      ensures data == Updated(old(data), id, patch)
    {
      data := Updated(data, id, patch);
    }

    /** `addItem`: pushes the new item onto the first collection with that
      id, with no duplicate check; an unknown id changes nothing. */
    method AddItem(collectionId: string, draft: ItemDraft, freshId: string)
      modifies this
      ensures data == WithItem(old(data), collectionId, NewItem(freshId, draft))
    {
      var found := FindIndex(data, collectionId);
      if found.Some? {
        var i := found.value;
        var collection := data[i];
        data := data[i := collection.(items := collection.items + [NewItem(freshId, draft)])];
      }
    }

    /** `removeItem`: reassigns the items of the first collection with that id. */
    method RemoveItem(collectionId: string, itemId: string)
      modifies this
      ensures data == WithoutItem(old(data), collectionId, itemId)
    {
      var found := FindIndex(data, collectionId);
      if found.Some? {
        var i := found.value;
        var collection := data[i];
        data := data[i := collection.(items := Filter(collection.items, ItemIdIsNot(itemId)))];
      }
    }

    /** `handleDrop` on the collections container: only a tab payload adds
      an item, to the collection its `collectionId` names. */
    method HandleDrop(payload: DragPayload, freshId: string)
      modifies this
      ensures payload.kind == TabKind && payload.collectionId.Some? ==>
        data == WithItem(old(data), payload.collectionId.value, NewItem(freshId, DraftOf(payload)))
      ensures payload.kind != TabKind || payload.collectionId.None? ==> data == old(data)
    {
      if payload.kind == TabKind {
        match payload.collectionId
        case Some(cid) => AddItem(cid, DraftOf(payload), freshId);
        case None =>
      }
    }

    /** The drop handler each rendered collection installs: only a tab
      payload adds an item, to the collection dropped on. */
    method DropOnCollection(target: Collection, payload: DragPayload, freshId: string)
      modifies this
      ensures payload.kind == TabKind ==>
        data == WithItem(old(data), target.id, NewItem(freshId, DraftOf(payload)))
      ensures payload.kind != TabKind ==> data == old(data)
    {
      if payload.kind == TabKind {
        AddItem(target.id, DraftOf(payload), freshId);
      }
    }

    /** The title editor losing focus on a rendered collection `shown`. */
    method CommitRename(shown: Collection, input: string)
      modifies this
      ensures RenameTarget(shown.name, input).None? ==> data == old(data)
      ensures RenameTarget(shown.name, input).Some? ==>
        data == Updated(old(data), shown.id, Patch(None, RenameTarget(shown.name, input), None))
    {
      var newName := Trim(input);
      if newName != [] && newName != shown.name {
        Update(shown.id, Patch(None, Some(newName), None));
      }
    }
  }

  // ------------------------------------------------------------------
  // properties

  /** `delete` keeps exactly the collections with another id, each as often
      as before and in their original order; an unknown id changes nothing. */
  lemma DeleteKeepsOthers(cs: seq<Collection>, id: string)
    ensures forall c :: c in Without(cs, id) ==> c.id != id
    ensures forall c: Collection :: c.id != id ==> multiset(Without(cs, id))[c] == multiset(cs)[c]
    ensures IsSubsequence(Without(cs, id), cs)
    ensures (forall j :: 0 <= j < |cs| ==> cs[j].id != id) ==> Without(cs, id) == cs
  {
    FilterContents(cs, IdIsNot(id));
    var idx := FilterKeepsOrder(cs, IdIsNot(id));
    if forall j :: 0 <= j < |cs| ==> cs[j].id != id {
      FilterAll(cs, IdIsNot(id));
    }
  }

  /** `update` keeps the length and every other collection; a matching
      collection takes each field the patch has and keeps the others.
      Applying the same update twice is the same as once. */
  lemma UpdatePatchesMatching(cs: seq<Collection>, id: string, patch: Patch)
    ensures |Updated(cs, id, patch)| == |cs|
    ensures forall i :: 0 <= i < |cs| && cs[i].id != id ==> Updated(cs, id, patch)[i] == cs[i]
    ensures forall i :: 0 <= i < |cs| && cs[i].id == id ==>
      && Updated(cs, id, patch)[i].id == (if patch.id.Some? then patch.id.value else id)
      && Updated(cs, id, patch)[i].name == (if patch.name.Some? then patch.name.value else cs[i].name)
      && Updated(cs, id, patch)[i].items == (if patch.items.Some? then patch.items.value else cs[i].items)
    ensures Updated(Updated(cs, id, patch), id, patch) == Updated(cs, id, patch)
  {
    var once := Updated(cs, id, patch);
    var twice := Updated(once, id, patch);
    forall i | 0 <= i < |cs|
      ensures twice[i] == once[i]
    {
      if cs[i].id == id && once[i].id == id {
        assert Merge(Merge(cs[i], patch), patch) == Merge(cs[i], patch);
      }
    }
  }

  /** `addItem` appends exactly one item, built from the draft, to the first
      collection with the id and changes nothing else; an unknown id changes
      nothing at all. */
  lemma AddItemAppendsOne(cs: seq<Collection>, cid: string, draft: ItemDraft, freshId: string)
    ensures FindIndex(cs, cid).None? ==> WithItem(cs, cid, NewItem(freshId, draft)) == cs
    ensures FindIndex(cs, cid).Some? ==>
      var i, r := FindIndex(cs, cid).value, WithItem(cs, cid, NewItem(freshId, draft));
      && |r| == |cs|
      && (forall j :: 0 <= j < |cs| && j != i ==> r[j] == cs[j])
      && r[i].id == cid && r[i].name == cs[i].name
      && |r[i].items| == |cs[i].items| + 1
      && r[i].items[..|cs[i].items|] == cs[i].items
      && r[i].items[|cs[i].items|] == Item(if draft.id.Some? then draft.id.value else freshId, draft.title, draft.url, draft.favicon)
  {
    if FindIndex(cs, cid).Some? {
      var i := FindIndex(cs, cid).value;
      var r := WithItem(cs, cid, NewItem(freshId, draft));
      assert r[i].items == cs[i].items + [NewItem(freshId, draft)];
    }
  }

  /** `addItem` does no duplicate check: the collection it adds to gains
      one more item with the draft's URL, however many it had, and every
      other collection keeps its own. */
  lemma AddItemAllowsDuplicateUrls(cs: seq<Collection>, cid: string, draft: ItemDraft, freshId: string)
    requires FindIndex(cs, cid).Some?
    ensures var i, r := FindIndex(cs, cid).value, WithItem(cs, cid, NewItem(freshId, draft));
      && CountUrl(r[i].items, draft.url) == CountUrl(cs[i].items, draft.url) + 1
      && forall j :: 0 <= j < |cs| && j != i ==> CountUrl(r[j].items, draft.url) == CountUrl(cs[j].items, draft.url)
  {
    var i := FindIndex(cs, cid).value;
    var items := cs[i].items + [NewItem(freshId, draft)];
    assert items[..|items| - 1] == cs[i].items;
  }

  /** `removeItem` drops every item with that id from the first collection
      with the collection id, keeping its other items in order; every other
      collection is untouched, and an unknown collection id changes nothing. */
  lemma RemoveItemFromFirstMatch(cs: seq<Collection>, cid: string, itemId: string)
    ensures FindIndex(cs, cid).None? ==> WithoutItem(cs, cid, itemId) == cs
    ensures FindIndex(cs, cid).Some? ==>
      var i, r := FindIndex(cs, cid).value, WithoutItem(cs, cid, itemId);
      && |r| == |cs|
      && (forall j :: 0 <= j < |cs| && j != i ==> r[j] == cs[j])
      && r[i].id == cid && r[i].name == cs[i].name
      && (forall it :: it in r[i].items ==> it.id != itemId)
      && (forall it: Item :: it.id != itemId ==> multiset(r[i].items)[it] == multiset(cs[i].items)[it])
      && IsSubsequence(r[i].items, cs[i].items)
  {
    if FindIndex(cs, cid).Some? {
      var i := FindIndex(cs, cid).value;
      FilterContents(cs[i].items, ItemIdIsNot(itemId));
      var idx := FilterKeepsOrder(cs[i].items, ItemIdIsNot(itemId));
    }
  }

  /** The rename rule: a new name is applied exactly when the trimmed input
      is non-empty and differs from the current name, and it is that trimmed
      input, which neither starts nor ends with white space. */
  lemma RenameRule(current: string, input: string)
    ensures RenameTarget(current, input).Some? <==> Trim(input) != [] && Trim(input) != current
    ensures RenameTarget(current, input).Some? ==>
      var n := RenameTarget(current, input).value;
      n == Trim(input) && !IsSpace(n[0]) && !IsSpace(n[|n| - 1])
  {
    var i, j := TrimSplits(input);
  }

  /** With unique ids, "the first collection with the id" is "the collection
      with the id". */
  lemma FindIndexWithUniqueIds(cs: seq<Collection>, id: string, i: nat)
    requires UniqueIds(cs) && i < |cs|
    ensures FindIndex(cs, id) == Some(i) <==> cs[i].id == id
  {
  }

  /** Deleting keeps the ids unique. */
  lemma DeleteKeepsIdsUnique(cs: seq<Collection>, id: string)
    requires UniqueIds(cs)
    ensures UniqueIds(Without(cs, id))
  {
    var r := Without(cs, id);
    var idx := FilterKeepsOrder(cs, IdIsNot(id));
    forall a, b | 0 <= a < b < |r|
      ensures r[a].id != r[b].id
    {
      assert r[a] == cs[idx[a]] && r[b] == cs[idx[b]];
    }
  }

  /** Creating with an id not yet in use, patching without touching ids,
      adding and removing items all keep the collection ids unique. */
  lemma OtherChangesKeepIdsUnique(cs: seq<Collection>, freshId: string, id: string, name: string, cid: string, item: Item, itemId: string)
    requires UniqueIds(cs)
    ensures (forall j :: 0 <= j < |cs| ==> cs[j].id != freshId) ==>
      UniqueIds(cs + [Collection(freshId, NewCollectionName, [])])
    ensures UniqueIds(Updated(cs, id, Patch(None, Some(name), None)))
    ensures UniqueIds(WithItem(cs, cid, item))
    ensures UniqueIds(WithoutItem(cs, cid, itemId))
  {
  }
}
