/** The open-tab grouping inside `loadOpenTabs` of js/tabs.js: every open
    tab but the active one is filed under its URL's hostname (or "other"),
    and the domains are ordered by descending tab count, then by name.
    The browser's tab query and the DOM built from the groups are left out;
    URL parsing is the parameter `hostname`, which yields None where
    `new URL(url)` throws. */
module Tabs {
  import opened Wrappers
  import opened Seqs
  import opened Text

  datatype Tab = Tab(id: int, title: string, url: string)

  /** A domain and the tabs filed under it, in tab order. */
  datatype DomainGroup = DomainGroup(domain: string, tabs: seq<Tab>)

  const OtherDomain := "other"

  /** The group key of a URL: its hostname, or "other" when the hostname
      is empty or the URL does not parse. */
  function DomainOf(hostname: string -> Option<string>, url: string): (d: string)
    ensures hostname(url).Some? && hostname(url).value != [] ==> d == hostname(url).value
    ensures hostname(url).None? || hostname(url).value == [] ==> d == OtherDomain
  {
    match hostname(url)
    case None => OtherDomain
    case Some(h) => if h == [] then OtherDomain else h
  }

  /** The property names every `{}` inherits from `Object.prototype`. */
  const InheritedKeys: set<string> := {
    "constructor", "__proto__", "hasOwnProperty", "isPrototypeOf", "propertyIsEnumerable",
    "toString", "toLocaleString", "valueOf",
    "__defineGetter__", "__defineSetter__", "__lookupGetter__", "__lookupSetter__"}

  /** The key a tab ends up under in the source as written: `tabsByDomain`
      is a plain `{}`, so for a hostname naming an inherited property the
      `!tabsByDomain[domain]` test sees that property, `push` is not a
      function, and the catch files the tab under "other". */
  function DomainAsWritten(hostname: string -> Option<string>, url: string): (d: string)
    ensures DomainOf(hostname, url) !in InheritedKeys ==> d == DomainOf(hostname, url)
  {
    var domain := DomainOf(hostname, url);
    if domain in InheritedKeys then OtherDomain else domain
  }

  /** A tab on host "constructor" (a valid single-label host, as in
      `http://constructor/`) is filed under "other" as written, under its
      own hostname by `DomainOf`. */
  lemma InheritedHostnameFiledUnderOther()
    ensures var hostname := (u: string) => Some("constructor");
      DomainAsWritten(hostname, "http://constructor/") == OtherDomain &&
      DomainOf(hostname, "http://constructor/") == "constructor"
  {
    var hostname := (u: string) => Some("constructor");
    assert "constructor" in InheritedKeys;
  }

  /** The source as written is the grouping run with this URL-to-key
      function in place of `hostname`: it yields the as-written key. */
  function AsWrittenHostname(hostname: string -> Option<string>): string -> Option<string>
  {
    (u: string) => Some(DomainAsWritten(hostname, u))
  }

  /** Grouping under `AsWrittenHostname(hostname)` files every tab under its
      as-written key, so what is proved of `GroupOpenTabs` holds for the
      source as written with that key. */
  lemma AsWrittenIsRekeyed(hostname: string -> Option<string>, url: string)
    ensures DomainOf(AsWrittenHostname(hostname), url) == DomainAsWritten(hostname, url)
  {
    assert DomainAsWritten(hostname, url) != [];
  }

  function NotActive(active: Option<Tab>): Tab -> bool
  {
    (t: Tab) => active.None? || t.id != active.value.id
  }

  /** `openTabs.filter(tab => tab.id !== activeTab?.id)`. */
  function Remaining(tabs: seq<Tab>, active: Option<Tab>): seq<Tab>
  {
    Filter(tabs, NotActive(active))
  }

  function OnDomainKey(hostname: string -> Option<string>, d: string): Tab -> bool
  {
    (t: Tab) => DomainOf(hostname, t.url) == d
  }

  /** The tabs of `tabs` whose group key is `d`, in order. */
  function OnDomain(hostname: string -> Option<string>, tabs: seq<Tab>, d: string): seq<Tab>
  {
    if tabs == [] then []
    else
      var last := tabs[|tabs| - 1];
      OnDomain(hostname, tabs[..|tabs| - 1], d) + (if DomainOf(hostname, last.url) == d then [last] else [])
  }

  /** The domain order of the sort comparator: more tabs first, then by name. */
  predicate Before(m: map<string, seq<Tab>>, a: string, b: string)
    requires a in m && b in m
  {
    |m[a]| > |m[b]| || (|m[a]| == |m[b]| && LexLess(a, b))
  }

  predicate AllIn(ds: seq<string>, m: map<string, seq<Tab>>)
  {
    forall d :: d in ds ==> d in m
  }

  ghost predicate Distinct(ds: seq<string>)
  {
    forall a, b :: 0 <= a < b < |ds| ==> ds[a] != ds[b]
  }

  ghost predicate Ordered(ds: seq<string>, m: map<string, seq<Tab>>)
    requires AllIn(ds, m)
  {
    forall a, b :: 0 <= a < b < |ds| ==> Before(m, ds[a], ds[b])
  }

  function InsertDomain(d: string, ds: seq<string>, m: map<string, seq<Tab>>): (r: seq<string>)
    requires d in m && AllIn(ds, m)
    ensures |r| == |ds| + 1
    ensures forall x :: x in r <==> x == d || x in ds
  {
    if ds == [] then [d]
    else if Before(m, ds[0], d) then [ds[0]] + InsertDomain(d, ds[1..], m)
    else [d] + ds
  }

  /** `Object.keys(tabsByDomain).sort(...)`, as an insertion sort. */
  function SortDomains(ds: seq<string>, m: map<string, seq<Tab>>): (r: seq<string>)
    requires AllIn(ds, m)
    ensures |r| == |ds|
    ensures forall x :: x in r <==> x in ds
  {
    if ds == [] then [] else InsertDomain(ds[0], SortDomains(ds[1..], m), m)
  }

  /** The number of tabs filed under the domains `ds`. */
  function SizeSum(ds: seq<string>, m: map<string, seq<Tab>>): nat
    requires AllIn(ds, m)
  {
    if ds == [] then 0 else |m[ds[0]]| + SizeSum(ds[1..], m)
  }

  function TotalTabs(groups: seq<DomainGroup>): nat
  {
    if groups == [] then 0 else TotalTabs(groups[..|groups| - 1]) + |groups[|groups| - 1].tabs|
  }

  /** What the grouping promises: every group is non-empty and holds exactly
      the remaining tabs on its domain, in their order; every remaining tab's
      domain has a group; no domain has two; the groups run from most tabs
      to fewest, ties by name; and together they hold every remaining tab. */
  ghost predicate IsGrouping(groups: seq<DomainGroup>, remaining: seq<Tab>, hostname: string -> Option<string>)
  {
    && (forall k :: 0 <= k < |groups| ==> groups[k].tabs != [])
    && (forall k :: 0 <= k < |groups| ==> groups[k].tabs == OnDomain(hostname, remaining, groups[k].domain))
    && (forall t :: t in remaining ==> exists k :: 0 <= k < |groups| && groups[k].domain == DomainOf(hostname, t.url))
    && (forall a, b :: 0 <= a < b < |groups| ==> groups[a].domain != groups[b].domain)
    && (forall a, b :: 0 <= a < b < |groups| ==>
          |groups[a].tabs| > |groups[b].tabs| ||
          (|groups[a].tabs| == |groups[b].tabs| && LexLess(groups[a].domain, groups[b].domain)))
    && TotalTabs(groups) == |remaining|
  }

  // ------------------------------------------------------------------
  // the comparator's order

  lemma BeforeTransitive(m: map<string, seq<Tab>>, a: string, b: string, c: string)
    requires a in m && b in m && c in m
    requires Before(m, a, b) && Before(m, b, c)
    ensures Before(m, a, c)
  {
    if |m[a]| == |m[b]| == |m[c]| {
      LexLessTransitive(a, b, c);
    }
  }

  lemma BeforeTotal(m: map<string, seq<Tab>>, a: string, b: string)
    requires a in m && b in m && a != b
    ensures Before(m, a, b) || Before(m, b, a)
  {
    LexLessTotal(a, b);
  }

  /** The comparator never puts a domain before itself. */
  lemma BeforeIrreflexive(m: map<string, seq<Tab>>, a: string)
    requires a in m
    ensures !Before(m, a, a)
  {
    LexLessIrreflexive(a);
  }

  lemma {:induction false} InsertDomainOrdered(d: string, ds: seq<string>, m: map<string, seq<Tab>>)
    requires d in m && AllIn(ds, m) && d !in ds
    requires Ordered(ds, m) && Distinct(ds)
    ensures Ordered(InsertDomain(d, ds, m), m) && Distinct(InsertDomain(d, ds, m))
    ensures SizeSum(InsertDomain(d, ds, m), m) == |m[d]| + SizeSum(ds, m)
  {
    var r := InsertDomain(d, ds, m);
    if ds == [] {
    } else if Before(m, ds[0], d) {
      var rest := InsertDomain(d, ds[1..], m);
      InsertDomainOrdered(d, ds[1..], m);
      assert r == [ds[0]] + rest;
      forall b | 0 < b < |r|
        ensures Before(m, ds[0], r[b]) && ds[0] != r[b]
      {
        assert r[b] in rest;
        if r[b] != d {
          var j :| 0 <= j < |ds[1..]| && ds[1..][j] == r[b];
          assert ds[j + 1] == r[b];
        }
      }
    } else {
      BeforeTotal(m, d, ds[0]);
      forall b | 0 < b < |r|
        ensures Before(m, d, r[b])
      {
        if b > 1 {
          BeforeTransitive(m, d, ds[0], ds[b - 1]);
        }
      }
    }
  }

  /** The sorted domains are the same domains, ordered by the comparator,
      and hold the same number of tabs. */
  lemma {:induction false} SortDomainsOrdered(ds: seq<string>, m: map<string, seq<Tab>>)
    requires AllIn(ds, m) && Distinct(ds)
    ensures Ordered(SortDomains(ds, m), m) && Distinct(SortDomains(ds, m))
    ensures SizeSum(SortDomains(ds, m), m) == SizeSum(ds, m)
  {
    if ds != [] {
      assert Distinct(ds[1..]) by {
        forall a, b | 0 <= a < b < |ds[1..]|
          ensures ds[1..][a] != ds[1..][b]
        {
          assert ds[1..][a] == ds[a + 1] && ds[1..][b] == ds[b + 1];
        }
      }
      SortDomainsOrdered(ds[1..], m);
      assert ds[0] !in ds[1..];
      InsertDomainOrdered(ds[0], SortDomains(ds[1..], m), m);
    }
  }

  lemma {:induction false} SizeSumSnoc(ds: seq<string>, d: string, m: map<string, seq<Tab>>)
    requires AllIn(ds, m) && d in m
    ensures SizeSum(ds + [d], m) == SizeSum(ds, m) + |m[d]|
  {
    if ds != [] {
      assert (ds + [d])[1..] == ds[1..] + [d];
      SizeSumSnoc(ds[1..], d, m);
    }
  }

  /** Changing the tabs of a domain outside `ds` leaves their count alone. */
  lemma {:induction false} SizeSumFrame(ds: seq<string>, d: string, v: seq<Tab>, m: map<string, seq<Tab>>)
    requires AllIn(ds, m) && d !in ds
    ensures SizeSum(ds, m[d := v]) == SizeSum(ds, m)
  {
    if ds != [] {
      SizeSumFrame(ds[1..], d, v, m);
    }
  }

  /** One more tab under a domain that occurs once in `ds` adds one. */
  lemma {:induction false} SizeSumBump(ds: seq<string>, d: string, t: Tab, m: map<string, seq<Tab>>)
    requires AllIn(ds, m) && Distinct(ds) && d in ds
    ensures SizeSum(ds, m[d := m[d] + [t]]) == SizeSum(ds, m) + 1
  {
    if ds[0] == d {
      assert d !in ds[1..];
      SizeSumFrame(ds[1..], d, m[d] + [t], m);
    } else {
      assert Distinct(ds[1..]) by {
        forall a, b | 0 <= a < b < |ds[1..]|
          ensures ds[1..][a] != ds[1..][b]
        {
          assert ds[1..][a] == ds[a + 1] && ds[1..][b] == ds[b + 1];
        }
      }
      SizeSumBump(ds[1..], d, t, m);
    }
  }

  /** `OnDomain` is `tabs.filter` by group key. */
  lemma {:induction false} OnDomainIsFilter(hostname: string -> Option<string>, tabs: seq<Tab>, d: string)
    ensures OnDomain(hostname, tabs, d) == Filter(tabs, OnDomainKey(hostname, d))
  {
    if tabs != [] {
      OnDomainIsFilter(hostname, tabs[..|tabs| - 1], d);
    }
  }

  lemma OnDomainSnoc(hostname: string -> Option<string>, xs: seq<Tab>, t: Tab, d: string)
    ensures OnDomain(hostname, xs + [t], d) ==
      OnDomain(hostname, xs, d) + (if DomainOf(hostname, t.url) == d then [t] else [])
  {
    assert (xs + [t])[..|xs + [t]| - 1] == xs;
  }

  // ------------------------------------------------------------------
  // the grouping

  /** `keys` lists the keys of `m`, each once. */
  ghost predicate KeysOf(m: map<string, seq<Tab>>, keys: seq<string>)
  {
    && (forall d :: d in m <==> d in keys)
    && AllIn(keys, m)
    && Distinct(keys)
  }

  /** Each key of `m` holds exactly the tabs of `xs` on that domain, in
      order, and the domain of every tab of `xs` is a key. */
  ghost predicate FiledTabs(m: map<string, seq<Tab>>, xs: seq<Tab>, hostname: string -> Option<string>)
  {
    && (forall d :: d in m ==> m[d] == OnDomain(hostname, xs, d) && m[d] != [])
    && (forall k :: 0 <= k < |xs| ==> DomainOf(hostname, xs[k].url) in m)
  }

  /** `m` and `keys` are `tabsByDomain` and its keys after filing the tabs `xs`. */
  ghost predicate Filed(m: map<string, seq<Tab>>, keys: seq<string>, xs: seq<Tab>, hostname: string -> Option<string>)
  {
    KeysOf(m, keys) && FiledTabs(m, xs, hostname) && SizeSum(keys, m) == |xs|
  }

  lemma KeysOfNew(m: map<string, seq<Tab>>, keys: seq<string>, d: string, v: seq<Tab>)
    requires KeysOf(m, keys) && d !in m
    ensures KeysOf(m[d := v], keys + [d])
  {
    var keys' := keys + [d];
    forall a, b | 0 <= a < b < |keys'|
      ensures keys'[a] != keys'[b]
    {
      if b == |keys| {
        assert keys'[a] == keys[a] && keys[a] in m;
      }
    }
  }

  /** No tab of `xs` is on domain `d`, so none is filed under it. */
  lemma {:induction false} OnDomainAbsent(hostname: string -> Option<string>, xs: seq<Tab>, d: string)
    requires forall k :: 0 <= k < |xs| ==> DomainOf(hostname, xs[k].url) != d
    ensures OnDomain(hostname, xs, d) == []
  {
    if xs != [] {
      var init := xs[..|xs| - 1];
      assert forall k :: 0 <= k < |init| ==> init[k] == xs[k];
      OnDomainAbsent(hostname, init, d);
    }
  }

  /** Filing one more tab `t`: its domain's list, new or not, gains `t`. */
  lemma FiledTabsStep(m: map<string, seq<Tab>>, xs: seq<Tab>, hostname: string -> Option<string>, t: Tab)
    requires FiledTabs(m, xs, hostname)
    ensures var d := DomainOf(hostname, t.url);
      d in m ==> FiledTabs(m[d := m[d] + [t]], xs + [t], hostname)
    ensures var d := DomainOf(hostname, t.url);
      d !in m ==> FiledTabs(m[d := [t]], xs + [t], hostname)
  {
    var d := DomainOf(hostname, t.url);
    var old_d: seq<Tab> := if d in m then m[d] else [];
    if d !in m {
      OnDomainAbsent(hostname, xs, d);
    }
    assert old_d == OnDomain(hostname, xs, d);
    var m' := m[d := old_d + [t]];
    forall e | e in m'
      ensures m'[e] == OnDomain(hostname, xs + [t], e) && m'[e] != []
    {
      OnDomainSnoc(hostname, xs, t, e);
      if e != d {
        assert m'[e] == m[e];
      }
    }
    forall k | 0 <= k < |xs| + 1
      ensures DomainOf(hostname, (xs + [t])[k].url) in m'
    {
      if k < |xs| {
        assert (xs + [t])[k] == xs[k];
      }
    }
    if d !in m {
      var empty: seq<Tab> := [];
      assert empty + [t] == [t];
    }
  }

  /** Creating an empty list under a key and then pushing onto it. */
  lemma CreateThenPush(m: map<string, seq<Tab>>, d: string, t: Tab)
    ensures m[d := []][d := m[d := []][d] + [t]] == m[d := [t]]
  {
    var empty: seq<Tab> := [];
    assert empty + [t] == [t];
    var a, b := m[d := []][d := [t]], m[d := [t]];
    assert a.Keys == b.Keys;
    assert forall k :: k in a ==> a[k] == b[k];
  }

  /** Filing one more tab keeps `Filed`: a known domain's list gains the
      tab, an unknown domain becomes a new key holding just the tab. */
  lemma FiledStep(m: map<string, seq<Tab>>, keys: seq<string>, xs: seq<Tab>, hostname: string -> Option<string>, t: Tab)
    requires Filed(m, keys, xs, hostname)
    ensures var d := DomainOf(hostname, t.url);
      d in m ==> Filed(m[d := m[d] + [t]], keys, xs + [t], hostname)
    ensures var d := DomainOf(hostname, t.url);
      d !in m ==> Filed(m[d := [t]], keys + [d], xs + [t], hostname)
  {
    var d := DomainOf(hostname, t.url);
    FiledTabsStep(m, xs, hostname, t);
    if d !in m {
      KeysOfNew(m, keys, d, [t]);
      SizeSumFrame(keys, d, [t], m);
      SizeSumSnoc(keys, d, m[d := [t]]);
    } else {
      SizeSumBump(keys, d, t, m);
      var m' := m[d := m[d] + [t]];
      assert KeysOf(m', keys) by {
        assert forall e :: e in m' <==> e in m;
      }
    }
  }

  /** The `forEach` that fills `tabsByDomain`. */
  method FillByDomain(remaining: seq<Tab>, hostname: string -> Option<string>)
    returns (tabsByDomain: map<string, seq<Tab>>, keys: seq<string>)
    ensures Filed(tabsByDomain, keys, remaining, hostname)
  {
    tabsByDomain := map[];
    keys := [];
    assert FiledTabs(tabsByDomain, remaining[..0], hostname);
    var i := 0;
    while i < |remaining|
      invariant 0 <= i <= |remaining|
      invariant Filed(tabsByDomain, keys, remaining[..i], hostname)
    {
      var tab := remaining[i];
      var domain := DomainOf(hostname, tab.url);
      assert remaining[..i + 1] == remaining[..i] + [tab];
      FiledStep(tabsByDomain, keys, remaining[..i], hostname, tab);
      if domain !in tabsByDomain {
        CreateThenPush(tabsByDomain, domain, tab);
        tabsByDomain := tabsByDomain[domain := []];
        keys := keys + [domain];
      }
      tabsByDomain := tabsByDomain[domain := tabsByDomain[domain] + [tab]];
      i := i + 1;
    }
    assert remaining[..i] == remaining;
  }

  /** The groups the final `forEach` emits for the domains `ds`: one per
      domain that has tabs, in the order of `ds`. */
  function NonEmptyGroups(ds: seq<string>, m: map<string, seq<Tab>>): seq<DomainGroup>
    requires AllIn(ds, m)
  {
    if ds == [] then []
    else
      var d := ds[|ds| - 1];
      NonEmptyGroups(ds[..|ds| - 1], m) + (if m[d] != [] then [DomainGroup(d, m[d])] else [])
  }

  /** The final `forEach` over the sorted domains: one group per domain,
      skipping a domain without tabs. */
  method EmitGroups(sortedDomains: seq<string>, tabsByDomain: map<string, seq<Tab>>)
    returns (groups: seq<DomainGroup>)
    requires AllIn(sortedDomains, tabsByDomain)
    ensures groups == NonEmptyGroups(sortedDomains, tabsByDomain)
  {
    groups := [];
    var k := 0;
    while k < |sortedDomains|
      invariant 0 <= k <= |sortedDomains|
      invariant groups == NonEmptyGroups(sortedDomains[..k], tabsByDomain)
    {
      var domain := sortedDomains[k];
      var domainTabs := tabsByDomain[domain];
      assert sortedDomains[..k + 1][..k] == sortedDomains[..k];
      if |domainTabs| != 0 {
        groups := groups + [DomainGroup(domain, domainTabs)];
      }
      k := k + 1;
    }
    assert sortedDomains[..k] == sortedDomains;
  }

  /** Every emitted group has tabs, belongs to one of the domains and holds
      that domain's tabs; no more groups than domains are emitted. */
  lemma {:induction false} NonEmptyGroupsShape(ds: seq<string>, m: map<string, seq<Tab>>)
    requires AllIn(ds, m)
    ensures |NonEmptyGroups(ds, m)| <= |ds|
    ensures forall j :: 0 <= j < |NonEmptyGroups(ds, m)| ==>
      var g := NonEmptyGroups(ds, m)[j];
      g.tabs != [] && g.domain in ds && g.domain in m && g.tabs == m[g.domain]
  {
    if ds != [] {
      var init := ds[..|ds| - 1];
      NonEmptyGroupsShape(init, m);
      var r, p := NonEmptyGroups(ds, m), NonEmptyGroups(init, m);
      forall j | 0 <= j < |r|
        ensures r[j].tabs != [] && r[j].domain in ds && r[j].domain in m && r[j].tabs == m[r[j].domain]
      {
        if j < |p| {
          assert r[j] == p[j];
          assert p[j].domain in init;
        }
      }
    }
  }

  /** The emitted groups hold as many tabs as the domains do. */
  lemma {:induction false} NonEmptyGroupsTotal(ds: seq<string>, m: map<string, seq<Tab>>)
    requires AllIn(ds, m)
    ensures TotalTabs(NonEmptyGroups(ds, m)) == SizeSum(ds, m)
  {
    if ds != [] {
      var init, d := ds[..|ds| - 1], ds[|ds| - 1];
      NonEmptyGroupsTotal(init, m);
      SizeSumSnoc(init, d, m);
      assert ds == init + [d];
      var p := NonEmptyGroups(init, m);
      if m[d] != [] {
        var r := p + [DomainGroup(d, m[d])];
        assert r[..|r| - 1] == p;
      } else {
        assert NonEmptyGroups(ds, m) == p + [] == p;
      }
    }
  }

  /** When every domain has tabs, there is one group per domain, in order. */
  lemma {:induction false} NonEmptyGroupsAll(ds: seq<string>, m: map<string, seq<Tab>>)
    requires AllIn(ds, m) && forall d :: d in ds ==> m[d] != []
    ensures |NonEmptyGroups(ds, m)| == |ds|
    ensures forall j :: 0 <= j < |ds| ==> NonEmptyGroups(ds, m)[j] == DomainGroup(ds[j], m[ds[j]])
  {
    if ds != [] {
      var init, d := ds[..|ds| - 1], ds[|ds| - 1];
      assert forall j :: 0 <= j < |init| ==> init[j] == ds[j];
      NonEmptyGroupsAll(init, m);
      var r, p := NonEmptyGroups(ds, m), NonEmptyGroups(init, m);
      assert r == p + [DomainGroup(d, m[d])];
      forall j | 0 <= j < |ds|
        ensures r[j] == DomainGroup(ds[j], m[ds[j]])
      {
        if j < |init| {
          assert r[j] == p[j];
        }
      }
    }
  }

  /** Each emitted group is non-empty and holds its domain's tabs. */
  lemma EmittedFiled(groups: seq<DomainGroup>, sortedDomains: seq<string>, m: map<string, seq<Tab>>,
                     remaining: seq<Tab>, hostname: string -> Option<string>)
    requires FiledTabs(m, remaining, hostname) && AllIn(sortedDomains, m)
    requires |groups| == |sortedDomains|
    requires forall j :: 0 <= j < |groups| ==> groups[j] == DomainGroup(sortedDomains[j], m[sortedDomains[j]])
    ensures forall j :: 0 <= j < |groups| ==> groups[j].tabs != []
    ensures forall j :: 0 <= j < |groups| ==> groups[j].tabs == OnDomain(hostname, remaining, groups[j].domain)
  {
    forall j | 0 <= j < |groups|
      ensures groups[j].tabs != [] && groups[j].tabs == OnDomain(hostname, remaining, groups[j].domain)
    {
      assert sortedDomains[j] in m;
    }
  }

  /** Every filed tab's domain has an emitted group. */
  lemma EmittedCovers(groups: seq<DomainGroup>, sortedDomains: seq<string>, m: map<string, seq<Tab>>,
                      keys: seq<string>, remaining: seq<Tab>, hostname: string -> Option<string>)
    requires KeysOf(m, keys) && FiledTabs(m, remaining, hostname)
    requires forall x :: x in sortedDomains <==> x in keys
    requires |groups| == |sortedDomains|
    requires forall j :: 0 <= j < |groups| ==> groups[j].domain == sortedDomains[j]
    ensures forall t :: t in remaining ==> exists j :: 0 <= j < |groups| && groups[j].domain == DomainOf(hostname, t.url)
  {
    forall t | t in remaining
      ensures exists j :: 0 <= j < |groups| && groups[j].domain == DomainOf(hostname, t.url)
    {
      var d := DomainOf(hostname, t.url);
      var i :| 0 <= i < |remaining| && remaining[i] == t;
      assert d in keys;
      var j :| 0 <= j < |sortedDomains| && sortedDomains[j] == d;
      assert groups[j].domain == d;
    }
  }

  /** The emitted groups follow the sorted domains' order. */
  lemma EmittedOrdered(groups: seq<DomainGroup>, sortedDomains: seq<string>, m: map<string, seq<Tab>>)
    requires AllIn(sortedDomains, m) && Ordered(sortedDomains, m) && Distinct(sortedDomains)
    requires |groups| == |sortedDomains|
    requires forall j :: 0 <= j < |groups| ==> groups[j] == DomainGroup(sortedDomains[j], m[sortedDomains[j]])
    ensures forall a, b :: 0 <= a < b < |groups| ==> groups[a].domain != groups[b].domain
    ensures forall a, b :: 0 <= a < b < |groups| ==>
      |groups[a].tabs| > |groups[b].tabs| ||
      (|groups[a].tabs| == |groups[b].tabs| && LexLess(groups[a].domain, groups[b].domain))
  {
    forall a, b | 0 <= a < b < |groups|
      ensures groups[a].domain != groups[b].domain && Before(m, groups[a].domain, groups[b].domain)
    {
      assert groups[a].domain == sortedDomains[a] && groups[b].domain == sortedDomains[b];
    }
  }

  /** The block of `loadOpenTabs` from the `filter` to the last `forEach`. */
  method GroupOpenTabs(tabs: seq<Tab>, active: Option<Tab>, hostname: string -> Option<string>)
    returns (groups: seq<DomainGroup>)
    ensures IsGrouping(groups, Remaining(tabs, active), hostname)
  {
    var remaining := Remaining(tabs, active);
    var tabsByDomain, keys := FillByDomain(remaining, hostname);
    var sortedDomains := SortDomains(keys, tabsByDomain);
    SortDomainsOrdered(keys, tabsByDomain);
    assert forall d :: d in sortedDomains ==> tabsByDomain[d] != [];
    groups := EmitGroups(sortedDomains, tabsByDomain);
    NonEmptyGroupsAll(sortedDomains, tabsByDomain);
    NonEmptyGroupsTotal(sortedDomains, tabsByDomain);
    EmittedFiled(groups, sortedDomains, tabsByDomain, remaining, hostname);
    EmittedCovers(groups, sortedDomains, tabsByDomain, keys, remaining, hostname);
    EmittedOrdered(groups, sortedDomains, tabsByDomain);
  }

  // ------------------------------------------------------------------
  // properties

  /** The active tab is never grouped, every other tab is, in the original
      order; with no active tab every tab is grouped. */
  lemma RemainingDropsActive(tabs: seq<Tab>, active: Option<Tab>)
    ensures forall t :: t in Remaining(tabs, active) <==> t in tabs && (active.None? || t.id != active.value.id)
    ensures IsSubsequence(Remaining(tabs, active), tabs)
    ensures active.None? ==> Remaining(tabs, active) == tabs
  {
    FilterContents(tabs, NotActive(active));
    var idx := FilterKeepsOrder(tabs, NotActive(active));
    if active.None? {
      FilterAll(tabs, NotActive(active));
    }
  }

  /** In a grouping, each remaining tab lies in exactly one group: the one
      for its own domain. */
  lemma EachTabInOneGroup(groups: seq<DomainGroup>, remaining: seq<Tab>, hostname: string -> Option<string>, t: Tab)
    requires IsGrouping(groups, remaining, hostname) && t in remaining
    ensures exists k :: 0 <= k < |groups| && t in groups[k].tabs
    ensures forall k :: 0 <= k < |groups| ==> (t in groups[k].tabs <==> groups[k].domain == DomainOf(hostname, t.url))
    ensures forall a, b :: 0 <= a < b < |groups| ==> !(t in groups[a].tabs && t in groups[b].tabs)
  {
    forall k | 0 <= k < |groups|
      ensures t in groups[k].tabs <==> groups[k].domain == DomainOf(hostname, t.url)
    {
      OnDomainIsFilter(hostname, remaining, groups[k].domain);
      FilterContents(remaining, OnDomainKey(hostname, groups[k].domain));
    }
  }

  /** Within each group the tabs keep the order they had among the
      remaining tabs. */
  lemma GroupsKeepTabOrder(groups: seq<DomainGroup>, remaining: seq<Tab>, hostname: string -> Option<string>)
    requires IsGrouping(groups, remaining, hostname)
    ensures forall k :: 0 <= k < |groups| ==> IsSubsequence(groups[k].tabs, remaining)
  {
    forall k | 0 <= k < |groups|
      ensures IsSubsequence(groups[k].tabs, remaining)
    {
      OnDomainIsFilter(hostname, remaining, groups[k].domain);
      var idx := FilterKeepsOrder(remaining, OnDomainKey(hostname, groups[k].domain));
    }
  }
}
