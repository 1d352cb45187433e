/**
  The background worker's title registry: a map from tab id to the custom
  title the user chose for that tab and the page address it was chosen on,
  its mirror in extension storage, the tab-lifecycle handlers that edit it,
  the restart-time reconciliation that re-keys it by page address, and the
  retry loop that pushes a title into a page.

  Browser calls are not modelled: the stored document is a field of the
  registry, the list of open tabs is a parameter, a message send is a
  `Delivery` value handed back to the caller, and the outcome of each send
  attempt is a parameter of the retry loop.
 */
module Background {
  import opened Text

  /** Tab ids are modelled as non-negative integers. */
  type TabId = nat

  datatype TitleRecord = TitleRecord(title: string, url: string)

  /** The registry document: `{ [tabId]: {title, url} }`. */
  type Titles = map<TabId, TitleRecord>

  /** A tab as reported by the browser; `id` is `None` when it is not a number. */
  datatype Tab = Tab(id: Option<TabId>, url: string, title: string)

  /** Commands the background worker sends to a page. */
  datatype Command = SetCustomTitle(title: string) | RemoveCustomTitle

  /** The page's answer to `get_new_title_prompt`; `newTitle` is `None` when the user cancelled. */
  datatype PromptResponse = PromptResponse(newTitle: Option<string>)

  /** The answer to `check_custom_title`. */
  datatype CheckResponse = CheckResponse(hasCustomTitle: bool, title: Option<string>)

  /** The fields of a tab-update notification the handler looks at. */
  datatype ChangeInfo = ChangeInfo(
    status: Option<string>, discarded: Option<bool>, title: Option<string>, url: Option<string>)

  /** One call of `applyTitleWithRetry`, scheduled `startDelay` ms from now. */
  datatype Delivery = Delivery(tabId: TabId, title: string, maxRetries: int, retryDelay: nat, startDelay: nat)

  /** The default arguments of `applyTitleWithRetry`. */
  const DefaultMaxRetries := 3
  const DefaultRetryDelay := 1000

  /** Retry arguments used by the individual call sites. */
  const PeriodicMaxRetries := 1
  const PeriodicRetryDelay := 500
  const UpdateMaxRetries := 2
  const UpdateRetryDelay := 500
  const ActivatedMaxRetries := 2
  const ActivatedRetryDelay := 300

  /** Gap between two consecutive deliveries after a browser restart. */
  const StartupStagger := 200

  // ---------------------------------------------------------------------------
  // The user's answer to the title prompt
  // ---------------------------------------------------------------------------

  /** What a prompt answer does to the tab's entry. */
  datatype TitleChange = Keep | Upsert(title: string) | Clear

  /** A cancelled (or missing) answer keeps the entry, an answer that is blank
      after trimming clears it, any other answer sets the trimmed text. */
  function ChangeFromResponse(response: Option<PromptResponse>): (c: TitleChange)
    ensures c.Keep? <==> response.None? || response.value.newTitle.None?
    ensures c.Clear? <==> response.Some? && response.value.newTitle.Some?
                          && AllWhitespace(response.value.newTitle.value)
    ensures c.Upsert? ==> c.title == Trim(response.value.newTitle.value) && c.title != []
                          && !IsJsWhitespace(c.title[0]) && !IsJsWhitespace(c.title[|c.title| - 1])
  {
    if response.Some? && response.value.newTitle.Some? then
      var t := Trim(response.value.newTitle.value);
      if t != [] then Upsert(t) else Clear
    else
      Keep
  }

  /** The registry after `change` is applied to tab `id`, whose address is `url`. */
  function ApplyChange(titles: Titles, id: TabId, url: string, change: TitleChange): (r: Titles)
    ensures id in r <==> change.Upsert? || (change.Keep? && id in titles)
    ensures change.Upsert? ==> r[id] == TitleRecord(change.title, url)
    ensures change.Keep? && id in titles ==> r[id] == titles[id]
    ensures forall k :: k != id ==> (k in r <==> k in titles)
    ensures forall k :: k != id && k in r ==> r[k] == titles[k]
  {
    match change
    case Keep => titles
    case Upsert(t) => titles[id := TitleRecord(t, url)]
    case Clear => titles - {id}
  }

  /** Answering the same prompt result twice leaves the registry as answering it once. */
  lemma ApplyChangeIdempotent(titles: Titles, id: TabId, url: string, change: TitleChange)
    ensures ApplyChange(ApplyChange(titles, id, url, change), id, url, change)
         == ApplyChange(titles, id, url, change)
  {
  }

  /** Clearing a tab's title and then entering the same title again on the same
      page gives back exactly the entry the registry had. */
  lemma ClearThenSetRestores(titles: Titles, id: TabId)
    requires id in titles && titles[id].title != []
    ensures ApplyChange(ApplyChange(titles, id, titles[id].url, Clear),
                        id, titles[id].url, Upsert(titles[id].title)) == titles
  {
    var r := ApplyChange(ApplyChange(titles, id, titles[id].url, Clear),
                         id, titles[id].url, Upsert(titles[id].title));
    assert r.Keys == titles.Keys;
  }

  // ---------------------------------------------------------------------------
  // The page's lookup and the lifecycle edits, as functions on the registry
  // ---------------------------------------------------------------------------

  /** `check_custom_title`: answered only for a sender tab with a numeric id. */
  function CheckCustomTitle(titles: Titles, senderTabId: Option<TabId>): (resp: Option<CheckResponse>)
    ensures resp.Some? <==> senderTabId.Some?
    ensures resp.Some? ==> (resp.value.hasCustomTitle <==> senderTabId.value in titles)
    ensures resp.Some? && resp.value.hasCustomTitle ==>
              resp.value.title == Some(titles[senderTabId.value].title)
    ensures resp.Some? && !resp.value.hasCustomTitle ==> resp.value.title.None?
  {
    match senderTabId
    case None => None
    case Some(id) =>
      if id in titles then Some(CheckResponse(true, Some(titles[id].title)))
      else Some(CheckResponse(false, None))
  }

  /** After a prompt answer, the page's lookup reports the trimmed title, no title, or
      what it reported before. */
  lemma LookupAfterChange(titles: Titles, id: TabId, url: string, response: Option<PromptResponse>)
    ensures var c := ChangeFromResponse(response);
            var r := CheckCustomTitle(ApplyChange(titles, id, url, c), Some(id));
            && (c.Upsert? ==> r == Some(CheckResponse(true, Some(c.title))))
            && (c.Clear? ==> r == Some(CheckResponse(false, None)))
            && (c.Keep? ==> r == CheckCustomTitle(titles, Some(id)))
  {
  }

  /** `onReplaced`: the record moves from `removed` to `added` (set, then delete). */
  function Replaced(titles: Titles, added: TabId, removed: TabId): (r: Titles)
    ensures removed !in titles ==> r == titles
    ensures removed in titles ==> removed !in r
    ensures removed in titles && added != removed ==> added in r && r[added] == titles[removed]
    ensures forall k :: k != added && k != removed ==> (k in r <==> k in titles)
    ensures forall k :: k != added && k != removed && k in r ==> r[k] == titles[k]
  {
    if removed in titles then titles[added := titles[removed]] - {removed} else titles
  }

  /** `onRemoved`: only the closed tab's entry goes. */
  function Removed(titles: Titles, id: TabId): (r: Titles)
    ensures id !in r
    ensures forall k :: k != id ==> (k in r <==> k in titles)
    ensures forall k :: k != id && k in r ==> r[k] == titles[k]
  {
    titles - {id}
  }

  /** `onUpdated` with a new address: the entry keeps its title and takes the address. */
  function WithUrl(titles: Titles, id: TabId, url: string): (r: Titles)
    requires id in titles
    ensures r.Keys == titles.Keys
    ensures r[id] == TitleRecord(titles[id].title, url)
    ensures forall k :: k != id && k in r ==> r[k] == titles[k]
  {
    titles[id := titles[id].(url := url)]
  }

  /** After a replacement the page in the new tab is told the old tab's title. */
  lemma LookupAfterReplace(titles: Titles, added: TabId, removed: TabId)
    requires removed in titles && added != removed
    ensures CheckCustomTitle(Replaced(titles, added, removed), Some(added))
         == Some(CheckResponse(true, Some(titles[removed].title)))
    ensures CheckCustomTitle(Replaced(titles, added, removed), Some(removed))
         == Some(CheckResponse(false, None))
  {
  }

  /** `ds` when `c` holds, nothing otherwise. */
  function When(c: bool, ds: seq<Delivery>): seq<Delivery> {
    if c then ds else []
  }

  /** The tab-update triggers: the tab came back from being discarded, it started or
      finished loading, or the page set a non-empty title other than the record's. */
  predicate ReappliesOnUpdate(info: ChangeInfo, recordTitle: string) {
    || info.discarded == Some(false)
    || info.status == Some("loading")
    || info.status == Some("complete")
    || (info.title.Some? && info.title.value != "" && info.title.value != recordTitle)
  }

  /** The deliveries one tab-update notification issues for a tab whose record holds
      `recordTitle`, trigger by trigger in the order the handler tests them; loading
      issues three, at 0, 100 and 300 ms. */
  function UpdateDeliveries(id: TabId, recordTitle: string, info: ChangeInfo): seq<Delivery> {
    var apply := Delivery(id, recordTitle, UpdateMaxRetries, UpdateRetryDelay, 0);
    When(info.discarded == Some(false), [apply])
    + When(info.status == Some("loading"), [apply, apply.(startDelay := 100), apply.(startDelay := 300)])
    + When(info.status == Some("complete"), [apply])
    + When(info.title.Some? && info.title.value != "" && info.title.value != recordTitle, [apply])
  }

  /** An update re-applies the title exactly when one of the triggers holds; every
      delivery goes to the tab with its record's title and the update retry policy;
      the 100 ms follow-up is issued exactly when the tab started loading. */
  lemma UpdateDeliveriesShape(id: TabId, recordTitle: string, info: ChangeInfo)
    ensures var r := UpdateDeliveries(id, recordTitle, info);
            && (r != [] <==> ReappliesOnUpdate(info, recordTitle))
            && (forall d :: d in r ==>
                  && d.tabId == id && d.title == recordTitle
                  && d.maxRetries == UpdateMaxRetries && d.retryDelay == UpdateRetryDelay
                  && d.startDelay in {0, 100, 300})
            && ((exists d :: d in r && d.startDelay == 100) <==> info.status == Some("loading"))
  {
    var apply := Delivery(id, recordTitle, UpdateMaxRetries, UpdateRetryDelay, 0);
    var loading := [apply, apply.(startDelay := 100), apply.(startDelay := 300)];
    var p1 := When(info.discarded == Some(false), [apply]);
    var p2 := When(info.status == Some("loading"), loading);
    var p3 := When(info.status == Some("complete"), [apply]);
    var p4 := When(info.title.Some? && info.title.value != "" && info.title.value != recordTitle, [apply]);
    var r := UpdateDeliveries(id, recordTitle, info);
    assert r == p1 + p2 + p3 + p4;
    forall d | d in r
      ensures d.tabId == id && d.title == recordTitle
      ensures d.maxRetries == UpdateMaxRetries && d.retryDelay == UpdateRetryDelay
      ensures d.startDelay in {0, 100, 300}
      ensures d.startDelay == 100 ==> info.status == Some("loading")
    {
      assert d in p1 || d in p2 || d in p3 || d in p4;
    }
    if info.status == Some("loading") {
      assert loading[1] in r;
    }
  }

  /** The address a tab-update notification carries, when it carries a non-empty one. */
  predicate HasNewUrl(info: ChangeInfo) {
    info.url.Some? && info.url.value != ""
  }

  // ---------------------------------------------------------------------------
  // Periodic sweep
  // ---------------------------------------------------------------------------

  /** The deliveries the periodic sweep issues: one per open tab (in tab order) that
      has an entry and whose displayed title differs from it. */
  function StaleDeliveries(titles: Titles, tabs: seq<Tab>): (r: seq<Delivery>)
    ensures |r| <= |tabs|
    ensures titles == map[] ==> r == []
    ensures forall i :: 0 <= i < |r| ==>
              && r[i].tabId in titles && r[i].title == titles[r[i].tabId].title
              && r[i].maxRetries == PeriodicMaxRetries && r[i].retryDelay == PeriodicRetryDelay
              && r[i].startDelay == 0
  {
    if tabs == [] then []
    else
      var last := tabs[|tabs| - 1];
      StaleDeliveries(titles, tabs[..|tabs| - 1])
      + (if IsStale(titles, last) then [StaleDelivery(titles, last)] else [])
  }

  /** Every delivery of the sweep goes to an open tab whose displayed title differs
      from its entry. */
  lemma {:induction false} StaleDeliveriesSound(titles: Titles, tabs: seq<Tab>)
    ensures AllToDriftedTabs(tabs, StaleDeliveries(titles, tabs))
  {
    if tabs != [] {
      var init := tabs[..|tabs| - 1];
      var last := tabs[|tabs| - 1];
      var prev := StaleDeliveries(titles, init);
      var r := StaleDeliveries(titles, tabs);
      StaleDeliveriesSound(titles, init);
      forall i | 0 <= i < |r|
        ensures exists j :: 0 <= j < |tabs| && tabs[j].id == Some(r[i].tabId) && tabs[j].title != r[i].title
      {
        if i < |prev| {
          assert r[i] == prev[i];
          assert exists j :: 0 <= j < |init| && init[j].id == Some(prev[i].tabId) && init[j].title != prev[i].title;
          var j :| 0 <= j < |init| && init[j].id == Some(prev[i].tabId) && init[j].title != prev[i].title;
          assert tabs[j] == init[j];
        } else {
          assert r[i] == StaleDelivery(titles, last);
          assert tabs[|tabs| - 1] == last;
        }
      }
    }
  }

  /** Every open tab whose displayed title differs from its entry gets a delivery. */
  lemma {:induction false} StaleDeliveriesComplete(titles: Titles, tabs: seq<Tab>)
    ensures AllDriftedTabsServed(titles, tabs, StaleDeliveries(titles, tabs))
  {
    if tabs != [] {
      var init := tabs[..|tabs| - 1];
      var last := tabs[|tabs| - 1];
      var prev := StaleDeliveries(titles, init);
      var r := StaleDeliveries(titles, tabs);
      StaleDeliveriesComplete(titles, init);
      forall j | 0 <= j < |tabs| && IsStale(titles, tabs[j])
        ensures exists i :: 0 <= i < |r| && r[i].tabId == tabs[j].id.value
      {
        if j < |init| {
          assert init[j] == tabs[j];
          var i :| 0 <= i < |prev| && prev[i].tabId == init[j].id.value;
          assert r[i] == prev[i];
        } else {
          assert r[|r| - 1] == StaleDelivery(titles, last);
        }
      }
    }
  }

  /** The sweep follows the open tabs: delivery i goes to stale tab f[i], and the
      tabs served come in strictly increasing position, so no tab is served twice. */
  lemma {:induction false} StaleDeliveriesInTabOrder(titles: Titles, tabs: seq<Tab>) returns (f: seq<nat>)
    ensures var r := StaleDeliveries(titles, tabs);
            && |f| == |r|
            && (forall i, j :: 0 <= i < j < |f| ==> f[i] < f[j])
            && (forall i :: 0 <= i < |f| ==>
                  f[i] < |tabs| && IsStale(titles, tabs[f[i]]) && r[i] == StaleDelivery(titles, tabs[f[i]]))
  {
    if tabs == [] {
      f := [];
    } else {
      var init := tabs[..|tabs| - 1];
      var last := tabs[|tabs| - 1];
      var prev := StaleDeliveries(titles, init);
      var r := StaleDeliveries(titles, tabs);
      var g := StaleDeliveriesInTabOrder(titles, init);
      f := g + (if IsStale(titles, last) then [|tabs| - 1] else []);
      forall i | 0 <= i < |f|
        ensures f[i] < |tabs| && IsStale(titles, tabs[f[i]]) && r[i] == StaleDelivery(titles, tabs[f[i]])
      {
        if i < |g| {
          assert f[i] == g[i] && tabs[g[i]] == init[g[i]] && r[i] == prev[i];
        } else {
          assert f[i] == |tabs| - 1 && r[i] == StaleDelivery(titles, last);
        }
      }
    }
  }

  /** Open tabs have distinct ids, so the sweep delivers to each tab at most once. */
  lemma OneDeliveryPerTab(titles: Titles, tabs: seq<Tab>)
    requires forall i, j :: 0 <= i < j < |tabs| && tabs[i].id.Some? ==> tabs[i].id != tabs[j].id
    ensures var r := StaleDeliveries(titles, tabs);
            forall i, j :: 0 <= i < j < |r| ==> r[i].tabId != r[j].tabId
  {
    var r := StaleDeliveries(titles, tabs);
    var f := StaleDeliveriesInTabOrder(titles, tabs);
    forall i, j | 0 <= i < j < |r| ensures r[i].tabId != r[j].tabId {
      assert f[i] < f[j];
    }
  }

  ghost predicate AllToDriftedTabs(tabs: seq<Tab>, r: seq<Delivery>) {
    forall i :: 0 <= i < |r| ==>
      exists j :: 0 <= j < |tabs| && tabs[j].id == Some(r[i].tabId) && tabs[j].title != r[i].title
  }

  ghost predicate AllDriftedTabsServed(titles: Titles, tabs: seq<Tab>, r: seq<Delivery>) {
    forall j :: 0 <= j < |tabs| && IsStale(titles, tabs[j]) ==>
      exists i :: 0 <= i < |r| && r[i].tabId == tabs[j].id.value
  }

  predicate IsStale(titles: Titles, tab: Tab) {
    tab.id.Some? && tab.id.value in titles && tab.title != titles[tab.id.value].title
  }

  function StaleDelivery(titles: Titles, tab: Tab): Delivery
    requires IsStale(titles, tab)
  {
    Delivery(tab.id.value, titles[tab.id.value].title, PeriodicMaxRetries, PeriodicRetryDelay, 0)
  }

  /** The sweep's loop over the open tabs. */
  method SelectStaleTabs(titles: Titles, tabs: seq<Tab>) returns (ds: seq<Delivery>)
    ensures ds == StaleDeliveries(titles, tabs)
  {
    ds := [];
    var i := 0;
    while i < |tabs|
      invariant 0 <= i <= |tabs|
      invariant ds == StaleDeliveries(titles, tabs[..i])
    {
      var tab := tabs[i];
      if tab.id.Some? && tab.id.value in titles {
        var record := titles[tab.id.value];
        if tab.title != record.title {
          ds := ds + [Delivery(tab.id.value, record.title, PeriodicMaxRetries, PeriodicRetryDelay, 0)];
        }
      }
      assert tabs[..i + 1][..i] == tabs[..i];
      i := i + 1;
    }
    assert tabs[..|tabs|] == tabs;
  }

  // ---------------------------------------------------------------------------
  // Restart reconciliation
  // ---------------------------------------------------------------------------

  /** The least element of a non-empty finite set of tab ids. */
  lemma {:induction false} Minimum(s: set<TabId>) returns (m: TabId)
    requires s != {}
    ensures m in s && forall k :: k in s ==> m <= k
  {
    var x :| x in s;
    if s == {x} {
      m := x;
    } else {
      var m' := Minimum(s - {x});
      m := if x < m' then x else m';
      forall k | k in s ensures m <= k {
        if k != x {
          assert k in s - {x};
        }
      }
    }
  }

  /** The greatest element of a non-empty finite set of tab ids. */
  lemma {:induction false} Maximum(s: set<TabId>) returns (m: TabId)
    requires s != {}
    ensures m in s && forall k :: k in s ==> k <= m
  {
    var x :| x in s;
    if s == {x} {
      m := x;
    } else {
      var m' := Maximum(s - {x});
      m := if x < m' then m' else x;
      forall k | k in s ensures k <= m {
        if k != x {
          assert k in s - {x};
        }
      }
    }
  }

  lemma HasMaximum(s: set<TabId>)
    requires s != {}
    ensures exists m :: m in s && forall k :: k in s ==> k <= m
  {
    var m := Maximum(s);
  }

  ghost function MaxKey(s: set<TabId>): (m: TabId)
    requires s != {}
    ensures m in s && forall k :: k in s ==> k <= m
  {
    HasMaximum(s);
    var m :| m in s && forall k :: k in s ==> k <= m;
    m
  }

  /** The keys among `keys` whose record has address `u`. */
  ghost function KeysWithUrl(records: Titles, keys: set<TabId>, u: string): set<TabId> {
    set k | k in keys && k in records && records[k].url == u
  }

  ghost function UrlsOf(records: Titles, keys: set<TabId>): set<string> {
    set k | k in keys && k in records :: records[k].url
  }

  /** The address index over the records under `keys`: each address maps to the record
      under the greatest key that has it. */
  ghost function UrlIndexOver(records: Titles, keys: set<TabId>): (idx: map<string, TitleRecord>)
    ensures idx.Keys == UrlsOf(records, keys)
    ensures forall u :: u in idx ==> KeysWithUrl(records, keys, u) != {}
                                     && idx[u] == records[MaxKey(KeysWithUrl(records, keys, u))]
  {
    map u | u in UrlsOf(records, keys) :: records[MaxKey(KeysWithUrlNonEmpty(records, keys, u))]
  }

  ghost function KeysWithUrlNonEmpty(records: Titles, keys: set<TabId>, u: string): (s: set<TabId>)
    requires u in UrlsOf(records, keys)
    ensures s == KeysWithUrl(records, keys, u) && s != {}
  {
    var k :| k in keys && k in records && records[k].url == u;
    assert k in KeysWithUrl(records, keys, u);
    KeysWithUrl(records, keys, u)
  }

  /** The `urlToRecord` map: every recorded address, mapped to the record of the
      greatest tab id that has it (JavaScript enumerates integer keys in ascending
      order, so the greatest key is the one written last). */
  ghost function UrlIndex(records: Titles): (idx: map<string, TitleRecord>)
    ensures idx.Keys == set k | k in records :: records[k].url
    ensures forall u :: u in idx ==>
              exists k :: (k in records && records[k].url == u && idx[u] == records[k]
                           && forall k' :: k' in records && records[k'].url == u ==> k' <= k)
  {
    var idx := UrlIndexOver(records, records.Keys);
    forall u | u in idx
      ensures exists k :: (k in records && records[k].url == u && idx[u] == records[k]
                           && forall k' :: k' in records && records[k'].url == u ==> k' <= k)
    {
      var k := UrlIndexWinner(records, u);
    }
    idx
  }

  /** The record an address maps to is the one under its greatest key. */
  ghost function UrlIndexWinner(records: Titles, u: string): (k: TabId)
    requires u in UrlIndexOver(records, records.Keys)
    ensures k in records && records[k].url == u && UrlIndexOver(records, records.Keys)[u] == records[k]
    ensures forall k' :: k' in records && records[k'].url == u ==> k' <= k
  {
    var keys := KeysWithUrl(records, records.Keys, u);
    assert forall k' :: k' in records && records[k'].url == u ==> k' in keys;
    MaxKey(keys)
  }

  /** Adding a key greater than every key seen so far makes its record the winner
      for its address and changes nothing else. */
  lemma IndexStep(records: Titles, keys: set<TabId>, k: TabId)
    requires k in records && k !in keys
    requires forall j :: j in keys ==> j < k
    ensures UrlIndexOver(records, keys + {k}) == UrlIndexOver(records, keys)[records[k].url := records[k]]
  {
    var before := UrlIndexOver(records, keys);
    var after := UrlIndexOver(records, keys + {k});
    var expected := before[records[k].url := records[k]];
    UrlsOfStep(records, keys, k);
    assert after.Keys == expected.Keys;
    forall u | u in after
      ensures after[u] == expected[u]
    {
      if u == records[k].url {
        WinnerStep(records, keys, k);
      } else {
        KeysWithUrlStep(records, keys, k, u);
      }
    }
  }

  lemma UrlsOfStep(records: Titles, keys: set<TabId>, k: TabId)
    requires k in records
    ensures UrlsOf(records, keys + {k}) == UrlsOf(records, keys) + {records[k].url}
  {
  }

  lemma WinnerStep(records: Titles, keys: set<TabId>, k: TabId)
    requires k in records && forall j :: j in keys ==> j < k
    ensures k in KeysWithUrl(records, keys + {k}, records[k].url)
    ensures MaxKey(KeysWithUrl(records, keys + {k}, records[k].url)) == k
  {
    assert k in KeysWithUrl(records, keys + {k}, records[k].url);
  }

  lemma KeysWithUrlStep(records: Titles, keys: set<TabId>, k: TabId, u: string)
    requires k in records && u != records[k].url
    ensures KeysWithUrl(records, keys + {k}, u) == KeysWithUrl(records, keys, u)
  {
  }

  /** The `for (const tabId in oldTabTitles)` loop: ids are visited in ascending
      order and a later record overwrites an earlier one with the same address. */
  method BuildUrlIndex(records: Titles) returns (index: map<string, TitleRecord>)
    ensures index == UrlIndex(records)
  {
    index := map[];
    var remaining := records.Keys;
    while remaining != {}
      invariant remaining <= records.Keys
      invariant forall a, b :: a in records.Keys - remaining && b in remaining ==> a < b
      invariant index == UrlIndexOver(records, records.Keys - remaining)
      decreases remaining
    {
      ghost var least := Minimum(remaining);
      var k :| k in remaining && forall j :: j in remaining ==> k <= j;
      var record := records[k];
      IndexStep(records, records.Keys - remaining, k);
      index := index[record.url := record];
      assert records.Keys - (remaining - {k}) == (records.Keys - remaining) + {k};
      remaining := remaining - {k};
    }
    assert records.Keys - remaining == records.Keys;
  }

  /** A tab that received a record during reconciliation. */
  datatype TabMatch = TabMatch(tabId: TabId, title: string, url: string)

  /** The `for (const tab of tabs)` loop: each tab with a numeric id whose address is
      still in the index takes that record's title, and the address leaves the index. */
  function Matches(index: map<string, TitleRecord>, tabs: seq<Tab>): (ms: seq<TabMatch>)
    ensures |ms| <= |tabs|
    ensures forall i :: 0 <= i < |ms| ==> ms[i].url in index && ms[i].title == index[ms[i].url].title
    decreases |tabs|
  {
    if tabs == [] then []
    else
      var t := tabs[0];
      if t.url in index && t.id.Some? then
        [TabMatch(t.id.value, index[t.url].title, t.url)] + Matches(index - {t.url}, tabs[1..])
      else
        Matches(index, tabs[1..])
  }

  /** Every match is an open tab, under that tab's id and with that tab's address. */
  lemma {:induction false} MatchesAreOpenTabs(index: map<string, TitleRecord>, tabs: seq<Tab>)
    ensures AllClaimed(tabs, Matches(index, tabs))
    decreases |tabs|
  {
    if tabs != [] {
      var t := tabs[0];
      var ms := Matches(index, tabs);
      if t.url in index && t.id.Some? {
        var rest := Matches(index - {t.url}, tabs[1..]);
        MatchesAreOpenTabs(index - {t.url}, tabs[1..]);
        assert ms == [TabMatch(t.id.value, index[t.url].title, t.url)] + rest;
        forall i | 0 <= i < |ms| ensures ClaimedBy(tabs, ms[i]) {
          if i == 0 {
            assert ClaimedAt(tabs, ms[0], 0);
          } else {
            assert ms[i] == rest[i - 1] && ClaimedBy(tabs[1..], rest[i - 1]);
            ClaimedByTail(tabs, ms[i]);
          }
        }
      } else {
        MatchesAreOpenTabs(index, tabs[1..]);
        assert ms == Matches(index, tabs[1..]);
        forall i | 0 <= i < |ms| ensures ClaimedBy(tabs, ms[i]) {
          assert ClaimedBy(tabs[1..], ms[i]);
          ClaimedByTail(tabs, ms[i]);
        }
      }
    }
  }

  ghost predicate AllClaimed(tabs: seq<Tab>, ms: seq<TabMatch>) {
    forall i :: 0 <= i < |ms| ==> ClaimedBy(tabs, ms[i])
  }

  /** Open tab `j` has the match's id and address. */
  predicate ClaimedAt(tabs: seq<Tab>, m: TabMatch, j: int) {
    0 <= j < |tabs| && tabs[j].id == Some(m.tabId) && tabs[j].url == m.url
  }

  ghost predicate ClaimedBy(tabs: seq<Tab>, m: TabMatch) {
    exists j :: ClaimedAt(tabs, m, j)
  }

  lemma ClaimedByTail(tabs: seq<Tab>, m: TabMatch)
    requires tabs != [] && ClaimedBy(tabs[1..], m)
    ensures ClaimedBy(tabs, m)
  {
    var j :| ClaimedAt(tabs[1..], m, j);
    assert ClaimedAt(tabs, m, j + 1);
  }

  /** The `newTabTitles` object built from the matches, in order. */
  function RecordsOf(ms: seq<TabMatch>): (r: Titles)
    ensures r.Keys == set i | 0 <= i < |ms| :: ms[i].tabId
    ensures forall id :: id in r ==> exists i :: 0 <= i < |ms| && ms[i].tabId == id
                                                 && r[id] == TitleRecord(ms[i].title, ms[i].url)
  {
    if ms == [] then map[]
    else
      var init := ms[..|ms| - 1];
      var m := ms[|ms| - 1];
      var prev := RecordsOf(init);
      assert ms == init + [m];
      RecordsOfGrow(ms, init, m, prev);
      prev[m.tabId := TitleRecord(m.title, m.url)]
  }

  /** The step of `RecordsOf`: what holds of the records of all but the last match
      holds, with the last one's entry added, of all of them. */
  lemma RecordsOfGrow(ms: seq<TabMatch>, init: seq<TabMatch>, m: TabMatch, prev: Titles)
    requires ms == init + [m]
    requires prev.Keys == set i | 0 <= i < |init| :: init[i].tabId
    requires forall id :: id in prev ==> exists i :: 0 <= i < |init| && init[i].tabId == id
                                                    && prev[id] == TitleRecord(init[i].title, init[i].url)
    ensures var r := prev[m.tabId := TitleRecord(m.title, m.url)];
            && r.Keys == (set i | 0 <= i < |ms| :: ms[i].tabId)
            && forall id :: id in r ==> exists i :: 0 <= i < |ms| && ms[i].tabId == id
                                                    && r[id] == TitleRecord(ms[i].title, ms[i].url)
  {
    var r := prev[m.tabId := TitleRecord(m.title, m.url)];
    assert forall i :: 0 <= i < |init| ==> ms[i] == init[i];
    assert ms[|init|] == m;
    assert (set i | 0 <= i < |ms| :: ms[i].tabId) == (set i | 0 <= i < |init| :: init[i].tabId) + {m.tabId} by {
      forall i | 0 <= i < |ms|
        ensures ms[i].tabId in (set i | 0 <= i < |init| :: init[i].tabId) + {m.tabId}
      {
        if i < |init| {
          assert ms[i].tabId == init[i].tabId;
        }
      }
    }
    forall id | id in r
      ensures exists i :: 0 <= i < |ms| && ms[i].tabId == id && r[id] == TitleRecord(ms[i].title, ms[i].url)
    {
      if id != m.tabId {
        var i :| 0 <= i < |init| && init[i].tabId == id && prev[id] == TitleRecord(init[i].title, init[i].url);
        assert ms[i] == init[i];
      }
    }
  }

  /** One step of the matching walk, from tab `i` on. */
  lemma MatchesStep(index: map<string, TitleRecord>, tabs: seq<Tab>, i: nat)
    requires i < |tabs|
    ensures Matches(index, tabs[i..])
            == if tabs[i].url in index && tabs[i].id.Some?
               then [TabMatch(tabs[i].id.value, index[tabs[i].url].title, tabs[i].url)]
                    + Matches(index - {tabs[i].url}, tabs[i + 1..])
               else Matches(index, tabs[i + 1..])
  {
    assert tabs[i..][1..] == tabs[i + 1..];
  }

  lemma RecordsOfSnoc(ms: seq<TabMatch>, m: TabMatch)
    ensures RecordsOf(ms + [m]) == RecordsOf(ms)[m.tabId := TitleRecord(m.title, m.url)]
  {
    assert (ms + [m])[..|ms|] == ms;
  }

  lemma AppendAssoc(xs: seq<TabMatch>, m: TabMatch, ys: seq<TabMatch>)
    ensures xs + ([m] + ys) == (xs + [m]) + ys
  {
  }

  /** The matching loop of the restart handler. */
  method MatchOpenTabs(index: map<string, TitleRecord>, tabs: seq<Tab>)
    returns (newTitles: Titles, matched: seq<TabMatch>)
    ensures matched == Matches(index, tabs)
    ensures newTitles == RecordsOf(matched)
  {
    newTitles := map[];
    matched := [];
    var urlToRecord := index;
    var i := 0;
    while i < |tabs|
      invariant 0 <= i <= |tabs|
      invariant matched + Matches(urlToRecord, tabs[i..]) == Matches(index, tabs)
      invariant newTitles == RecordsOf(matched)
    {
      var tab := tabs[i];
      MatchesStep(urlToRecord, tabs, i);
      if tab.url in urlToRecord && tab.id.Some? {
        var record := urlToRecord[tab.url];
        var m := TabMatch(tab.id.value, record.title, tab.url);
        newTitles := newTitles[tab.id.value := TitleRecord(record.title, tab.url)];
        RecordsOfSnoc(matched, m);
        AppendAssoc(matched, m, Matches(urlToRecord - {tab.url}, tabs[i + 1..]));
        matched := matched + [m];
        urlToRecord := urlToRecord - {tab.url};
      }
      i := i + 1;
    }
  }

  /** The `forEach` that schedules one delivery per match, 200 ms apart. */
  method ScheduleStaggered(matched: seq<TabMatch>) returns (ds: seq<Delivery>)
    ensures |ds| == |matched|
    ensures forall i :: 0 <= i < |ds| ==>
              ds[i] == Delivery(matched[i].tabId, matched[i].title, DefaultMaxRetries, DefaultRetryDelay,
                                i * StartupStagger)
  {
    ds := [];
    for index := 0 to |matched|
      invariant |ds| == index
      invariant forall i :: 0 <= i < index ==>
                  ds[i] == Delivery(matched[i].tabId, matched[i].title, DefaultMaxRetries, DefaultRetryDelay,
                                    i * StartupStagger)
    {
      ds := ds + [Delivery(matched[index].tabId, matched[index].title, DefaultMaxRetries, DefaultRetryDelay,
                           index * StartupStagger)];
    }
  }

  /** The first match in `ms` with address `u`. */
  function MatchFor(ms: seq<TabMatch>, u: string): (r: Option<TabMatch>)
    ensures r.Some? ==> r.value in ms && r.value.url == u
    ensures r.None? ==> forall i :: 0 <= i < |ms| ==> ms[i].url != u
  {
    if ms == [] then None
    else if ms[0].url == u then Some(ms[0])
    else MatchFor(ms[1..], u)
  }

  /** The id of the first open tab with a numeric id whose address is `u`. */
  function FirstClaimant(tabs: seq<Tab>, u: string): Option<TabId> {
    if tabs == [] then None
    else if tabs[0].url == u && tabs[0].id.Some? then tabs[0].id
    else FirstClaimant(tabs[1..], u)
  }

  /** First match wins: a recorded address goes to the first open tab showing it, and
      an address no open tab shows (or no record has) gets no match. */
  lemma {:induction false} FirstOpenTabClaimsRecord(index: map<string, TitleRecord>, tabs: seq<Tab>, u: string)
    ensures MatchFor(Matches(index, tabs), u)
         == if u in index && FirstClaimant(tabs, u).Some?
            then Some(TabMatch(FirstClaimant(tabs, u).value, index[u].title, u))
            else None
    decreases |tabs|
  {
    if tabs != [] {
      var t := tabs[0];
      if t.url in index && t.id.Some? {
        if u != t.url {
          FirstOpenTabClaimsRecord(index - {t.url}, tabs[1..], u);
        }
      } else {
        FirstOpenTabClaimsRecord(index, tabs[1..], u);
      }
    }
  }

  predicate DistinctUrls(ms: seq<TabMatch>) {
    forall i, j :: 0 <= i < j < |ms| ==> ms[i].url != ms[j].url
  }

  /** At most one open tab receives the record of any one address. */
  lemma {:induction false} OneMatchPerUrl(index: map<string, TitleRecord>, tabs: seq<Tab>)
    ensures DistinctUrls(Matches(index, tabs))
    decreases |tabs|
  {
    if tabs != [] {
      var t := tabs[0];
      if t.url in index && t.id.Some? {
        var rest := Matches(index - {t.url}, tabs[1..]);
        var ms := Matches(index, tabs);
        assert ms == [TabMatch(t.id.value, index[t.url].title, t.url)] + rest;
        OneMatchPerUrl(index - {t.url}, tabs[1..]);
        forall i, j | 0 <= i < j < |ms| ensures ms[i].url != ms[j].url {
          assert ms[j] == rest[j - 1];
          assert rest[j - 1].url in index - {t.url};
          if i > 0 {
            assert ms[i] == rest[i - 1];
            assert rest[i - 1].url != rest[j - 1].url;
          }
        }
      } else {
        OneMatchPerUrl(index, tabs[1..]);
        assert Matches(index, tabs) == Matches(index, tabs[1..]);
      }
    }
  }

  /** After reconciliation every entry belongs to an open tab showing the entry's
      address, and carries the title of the record last stored for that address;
      a stored record whose address no open tab shows leaves no entry. */
  lemma ReconciledEntries(records: Titles, tabs: seq<Tab>)
    ensures var r := RecordsOf(Matches(UrlIndex(records), tabs));
            forall id :: id in r ==>
              && ClaimedBy(tabs, TabMatch(id, r[id].title, r[id].url))
              && (exists k :: k in records && records[k].url == r[id].url && r[id].title == records[k].title
                             && forall k' :: k' in records && records[k'].url == r[id].url ==> k' <= k)
  {
    var idx := UrlIndex(records);
    var ms := Matches(idx, tabs);
    var r := RecordsOf(ms);
    forall id | id in r
      ensures ClaimedBy(tabs, TabMatch(id, r[id].title, r[id].url))
      ensures exists k :: k in records && records[k].url == r[id].url && r[id].title == records[k].title
                          && forall k' :: k' in records && records[k'].url == r[id].url ==> k' <= k
    {
      var i :| 0 <= i < |ms| && ms[i].tabId == id && r[id] == TitleRecord(ms[i].title, ms[i].url);
      assert ms[i].url in idx;
      MatchesAreOpenTabs(idx, tabs);
    }
  }

  // ---------------------------------------------------------------------------
  // Delivery with retry
  // ---------------------------------------------------------------------------

  /** The outcome of one `chrome.tabs.sendMessage` call. */
  datatype SendOutcome = Delivered | Failed(message: string)

  /** How a delivery sequence ends. `Exhausted` is the branch that warns after the last
      attempt; `Abandoned` is an other-class failure with attempts left, which is
      neither retried nor reported. */
  datatype RetryEnd = Applied | Exhausted | Abandoned

  /** The error texts that mean the receiving page script does not exist (yet). */
  const NoReceiverMarkers: seq<string> := [
    "Receiving end does not exist",
    "Could not establish connection",
    "The message port closed",
    "No matching recipient",
    "Disconnected port"
  ]

  /** `message` contains one of `markers`, tested in order. */
  predicate MentionsAny(message: string, markers: seq<string>) {
    markers != [] && (Includes(message, markers[0]) || MentionsAny(message, markers[1..]))
  }

  lemma {:induction false} MentionsAnyExists(message: string, markers: seq<string>)
    ensures MentionsAny(message, markers) <==> exists j :: 0 <= j < |markers| && Includes(message, markers[j])
    decreases |markers|
  {
    if markers != [] {
      MentionsAnyExists(message, markers[1..]);
      if exists j :: 0 <= j < |markers| && Includes(message, markers[j]) {
        var j :| 0 <= j < |markers| && Includes(message, markers[j]);
        if j > 0 {
          assert markers[1..][j - 1] == markers[j];
        }
      }
      if MentionsAny(message, markers[1..]) {
        var j :| 0 <= j < |markers[1..]| && Includes(message, markers[1..][j]);
        assert markers[j + 1] == markers[1..][j];
      }
    }
  }

  /** The error text of a failure whose receiving page script does not exist (yet). */
  predicate IsNoReceiver(message: string) {
    MentionsAny(message, NoReceiverMarkers)
  }

  /** A failure counts as a missing receiver exactly when its text contains one of
      the five markers. */
  lemma NoReceiverIffMarker(message: string)
    ensures IsNoReceiver(message) <==>
              exists j :: 0 <= j < |NoReceiverMarkers| && Includes(message, NoReceiverMarkers[j])
  {
    MentionsAnyExists(message, NoReceiverMarkers);
  }

  /** The number of attempts a delivery can make: the first send always happens. */
  function AttemptBound(maxRetries: int): (n: nat)
    ensures n >= 1 && n >= maxRetries
    ensures maxRetries >= 1 ==> n == maxRetries
    ensures maxRetries < 1 ==> n == 1
  {
    if maxRetries < 1 then 1 else maxRetries
  }

  /** `applyTitleWithRetry`: `outcome(k)` is what the browser reports for the k-th
      send (counting from 0). Sends stop on success, on a failure that is not a
      missing receiver, and when the attempt count reaches `maxRetries`. */
  method ApplyTitleWithRetry(d: Delivery, outcome: nat -> SendOutcome) returns (attempts: nat, end: RetryEnd)
    ensures 1 <= attempts <= AttemptBound(d.maxRetries)
    ensures forall k :: 0 <= k < attempts - 1 ==> outcome(k).Failed? && IsNoReceiver(outcome(k).message)
    ensures end == Applied <==> outcome(attempts - 1).Delivered?
    ensures end == Exhausted <==> outcome(attempts - 1).Failed? && attempts >= d.maxRetries
    ensures end == Abandoned <==> outcome(attempts - 1).Failed? && attempts < d.maxRetries
                                  && !IsNoReceiver(outcome(attempts - 1).message)
  {
    attempts := 0;
    var retrying := true;
    end := Applied;
    while retrying
      invariant 0 <= attempts <= AttemptBound(d.maxRetries)
      invariant retrying ==> attempts == 0 || attempts < d.maxRetries
      invariant forall k :: 0 <= k < attempts - (if retrying then 0 else 1) ==>
                  outcome(k).Failed? && IsNoReceiver(outcome(k).message)
      invariant !retrying ==> attempts >= 1
      invariant !retrying ==> (end == Applied <==> outcome(attempts - 1).Delivered?)
      invariant !retrying ==> (end == Exhausted <==> outcome(attempts - 1).Failed? && attempts >= d.maxRetries)
      invariant !retrying ==> (end == Abandoned <==> outcome(attempts - 1).Failed? && attempts < d.maxRetries
                                                     && !IsNoReceiver(outcome(attempts - 1).message))
      decreases AttemptBound(d.maxRetries) - attempts, retrying
    {
      attempts := attempts + 1;
      match outcome(attempts - 1)
      case Failed(message) =>
        var noReceiver := IsNoReceiver(message);
        if noReceiver && attempts < d.maxRetries {
          // retried after d.retryDelay ms
        } else if attempts >= d.maxRetries {
          end := Exhausted;
          retrying := false;
        } else {
          end := Abandoned;
          retrying := false;
        }
      case Delivered =>
        end := Applied;
        retrying := false;
    }
  }

  /** What the browser reports for one `get_new_title_prompt` send. */
  datatype PromptOutcome = Answered(response: Option<PromptResponse>) | Unreachable(message: string)

  /** What happens after the reload: `None` when the tab never reports `complete`;
      otherwise the tab `chrome.tabs.get` returns (`None` when it is gone) and what
      the prompt sent to it reports. */
  type ReloadOutcome = Option<(Option<Tab>, PromptOutcome)>

  /** A run of the prompt request: how many prompt messages were sent, and the tab
      and answer handed to `processNewTitleResponse`, if any were. */
  datatype PromptRun = PromptRun(sends: nat, answer: Option<(Tab, Option<PromptResponse>)>)

  predicate HasNumericId(tab: Option<Tab>) {
    tab.Some? && tab.value.id.Some?
  }

  /** `requestPromptForTab(tab, hasReloaded)` when the send reports `first` and, should
      the tab be reloaded, the reload ends as `afterReload`. A missing receiver on a
      first request reloads the tab and asks its fresh copy once more; any other
      failure, or a failure after the reload, gives up. */
  function RequestPrompt(tab: Option<Tab>, hasReloaded: bool, first: PromptOutcome, afterReload: ReloadOutcome)
    : (run: PromptRun)
    ensures !HasNumericId(tab) <==> run.sends == 0
    ensures run.sends <= (if hasReloaded then 1 else 2)
    ensures run.sends == 2 <==>
              && HasNumericId(tab) && !hasReloaded && first.Unreachable? && IsNoReceiver(first.message)
              && afterReload.Some? && HasNumericId(afterReload.value.0)
    ensures run.answer.Some? ==> run.answer.value.0.id.Some?
    ensures run.sends == 1 ==>
              (run.answer.Some? <==> first.Answered?)
              && (run.answer.Some? ==> run.answer.value == (tab.value, first.response))
    ensures run.sends == 2 ==>
              (run.answer.Some? <==> afterReload.value.1.Answered?)
              && (run.answer.Some? ==> run.answer.value == (afterReload.value.0.value, afterReload.value.1.response))
    decreases if hasReloaded then 0 else 1
  {
    if !HasNumericId(tab) then PromptRun(0, None)
    else
      match first
      case Answered(response) => PromptRun(1, Some((tab.value, response)))
      case Unreachable(message) =>
        if IsNoReceiver(message) && !hasReloaded then
          match afterReload
          case None => PromptRun(1, None)
          case Some((freshTab, second)) =>
            var again := RequestPrompt(freshTab, true, second, None);
            PromptRun(1 + again.sends, again.answer)
        else PromptRun(1, None)
  }

  // ---------------------------------------------------------------------------
  // The registry object
  // ---------------------------------------------------------------------------

  /** `tabTitlesCache` together with the `tabTitles` document in extension storage
      (`None` before anything was ever stored). */
  class Registry {
    var cache: Titles
    var stored: Option<Titles>

    /** A freshly started worker: empty cache over whatever storage holds. */
    constructor (stored: Option<Titles>)
      ensures cache == map[] && this.stored == stored
    {
      cache := map[];
      this.stored := stored;
    }

    /** `loadTitlesToCache`: the cache becomes the stored document, or empty. */
    method Load()
      modifies this`cache
      ensures cache == stored.GetOr(map[])
    {
      cache := stored.GetOr(map[]);
    }

    /** `chrome.storage.local.set({tabTitles: tabTitlesCache})`. */
    method Persist()
      modifies this`stored
      ensures stored == Some(cache)
    {
      stored := Some(cache);
    }

    /** `processNewTitleResponse`: apply the user's answer for `tab`, persist, and then
        tell the page to set or remove its title. */
    method ProcessNewTitleResponse(tab: Tab, response: Option<PromptResponse>)
      returns (sent: Option<(TabId, Command)>)
      modifies this
      ensures tab.id.None? ==> cache == old(cache) && stored == old(stored) && sent == None
      ensures tab.id.Some? ==>
                var c := ChangeFromResponse(response);
                && cache == ApplyChange(old(cache), tab.id.value, tab.url, c)
                && (c.Keep? ==> stored == old(stored) && sent == None)
                && (c.Upsert? ==> stored == Some(cache) && sent == Some((tab.id.value, SetCustomTitle(c.title))))
                && (c.Clear? ==> stored == Some(cache) && sent == Some((tab.id.value, RemoveCustomTitle)))
    {
      sent := None;
      if tab.id.None? {
        return;
      }
      var id := tab.id.value;
      if response.Some? && response.value.newTitle.Some? {
        var newTitle := Trim(response.value.newTitle.value);
        if newTitle != [] {
          cache := cache[id := TitleRecord(newTitle, tab.url)];
          Persist();
          sent := Some((id, SetCustomTitle(newTitle)));
        } else {
          cache := cache - {id};
          Persist();
          sent := Some((id, RemoveCustomTitle));
        }
      }
    }

    /** `onReplaced`: move the record to the new tab id, persist, redeliver. */
    method OnReplaced(added: TabId, removed: TabId) returns (delivery: Option<Delivery>)
      modifies this
      ensures cache == Replaced(old(cache), added, removed)
      ensures removed in old(cache) ==>
                && stored == Some(cache)
                && delivery == Some(Delivery(added, old(cache)[removed].title, DefaultMaxRetries, DefaultRetryDelay, 0))
      ensures removed !in old(cache) ==> stored == old(stored) && delivery == None
    {
      delivery := None;
      if removed in cache {
        var record := cache[removed];
        cache := cache[added := record];
        cache := cache - {removed};
        Persist();
        delivery := Some(Delivery(added, record.title, DefaultMaxRetries, DefaultRetryDelay, 0));
      }
    }

    /** `onRemoved`: forget the closed tab and persist, if it had an entry. */
    method OnRemoved(id: TabId)
      modifies this
      ensures cache == Removed(old(cache), id)
      ensures stored == if id in old(cache) then Some(cache) else old(stored)
    {
      if id in cache {
        cache := cache - {id};
        Persist();
      }
    }

    /** `onActivated`: reload an empty cache, then redeliver the tab's title. */
    method OnActivated(id: TabId) returns (delivery: Option<Delivery>)
      modifies this`cache
      ensures cache == if old(cache) == map[] then stored.GetOr(map[]) else old(cache)
      ensures delivery == if id in cache
                          then Some(Delivery(id, cache[id].title, ActivatedMaxRetries, ActivatedRetryDelay, 0))
                          else None
    {
      if |cache| == 0 {
        Load();
      }
      delivery := None;
      if id in cache {
        delivery := Some(Delivery(id, cache[id].title, ActivatedMaxRetries, ActivatedRetryDelay, 0));
      }
    }

    /** The re-applications one update notification triggers for a tab whose entry
        holds `recordTitle`, in the order the handler tests the triggers. */
    static method TriggeredDeliveries(id: TabId, recordTitle: string, info: ChangeInfo)
      returns (deliveries: seq<Delivery>)
      ensures deliveries == UpdateDeliveries(id, recordTitle, info)
    {
      var apply := Delivery(id, recordTitle, UpdateMaxRetries, UpdateRetryDelay, 0);
      ghost var byDiscard := When(info.discarded == Some(false), [apply]);
      ghost var byLoading := When(info.status == Some("loading"), [apply, apply.(startDelay := 100), apply.(startDelay := 300)]);
      ghost var byComplete := When(info.status == Some("complete"), [apply]);
      ghost var byTitle := When(info.title.Some? && info.title.value != "" && info.title.value != recordTitle, [apply]);
      deliveries := [];
      if info.discarded == Some(false) {
        deliveries := deliveries + [apply];
      }
      assert deliveries == byDiscard;
      if info.status == Some("loading") {
        deliveries := deliveries + [apply, apply.(startDelay := 100), apply.(startDelay := 300)];
      }
      assert deliveries == byDiscard + byLoading;
      if info.status == Some("complete") {
        deliveries := deliveries + [apply];
      }
      assert deliveries == byDiscard + byLoading + byComplete;
      if info.title.Some? && info.title.value != "" && info.title.value != recordTitle {
        deliveries := deliveries + [apply];
      }
      assert deliveries == byDiscard + byLoading + byComplete + byTitle;
    }

    /** `onUpdated`: reload an empty cache; for a tab with an entry, redeliver on each
        trigger and record a new address. */
    method OnUpdated(id: TabId, info: ChangeInfo) returns (deliveries: seq<Delivery>)
      modifies this
      ensures var loaded := if old(cache) == map[] then old(stored).GetOr(map[]) else old(cache);
              && (id !in loaded ==> cache == loaded && stored == old(stored) && deliveries == [])
              && (id in loaded ==> deliveries == UpdateDeliveries(id, loaded[id].title, info))
              && (id in loaded && HasNewUrl(info) ==> cache == WithUrl(loaded, id, info.url.value)
                                                      && stored == Some(cache))
              && (id in loaded && !HasNewUrl(info) ==> cache == loaded && stored == old(stored))
    {
      if |cache| == 0 {
        Load();
      }
      deliveries := [];
      if id !in cache {
        return;
      }
      var record := cache[id];
      deliveries := TriggeredDeliveries(id, record.title, info);
      if HasNewUrl(info) {
        cache := cache[id := record.(url := info.url.value)];
        Persist();
      }
    }

    /** `performPeriodicTitleCheck`: reload an empty cache; then redeliver to every
        open tab whose displayed title drifted from its entry. */
    method PerformPeriodicTitleCheck(tabs: seq<Tab>) returns (deliveries: seq<Delivery>)
      modifies this`cache
      ensures cache == if old(cache) == map[] then stored.GetOr(map[]) else old(cache)
      ensures deliveries == StaleDeliveries(cache, tabs)
    {
      if |cache| == 0 {
        Load();
      }
      if |cache| == 0 {
        deliveries := [];
        return;
      }
      deliveries := SelectStaleTabs(cache, tabs);
    }

    /** `onStartup`: reload, re-key every record by the id of the first open tab
        showing its address, drop the rest, persist, and schedule staggered deliveries. */
    method OnStartup(tabs: seq<Tab>) returns (deliveries: seq<Delivery>)
      modifies this
      ensures var records := old(stored).GetOr(map[]);
              var ms := Matches(UrlIndex(records), tabs);
              && (records == map[] ==> cache == map[] && stored == old(stored) && deliveries == [])
              && (records != map[] ==>
                    && cache == RecordsOf(ms)
                    && stored == Some(cache)
                    && |deliveries| == |ms|
                    && forall i :: 0 <= i < |ms| ==>
                         deliveries[i] == Delivery(ms[i].tabId, ms[i].title, DefaultMaxRetries,
                                                   DefaultRetryDelay, i * StartupStagger))
    {
      Load();
      var oldTabTitles := cache;
      if |oldTabTitles| == 0 {
        deliveries := [];
        return;
      }
      var urlToRecord := BuildUrlIndex(oldTabTitles);
      var newTabTitles, tabsToProcess := MatchOpenTabs(urlToRecord, tabs);
      cache := newTabTitles;
      Persist();
      deliveries := ScheduleStaggered(tabsToProcess);
    }
  }
}
