# pawsome-tabs: a Dafny model of the title registry, the title gatekeeper and the element picker

The extension lets the user give a browser tab a custom title that survives
page scripts, navigation, tab replacement and browser restarts. Three pieces
of logic do the work, and each is modelled here with its own module:

- `background.dfy` (module `Background`) covers the background worker's registry.
  - `tabTitlesCache` is a map from tab id to `{title, url}`. It lives in the `Registry` class, next to the `tabTitles` document in extension storage.
  - The handlers that edit the registry are modelled: the prompt answer, tab replacement, tab removal, tab update, tab activation, the periodic sweep and restart reconciliation.
  - Reconciliation re-keys the records by page address. The latest record wins for a duplicate address, the first open tab wins a record, and unmatched records are dropped.
  - Also modelled: the page's `check_custom_title` lookup, the retry loop of `applyTitleWithRetry`, and the prompt request with its one reload.
- `content.dfy` (module `Content`) covers the page-side gatekeeper.
  - The intercepted `document.title` setter lets a write through, blocks it, or passes it, depending on two flags.
  - The `set_custom_title` and `remove_custom_title` handlers are modelled, including the 500 ms re-assertion.
  - The model uses a `GuardState` value with transition functions, and a `TitleGuard` class whose methods are proved against those functions.
- `dom_selector.dfy` (module `DomSelector`) covers the element picker.
  - `getQuery` is modelled.
  - `getCssSelectorShort` is modelled as a walk up the ancestor chain, with the `[name=...]` stripping that follows.
  - The callback lifecycle (`init`, `stop`, Escape, click, and the highlight that swallows the next click) is a `Picker` class. It keeps a log of callback calls and proves that each `init` session fires at most once.
- `text.dfy` (module `Text`) holds the JavaScript string built-ins the three use: `trim`, `includes`, `join` and `replace(/ +/g, '.')`.

Browser calls are parameters or results, never effects:
- the stored document is a field;
- the list of open tabs is an argument;
- a message send or a scheduled `applyTitleWithRetry` call is a `Delivery` value, with its delay in milliseconds;
- the outcome of each send is a function argument;
- `document.querySelectorAll(sel)` is an oracle `query(sel)`. It says whether exactly one element matches, or that the call throws on an invalid selector.

## Model

| member | source | states |
|---|---|---|
| Text.Trim | libs/dom-selector.js:228-230 | The result is the input with a leading and a trailing run of whitespace cut off. It has no whitespace at either edge and is empty exactly when the input is all whitespace |
| Text.TrimIdempotent | background.js:179 | Trimming a trimmed string changes nothing |
| Text.Includes | background.js:80-85 | `s.includes(sub)` holds exactly when `sub` occurs in `s` at some offset |
| Text.CollapseSpaceRuns | libs/dom-selector.js:228 | Text without spaces comes back unchanged. The result has no space, is no longer than the input, and adds no character other than `.` |
| Text.CollapseRun | libs/dom-selector.js:228 | A maximal run of spaces after space-free text becomes a single `.`, and the text before it is kept as is |
| Background.Registry.Load | background.js:8-16 | The cache becomes the stored document, or the empty map when nothing is stored |
| Background.ChangeFromResponse | background.js:178-196 | A cancelled or missing answer keeps the entry. An answer that is blank after trimming clears it. Any other answer sets the trimmed title, which is non-empty with no whitespace at either edge |
| Background.ApplyChange | background.js:178-196 | Only the answered tab's entry changes. A set stores the trimmed title with the tab's address, a clear removes the entry, and a keep leaves it |
| Background.ApplyChangeIdempotent | background.js:178-196 | Applying the same answer twice gives the registry that applying it once gives |
| Background.ClearThenSetRestores | background.js:178-196 | Clearing an entry and re-entering its title on the same page restores the registry exactly |
| Background.Registry.ProcessNewTitleResponse | background.js:173-197 | A tab without a numeric id changes nothing. Otherwise the cache is the answer applied to it; a set or clear persists the cache and sends `set_custom_title` with the trimmed title or `remove_custom_title`; a keep changes neither the cache nor storage and sends nothing |
| Background.CheckCustomTitle | background.js:153-170 | Answered only for a sender tab with a numeric id. `hasCustomTitle` holds exactly when the tab has an entry, and the entry's title comes with it |
| Background.LookupAfterChange | background.js:153-197 | After a prompt answer the page's lookup reports the trimmed title, no title, or what it reported before |
| Background.Replaced | background.js:311-325 | The record under the removed id moves to the added id. No record means no change, and other ids are untouched |
| Background.LookupAfterReplace | background.js:153-170 | After a replacement the new tab's lookup reports the old tab's title and the old tab has none |
| Background.Registry.OnReplaced | background.js:311-325 | The cache becomes `Replaced` of the old cache. With a record it persists and schedules one default-policy delivery of its title to the added tab; without one it changes nothing and schedules nothing |
| Background.Removed | background.js:342-347 | Only the closed tab's entry goes |
| Background.Registry.OnRemoved | background.js:342-347 | The cache becomes `Removed` of the old cache, and it is persisted only when the tab had an entry |
| Background.Registry.OnActivated | background.js:328-339 | An empty cache is reloaded first. A tab with an entry gets one delivery of its title with 2 attempts and a 300 ms retry delay; any other tab gets none |
| Background.UpdateDeliveriesShape | background.js:274-301 | An update re-applies the title exactly when one of the four triggers holds. Every delivery targets the tab with its record's title and the 2-attempt, 500 ms policy at 0, 100 or 300 ms. The 100 ms follow-up exists exactly when the tab started loading |
| Background.Registry.TriggeredDeliveries | background.js:280-301 | The triggers fire in the handler's order: discarded-to-live, loading (three deliveries), complete, then a differing non-empty page title |
| Background.WithUrl | background.js:304-307 | A new address replaces the entry's address, keeps its title, and leaves other entries alone |
| Background.Registry.OnUpdated | background.js:263-308 | An empty cache is reloaded first. A tab without an entry gets nothing. A tab with one gets the triggered deliveries, and a non-empty new address is stored and persisted |
| Background.StaleDeliveries | background.js:46-59 | No more deliveries than open tabs, and none for an empty registry. Each delivery targets a tab with an entry, carries that entry's title, and uses 1 attempt with a 500 ms delay |
| Background.StaleDeliveriesSound | background.js:47-57 | Every sweep delivery goes to an open tab whose displayed title differs from the delivered one |
| Background.StaleDeliveriesComplete | background.js:47-57 | Every open tab whose displayed title differs from its entry gets a sweep delivery |
| Background.StaleDeliveriesInTabOrder | background.js:47-57 | Delivery i goes to the stale open tab at a position that strictly increases with i: tabs are served in tab order, each at most once |
| Background.OneDeliveryPerTab | background.js:47-57 | With the distinct ids the browser gives open tabs, no two sweep deliveries go to the same tab |
| Background.SelectStaleTabs | background.js:47-59 | The sweep loop computes exactly `StaleDeliveries` |
| Background.Registry.PerformPeriodicTitleCheck | background.js:39-61 | An empty cache is reloaded. The deliveries are the stale ones for the loaded cache; an empty cache yields none |
| Background.UrlIndex | background.js:115-119 | The address index holds every recorded address, each mapped to the record under the greatest tab id with that address. Integer keys are visited in ascending order, so that record is the one written last |
| Background.IndexStep | background.js:116-118 | Visiting a key greater than all visited so far makes its record the winner for its address and changes no other address |
| Background.BuildUrlIndex | background.js:115-119 | The loop over the ids in ascending order builds exactly `UrlIndex` |
| Background.Matches | background.js:125-133 | At most one match per open tab. Each match's address is in the index and its title is the indexed record's |
| Background.MatchesAreOpenTabs | background.js:125-130 | Every match is an open tab with a numeric id, under that id and that tab's address |
| Background.FirstOpenTabClaimsRecord | background.js:125-131 | A recorded address goes to the first open tab with a numeric id that shows it. An address no tab shows, or no record has, gets no match |
| Background.OneMatchPerUrl | background.js:131 | No two matches share an address |
| Background.RecordsOf | background.js:129 | The new cache's keys are the matched tab ids, each holding a matched title and address |
| Background.MatchOpenTabs | background.js:122-133 | The matching loop builds exactly `Matches` and its records |
| Background.ReconciledEntries | background.js:115-137 | After reconciliation every entry belongs to an open tab showing its address, and carries the title of the latest record stored for that address |
| Background.ScheduleStaggered | background.js:140-144 | Deliveries follow match order; the i-th uses the default policy and starts at i * 200 ms |
| Background.Registry.OnStartup | background.js:108-148 | The cache is reloaded. An empty store stops there. Otherwise the cache becomes the reconciled records, is persisted, and one staggered delivery is scheduled per match |
| Background.NoReceiverIffMarker | background.js:80-85 | A failure counts as a missing receiver exactly when its text contains one of the five markers |
| Background.AttemptBound | background.js:67-71 | A delivery makes `maxRetries` attempts at most when that is positive, and exactly one attempt otherwise |
| Background.ApplyTitleWithRetry | background.js:67-105 | Between 1 and the attempt bound sends are made, and every send but the last failed with a missing receiver. The last send decides the end: delivered means applied; a failure at the limit means exhausted (the warning); any other failure below the limit means abandoned silently |
| Background.RequestPrompt | background.js:199-244 | A tab without a numeric id gets no prompt. At most two prompts are sent, and at most one after a reload. The second is sent exactly when the first hit a missing receiver on a first request, the reload completed and the fresh tab has a numeric id. An answer is processed only from the send that got through, against that send's tab |
| Content.Assign | content.js:14-26 | A write is dropped exactly when it is not the script's own and a custom title is in force. Otherwise the title becomes the written value, and nothing else changes |
| Content.PageWriteBlocked | content.js:20-23 | With a custom title in force, a page write leaves the state unchanged |
| Content.PageWritePasses | content.js:24-25 | With no custom title in force, a page write sets the title |
| Content.OwnWritePasses | content.js:15-18 | The script's own write always sets the title |
| Content.SetCustom | content.js:40-51 | Afterwards a custom title is in force, the title is the requested one, the own-write flag is down, and one re-assertion of it is queued |
| Content.Fire | content.js:46-50 | The oldest re-assertion sets its title whatever the custom-title flag says, and leaves the flags as they were |
| Content.RemoveCustom | content.js:53-59 | Afterwards no custom title is in force and the title is the one captured at load |
| Content.FireAllShowsLast | content.js:46-50 | Once all re-assertions have fired, the title is the last one scheduled and the flags are unchanged |
| Content.SetCustomIdempotent | content.js:40-50 | Setting the same title twice shows the same title and flags as setting it once, both at once and after the re-assertions |
| Content.StaleReassertionAfterRemove | content.js:46-59 | A removal before the 500 ms timer fires is undone on screen: the timer shows the custom title again although no custom title is in force, and page writes pass again |
| Content.ClearThenSetRestoresTitle | content.js:40-59 | Removing and then setting the same custom title restores the state, plus one queued re-assertion |
| Content.TitleGuard.constructor | content.js:1-3 | At start both flags are down and the captured title is the page's title |
| Content.TitleGuard.GetTitle | content.js:11-13 | The getter returns the underlying title unchanged |
| Content.TitleGuard.SetTitle | content.js:14-26 | The setter takes the branch `PathOf` names and changes the state as `Assign` does |
| Content.TitleGuard.HandleSetCustomTitle | content.js:40-51 | The handler changes the state as `SetCustom` does |
| Content.TitleGuard.FireReassertion | content.js:46-50 | The timer changes the state as `Fire` does |
| Content.TitleGuard.HandleRemoveCustomTitle | content.js:53-59 | The handler changes the state as `RemoveCustom` does |
| DomSelector.GetQuery | libs/dom-selector.js:65-76 | The query is `*` followed by one `:not(tag)` per ignored tag, in list order |
| DomSelector.NotClausesCons | libs/dom-selector.js:71-73 | Read from the front, the clauses are the first tag's clause and then the others' |
| DomSelector.NotClausesAppend | libs/dom-selector.js:71-73 | Clauses of concatenated tag lists are the concatenated clauses |
| DomSelector.TagsAt | libs/dom-selector.js:231 | Segment k of the first m nodes is that of node m-1-k, outermost first |
| DomSelector.SegmentsShape | libs/dom-selector.js:215-233 | The walk stops at the root, at a unique selector, or at the first ancestor with an id, which then leads as `#id`. Every node walked over has no id |
| DomSelector.SegmentsBounds | libs/dom-selector.js:215-233 | At most one segment per node with a parent. `#id` can only lead. The element's own segment ends the selector |
| DomSelector.ClassPart | libs/dom-selector.js:227-228 | A present class attribute becomes a dot followed by its classes joined by dots: no space is left, and only the attribute's own characters and dots appear. An attribute of whitespace only gives the bare, invalid `.` |
| DomSelector.NamePart | libs/dom-selector.js:229-230 | A present name attribute becomes an attribute selector `[name=...]`. When the value holds no `]`, the later `[name=...]` replacement erases it whole |
| DomSelector.NameAttrErased | libs/dom-selector.js:242 | The replacement erases a whole `[name=v]` whose value holds no `]` |
| DomSelector.Render | libs/dom-selector.js:223-231 | A segment's text is its form after the first segment (`#id`, or tag and classes) followed, for a tag segment, by its name part |
| DomSelector.StripNameAttrs | libs/dom-selector.js:242 | Deleting the `[name=...]` attributes never lengthens the text, and text without `[` is left as it is |
| DomSelector.FirstIndexOf | libs/dom-selector.js:242 | The index of the first occurrence of a character |
| DomSelector.StripKeepsPlainPrefix | libs/dom-selector.js:242 | Text without `[` passes through the replacement untouched |
| DomSelector.StripDropsNameAttr | libs/dom-selector.js:242 | A `[name=n]` whose value has no `]` is deleted whole |
| DomSelector.StripSegment | libs/dom-selector.js:227-231 | A segment whose tag and class have no `[` and whose name has no `]` loses exactly its `[name=...]` |
| DomSelector.StripJoined | libs/dom-selector.js:237-241 | Joined with ` > `, such segments lose exactly their `[name=...]` parts |
| DomSelector.ComposeKeepsOnlyFirstName | libs/dom-selector.js:235-243 | The result is the first segment whole, then ` > ` and every later segment without its `[name=...]` |
| DomSelector.GetCssSelectorShort | libs/dom-selector.js:205-246 | The loop computes `CssSelectorShort`. An element with an id yields `#id` at once. A guard query that throws ends the call with the exception |
| DomSelector.ComposeSelector | libs/dom-selector.js:235-245 | The result is `Compose` of the selector array: `undefined` when it is empty, else its first segment and then the stripped rest |
| DomSelector.ThrowsFromShape | libs/dom-selector.js:215-219 | The walk throws only at a selector it queries, after at least one segment and from a node with a parent. It never throws when all those selectors are valid |
| DomSelector.SelectorThrowsOnlyOnInvalid | libs/dom-selector.js:205-233 | A selector is returned whenever every selector of the element's ancestors is valid. A throw comes from one of them that is not |
| DomSelector.Picker.constructor | libs/dom-selector.js:8 | Before any `init` nothing is armed, listening or highlighted, and no callback has fired |
| DomSelector.Picker.Init | libs/dom-selector.js:368-379 | Stores the callback, starts a new session, attaches or detaches the element listeners, and attaches the Escape listener. The highlight is left as it was |
| DomSelector.Picker.Stop | libs/dom-selector.js:117-125 | Detaches every element listener and the Escape listener and drops the callback, restoring the once-per-session invariant. The highlight's document listeners stay |
| DomSelector.Picker.KeyUp | libs/dom-selector.js:310-320 | Escape, while the Escape listener is attached, closes the highlight; with an armed callback it also calls it once with `""` and stops. Any other key, or Escape without a callback, leaves the callback, the listeners and the log as they were. Each session still fires at most once |
| DomSelector.Picker.Click | libs/dom-selector.js:251-292 | While the highlight is shown, a click is swallowed by `handleCloseClick` and closes the highlight exactly when it lands outside the highlighted box. Otherwise, while the picker listens, the click shows the highlight, even when building the selector throws; the armed callback is called once with the clicked element's selector and the picker stops, unless that build throws. In every other case the callback, the listeners and the log are as they were. Each session still fires at most once |

## Left out

- The `chrome.*` calls are not modelled. This covers `storage.local.get/set`, `tabs.query`, `tabs.sendMessage`, `tabs.reload`, `contextMenus` and `action.onClicked`. Storage is the `stored` field, open tabs are an argument, and sends are `Delivery` values or outcome arguments.
- Time is not modelled. This covers the 30 s `setInterval`, retry delays, the startup stagger, the 100/300 ms re-applies and the 500 ms re-assertion. Delays are values in a `Delivery`. Re-assertions wait in a first-in-first-out queue and fire when the environment calls `FireReassertion`; they all use the same delay, so that is the order they fire in.
- Interleaving of the asynchronous handlers around `await loadTitlesToCache()` is not modelled. Each handler runs as one atomic step.
- Background.ApplyTitleWithRetry: the waits between attempts are not modelled, and neither are the console messages that distinguish the ends. The browser's answer to the k-th send is the argument `outcome(k)`.
- Background.RequestPrompt: the reload is not modelled as an event. Registering the one-shot `onUpdated` listener, waiting for `complete` and fetching the fresh tab are one step, and their outcome is the `afterReload` argument.
- The `prompt()` dialog of the content script is not modelled. Its answer is the `PromptResponse` the background model receives.
- The action-click wrapper and the context-menu handler are not modelled. Apart from browser calls, they only call the modelled operations.
- Console logging is not modelled.
- Background.Registry.OnReplaced: an added id equal to the removed one is modelled as written. The record is set and then deleted, so it is lost.
- The element picker's UI is not modelled: `addStyle`, `setUpInspector`, `getInspectorDesign`, the overlay and close button that `closeHighlight` and `highlightActiveElem` show and hide, and the mouse-over highlighting in `eventEmitter`, `getDimensions` and `freezeDomEvent`. These use floating-point page geometry. Of `closeHighlight` and `handleCloseClick` the model keeps only whether the document's capture-phase click listener is attached (`highlighted`).
- `cloneElem` and `removeDefaultHandlers` are not modelled; their call is commented out in `init`.
- DomSelector.Picker.Click: `listening` stands for the click listeners `attachListeners` puts on the elements present at `init`, `body` and `html` among them. A click on any element, even an ignored tag or one added after `init`, bubbles to one of them, and the handler builds the selector of the clicked element itself, so the model lets every click through while listening. Whether a swallowed click lands outside the highlighted box compares floating-point geometry; it is the argument `outsideBox`. A click on the overlay element itself, which `handleCloseClick` lets pass, is not modelled. After a throw the event goes on bubbling to the next listened ancestor, whose handler throws the same way; the model treats that as one handled click.
- DomSelector.GetCssSelectorShort: `querySelectorAll` is the oracle `query`, not a query over a document tree. Which selectors are invalid CSS is left to the oracle. Attribute values are strings with `""` for an absent attribute, since the source tests them for truthiness.
- DomSelector.ComposeKeepsOnlyFirstName: proved only when the tag and class of a later segment contain no `[` and its name contains no `]`. Otherwise the regular expression can swallow text beyond the segment's own `[name=...]`; `StripNameAttrs` models that case as written.
- DomSelector.GetQuery: the query is stated as `"*"` followed by `NotClauses(IgnoreElem)`, not as a spelled-out string literal.
- Strings are sequences of Unicode scalar values (Dafny's `char`), not of UTF-16 code units. A character outside the Basic Multilingual Plane counts once, where JavaScript counts two, and strings holding an unpaired surrogate cannot be represented. `trim` removes the ECMAScript WhiteSpace and LineTerminator characters.
- Tab ids are modelled as non-negative. `chrome.tabs.TAB_ID_NONE` (-1) passes the `typeof === 'number'` guards but is not modelled. As a key of `tabTitlesCache` it would be visited after the index keys, not in numeric order.
- The cache loads at worker start and on `onInstalled` (background.js:19-35) are `Registry.Load` called by the environment. Context-menu creation is not modelled.
