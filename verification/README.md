# Choosin: a Dafny model of the select-replacement widget

Choosin turns a native HTML `<select>` into a searchable dropdown. The
widget keeps its state in a small keyed publish/subscribe store. Every
change goes through the store's `set`, and subscribers react to it:
opening and closing, committing an option, moving the highlight. The
native select stays the value the form submits.

This project models three parts of the code and proves properties of them:

- **The store** (`src/modules/SimpleState.js`, module `SimpleState`).
  - Modelled: `get`, `getKeys`, `subscribe`, `unsubscribe` and `set`.
  - `set` returns the ordered list of subscriber calls it makes instead of making them.
  - Proved: every live subscriber is called exactly once, in ascending id order, even when the value did not change. Ids are never reused.
- **The earlier prototype** in the root `choosin.js` (module `PubSubState`).
  - Modelled: its `pubSubState` store and the open/close helpers behind the trigger button.
  - Proved: where the prototype differs from `SimpleState`.
    - Falsy values read back as `undefined`.
    - Every subscription gets id -1.
    - `set` never reaches a subscriber.
    - The inverted `isChoosinElement` check lets a bad element open but never close.
- **The widget** (`src/choosin.js`).
  - The option index comes from `processSelectChildren`/`processOption` (`OptionIndex`). The native select is in `NativeSelect`.
  - The widget state is a `Widget.State` record. Every transition returns the new state and the store fields it set, in order. A subscriber that changes state has its effect folded in where the synchronous `set` would run it.
  - Modelled operations:
    - the validity check (`Widget`);
    - search and show-all (`Search`);
    - open/close (`OpenClose`);
    - committing an option (`Selection`);
    - arrow-key navigation (`Navigation`);
    - the event handlers (`Events`);
    - construction (`Construction`).
  - Proved:
    - each transition keeps a well-formedness invariant (`Widget.Wf`);
    - the search loop computes the filter the transitions use;
    - committing an option leaves the widget closed and declaring that option's value. The value is valid exactly when the native select reports it. That holds when the option did not yet carry the `selected` attribute or was already the selected one, and the selected option is not being re-chosen after an edit of the search text. Otherwise the commit is lost (see "## Findings").
  - `Scenarios` replays the end-to-end tests' flows on a small select.

In three places the code does something other than a user of the widget might expect, and the model follows the code:

- The search string is the lower-cased option *value*, not its label (`src/choosin.js:683`).
- Options with repeated values are all indexed.
- Opening does not focus the search box.

## Model

| member | source | states |
|---|---|---|
| SimpleState.Create | src/modules/SimpleState.js:18-34 | An object initial value becomes the data, anything else an empty map; the store starts with no subscribers and satisfies the store invariant |
| SimpleState.Get | src/modules/SimpleState.js:60-65 | Any stored value other than `undefined` is returned as stored, falsy ones included; an unset key reads as `undefined` |
| SimpleState.GetKeys | src/modules/SimpleState.js:71 | The keys are exactly the keys holding data |
| SimpleState.Subscribe | src/modules/SimpleState.js:85-120 | A falsy key or a non-function callback changes nothing and returns no id. Otherwise the callback is stored under one more than the key's last id, which is returned. The data and every other key's bag are unchanged, and the store invariant is kept |
| SimpleState.Unsubscribe | src/modules/SimpleState.js:127-150 | A falsy key is refused. A key that never had a bag throws. An id the bag does not hold is refused. Otherwise exactly that subscriber is removed, keeping the id counter, the data and the other bags |
| SimpleState.Set | src/modules/SimpleState.js:157-177 | A falsy key or an `undefined` value is refused with no change. Otherwise the value is stored and nothing else changes. Every call goes to a subscriber of that key with (new value, previous `get`), in strictly ascending id order |
| SimpleState.IdsBetween | src/modules/SimpleState.js:168 | The ids `Object.values` visits lie in the range, belong to the bag, and ascend strictly |
| SimpleState.IdsBetweenComplete | src/modules/SimpleState.js:168 | Every id the bag holds in the range is visited |
| SimpleState.CallsFor | src/modules/SimpleState.js:169-175 | One call per visited id, in that order, each with that id's callback and the same (new, old) pair |
| SimpleState.GetAfterSet | src/modules/SimpleState.js:157-164 | What `set` accepts, `get` returns afterwards; other keys read as before; the key set gains exactly that key |
| SimpleState.NotifyReachesAll | src/modules/SimpleState.js:168-175 | Notifying a valid bag reaches every subscriber it holds |
| SimpleState.NotifyCallsEachOnce | src/modules/SimpleState.js:168-175 | Notifying a valid bag calls exactly its subscribers, each once (as many calls as subscribers) |
| SimpleState.CallsAscend | src/modules/SimpleState.js:168-175 | The calls of a notification go out in strictly ascending id order |
| SimpleState.SetCallsEverySubscriber | src/modules/SimpleState.js:157-177 | In a valid store an accepted `set` calls every live subscriber of the key exactly once |
| SimpleState.SetNotifiesEvenWhenUnchanged | src/modules/SimpleState.js:157-177 | Setting a key to the value it holds still calls every subscriber, with equal new and old values |
| SimpleState.IdsCountFromZero | src/modules/SimpleState.js:104-111 | The first two subscriptions to a fresh key get ids 0 and 1 |
| SimpleState.IdsNeverReused | src/modules/SimpleState.js:109-111 | A new id exceeds every id the bag holds and every id removed from it |
| SimpleState.SubscribeThenUnsubscribe | src/modules/SimpleState.js:85-150 | Unsubscribing the id `subscribe` returned succeeds and restores the key's live subscribers and the data |
| SimpleState.LastNeverDecreases | src/modules/SimpleState.js:109-111 | No operation lowers any key's `lastSubscriberIndex`; only `subscribe` raises it |
| PubSubState.Create | choosin.js:13-16 | An object initial value becomes the data, anything else an empty map; no subscribers |
| PubSubState.Get | choosin.js:23-27 | Only a truthy stored value is returned; every other value reads as `undefined` |
| PubSubState.Subscribe | choosin.js:35-59 | A falsy key or non-function callback is refused. Otherwise the post-increment followed by the write-back leaves the counter unchanged, and the callback is stored under the counter's value, which is returned |
| PubSubState.Unsubscribe | choosin.js:66-87 | A falsy key, a key with no bag, or id 0 is refused. Otherwise the id is deleted, the outcome says whether it was held, and nothing else changes |
| PubSubState.Set | choosin.js:94-107 | A falsy key or `undefined` value is refused. Otherwise the value is stored. No subscriber is ever called, because a bag has no `length` |
| PubSubState.OpenChoosin | choosin.js:122-127 | A missing element crashes; any present element is opened, even one flagged as bad |
| PubSubState.CloseChoosin | choosin.js:133-139 | The close is refused exactly when the element is missing or lacks the `choosin` class; otherwise it is closed |
| PubSubState.TriggerToggles | choosin.js:180-185 | On a genuine choosin a trigger click flips `open` and two clicks restore the element |
| PubSubState.BadElementOpensButNeverCloses | choosin.js:115-139 | An element without the `choosin` class is opened by the trigger but its close is always refused |
| PubSubState.SubscriptionsOverwrite | choosin.js:50-58 | Every prototype subscription gets id -1, so a second callback on a key replaces the first |
| PubSubState.FalsyValuesDiffer | choosin.js:23-27 | A stored falsy value reads back from `SimpleState` but reads as `undefined` from the prototype |
| PubSubState.OnlySimpleStateNotifies | choosin.js:101-106 | After one subscription and one `set`, `SimpleState` calls the subscriber with (new, `undefined`) while the prototype calls nobody |
| Text.TrimStart | src/choosin.js:627 | The result is the suffix of the input after its leading whitespace, starting with a non-whitespace character |
| Text.TrimEnd | src/choosin.js:627 | The result is the prefix of the input before its trailing whitespace, ending with a non-whitespace character |
| Text.Trim | src/choosin.js:627 | The result is an infix of the input, with no whitespace at either end, and it covers every non-whitespace character of the input |
| Text.TrimIdempotent | src/choosin.js:356 | Trimming an already trimmed label changes nothing |
| Text.Lower | src/choosin.js:683 | Same length; each character is its ASCII lower-case form |
| Text.LowerIdempotent | src/choosin.js:415 | Lower-casing twice is lower-casing once |
| Text.Normalize | src/choosin.js:412-416 | The query is no longer than the typed text and is already lower case |
| Text.Contains | src/choosin.js:442 | The empty query is always found, and a found query is no longer than the text |
| Text.ContainsAt | src/choosin.js:442 | `indexOf(q) >= 0` holds exactly when `q` occurs at some offset of the text |
| OptionIndex.BuildIndex | src/choosin.js:665-691 | Each entry is the record made from an option child with a non-empty value, and entries follow document order |
| OptionIndex.BuildIndexComplete | src/choosin.js:665-691 | Every option child with a non-empty value has its entry in the index |
| OptionIndex.IndexHashesDistinct | src/choosin.js:613-624 | Distinct fresh hashes give an index in which no two entries share a hash |
| OptionIndex.Hashes | src/choosin.js:662-678 | `optionHashesInOrder` has one hash per entry, position by position |
| OptionIndex.Lookup | src/choosin.js:681-686 | A found entry is in the index with the requested hash; when nothing is found, no entry has that hash |
| OptionIndex.LookupFinds | src/choosin.js:681-686 | With distinct hashes, looking up an entry's hash finds exactly that entry |
| OptionIndex.MatchingEntries | src/choosin.js:437-458 | Every match comes from the index and contains the query |
| OptionIndex.MatchingComplete | src/choosin.js:437-458 | Every entry that contains the query is among the matches |
| OptionIndex.MatchingIsSubsequence | src/choosin.js:437-447 | The matches keep the index's relative order |
| OptionIndex.EmptyQueryMatchesAll | src/choosin.js:427-431 | The empty query matches the whole index, so showing all options agrees with the filter |
| NativeSelect.FromChildren | src/choosin.js:364 | The parsed select carries the `selected` attribute on exactly the preselected options and selects the last of them |
| NativeSelect.AddSelectedAttribute | src/choosin.js:225 | Adding the attribute to an option that lacks it selects that option; setting it again on an option that has it changes nothing |
| NativeSelect.MarkSelected | src/choosin.js:225 | The intended effect: the committed option becomes the selected one |
| NativeSelect.MarkSelectedValue | src/choosin.js:225-226 | After marking, the select's value is the committed option's value |
| NativeSelect.AddAgreesWithMarkOnFreshOptions | src/choosin.js:225 | The attribute rule and the intended effect agree exactly when the option lacks the attribute or is already selected |
| NativeSelect.ReselectingPreselectedOptionIsLost | src/choosin.js:225 | With the first of two options preselected, committing the second and then the first leaves the native select on the second |
| Widget.ValidValue | src/choosin.js:326-381 | The verdict is true exactly when the declared value is non-empty and equals the selection's value, the trimmed search text equals the trimmed label, and the native select reports the declared value |
| Widget.CheckForValidValue | src/choosin.js:326-381 | Stores that verdict in `hasValidValue` and changes nothing else |
| Search.ShowAllOptions | src/choosin.js:306-320 | Every option is unhidden, the visible list becomes the whole index in order, the selection is highlighted, and nothing else changes |
| Search.RunQuery | src/choosin.js:433-460 | Matches are visible in index order and unhidden; misses are hidden; the first match, if any, is highlighted; the value is re-checked; nothing else changes |
| Search.ApplyQuery | src/choosin.js:426-460 | The visible list is the filter of the query. The empty query unhides everything, highlights the selection and clears `hasValidValue`; any other query runs the filter |
| Search.SearchCallback | src/choosin.js:407-461 | A normalised query equal to the previous one changes nothing; any other query is recorded and applied |
| Search.NewQuery | src/choosin.js:424-460 | The query is recorded first, then applied; the visible list is its filter, and only the filter, highlight, previous query and validity change |
| Search.SearchHidesMisses | src/choosin.js:437-458 | Under a new query, an indexed option is hidden exactly when it misses the query |
| Search.ScanVisibleIsFilter | src/choosin.js:437-458 | The loop's visible list is the hashes of the matches, in order |
| Search.ScanFirstIsFilter | src/choosin.js:437-458 | The loop highlights the first match |
| Search.ScanHiddenIsFilter | src/choosin.js:437-458 | The loop unhides the matches, hides the misses and leaves other items as they were |
| Search.ScanOptions | src/choosin.js:435-459 | The option loop, statement by statement, computes the visible list, hidden set and first match that the state transition uses |
| Search.Refilter | src/choosin.js:437-458 | Filtering the items one query hid with a second query leaves exactly the second query's misses hidden |
| Search.VisibleIffNotHidden | src/choosin.js:443-457 | After a filter, an option's hash is visible exactly when its item is not hidden |
| Search.SearchKeepsWf | src/choosin.js:407-461 | Searching keeps the widget invariant, including the agreement of visible and hidden with the last query |
| Search.SearchIsIdempotent | src/choosin.js:418-424 | Running the search again without editing the text does nothing |
| OpenClose.DirectionFor | src/choosin.js:91-99 | Opening always picks a direction, up or down, never none |
| OpenClose.Open | src/choosin.js:122-145 | Opening sets the direction, re-runs the search on the current text, highlights the selection, and touches nothing but the open flag, direction, filter, highlight and validity |
| OpenClose.Close | src/choosin.js:169-186 | Closing clears the highlight and the direction and changes nothing else |
| OpenClose.SetIsOpen | src/choosin.js:111-195 | The flag ends as requested. Setting the current value only records the store write. Otherwise the widget opens or closes. Selection, value, search text, native select and index are never touched |
| OpenClose.OpenShowsCurrentFilter | src/choosin.js:122-125 | A well-formed widget opens onto the filter of its current search text |
| OpenClose.SetIsOpenKeepsWf | src/choosin.js:111-195 | Opening or closing keeps the widget invariant |
| OpenClose.OpenThenClose | src/choosin.js:111-195 | Open then close ends closed with no highlight or direction, selection and value untouched |
| OpenClose.OpenMayHighlightHiddenOption | src/choosin.js:138-145 | When the search text misses the selection, opening highlights an option that is hidden |
| Selection.MarkNative | src/choosin.js:224-225 | When the index knows the option's hash, that native option gets the `selected` attribute. Under the HTML attribute rule it becomes the selected one only if it did not carry the attribute yet; otherwise the select is left as it was. An unknown hash changes nothing, and nothing but the native select ever changes |
| Selection.MarkNativeIntended | src/choosin.js:224-225 | The evidently intended marking: when the index knows the option's hash, the native select selects that option whatever attributes it carries; otherwise nothing changes |
| Selection.Present | src/choosin.js:214-223 | A newly chosen option becomes the declared value with its label in the search box; re-choosing the selected option leaves both |
| Selection.CheckAndClose | src/choosin.js:226-227 | The value is re-checked and the widget closed: `hasValidValue` becomes the verdict of the validity check, and only the open flag, highlight and direction change besides |
| Selection.SetOptionSelected | src/choosin.js:202-228 | The option is stored first. An empty value only clears `hasValidValue`. Otherwise the option is presented and marked with the `selected` attribute as written, the value is re-checked, and the widget ends closed |
| Selection.SetOptionSelectedIntended | src/choosin.js:202-228 | The same callback with the native option selected outright: the same result for an empty value; otherwise the option is presented and selected, re-checked, and the widget ends closed |
| Selection.SetOptionSelectedKeepsWf | src/choosin.js:202-228 | Committing an indexed option keeps the widget invariant |
| Selection.CommitIsValid | src/choosin.js:202-228 | Committing an indexed option (other than the selected one re-chosen after an edit) leaves the widget closed and declaring that value. `hasValidValue` is set exactly when the native select reports the value, and it does whenever the option did not carry the `selected` attribute yet or was already the selected one |
| Selection.CommitIsLost | src/choosin.js:224-226 | Committing an indexed option that already carries the `selected` attribute while the native select reports another value leaves the native select unchanged: the widget declares one value, the select reports another, and `hasValidValue` is false |
| Selection.PreselectedRecommitIsLost | src/choosin.js:202-228 | Committing an unmarked option and then the preselected one leaves the native select on the first: the widget declares the preselected value and is invalid |
| Selection.CommitIsValidIntended | src/choosin.js:202-228 | Under the intended marking, committing an indexed option (other than the selected one re-chosen after an edit) always leaves the widget closed, declaring that value, with the native select agreeing and `hasValidValue` set |
| Selection.ReselectAfterEditIsInvalid | src/choosin.js:214-226 | Re-choosing the selected option after editing the search text closes the widget but keeps the edited text and leaves the value invalid |
| Navigation.IndexOf | src/choosin.js:547 | The first position holding the hash, or -1 exactly when it is absent |
| Navigation.NewIndex | src/choosin.js:556-564 | The moved position is clamped to the list: past either end it is the first or the last, with no wrap-around |
| Navigation.NavigateOptions | src/choosin.js:534-570 | With no highlight the first item is highlighted. A highlight outside the visible list changes nothing. Otherwise the visible option at the clamped offset is highlighted, and nothing else changes |
| Navigation.VisibleIsIndexed | src/choosin.js:546-567 | In a well-formed widget every visible hash names an indexed option, each once |
| Navigation.IndexedCanNavigate | src/choosin.js:566-567 | The option found at the new offset is always in the options map, so the dereference cannot fail |
| Navigation.NavigateKeepsWf | src/choosin.js:534-570 | Navigation keeps the widget invariant |
| Navigation.NavigateMovesTo | src/choosin.js:556-568 | From a visible highlight, the new highlight sits at the clamped position of the visible list |
| Navigation.Presses | src/choosin.js:587-597 | Repeated arrow presses change only the highlight |
| Navigation.PressesDown | src/choosin.js:592-597 | `k` down-arrow presses move a visible highlight `k` places, stopping at the last visible option |
| Navigation.PressesUp | src/choosin.js:587-591 | `k` up-arrow presses move a visible highlight `k` places back, stopping at the first visible option |
| Events.KeyboardHandler | src/choosin.js:576-606 | Escape closes. The arrows only move the highlight. Enter commits the highlight only while the widget is open and has a highlight. Every other key does nothing |
| Events.KeyboardKeepsWf | src/choosin.js:576-606 | Every key keeps the widget invariant |
| Events.EnterCommitsHighlight | src/choosin.js:598-604 | Enter on an open widget commits the highlight: the widget closes and declares its value, which is valid exactly when the native select reports it; it does whenever the highlighted option did not carry the `selected` attribute yet or was already the selected one |
| Events.ToggleClick | src/choosin.js:296-300 | The toggle flips the open flag and keeps the selection and value |
| Events.ToggleTwice | src/choosin.js:296-300 | Two toggle clicks on a closed widget end closed with no highlight and no direction |
| Events.OpenClick | src/choosin.js:479-485 | A click on the search box always leaves the widget open; on an open widget it only records the store write |
| Events.OptionClick | src/choosin.js:636-639 | A click on a list item selects it and, when its value is non-empty, closes the widget |
| Events.OptionHover | src/choosin.js:642-648 | Hover or focus highlights the item and changes nothing else |
| Events.EditSearchText | src/choosin.js:521-522 | Typing changes only the search text; the filter waits for the debounced search |
| Events.OptionEventsKeepWf | src/choosin.js:636-648 | Clicking, hovering, typing, toggling and opening all keep the widget invariant |
| Construction.FirstPreselected | src/choosin.js:718 | `option[selected]` finds the first preselected option, or none when there is none |
| Construction.LastCommitted | src/choosin.js:629-631 | The last preselected option with a non-empty value, the one whose commit survives |
| Construction.ProcessOptions | src/choosin.js:665-691 | Only the last committed option leaves a trace; with no commit the widget stays as the default state left it |
| Construction.ProcessOption | src/choosin.js:629-631 | One more child processed keeps the closed form: the widget is the one after the last committed option so far, or blank when none was committed; a child that is not a preselected option with a value leaves the widget alone |
| Construction.CommitNext | src/choosin.js:629-631 | Each commit during construction overwrites everything the previous one set |
| Construction.CommitBeforeIndexing | src/choosin.js:202-226 | A commit while the options map is still empty selects and declares the option and shows its label, leaves the native select untouched, and counts as valid exactly when the native select already shows that value |
| Construction.CreateChoosinFromSelect | src/choosin.js:703-872 | Outcomes, checked in the source's order: an already processed select, a missing id or a missing label are refused, and no preselected option, or none with a value, throws. A widget is made exactly when all checks pass. It is closed, unfiltered and indexed, and holds the last committed option with its label in the search box. It is valid exactly when the native select shows the declared value |
| Construction.CreatedIsWf | src/choosin.js:703-872 | A widget built with distinct hashes satisfies the widget invariant from the start |
| Scenarios.BuildCountries | cypress/e2e/spec.cy.js:68-99 | Building the sample select indexes its three valued options, selects the preselected one, shows its label, and agrees with the native select |
| Scenarios.SearchCountries | cypress/e2e/spec.cy.js:220-239 | Typing "SW" shows the two options whose values contain "sw", hides the other, highlights the first match and clears validity |
| Scenarios.ArrowDownCountries | cypress/e2e/spec.cy.js:245-270 | The down arrow moves the highlight to a different visible option and then stays on the last one |
| Scenarios.PlaceholderOnlyFails | src/choosin.js:668-674 | A select whose only preselected option has no value makes construction throw |
| Scenarios.TrailingPlaceholderIsInvalid | src/choosin.js:364-371 | A preselected placeholder after the real preselection leaves the native value empty and the built widget invalid |

## Left out

- The DOM itself is not modelled: markup creation, CSS classes, ARIA attributes, focus, `blur`, scrolling and `makeSureOptionIsVisible`. Their only effect on the model would be the state they read back, and that is modelled as fields.
- The dropdown's height is not modelled. Its direction is decided from the viewport, which is passed in as the boolean `lowerHalf`.
- `documentClick` is left out because it reads the click path of a DOM event.
- The 250 ms debounce of the search is left out. `Search.SearchCallback` is the deferred call, and `Events.EditSearchText` is the keystroke.
- `generateRandomHash` is left out. Construction takes the hashes as a parameter, one per select child.
- Logging and the log-level switch fall-through are left out (no effect on state). The `window.choosin` registry is left out too.
- The `hasValidValueCallback` and `optionHighlightedCallback` subscribers and the `dropdownDirection` CSS subscriber are left out because they only change classes and text. Their store writes are kept in the traces.
- `isRequired` and `hasSearch` are left out: nothing reads them after construction.
- Option groups are left out: the model sees only the select's direct children.
- `checkForValidValue`'s `selectedInex = -1` has no effect because of the misspelt property, so the model leaves the native select unchanged.
- The second `setAttribute('aria-selected', '')` at `src/choosin.js:225` never runs, because `setAttribute` returns `undefined`. It is ARIA only.
- Keys in both stores are strings. Non-string keys and `unsubscribe`'s `parseInt` of non-numeric ids are left out.
- `getKeys` is modelled as a set. The enumeration order is left out.
- Lower-casing covers the ASCII letters only; the rest of Unicode case mapping is left out.
- The prototype's `processChoosin` state set-up and its empty `highlightValue` are left out, as is its DOM bootstrap. They hold no logic beyond the store and the trigger toggle.
- Re-entrancy is not modelled. A subscriber that calls `set` runs inside the outer `set`, and the model folds each such effect in where it runs. A subscriber that calls `set` on its own key is not modelled.
- Search.ShowAllOptions, Search.SearchCallback, OpenClose.Open, Widget.ValidValue: these require a selection. In the source, a missing selection makes these calls throw on `null`, and a constructed widget always has one.
- Navigation.NavigateOptions: requires the option found at the new offset to be indexed. Otherwise the source throws. `Navigation.IndexedCanNavigate` shows that this always holds for a well-formed widget.
- PubSubState.Get, SimpleState.Get, Base.Truthy: numbers are modelled as integers. JavaScript numbers are doubles, so fractions, `NaN` and `-0` are not modelled; `NaN` and `-0` are falsy in the source.
- SimpleState.Get, SimpleState.Subscribe, SimpleState.Set, PubSubState.Get, PubSubState.Subscribe, PubSubState.Set: keys are read from plain objects, so a key naming an `Object.prototype` member (`toString`, `constructor`, `__proto__`) reads the inherited value, and subscribing on it writes onto the inherited object. The model treats such keys as ordinary absent keys.
- Navigation.NavigateOptions: with no highlight, the source highlights the first list item even when it is hidden. The model takes the first indexed option, which is the same item.

## Findings

| source | as written | input that shows it | evidently intended | confidence | as-written member | corrected member |
|---|---|---|---|---|---|---|
| src/choosin.js:225 | The commit marks the native option with `setAttribute('selected', '')`. That selects the option only when the attribute is newly added, and an option already carrying it is not reselected | Two options, the first written `selected`. Commit the second, then the first. The native select stays on the second option, and `$select.value` no longer matches the committed value | Committing an option selects it in the native select, so that the native value matches the committed option (what `checkForValidValue` at lines 364-371 demands) | medium, not executed | Selection.PreselectedRecommitIsLost | Selection.SetOptionSelectedIntended |

The widget's transitions follow the code as written: `Selection.SetOptionSelected` marks the native option through `NativeSelect.AddSelectedAttribute`, the attribute rule. `Selection.CommitIsLost` and `Selection.PreselectedRecommitIsLost` show the lost commit on the widget, and `NativeSelect.ReselectingPreselectedOptionIsLost` on a two-option select. `Selection.SetOptionSelectedIntended` commits through the corrected `NativeSelect.MarkSelected`, and `Selection.CommitIsValidIntended` proves the intended property for it: after committing an indexed option, the native select reports that option's value. `NativeSelect.AddAgreesWithMarkOnFreshOptions` states when the two markings agree.
