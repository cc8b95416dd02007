# Scroll trigger base class, modelled in Dafny

This project models `ScrollTrigger`, the scroll-trigger base class of the
fast-animation library (`lib/triggers/ScrollBase.ts`). A trigger keeps a list
of (element, callback) subscriptions and refuses duplicates. It attaches one
window scroll listener when the list goes from empty to non-empty and
detaches it when the list is empty again. In frame mode, scroll events are
coalesced into at most one pending animation-frame request, guarded by the
open-request flag. In the throttled fallback mode, `update` runs directly on
scroll. `update` records the distance scrolled since the previous update.

Three modules:

- `Subscriptions` (`subscriptions.dfy`) holds the host references, the
  subscription record, and the two filters the class runs over its list:
  `Matching`, whose length `isSubscribed` tests, and `Without`, the list
  `unsubscribe` keeps. It also holds the facts about these filters: what they
  keep, order, idempotence, and the uniqueness invariant.
- `TriggerSpec` (`trigger_spec.dfy`) gives the trigger's fields as a value
  `Trigger` and has one function per operation. `Event` describes what the
  host does: subscribe and unsubscribe calls, scroll events and
  animation-frame callbacks. `Run` applies a sequence of events. The lemmas
  here state what holds over any run.
- `ScrollBase` (`scroll_trigger.dfy`) holds the class `ScrollTrigger`, with
  the source's fields and methods. Each method's new state is proved equal
  to its `TriggerSpec` function applied to the old state, and each method
  keeps the invariant `Valid()`. Two ghost fields, the scroll offset at
  construction and the log of computed distances, tie `lastScrollY` to the
  sum of all distances.

The host is represented as follows. A host value is an opaque `HostRef` with
an identity and a kind, and equality of `HostRef`s stands for `===` on
objects. `instanceof HTMLElement` and `typeof … === 'function'` read the kind.
The results of `scrollY()` and `isElementInView(element)` are method
parameters, and so is the presence of `requestAnimationFrame` at
construction. `window.addEventListener` and `window.removeEventListener` are
modelled by the boolean `listening`. `window.requestAnimationFrame` is
modelled by the counter `framesRequested`. Re-wrapping `update` in
`lodash.throttle` is modelled by the counter `throttleWraps`.

The fallback mode wraps the current `update` in a new throttle on every
empty-to-non-empty transition (`lib/triggers/ScrollBase.ts:52`). After a
trigger has been emptied and refilled several times, `update` is therefore a
throttle of a throttle. `throttleWraps` counts these wraps.
`TriggerSpec.SubscribeThenUnsubscribe` shows that this count is the only
state a subscribe/unsubscribe round trip leaves behind.

## Model

| member | source | states |
|---|---|---|
| `Subscriptions.Matching` | lib/triggers/ScrollBase.ts:33-37 | the filter of entries with the same element and callback holds only matching entries from the list, and is non-empty exactly when some entry registers the pair |
| `ScrollBase.ScrollTrigger.IsSubscribed` | lib/triggers/ScrollBase.ts:33-37 | true exactly when some entry of the list has the same element and the same callback |
| `Subscriptions.Without` | lib/triggers/ScrollBase.ts:64-66 | the list unsubscribe keeps: no entry of it has the pair, and it is never longer than the old list |
| `Subscriptions.WithoutMembers` | lib/triggers/ScrollBase.ts:64-66 | the unsubscribe filter keeps an entry exactly when it is in the list and does not match the pair |
| `Subscriptions.WithoutAppend` | lib/triggers/ScrollBase.ts:64-66 | the unsubscribe filter distributes over concatenation, so it keeps the remaining entries in their original relative order |
| `Subscriptions.WithoutUnregistered` | lib/triggers/ScrollBase.ts:64-66 | filtering out a pair that is not registered returns the list unchanged |
| `Subscriptions.WithoutIdempotent` | lib/triggers/ScrollBase.ts:63-66 | after the filter no entry registers the pair, and filtering again changes nothing |
| `Subscriptions.WithoutKeepsNoDuplicates` | lib/triggers/ScrollBase.ts:63-66 | the filter keeps the invariant that no two entries share an (element, callback) pair |
| `Subscriptions.AppendKeepsNoDuplicates` | lib/triggers/ScrollBase.ts:43-57 | pushing an entry for a pair that is not registered keeps the no-duplicate invariant |
| `Subscriptions.MatchingAtMostOne` | lib/triggers/ScrollBase.ts:33-37 | under the no-duplicate invariant, at most one entry matches any pair |
| `Subscriptions.FiltersPartition` | lib/triggers/ScrollBase.ts:33-37 | the entries kept by unsubscribe and the entries found by isSubscribed together account for the whole list |
| `Subscriptions.WithoutRemovesOne` | lib/triggers/ScrollBase.ts:63-66 | under the invariant, unsubscribe removes exactly one entry for a registered pair and none for an unregistered one |
| `Subscriptions.WithoutLastAppended` | lib/triggers/ScrollBase.ts:57-66 | removing a freshly pushed pair gives back the list as it was before the push |
| `TriggerSpec.Init` | lib/triggers/ScrollBase.ts:14-22 | a new trigger has no subscriptions, no listener and no open request; its distance is 0, its last offset is the offset at construction, and its mode is fixed by whether requestAnimationFrame exists; it satisfies the invariant |
| `TriggerSpec.Accepts` | lib/triggers/ScrollBase.ts:33-43 | the guard of subscribe, stated over registration, agrees with the test the source runs: an HTML element, a function callback, and an empty result from the isSubscribed filter for the pair |
| `TriggerSpec.Subscribe` | lib/triggers/ScrollBase.ts:42-58 | nothing changes for a non-element, a non-function or a registered pair; otherwise exactly one entry, carrying the visibility at subscribe time, is appended after the unchanged old entries; the listener is attached only when the list was empty, and on a valid trigger it is attached then; the fallback mode wraps update once per attach; the invariant is kept; frame and scroll state are untouched |
| `TriggerSpec.Unsubscribe` | lib/triggers/ScrollBase.ts:63-71 | afterwards the pair is not registered; every other entry stays; the listener stays attached exactly while entries remain; the invariant is kept; frame and scroll state are untouched |
| `TriggerSpec.RequestFrame` | lib/triggers/ScrollBase.ts:76-83 | afterwards a request is open; a frame is requested only when none was open; nothing else changes |
| `TriggerSpec.Update` | lib/triggers/ScrollBase.ts:88-93 | clears the open request, sets the last offset to the current one, and makes the new distance the difference between the new and the previous last offset; nothing else changes |
| `TriggerSpec.Step` | lib/triggers/ScrollBase.ts:47-55 | a scroll reaches the trigger only while it is listening; in frame mode it runs requestFrame (one more frame only when none was open), in fallback mode update; a frame runs update only when a request is open; scroll and frame events leave the list and the listener alone, and every event keeps the invariant |
| `TriggerSpec.RunKeepsValid` | lib/triggers/ScrollBase.ts:42-71 | every run of subscribe, unsubscribe, scroll and frame events keeps the invariant: no duplicate pairs, and listening exactly while the list is non-empty |
| `TriggerSpec.ListeningIffSubscribed` | lib/triggers/ScrollBase.ts:47-70 | from construction on, after any sequence of calls, the trigger listens exactly when it holds a subscription, and its list has no duplicate pairs |
| `TriggerSpec.ScrollBookkeeping` | lib/triggers/ScrollBase.ts:88-93 | after any run, the last offset is the starting offset plus the sum of every distance update computed, and the current distance is the last one computed |
| `TriggerSpec.FramesCoalesce` | lib/triggers/ScrollBase.ts:76-83 | in frame mode, any number of scroll events and subscription changes before the next frame request at most one frame, exactly when the open flag went from clear to set, and run no update |
| `TriggerSpec.FramesMatchUpdates` | lib/triggers/ScrollBase.ts:76-93 | in frame mode, over any run, the frames requested equal the updates run plus the request still open |
| `TriggerSpec.FallbackRequestsNoFrames` | lib/triggers/ScrollBase.ts:48-53 | in the fallback mode no frame is ever requested and no request is ever open |
| `TriggerSpec.UnsubscribeIdempotent` | lib/triggers/ScrollBase.ts:63-71 | a second identical unsubscribe leaves the whole trigger unchanged |
| `TriggerSpec.UnsubscribeKeepsOrder` | lib/triggers/ScrollBase.ts:64-66 | the list after unsubscribe is the filter of any prefix followed by the filter of the rest, so the kept entries stay in order |
| `TriggerSpec.UnsubscribeRemovesOne` | lib/triggers/ScrollBase.ts:63-66 | on a valid trigger, unsubscribe shortens the list by one for a registered pair and leaves its length unchanged otherwise |
| `TriggerSpec.SubscribeThenUnsubscribe` | lib/triggers/ScrollBase.ts:42-71 | an accepted subscribe followed by the matching unsubscribe restores the trigger; only the count of throttle wraps remembers it |
| `TriggerSpec.SubscribeTwice` | lib/triggers/ScrollBase.ts:43-45 | subscribing the same pair a second time changes nothing, so the pair keeps one entry |
| `ScrollBase.ScrollTrigger.constructor` | lib/triggers/ScrollBase.ts:14-28 | the new object's state is the initial state, and the invariant holds |
| `ScrollBase.ScrollTrigger.Subscribe` | lib/triggers/ScrollBase.ts:42-58 | the new state is the subscribe step applied to the old one; the invariant is kept |
| `ScrollBase.ScrollTrigger.Unsubscribe` | lib/triggers/ScrollBase.ts:63-71 | the new state is the unsubscribe step applied to the old one; the invariant is kept |
| `ScrollBase.ScrollTrigger.RequestFrame` | lib/triggers/ScrollBase.ts:76-83 | the new state is the request-frame step applied to the old one; the invariant is kept |
| `ScrollBase.ScrollTrigger.Update` | lib/triggers/ScrollBase.ts:88-93 | the new state is the update step applied to the old one; the new distance is appended to the distance log, so the last offset stays equal to the initial offset plus the sum of all distances |

## Left out

- Scroll offsets are integers. JavaScript numbers are floating point and `scrollY()` can return fractional pixels. The model does no rounding.
- The throttle's timing (`lodash.throttle` at 1000/60 ms, `lib/triggers/ScrollBase.ts:52`) is not modelled. In the fallback mode every scroll event that reaches the listener runs `update`. The real throttle drops or delays some of these calls.
- The real `window.addEventListener`, `window.removeEventListener` and `window.requestAnimationFrame` calls are modelled by `listening` and `framesRequested`. How the browser dispatches events is not modelled, beyond "a scroll reaches the trigger only while its listener is attached" and "a frame runs update only when one was requested".
- `isElementInView` and `scrollY` (`lib/utilities/`) are not part of this model. Their results are parameters.
- `this.update.bind(this)` (`lib/triggers/ScrollBase.ts:27`) only binds `this` in JavaScript and has no behaviour of its own.
- Subclasses that override `update` (`ViewEnterTrigger`, `ViewExitTrigger`) are not part of this model. Neither is dispatch to callbacks, which only those subclasses perform. The base `update` calls no callback.
- The animation-composition classes (`AnimateTo`, `AnimateFrom`, `AnimateGroup`, `AnimateSequence`) are not part of this model. Their source files are not modelled, so nothing about their behaviour is assumed.
- The demo page `client/examples/app/components/TestPage.tsx` is user interface code that only wires clicks and hovers to animations and triggers, and is not part of this model.
- Removing the listener on an `unsubscribe` that leaves the list empty is modelled as `listening := false` even when the list was already empty. In the browser, removing a listener that is not attached does nothing. The code detaches on every call that leaves the list empty, not only on a 1-to-0 transition, and the model follows the code.
