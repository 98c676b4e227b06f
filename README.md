# Portfolio site: offline cache worker and UI selection rules

This Dafny project models two parts of a static portfolio site.

**The offline cache worker (`js/sw.js`).** It handles three events over the
browser's cache storage:

- `install` opens the cache `my-site-cache-v1` and adds the five manifest
  URLs to it, all or nothing.
- `fetch` answers from any cache that holds the request. On a miss it
  answers with the network's result and stores nothing.
- `activate` deletes every cache whose name is not on the one-name
  whitelist.

Cache storage is the class `CacheWorker.CacheStorage`. It has two fields:

- the cache names, in creation order (`caches.match` searches in this order);
- a map from cache name to that cache's entries, keyed by URL.

The network is a function parameter from URL to `Received(response)` or
`NetworkError`.

**The selection rules of the portfolio UI (`assets/js/main.js`).** DOM
elements are records with a set of classes:

- the prev/next buttons of the portfolio filter list (`FilterSlider`);
- the desktop/mobile switcher of the portfolio details slider (`DeviceSwitcher`);
- the scroll handler that marks the nav link of the current section (`ScrollSpy`);
- the parsing of the `data-typed-items` attribute (`TypedStrings`).

`Dom` holds the three browser primitives the rules rely on:
`classList.toggle(name, force)`, `Array.prototype.findIndex` and
`Array.prototype.map`.

Where the code state changes step by step, the model keeps that form:

- classes with fields, `modifies` clauses and loops;
- each loop is proved against a function or a postcondition that states its result.

The decision rules are functions. Lemmas relate the functions.

Three behaviours of the code are easy to miss:

- Install creates `my-site-cache-v1` before adding anything. So a failed
  install leaves that cache in storage: empty if it was new, unchanged if
  not. It is not discarded.
- When no section contains the probe line, the scroll handler compares
  hrefs with a bare `"#"`. Any link whose href is exactly `#` becomes
  active. No link is active only in a menu without such a link.
- The labelling rule never leaves a multi-slide slider without a mobile
  slide, so the fallback `mobileIndex = 1` (main.js line 297) never fires.

## Model

| member | source | states |
|---|---|---|
| Dom.Toggle | assets/js/main.js:330-335 | `classList.toggle(name, force)`: `name` is present afterwards exactly when `force` holds; every other class keeps its membership |
| Dom.FindIndex | assets/js/main.js:295-296 | `findIndex`: -1 exactly when no element satisfies the predicate; otherwise the result satisfies it and no earlier element does |
| Dom.Map | assets/js/main.js:595 | `map`: the same number of elements, each the function applied to the element at the same position |
| Dom.MapAppend | assets/js/main.js:595 | mapping a concatenation is the concatenation of the mapped parts |
| CacheWorker.Match | js/sw.js:27 | `caches.match`: nothing exactly when no cache holds the URL; otherwise the entry of the first cache, in creation order, that holds it |
| CacheWorker.FetchAll | js/sw.js:19 | the fetch half of `addAll`: succeeds exactly when every URL fetches with a 2xx status other than 206; the result then has exactly the URLs as keys, each with the fetched response |
| CacheWorker.Whitelisted | js/sw.js:38-45 | the names activation keeps: exactly the old names on the whitelist, still distinct |
| CacheWorker.Purged | js/sw.js:38-45 | the caches activation keeps: exactly the whitelisted ones, with their entries untouched |
| CacheWorker.Without | js/sw.js:44 | the name list after `caches.delete(name)`: exactly the other names, still distinct |
| CacheWorker.WhitelistedSingle | js/sw.js:38-45 | with distinct names, activation leaves `[CACHE_NAME]` if it was present and no name otherwise |
| CacheWorker.ActivateKeepsCurrent | js/sw.js:43-44 | activation never deletes `CACHE_NAME` or changes its entries; it is the only cache that can remain |
| CacheWorker.ActivatedMatch | js/sw.js:27-45 | after activation a request is answered from storage exactly when `CACHE_NAME` holds it, with that cache's entry |
| CacheWorker.WhitelistedIdempotent | js/sw.js:37-50 | activating twice leaves the same names, in the same order, as activating once |
| CacheWorker.ActivateIdempotent | js/sw.js:37-50 | a second activation leaves storage identical: the same names and the same caches |
| CacheWorker.StaleCacheAnswersUntilActivate | js/sw.js:27-45 | a superseded cache created earlier answers a request before activation; after activation the current cache answers it |
| CacheWorker.CacheStorage.Open | js/sw.js:17 | `caches.open` creates an empty cache, appended to the names, only when none of that name exists; otherwise storage is unchanged |
| CacheWorker.CacheStorage.Delete | js/sw.js:44 | `caches.delete` removes exactly that cache and its name; it reports whether the cache existed |
| CacheWorker.CacheStorage.Install | js/sw.js:15-22 | the install handler. `CACHE_NAME` exists afterwards and every other cache is unchanged. It succeeds exactly when every manifest URL fetches with a 2xx status other than 206. On success the cache holds each manifest URL with its fetched response, and its other entries are kept. On failure the cache is as `caches.open` left it |
| CacheWorker.CacheStorage.Fetch | js/sw.js:25-34 | the fetch handler: the stored response on a hit; exactly the network's result on a miss; storage is not modified in either case |
| CacheWorker.CacheStorage.Retire | js/sw.js:42-45 | one round of the activate loop: the visited names are reduced to the whitelisted ones; remaining caches are unchanged |
| CacheWorker.CacheStorage.Activate | js/sw.js:37-50 | the activate handler: the names become the whitelisted old names and the caches become the purged old caches |
| FilterSlider.ActiveIndex | assets/js/main.js:465-468 | `getActiveIndex`: -1 exactly when no item has `filter-active`, otherwise the first item that has it |
| FilterSlider.MoveTarget | assets/js/main.js:486-488 | the clamped target lies in [0, n-1] and is the index of the list nearest one step from the active item (from item 0 when none is active) |
| FilterSlider.Click | assets/js/main.js:652-656 | a filter click: the clicked item gains `filter-active` and keeps its other classes; the first previously active item, if another, loses `filter-active` and keeps its other classes; no other item changes; the filters stay |
| FilterSlider.ClickSelects | assets/js/main.js:652-656 | in a list with at most one active item, a click leaves the clicked item, and only it, active |
| FilterSlider.PrevDisabled | assets/js/main.js:472-478 | the previous button is disabled exactly when the list is empty, no item is active, or the first item is active |
| FilterSlider.NextDisabled | assets/js/main.js:472-479 | the next button is disabled exactly when the list is empty, no item is active, or the first active item is the last item |
| FilterSlider.ButtonsEnabledIffMove | assets/js/main.js:470-489 | with a selected filter, a button is enabled exactly when pressing it moves the selection; with none, both are disabled |
| FilterSlider.Slider.constructor | assets/js/main.js:437-454 | the slider wraps the list; its freshly created buttons start enabled |
| FilterSlider.Slider.UpdateButtonsState | assets/js/main.js:470-480 | both buttons disabled for an empty list; otherwise prev disabled iff the active index is at most 0, next iff there is none or it is the last |
| FilterSlider.Slider.MoveActive | assets/js/main.js:482-494 | nothing changes for an empty list or when the target is the active item. Otherwise the target is clicked and the buttons are refreshed. With a single selection, the target becomes the only active item |
| DeviceSwitcher.DeviceLabel | assets/js/main.js:275-276 | a slide is labelled desktop exactly when it is slide 0 and lacks `mob`; every other slide is mobile |
| DeviceSwitcher.TargetIndex | assets/js/main.js:373 | a device's target index is the mobile index for mobile and the desktop index for desktop |
| DeviceSwitcher.LabelledIndices | assets/js/main.js:274-297 | after labelling, the desktop index is 0, or -1 when slide 0 has `mob`; the mobile index is 0 or 1, and -1 only for a single slide without `mob` |
| DeviceSwitcher.MobileFallbackUnreachable | assets/js/main.js:297 | with more than one labelled slide a mobile slide is always found, so the fallback never fires |
| DeviceSwitcher.PreferredDevice | assets/js/main.js:338-342 | on a narrow viewport mobile iff a mobile slide exists; otherwise desktop iff a desktop slide exists |
| DeviceSwitcher.PreferredDeviceHasSlide | assets/js/main.js:338-374 | for labelled slides the preferred device's target index always points at a slide |
| DeviceSwitcher.Switcher.constructor | assets/js/main.js:268-410 | the switcher setup. Slides are labelled and the two indices are as `LabelledIndices` gives. A device's button is disabled iff it has no slide. Exactly the preferred device's slide is displayed, or all slides are when a swiper drives the slider. The preferred device's button alone is active and pressed, and the slider carries exactly that device's class. Besides `active`, each button has only `device-switch-btn`. The slider keeps its other classes and gains `portfolio-device-switcher`. `hasSwiper` is the given flag; the swiper was sent to the target slide (the `slideToLoop` call) when there is one and was never moved otherwise |
| DeviceSwitcher.Switcher.Setup | assets/js/main.js:274-410 | the steps after the fields are set: slides labelled with classes kept, both indices in closed form, disabled flags, the preferred device's slide shown with its button active and pressed and its slider class, the swiper sent there when there is one, and no class other than `active` and the two device classes changed |
| DeviceSwitcher.Switcher.LocateDeviceSlides | assets/js/main.js:295-399 | the desktop index is 0, or -1 when slide 0 has `mob`; the mobile index is 0 or 1, and -1 only for a single slide without `mob`; each button is disabled iff its device has no slide |
| DeviceSwitcher.Switcher.LabelSlides | assets/js/main.js:274-276 | every slide gets the device the labelling rule gives; classes and display unchanged |
| DeviceSwitcher.Switcher.SetActiveButton | assets/js/main.js:329-336 | exactly the device's button is active and pressed. The slider has exactly one of `device-mobile` and `device-desktop`. No other class and no disabled flag changes |
| DeviceSwitcher.Switcher.ShowDeviceSlide | assets/js/main.js:372-396 | nothing changes when the device has no slide. Otherwise exactly its button is active, with `aria-pressed` "true" against "false" on the other, the buttons' other classes and disabled flags stay, and the slider carries exactly its device class. Without a swiper exactly the target slide is displayed. With one, all slides are displayed and the swiper is sent to the target |
| ScrollSpy.CurrentSection | assets/js/main.js:125-135 | the chosen id is "" or the id of a section containing the probe position |
| ScrollSpy.CurrentSectionIsLastContaining | assets/js/main.js:125-135 | the chosen id is that of the last section containing the probe position |
| ScrollSpy.CurrentSectionNone | assets/js/main.js:125-135 | when no section contains the probe position the chosen id is "" |
| ScrollSpy.SelectSection | assets/js/main.js:122-135 | the sections loop ends with the id of the last section with top ≤ scrollY+100 < top+height, or "" if none |
| ScrollSpy.AtMostOneActive | assets/js/main.js:137-142 | when hrefs are distinct, at most one link is active after the handler |
| ScrollSpy.NoSectionActiveLinks | assets/js/main.js:125-142 | with no current section the active links are exactly those whose href is "#", so none in a menu without one |
| ScrollSpy.NavMenu.OnScroll | assets/js/main.js:122-143 | the scroll handler: a link is active exactly when its href is `#` plus the chosen section id; hrefs and other classes are unchanged |
| TypedStrings.Split | assets/js/main.js:595 | `split(",")` yields at least one piece and no piece contains the separator |
| TypedStrings.JoinSplit | assets/js/main.js:595 | joining the pieces of a split gives the string back |
| TypedStrings.SplitJoin | assets/js/main.js:595 | splitting a join of separator-free pieces gives those pieces back |
| TypedStrings.SkipSpaces | assets/js/main.js:595 | the first non-space index at or after the start: everything skipped is space |
| TypedStrings.SkipSpacesBack | assets/js/main.js:595 | the end once trailing spaces are dropped: everything dropped is space |
| TypedStrings.Trim | assets/js/main.js:595 | `trim()` yields a string with no leading or trailing space; it is empty exactly when the input is all spaces |
| TypedStrings.TrimIsSlice | assets/js/main.js:595 | the trimmed string is a slice of the input with only space characters before and after it |
| TypedStrings.TrimKeepsOut | assets/js/main.js:595 | trimming introduces no character absent from the input |
| TypedStrings.TrimTrimmed | assets/js/main.js:595 | trimming a trimmed string changes nothing |
| TypedStrings.TrimAll | assets/js/main.js:595 | `map((s) => s.trim())`: one trimmed piece per piece, at the same position |
| TypedStrings.TrimAllAppend | assets/js/main.js:595 | trimming the pieces of a concatenation trims each part |
| TypedStrings.DropEmpty | assets/js/main.js:595 | `filter(Boolean)`: every item kept is non-empty and from the input; every non-empty input is kept; a list without empty strings is unchanged |
| TypedStrings.DropEmptyAppend | assets/js/main.js:595 | filtering a concatenation filters each part, in order, so repeats and order are kept |
| TypedStrings.DropEmptySingle | assets/js/main.js:595 | a single string is kept exactly when it is not empty |
| TypedStrings.ParseTypedItems | assets/js/main.js:594-595 | every parsed item is non-empty, trimmed and comma-free |
| TypedStrings.ParsePiece | assets/js/main.js:594-595 | an attribute without a comma gives its trimmed text as the one item, or none when that is empty |
| TypedStrings.ParsedItemsArePieces | assets/js/main.js:594-595 | the items are read piece by piece in order: the items of the text before the first comma, then those of the rest |
| TypedStrings.ParseJoinPadded | assets/js/main.js:594-595 | comma-joined pieces that each trim to a non-empty text, such as "Designer, Developer", parse to those trimmed texts in order |
| TypedStrings.ParseEmpty | assets/js/main.js:594-595 | an empty attribute, which is what a missing one reads as, parses to no items |
| TypedStrings.ParseJoin | assets/js/main.js:594-595 | non-empty, trimmed, comma-free items written into the attribute with commas parse back unchanged and in order |
| TypedStrings.TypedStrings | assets/js/main.js:590-597 | no typing effect for a missing attribute. For a present one the effect is built exactly when the parsed list is non-empty, and it gets that list |

## Left out

- The Cache API's own internals are assumed, not modelled: the ordering of `waitUntil`/`respondWith`, promise scheduling, and request matching beyond exact URL equality. `addAll` is taken to be all-or-nothing, as the browser guarantees.
- The network is a deterministic function parameter. "No network call on a hit" is stated as a reply that does not depend on the network.
- `console.log` in the install handler has no effect on the model.
- Third-party libraries are foreign calls and are not modelled: AOS, Swiper, Isotope and imagesLoaded, GLightbox, Typed, Waypoint and PureCounter. A swiper instance is reduced to whether one exists and the slide it was last sent to. The Typed effect is reduced to whether it is built and with which list.
- Timers, idle callbacks, resize debouncing and the section hide timers are browser event-loop timing, not sequential logic.
- Pixel geometry is not modelled: `centerItemInSlider`, `scrollTo` targets and the hash deep-link offset. Scrollspy positions are whole numbers.
- Video playback and poster rewriting are not modelled, so `DeviceSwitcher.Switcher.ShowDeviceSlide` has no autoplay parameter.
- DOM construction and wrapping are not modelled: frames, controls markup, the random switcher id, reuse of existing controls, and hiding the swiper pagination. The switcher is modelled with its freshly built controls.
- External-link hardening is not modelled; it depends on the browser resolving `href` to an absolute URL.
- `FilterSlider.Click` models the isotope filter click handler. It is taken to be registered on every filter item. Its `arrange` call and AOS refresh are foreign calls.
- `ScrollSpy.AtMostOneActive` assumes distinct hrefs. The handler itself does not promise one active link when two links share an href.
