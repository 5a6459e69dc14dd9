# Elastic Canvas site logic in Dafny

This project models the logic of a bilingual (English/Arabic) Next.js site for
rubber-canvas products, and proves properties of that model. The site has
these parts:

- **Locale routing.** `src/middleware.ts` redirects every path without a
  locale prefix to `/<locale><path>`. It picks the locale from the
  `Accept-Language` header.
- **Header.** It shows five navigation links and highlights the one whose
  path equals the last segment of the URL. It also tracks a "scrolled" flag
  and whether the mobile menu is open.
- **Language switcher.** It swaps the first `/<locale>` in the path for the
  chosen locale.
- **Three frame loaders.**
  - The site-wide loading screen (`src/app/loading.tsx`) loads frames in
    batches and retries when fewer than 80 frames decoded.
  - The show-case loading screen (`src/app/show-case/loading.tsx`) publishes
    its images after ten events.
  - The home-page hero (`src/components/sections/hero.tsx`) loads 120 frames
    from an image service.
- **Show-case hero** (`src/app/show-case/hero.tsx`). It takes over the
  loading screen's frames or loads its own, then draws the frame under the
  scroll position with a "cover" fit.
- **Gallery.** A generated catalogue of 50 items, with a category filter
  and a "Load More" pager.
- **Contact form.** A server action that validates the form with a schema
  and answers with a localised message.

Files and modules:

| file | module | flavour |
|---|---|---|
| `js_string.dfy` | `JsString` | the JavaScript string built-ins used (`indexOf`, `replace` with a string pattern, `split`, `padStart`, `toString`, `trim`) as functions on `seq<char>` |
| `frames.dfy` | `Frames` | what the loaders share: `pad3`, frame paths, `Math.round` of a percentage, an image element's state, and the request loop |
| `middleware.dfy` | `Middleware` | pure functions |
| `header.dfy` | `Header` | pure functions, plus a class for the header's two pieces of state |
| `language_switcher.dfy` | `LanguageSwitcher` | pure functions |
| `app_loading.dfy` | `AppLoading` | a class whose fields are the effect's closure variables and the `window` slots it writes; callbacks are methods |
| `showcase_loading.dfy` | `ShowcaseLoading` | the same pattern |
| `showcase_hero.dfy` | `ShowcaseHero` | the same pattern, plus pure cover-fit geometry |
| `sections_hero.dfy` | `SectionsHero` | the same pattern |
| `gallery.dfy` | `Gallery` | pure catalogue, filter and pager functions, plus a class for the two pieces of page state |
| `actions.dfy` | `Actions` | pure functions |

How the browser is modelled:

- Callbacks (animation frames, idle callbacks, timers, image `load`/`error`
  events, scroll updates) are methods. The environment may call them in any
  order their preconditions allow.
- An image event is the browser settling the element (`Settle`) followed
  by its handler. A ghost `settling` field names the element just settled:
  the handler requires it and clears it, and every other callback
  requires it to be clear, so nothing runs between the two steps and the
  handler works on the element that settled.
- An image element is `Img(frame, state)`. Its state is `Pending`,
  `Decoded(width, height)` or `Broken`.
- Canvas `drawImage` calls are recorded, in order, in a `draws` field.

## Model

| member | source | states |
|---|---|---|
| JsString.IndexOf | src/components/language-switcher.tsx:20 | the index found is the first occurrence of the pattern; `None` exactly when the pattern occurs nowhere |
| JsString.ReplaceFirst | src/components/language-switcher.tsx:20 | with a string pattern, only the first occurrence is replaced, and a string without the pattern is returned unchanged |
| JsString.Split | src/middleware.ts:9 | `split` yields at least one piece, and no piece contains the separator |
| JsString.JoinSplit | src/middleware.ts:9 | joining the pieces of a split with the separator gives back the string |
| JsString.SplitJoin | src/middleware.ts:9 | splitting a join of separator-free pieces gives back the pieces |
| JsString.SplitLast | src/components/header.tsx:27 | the last piece of a split is the suffix after the last separator: it has no separator and is preceded by one unless it is the whole string |
| JsString.SplitFirst | src/middleware.ts:11 | the first piece of a split is the prefix before the first separator |
| JsString.PadStart | src/components/page-content/GalleryContent.tsx:19 | `padStart` reaches the target length with the pad character on the left, keeps the string as its suffix, and never truncates |
| JsString.NatToString | src/components/page-content/GalleryContent.tsx:19 | `toString` of a non-negative integer is a non-empty string of decimal digits without a leading zero |
| JsString.DecimalValueOfNatToString | src/components/page-content/GalleryContent.tsx:19 | reading the digits back gives the number |
| JsString.NatToStringInjective | src/components/page-content/GalleryContent.tsx:19 | distinct numbers print differently |
| JsString.TrimStart | src/components/page-content/GalleryContent.tsx:22 | the result is a suffix of the input that does not start with whitespace, and every character removed before it is whitespace |
| JsString.TrimEnd | src/components/page-content/GalleryContent.tsx:22 | the result is a prefix of the input that does not end with whitespace, and every character removed after it is whitespace |
| JsString.TrimUnchanged | src/components/page-content/GalleryContent.tsx:22 | `trim` leaves a string alone when it starts and ends with non-whitespace |
| Frames.Pad3Value | src/components/page-content/GalleryContent.tsx:19 | `pad3(n)` consists of digits that still denote `n` |
| Frames.Pad3Length | src/components/page-content/GalleryContent.tsx:19 | `pad3(n)` has exactly three characters below 1000; from 1000 on it is the plain number, never truncated |
| Frames.Pad3Injective | src/components/page-content/GalleryContent.tsx:19 | distinct numbers pad to distinct strings |
| Frames.FramePathInjective | src/app/loading.tsx:34 | distinct frames are fetched from distinct `/frames/NNN.png` files |
| Frames.Percent | src/app/loading.tsx:50 | `Math.round((count / total) * 100)` is the integer nearest to `100 * count / total`, with halves rounded up |
| Frames.PercentOfHundred | src/app/show-case/loading.tsx:23 | with 100 frames the percentage equals the completion count |
| Frames.PercentMonotone | src/app/loading.tsx:50 | the percentage never goes down as the count grows |
| Frames.PercentOfAll | src/components/sections/hero.tsx:58 | all frames complete gives exactly 100 |
| Frames.CountDrawable | src/app/loading.tsx:81-83 | the number of images that are complete with a positive natural height is at most the number of images |
| Frames.PendingRequests | src/app/show-case/loading.tsx:15-18 | the request loop creates `count` elements in order, element `j` requesting frame `j + 1`, none of them finished |
| Frames.CountsAppendPending | src/app/loading.tsx:35 | pushing fresh requests changes neither the completed nor the drawable count |
| Frames.CountsFinish | src/app/loading.tsx:81-83 | one request settling adds one to the completed count, and one to the drawable count exactly when it decoded |
| Frames.CountDrawableMissesOne | src/app/loading.tsx:81-85 | one image that did not decode keeps the drawable count below the total |
| Frames.CountDrawableAll | src/app/loading.tsx:81-85 | the drawable count equals the total exactly when every image is drawable |
| Frames.CountCompleteAll | src/app/show-case/loading.tsx:58 | the completed count equals the total exactly when every image is complete |
| Middleware.Languages | src/middleware.ts:9 | one language tag per comma-separated entry of the header; each is the entry's text up to its first `;`, or the whole entry when it has none |
| Middleware.FirstSupported | src/middleware.ts:10-14 | the loop stops at the first entry whose primary subtag is a supported locale, or finds none when no entry qualifies |
| Middleware.GetLocale | src/middleware.ts:6-17 | the result is always a supported locale; a missing or empty header gives `en`; otherwise the first supported primary subtag wins, and `en` is used when there is none |
| Middleware.Route | src/middleware.ts:19-31 | the request passes exactly when the path is locale-prefixed; otherwise it is redirected to `/` followed by `getLocale` of the header and the path |
| Middleware.HasLocalePrefixIff | src/middleware.ts:22-24 | a path is locale-prefixed exactly when it is `/en` or `/ar`, or starts with `/en/` or `/ar/` |
| Middleware.EnglishIsNotPrefixed | src/middleware.ts:23 | `/english` is not locale-prefixed and is redirected to `/en/english` |
| Middleware.PrefixedWithDecompose | src/middleware.ts:23 | a prefixed path is `/<locale>` followed by nothing or by a path starting with `/` |
| Middleware.PrefixedWithCompose | src/middleware.ts:23 | conversely, such a path is prefixed with that locale |
| Middleware.RedirectTargetIsPrefixed | src/middleware.ts:26-29 | the redirect target of a path starting with `/` is locale-prefixed, so routing it again lets it through |
| Middleware.QValuesAreIgnored | src/middleware.ts:9-13 | q-values do not matter: `fr;q=1,ar;q=0.1,en` gives `ar` |
| Middleware.RedirectFollowsHeader | src/middleware.ts:28-31 | an unprefixed path is redirected under the locale the header chooses: with entries `fr`, `ar`, `en` (as in `fr;q=1,ar;q=0.1,en`) every such path goes under `/ar` |
| Middleware.FirstSupportedOfThree | src/middleware.ts:10-13 | a header whose languages are `fr`, `ar`, `en` gives `ar` |
| Middleware.FirstSupportedFirst | src/middleware.ts:10-13 | a first entry with a supported primary subtag decides |
| Middleware.DefaultForTwo | src/middleware.ts:10-16 | two entries without a supported primary subtag give the default |
| Middleware.SpacesAreNotTrimmed | src/middleware.ts:9-11 | entries are not trimmed: `fr, ar` gives the default `en` |
| Middleware.SubtagsAreCaseSensitive | src/middleware.ts:11 | `AR` is not recognised as `ar` |
| Middleware.RegionSubtagIsDropped | src/middleware.ts:11-12 | `ar-EG,en` gives `ar` |
| Header.CurrentPathIsLastSegment | src/components/header.tsx:27 | the current path is the text after the last `/`: it holds no `/` and ends the pathname |
| Header.NavItemsShape | src/components/header.tsx:39-45 | five items in order, with paths `''`, `about`, `craft`, `gallery` and `contact`; every href is `/<lang>` plus the path, is locale-prefixed, and passes the routing unchanged |
| Header.AtMostOneActive | src/components/header.tsx:72 | the item paths are distinct, so at most one item is highlighted |
| Header.HomeActiveIff | src/components/header.tsx:72 | home is highlighted exactly when the pathname is empty or ends with `/` |
| Header.LocaleSegmentHighlightsNothing | src/components/header.tsx:106 | when the last segment is a locale name, no item is highlighted |
| Header.LocaleRootHighlightsNothing | src/components/header.tsx:27 | at `/en` no item is highlighted, not even home; at `/en/` home is |
| Header.HeaderState.constructor | src/components/header.tsx:28-29 | not scrolled, and the menu is closed |
| Header.HeaderState.OnScroll | src/components/header.tsx:33 | the flag holds exactly when `scrollY > 10`; the menu is untouched |
| Header.HeaderState.ToggleMenu | src/components/header.tsx:89 | the menu flips |
| Header.HeaderState.OnMobileLinkClick | src/components/header.tsx:110 | following a mobile link closes the menu |
| Header.MenuScenario | src/components/header.tsx:89 | toggling twice restores the menu; a link click closes it |
| LanguageSwitcher.SwitchPrefixedPath | src/components/language-switcher.tsx:20 | `/<current><rest>` becomes `/<next><rest>` |
| LanguageSwitcher.SameLocaleKeepsPath | src/components/language-switcher.tsx:20 | choosing the shown locale keeps the path |
| LanguageSwitcher.AbsentLocaleKeepsPath | src/components/language-switcher.tsx:20 | a path without `/<current>` is kept |
| LanguageSwitcher.SwitchKeepsLocalePrefix | src/components/language-switcher.tsx:20 | a locale-prefixed path lands on a path prefixed with the chosen locale, which the routing lets through |
| LanguageSwitcher.SwitchRoundTrip | src/components/language-switcher.tsx:20 | switching there and back returns to the starting path |
| LanguageSwitcher.OnlyFirstOccurrence | src/components/language-switcher.tsx:20 | `/en/en` becomes `/ar/en` |
| LanguageSwitcher.MatchesAnywhereInPath | src/components/language-switcher.tsx:20 | matching is by substring: `/x/en` becomes `/x/ar` |
| AppLoading.BatchesFromCoverRange | src/app/loading.tsx:26-43 | the batches from `current = c` on request every frame from `c` to 100 once, in ascending order, at most ten per call |
| AppLoading.OnePassRequestsAllFrames | src/app/loading.tsx:22-46 | one preload pass requests frames 1 to 100, each once, in order |
| AppLoading.PushBatch | src/app/loading.tsx:27-36 | the loop appends one pending element per frame of the batch, never past frame 100 |
| AppLoading.FinishFiresBounds | src/app/loading.tsx:54-56 | once the finish test passes it passes on every later event; it needs at least 50 events, and 100 events always pass it |
| AppLoading.SettleCounts | src/app/loading.tsx:48-66 | one settled image keeps the completed and drawable counts in step with the events, and the decoded count never shrinks |
| AppLoading.FinishFiresAtFiftyErrors | src/app/loading.tsx:64-66 | errors count twice, so 50 errors already pass the finish test, and no earlier prefix of them does |
| AppLoading.UpdateTextSteps | src/app/loading.tsx:70-77 | the status line advances one stage per completed fifth and reads "Ready to explore!" exactly from 100 on |
| AppLoading.UpdateTextMonotone | src/app/loading.tsx:70-77 | the stage never goes back as progress grows |
| AppLoading.WaitTimeKeepsMinimum | src/app/loading.tsx:90 | elapsed time plus the wait is at least 3000 ms; the wait is zero exactly when 3000 ms have passed, and never more than 3000 ms |
| AppLoading.Preloader.constructor | src/app/loading.tsx:7-20 | the initial state: progress 0, "Initializing...", nothing requested, nothing published, one animation frame pending |
| AppLoading.Preloader.StartPreload | src/app/loading.tsx:22-46 | a pass starts at frame 1 and pushes its first batch onto the same `images` array; counters are not reset |
| AppLoading.Preloader.LoadBatch | src/app/loading.tsx:26-43 | pushes the batch from `current` and advances `current` by ten |
| AppLoading.Preloader.OnLoad | src/app/loading.tsx:31 | the element decodes and `handleFrameLoaded` runs: the count grows, the first frame is recorded only on the first event, and the finish logic runs |
| AppLoading.Preloader.OnError | src/app/loading.tsx:64-68 | the failure is counted, then counted again as a load of an empty element, which never becomes the first frame |
| AppLoading.Preloader.Settle | src/app/loading.tsx:31-32 | the browser settles one pending element, records the event, and marks that element as the one whose handler runs next |
| AppLoading.Preloader.HandleFrameLoaded | src/app/loading.tsx:48-62 | runs on the element that just settled, or on an empty non-drawable element after an error: count, percentage and status line, then `finishLoading` when the finish test passes, then that element becomes the first frame when it is the first event and drawable |
| AppLoading.Preloader.CountCompletion | src/app/loading.tsx:49-52 | the count grows by one, and progress and status line follow it |
| AppLoading.Preloader.FinishLoading | src/app/loading.tsx:79-108 | with at least 80 drawable images it publishes the array and the ready flag and schedules the completion timer with the first-frame flag and the wait; otherwise it schedules a retry |
| AppLoading.Preloader.FinishTimerFires | src/app/loading.tsx:92-103 | a timer that captured a ready first frame completes at once; otherwise it starts a poller |
| AppLoading.Preloader.PollTick | src/app/loading.tsx:96-101 | a poller completes and stops once a first frame exists |
| AppLoading.FirstErrorNeverCompletes | src/app/loading.tsx:59-66 | if the first event is an error, no first frame is ever recorded and `isComplete` is never set, so the final spinner never replaces the progress view |
| AppLoading.CompletionNeedsReadiness | src/app/loading.tsx:85-103 | `isComplete` is set only after readiness was published with at least 80 drawable images and a first frame, which is the element of the first event |
| AppLoading.RetryOvershoots | src/app/loading.tsx:104-107 | when every frame of the first pass fails, 51 retries are scheduled and the next event shows 101 % |
| ShowcaseLoading.LoadsOf | src/app/show-case/loading.tsx:20-22 | `images` holds only requests whose `onload` ran, in order |
| ShowcaseLoading.PublishedBySnoc | src/app/show-case/loading.tsx:27 | after one more event the flags are published exactly when they were already, or the event is a success at the tenth event or later |
| ShowcaseLoading.LoadStep | src/app/show-case/loading.tsx:20-34 | a success appends its request to `images` and publishes from the tenth event on |
| ShowcaseLoading.LoadsOfErrors | src/app/show-case/loading.tsx:37-42 | errors never add to `images` |
| ShowcaseLoading.NineErrorsThenOneLoad | src/app/show-case/loading.tsx:27-34 | failures count towards the ten: nine errors and one success publish an `images` holding only that success |
| ShowcaseLoading.ErrorsNeverPublish | src/app/show-case/loading.tsx:37-42 | errors alone never publish |
| ShowcaseLoading.TalliedLoad | src/app/show-case/loading.tsx:20-35 | a success keeps counters, `images`, progress, flags and first frame in agreement with the events |
| ShowcaseLoading.TalliedError | src/app/show-case/loading.tsx:37-42 | a failure keeps that agreement, changing only the count and progress |
| ShowcaseLoading.FramePreloader.constructor | src/app/show-case/loading.tsx:15-43 | 100 pending requests in frame order, all with handlers, and nothing counted |
| ShowcaseLoading.FramePreloader.OnLoad | src/app/show-case/loading.tsx:20-35 | a pending request always has its handler, so every decode is counted and appended to `images`, and publishes from the tenth event |
| ShowcaseLoading.FramePreloader.OnError | src/app/show-case/loading.tsx:37-42 | every failure is counted, and `images` and the flags are untouched |
| ShowcaseLoading.FramePreloader.Settle | src/app/show-case/loading.tsx:18 | the browser settles one pending request and marks it as the one whose handler runs next |
| ShowcaseLoading.FramePreloader.HandleLoad | src/app/show-case/loading.tsx:20-35 | the `onload` handler, only for the request that just decoded: count, push, percentage, and flags from the tenth event on |
| ShowcaseLoading.FramePreloader.HandleError | src/app/show-case/loading.tsx:37-42 | the `onerror` handler, only for the request that just failed: counts and leaves `images` and the flags alone |
| ShowcaseLoading.FramePreloader.Cleanup | src/app/show-case/loading.tsx:45-51 | only the members of `images` lose their handlers; pending and failed requests keep theirs |
| ShowcaseLoading.PendingIsAttached | src/app/show-case/loading.tsx:20-51 | `images` holds only decoded requests, so cleanup detaches only loaded images and a pending request always keeps its handlers |
| ShowcaseLoading.ReadyLabelIffAllSettled | src/app/show-case/loading.tsx:58 | "Ready..." shows exactly at 100 %, which is reached exactly when every request has settled, in every reachable state |
| ShowcaseHero.CoverFitCovers | src/app/show-case/hero.tsx:176-184 | the scaled image covers the canvas, fits exactly on one axis, keeps its aspect ratio, and is centred with non-positive offsets |
| ShowcaseHero.CoverFitIsSmallest | src/app/show-case/hero.tsx:178 | no smaller scale covers both axes |
| ShowcaseHero.DrawAt | src/app/show-case/hero.tsx:167-168 | at most one draw per render |
| ShowcaseHero.DrawAtCovers | src/app/show-case/hero.tsx:166-190 | `render` draws exactly when the element under the floored frame index is complete with a positive natural height, and then draws that frame covering the canvas |
| ShowcaseHero.NoFailuresIffAllDecoded | src/app/show-case/hero.tsx:81-85 | after 100 completions there were no failures exactly when every frame decoded |
| ShowcaseHero.LoadedIffAllComplete | src/app/show-case/hero.tsx:77-81 | the count is at most 100, and reaches 100 exactly when every request has completed |
| ShowcaseHero.FallbackDrawsFrameInOrder | src/app/show-case/hero.tsx:94-101 | in a fallback run, the draw at scroll index `k` shows frame `k + 1` |
| ShowcaseHero.Completed | src/app/show-case/hero.tsx:71-79 | one completion is counted once, and as a failure exactly when it was an `error` |
| ShowcaseHero.Hero.Mount | src/app/show-case/hero.tsx:19-124 | as written: frames that are ready at mount abort the effect before anything is bound; otherwise the effect checks at once or arms the poller and the timeout |
| ShowcaseHero.Hero.MountCorrected | src/app/show-case/hero.tsx:19-124 | with `imageSeq` declared first: ready frames are drawn, warmed up and bound once; otherwise as written |
| ShowcaseHero.Hero.Render | src/app/show-case/hero.tsx:166-190 | before `imageSeq` exists it aborts; afterwards it draws the frame under the floored index when that frame is drawable |
| ShowcaseHero.Hero.WarmUp | src/app/show-case/hero.tsx:49-59 | frames 1 to 3 are rendered when complete, the index is restored each time, then reset to 0 and rendered once more |
| ShowcaseHero.Hero.StartFallback | src/app/show-case/hero.tsx:62-101 | a fresh session of 100 pending requests in frame order, which `images` now holds |
| ShowcaseHero.Hero.Check | src/app/show-case/hero.tsx:37-103 | usable preloaded frames are adopted, rendered and bound, or abort before `imageSeq` exists; otherwise a fallback session starts |
| ShowcaseHero.Hero.IntervalTick | src/app/show-case/hero.tsx:110-115 | the poller stops itself and checks once `framesReady` is seen |
| ShowcaseHero.Hero.TimeoutFires | src/app/show-case/hero.tsx:118-121 | the timeout stops the poller and checks, whether or not the poller already did |
| ShowcaseHero.Hero.OnImageLoad | src/app/show-case/hero.tsx:71-91 | each completion is counted; at 100 with no failures the frame is rendered and the scroll binding made, otherwise nothing is bound |
| ShowcaseHero.Hero.Count | src/app/show-case/hero.tsx:71-79 | the counting half of `onImageLoad`, with the progress shown |
| ShowcaseHero.Hero.OnScrollUpdate | src/app/show-case/hero.tsx:130-147 | the tween snaps `imageSeq.frame` to a whole index and renders it |
| ShowcaseHero.Hero.Cleanup | src/app/show-case/hero.tsx:192-194 | cleanup kills the scroll bindings only |
| ShowcaseHero.PreloadedMountCrashes | src/app/show-case/hero.tsx:106-124 | frames that are ready at mount leave nothing bound and nothing drawn by the hero's own render |
| ShowcaseHero.CorrectedMountBinds | src/app/show-case/hero.tsx:41-61 | with the declaration moved up, the same mount binds once at frame 0 |
| ShowcaseHero.ReadyBeforeTimeoutBindsTwice | src/app/show-case/hero.tsx:110-121 | frames that become ready before the timeout are checked twice and bound twice |
| ShowcaseHero.TimeoutAfterUnmountBinds | src/app/show-case/hero.tsx:118-121 | a timeout still pending at unmount binds the animation of an unmounted hero |
| SectionsHero.FrameUrlInjective | src/components/sections/hero.tsx:14 | distinct frames have distinct addresses |
| SectionsHero.BackgroundFor | src/components/sections/hero.tsx:104-110 | the static first frame is used exactly on mobile |
| SectionsHero.ProgressHundredOnlyAtEnd | src/components/sections/hero.tsx:58 | with 120 frames the rounded percentage is 100 exactly when all have loaded |
| SectionsHero.Hero.Mount | src/components/sections/hero.tsx:27-67 | on mobile nothing is requested and `loading` is cleared; otherwise 120 pending requests in frame order and a live animation |
| SectionsHero.Hero.Render | src/components/sections/hero.tsx:45-50 | draws the element under `frame.current` whenever it exists, loaded or not |
| SectionsHero.Hero.OnLoad | src/components/sections/hero.tsx:56-66 | counts the load, renders on the first one, and clears `loading` exactly at the 120th |
| SectionsHero.Hero.OnError | src/components/sections/hero.tsx:52-67 | with no `onerror` handler, a failure changes only the element, and the overlay stays |
| SectionsHero.Hero.OnScrollUpdate | src/components/sections/hero.tsx:81-86 | the timeline sets `frame.current` to a whole index and renders it |
| SectionsHero.Hero.Cleanup | src/components/sections/hero.tsx:90 | the animation is reverted |
| SectionsHero.OverlayIffFrameMissing | src/components/sections/hero.tsx:95 | the overlay shows exactly on a desktop while some frame has not decoded |
| SectionsHero.FirstLoadDrawsFrameOne | src/components/sections/hero.tsx:59-62 | the first load draws element 0, whichever frame loaded: here frame 1, still pending |
| SectionsHero.OneFailureKeepsOverlay | src/components/sections/hero.tsx:56-66 | one failed frame keeps the overlay up for good, below 100 % |
| Gallery.CategoryIndex | src/components/page-content/GalleryContent.tsx:7 | each category sits at its index in the cycle |
| Gallery.TitleIsNameAndRound | src/components/page-content/GalleryContent.tsx:22 | `trim` changes nothing: the title of item `i` is name `i mod 8`, a space, and `i div 8 + 1` |
| Gallery.CatalogueShape | src/components/page-content/GalleryContent.tsx:20-28 | ids run from 1 to 50, categories follow the cycle, and no two items share an image |
| Gallery.CatalogueOrder | src/components/page-content/GalleryContent.tsx:20-23 | the catalogue cycles its categories and its ids increase |
| Gallery.FilterBy | src/components/page-content/GalleryContent.tsx:90 | the filter keeps only items of the category, all taken from the input |
| Gallery.FilterByComplete | src/components/page-content/GalleryContent.tsx:90 | the filter keeps every item of the category |
| Gallery.FilterByKeepsOrder | src/components/page-content/GalleryContent.tsx:90 | the filter keeps the order |
| Gallery.FilterCount | src/components/page-content/GalleryContent.tsx:23 | among `n` items that cycle their categories, the category at position `k` occurs `(n + 2 - k) / 3` times |
| Gallery.FilteredSizes | src/components/page-content/GalleryContent.tsx:88-90 | `all` shows 50; keychains and patches have 17 each, custom 16 |
| Gallery.FilteredIsCategory | src/components/page-content/GalleryContent.tsx:88-90 | a filtered view holds exactly the items of its category |
| Gallery.FilteredKeepsOrder | src/components/page-content/GalleryContent.tsx:88-90 | every filtered view keeps the catalogue order |
| Gallery.DisplayedIsPrefix | src/components/page-content/GalleryContent.tsx:91-92 | the page shows the first `min(visibleCount, filtered length)` items, and `hasMore` holds exactly when `visibleCount` is below the filtered length |
| Gallery.ClicksToShowAll | src/components/page-content/GalleryContent.tsx:121-124 | `all` needs four clicks to show everything; a single category needs one |
| Gallery.GalleryState.constructor | src/components/page-content/GalleryContent.tsx:34-38 | the filter starts at `all` and the count at 12 |
| Gallery.GalleryState.ClickFilter | src/components/page-content/GalleryContent.tsx:47-54 | the filter is set; the count goes back to 12 exactly when the filter changed |
| Gallery.GalleryState.LoadMore | src/components/page-content/GalleryContent.tsx:121-124 | offered only while items are hidden; adds 12 and shows at least one more item, keeping those shown |
| Gallery.FilterRoundTrip | src/components/page-content/GalleryContent.tsx:52-54 | leaving `all` and coming back starts again at 12 |
| Gallery.ShowEverything | src/components/page-content/GalleryContent.tsx:121-124 | four clicks on `all` show every item and hide the button |
| Actions.FieldIssues | src/app/actions.ts:20-30 | a field has no issue exactly when it is a string its rule accepts; otherwise it has one issue, the rule's text or zod's type text |
| Actions.SubmitContactForm | src/app/actions.ts:17-55 | success exactly when the name has at least 2 characters, the e-mail passes the check and the message has at least 10; success carries the localised success message and `errors: null`, failure the localised error message and field errors |
| Actions.RefusalNamesBrokenFields | src/app/actions.ts:32-38 | a refused form names exactly the fields that broke a rule, each with its fixed English text, and at least one field |
| Actions.MissingFieldIsRefused | src/app/actions.ts:26-30 | a missing field fails with "Expected string, received null" |
| Actions.FieldTextsIgnoreLanguage | src/app/actions.ts:21-35 | field texts and the outcome do not depend on the language; only the top message does |
| Actions.PreviousStateIgnored | src/app/actions.ts:17 | the previous state is never read |

## Left out

- Network and decoding are not modelled: which image loads or fails, and
  when, is a choice of the environment. Each event is a method call with
  the element's new state.
- Clocks are not modelled. `Date.now()` differences enter as an `elapsed`
  argument. Timers and intervals are pending items that a method fires;
  their delays (20 ms, 100 ms, 1 s, 2 s, 10 ms) only order events in the
  browser, and the model allows any order.
- `requestIdleCallback` and `setTimeout(loadBatch, 20)` are one and the
  same scheduling choice (`src/app/loading.tsx:39-41`).
- GSAP, ScrollTrigger, pinning, scrub and the content fades are not
  modelled. A scroll update is a method that sets the frame index to a
  whole number (the tweens snap) and renders. The scroll-to-index mapping
  and `ScrollTrigger.refresh`/`onRefresh` renders belong to the library.
- Canvas pixels are not modelled. `clearRect`, `drawImage` and the canvas
  size are recorded as `Drawn` events with the placement that `render`
  computes.
- The placement uses exact reals, so floating-point rounding of the
  cover-fit arithmetic is not modelled.
- `Percent` rounds the exact rational `100 * count / total` to the nearest
  integer, halves up, as `Math.round` does. Over 100 frames this is the
  double-precision result for every count, since the percentage is the
  count itself.
- SectionsHero.Hero.OnLoad: the home-page hero computes
  `Math.round((loadedImages / 120) * 100)` in doubles
  (`src/components/sections/hero.tsx:58`). At 69 loaded frames the double
  product is 57.49999999999999, so the page shows 57, while `Percent(69, 120)`
  is 58. The model's `progress` differs from the page's at that one count.
  Doubles are not modelled, so the model does not capture it.
- The locale matcher regex (`src/middleware.ts:34-39`) is not modelled:
  `Route` is what runs on the paths the matcher lets in.
- Zod's e-mail regex is not modelled: it is the parameter `isEmail`.
- String lengths count Dafny characters. JavaScript counts UTF-16 code
  units, so a character outside the Basic Multilingual Plane counts twice
  in the source.
- `IsWhitespace` covers the six ASCII characters `trim` removes: tab,
  line feed, vertical tab, form feed, carriage return and space. `trim`
  also removes the non-ASCII spaces and line terminators (no-break space,
  the byte order mark, U+2028, U+2029 and the Unicode space separators),
  which never occur in the catalogue titles.
- The dictionaries are a parameter. `src/lib/dictionaries.ts` loads JSON
  files that are not part of this model.
- The `console.log`, `console.warn` and `console.error` calls are not
  modelled.
- The contact action's 1.5 s delay is not modelled. Nothing in its `try`
  block can throw, so the `catch` answer (`src/app/actions.ts:52-55`) is
  never produced and is not modelled.
- `formData.get` returning a `File` gives zod's text for an object. The
  contact form only sends text fields.
- `useIsMobile` (`src/hooks/use-mobile`) is not part of this model. The
  hero takes `isMobile` as a constant of one run of its effect.
- Re-running an effect on a changed dependency is not modelled.
- `Filter` has only the four values the buttons produce
  (`src/components/page-content/GalleryContent.tsx:70`). The `hoveredItem`
  state and the entry animations are presentation.
- AppLoading.Preloader.PollTick, AppLoading.Preloader.FinishLoading and
  AppLoading.FirstErrorNeverCompletes: the `window` slots
  (`preloadedFrames`, `framesReady`, `firstFrame`) are modelled per loader,
  as fields of the loader that writes them. In the browser they are shared:
  the show-case loading screen also writes `window.firstFrame`
  (`src/app/show-case/loading.tsx:32`), and the site-wide loader's poll
  (`src/app/loading.tsx:97`) would then see that frame. The model has no
  second writer, so "the polling runs forever" holds only for a page where
  the site-wide loader is the only one running.
- ShowcaseHero.Hero.Mount: the array a ready loading screen publishes is
  taken as a snapshot. Later decodes in the loader's own array, which the
  hero holds by reference, are not seen by the hero.
- ShowcaseHero.Hero.Mount: the `loading` state and the `Progress` import of
  `src/app/show-case/hero.tsx:16` are never used by the source and are not
  modelled.
- SectionsHero.Hero.Render, SectionsHero.Hero.OnScrollUpdate and
  SectionsHero.FirstLoadDrawsFrameOne: the model records every
  `drawImage` call as a draw, and does not capture what the browser does
  with it. For a still-loading element, `drawImage` paints nothing. For a
  broken element, the HTML standard has `drawImage` throw an
  `InvalidStateError` after `clearRect` has already blanked the canvas.
  This hero attaches no `onerror`, so a failed frame stays in `images`. A
  scroll onto it, or the first-load render when element 0 has failed,
  throws; the model records the call and not the exception.
- React batching of state updates is not modelled. Each `set…` call takes
  effect at once, and what is rendered is read off the fields.
- The other presentation files are not modelled (layout, pages, the
  contact form's toasts, the content sections and the footer). They hold
  no logic beyond choosing `dir="rtl"` for Arabic.

Some behaviour of the code is easy to miss when reading it, so it is
stated as a lemma:

- Progress can pass 100 %. The site-wide loader keeps counting across
  retries, which start again without resetting the counters
  (`AppLoading.RetryOvershoots`).
- Readiness can be decided before every frame has settled. The site-wide
  loader counts each error twice, so the decision can come after 50
  errors (`AppLoading.FinishFiresAtFiftyErrors`). It also counts the
  drawable images of every pass, not only those of the current pass.
- The home-page hero draws element 0 on the first load without checking
  that it has decoded (`SectionsHero.FirstLoadDrawsFrameOne`).
- The show-case hero can make its scroll binding twice
  (`ShowcaseHero.ReadyBeforeTimeoutBindsTwice`), and its pending timeout
  can make it after unmount (`ShowcaseHero.TimeoutAfterUnmountBinds`).

## Findings

| source | as written | input that shows it | evidently intended | confidence | as-written member | corrected member |
|---|---|---|---|---|---|---|
| src/app/show-case/hero.tsx:106-124 | when `window.framesReady` is already set at mount, `checkForPreloadedFrames` runs before `const imageSeq` (line 124) is declared. With at least 100 preloaded frames it calls `render` (line 46), which reads `imageSeq.frame` in its temporal dead zone and throws a `ReferenceError`. The effect aborts before `setupScrollTrigger` | `framesReady = true` and 100 preloaded frames when the hero mounts (the loading screen finished first) | `imageSeq` declared before the readiness check, so ready frames are rendered, warmed up and bound at once | high (not executed) | ShowcaseHero.PreloadedMountCrashes | ShowcaseHero.CorrectedMountBinds |
