# JOE website scripts: gallery pager, form validator and mouse-trail queue

This project models, in Dafny, the parts of the website's `script.js` that have behaviour beyond DOM wiring. Everything else in that file is animation and style glue.

- **Gallery filter and pager** (`GalleryFilter`), module `Gallery`. Each gallery item may carry a `data-category`, and each filter button may carry a `data-filter`; both are `Option<string>` in the model. A filter button shows the items whose category equals its filter, or every item for the filter `all`. A button without `data-filter` compares `undefined` with `undefined`, so it shows exactly the items without a category. Items are shown only up to a page cursor, `currentItems`, which starts at `itemsPerPage` = 9. A "load more" control raises the cursor by 9 and filters again with the active button's filter. One filtering pass is the pure function `FilterGallery` from (items, filter, cursor) to a `Display`: a shown flag per item, plus whether the load-more control is shown. The clicks form a small state machine over `Pager` (cursor, active filter), driven by `Step` and `Run`.
- **Form validation** (`FormValidator`), modules `Text` and `FormValidation`. `validateInput` trims the value. It then applies the required check, the email pattern `^[^\s@]+@[^\s@]+\.[^\s@]+$` and the telephone pattern `^[\d\s\-\+\(\)]+$`, and a failing check sets a fixed Indonesian message. `validateForm` validates every required input, with no short-circuit, and blocks submission unless all of them pass. Each regular expression is written twice:
  - as the language it denotes, `MatchesEmailPattern` and `MatchesTelPattern`;
  - as a decision procedure, `IsEmail` and `IsTel`, proved equivalent to that language.

  JavaScript's `\s` and `String.prototype.trim` strip the same code points, the ECMAScript WhiteSpace and LineTerminator sets. Both are modelled by the single predicate `Text.IsSpace`.
- **Mouse-trail queue** (`MouseTrail.animate`), module `MouseTrail`. Each frame appends the current mouse position and drops the oldest position once the trail exceeds `CONFIG.mouseTrailLength` = 20.

A filter click does not reset the cursor: `setupFilters` (script.js:1397-1409) only moves the `active` mark and calls `filterGallery`, so the cursor keeps the value that earlier load-more clicks gave it. `Step` and `CursorCountsLoadMores` state this.

## Model

| member | source | states |
|---|---|---|
| Text.Trim | script.js:792 | The trimmed value is a slice of the input. It is cut only through whitespace and neither starts nor ends with whitespace. |
| Text.TrimEmptyIff | script.js:797 | A trimmed value is empty exactly when the raw value is all whitespace. So `!value` in the required check means "blank", in both directions. |
| Text.TrimUnique | script.js:792 | At most one string is a trim of a given string, so `Trim`'s contract determines its result completely. |
| Text.TrimIdempotent | script.js:792 | Trimming an already trimmed value changes nothing. |
| FormValidation.IsEmail | script.js:803-805 | The email test succeeds if and only if the value is in the language of `^[^\s@]+@[^\s@]+\.[^\s@]+$`. |
| FormValidation.EmailCharacterization | script.js:804 | A value matches the email pattern if and only if four things hold. It has no whitespace. It has exactly one `@`. Something precedes the `@`. The text after the `@` has a `.` with at least one character on each side. |
| FormValidation.ValidateInput | script.js:791-818 | Whenever it fails, the message is one of the three fixed messages. What it decides is stated by `ValidateInputMeaning`. |
| FormValidation.IsTel | script.js:812-814 | The telephone test succeeds if and only if the value is non-empty and every character is an ASCII digit, whitespace, `-`, `+`, `(` or `)`. |
| FormValidation.ValidateInputMeaning | script.js:791-818 | A required input whose value is blank after trimming is invalid with 'Field ini wajib diisi'. A blank optional input is valid, because the format checks are skipped. A non-blank email input is valid iff its trimmed value matches the email pattern, and otherwise fails with 'Email tidak valid'. A non-blank tel input is valid iff its trimmed value matches the telephone pattern, and otherwise fails with 'Nomor telepon tidak valid'. Any other input type fails only the required check. |
| FormValidation.RequiredInputs | script.js:779 | The selected inputs are all required and all come from the form, and every required input of the form is selected. |
| FormValidation.RequiredInputsCount | script.js:779 | Every required input is selected exactly as often as it occurs in the form, and nothing else is selected. So two identical blank required fields get two verdicts. |
| FormValidation.RequiredInputsAppend | script.js:779 | Selection keeps document order: selecting from a form made of two parts gives the first part's selection followed by the second's. |
| FormValidation.ValidateEach | script.js:782-786 | Every selected input gets a verdict from the validator, including inputs after a failing one. The result is true iff every verdict is valid. |
| FormValidation.ValidateForm | script.js:778-789 | There is one verdict per required input, in order. The result is true iff every required input of the form passes `validateInput`. |
| FormValidation.SubmitAllowedIff | script.js:757-761 | Submission is not prevented exactly when every required input of the form is valid. |
| FormValidation.AfterBlur | script.js:766-768 | After leaving an input it is marked in error exactly when one check fails. That means a blank required value, a non-blank email that does not match, or a non-blank telephone that does not match. |
| FormValidation.AfterEdit | script.js:769-773 | After an edit the input is marked exactly when it was marked before and one check still fails. That means a blank required value, a non-blank email that does not match, or a non-blank telephone that does not match. Typing into an unmarked input never marks it. |
| FormValidation.AfterSubmit | script.js:757-761 | A submit re-validates the input through `validateForm` only if it is required. The marker is then set exactly when a check fails. An optional input's marker is left as it was. |
| FormValidation.React | script.js:757-773 | After a blur, or a submit of a required input, the marker is set exactly when a check fails. After an edit it stays exactly when it was set and a check still fails. No other event sets it. A submit of an optional input leaves the marker as it was. |
| FormValidation.AfterEvents | script.js:757-773 | Over a series of blur, edit and submit events, a final blur or required submit decides the marker by the checks. A final edit whose value passes every check leaves it off. |
| FormValidation.MarkerStaysCleared | script.js:757-773 | Once the error marker is off, it comes back only through a blur, or a submit of a required input, whose value fails a check. Edits and submits of an optional input never set it. |
| FormValidation.MarkerJustified | script.js:757-773 | For an input that starts unmarked, a marker is always explained by an earlier blur or required submit whose value failed a check. |
| Gallery.MatchingItems | script.js:1431-1433 | The `totalVisible` list: it is no longer than the items and every element matches the filter. `MatchingItemsCount` and `MatchingItemsAppend` state that it keeps every matching item, in document order. |
| Gallery.MatchingItemsAppend | script.js:1431-1433 | Filtering keeps document order: the matching items of two consecutive runs of items are those of the first run followed by those of the second. |
| Gallery.Matches | script.js:1417 | The filter `all` matches every item. A filter value matches exactly the items with that category. A button without `data-filter` compares `undefined` with `undefined`, so it matches exactly the items without a category. |
| Gallery.MatchingItemsCount | script.js:1431-1433 | Filtering keeps every matching item, as often as it occurs, and drops every other item. |
| Gallery.ShowFrom | script.js:1414-1428 | The per-item walk with its running visible count shows item k iff it matches the filter and fewer than `currentItems` matching items precede it. The final count is min(`currentItems`, number of matching items). |
| Gallery.FilterGallery | script.js:1411-1437 | Every shown item matches the filter, or the filter is `all`. Every non-matching item is hidden. An item is shown iff it matches and ranks below the cursor among matching items. The load-more control is visible iff the cursor is below the number of matching items. |
| Gallery.ShownAreFirstPage | script.js:1412-1437 | The shown items are exactly the first min(`currentItems`, number of matching items) matching items, in document order. Their number never exceeds the cursor. The load-more control is visible iff fewer items are shown than match. |
| Gallery.ShownCountPrefix | script.js:1418-1421 | Over each prefix of the items, the visible count is min(`currentItems`, number of matching items in that prefix). |
| Gallery.InitialShown | script.js:1440-1446 | The visibility after `hideExtraItems` has one flag per item. `InitialIsShowAll` states what the flags are. |
| Gallery.InitialIsShowAll | script.js:1440-1446 | The item visibility left by `hideExtraItems` (the first 9 items shown, the rest hidden) equals filtering by `all` with the initial cursor. |
| Gallery.AllMatchesEverything | script.js:1417 | Under the filter `all`, every item matches, whatever its category. |
| Gallery.Step | script.js:1397-1407 | A filter click marks its filter active and leaves the cursor unchanged. A load-more click adds exactly `itemsPerPage` (9) to the cursor and keeps the active filter. Afterwards a filter is always active. |
| Gallery.Render | script.js:1405-1406 | After a click, the page is re-filtered with the active button's filter and the current cursor. An item is shown iff it matches that filter and fewer than cursor-many matching items precede it. The load-more control is visible iff the cursor is below the number of matching items. |
| Gallery.CursorCountsLoadMores | script.js:1448-1456 | After any series of clicks, the cursor equals the initial cursor plus 9 times the number of load-more clicks. So it never decreases and filter clicks never reset it. |
| Gallery.InitialCursor | script.js:1383-1384 | From the state the constructor sets up, the cursor is 9 times one more than the number of load-more clicks. |
| Gallery.LoadMoreShowsMore | script.js:1450-1453 | After a load-more click, min(cursor + 9, number of matching items) items are shown. If the control was visible, strictly more items are shown than before. |
| Gallery.SaturatedCursor | script.js:1418-1437 | While the load-more control is hidden, so that the cursor already covers every matching item, raising the cursor shows the same items and the control stays hidden. A load-more click in that state leaves the shown items unchanged. It still raises the cursor by 9, and a later filter click uses that cursor. |
| Gallery.RepeatedLoadMore | script.js:1451 | n load-more clicks move the cursor by 9n under the same active filter. |
| Gallery.LoadMoreReachesEnd | script.js:1435-1437 | Once enough load-more clicks have raised the cursor to the number of matching items, every matching item is shown and the load-more control is hidden. The clicks are always enabled under an active filter (`RepeatedLoadMore`). |
| MouseTrail.Push | script.js:623-633 | A frame puts the mouse point last and keeps the newest older points in order. It drops one point exactly when the length would exceed 20, so a trail within the bound stays within it. |
| MouseTrail.Frames | script.js:620-633 | Repeated frames from the empty trail keep the trail within 20 points, and the newest position is last. `TrailKeepsNewest` states the full contents. |
| MouseTrail.TrailKeepsNewest | script.js:620-633 | Starting from an empty trail, after any number of frames the trail holds exactly the newest min(frames, 20) positions, oldest first. |

## Left out

- Drawing: the canvas drawing of the trail and the per-point `life` field (script.js:635-649) are not modelled. Only the queue update is.
- Mouse coordinates are modelled as integers. The browser's `clientX`/`clientY` may be fractional, but the queue does not look at the values.
- Display side effects are not modelled: `item.style.animation` strings, inline CSS, and the insertion and removal of the error-message element (`showErrorMessage`, `removeErrorMessage`). The model keeps only whether an item is shown, whether the control is shown, and the message text.
- Error-message placement is not modelled. `removeErrorMessage` (script.js:848-852) removes the first `.error-message` under the input's parent, which may belong to a sibling input when two inputs share a parent. The model keeps only the message `validateInput` sets and each input's `error` marker.
- The DOM queries become inputs: `.gallery-item` elements and their `data-category`, the `data-filter` of the active button, and an input's `type`, `required` and `value`.
- Gallery.LoadMoreShowsMore: stated on (items, filter, cursor) rather than on a `Pager`. `Step` and `Render` give the link: a load-more click re-filters with the active filter and the cursor plus 9.
- Gallery.InitialIsShowAll: `hideExtraItems` only hides items from position 9 on. The model assumes the markup shows the first nine. It also does not set the load-more control, whose initial visibility comes from the markup.
- When the page has no filter buttons, `GalleryFilter.init` is never called (script.js:1386-1388) and nothing happens. When there is no load-more button, the control's display is not set. Both are outside the model.
- The load-more handler reads `.filter-btn.active` without a null check (script.js:1452). This is the precondition `Enabled`, not an error path. In the source, `this.currentItems += this.itemsPerPage` (script.js:1451) runs before that dereference. So a load-more click with no active button still raises the cursor and then throws; the model does not describe that state.
- `ParticleSystem`, the easing functions, `smoothScrollTo`, parallax and the progress bar are left out because they are floating-point and frame-driven.
- `AnimatedCounter` is left out: its increment `target / 125` is a float accumulated per frame.
- `debounce`, `throttle` and the IntersectionObserver callbacks are left out because they depend on timers and browser scheduling.
- `ImageLightbox`, `TooltipManager`, `RippleEffect`, `AccessibilityManager`, `LoadingAnimation`, `CookieConsent`, `YearUpdater` and `PerformanceMonitor` are left out. They are DOM/style manipulation, a single storage flag, the clock, or console timing logs, with no logic to state.
