# Gallery carousel and scroll spy, modelled in Dafny

This project models the two stateful pieces of the site script `js/script.js`.

- **Gallery carousel.** It shows three of N slides at a time and loops endlessly. The container's N slides are padded into a display track of N + 6 entries: clones of the last three slides, the slides, then clones of the first three. A cursor names the left-most visible entry. `goToSlide` starts an animated transition unless one is already in flight. `nextSlide`, `prevSlide` and a click on indicator `i` call it with cursor + 1, cursor - 1 and `i + 3`. 500 ms later a deferred callback (here `Settle`) snaps a cursor that ran into the clones back onto a real slide, re-renders without animation and clears the in-flight flag. Every render marks the track entry at cursor + 1 as the centre slide. It also marks indicator `(cursor - 3 + N) % N` as active, using JavaScript's truncating `%`.
- **Scroll spy.** On every scroll event, the current section is the last one, in document order, whose top is at most 100 px below the scroll position. The navigation links whose `href` is `#` + that id get the `active` class. The navigation bar gets `scrolled` exactly when the scroll position exceeds 50.

Files:

- `carousel.dfy`, module `Carousel`. It holds the track as a value (`Entry`, `Track`), the loops that build it (`BuildTrack`), the render rules (`ActiveIndicator`, `Flags`, `MarkOnly`) and the settle step (`Rebase`, plus the corrected `RebaseIntended`). The class `Gallery` holds the state the script updates in place. Its cursor, in-flight flag and last render mode are fields. The `active` classes of the track entries and of the indicators are two `bool` arrays.
- `scroll_spy.dfy`, module `ScrollSpy`. It holds the scroll listener as one method with its two loops, and the function `Current` that specifies the current section.

`Gallery.Valid()` is the invariant every operation keeps. The classes on screen always match the cursor, and when no transition is pending the cursor lies on a real slide, in `[3, N + 2]`. `Gallery.Reachable()` adds that a transition in flight has moved the cursor at most one entry into the clones (`[2, N + 3]`). The constructor establishes it, and `Next`, `Prev`, `ClickIndicator` and `Settle` keep it. In every such state exactly one track entry is the centre one and exactly one indicator is active (`Gallery.OneOfEachActive`). The in-flight flag is the only guard: `GoToSlide` while it is set changes nothing, and only `Settle` clears it.

The comment at js/script.js:153 says that a cursor in the leading clones should "jump to end real slides", and the forward seam at js/script.js:148-151 lands on the same slides it left. Line 154 does something else: the backward seam lands on cursor N, as described under Findings. The `Gallery` class follows the code.

## Model

| member | source | states |
|---|---|---|
| `Carousel.BuildTrack` | js/script.js:81-93 | The two cloning loops turn a container holding the N slides into exactly the track: clones of slides N-3..N-1, the originals in order, then clones of slides 0..2 |
| `Carousel.TrackAt` | js/script.js:81-93 | The track has N + 6 entries; entry `j` shows slide `(j - 3) mod N`, and it is a clone exactly when `j < 3` or `j >= N + 3`, so positions 3..N+2 hold the real slides in order |
| `Carousel.JsRem` | js/script.js:132 | JavaScript's `%`: the result has the sign of the dividend, its magnitude is below the divisor, and it differs from the dividend by a multiple of the divisor |
| `Carousel.ActiveIndicator` | js/script.js:132 | For every cursor at least 3 - N, the active indicator lies in `[0, N)` and is `(cursor - 3) mod N`; below that it lies in `(-N, 0]` |
| `Carousel.IndicatorNamesCursorSlide` | js/script.js:125-135 | For every cursor on the track, clones included, the active indicator is the index of the slide at the cursor, the left-most visible one |
| `Carousel.ExactlyOneActive` | js/script.js:126-135 | A render marks exactly one element of a list when the marked position lies in the list, and none otherwise |
| `Carousel.RenderMarksOneOfEach` | js/script.js:125-135 | For every cursor that navigation can produce from a settled state (2..N+3), exactly one track entry and exactly one indicator are active |
| `Carousel.Rebase` | js/script.js:146-156 | The code's settle step always lands in `[3, N + 2]` (N = track length - 6 >= 3) and leaves a cursor already there unchanged |
| `Carousel.ForwardSeamSeamless` | js/script.js:148-151 | Settling from the first trailing clone (cursor N + 3) jumps to 3, where the same three slides are shown and indicator 0 stays active |
| `Carousel.BackwardSeamJumps` | js/script.js:152-155 | Settling from cursor 2 (showing slide N-1, slide 0, slide 1, indicator N-1) jumps to cursor N, which shows slides N-3 to N-1 and activates indicator N-3, for every slide list; whenever slides N-1 and N-3 differ, the visible window changes |
| `Carousel.IntendedRebaseSeamless` | js/script.js:148-155 | The corrected settle step lands in `[3, N + 2]`, and for every cursor in `[0, N + 3]` it keeps the three visible slides and the active indicator |
| `Carousel.NextCycleReturns` | js/script.js:162-164 | From the first slide, N rounds of "next, then settle" put slides 0..N-1 at the cursor in turn and come back to cursor 3 |
| `Carousel.PrevAsWrittenNeverReachesLastTwo` | js/script.js:166-168 | With the code's settle step, after every settle in any number of rounds of "previous, then settle" from the first slide, the cursor is in `[3, N]`: slides N-2 and N-1 are never left at the cursor. During the first transition slide N-1 shows briefly (cursor 2, a clone) before the jump to slide N-3 |
| `Carousel.PrevIntendedCycleReturns` | js/script.js:166-168 | With the corrected settle step, one round of "previous" from the first slide reaches the last slide (cursor N + 2), and N rounds come back to cursor 3 |
| `Carousel.NewIndicators` | js/script.js:99-108 | Creates one indicator per real slide, with only indicator 0 active |
| `Carousel.MarkOnly` | js/script.js:126-135 | The `forEach` toggle leaves the `active` class on the element at the given position only |
| `Carousel.Gallery.OneOfEachActive` | js/script.js:125-135 | In every reachable state (`Reachable()`), exactly one track entry carries the centre-slide mark and exactly one indicator is active |
| `Carousel.Gallery.constructor` | js/script.js:76-108 | Initial state: the track is built, cursor 3, no transition pending, the reachable-state invariant holds, and after the instant initial render only indicator 0 is active, which agrees with `(3 - 3 + N) % N = 0` |
| `Carousel.Gallery.Render` | js/script.js:112-136 | Sets the render mode and re-marks every track entry and indicator: only entry cursor + 1 and only indicator `ActiveIndicator(cursor, N)` are active |
| `Carousel.Gallery.GoToSlide` | js/script.js:138-142 | While a transition is in flight nothing changes. Otherwise the cursor becomes the target, the flag is set and the render is animated. The invariant is kept either way |
| `Carousel.Gallery.Settle` | js/script.js:144-159 | Requires a pending transition. The cursor becomes `Rebase(old cursor, N + 6)`, so it is back in `[3, N + 2]` and the state is reachable again. A rebase re-renders instantly, and the flag is cleared |
| `Carousel.Gallery.Next` | js/script.js:162-164 | Targets cursor + 1 with an animated render, or changes nothing (cursor and render mode) while a transition is in flight; keeps the reachable-state invariant |
| `Carousel.Gallery.Prev` | js/script.js:166-168 | Targets cursor - 1 with an animated render, or changes nothing (cursor and render mode) while a transition is in flight; keeps the reachable-state invariant |
| `Carousel.Gallery.ClickIndicator` | js/script.js:103-106 | Targets cursor `i + 3` with an animated render, after which indicator `i` is the active one, or changes nothing (cursor and render mode) while a transition is in flight; keeps the reachable-state invariant |
| `ScrollSpy.CurrentWhenNoneReached` | js/script.js:28-34 | When no section is within 100 px, the current id is empty |
| `ScrollSpy.CurrentIsLastReached` | js/script.js:28-34 | Otherwise the current id is that of the last reached section in document order |
| `ScrollSpy.OnScroll` | js/script.js:27-49 | The loop computes `Current`. A link is active iff its `href` equals `#` + current. The bar is `scrolled` iff the scroll position exceeds 50 |

## Findings

| source | as written | input that shows it | evidently intended | confidence | as-written member | corrected member |
|---|---|---|---|---|---|---|
| js/script.js:154 | a cursor in the leading clones settles at `allSlides - 6`, that is N | N = 5, slides A..E, track C D E A B C D E A B C. "Previous" from A moves to cursor 2 (E A B, indicator 4). Settle jumps to cursor 5 (C D E, indicator 2) instead of cursor 7 (E A B) | settle at the original of the clone under the cursor, cursor + N (N + 2 from cursor 2), as the forward seam does | high; not executed | `Carousel.BackwardSeamJumps` (also `Carousel.PrevAsWrittenNeverReachesLastTwo`) | `Carousel.IntendedRebaseSeamless` (also `Carousel.PrevIntendedCycleReturns`) |

`Gallery.Settle` keeps the behaviour as written, because the class models the code. The corrected step `RebaseIntended` and its lemmas show what the seam does once the line is fixed.

## Left out

- DOM manipulation (`cloneNode`, `appendChild`, `insertBefore`, `classList`). Slides are opaque values. The `active` classes are `bool` arrays, and the `clone` class is a flag on each track entry.
- The `translateX(-cursor * 100/3 %)` offset (js/script.js:113-122) is left out: it is floating-point CSS. Only the transition on/off switch is kept, as `Gallery.animated`.
- Timers: the 500 ms delay becomes the separate method `Gallery.Settle`, which requires a pending transition. The 3000 ms auto-scroll interval, `resetAutoScroll` and the hover pause/resume (js/script.js:170-193) only decide when `Next` is called, so they are not modelled.
- The IntersectionObserver reveal animations, smooth scrolling and the mobile menu toggles (js/script.js:1-21, 52-68) are not modelled: they are browser APIs and class flips with no state of their own.
- Fewer than three slides: the script indexes past the end of the slide list while cloning (js/script.js:83, 90). Here this is a precondition (N >= 3) of `Gallery.constructor` and `BuildTrack`, not modelled behaviour.
- Missing page elements: `getElementById` returning null, and a section without an `id` (which the script would turn into `#null`), are not modelled. Section ids are strings.
- `ScrollSpy.OnScroll`: scroll positions and offsets are integers, although browsers may report fractional pixels. The link and bar classes are returned as values rather than updated in place, since the listener sets every one of them afresh.
