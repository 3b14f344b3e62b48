# Portfolio site front end, modelled in Dafny

This project models the logic of a portfolio web site's scripts and proves properties of it.
It covers three files:

- `js/utils.js`: the `Utils` helpers and the `ErrorHandler` log.
- `js/animations.js`: `AnimationManager` and `ScrollAnimations`.
- `js/main.js`: the contact form check, the filter buttons, the navigation bar, the progress
  bars and the blog toggle.

The DOM is reduced to records:

- An element is its attributes (`Option<string>`, `None` where `getAttribute` gives `null`).
- Its inline style is a datatype with one field per property the scripts write.
- Its bounding rectangle is an integer `Box`.

Time is made of explicit events. A pending `setTimeout` or `requestAnimationFrame` callback is
a value in the model's state, and a method fires it. Where the event-loop order matters (the
filter buttons), a timeout carries its due time.

Modules, one file each:

| file | module | models |
|---|---|---|
| `chars.dfy` | `Chars` | character classes (`\d`, hex digits, JavaScript white space), `String(n)` |
| `colour.dfy` | `Colour` | `hexToRgb`, `rgbToHex` (32-bit shifts and `toString(16)` included) |
| `validators.dfy` | `Validators` | both `isValidEmail` patterns and `isValidPhone`, as character predicates |
| `measures.dfy` | `Measures` | `clamp`, the device-width classes, `Utils.isElementInViewport` |
| `dates.dfy` | `Dates` | the unit search of `timeAgo`, the placeholder replacement of `formatDate` |
| `errors.dfy` | `ErrorLog` | `ErrorHandler.logError` / `getErrors` / `clearErrors` |
| `ratelimit.dfy` | `RateLimit` | `throttle` and `debounce`, as gates driven by call and timer events |
| `styles.dfy` | `Styles` | animation kinds, start and end styles, `parseInt(data-delay) \|\| 0` |
| `animations.dfy` | `Animations` | `triggerAnimation`, the observer callback, `destroy`, the typewriter |
| `scrollreveal.dfy` | `ScrollReveal` | `ScrollAnimations`: setup, `handleScroll`, its throttle |
| `contact.dfy` | `Contact` | the contact form's checks, up to the point where it would send |
| `filters.dfy` | `Filters` | the gallery and portfolio filter buttons |
| `navigation.dfy` | `Navigation` | the navbar scroll handler, `updateActiveNavLink` |
| `progress.dfy` | `Progress` | `animateProgressBars` |
| `blog.dfy` | `Blog` | `expandPost` |

Some JavaScript behaviour is written out explicitly:

- `parseInt` follows ECMAScript: leading white space, one sign, a `0x` prefix, then the longest
  digit prefix. NaN is `None`.
- `\s` is ECMAScript's white-space and line-terminator set.
- `rgbToHex` is modelled for every integer argument, with the 32-bit wrap of `<<`.
- `String.prototype.replace` with a string pattern replaces the first occurrence only.

The `debounce` at `js/main.js:522-532` has no `immediate` flag. It behaves like `Debounce`
with `immediate == false`.

Two behaviours of the code, stated here because a reader might expect otherwise:

- A scroll-revealed element must have its bottom edge below the top of the window
  (`rect.bottom > 0`).
- `AnimationManager` never stops observing an element and keeps no per-element "animated"
  flag. Every intersecting entry triggers the animation again.

## Model

| member | source | states |
|---|---|---|
| `Chars.HexValue` | js/utils.js:101-103 | a hex digit of either case has a value below 16, and a decimal digit one below 10 |
| `Chars.DecimalString` | js/utils.js:178-179 | `String(n)` is non-empty and all digits; it has a leading zero only for 0, and one digit exactly when n < 10 |
| `Chars.IntString` | js/utils.js:182 | `String(year)` starts with `-` exactly for a negative year |
| `Chars.DecimalRoundTrip` | js/utils.js:178-179 | reading back the decimal text of n gives n |
| `Colour.HexToRgb` | js/utils.js:98-105 | gives a colour iff the text is an optional `#` and exactly six hex digits of either case; each channel is the value of its digit pair and lies in 0..255 |
| `Colour.Wrap32` | js/utils.js:108 | the ToInt32 wrap of a shift stays in the signed 32-bit range and leaves in-range values alone |
| `Colour.Hex2` | js/utils.js:108 | a byte below 256 is written as exactly two lower-case hex digits |
| `Colour.HexDigitsByte` | js/utils.js:108 | appending a byte to a positive number in base 16 appends its two digits to the number's own |
| `Colour.PackedHex` | js/utils.js:108 | `(1 << 24) + (r << 16) + (g << 8) + b` in base 16 is `1` followed by two digits per channel, which is why `slice(1)` leaves six |
| `Colour.RgbToHexDigits` | js/utils.js:107-109 | for channels in 0..255 the result is `#` and then two lower-case hex digits per channel, in r, g, b order (7 characters) |
| `Colour.HexOfRgbRoundTrip` | js/utils.js:98-109 | `hexToRgb(rgbToHex(r, g, b))` gives back r, g, b for channels in 0..255 |
| `Colour.RgbOfHexRoundTrip` | js/utils.js:98-109 | re-encoding an accepted colour gives `#` and its six digits in lower case |
| `Colour.PairOfHex2` | js/utils.js:101-103 | `parseInt(pair, 16)` of the two digits written for a channel gives the channel |
| `Colour.Hex2OfPair` | js/utils.js:101-103 | writing back the value of a digit pair gives the pair in lower case |
| `Colour.ShorthandRejected` | js/utils.js:99 | three-digit shorthand, with or without `#`, is rejected |
| `Validators.IndexOf` | js/main.js:314 | the first `@` of the text, or none exactly when the text has no `@` |
| `Validators.LastIndexOf` | js/main.js:314 | the last `.` of the text, or none exactly when the text has no `.` |
| `Validators.IsValidEmailLoose` | js/utils.js:145-148 | the check as computed: the first `@` has a non-empty part before it, no white space or `@` on either side, and a dot strictly inside the domain; `LooseEmailCorrect` proves this is the pattern's language |
| `Validators.LooseEmailCorrect` | js/utils.js:145-148 | accepted iff there is a non-empty part, then `@`, then a domain holding a dot that is neither its first nor its last character, with no white space or other `@` anywhere |
| `Validators.LooseEmailSound` | js/utils.js:145-148 | every address the check accepts has the pattern's shape |
| `Validators.LooseEmailComplete` | js/utils.js:145-148 | every address of the pattern's shape is accepted |
| `Validators.LooseEmailOneAt` | js/utils.js:146 | an accepted address has exactly one `@` |
| `Validators.StripSpaces` | js/utils.js:152 | removing white space leaves none, and leaves text without white space unchanged |
| `Validators.StripSpacesAppend` | js/utils.js:152 | removing white space distributes over concatenation |
| `Validators.IsValidPhone` | js/utils.js:150-153 | white space removed, one optional `+` consumed, then one digit 1-9 and at most fifteen digits; `PhoneCorrect` states the pattern |
| `Validators.PhoneCorrect` | js/utils.js:150-153 | accepted iff, with white space removed, the text is an optional `+`, one digit 1-9 and at most fifteen more digits |
| `Validators.IsValidEmailStrict` | js/main.js:313-316 | the check as computed from the first `@` and the last dot; `StrictEmailCorrect` proves this is the contact form pattern's language |
| `Validators.StrictEmailCorrect` | js/main.js:313-316 | accepted iff the text is a local part over `[A-Za-z0-9._%+-]`, `@`, a domain over `[A-Za-z0-9.-]`, a dot, and two or more ASCII letters |
| `Validators.StrictEmailIndices` | js/main.js:313-316 | in an address of the strict pattern's shape, the `@` is the first `@` and the separating dot the last dot |
| `Validators.StrictAtIsLooseAt` | js/main.js:313-316 | a split of the strict pattern is also a split of the loose one |
| `Validators.StrictImpliesLoose` | js/main.js:313-316 | every address the contact form accepts is also accepted by `Utils.isValidEmail` |
| `Measures.Clamp` | js/utils.js:162-164 | the result is at most max; when min ≤ max it lies in [min, max], equals the value inside that range and the nearer bound outside it; when min > max it is max |
| `Measures.ClampIdempotent` | js/utils.js:162-164 | clamping twice is clamping once |
| `Measures.DeviceOf` | js/utils.js:9-19 | a width is classed mobile, tablet or desktop exactly when the matching check holds |
| `Measures.DeviceClassesPartition` | js/utils.js:9-19 | exactly one of `isMobile`, `isTablet` and `isDesktop` holds for any width |
| `Measures.BoxInViewport` | js/utils.js:71-82 | every edge of the box lies within the threshold of the window, whose size is `innerWidth`/`innerHeight` or, when that is 0, the client size |
| `Measures.BoxInViewportDefault` | js/utils.js:71-82 | with threshold 0 and non-zero window sizes, the test holds iff the box lies inside the window |
| `Measures.BoxInViewportMonotone` | js/utils.js:71-82 | a larger threshold accepts every box a smaller one accepts |
| `Dates.IntervalsShape` | js/utils.js:191-198 | six units, strictly decreasing, the smallest a minute, none ending in `s` |
| `Dates.Phrase` | js/utils.js:203 | the text starts with a digit and has the plural `s` iff the count is above one |
| `Dates.TimeAgo` | js/utils.js:187-208 | `Just now` iff diff < 60; otherwise the count and unit of the first unit, largest first, whose floor quotient is at least one |
| `Dates.FirstFitRange` | js/utils.js:200-205 | the unit chosen is the one whose span contains the difference: at least one unit and less than the next larger one |
| `Dates.FirstFitUnique` | js/utils.js:200-205 | only one unit can be chosen |
| `Dates.ReplaceFirst` | js/utils.js:181-184 | `replace` with a string pattern; `ReplaceFirstAbsent`, `ReplaceFirstAt` and `ReplaceFirstSkips` state that only the first occurrence is replaced |
| `Dates.ReplaceFirstAbsent` | js/utils.js:181-184 | `replace` without an occurrence returns the text unchanged |
| `Dates.ReplaceFirstAt` | js/utils.js:181-184 | `replace` with a first occurrence at i replaces exactly that occurrence |
| `Dates.ReplaceFirstSkips` | js/utils.js:181-184 | a prefix holding no first character of the pattern is kept and `replace` acts on the rest |
| `Dates.IntStringLacks` | js/utils.js:182 | the year's text holds only a sign and digits, so it cannot contain a later placeholder |
| `Dates.FormatYear` | js/utils.js:182 | the first replacement puts the year in place of `YYYY` |
| `Dates.FormatMonth` | js/utils.js:183 | with a year free of `M`, the second replacement puts the month in place of `MM` |
| `Dates.FormatDay` | js/utils.js:184 | with a prefix free of `D`, the third replacement puts the day in place of `DD` |
| `Dates.Pad2` | js/utils.js:178-179 | `padStart(2, '0')` gives at least two digits, exactly two below 100 |
| `Dates.Pad2Value` | js/utils.js:178-179 | the padded month or day reads back as the number |
| `Dates.FormatDate` | js/utils.js:175-184 | the format with its first `YYYY`, then its first `MM`, then its first `DD` replaced by the year, the padded month and the padded day; `DefaultFormat` states the default case |
| `Dates.DefaultFormat` | js/utils.js:175-185 | the default format gives year, two-digit month and two-digit day joined by hyphens |
| `ErrorLog.ErrorHandler.constructor` | js/utils.js:376-377 | a new handler's log is empty |
| `ErrorLog.ErrorHandler.LogError` | js/utils.js:404-410 | appends exactly one entry and keeps the earlier ones in order |
| `ErrorLog.ErrorHandler.GetErrors` | js/utils.js:412-414 | returns the log, oldest first |
| `ErrorLog.ErrorHandler.ClearErrors` | js/utils.js:416-418 | the log is empty afterwards |
| `ErrorLog.LogTwiceKeepsOrder` | js/utils.js:404-414 | two logged entries come back after the earlier ones, in the order logged |
| `RateLimit.ThrottleStep` | js/utils.js:40-51 | a call is forwarded iff the gate is open and leaves it closed; the timer reopens it; `ThrottleDropsUntilTimer` and `ThrottleReopens` state the behaviour over traces |
| `RateLimit.ThrottleDropsUntilTimer` | js/utils.js:40-51 | without a timer event an open gate forwards only the first call and a closed gate forwards nothing |
| `RateLimit.ThrottleReopens` | js/utils.js:40-51 | after the timer fires, the next call is forwarded whatever came before |
| `RateLimit.Throttle.constructor` | js/utils.js:41 | the gate starts open |
| `RateLimit.Throttle.Invoke` | js/utils.js:42-50 | forwards the call iff the gate was open, and the gate is closed afterwards |
| `RateLimit.Throttle.Reopen` | js/utils.js:48 | the limit timer reopens the gate |
| `RateLimit.DebounceStep` | js/utils.js:26-38 | a call replaces the pending arguments and runs at once only in `immediate` mode with nothing pending; the timer clears them and, in trailing mode, runs them; `DebounceBurst` states the behaviour over a burst |
| `RateLimit.DebounceBurst` | js/utils.js:26-38 | in a burst only the leading call runs (`immediate`, nothing pending); after the burst's timer, trailing mode runs the last call's arguments once |
| `RateLimit.Debounce.constructor` | js/utils.js:27 | no timeout is pending at first |
| `RateLimit.Debounce.Invoke` | js/utils.js:28-37 | the call replaces the pending timeout with its own arguments and runs at once only in `immediate` mode with nothing pending |
| `RateLimit.Debounce.Fire` | js/utils.js:29-32 | the timeout clears the pending state and, in trailing mode, runs the last arguments |
| `Styles.KindNamesDistinct` | js/animations.js:50-65 | no two animation kinds share a `data-animate` name |
| `Styles.KindOf` | js/animations.js:46-68 | each of the five names selects its own kind; any other value, or none, selects `fadeInUp` |
| `Styles.KindMotion` | js/animations.js:73-126 | each kind starts at opacity 0 with a non-identity transform and ends at opacity 1 with the identity transform of the same shape; 0.6s for `scaleIn`, 0.8s for the others, one easing; the `transition` shorthand resets any earlier transition delay to 0 |
| `Styles.StartPhase` | js/animations.js:73-77 | a kind's routine hides the element, displaces it by the kind's start transform and writes the `transition` shorthand, which zeroes the delay; `KindMotion` states the result per kind |
| `Styles.EndPhase` | js/animations.js:78-81 | the frame callback makes the element opaque with the kind's identity transform and keeps the transition; `KindMotion` states the result per kind |
| `Styles.TrimStart` | js/animations.js:47 | `parseInt` skips exactly the leading white space |
| `Styles.DigitPrefix` | js/animations.js:47 | `parseInt` reads the longest prefix of digits of its base |
| `Styles.ParseMagnitude` | js/animations.js:47 | NaN exactly when no digit follows the sign and the optional `0x` |
| `Styles.MagnitudeReadsDecimal` | js/animations.js:47 | the digits of a number, followed by nothing or a character that is neither a digit nor `x`, read back as the number |
| `Styles.SignedOfMagnitude` | js/animations.js:47 | an unsigned reading is kept without a sign and negated after a `-` |
| `Styles.UnsignedReadsDecimal` | js/animations.js:47 | `String(m)`, with or without a leading `-`, followed by such a tail, reads back as m or -m |
| `Styles.SignedReadsDecimal` | js/animations.js:47 | `String(n)` of any integer, followed by such a tail, reads back as n |
| `Styles.MagnitudeOfNoDigits` | js/animations.js:47 | text without a digit is NaN after the sign |
| `Styles.NoDigitIsNaN` | js/animations.js:47 | `parseInt` of text without any digit is NaN |
| `Styles.NullIsNaN` | js/animations.js:47 | `parseInt(null)`, which reads the text `null`, is NaN, so a missing `data-delay` gives 0 |
| `Styles.ParseInt` | js/animations.js:47 | `parseInt` without a radix: leading white space skipped, then an optional sign and the magnitude; NaN is `None` (`NoDigitIsNaN`, `SignedReadsDecimal` and `NullIsNaN` state its behaviour) |
| `Styles.Delay` | js/animations.js:47 | `parseInt(data-delay) \|\| 0`: the parsed integer, or 0 for NaN and for a missing attribute (`DelayReadsDecimal`, `DelayDefaultsToZero`) |
| `Styles.DelayReadsDecimal` | js/animations.js:47 | a `data-delay` written as a decimal integer, optionally followed by a non-digit such as `ms`, is read as that integer |
| `Styles.DelayDefaultsToZero` | js/animations.js:47 | a missing `data-delay`, or one without any digit, gives a delay of 0 |
| `Animations.Animatable.constructor` | js/animations.js:46-47 | a new element keeps its attributes and is unstyled with nothing scheduled; what each trigger schedules is the delay `parseInt(data-delay) \|\| 0` and the kind `data-animate` selects |
| `Animations.Animatable.Trigger` | js/animations.js:45-70 | `triggerAnimation` only schedules a timeout; the style is untouched until it fires |
| `Animations.Animatable.FireTimer` | js/animations.js:49-126 | the timeout writes its kind's start style and requests one animation frame |
| `Animations.Animatable.FireFrame` | js/animations.js:73-126 | the frame callback writes the kind's end style |
| `Animations.RevealOnce` | js/animations.js:45-126 | trigger, timeout and frame leave the element at opacity 1 with its kind's identity transform |
| `Animations.WithAnimate` | js/animations.js:37-39 | the observer watches exactly the elements that carry `data-animate` |
| `Animations.WithAnimateAppend` | js/animations.js:37-39 | selecting from two stretches of the document is selecting from each in turn, so the watched elements keep the document order |
| `Animations.AnimationManager.constructor` | js/animations.js:22-42 | one connected observer, stored under `scroll`, watching those elements |
| `Animations.AnimationManager.HandleEntries` | js/animations.js:28-34 | delivered only while the `scroll` observer is connected and only for elements it watches, each element is triggered once per intersecting entry naming it, and nothing else changes |
| `Animations.AnimationManager.TriggerEntry` | js/animations.js:29-33 | one entry triggers its element iff it intersects |
| `Animations.Hits` | js/animations.js:29-33 | the number of triggers an element gets is the number of intersecting entries that name it |
| `Animations.HitsStep` | js/animations.js:29-33 | each further entry adds one trigger to its own element exactly when it intersects |
| `Animations.Observer.Disconnect` | js/animations.js:330 | the observer is disconnected |
| `Animations.AnimationManager.Destroy` | js/animations.js:329-333 | every observer is disconnected, then both maps are empty, so no observer is left to deliver a callback |
| `Animations.Typed` | js/animations.js:189-203 | after k ticks the text shown is a prefix of the original, of length min(k, \|text\|) |
| `Animations.TypedStep` | js/animations.js:191-194 | each tick adds the next character until the text is complete, and nothing after |
| `Animations.Typewriter.constructor` | js/animations.js:185-189 | the element's text is taken and cleared, and typing starts at index 0 |
| `Animations.Typewriter.TypeTick` | js/animations.js:190-203 | appends `text[i]` while i < \|text\|; then clears the interval and starts blinking, appending nothing |
| `Animations.Typewriter.BlinkTick` | js/animations.js:197-201 | the cursor border alternates and the text is unchanged |
| `Animations.TypeFor` | js/animations.js:189-203 | after k typing ticks the shown text is `Typed(text, k)`, and typing is over iff k > \|text\| |
| `ScrollReveal.Initial` | js/animations.js:361-371 | the element at index i starts hidden, not animated, with a transition delay of i × 100ms |
| `ScrollReveal.Revealed` | js/animations.js:378-380 | a reveal sets opacity 1, `translateY(0)` and `animated`, and keeps the transition and its delay |
| `ScrollReveal.InRevealZone` | js/animations.js:389-394 | the element's top is above 0.8 × the window height (as 5·top < 4·height on integers) and its bottom edge below the top of the window |
| `ScrollReveal.ScrollItem` | js/animations.js:376-382 | an animated element is left as it is; another is revealed iff its top is above 0.8 × the window height and its bottom edge below the top of the window (bottom > 0) |
| `ScrollReveal.ScrollAll` | js/animations.js:375-383 | each element is handled on its own, by `ScrollItem` |
| `ScrollReveal.ScrollKeepsShape` | js/animations.js:361-383 | every element is always either as setup left it or revealed from there |
| `ScrollReveal.RevealedIsFinal` | js/animations.js:377 | a scroll never changes an animated element |
| `ScrollReveal.RevealAtMostOnce` | js/animations.js:375-383 | over any sequence of scrolls each element is revealed at most once, and only after some view had it in the zone |
| `ScrollReveal.ScrollAnimations.constructor` | js/animations.js:348-386 | setup on every element, then one initial `handleScroll` |
| `ScrollReveal.ScrollAnimations.HandleScroll` | js/animations.js:375-383 | the array becomes `ScrollAll` of its old contents |
| `ScrollReveal.ScrollAnimations.OnScroll` | js/animations.js:385 | a scroll event runs `handleScroll` iff the gate of the object's own throttle is open, and closes the gate |
| `ScrollReveal.ScrollAnimations.OnThrottleTimer` | js/animations.js:405 | the throttle timer reopens the gate |
| `Contact.ValidateContact` | js/main.js:228-253 | "Please fill in all fields" iff a field is missing or empty; then, in order, name shorter than 2, invalid e-mail and message shorter than 10 each decide the notice; otherwise the three fields are sent |
| `Contact.OutcomesAreKnown` | js/main.js:234-253 | a rejection carries one of the four notices, and a sent form satisfies all three checks |
| `Filters.Fire` | js/main.js:342-351 | a pending timeout runs and is gone; the category is unchanged |
| `Filters.ClickAsWritten` | js/main.js:337-352 | as written, a click adds a timeout to those an earlier click left pending |
| `Filters.StaleRemovalHidesMatchingItem` | js/main.js:580-594 | as written, a click on `all` at any time before the first click's 300ms removal runs leaves a matching item out of the layout, whichever timeout runs first and whatever the fade-in delay |
| `Filters.Click` | js/main.js:337-352 | a matching item is displayed and waits for a fade-in; any other item is faded out and waits for removal; only that one timeout is pending |
| `Filters.ClickSettles` | js/main.js:337-352 | once the click's timeout has run, an item is displayed, opaque and in place iff the filter is `all` or its category; otherwise it is removed, transparent and displaced |
| `Filters.ClickShowsAtOnce` | js/main.js:340-341 | at click time a matching item is put back in the layout immediately |
| `Filters.FilterGroup.constructor` | js/main.js:320-321 | a group holds its buttons and items |
| `Filters.FilterGroup.ClickButton` | js/main.js:329-354 | only the clicked button is active afterwards; every item takes the click as `Click` states it, with the earlier click's timeout cancelled (the corrected handler; the same for 401-428 and 566-627 with their looks) |
| `Filters.FilterGroup.RunTimer` | js/main.js:342-351 | the event loop runs an item's next due timeout, and no other item changes |
| `Navigation.NavbarStep` | js/main.js:54-74 | `scrolled` iff scrollTop > 100; at width ≤ 768 hidden iff scrollTop > lastScrollTop and > 100, else shown; wider, display unchanged; `lastScrollTop` becomes scrollTop |
| `Navigation.NavbarHidesDownShowsUp` | js/main.js:65-73 | on a narrow window, scrolling down past 100 hides the bar and any scroll that is not downward shows it again |
| `Navigation.Navbar.constructor` | js/main.js:53 | `lastScrollTop` starts at 0 |
| `Navigation.Navbar.OnScroll` | js/main.js:54-74 | the listener's new state is `NavbarStep` of the old one |
| `Navigation.LastContaining` | js/main.js:82-95 | the last section whose span [top, top + height) contains the position, or none exactly when no section does |
| `Navigation.Highlight` | js/main.js:88-93 | every link is active exactly when its `data-section` names the section |
| `Navigation.HighlightTwice` | js/main.js:82-95 | highlighting a later section overrides an earlier one |
| `Navigation.HighlightAll` | js/main.js:88-93 | the inner sweep over the links is `Highlight` |
| `Navigation.ActiveLinks` | js/main.js:79-96 | the links highlighted for the last section containing scrollY + 100, or unchanged when none does; `UpdateActiveNavLink` is proved equal to it |
| `Navigation.UpdateActiveNavLink` | js/main.js:79-96 | the links of the last section containing scrollY + 100 become the active ones; with none, nothing changes |
| `Progress.Percent` | js/main.js:171-173 | the width is the `data-progress` text followed by `%` |
| `Progress.AnimateBar` | js/main.js:166-176 | an animated bar is never touched; a visible one (top < innerHeight, bottom > 0) gets the text as `--progress-width` and `animated`, and the text as its width only when it is a CSS percentage, keeping the old width otherwise; any other bar is unchanged |
| `Progress.IsCssPercentage` | js/main.js:173 | after leading white space, a non-negative CSS number (optional `+`, digits with an optional fraction and exponent) followed by `%` |
| `Progress.AssignWidth` | js/main.js:173 | `style.width = text` sets the width to a percentage text and leaves it as it was for any other text (`DecimalProgressSetsWidth`, `UnreadableProgressKeepsWidth`) |
| `Progress.NoDigitNotNumber` | js/main.js:173 | a text without any digit is not a CSS number |
| `Progress.DecimalIsNumber` | js/main.js:173 | the decimal text of a whole number is a CSS number |
| `Progress.NoDigitNotPercentage` | js/main.js:173 | a text with no digit before its final `%` is not a percentage, so `width` ignores it |
| `Progress.DecimalProgressSetsWidth` | js/main.js:171-173 | a `data-progress` written as a whole number n gives a visible, not yet animated bar the width `n%` |
| `Progress.UnreadableProgressKeepsWidth` | js/main.js:171-173 | a missing `data-progress` (`null%`), or one without any digit, leaves the width as it was |
| `Progress.AnimateAll` | js/main.js:165-177 | each bar is handled on its own, by `AnimateBar` |
| `Progress.AnimatedBarsAreFinal` | js/main.js:170 | over any sequence of later scrolls an animated bar keeps its width and everything else |
| `Progress.AnimateProgressBars` | js/main.js:165-177 | the array becomes `AnimateAll` of its old contents |
| `Blog.Toggle` | js/main.js:543-562 | a post whose full text is hidden inline is expanded (excerpt hidden, "Read Less" with the up chevron); any other post is collapsed |
| `Blog.ToggleAlternates` | js/main.js:549-561 | after the first click, each two clicks restore the post, and exactly one of excerpt and full text is shown |
| `Blog.FirstClickOnUnstyledPostCollapses` | js/main.js:549 | a post whose full text has no inline display is collapsed by the first click |
| `Blog.PostView.ExpandPost` | js/main.js:543-562 | the handler's new post state is `Toggle` of the old one |

## Left out

- Network and browser services are not modelled: the contact form's `fetch` and everything
  after the checks, clipboard, `localStorage`, URL and history. They are foreign calls with no
  visible contract.
- Timing is abstract. `setTimeout`, `setInterval` and `requestAnimationFrame` are events, and
  only the filter buttons carry due times.
- Floating point is not modelled:
  - easing functions and `lerp`;
  - the counter animation;
  - the magnetic, tilt and ripple effects;
  - `PerformanceMonitor`.

  Coordinates, widths and scroll offsets are integers.
- `ScrollReveal.Initial`: the transition delay `${index * 0.1}s` is modelled as `100 * index`
  milliseconds. The text JavaScript prints for the float (such as `0.30000000000000004s`) is
  not modelled.
- Randomness (particles, `randomBetween`, `randomInt`) is not modelled.
- UI plumbing is not modelled:
  - custom cursor, notifications;
  - lightbox and modals, focus trap and ARIA labels;
  - `sanitizeInput`, which relies on the browser's HTML serialiser;
  - `isTouchDevice`, `shouldReduceMotion`.
- `new Date(...)` is not modelled. `timeAgo` takes the difference in whole seconds, and
  `formatDate` takes the year, month and day as integers.
- Strings are sequences of characters. JavaScript's UTF-16 code units, and so the `length`
  of text outside the Basic Multilingual Plane, are not modelled.
- `Styles.ParseInt`: integers are unbounded. Precision loss above 2^53 is not modelled.
- `Animations.Animatable.FireTimer`: any pending timeout may fire next. The ordering by delay
  is not modelled, so the model admits more orders than the browser does.
- `Animations.AnimationManager.HandleEntries`: the `intersectionRatio` argument, the
  thresholds and the root margin are not modelled. The browser decides which entries
  intersect.
- `ErrorLog.ErrorHandler.LogError`: the `console.error` call that echoes each entry is not
  modelled; console output is I/O.
- `Progress.AnimateBar`: `width` is taken to accept an optional `+`, a decimal number with an
  optional fraction and exponent, and `%`, after leading white space. CSS comments, escapes and
  math functions (an unclosed `calc(` is closed at the end of the text) are not modelled, and
  `-0%` is treated as negative and rejected.
- `Progress.AnimateBar`: the custom property `--progress-width` takes the text as given. The
  browser's trimming of white space around it, and its rejection of texts with unbalanced
  brackets, are not modelled.
- `ErrorLog.ErrorHandler.GetErrors`: returns the log as a value. The aliasing of the returned
  array with the handler's own is not modelled.
- The `error` and `unhandledrejection` listeners that build the entries are not modelled. Nor
  are other listener registrations, or the fallbacks between `message`/`reason`.
- `Filters.FilterGroup.ClickButton`: the buttons may be bound twice, by `initGallery` /
  `initPortfolio` and by the later `DOMContentLoaded` block, if both selectors match the same
  buttons. That case is not modelled: each group is modelled with one handler and its own
  looks.

## Findings

| source | as written | input that shows it | evidently intended | confidence | as-written member | corrected member |
|---|---|---|---|---|---|---|
| js/main.js:580-594 | a filter click never cancels the timeouts of an earlier click, so its 300ms `display: none` still runs after a later click showed the item (same at 337-352 and 410-425) | item with category `web`; click `design` at 0ms, then `all` at any t before 300ms: the old removal runs at 300ms, before or after the fade-in, nothing sets `display` again, and the item ends with `display: none` | after the last click settles, an item is displayed exactly when the filter is `all` or its category | high that the interleaving is possible; not executed | `Filters.StaleRemovalHidesMatchingItem` | `Filters.ClickSettles` |
