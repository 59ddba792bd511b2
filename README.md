# Site interactivity core, modelled in Dafny

This project models the logic inside the page script `js/script.js` of a small static
marketing site. The browser is abstracted away. Element lists become arrays of `active`
flags, and attribute and input values become strings. The parts modelled are:

- the contact form's three field validators (name, email, message), with the email
  regular expression `^[^\s@]+@[^\s@]+\.[^\s@]+$` stated literally and proved equal to a
  structural description ("one `@`, no white space, a dot after the `@` with a character
  on each side");
- page-name derivation from a URL path (`getCurrentPage`) and the navigation
  active-link rule (`setActiveNavLink`);
- the hero slider: the current index, with next and previous moves that wrap around,
  dot jumps, arrow keys, and the redraw that marks one slide and one dot;
- the bookkeeping of the slider's interval handles, kept apart from the slider to show
  a defect (see Findings);
- the services-page accordion, where at most one header/content pair is open;
- the portfolio filter, in the state it reaches once its delays have run;
- per-input error state, `validateField`, and the submit gate of the contact form.

White space is one predicate, `Text.IsWs`. It holds exactly the ECMAScript WhiteSpace and
LineTerminator code points, which are the characters both `\s` and `trim()` use.

Files: `text.dfy` (white space, trim, split/join), `flags.dfy` (rows of flags),
`validators.dfy`, `navigation.dfy`, `slider.dfy`, `slide_timers.dfy`, `accordion.dfy`,
`portfolio.dfy`, `contact_form.dfy`.

Edge cases of the code that the model keeps as written:

- `startAutoSlide` never cancels the interval it already holds (js/script.js:218-223);
  see Findings.
- A dot click stores the dot's own index (js/script.js:249-256). With more dots than
  slides, that index can be N or larger, and then no slide is active.
  `HeroSlider.GoTo` and `HeroSlider.Prev` model this as written.
- `validateEmail` trims before its required test (js/script.js:500), so a value of only
  white space gets "Email is required".
- `validateField` tests the validator's result for truthiness (js/script.js:474), so a
  failure carrying the empty message would count as a pass. None of the three
  validators returns one, which `ContactForm.FormValidatorsRejectOnFailure` states.

## Model

| member | source | states |
|---|---|---|
| Text.Trim | js/script.js:488 | `trim()` returns an infix of the input. Everything outside the infix is white space. A non-empty result starts and ends with a character that is not white space. |
| Text.TrimEmptyIff | js/script.js:488 | The trimmed value is empty (falsy) iff every character of the input is white space. |
| Text.TrimLengthIff | js/script.js:491 | The trimmed length is at least m (m ≥ 1) iff two non-white-space characters of the input lie at least m - 1 positions apart. |
| Text.Split | js/script.js:37 | `split` on a one-character separator gives at least one piece, and no piece contains the separator. |
| Text.JoinSplit | js/script.js:37 | Joining the pieces of `split` with the separator gives back the original string. |
| Text.SplitJoin | js/script.js:37 | Splitting the join of separator-free pieces gives back exactly those pieces. |
| Text.LastPiece | js/script.js:37 | `split('/').pop()` is the suffix after the last separator, or the whole string when there is no separator. |
| Text.FirstPiece | js/script.js:37 | `split('.')[0]` is the prefix before the first separator, or the whole string when there is no separator. |
| Flags.Indicator | js/script.js:275-281 | The flags `showSlide`'s `i === index` toggle leaves: n flags, flag j set iff j == k. |
| Flags.CountIndicator | js/script.js:275-281 | Marking "position == k" over n elements sets exactly one flag when k is in range and none otherwise. |
| Validators.ValidateName | js/script.js:487-495 | The result is no error or one of the two name messages. |
| Validators.NameVerdicts | js/script.js:487-495 | "Name is required" iff the input is all white space. The length message iff exactly one character is not white space. No error iff two non-white-space characters are present. |
| Validators.ValidateMessage | js/script.js:509-517 | The result is no error or one of the two message-field messages. |
| Validators.MessageVerdicts | js/script.js:509-517 | "Message is required" iff the input is blank. The length message iff it is not blank and the trimmed length is below 10. No error iff the outermost non-white-space characters span at least 10 characters. |
| Validators.ValidateEmail | js/script.js:497-507 | The result is no error, "Email is required" or the format message. |
| Validators.EmailVerdicts | js/script.js:497-507 | "Email is required" iff the input is blank. No error iff the regular expression matches the untrimmed input. The format message in every other case. |
| Validators.MatchesEmailRegex | js/script.js:498 | `emailRegex.test(s)` read literally: an `@` at i and a `.` at j > i split s into three non-empty runs of characters that are neither white space nor `@`. A matching string has at least five characters, an `@`, a `.`, and does not start with `@`. |
| Validators.EmailRegexIffShaped | js/script.js:498 | The anchored regular expression matches iff the string has no white space, exactly one `@` (not first), and a `.` after it with a character on each side. |
| Validators.AcceptedEmailShape | js/script.js:497-507 | An accepted address has exactly one `@`, no white space, and an inner dot after the `@`. |
| Validators.PaddedEmailRejected | js/script.js:500-504 | A non-blank address with white space at either end gets the format message, because the test runs on the untrimmed value. |
| Validators.OneNonWsIff | js/script.js:488-492 | "Exactly one non-white-space character" is the same as "not blank, and no two such characters". |
| Validators.NameAccepted | js/script.js:487-495 | `"Al"` passes. |
| Validators.NameTooShortExample | js/script.js:491-493 | `"A"` gets the length message. |
| Validators.BlankNameRequired | js/script.js:488-490 | `"  "` gets the required message, not the length message. |
| Validators.EmailAccepted | js/script.js:497-507 | `"a@b.co"` passes. |
| Validators.EmailWithoutDotRejected | js/script.js:503-505 | `"a@b"` gets the format message. |
| Validators.EmptyEmailRequired | js/script.js:500-502 | `""` gets the required message, not the format message. |
| Validators.PaddedEmailExample | js/script.js:503-505 | `" a@b.co"` gets the format message. |
| Navigation.PageOf | js/script.js:37 | `split('/').pop().split('.')[0]`, also applied to each link at line 149. The result contains neither `/` nor `.` and is no longer than the path. |
| Navigation.PageOfIsSegmentPrefix | js/script.js:37 | The derived name is the last `/`-segment's prefix before its first `.`. The segment ends the path, has no `/`, and follows a `/` unless it is the whole path. |
| Navigation.CurrentPage | js/script.js:35-39 | `getCurrentPage`: the derived page name, or `"index"` when that is empty. The result is never empty and contains no `/` and no `.`. |
| Navigation.TrailingSlashIsIndex | js/script.js:37-38 | A path ending in `/` yields `"index"`. |
| Navigation.FileNamePage | js/script.js:35-39 | For `dir/base.ext`, where base has no `.` or `/`, the page is `base`. |
| Navigation.LastSegmentAfterDir | js/script.js:37 | After an empty directory part, or one ending in `/`, a segment without `/` is what `split('/').pop()` returns. |
| Navigation.IsActiveLink | js/script.js:149-152 | The match rule. Away from the index page, a link is active iff its derived page equals the current page. On the index page, `index.html`, `/` and any link deriving `"index"` are active. |
| Navigation.OwnLinkActive | js/script.js:146-155 | A link whose derived page is non-empty is active on the page its own path names. A link with an empty derived page is active there only if it is `/`. |
| Navigation.SetActiveNavLinks | js/script.js:142-156 | Afterwards each link's flag equals the match rule for the current page. Flags set earlier do not survive. |
| Slider.NextIndex | js/script.js:220 | A forward move from any index lands in [0, N). |
| Slider.PrevIndex | js/script.js:233 | A backward move from an index in [0, N] lands in [0, N). |
| Slider.WrapAround | js/script.js:242 | Next from N-1 gives 0. Prev from 0 gives N-1. |
| Slider.PrevNextInverse | js/script.js:291-296 | Inside the range, prev undoes next and next undoes prev. |
| Slider.Advance | js/script.js:220 | m timer ticks from index i: i itself when m is 0, and otherwise an index in [0, N). |
| Slider.AdvanceWithinRange | js/script.js:220 | Forward moves that stay below N count up by one each. |
| Slider.AdvanceCompose | js/script.js:220 | a forward moves followed by b forward moves equal a + b forward moves. |
| Slider.FullCycle | js/script.js:220 | N forward moves return to the starting index. |
| Slider.Periodic | js/script.js:220 | Forward moves are periodic with period N. |
| Slider.RedrawMarksOne | js/script.js:274-282 | After a slider redraw at k, exactly one slide is active when k is in the slide range and none otherwise. The same holds for the dots. |
| Slider.HeroSlider.constructor | js/script.js:2 | The current index starts at 0. |
| Slider.HeroSlider.ShowSlide | js/script.js:274-282 | Slide j and dot j are active iff j equals the index. |
| Slider.HeroSlider.Initialize | js/script.js:212-215 | With no slides, nothing changes. Otherwise slide 0 and dot 0 are shown, and the current index is not touched. |
| Slider.HeroSlider.Next | js/script.js:239-246 | The index becomes `(i + 1) % N` and stays in range. The new index is shown. |
| Slider.HeroSlider.Prev | js/script.js:230-237 | The index becomes `i == 0 ? N - 1 : i - 1`, in range whenever i was. The new index is shown. |
| Slider.HeroSlider.GoTo | js/script.js:249-256 | The index becomes the clicked dot's index, and that index is shown. |
| Slider.HeroSlider.KeyDown | js/script.js:288-300 | ArrowLeft acts as prev and ArrowRight acts as next. Any other key changes nothing. |
| SlideTimers.Stop | js/script.js:225-227 | Only the handle `slideInterval` holds is cancelled. |
| SlideTimers.StartAsWritten | js/script.js:218-223 | A new interval is added to the live ones, and nothing is cancelled. |
| SlideTimers.StartCancelling | js/script.js:218-223 | Corrected start: the held interval is cancelled, then exactly one new one is live in its place. |
| SlideTimers.StepAsWritten | js/script.js:230-300 | Handles stay well formed under each event. The event-to-action map is the function's body: hover in and tab hidden stop; hover out and tab visible start; a control (prev, next, dot, arrow key) stops, then starts. |
| SlideTimers.StepCancelling | js/script.js:230-300 | Handles stay well formed under each event. The event-to-action map is the same, with the corrected start. |
| SlideTimers.RunAsWritten | js/script.js:258-272 | A sequence of events run as written keeps the handles well formed. |
| SlideTimers.RunCancelling | js/script.js:258-272 | A sequence of events run with the corrected start keeps the handles well formed. |
| SlideTimers.AsWrittenTwoIntervals | js/script.js:258-272 | After init, hover in, hidden, visible and hover out, two intervals are live. A further hover in leaves one still ticking. |
| SlideTimers.CancellingKeepsOneLive | js/script.js:218-227 | With cancel-before-start, at most one interval is live after any event sequence, and it is the held one. |
| SlideTimers.InitialStartOneLive | js/script.js:285 | The initializer's own start leaves exactly one interval live, as written and corrected alike. |
| Accordion.AfterClick | js/script.js:340-352 | The header flags after a click on k: header j is open iff k was closed and j == k. |
| Accordion.ClickOutcome | js/script.js:337-353 | After a click on header k, no pair is open if k was open. Otherwise exactly pair k is open. At most one pair is ever open. |
| Accordion.ClickThenOther | js/script.js:337-353 | Clicking header a and then a different header b leaves only b open. |
| Accordion.ClickTwiceCloses | js/script.js:340-351 | Clicking a closed header twice leaves every pair closed. |
| Accordion.AccordionWidget.constructor | js/script.js:333-336 | The handler is bound to the page's header/content pairs. |
| Accordion.AccordionWidget.Click | js/script.js:337-353 | Header flags become the click outcome of the old header flags. Content flags equal header flags. At most one pair is open. |
| Portfolio.Matches | js/script.js:403 | The filter test: the filter "all" matches every item, and any other filter matches iff the item's category equals it. |
| Portfolio.Visibility | js/script.js:403 | Item i's settled visibility is `filter === 'all' \|\| category === filter`, where a missing attribute equals only a missing attribute. |
| Portfolio.AllShowsEverything | js/script.js:403-408 | The filter "all" shows every item. |
| Portfolio.FilterShowsCategory | js/script.js:403-415 | Any other filter value shows item i iff its category equals the filter. The number shown equals the number of items in that category. |
| Portfolio.FirstAll | js/script.js:421 | The first button whose filter is "all", or none. |
| Portfolio.PortfolioFilter.constructor | js/script.js:387-389 | The filter is bound to the page's buttons and items. |
| Portfolio.PortfolioFilter.Click | js/script.js:391-417 | Exactly the clicked button is active. Each item is shown iff it matches that button's filter. |
| Portfolio.PortfolioFilter.Initialize | js/script.js:420-424 | If an "all" button exists, it alone becomes active and every item is shown. Otherwise nothing changes. |
| ContactForm.Report | js/script.js:474-484 | A verdict whose message is truthy shows that one message. A pass, or a failure with the empty message, shows none. |
| ContactForm.FormValidatorsRejectOnFailure | js/script.js:474-517 | For the name, email and message validators, the `if (error)` test holds exactly when the validator fails. |
| ContactForm.AcceptsIff | js/script.js:456-464 | A submit is accepted iff the name has two non-white-space characters, the email matches the regular expression (so it has the structural shape), and the message passes its span test of 10. |
| ContactForm.FormField.constructor | js/script.js:432-434 | A field starts with its value, no error class and no message. |
| ContactForm.FormField.ClearError | js/script.js:527-533 | The message and the error class are removed, and the value is untouched. |
| ContactForm.FormField.ShowError | js/script.js:519-525 | Exactly the new message is shown, so at most one message is shown at any time. The clear also removes the error class. |
| ContactForm.ValidateFieldAsWritten | js/script.js:468-485 | A missing input gives false and nothing changes. Otherwise the result is true iff the validator's result is not a truthy message, and the field shows exactly the latest message. The error class ends up off even on failure. |
| ContactForm.ValidateField | js/script.js:468-485 | The corrected `validateField`: the same, except that the error class is set exactly when validation fails. |
| ContactForm.BlankNameAsWritten | js/script.js:474-477 | A blank name validated as written shows "Name is required" but loses the error class. |
| ContactForm.BlankNameCorrected | js/script.js:474-477 | A blank name under the corrected validation shows the message and keeps the error class. |
| ContactForm.Form.constructor | js/script.js:428-434 | The form holds its three inputs, any of which may be missing, and no success notices. |
| ContactForm.Form.Reset | js/script.js:463 | Every value becomes empty, and the error state is untouched. |
| ContactForm.Form.Submit | js/script.js:453-465 | The submit handler as written. All three fields are validated, and each shows its own verdict's message but never keeps the error class. The submit is accepted iff all three inputs exist and pass. Only then are the values reset and one success notice added. |
| ContactForm.Form.SubmitCorrected | js/script.js:453-465 | The same handler over the corrected `validateField`: the same acceptance, messages, reset and notice, and each failed field also keeps the error class. |

## Left out

- Header and footer loading (js/script.js:54-77): network fetches and raw markup injection.
- Timed behaviour: the 5000 ms slider interval firing, the debounce helper and the scroll
  listeners (js/script.js:41-51, 110-119, 166-175), the 10 ms and 300 ms filter fades
  (js/script.js:405-414), and the five-second removal of the success notice
  (js/script.js:550-552). Only settled states and the set of live interval handles are
  modelled.
- Portfolio.PortfolioFilter.Click: the settled state assumes that each click's 10 ms and
  300 ms timeouts fire before the next click. A second click within 300 ms does not fit
  this. Example: pick a category, then "all" at once. The first click's pending
  `display = 'none'` (js/script.js:412-414) then hides an item the second click showed.
- The page bootstrap's dispatch on the page name (js/script.js:6-32). It only calls
  initializers.
- The scroll-reveal observer and lazy image loading (js/script.js:186-203, 609-625).
  These are browser callbacks with fractional thresholds.
- Ripple geometry and the about-page stagger delays (js/script.js:304-317, 320-331,
  357-384, 555-560). This is cosmetic floating-point pixel and second arithmetic.
- Smooth scrolling, the scroll-to-top button, keyframe injection and page prefetching
  (js/script.js:124-139, 158-183, 562-605, 627-641). These are DOM side effects with no
  stateable logic.
- The hamburger toggle and outside-click hit-testing (js/script.js:86-107). These depend
  on DOM containment.
- String lengths count code points, not UTF-16 code units. A character outside the Basic
  Multilingual Plane counts 1 here and 2 in JavaScript, which matters for the length
  thresholds 2 and 10.
- Form.Reset: `form.reset()` restores each input's default value. The model assumes the
  defaults are empty.
- Accordion.AccordionWidget.Click: every header is assumed to have its content element. In
  the source, a header without one throws on the `classList` access.
- Navigation.SetActiveNavLinks: every link is assumed to have an `href`. In the source,
  a missing one throws on `split`.
- The showing of the success notice (js/script.js:535-553) is modelled only as a counter
  of inserted notices. Its markup and styling are not modelled.

## Findings

| source | as written | input that shows it | evidently intended | confidence | as-written member | corrected member |
|---|---|---|---|---|---|---|
| js/script.js:218-227 | `startAutoSlide` starts a new interval without cancelling the one `slideInterval` holds. `stopAutoSlide` cancels only the held one. | After load: hover over the slider, hide the tab, show it again while still hovering (the visibility listener restarts the timer), then move out. Two intervals are live. Hovering again stops one, and the other keeps advancing slides. | Cancel before start, so that at most one interval is ever live. | high; not executed | SlideTimers.AsWrittenTwoIntervals | SlideTimers.CancellingKeepsOneLive |
| js/script.js:474-477, 519-533 | `validateField` adds the `error` class and then calls `showError`. `showError` begins with `clearError`, which removes that class again. | Leave the name field blank and blur it. "Name is required" appears, but the input has no `error` class. | A failed field keeps the `error` class while its message is shown. | high; not executed | ContactForm.BlankNameAsWritten | ContactForm.BlankNameCorrected |

The corrected `ContactForm.ValidateField` sets the class after showing the message.
`ContactForm.Form.Submit` is the handler as written, built on `ValidateFieldAsWritten`.
`ContactForm.Form.SubmitCorrected` is the same handler built on the corrected
`ValidateField`. The corrected timer start is `SlideTimers.StartCancelling`.
No other part of the model depends on timers.
