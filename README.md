# AURA Travel landing page script, modelled in Dafny

`script.js` is the only script of a travel agency's landing page. It drives:

- a sticky header that changes style once the page is scrolled;
- a mobile menu opened and closed by a toggle button;
- in-page navigation links that scroll smoothly to a section;
- items that fade in as they scroll into view, with staggered delays;
- a hero layer with a parallax shift;
- an inquiry form with live field validation and a submit handler. The handler shows a status line that clears itself after 5000 ms.

This project models that behaviour and proves what it promises. It has seven files, each holding one module: a shared `Option` type, the text rules and the validator's decision that the form uses, and one module for each part of the page.

| file | module | what it holds |
|---|---|---|
| `wrappers.dfy` | `Wrappers` | `Option`, for absent attributes and lookups that miss |
| `text.dfy` | `Text` | JavaScript whitespace and `trim()`; the UTF-16 code units of a string; the e-mail regular expression compiled to an automaton over code units and proved equal to a readable shape; the `YYYY-MM` pattern |
| `validation.dfy` | `Validation` | the decision `validateField` makes: `Valid`, or `Invalid` with one of three messages |
| `form.dfy` | `InquiryForm` | the form as a class: control values, per-control error displays, the status line and its pending clear timers; `namedItem` lookup; the submit loop; where focus goes |
| `menu.dfy` | `Navigation` | the menu as a class (`aria-expanded` and `is-open`), its four close/toggle handlers and the anchor-link click handler |
| `reveal.dfy` | `Reveal` | the stagger delay and the reveal controller as a class: per-item `is-visible`, observed flag and delay |
| `scroll.dfy` | `ScrollEffects` | the header's `scrolled` flag, the parallax offset, and the `ticking` throttle as a class |

Events that a browser delivers become method calls, in whatever order the caller chooses:

- input, blur, submit;
- clicks, resize, scroll;
- an observer callback, an animation frame, a timer firing.

The page elements the script looks up are constructor parameters. These are the controls of the form, and whether the header, the menu toggle and the nav exist. Facts the script reads from the DOM become boolean inputs: whether a control has a `.field` container, and whether a click target lies inside the header.

Three behaviours of the code are easy to misread, and the model keeps each of them:

- `script.js:37-39` calls `closeMenu` on every resize wider than 767 px, whether or not the menu is open. `Navigation.Menu.Resize` does the same.
- The e-mail regular expression at `script.js:147` is not a check for `local@domain.tld`. The dot after the `@` need not be the last one, so `a@b.co.` passes. The suffix after that dot is any two or more code units other than whitespace and `@`. `Text.EmailShape` says this in words.
- That pattern has no `u` flag, so it matches UTF-16 code units, not characters. A character above U+FFFF is two units, and `a@b.` followed by one emoji passes the two-unit suffix. The model runs the automaton on `Text.Utf16` of the value. `trim()` and the month pattern are modelled on characters. This gives the same answers, because every character they look for is in the Basic Multilingual Plane and none is a surrogate.

## Model

| member | source | states |
|---|---|---|
| Text.IsWhitespaceCode | script.js:138-147 | whitespace for `trim()` and `\s` is TAB to CR, SPACE and the listed wide spaces; none of them is a surrogate or lies above U+FFFF |
| Text.Trim | script.js:138 | `trim()` never makes a value longer |
| Text.TrimEmpty | script.js:138 | the trimmed value is empty exactly when the raw value consists only of JavaScript whitespace |
| Text.TrimEnds | script.js:138 | a non-empty trimmed value neither starts nor ends with whitespace |
| Text.TrimInfix | script.js:138 | the trimmed value is a contiguous part of the raw value, with only whitespace before and after it |
| Text.TrimKeeps | script.js:138 | a value with no whitespace at either end is left unchanged by trimming |
| Text.TrimIdempotent | script.js:138 | trimming twice gives the same as trimming once |
| Text.Encode | script.js:147 | a character below U+10000 is one code unit equal to it; any other is a high and a low surrogate from which it is recovered |
| Text.Utf16 | script.js:147 | a string has at least as many code units as characters |
| Text.Utf16Bmp | script.js:147 | a string of characters below U+10000 has one code unit per character, equal to it |
| Text.Utf16Append | script.js:147 | the code units of a concatenation are those of its parts, in order |
| Text.Step | script.js:147 | the automaton passes the local part only on an `@` read right after it, and any whitespace unit rejects |
| Text.Run | script.js:147 | a rejected prefix stays rejected, as the pattern is anchored at both ends |
| Text.EmailMatchesShape | script.js:147 | the automaton accepts a sequence of code units exactly when it has the address shape: no whitespace; exactly one `@`, with something before it; after the `@`, a `.` with at least one unit before it and at least two after it |
| Text.AddressAccepted | script.js:147 | any non-empty local part, `@`, non-empty domain, `.` and suffix of two or more units is accepted when no part holds whitespace or `@` |
| Text.EmailAcceptsTrailingDot | script.js:147 | `a@b.co.` is accepted |
| Text.EmailCountsCodeUnits | script.js:147 | `a@b.` followed by U+1F600 is five characters and is accepted: the suffix counts two code units |
| Text.RunWithoutAt | script.js:147 | a sequence with no `@` never takes the automaton past the local part |
| Text.MissingAtRejected | script.js:147 | a string with no `@` and no character above U+FFFF is rejected |
| Text.EmailRejectsMissingAt | script.js:147 | `not-an-email` is rejected |
| Text.EmailRejectsShortSuffix | script.js:147 | `a@b.c` is rejected: one character after the only dot is too short |
| Text.MonthMatches | script.js:155 | a value that matches the month pattern is pure ASCII, so its code units are its characters |
| Text.MonthMatchesShape | script.js:155 | the month pattern accepts exactly four ASCII digits, a hyphen and two ASCII digits |
| Text.MonthHasNoRangeCheck | script.js:155 | `2024-13` and `2024-06` are accepted, while `2024-6` and `24-06` are rejected: only the shape is checked |
| Validation.ValidateValue | script.js:137-163 | the result is the required message exactly when the control is required and its value is blank; any failure carries one of the three fixed messages |
| Validation.EmailRule | script.js:146-152 | for a non-blank value of the control named `email`, the result is Valid exactly when the code units of the trimmed value have the address shape, and the e-mail message otherwise |
| Validation.MonthRule | script.js:154-160 | for a non-blank value of the control named `travel_month`, the result is Valid exactly when the trimmed value is `YYYY-MM`, and the month message otherwise |
| Validation.PresenceOnly | script.js:141-144 | any other control is checked only for presence; a blank optional control always passes |
| Validation.EmailExamples | script.js:146-152 | `not-an-email` and `a@b.c` fail with the e-mail message; `a@b.co.` passes |
| Validation.EmailAstralExample | script.js:146-152 | a required `email` value of `a@b.` and one emoji passes |
| Validation.MonthAndBlankExamples | script.js:141-160 | `2024-13` passes the month check; a whitespace-only required value fails with the required message before any format check |
| InquiryForm.NamedItem | script.js:117 | `namedItem` finds nothing when no control has that name or id; it finds a single control when exactly one does, and that one carries the name; otherwise it finds several |
| InquiryForm.Selected | script.js:165-167 | a control is used exactly when it is an input or select and is the only control whose name or id is looked up |
| InquiryForm.LookupsIn | script.js:177-179 | every looked-up field is an input or select of the form |
| InquiryForm.ClearError | script.js:119-126 | without a container the display is kept; with one, the container is not invalid, `aria-invalid` is "false", and an error node's text is emptied |
| InquiryForm.SetError | script.js:128-135 | without a container the display is kept; with one, the container is invalid, `aria-invalid` is "true", and an error node shows the message |
| InquiryForm.Show | script.js:119-139 | after validation a control with a container is marked invalid, with `aria-invalid` "true" and the message, exactly when the verdict fails; a pass leaves `aria-invalid` "false" and an empty error text; a control without a container keeps its display |
| InquiryForm.VerdictAt | script.js:137-163 | the verdict recorded for each control is the validator's decision on that control's `required` flag, `name` and current value |
| InquiryForm.FirstInvalid | script.js:190 | the focus target is a control that is focusable (an input or select in a container marked invalid), and no earlier control is; none is found only when no control qualifies |
| InquiryForm.RefreshStep | script.js:177-181 | validating one more field changes only that field's display and ANDs its verdict into the form's result |
| InquiryForm.SubmitMarksExactlyFailures | script.js:176-181 | after submit-time validation, a container is marked invalid exactly when its control was looked up, has a container and fails |
| InquiryForm.SubmitFocus | script.js:185-191 | focus lands on a looked-up field that fails; nowhere when the form passes; never after a failing field that has a container |
| InquiryForm.Form.constructor | script.js:112-117 | the looked-up fields are fixed when the form is set up; the values are those the page shows at load, every display is pristine and the status is empty |
| InquiryForm.Form.ValidateField | script.js:137-163 | returns the verdict of the control's current value and refreshes that control's display, and no other |
| InquiryForm.Form.Input | script.js:169 | the value changes; a wired control is validated against the new value and an unwired one is not |
| InquiryForm.Form.Blur | script.js:170 | a wired control is validated again; nothing else changes |
| InquiryForm.Form.ValidateAll | script.js:176-181 | every looked-up field is validated, with no short-circuit; the result is true exactly when all of them pass |
| InquiryForm.Form.ValidateNext | script.js:177-181 | one turn of the `forEach`: the next looked-up field, if any, has its display refreshed, and its verdict is ANDed into the result |
| InquiryForm.Form.Report | script.js:183-203 | after validation, the same three outcomes as `Submit`, from the validation result alone |
| InquiryForm.Form.Submit | script.js:173-204 | all fields are validated; then, depending on the status element and the result, there are three outcomes: nothing more happens; the review message in the error style with focus on the first invalid field and values kept; or a reset to the defaults, the thank-you message in the success style and one more pending clear |
| InquiryForm.Form.ClearStatus | script.js:200-203 | a firing clear timer empties the status and drops both styles, whatever it then shows; the form's invariant is kept |
| InquiryForm.TypeIn | script.js:169 | an `input` event on every control in turn leaves the form holding exactly the typed values |
| InquiryForm.ClearRace | script.js:195-203 | after a passing submit, typing any passing values and submitting again, the first timer blanks the second thank-you message while the second timer is still pending |
| Navigation.Menu.constructor | script.js:3-4 | the menu starts with the toggle and nav the page has, and with whatever attribute and class the page gives them |
| Navigation.Menu.Close | script.js:16-20 | with both elements present, the attribute becomes "false" and the nav closes; the two then agree; otherwise nothing changes |
| Navigation.Menu.ToggleClick | script.js:22-27 | the menu opens exactly when `aria-expanded` was not "true", both flags are written, and afterwards they agree |
| Navigation.Menu.DocumentClick | script.js:29-35 | the menu closes exactly when the target is an element outside the header and the nav is open; agreement is preserved |
| Navigation.Menu.Resize | script.js:37-39 | any width above 767 closes the menu whatever its state; agreement is preserved |
| Navigation.AnchorTarget | script.js:44-48 | a link is acted on exactly when its `href` is present, non-empty, starts with `#` and resolves to a target on the page |
| Navigation.AnchorClick | script.js:42-58 | without a target the link is followed and nothing changes; with one, the page scrolls (at once under reduced motion, smoothly otherwise), the URL becomes the fragment when `replaceState` exists, and the menu closes |
| Reveal.StaggerDelay | script.js:79 | the delay never exceeds 260 ms; it is 55 ms per position for the first five items and 260 ms from the sixth on |
| Reveal.StaggerMonotone | script.js:79 | a later item never gets a shorter delay |
| Reveal.HitExtend | script.js:66-70 | one more entry adds its own report to those of the entries before it |
| Reveal.Revealer.constructor | script.js:61 | the items start neither shown nor watched |
| Reveal.Revealer.Start | script.js:62-85 | with items, no reduced motion and an observer, each item gets its stagger delay and is watched; otherwise every item is shown at once; either way an item is watched exactly while it is not shown |
| Reveal.Revealer.OnEntries | script.js:65-71 | an item becomes shown and unwatched exactly when some entry reports it intersecting; other items are untouched, and a shown item stays shown |
| ScrollEffects.Header.constructor | script.js:8-13 | the header state is set once at load from the current scroll position |
| ScrollEffects.Header.OnScroll | script.js:8-14 | with a header, `scrolled` holds exactly when the page is scrolled more than 12 px; without one nothing changes |
| ScrollEffects.ParallaxOffset | script.js:92 | the offset never exceeds 28 px, is 0.08 of the scroll up to 350 px, is 28 px from there on, and is non-negative for a non-negative scroll |
| ScrollEffects.ParallaxMonotone | script.js:92 | scrolling further never gives a smaller offset |
| ScrollEffects.Parallax.constructor | script.js:87-89 | the effect is active only with a parallax node and without reduced motion; when active, one frame is requested at load |
| ScrollEffects.Parallax.RequestFrame | script.js:97-103 | a frame is requested only when none is pending, so at most one is ever pending |
| ScrollEffects.Parallax.FrameFires | script.js:91-95 | the frame sets the offset from the scroll position at that moment and clears `ticking`, so the next scroll may request again |

## Left out

- DOM querying and element identity: the form's controls are a fixed list given at set-up. `closest(".field")` and the container's `.field-error` node are per-control booleans. So is the header containment of a click target.
- A `.field` container holding several controls, or nested containers: each control is taken to own its container. The focus query at `script.js:190` then picks the first control whose own container is invalid.
- Controls that can never be wired, such as textareas and buttons, are kept as `OtherElement`. An `<input type="image">` is not in `form.elements` in browsers; the model expects the list to leave it out.
- The case where `[data-inquiry-form]` is not a form (`script.js:113`): then none of the form's listeners exist, and the model has nothing to do.
- `reset()` is modelled as restoring each control's default value. For a select this stands for its default-selected option.
- `document.querySelector(href)` is given as a map from `href` to target. A selector that throws, such as a bare `#`, has the same effect as one that finds nothing: the handler stops before `preventDefault` and the link is followed. The map simply has no entry for it.
- `IntersectionObserver` geometry (threshold 0.2, root margin -8%): entries arrive with `isIntersecting` already decided. The callback is only called while the observer exists.
- `scrollIntoView`, `history.replaceState` and `focus()` are returned as outcomes: an `AnchorOutcome`, and a focus index from `Submit`.
- `requestAnimationFrame` and `setTimeout`: each becomes a counter of pending callbacks plus a method that fires one of them. Time itself and the 5000 ms delay are not modelled. The delay appears only as the constant `StatusClearDelayMs`.
- ScrollEffects.ParallaxOffset: computed over reals. Floating-point rounding of `scrollY * 0.08` and the `translateY(...px)` string are not modelled.
- The footer year (`script.js:107-110`) reads the clock and is not modelled.
- The `/i` flag of the e-mail pattern does not change any of its character classes and is not modelled.
- The page's initial state is an assumption of the constructors:
  - reveal items start without `is-visible`;
  - error displays start pristine;
  - the status line starts empty;
  - the menu starts in whatever state its constructor is given;
  - the form's controls hold whatever values its constructor is given.
- Event wiring (`addEventListener`, `passive`) and CSS are not modelled.
