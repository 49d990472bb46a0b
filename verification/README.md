# ACE Argentina site script: the UI state behind the page

A model, in Dafny, of the state machines and validators inside `script.js`, the
client-side script of the ACE Argentina marketing site. The browser's DOM is
replaced by plain data:

- the FAQ accordion is an array of items with an `active` class, the question's
  `aria-expanded` attribute, and a flag saying whether the answer carries an
  inline `max-height`;
- the mobile menu is a button and a list with their classes and ARIA attributes;
- the contact form is an array of controls, each with an id, a value, a
  `required` flag, the `.field-error` elements under it, and its error
  attributes;
- the two scroll listeners are small classes holding their closure variables.

Modules:

- `JsText` covers white space and `String.prototype.trim`.
- `EmailPattern` is the e-mail regular expression. It has a direct check and a
  reference reading of the regex, and proves they agree.
- `Faq` and `NavMenu` are the accordion and the menu as values.
- `PageHandlers.Page` holds the FAQ items and the menu and runs the click,
  keyboard and Escape handlers in place.
- `ContactForm` holds the field functions and the `Form` class with
  `clearFieldError`, `showFieldError`, `validateField` and
  `validateContactForm`.
- `ScrollTracking` models the header hide/show rule and the scroll-depth
  milestones.

Behaviour worth knowing, as the code has it:

- **One FAQ group.** The FAQ items form a single group for the whole document.
  Opening one item closes every other open item on the page, not only those in
  the same container.
- **Assumed markup.** The model assumes that every FAQ question sits inside an
  FAQ item. Under that assumption `toggleFAQ` has no "not found" outcome. The
  page markup violating it is listed under "Left out".
- **Escape leaves answer heights.** The Escape handler closes items but leaves
  each answer's `max-height` in place. `toggleFAQ` clears it.
- **Escape needs both menu elements.** Escape closes the menu only through
  `toggleMobileMenu`, which does nothing unless both the button and the menu
  exist.
- **E-mail uses the raw value.** The e-mail format check runs on the untrimmed
  value after the required pass. So a required e-mail field holding only a
  no-break space (U+00A0) first gets the required message, and then the format
  message replaces it. The field ends up showing only the format message. A
  no-break space is used for this case because browsers strip ASCII white space
  from the value of an `<input type="email">`, but they do not strip U+00A0.
- **Which field is the e-mail.** The e-mail field is the control with id
  `email`. Nothing depends on a field "kind", and the pattern has no letters, so
  case does not matter.
- **One error at most, as an invariant.** `clearFieldError` removes only the
  first `.field-error` under the parent. "At most one error per field" is
  therefore an invariant that showing and clearing preserve. It is not
  structural.

## Model

| member | source | states |
|---|---|---|
| JsText.LeadingSpace | script.js:182 | the white-space prefix that `trim` drops at the front: all white space, followed by a non-space or the end |
| JsText.TrailingSpace | script.js:182 | the white-space suffix that `trim` drops at the back: all white space, preceded by a non-space or the start |
| JsText.Trim | script.js:182 | `value.trim()` is the infix left once only white space is removed at both ends; it neither starts nor ends with white space |
| JsText.TrimEmptyIff | script.js:182-184 | the trimmed value is empty exactly when the value is all white space (so `!value` tests for blank) |
| Search.FirstWhere | script.js:169 | the first element with a property, or none when no element has it; used both for `querySelector('#email')` and for finding the `@` the regex must match at |
| EmailPattern.MatchesEmailSound | script.js:171-172 | every string the direct check accepts is split by the regex `^[^\s@]+@[^\s@]+\.[^\s@]+$` into local part, `@`, domain, `.`, top-level part |
| EmailPattern.MatchesEmailComplete | script.js:171-172 | every string the regex splits that way is accepted by the direct check |
| EmailPattern.MatchesEmailIff | script.js:171-172 | the direct check accepts a string exactly when the regex does |
| EmailPattern.AcceptsFullAddress | script.js:171-172 | `a@b.com` matches |
| EmailPattern.RejectsMissingTopLevel | script.js:171-172 | `a@b` does not match |
| EmailPattern.RejectsWhiteSpace | script.js:171-172 | `" "` and `a b@c.d` do not match |
| Faq.Toggle | script.js:92-117 | after `toggleFAQ(t)`, no item but `t` is open; `t`'s `active` is negated and its question and answer show it; every item that was closed now shows closed; items already closed are untouched; no item gains or loses its answer, and an item without an answer keeps its height flag |
| Faq.CloseAll | script.js:351-356 | after the Escape loop no item is open; every item that was open shows `aria-expanded = false`; no answer height changes and no item gains or loses its answer |
| Faq.ToggleKeepsConsistent | script.js:97-117 | when every question and answer shows its item's state, a toggle keeps it so |
| Faq.ToggleTwiceRestoresTarget | script.js:108-117 | two toggles of `t` in a row give `t` back its `active` class, and its whole state when that state was shown consistently |
| Faq.ToggleKeepsAriaConsistent | script.js:97-117 | when every question's `aria-expanded` matches its item's `active` class, a toggle keeps it so |
| Faq.CloseAllKeepsAriaConsistent | script.js:351-356 | when every question's `aria-expanded` matches its item's `active` class, Escape keeps it so (answer heights need not match) |
| Faq.ToggleTwiceIsIdentity | script.js:97-117 | with no other item open and `t` showing its own state, two toggles of `t` are the identity on the whole accordion, even after an earlier Escape left answer heights behind |
| Faq.CloseAllIdempotent | script.js:348-356 | pressing Escape twice leaves the FAQ as pressing it once |
| Faq.CloseAllShowsClosed | script.js:351-356 | when every question's `aria-expanded` matches its item (which toggles and Escape keep), Escape leaves every item closed and every question at `aria-expanded = false` |
| Faq.EscapeKeepsAnswerHeight | script.js:348-356 | Escape closes an open item but keeps its answer's `max-height`, while a toggle of that item clears it (script.js:103, 115) |
| NavMenu.Toggle | script.js:58-70 | with both elements present, the button's `active` and the menu's `mobile-open` flip, `aria-expanded = open` and `aria-hidden = !open`; otherwise nothing changes |
| NavMenu.Escape | script.js:358-362 | both elements stay present; with both present an open menu gets exactly `toggleMobileMenu` and ends closed; with either missing nothing changes, so an open menu without its button stays open; a closed menu is left alone; a consistent menu stays consistent |
| NavMenu.ToggleKeepsConsistent | script.js:62-69 | a toggle keeps the button class and both ARIA attributes in step with the menu's state |
| NavMenu.ToggleTwiceIsIdentity | script.js:58-70 | two toggles are the identity on any menu whose ARIA attributes match its state; the button class flips twice, so it need not match |
| NavMenu.EscapeIdempotent | script.js:358-362 | pressing Escape twice leaves the menu as pressing it once |
| PageHandlers.Page.ToggleMobileMenu | script.js:58-70 | the in-place flip leaves the menu as `NavMenu.Toggle` of its old state |
| PageHandlers.Page.ToggleFaq | script.js:92-117 | the loop over the open items and the target flip leave the items as `Faq.Toggle` of their old state |
| PageHandlers.Page.OnQuestionClick | script.js:78-80 | a click on a question runs the toggle of its item |
| PageHandlers.Page.OnQuestionKeyDown | script.js:83-88 | Enter and Space run the same toggle as a click and suppress the default; any other key changes nothing |
| PageHandlers.Page.OnDocumentKeyDown | script.js:348-364 | Escape closes every open FAQ item as `Faq.CloseAll` and the menu as `NavMenu.Escape`; other keys change neither |
| ContactForm.Cleared | script.js:210-219 | clearing a field with at most one error leaves it showing none; clearing a field that shows none changes nothing |
| ContactForm.WithError | script.js:193-208 | showing an error on a field with at most one error leaves exactly that message, `aria-invalid`, the error border and `aria-describedby = error-<id>`; it never adds a second error |
| ContactForm.PassesIff | script.js:182-184 | a field fails `validateField` exactly when it is required and its value is all white space |
| ContactForm.Validated | script.js:181-191 | a failing field ends with the required message alone, a passing one with no error |
| ContactForm.ValidateRequired | script.js:159-166 | the required pass leaves each required control as `validateField` does, so a control with at most one error ends clean or with the required message alone; controls that are not required stay as they were; no id, value or required flag changes |
| ContactForm.EmailCheckAfterRequiredPass | script.js:169-172 | the format check finds the same field and value after the required pass as before it |
| ContactForm.EmailChecked | script.js:168-176 | the format check changes nothing unless the e-mail value is non-empty and rejected; then that field shows the format message alone and every other control is untouched |
| ContactForm.FormValidIff | script.js:157-179 | the form is valid exactly when no required field is blank and a non-empty e-mail value is accepted by the regex |
| ContactForm.CheckedFeedback | script.js:157-179 | every required field gets feedback with no early exit; a rejected e-mail shows the format message alone; other required fields show the required message exactly when blank; no field gains a second error |
| ContactForm.BlankEmailShowsFormatMessage | script.js:170-173 | a required e-mail field holding only a no-break space fails the required check, yet ends up showing only the format message |
| ContactForm.Form.ClearFieldError | script.js:210-219 | the in-place clear leaves the control as `Cleared` of its old state and the other controls untouched |
| ContactForm.Form.ShowFieldError | script.js:193-208 | clears first, then appends: the control becomes `WithError` of its old state |
| ContactForm.Form.ValidateField | script.js:181-191 | returns false exactly when the field is required and blank, and leaves it as `Validated`; the other controls are untouched |
| ContactForm.Form.CheckEmailFormat | script.js:168-176 | returns false exactly when the format check fails, leaving the controls as `EmailChecked` |
| ContactForm.Form.ValidateContactForm | script.js:157-179 | returns `FormValid` of the controls and leaves them as `Checked`: the full required pass, then the format check |
| ScrollTracking.HeaderScroll.constructor | script.js:302 | the previous position starts at 0 with the header shown |
| ScrollTracking.HeaderScroll.OnScroll | script.js:305-317 | the header hides exactly when the position grew and is past 100; the position is remembered; a hidden header is always past 100 |
| ScrollTracking.MaxAfter | script.js:394-398 | the tracked maximum never drops below its start or below any percentage seen |
| ScrollTracking.MaxAfterAttained | script.js:394-398 | the tracked maximum is attained: it is the starting 0 or one of the percentages seen |
| ScrollTracking.ReportedAll | script.js:394-410 | every reported depth is a milestone (25, 50, 75, 90) beyond the start, and the reports strictly increase, so none repeats |
| ScrollTracking.RunStep | script.js:397-401 | one more scroll event extends the maximum and the reports by that event's own step |
| ScrollTracking.ScrollDepth.constructor | script.js:394 | the maximum starts at 0 with nothing reported |
| ScrollTracking.ScrollDepth.OnScroll | script.js:395-411 | `maxScroll` never decreases; a milestone is reported only for a new maximum; the reports so far are exactly those of the whole event history, so each milestone is reported at most once |

## Left out

- Analytics: every `gtag` call, including the FAQ interaction value, the scroll-depth event payload and the time on page. These are foreign calls with no state the page reads back. `ScrollDepth.OnScroll` returns the milestone that would be reported.
- Smooth scrolling of navigation links, `history.pushState`, header height measurement, and the menu closing after a link click (script.js:29-55). These are browser layout and history I/O.
- Form submission, `FormData`, the success message and its timers (script.js:131-141 and 221-268). The `blur` and `input` listeners are modelled as direct calls of `Form.ValidateField` and `Form.ClearFieldError`.
- IntersectionObserver animations and lazy images. These are browser callbacks with no logic of their own.
- The scroll percentage itself, computed with floating-point division and `Math.round`, which can be NaN or infinite on a page that does not scroll. `ScrollDepth.OnScroll` takes the rounded integer.
- `HeaderScroll.OnScroll` takes the resolved integer position `pageYOffset || scrollTop`.
- The Tab/mouse `keyboard-navigation` class, the screen-reader announcer, the skip link, breadcrumbs, CTA tracking, the search placeholder, structured data, the meta description, the global error handler and service-worker registration. These are thin wrappers over browser APIs.
- Styling values (`max-height` pixel strings, border colours, transforms) are abstracted to flags.
- Controls that share one parent element are not modelled. `clearFieldError` looks for the error under the parent, so such controls would clear each other's errors. Each control is taken to have its own parent.
- Elements other than form controls carrying id `email` are not modelled.
- An FAQ item is taken to have exactly one `.faq-question`.
- A `.faq-question` outside every `.faq-item` is not modelled. There `closest` returns null and `toggleFAQ` throws a TypeError (script.js:93-94). `toggleFAQ` is also exported on `window.ACEWebsite` (script.js:584). `PageHandlers.Page.ToggleFaq` takes the index of an existing item.
- A page without a `.contact-form` is not modelled. There `validateContactForm` throws a TypeError (script.js:158-159), and it is exported on `window.ACEWebsite` (script.js:586). `ContactForm.Form` always holds a form.
- A page without a `.header` is not modelled. There the header scroll listener throws a TypeError on every scroll (script.js:303, 310, 313). `ScrollTracking.HeaderScroll` always has a header to hide or show.
- The browser's own cleaning of an `<input type="email">` value is not modelled. Browsers strip leading and trailing ASCII white space from it before the script reads `.value`.
- Strings are sequences of Unicode scalar values, not UTF-16 code units. Every character that trimming and `\s` involve lies in the Basic Multilingual Plane.
