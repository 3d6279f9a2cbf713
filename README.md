# Interaction logic of the ACV Soluciones Fisioterapéuticas page, in Dafny

`script.js` wires the page's interactive parts to the document. This project
models the parts of it that can be stated without a browser:

- **FAQ accordion** (`faq.dfy`, module `Faq`). The `.faq-item` elements are an
  `array<bool>` of `active` flags. `Click` is the click handler, with the same
  loop over every item as the source: it clears `active` on the other items and
  then toggles the clicked one. Its contract ties the new array to the
  specification function `AfterClick`. The lemmas prove what the accordion
  promises: at most one item is open, a click on an open item closes
  everything, and two clicks restore the item.
- **E-mail pattern** (`email_pattern.dfy`, module `EmailPattern`). The regular
  expression `^[^\s@]+@[^\s@]+\.[^\s@]+$` is stated twice. `MatchesEmailRegex`
  is a literal reading of it: an `@` and a later `.` split the string into
  three non-empty runs of `[^\s@]`. `IsValidEmail` is an executable check:
  the first `@` has a non-empty, whitespace-free local part before it, and the
  domain after it has no whitespace and no `@` and contains a `.` that is
  neither its first nor its last character. `ValidIffRegex` proves that the
  two agree on every string. `\s` is the ECMAScript whitespace set.
- **Contact form** (`contact_form.dfy`, module `ContactForm`). `Validate` is
  the pure part of the submit handler. It checks for empty fields first, then
  the e-mail pattern, and returns `ErrorEmpty`, `ErrorEmail` or `Success`. The
  class `Form` holds the four field values and the `.form-message` elements in
  the document. `ShowFormMessage` removes an existing message before inserting
  the new one. `Submit` shows exactly one message and clears the fields only on
  success. `ExpireMessage` is the removal that a message's expiry timer
  performs.
- **Mobile menu** (`mobile_menu.dfy`, module `MobileMenu`). The class `Menu`
  holds the `active` class of `.nav-links`, the `active` class of
  `.mobile-menu-toggle` and the toggle's `aria-expanded` attribute.
  `OpenMenu`, `CloseMenu` and `ToggleMenu` always leave the three consistent.
  The Escape and outside-click handlers either close an open menu or change
  nothing at all.
- **Scroll rules** (`scrolling.dfy`, modules `SmoothScroll` and
  `HeaderShadow`). The anchor-click decision and the target offset form one
  pure function. The header shadow is strong exactly when the scroll offset
  exceeds 100.

Some behaviour differs from what a reader of the page might expect. The
model follows the code in each case:

- Fields are not trimmed. `!x` rejects only the empty string, so a field
  holding only spaces passes the emptiness check (`BlankFieldsAccepted`).
- The submit handler sends nothing over the network. Both checks passing
  leads straight to the success message and the reset, so the model has no
  request, rejection or connection-error outcome.
- The outside-click handler also ignores clicks inside the page header, not
  only clicks inside the panel and the toggle.
- The FAQ setup does not guard an item that has no `.faq-question`. Such an
  item would make the setup throw rather than be skipped. The model assumes
  every item has its question.
- The anchor handler suppresses the default navigation even when no element
  matches the target. In that case it does nothing else (`Suppress`).

## Model

| member | source | states |
|---|---|---|
| `Faq.Click` | script.js:22-32 | the array after a click is `AfterClick` of the array before: every other item is cleared and the clicked item is toggled, by a loop over all items |
| `Faq.ClickIsolates` | script.js:24-31 | after clicking item `i`, every other item is inactive and item `i` holds the negation of its previous state |
| `Faq.ClickLeavesAtMostOne` | script.js:24-31 | from any state, a click leaves at most one item active |
| `Faq.ClickOpenCloses` | script.js:31 | clicking an item that is open leaves every item closed |
| `Faq.ClickTwice` | script.js:24-31 | two clicks on the same item restore its state; when no other item was open they restore the whole accordion |
| `Faq.ClicksKeepAtMostOne` | script.js:19-33 | after any sequence of clicks, at most one item is active, if that held at the start or at least one click happened |
| `EmailPattern.IndexOf` | script.js:58 | helper of `IsValidEmail` that finds the `@` where the pattern's first run ends: the result is the position of the first occurrence of the character, or the length when there is none |
| `EmailPattern.MatchesEmailRegex` | script.js:58 | the pattern read literally: an `@` at some index and a later `.` split the string into three non-empty runs of characters that are neither ECMAScript whitespace nor `@` |
| `EmailPattern.IsValidEmail` | script.js:58-59 | the executable check: the first `@` has a non-empty, whitespace-free local part before it, and the domain after it has no whitespace or `@` and has a `.` that is neither its first nor its last character |
| `EmailPattern.ValidEmailHasOneAt` | script.js:58 | an accepted address contains exactly one `@` |
| `EmailPattern.RegexImpliesValid` | script.js:58-59 | every string the regular expression matches passes the executable check |
| `EmailPattern.ValidImpliesRegex` | script.js:58-59 | every string the executable check accepts is matched by the regular expression |
| `EmailPattern.ValidIffRegex` | script.js:58-59 | the executable check accepts a string exactly when the regular expression matches it |
| `ContactForm.Validate` | script.js:52-62 | the outcome is `ErrorEmpty` iff some field is the empty string, `ErrorEmail` iff none is empty and the e-mail does not match the pattern, and `Success` iff none is empty and it matches |
| `ContactForm.EmptyFieldWins` | script.js:52-55 | an empty field gives the "completa todos los campos" error whatever the e-mail is, so the e-mail check is not reached |
| `ContactForm.BlankFieldsAccepted` | script.js:52-55 | for every form whose name, phone and message fields consist only of whitespace (at least one character) and whose e-mail matches the pattern, the submission succeeds: nothing is trimmed |
| `ContactForm.NoInteriorDotRejected` | script.js:58-61 | for every form with no empty field whose e-mail has no dot strictly inside the part after the first `@` (no dot, or dots only as the domain's first or last character), the outcome is the invalid-e-mail error |
| `ContactForm.TwoAtsRejected` | script.js:58-61 | for every form with no empty field whose e-mail contains two or more `@`, the outcome is the invalid-e-mail error |
| `ContactForm.DotAfterAtAccepted` | script.js:58-59 | the address `ana@.x.co` is accepted: the run after the `@` may itself hold dots, so a dot right after the `@` is allowed when another dot follows |
| `ContactForm.WhitespaceRejected` | script.js:58-61 | for every form with no empty field whose e-mail holds an ECMAScript whitespace character at any position, the outcome is the invalid-e-mail error |
| `ContactForm.MessageText` | script.js:53-66 | the text shown for each outcome: the "completa todos los campos" text for an empty field, the invalid-e-mail text, or the thank-you text on success |
| `ContactForm.MessageKind` | script.js:53-66 | the message type for each outcome: `success` on success, `error` for both validation errors |
| `ContactForm.Form.ShowFormMessage` | script.js:205-220 | the first existing message is removed and one fresh element with the given text and type is added; when at most one message existed before, exactly that new one exists afterwards |
| `ContactForm.Form.Submit` | script.js:41-69 | the outcome is `Validate` of the fields; exactly one message exists afterwards, carrying that outcome's text and type; the fields are cleared iff the outcome is `Success` and are otherwise unchanged |
| `ContactForm.Form.ExpireMessage` | script.js:223-229 | an expiring message is removed only while it is still the one in the document; a newer message stays |
| `MobileMenu.Menu.OpenMenu` | script.js:156-162 | the panel is open and the toggle's class and `aria-expanded` agree with it |
| `MobileMenu.Menu.CloseMenu` | script.js:164-170 | the panel is closed and the toggle's class and `aria-expanded` agree with it |
| `MobileMenu.Menu.ToggleMenu` | script.js:139-154 | with no argument the panel's state flips; with `true` or `false` it is set to that value; in every case the three pieces of state agree afterwards |
| `MobileMenu.Menu.OnKeydown` | script.js:186-190 | Escape on an open menu closes it; any other key, or Escape on a closed menu, changes nothing; consistency is preserved |
| `MobileMenu.Menu.OnDocumentClick` | script.js:193-200 | an open menu closes exactly when the click is outside the panel, the toggle and the header; otherwise nothing changes; consistency is preserved |
| `SmoothScroll.OnAnchorClick` | script.js:93-108 | a bare `#` is left to the browser; any other link suppresses the default; a scroll is requested only when a target exists, and then to the target's page position (its top plus the current offset) minus 80 |
| `HeaderShadow.ShadowMonotone` | script.js:121-125 | scrolling further down never turns a strong shadow weak |
| `HeaderShadow.ShadowFor` | script.js:121-125 | the shadow is strong exactly when the vertical scroll offset exceeds 100, and weak otherwise |

## Left out

- DOM queries, listener registration and `stopPropagation` on the toggle
  click are left out. Events are method calls here. The toggle-click listener
  is `ToggleMenu(Undefined)`, and the document click handler is not run for
  that same click.
- Timers are left out. The 150 ms delayed `closeMenu` after a navigation-link
  click is a later `CloseMenu` call. The message's 5000 ms wait and 300 ms fade
  are not modelled. Only their final effect is: `ExpireMessage` removes the
  element.
- The WhatsApp button is left out. It opens a fixed URL with `window.open`
  and has no logic to state.
- Animation is left out. This covers `window.scrollTo`'s smooth animation,
  the `boxShadow` and `opacity` CSS strings, and the reading of
  `getBoundingClientRect`. The target's top edge is a parameter of
  `OnAnchorClick`.
- `OnAnchorClick`: the browser clamps the requested scroll position to the
  scrollable range (a negative request for a target near the top of the
  page, or a request past the bottom), so the target does not always end up
  80 below the viewport top. That clamping is not modelled.
- `Submit`: the unconditional `e.preventDefault()` that suppresses the form's
  own navigation is not modelled. The model has no page navigation.
- Positions are integers. Browsers report scroll offsets and element
  positions as floating-point numbers, and those are not modelled.
- `document.querySelector(href)` throwing on an `href` that is not a valid
  selector is not modelled.
- Element lookups that return `null` are not modelled. The code would throw
  when a `.faq-question` or the `header` is missing.
- `FormData` is not modelled. The four fields are strings; a missing field
  (`null`) is not modelled.
- `reset()` is modelled as setting the four fields to the empty string. In
  the page, it restores each field's default value.
- `lastScroll` is not modelled. The scroll handler writes it but nothing
  reads it.
- JavaScript strings are UTF-16 code units and Dafny strings are sequences of
  Unicode scalar values. This makes no difference to the pattern: both halves
  of a surrogate pair are outside `\s` and are not `@`.
