# Igarapé Café / ACS site scripts in Dafny

This project models the interactive logic of two page scripts, `IgarapeCafe.js` and `index.js`. It covers:

- **Contact-form validation** (`IgarapeCafe.js`):
  - `isValidEmail` and `isValidPhone`;
  - the decision logic of `validateField`;
  - the `blur` and `input` listeners that call `validateField`.
- **The two contact-form submit handlers**:
  - each checks its fields;
  - each builds a message from a fixed template;
  - each opens a WhatsApp deep link `https://wa.me/5524988805041?text=<encodeURIComponent(message)>`.
- **The mobile navigation menu of both pages**, as a transition system over the `active` classes of the menu and its toggle button:
  - toggle click and link click (both pages);
  - click outside the navbar and Escape (`index.js` only);
  - the hamburger bars (`IgarapeCafe.js`).
- **Anchor scrolling** in `index.js`: the `#`/empty-href early return and the 90-pixel header offset.
- **`makeNavLinkActive`**: the last section whose band holds the scroll offset decides which links are active.
- **The statistics counters**:
  - parsing a `.stat-number` label into a target and a suffix;
  - the frames of `animateCounter`, in exact arithmetic;
  - the `data-animated` guard that starts a section's counters at most once.

The ECMAScript behaviour these scripts depend on is modelled as well:

- `\s` and `trim` (module `Chars`);
- `replace(/\D/g, '')` and `parseInt` of a digit string (modules `Chars` and `Stats`);
- `encodeURIComponent`, through UTF-8 (modules `Utf8` and `UriComponent`).

Strings are sequences of Unicode scalar values. The modules are:

| module | file | content |
|---|---|---|
| `Options` | chars.dfy | `Option` |
| `Chars` | chars.dfy | whitespace, `trim`, digit extraction, counting |
| `Validation` | validation.dfy | e-mail and phone validators, `validateField` and its listeners |
| `Utf8` | utf8.dfy | UTF-8 encoder and its decoder |
| `UriComponent` | uri_component.dfy | `encodeURIComponent` and the decoder it round-trips with |
| `WhatsApp` | whatsapp.dfy | both submit handlers |
| `Navigation` | navigation.dfy | menu transitions, hamburger bars, anchor scrolling |
| `ActiveSection` | active_section.dfy | `makeNavLinkActive` |
| `Stats` | stats.dfy | label parse, counter frames, `data-animated` guard |

Side effects become returned values:

- `window.open`, `alert` and `showNotification` are the `WhatsApp.Outcome` of a submit.
- `window.scrollTo` is `Navigation.AnchorOutcome`.
- The `error` class and `.error-message` element are `Validation.FieldView`.
- The text of each counter frame is an element of `Stats.AnimateCounter`'s result.

DOM lookups are parameters:

- `offsetTop` of anchor targets is a map.
- Whether a click lies inside the navbar is a flag.
- Sections are given as `(id, offsetTop, offsetHeight)` records.

## Model

| member | source | states |
|---|---|---|
| Validation.EmailPatternIff | IgarapeCafe.js:421-424 | The address test accepts exactly the strings the e-mail pattern matches. An accepted string has no whitespace, exactly one '@' with a non-empty local part, and a '.' with characters on both sides in the domain. |
| Validation.EmailSplitValid | IgarapeCafe.js:421-424 | Every way of matching the e-mail pattern (local part, '@', label, '.', rest) passes the address test. |
| Validation.IsValidPhone | IgarapeCafe.js:426-429 | A phone number is accepted iff it is non-empty, every character is a digit, whitespace, parenthesis, '-' or '+', and at least ten of its positions hold a digit. An accepted number therefore has at least ten characters. |
| Validation.ValidateField | IgarapeCafe.js:384-419 | The verdict is valid iff the field shows no error class, iff it shows no error message. This holds iff three checks pass on the trimmed value: the required check; for an e-mail field, the e-mail check of a non-empty value; for a tel field, the phone check of a non-empty value. |
| Validation.RequiredBlankFails | IgarapeCafe.js:398-400 | A required field whose value is all whitespace fails with "Este campo é obrigatório", whatever its type. |
| Validation.OptionalBlankPasses | IgarapeCafe.js:397-407 | A blank optional field is valid and left clean, because the format checks only run on non-empty values. |
| Validation.MessagesBelongToTypes | IgarapeCafe.js:398-407 | The three messages are exclusive and ordered. The e-mail message appears only on an e-mail field with a non-empty invalid value. The phone message appears only on a tel field with a non-empty invalid value. The required message appears exactly when a required value is blank. |
| Validation.ValidateIgnoresSurroundingWhitespace | IgarapeCafe.js:385 | Validating the raw value and validating its trimmed value give the same verdict. |
| Validation.OnInput | IgarapeCafe.js:377-381 | Typing never marks a field that had no error class. A mark that remains means the current value fails a check, and its message is the one that check selects. Once the value passes, the marker is cleared. |
| Validation.OnBlur | IgarapeCafe.js:373-375 | After `blur` the field has the error class exactly when one of the checks selects an error, and its error message is exactly the one that check selects (none when all pass). |
| Validation.InputAfterBlurTracksValue | IgarapeCafe.js:373-381 | Once `blur` has marked a field as erroneous, the next `input` shows what a fresh validation of the new value shows. |
| Chars.Trim | index.js:407 | The trimmed text neither starts nor ends with whitespace. It is the infix of the input framed by whitespace on both sides. |
| Chars.TrimUnique | index.js:407 | Any trimmed infix framed by whitespace is the trim. This characterises `trim` independently of how it scans. |
| Chars.TrimIdempotent | IgarapeCafe.js:385 | Trimming twice is trimming once. |
| Chars.TrimEmptyIff | index.js:407-411 | The trimmed name is empty exactly when the raw value is all whitespace. |
| Chars.TrimKeepsDigits | index.js:151-153 | Trimming a label keeps its digits, in order. |
| Chars.TrimKeepsChar | index.js:151-154 | Trimming keeps every non-whitespace character, so the `%` and `+` tests see the same answer before and after. |
| Chars.DigitsAppend | index.js:153 | Removing the non-digits distributes over concatenation. |
| Chars.Digits | index.js:153 | `replace(/\D/g, '')` keeps only digits and never lengthens the text. A character is in the result iff it is a digit of the input. |
| Chars.DigitsLengthIsCount | IgarapeCafe.js:428 | The length of `replace(/\D/g, '')` is the number of positions of the input that hold a digit. |
| Utf8.DecodeEncode | index.js:425 | Decoding the UTF-8 encoding of any text gives the text back. |
| Utf8.EncodeChar | index.js:425 | A character encodes to one to four octets: one exactly for ASCII, equal to its code point; otherwise all octets are at least 0x80. |
| UriComponent.DecodeEncode | index.js:425 | Percent-decoding and then UTF-8-decoding the output of `encodeURIComponent` gives the original text back. |
| UriComponent.EncodeInjective | IgarapeCafe.js:173 | Different messages never share an encoding. |
| UriComponent.EncodeWellFormed | IgarapeCafe.js:173 | The encoded text consists only of unreserved characters and upper-case `%XX` triplets. |
| UriComponent.EncodeViaOctets | index.js:425 | `encodeURIComponent` is the octet-wise escape of the UTF-8 form. Unreserved ASCII octets are written as themselves; all others become `%XX`. |
| UriComponent.UnreservedUnchanged | index.js:425 | Text made only of A-Z a-z 0-9 - _ . ! ~ * ' ( ) is not changed by the encoding. |
| WhatsApp.LinkRoundTrip | index.js:425-429 | The message can be read back exactly from the deep link. |
| WhatsApp.LinkInjective | index.js:425-429 | Different messages never give the same deep link. |
| WhatsApp.LinkFor | IgarapeCafe.js:170-176 | The deep link is `https://wa.me/5524988805041?text=` followed by well-formed encoded text. |
| WhatsApp.CafeSubmit | IgarapeCafe.js:153-177 | The link opens iff both the name and the message type are non-empty. Otherwise the outcome is the error notification "Por favor, preencha todos os campos obrigatórios.". An opened link is exactly `https://wa.me/5524988805041?text=` followed by `encodeURIComponent` of type, blank line, "*Nome:* " and name, blank line, "Aguardo retorno!". Its query text is well-formed and decodes back to that message. |
| WhatsApp.CafeAcceptsBlankName | IgarapeCafe.js:153-157 | Because this handler does not trim, a name made of one space passes its check. |
| WhatsApp.IndexSubmit | index.js:407-432 | The link opens iff the raw name is not all whitespace and a message type is selected. Otherwise the outcome is the alert "Por favor, preencha seu nome e escolha o tipo de mensagem.". An opened link is exactly `https://wa.me/5524988805041?text=` followed by `encodeURIComponent` of the trimmed name, a blank line and the selected option's text. Its query text is well-formed and decodes back to that message. |
| WhatsApp.IndexExample | index.js:407-429 | Name "Ana" with the option "Quero um orçamento" opens `https://wa.me/5524988805041?text=Ana%0A%0AQuero%20um%20or%C3%A7amento`. |
| Navigation.IndexStep | index.js:12-33 | Every index.js event keeps menu and toggle in agreement when they agreed before, and after Escape the menu is never active. A link click closes both. A click outside the navbar closes both and a click inside changes nothing. A key other than Escape changes nothing. |
| Navigation.BubbledClicks | index.js:12-33 | A toggle or link click followed by its bubbled document click ends as the click alone when the element is inside the navbar, and closed when it is outside. |
| Navigation.IndexRunConsistent | index.js:10-34 | From a state where menu and toggle agree, every sequence of index.js events keeps them in agreement. |
| Navigation.EscapeCloses | index.js:385-395 | After Escape the menu is never active, and a state where menu and toggle agree ends fully closed. |
| Navigation.EscapeKeepsStrayToggle | index.js:390-393 | Escape only looks at the menu's class: with the menu closed and the toggle active, the toggle stays active. |
| Navigation.ToggleTwice | index.js:12-15 | Two toggle clicks restore any state, on both pages. |
| Navigation.ToggleParity | index.js:12-15 | Starting closed, `n` toggle clicks leave menu and toggle open exactly when `n` is odd. |
| Navigation.CafeStep | IgarapeCafe.js:14-47 | Every IgarapeCafe.js event keeps menu and toggle in agreement when they agreed before. A link click closes both. Document clicks and key presses change nothing, because the page has no listener for them. |
| Navigation.CafeBars | IgarapeCafe.js:19-45 | After a toggle click the bars are crossed exactly when the toggle is active. After a link click they are plain. |
| Navigation.CafeStepConsistent | IgarapeCafe.js:14-47 | Each event keeps menu, toggle and bars in agreement when they agreed before. |
| Navigation.AnchorClick | index.js:77-89 | An href of `#` or empty is followed without scrolling. A found target scrolls to its `offsetTop` minus 90. A missing target does nothing. |
| ActiveSection.AnchorLandsInBand | index.js:58-84 | When the anchor target is a section, the offset scrolled to lies in that section's active band iff the section is at least 110 pixels tall (band lead 200 minus header offset 90). |
| ActiveSection.AnchorHighlightsTarget | index.js:53-88 | Clicking the link `#id` of a section at least 110 pixels tall scrolls, and when no later section's band holds that offset, the scroll handler then marks exactly the links to that section active. |
| ActiveSection.Highlight | index.js:62-67 | After a matching section, a link is active exactly when its href is `#` followed by the section id, whatever its previous mark. The links themselves are unchanged. |
| ActiveSection.Remark | index.js:62-67 | The loop over the links, each losing `active` and regaining it when it names the section, leaves exactly the links to that section active. |
| ActiveSection.NoMatchUnchanged | index.js:53-70 | When no section's band holds the scroll offset, the links keep their marks. |
| ActiveSection.LastMatchWins | index.js:53-70 | The active links are exactly those pointing at the last matching section, whatever the earlier matches and the previous marks. |
| ActiveSection.LastMatch | index.js:56-61 | The reference scan from the end finds nothing iff no section matches. Otherwise it finds the last matching one. |
| ActiveSection.MakeNavLinkActiveSpec | index.js:53-70 | `makeNavLinkActive` leaves the links alone when nothing matches, and otherwise highlights the links of the last match found by scanning from the end. |
| Stats.ParseStatLabel | index.js:151-154 | The target is absent (NaN) iff the label has no digit. Otherwise it is the decimal value of the label's digits. The suffix is `%` iff the label has a `%`, `+` iff it has a `+` but no `%`, and empty otherwise. |
| Stats.NumeralValue | index.js:138 | Reading back the decimal numeral of `n` gives `n`. |
| Stats.FinalTextRoundTrip | index.js:138-153 | The text a counter ends on parses back to the target and suffix it started from, including the NaN case. |
| Stats.ParseFinalParse | index.js:151-160 | Parsing a counter's final text gives the same label as parsing the original. |
| Stats.AnimateCounter | index.js:122-143 | For a NaN target (a label without digits) the only frame is "NaN" and the suffix. With the default duration a positive target takes 125 frames and zero takes one. Each frame before the last shows the floored running value, which is below the target, followed by the suffix. The last frame shows the target and the suffix. |
| Stats.CountUp | index.js:126-140 | For a numeric target: 125 frames when positive and one when zero, each earlier frame the floored running value below the target plus the suffix, the last frame the target plus the suffix. |
| Stats.FrameArithmetic | index.js:126-130 | The running value stays below a positive target for exactly the first 124 increments. |
| Stats.OnEntry | index.js:146-164 | The counters start only on a section not yet animated, which is then marked animated. |
| Stats.AnimatedNeverStarts | index.js:148 | A section marked `data-animated` never starts its counters again. |
| Stats.AnimatesAtMostOnce | index.js:146-166 | A fresh section starts its counters at most once, and exactly once when some entry reports it intersecting. |

## Left out

- modelo3d.js is not part of this model. It drives a 3D viewer and nothing in the two modelled scripts calls it.
- Timing is left out: `requestAnimationFrame`, `setTimeout`, CSS transitions and the `IntersectionObserver` machinery are not modelled. The observer's entries are given as a sequence of `isIntersecting` flags.
- Stats.AnimateCounter: the running value is kept in exact rational arithmetic (scaled by 125). IEEE-754 rounding of `target / 125` and of the repeated addition is not modelled, so for some targets the real page can show one frame more or fewer.
- Stats.ParseStatLabel: numbers are unbounded. `parseInt` beyond 2^53 loses precision in JavaScript, and `Numeral` does not switch to exponent notation for very large values.
- Leading zeros: `String(n)` of the parsed target drops them. The round trip is therefore stated from target and suffix, not from an arbitrary label text.
- DOM effects beyond the modelled ones are left out. These include form `reset`, the button text change of IgarapeCafe.js, inline bar styles (reduced to `Crossed`/`Plain`) and the error element's CSS.
- The other IgarapeCafe.js features are left out: its smooth scroll by header height, product-card effects, notifications' rendering, the header scroll effect and other decorative animations. None of them is part of the form, menu or counter logic modelled here.
- Missing elements are not modelled. The scripts assume the menu, toggle, navbar and form elements exist; a missing `navbar` makes index.js skip the outside-click close.
- Toggle and link clicks are modelled as single events. In index.js they also bubble to the document listener, so they match the page when the toggle and the links sit inside `.navbar`; `Navigation.BubbledClicks` states what the bubbled click adds in either case.
- The browser clamps `window.scrollTo` to the scrollable range; the model takes the requested offset as the new `pageYOffset`.
- `document.querySelector` with a malformed selector throws; the model treats every `href` as a key that either finds a target or not.
- Lone UTF-16 surrogates, for which `encodeURIComponent` throws `URIError`, cannot occur: Dafny characters are Unicode scalar values.
- UriComponent.PercentDecode: this is a partner of the encoder, not a page function. It accepts `%XX` triplets and literal ASCII characters only, which is all the encoder produces.
- Each form field is assumed to have its own parent element. `validateField` removes the first `.error-message` under the field's parent and appends its own there, so two fields sharing a parent can remove each other's messages; the model keeps one view per field and does not consult the previous view.
- `selectedOptions[0].text` of index.js is taken as a given string. When the select has a value, a selected option exists.
