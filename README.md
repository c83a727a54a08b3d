# A verified model of the portfolio page script

`script.js` drives a one-page portfolio. This project models the logic under
the DOM and timer plumbing:

- the hero typing effect, a timer-driven state machine (`typing.dfy`, module `Typing`);
- the mobile navigation menu's `active` class and `aria-expanded` attribute (`mobile_nav.dfy`, `MobileNav`);
- the smooth-scroll target of a nav link, and the scroll spy that marks the link of the section under the probe line (`scroll_spy.dfy`, `ScrollSpy`);
- the contact form's submit handler. That covers the honeypot guard, trimming, the ordered validation, `validateEmail`, the default subject and the exact `mailto:` URI the browser is sent to (`contact.dfy`, `Contact`). It rests on:
  - JavaScript's `trim` and `\s` white space (`js_string.dfy`, `JsString`), with an `indexOf` that script.js itself never calls but the email scan and the `mailto:` reader use;
  - a full `encodeURIComponent` with a reference decoder as its partner (`uri_component.dfy`, `UriComponent`);
  - a lenient reader for `mailto:` URIs (`mailto.dfy`, `MailtoUri`). It cuts the URI at the first `#` and the recipient at the first `?`, splits the query at every `&` and each field at its first `=`. It does not enforce the character classes of RFC 6068 (the page's own link holds a raw space in `&body=Name: `). Because the reader parses the serialised link back, the layout is proved rather than just restated.
- the back-to-top button's visibility threshold (`back_to_top.dfy`, `BackToTop`);
- the hire panel: the fallback lookup of its trigger, the `#` intercept rule and the `aria-hidden` show/hide/Escape rules (`hire_panel.dfy`, `HirePanel`).

`wrappers.dfy` holds the `Option` type.

Where the page changes state in place, the model does the same:
- a `Typewriter` class whose `Tick` updates the closure variables of `typeLoop`;
- a `Menu` class for the navigation menu;
- a mark array that `UpdateActive` rewrites in a loop, like the scroll handler's `forEach`;
- a `BackButton` class list;
- a `HireController` whose handlers set the `aria-hidden` attribute.

Each of these is proved against a pure function of the old state (`Step`, `Toggled`, `Closed`, `ActiveMarks`, `Checked`, `Shown`, `Hidden`, `AfterKey`). The properties are proved about those functions.

The scroll spy clears the marks only inside the matching branch (script.js:122-125), so:
- when several sections hold the probe, the last one in document order is marked;
- a probe in a gap between sections leaves the previous marks as they were.

`ActiveMarksMeaning` states exactly this. `NonOverlappingSelectsContaining` shows that on a page whose sections do not overlap, first and last match coincide.

Sending the form builds this link: `"mailto:" + RECEIVER_EMAIL + "?subject=" + enc(subject) + "&body=Name: " + name + "%0D%0AEmail: " + email + "%0D%0A%0D%0A" + enc(message)`. The name and email go in raw. The link reads back as a subject and a body hfield that decode to the subject and the intended mail text when the raw parts hold no `&`, `#` or `%` (`MailtoRoundTrip`). Whatever the raw parts hold, the recipient and the subject always read back (`MailtoLink`). `AmpersandInNameSplitsBody` shows what a raw `&` in the name does. The page inserts them raw, so the model keeps that behaviour and states its limit.

## Model

| member | source | states |
|---|---|---|
| Typing.HeroWordsWellFormed | script.js:14-19 | the four hero phrases are a non-empty list of non-empty phrases, and the initial state (0, 0, typing) satisfies the invariant |
| Typing.Step | script.js:29-52 | one tick preserves the invariant: the word index is in range, the char index is within the phrase, short of its end while typing and at least 1 while deleting; the text shown is the first charIndex characters of the new current phrase |
| Typing.SliceTo | script.js:33-43 | `slice(0, end)` is always a prefix of the string: the first end characters when 0 <= end <= the length, the whole string past the end, and for a negative end all but the last -end characters (none when that is more than the length) |
| Typing.StepTransitions | script.js:31-51 | typing to the last character switches to deleting with the 1200 ms pause and shows the whole phrase; typing otherwise advances at 80 ms; deleting the last character returns to typing the next phrase (index + 1 modulo the count) with empty text; deleting otherwise goes back one character at 40 ms |
| Typing.StepDelay | script.js:35-51 | the delay is the pause exactly when a phrase was just completed, the backspace speed exactly when deleting continues, the typing speed exactly when the next tick types |
| Typing.After | script.js:29-52 | the invariant holds after any number of ticks |
| Typing.Trace | script.js:29-52 | k ticks produce k (text, delay) pairs |
| Typing.TypingPhase | script.js:31-40 | typing from character c shows the prefixes of lengths c+1 … n at the typing speed, the last with the pause, and ends deleting at the full phrase |
| Typing.DeletingPhase | script.js:41-49 | deleting from character c shows the prefixes of lengths c-1 … 0 at the backspace speed, the last at the typing speed, and ends typing the next phrase from its start |
| Typing.AfterAdd | script.js:29-52 | j + k ticks are j ticks followed by k ticks |
| Typing.WordCycle | script.js:29-52 | a phrase of n characters is shown whole after n ticks, emptied after 2n, and then the next phrase (wrapping round) starts from character 0 |
| Typing.Typewriter.constructor | script.js:25-27 | the animator starts at word 0, character 0, typing, with the invariant |
| Typing.Typewriter.Tick | script.js:29-52 | the timer callback updates the closure variables and the text exactly as Step does, returns its delay and keeps the text equal to the current phrase's prefix |
| Typing.Start | script.js:54-55 | page load builds the animator over the hero phrases and schedules its first tick after 400 ms |
| MobileNav.Toggled | script.js:62-67 | a click flips the `active` class and sets `aria-expanded` to the negation of whether it read "true" |
| MobileNav.Closed | script.js:71-76 | closing leaves the panel without `active`; an open panel gets `aria-expanded` "false"; a closed one is untouched |
| MobileNav.ToggleAgreement | script.js:62-67 | a toggle keeps the class and the attribute in agreement if and only if they agreed before |
| MobileNav.ToggleSyncs | script.js:62-67 | from an agreeing state, a toggle leaves the attribute equal to the literal String(active) |
| MobileNav.ToggleTwice | script.js:62-67 | two toggles restore any state whose attribute is "true" or "false" |
| MobileNav.CloseIdempotent | script.js:81-86 | closing twice is closing once |
| MobileNav.CloseAgreement | script.js:81-86 | close keeps agreement and never leaves "true"; from a synced state it ends closed with `aria-expanded` "false" |
| MobileNav.Menu.constructor | script.js:57-61 | the handlers are attached over the button's `aria-expanded` attribute and the panel's `active` class as the page holds them |
| MobileNav.Menu.Toggle | script.js:62-67 | the click handler changes the two attributes as Toggled does, and from agreement ends synced |
| MobileNav.Menu.CloseIfOpen | script.js:81-91 | the link-click, scroll, wheel and touchmove handler changes the state as Closed does and always ends without `active` |
| ScrollSpy.TargetId | script.js:97 | the target id is the href without its leading '#' |
| ScrollSpy.SectionsOf | script.js:95-99 | each nav link's section is present exactly when its target id is non-empty and an element has it (getElementById finds nothing for ""), and is that element |
| ScrollSpy.ScrollTarget | script.js:102-112 | a click scrolls exactly when the target id is non-empty and an element has it, to its viewport top plus the page offset minus the 80 px header allowance |
| ScrollSpy.BareHashHasNoTarget | script.js:95-112 | a bare "#" link has no section and scrolls nowhere, whatever the page holds |
| ScrollSpy.LastMatch | script.js:118-126 | the result is a present section whose span holds the probe with no later one holding it, or None when no section holds it |
| ScrollSpy.ActiveMarks | script.js:118-126 | the marks keep their length; with no matching section they are unchanged, otherwise exactly the last matching link is marked |
| ScrollSpy.UpdateActive | script.js:116-127 | the scroll handler's loop rewrites the mark array in place into ActiveMarks of the old marks |
| ScrollSpy.ActiveMarksMeaning | script.js:116-127 | with a match, exactly one link is active afterwards, the last matching one; with no match the marks are unchanged |
| ScrollSpy.NonOverlappingSelectsContaining | script.js:116-127 | when sections do not overlap, a probe inside section k activates link k alone |
| JsString.LeadingSpace | script.js:160-163 | the leading characters counted are all white space, and the next one, if any, is not |
| JsString.TrailingSpace | script.js:160-163 | everything from the returned position on is white space, and the character before it, if any, is not |
| JsString.TrimStart | script.js:160-163 | the result is a suffix of s; everything dropped is white space; it does not start with white space |
| JsString.TrimEnd | script.js:160-163 | the result is a prefix of s; everything dropped is white space; it does not end with white space |
| JsString.Trim | script.js:160-163 | the result is no longer than s and neither starts nor ends with white space |
| JsString.TrimIsMiddle | script.js:160-163 | trim returns the middle of s that starts right after the leading white space, with only white space on either side |
| JsString.TrimEmpty | script.js:155 | trimming leaves "" exactly when s is all white space |
| JsString.TrimIdempotent | script.js:160-163 | trimming twice is trimming once |
| JsString.IndexOf | script.js:141-143 | the first position of c, or the length when c is absent; no earlier position holds c |
| UriComponent.HexDigit | script.js:182-183 | the digit is an upper-case hex digit and denotes n |
| UriComponent.EncodeChar | script.js:182-183 | a character encodes to itself exactly when it is unreserved, otherwise to a '%'-led run of three characters per UTF-8 byte; the result is well encoded |
| UriComponent.EncodeURIComponent | script.js:182-183 | the output is well encoded (unreserved characters and %XX triples) and no shorter than the input |
| UriComponent.Utf8 | script.js:182-183 | a character becomes 1 to 4 bytes, 1 exactly for ASCII |
| UriComponent.Utf8RoundTrip | script.js:182-183 | the lead byte announces the sequence's length, and decoding the bytes (rejecting overlong forms, surrogates and code points past U+10FFFF) gives the character back |
| UriComponent.Utf8RoundTrip2 | script.js:182-183 | the two-byte case of the round trip |
| UriComponent.Utf8RoundTrip3 | script.js:182-183 | the three-byte case of the round trip |
| UriComponent.Utf8RoundTrip4 | script.js:182-183 | the four-byte case of the round trip |
| UriComponent.PercentBytes | script.js:182-183 | n bytes become 3n characters |
| UriComponent.ReadPercentBytesOfEncoding | script.js:182-183 | reading n %XX triples back from an encoding gives the n bytes |
| UriComponent.DecodePercentSequence | script.js:182-183 | a percent-encoded UTF-8 sequence at the front decodes to its character |
| UriComponent.DecodeEncodeChar | script.js:182-183 | an encoded character at the front decodes to that character |
| UriComponent.PrefixedTwice | script.js:182-183 | prefixing a decode result twice is prefixing once with both strings |
| UriComponent.DecodeEncodedPrefix | script.js:182-183 | an encoded string at the front decodes to itself, whatever follows |
| UriComponent.DecodeEncode | script.js:182-183 | decodeURIComponent(encodeURIComponent(s)) is s for every string |
| UriComponent.DecodePlainPrefix | script.js:182 | text without '%' at the front decodes to itself |
| UriComponent.WellEncodedConcat | script.js:182-183 | two well-encoded strings concatenate to a well-encoded one |
| UriComponent.PercentBytesWellEncoded | script.js:182-183 | %XX triples are well encoded |
| UriComponent.WellEncodedAlphabet | script.js:182-183 | a well-encoded string uses only unreserved characters, '%' and upper-case hex digits |
| UriComponent.WellEncodedAvoids | script.js:182-183 | a well-encoded string holds no '&', '#', '=' or '?' |
| UriComponent.EncodedHasNoDelimiters | script.js:182-183 | encoded output holds no '&', '#', '=' or '?' |
| UriComponent.CrLfEncoding | script.js:182 | the template's literal %0D%0A is the encoding of CR LF |
| Contact.ValidateEmail | script.js:141-143 | validateEmail accepts exactly the strings A@B.C, where A, B and C are non-empty runs of characters other than white space and '@'; an accepted address has no white space |
| Contact.EmailScanSound | script.js:141-143 | every string the scan accepts has the form A@B.C |
| Contact.EmailScanComplete | script.js:141-143 | every string of the form A@B.C passes the scan |
| Contact.EmailScanIsPattern | script.js:141-143 | the scan accepts exactly the strings of the form A@B.C |
| Contact.PatternParts | script.js:141-143 | in A@B.C no character is white space and the only '@' is the separator |
| Contact.AcceptedEmailShape | script.js:141-143 | an accepted address passes the scan, has no white space and exactly one '@' |
| Contact.SubjectOrDefault | script.js:162 | the subject is never blank: the default when the input is all white space, the trimmed input otherwise |
| Contact.Validate | script.js:153-168 | the form is ignored exactly when the honeypot holds non-blank text; otherwise the first failing check (name empty, email invalid, message under 10 characters) rejects it with its own field and message, and it is accepted exactly when all three pass, with the trimmed name, email and message and the subject or its default |
| Contact.Submit | script.js:150-158 | the handler produces no effect exactly when the honeypot holds non-blank text |
| Contact.ValidationOrder | script.js:160-168 | on trimmed values the first failing check (name empty, email invalid, message under 10 characters) shows its own message, focuses its own field and stops; acceptance holds exactly when all three pass |
| Contact.AcceptedEffects | script.js:170-195 | an accepted submission has ten effects: it disables the button, labels it "Sending...", waits 750 ms, shows the success status, navigates (the only navigation), waits 900 ms, and then re-enables the button, restores its label, resets the form and shows the cleared status |
| Contact.SubmitOnAccept | script.js:170-195 | an accepted verdict runs the accepted path with the mailto link of the accepted fields |
| Contact.AcceptedSubmission | script.js:150-195 | a valid form sends the browser to the mailto link of its trimmed fields and subject |
| Contact.MailBody | script.js:182 | the body hfield holds no '&' or '#' when the raw name and email hold no '&', '#' or '%', and decodes to "Name: …\r\nEmail: …\r\n\r\n" plus the message when they hold no '%' |
| Contact.BodyAvoidsDelimiters | script.js:182 | the body template around safe raw parts holds neither '&' nor '#' |
| Contact.BodyDecodes | script.js:182 | the body template decodes to the intended mail text when the raw name and email hold no '%' |
| Contact.DecodeCrLfPrefix | script.js:182 | the template's encoded line break decodes to CR LF, whatever follows |
| Contact.DecodeLines | script.js:182 | two lines without '%' and an encoded message, joined by encoded line breaks, decode to the lines joined by CR LF |
| Contact.LinesAvoid | script.js:182 | lines built from parts that avoid a character avoid it |
| Contact.ReceiverPlain | script.js:137 | the receiver address holds neither '?' nor '#' |
| Contact.LinkPieces | script.js:183 | the link is the scheme, the receiver, '?', then the subject hfield, '&' and the body hfield |
| Contact.LinkSubjectReadsBack | script.js:183 | with a subject free of '&' and '#', the link reads back with the receiver as recipient and the subject hfield first, followed by at least one more, whatever the body holds |
| Contact.LinkReadsBack | script.js:183 | a subject and a body free of '&' and '#' read back as the receiver with exactly those two hfields |
| Contact.LinkOf | script.js:183 | a subject free of '&' and '#' always reads back as the first hfield after the receiver; with a body free of them too, the link reads back as exactly the subject and body hfields |
| Contact.MailtoLink | script.js:182-183 | whatever the raw name and email hold, the link reads back with the receiver as recipient and the subject hfield first, and that hfield decodes to the subject |
| Contact.MailtoRoundTrip | script.js:182-183 | with no '&', '#' or '%' in the raw name and email, the link parses back as the receiver with hfields subject and body, which decode to the subject and to the intended mail text |
| Contact.BodyAfterNameAvoids | script.js:182 | the body after a raw '&' in the name avoids a character its parts avoid |
| Contact.AmpersandBody | script.js:182 | a raw '&' in the name splits the body where it stands |
| Contact.LinkOfSplitBody | script.js:183 | a body with one '&' reads back as a shortened body hfield and a third hfield |
| Contact.SplitBodyPieces | script.js:183 | a link whose body holds one '&' is the scheme, the receiver, the subject hfield, "body=", the part before the '&', '&' and the rest |
| Contact.AmpersandInNameSplitsBody | script.js:182-183 | a raw '&' in the name ends the body hfield there: the link reads back with three hfields, and the body decodes to "Name: " and the part of the name before the '&' |
| Contact.AmpersandLink | script.js:182-183 | with a raw '&' in the name, the link is the one around the name line before it, '&' and the rest of the body |
| Contact.RestAvoids | script.js:182-183 | the encoded subject, and the body after the name's '&' when the rest of the name and the email have no delimiters, hold no '&', '#' or '=' |
| Contact.NameLineDecodes | script.js:182 | a name line without '%' decodes to itself |
| MailtoUri.BeforeFirst | script.js:183 | the part before the first c holds no c, and is all of s when s has no c |
| MailtoUri.AfterFirst | script.js:183 | when s holds c, s is the part before it, c, and this part |
| MailtoUri.BeforeFirstPrefix | script.js:183 | a prefix without c is kept whole when cutting at the first c |
| MailtoUri.SplitOn | script.js:183 | splitting always yields at least one field |
| MailtoUri.ParseHeaders | script.js:183 | one hfield per '&'-separated field |
| MailtoUri.BeforeAfterOfJoin | script.js:183 | a + c + b with no c in a splits at that c into a and b |
| MailtoUri.SplitOnJoin | script.js:183 | a + sep + b with no sep in a splits into a followed by the fields of b |
| MailtoUri.SplitOnNone | script.js:183 | a string without the separator is one field |
| MailtoUri.ParseWithQuery | script.js:183 | a URI with a plain recipient and a fragment-free query reads back as that recipient and the query's hfields |
| MailtoUri.HeadersOfTwo | script.js:183 | a query of two fields has those fields' two hfields |
| MailtoUri.ParseTwoFields | script.js:183 | two delimiter-free hfields read back as themselves |
| MailtoUri.ParseTwoHeaders | script.js:183 | a recipient and two delimiter-free hfields read back as exactly those parts |
| MailtoUri.ParseFirstHeader | script.js:183 | a plain recipient and a delimiter-free first hfield read back as themselves, followed by at least one more hfield, whatever comes after |
| MailtoUri.SplitThree | script.js:183 | three pieces without '&' joined by '&' split back into themselves |
| MailtoUri.HeadersOfThree | script.js:183 | a query of three fields has those fields' three hfields |
| MailtoUri.ParseThreeFields | script.js:183 | a third field without '=' reads back as a name with an empty value |
| MailtoUri.ParseThreeHeaders | script.js:183 | a recipient and three such fields read back as exactly those parts |
| BackToTop.Checked | script.js:207-208 | after a check the button has `visible` exactly when the page is scrolled strictly past 300 px, and keeps every other class |
| BackToTop.ThresholdIsStrict | script.js:203-208 | at exactly 300 px the button is hidden; past it, shown |
| BackToTop.LatestCheckWins | script.js:205-212 | a check overrides every earlier one |
| BackToTop.ShownStaysShownBelow | script.js:205-209 | scrolling further down never hides a shown button |
| BackToTop.BackButton.constructor | script.js:202 | the button starts with the page's class list |
| BackToTop.CheckBackButton | script.js:205-213 | with a button, its class list becomes Checked of the old one and `visible` is present exactly past the threshold; without one nothing happens |
| HirePanel.FirstPresent | script.js:225-228 | the result is None exactly when every candidate is missing; otherwise it is the first present candidate |
| HirePanel.FirstOfFour | script.js:225-228 | of four candidates the first present one is chosen, the last only when the other three are missing |
| HirePanel.HireTrigger | script.js:225-228 | the home button wins when present, then the hire link, then `.btn.hire`, then any `.btn` |
| HirePanel.Intercepts | script.js:253-255 | a click is intercepted exactly when the href exists, is non-empty and starts with '#' |
| HirePanel.Shown | script.js:234-242 | showing sets `aria-hidden` to "false" when the section exists and changes nothing otherwise |
| HirePanel.Hidden | script.js:243-246 | hiding sets `aria-hidden` to "true" when the section exists and changes nothing otherwise |
| HirePanel.ShowOpens | script.js:234-246 | showing opens the panel exactly when it exists; hiding never leaves it open |
| HirePanel.AfterKey | script.js:290-291 | a key changes the panel exactly when it is Escape and the panel is open; Escape always leaves it closed |
| HirePanel.EscapeAfterShow | script.js:234-293 | Escape right after showing is hiding, whether or not the panel exists |
| HirePanel.ShowHideLatestWins | script.js:234-246 | show and hide are idempotent and the later one wins |
| HirePanel.AbsentPanelInert | script.js:234-293 | without the section, show, hide and every key change nothing |
| HirePanel.HireController.constructor | script.js:225-231 | the trigger is the first present candidate |
| HirePanel.HireController.Show | script.js:234-242 | sets the attribute as Shown does |
| HirePanel.HireController.Hide | script.js:243-246 | sets the attribute as Hidden does |
| HirePanel.HireController.OnTriggerClick | script.js:249-262 | when a trigger exists and its href starts with '#', the default is prevented and the panel shown; otherwise nothing changes |
| HirePanel.HireController.OnCloseClick | script.js:249-270 | with a trigger and a close button, the default is prevented and the panel hidden; otherwise nothing changes |
| HirePanel.HireController.OnKeyDown | script.js:249-293 | with a trigger, a key acts as AfterKey; without one nothing is attached |

## Left out

- Timers: each `setTimeout` callback is one step, and its delay is a returned value or a `Wait` effect. Real time and interleaving with other events are not modelled.
- DOM lookups and event registration: elements enter as parameters. Where the page guards a lookup, an `Option` or a boolean says whether the element exists; lookups the page does not guard are assumed to succeed (see the `Contact` line below).
- Layout geometry (`offsetTop`, `offsetHeight`, `getBoundingClientRect`, `pageYOffset`, `scrollY`, `innerHeight`): these are parameters. The scroll-spy probe `scrollY + innerHeight * 0.2` is taken as a given real.
- Browser side effects are not modelled: the smooth-scroll animation, `scrollTo`, `scrollIntoView`, `focus`, `blur`, the real `window.location.href` navigation (a `Navigate` effect stands for it) and the status colours.
- The back-to-top click handler only prevents the default, scrolls to the top and blurs the button, all browser side effects.
- The hire panel's proceed button only scrolls and focuses, both browser side effects.
- Typing.Typewriter: the model assumes `.typed` exists (without it the page throws on the first tick and the animation stops) and that it starts empty. The text is a field of the animator.
- MobileNav.Menu: modelled only for the case where both `.menu-btn` and `nav` exist. Otherwise the page attaches nothing.
- Contact.Submit: the handler first calls `e.preventDefault()`, which stops the browser's own form submission. That is a browser side effect, not an Effect, so a filled honeypot produces no effect even though the default is still prevented.
- Contact: the model assumes that `#contact-status`, the submit button and the name, email, subject and message controls all exist; the page does not guard them. Without `#contact-status`, `showStatus` throws (script.js:146): a rejected form then never gets its `focus()`, and an accepted one throws inside the 750 ms callback before the navigation. Without the submit button, script.js:172 throws and nothing is scheduled. Without a control, trimming its value throws before any check.
- Contact: the guard for a missing contact form, which returns before anything is attached, is not modelled.
- Contact: the initial and restored button label is not modelled. `RestoreSubmitLabel` stands for restoring whatever text the button had.
- Contact.ValidationOrder: the length check counts Unicode scalar values. JavaScript counts UTF-16 code units, so a message with characters outside the Basic Multilingual Plane can pass in JavaScript with fewer than 10 such characters.
- UriComponent: strings are sequences of Unicode scalar values, so the URIError that `encodeURIComponent` throws on a lone surrogate cannot arise.
- Contact.MailtoRoundTrip: stated only for a raw name and email without '&', '#' and '%'. The page inserts those two fields unencoded, and AmpersandInNameSplitsBody shows what an '&' does.
- The regular-expression engine behind `validateEmail` is not modelled. The regular expression is stated as a declarative predicate (`EmailPattern`) and decided by a scan.
